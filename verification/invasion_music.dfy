/** `ExampleInvasionMusic.IsSceneEffectActive`: whether the invasion's track plays for a
    player. */
module InvasionMusic {
  import opened ExampleInvasion
  import SpawnRates

  function IsSceneEffectActive(s: State, where: Surroundings): (r: bool)
    ensures r <==> s.isActive && where.zoneForest && where.isDay
  {
    if s.isActive then
      if where.zoneForest && where.isDay then true else false
    else
      false
  }

  /** The music plays for a player exactly when that player's spawn rates are taken
      over, so what one hears and what spawns never disagree. */
  lemma MusicIffSpawnOverride(s: State, where: Surroundings, spawnRate: int, maxSpawns: int)
    requires (spawnRate, maxSpawns) != (100, 25)
    ensures IsSceneEffectActive(s, where)
            <==> SpawnRates.EditSpawnRate(s, where, spawnRate, maxSpawns) == (100, 25)
  {
  }
}

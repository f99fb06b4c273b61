/** `ExampleInvasionSpawnRates`: while the invasion is running and the player stands in
    the forest by day, spawns come faster and only from the two invasion enemies. */
module SpawnRates {
  import opened ExampleInvasion

  const InvasionSpawnRate: int := 100
  const InvasionMaxSpawns: int := 25
  /** The weight each invasion enemy is added with; the two add up to 100. */
  const InvasionWeight: real := 50.0

  /** Membership in the two-entry `invasionEnemies` list. */
  predicate IsInvasionEnemy(t: int, zombie: int, bat: int)
  {
    t == zombie || t == bat
  }

  /** `EditSpawnRate`: returns the new `(spawnRate, maxSpawns)` pair. */
  function EditSpawnRate(s: State, where: Surroundings, spawnRate: int, maxSpawns: int): (r: (int, int))
    ensures InvasionHere(s, where) ==> r == (100, 25)
    ensures !InvasionHere(s, where) ==> r == (spawnRate, maxSpawns)
  {
    if s.isActive then
      if where.zoneForest && where.isDay then (InvasionSpawnRate, InvasionMaxSpawns)
      else (spawnRate, maxSpawns)
    else
      (spawnRate, maxSpawns)
  }

  /** When the host's values are not already (100, 25), the rates change exactly when
      the invasion is running here. */
  lemma SpawnRateChangesIff(s: State, where: Surroundings, spawnRate: int, maxSpawns: int)
    requires (spawnRate, maxSpawns) != (100, 25)
    ensures EditSpawnRate(s, where, spawnRate, maxSpawns) != (spawnRate, maxSpawns) <==> InvasionHere(s, where)
  {
  }

  /** The pool after the invasion entries are added and every type in `[0, upTo)` that
      is not an invasion enemy is removed. */
  function FilteredPool(pool: map<int, real>, upTo: int, zombie: int, bat: int): map<int, real>
  {
    map k | k in pool.Keys + {zombie, bat} && (IsInvasionEnemy(k, zombie, bat) || !(0 <= k < upTo))
      :: if IsInvasionEnemy(k, zombie, bat) then InvasionWeight else pool[k]
  }

  /** `EditSpawnPool`. `Dictionary.Add` throws on a key already present, so when the
      edit happens the two invasion types must not be in the pool yet; the host's pool
      holds them only through `SpawnChance`, which these NPCs do not define. */
  method EditSpawnPool(s: State, where: Surroundings, pool: map<int, real>, npcCount: int, zombie: int, bat: int)
    returns (pool': map<int, real>)
    requires 0 <= zombie < npcCount && 0 <= bat < npcCount && zombie != bat
    requires InvasionHere(s, where) ==> zombie !in pool && bat !in pool
    ensures !InvasionHere(s, where) ==> pool' == pool
    ensures InvasionHere(s, where) ==> pool' == FilteredPool(pool, npcCount, zombie, bat)
    ensures InvasionHere(s, where) ==>
      forall k :: 0 <= k < npcCount && k in pool' ==> IsInvasionEnemy(k, zombie, bat)
    ensures InvasionHere(s, where) ==>
      zombie in pool' && pool'[zombie] == 50.0 && bat in pool' && pool'[bat] == 50.0
    ensures InvasionHere(s, where) ==>
      forall k :: !(0 <= k < npcCount) ==> (k in pool' <==> k in pool) && (k in pool ==> pool'[k] == pool[k])
  {
    pool' := pool;
    if s.isActive {
      if where.zoneForest && where.isDay {
        pool' := pool'[zombie := InvasionWeight];
        pool' := pool'[bat := InvasionWeight];
        var t := 0;
        while t < npcCount
          invariant 0 <= t <= npcCount
          invariant pool' == FilteredPool(pool, t, zombie, bat)
        {
          if !IsInvasionEnemy(t, zombie, bat) {
            pool' := pool' - {t};
          }
          t := t + 1;
        }
      }
    }
  }

  /** Total weight of the pool's entries whose type lies in `[0, n)`. */
  function WeightBelow(pool: map<int, real>, n: nat): real
  {
    if n == 0 then 0.0
    else WeightBelow(pool, n - 1) + (if n - 1 in pool then pool[n - 1] else 0.0)
  }

  lemma {:induction false} FilteredWeightBelow(pool: map<int, real>, npcCount: int, zombie: int, bat: int, n: nat)
    requires 0 <= zombie < npcCount && 0 <= bat < npcCount && zombie != bat
    requires n <= npcCount
    ensures WeightBelow(FilteredPool(pool, npcCount, zombie, bat), n)
            == (if zombie < n then 50.0 else 0.0) + (if bat < n then 50.0 else 0.0)
  {
    if n > 0 {
      FilteredWeightBelow(pool, npcCount, zombie, bat, n - 1);
    }
  }

  /** After the edit the weights of all modelled NPC types add up to 100, as the
      source's comment intends. */
  lemma FilteredPoolWeighs100(pool: map<int, real>, npcCount: int, zombie: int, bat: int)
    requires 0 <= zombie < npcCount && 0 <= bat < npcCount && zombie != bat
    ensures WeightBelow(FilteredPool(pool, npcCount, zombie, bat), npcCount) == 100.0
  {
    FilteredWeightBelow(pool, npcCount, zombie, bat, npcCount);
  }
}

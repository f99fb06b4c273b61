/** `InvasionSummon`: the item that starts the invasion. */
module InvasionSummon {
  import opened MachineInts
  import opened ExampleInvasion

  /** Extra kills demanded for each active player beyond the first. */
  const KillsPerExtraPlayer: int := 25

  /** `CanUseItem`: refused while an invasion runs, and outside the forest or at night. */
  function CanUseItem(s: State, where: Surroundings): (r: bool)
    ensures s.isActive ==> !r
    ensures r <==> !s.isActive && where.zoneForest && where.isDay
  {
    if s.isActive then false
    else if !where.zoneForest || !where.isDay then false
    else true
  }

  /** `UseItem` with `players` active players: starts the invasion and adds 25 kills per
      extra player to whatever the threshold already is, in unchecked 32-bit arithmetic.
      The kill count is not touched. Always reports the use as handled. */
  function UseItem(s: State, players: nat): (r: (State, bool))
    ensures r.0.isActive
    ensures r.0.killCount == s.killCount
    ensures r.1
    ensures (r.0.killsNeeded as int - (s.killsNeeded as int + 25 * (players - 1))) % TWO_32 == 0
    ensures INT32_MIN <= s.killsNeeded as int + 25 * (players - 1) <= INT32_MAX ==>
      r.0.killsNeeded as int == s.killsNeeded as int + 25 * (players - 1)
    ensures players >= 1 && s.killsNeeded as int + 25 * (players - 1) <= INT32_MAX ==>
      r.0.killsNeeded >= s.killsNeeded
    ensures players == 1 ==> r.0.killsNeeded == s.killsNeeded
  {
    (State(true, s.killCount, Wrap32(s.killsNeeded as int + KillsPerExtraPlayer * (players - 1))), true)
  }

  /** The threshold is raised, never reset: two activations with the same number of
      players, with the invasion ended in between, add the bonus twice. */
  lemma ThresholdAccumulates(s: State, players: nat)
    requires players >= 1
    requires s.killsNeeded as int + 50 * (players - 1) <= INT32_MAX
    ensures var first := UseItem(s, players).0;
      var ended := PreUpdateWorld(first.(killCount := first.killsNeeded));
      UseItem(ended, players).0.killsNeeded as int == s.killsNeeded as int + 50 * (players - 1)
  {
  }
}

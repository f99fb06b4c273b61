/** The invasion's world state (the three static fields of `ExampleInvasion`) and the
    per-tick completion check `PreUpdateWorld`. */
module ExampleInvasion {
  import opened MachineInts

  /** The threshold a fresh process starts with: 120 less the 40 the comment sets aside
      for multiplayer scaling. */
  const BaseKillsNeeded: Int32 := 120 - 40

  /** `isActive`, `killCount` and `killsNeeded`, process-wide statics in the source. */
  datatype State = State(isActive: bool, killCount: Int32, killsNeeded: Int32)

  /** Where a player stands and what time it is: the gate every invasion effect checks
      (`player.ZoneForest && Main.IsItDay()`). */
  datatype Surroundings = Surroundings(zoneForest: bool, isDay: bool)

  predicate InInvasionZone(where: Surroundings)
  {
    where.zoneForest && where.isDay
  }

  /** The invasion is running and this player is where and when it shows: the condition
      under which spawns, music and the progress bar take effect. */
  predicate InvasionHere(s: State, where: Surroundings)
  {
    s.isActive && InInvasionZone(where)
  }

  /** The static initialisers: no invasion, no kills, a threshold of 80. */
  function Initial(): (s: State)
    ensures !s.isActive
    ensures s.killCount == 0
    ensures s.killsNeeded == 80
  {
    State(false, 0, BaseKillsNeeded)
  }

  /** Once enough kills are counted the invasion ends and the counter is cleared; the
      check does not look at `isActive`, and the threshold itself is left alone.
      Chat messages and the world-data broadcast are not modelled. */
  function PreUpdateWorld(s: State): (s': State)
    ensures s'.killsNeeded == s.killsNeeded
    ensures s.killCount >= s.killsNeeded ==> !s'.isActive && s'.killCount == 0
    ensures s.killCount < s.killsNeeded ==> s' == s
    ensures s.killsNeeded > 0 ==> s'.killCount < s'.killsNeeded
  {
    if s.killCount >= s.killsNeeded then
      State(false, 0, s.killsNeeded)
    else
      s
  }

  /** Running the check twice in one tick is the same as running it once. */
  lemma PreUpdateWorldIdempotent(s: State)
    ensures PreUpdateWorld(PreUpdateWorld(s)) == PreUpdateWorld(s)
  {
  }

  /** The check fires on an inactive state too: a state that is inactive but already
      at or past its threshold still has its counter cleared. */
  lemma PreUpdateWorldIgnoresActivity(s: State)
    requires s.killCount >= s.killsNeeded
    ensures PreUpdateWorld(s) == PreUpdateWorld(s.(isActive := !s.isActive))
  {
  }

  /** A fresh process is at rest: the tick leaves it unchanged. */
  lemma InitialIsAtRest()
    ensures PreUpdateWorld(Initial()) == Initial()
  {
  }
}

/** `InvasionDisable`: the item that cancels a running invasion. */
module InvasionDisable {
  import opened ExampleInvasion

  /** `CanUseItem`: usable only while the invasion runs. */
  function CanUseItem(s: State): (r: bool)
    ensures r <==> s.isActive
  {
    if s.isActive then true else false
  }

  /** `UseItem`: ends the invasion and clears the kill count, keeping the threshold.
      Always reports the use as handled. */
  function UseItem(s: State): (r: (State, bool))
    ensures !r.0.isActive
    ensures r.0.killCount == 0
    ensures r.0.killsNeeded == s.killsNeeded
    ensures r.1
  {
    (State(false, 0, s.killsNeeded), true)
  }

  /** Cancelling twice is the same as cancelling once. */
  lemma UseItemIdempotent(s: State)
    ensures UseItem(UseItem(s).0) == UseItem(s)
  {
  }

  /** A cancelled invasion is at rest for the tick check whenever the threshold is
      positive: nothing further happens until it is summoned again. */
  lemma CancelledIsAtRest(s: State)
    requires s.killsNeeded > 0
    ensures PreUpdateWorld(UseItem(s).0) == UseItem(s).0
  {
  }
}

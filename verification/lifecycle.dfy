/** The invasion's lifecycle as the host drives it: an item's `UseItem` runs only after its
    `CanUseItem` said yes, enemy deaths and the world tick run unconditionally, and all of
    it happens one event at a time on the simulation thread. */
module Lifecycle {
  import opened MachineInts
  import opened ExampleInvasion
  import InvasionSummon
  import InvasionDisable
  import opened InvasionEnemies

  datatype Event =
    | Summon(players: nat, where: Surroundings)
    | Disable
    | Kill(enemy: Enemy)
    | Tick

  /** One event. The two states are Inactive and Active: only a permitted summon leaves
      Inactive, only a cancel or a met threshold leaves Active, and leaving always clears
      the count; the count otherwise moves only by a kill while active, and the threshold
      only by a permitted summon. */
  function Step(s: State, e: Event): (s': State)
    ensures !s.isActive && s'.isActive ==> e.Summon? && InInvasionZone(e.where)
    ensures s.isActive && !s'.isActive ==>
      s'.killCount == 0 && (e.Disable? || (e.Tick? && s.killCount >= s.killsNeeded))
    ensures s'.killCount != s.killCount ==> (e.Kill? && s.isActive) || s'.killCount == 0
    ensures s'.killsNeeded != s.killsNeeded ==> e.Summon? && !s.isActive && InInvasionZone(e.where)
  {
    match e
    case Summon(players, where) =>
      if InvasionSummon.CanUseItem(s, where) then InvasionSummon.UseItem(s, players).0 else s
    case Disable =>
      if InvasionDisable.CanUseItem(s) then InvasionDisable.UseItem(s).0 else s
    case Kill(_) => OnKill(s)
    case Tick => PreUpdateWorld(s)
  }

  function Run(s: State, events: seq<Event>): State
    decreases |events|
  {
    if |events| == 0 then s else Run(Step(s, events[0]), events[1..])
  }

  /** The most the threshold can grow over `events`: 25 per extra player for every summon
      attempt, whether or not it is permitted. */
  function MaxBonus(events: seq<Event>): nat
  {
    if |events| == 0 then 0
    else (if events[0].Summon? && events[0].players >= 1 then 25 * (events[0].players - 1) else 0)
         + MaxBonus(events[1..])
  }

  /** The number of kill events in `events`. */
  function Kills(events: seq<Event>): nat
  {
    if |events| == 0 then 0 else (if events[0].Kill? then 1 else 0) + Kills(events[1..])
  }

  predicate NoSummon(events: seq<Event>)
  {
    forall i :: 0 <= i < |events| ==> !events[i].Summon?
  }

  /** Without a summon the threshold stays where it is, and an inactive invasion stays
      inactive. */
  lemma {:induction false} RunWithoutSummon(s: State, events: seq<Event>)
    requires NoSummon(events)
    ensures Run(s, events).killsNeeded == s.killsNeeded
    ensures !s.isActive ==> !Run(s, events).isActive
    decreases |events|
  {
    if |events| > 0 {
      assert NoSummon(events[1..]) by {
        forall i | 0 <= i < |events| - 1
          ensures !events[1..][i].Summon?
        {
          assert events[1..][i] == events[i + 1];
        }
      }
      RunWithoutSummon(Step(s, events[0]), events[1..]);
    }
  }

  /** While every summon has at least one player and the total possible bonus fits in an
      `Int32`, the threshold never decreases and grows by at most that bonus: it is
      raised by activations and never reset. */
  lemma {:induction false} ThresholdNeverDecreases(s: State, events: seq<Event>)
    requires forall i :: 0 <= i < |events| && events[i].Summon? ==> events[i].players >= 1
    requires s.killsNeeded as int + MaxBonus(events) <= INT32_MAX
    ensures s.killsNeeded <= Run(s, events).killsNeeded
    ensures Run(s, events).killsNeeded as int <= s.killsNeeded as int + MaxBonus(events)
    decreases |events|
  {
    if |events| > 0 {
      var s1 := Step(s, events[0]);
      assert s.killsNeeded <= s1.killsNeeded;
      assert s1.killsNeeded as int <= s.killsNeeded as int + MaxBonus(events[..1]) by {
        assert events[..1][0] == events[0];
      }
      assert MaxBonus(events) == MaxBonus(events[..1]) + MaxBonus(events[1..]);
      assert forall i :: 0 <= i < |events[1..]| && events[1..][i].Summon? ==> events[1..][i].players >= 1 by {
        forall i | 0 <= i < |events[1..]| && events[1..][i].Summon?
          ensures events[1..][i].players >= 1
        {
          assert events[1..][i] == events[i + 1];
        }
      }
      ThresholdNeverDecreases(s1, events[1..]);
    }
  }

  /** Starting from a non-negative count, the count stays non-negative and grows by at
      most one per kill event, as long as fewer than 2^31 kills could ever be counted:
      32-bit wrap-around is the only way the count goes negative. */
  lemma {:induction false} KillCountStaysNonNegative(s: State, events: seq<Event>)
    requires 0 <= s.killCount
    requires s.killCount as int + Kills(events) <= INT32_MAX
    ensures 0 <= Run(s, events).killCount
    ensures Run(s, events).killCount as int <= s.killCount as int + Kills(events)
    decreases |events|
  {
    if |events| > 0 {
      KillCountStaysNonNegative(Step(s, events[0]), events[1..]);
    }
  }

  /** From a fresh process, summoning in the forest by day with one player and then
      recording 80 kills and a tick ends the invasion with the count cleared. */
  lemma EightyKillsEndSinglePlayerInvasion(where: Surroundings, enemy: Enemy)
    requires InInvasionZone(where)
    ensures var started := Step(Initial(), Summon(1, where));
      var fought := Run(started, seq(80, _ => Kill(enemy)));
      started.isActive && fought.killCount == 80
      && Step(fought, Tick) == State(false, 0, 80)
  {
    var started := Step(Initial(), Summon(1, where));
    KillsWhileActive(started, enemy, 80);
  }

  /** `n` kills while active add `n` to a count that stays below the wrap-around point. */
  lemma {:induction false} KillsWhileActive(s: State, enemy: Enemy, n: nat)
    requires s.isActive
    requires 0 <= s.killCount as int && s.killCount as int + n <= INT32_MAX
    ensures Run(s, seq(n, _ => Kill(enemy))) == s.(killCount := (s.killCount as int + n) as Int32)
    decreases n
  {
    if n > 0 {
      var events := seq(n, _ => Kill(enemy));
      assert events[0] == Kill(enemy);
      assert events[1..] == seq(n - 1, _ => Kill(enemy));
      var s1 := Step(s, Kill(enemy));
      KillsWhileActive(s1, enemy, n - 1);
    }
  }

  /** Several kills can land before the next tick, so while active the count can pass
      the threshold: the tick check, not the kill, ends the invasion. */
  lemma KillsCanOvershootBetweenTicks()
    ensures var s := Run(State(true, 79, 80), [Kill(Zombie), Kill(Bat)]);
      s.isActive && s.killCount > s.killsNeeded
  {
  }
}

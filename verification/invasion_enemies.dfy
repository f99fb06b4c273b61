/** `InvasionZombie.OnKill` and `InvasionBat.OnKill`: each invasion enemy's death counts
    toward the threshold while the invasion runs. The two bodies are word for word the
    same and neither looks at which enemy died, so one function models both. */
module InvasionEnemies {
  import opened MachineInts
  import opened ExampleInvasion

  /** The two invasion enemies. */
  datatype Enemy = Zombie | Bat

  /** `killCount++` in unchecked 32-bit arithmetic, only while active. The world-data
      broadcast a server sends afterwards is not modelled. */
  function OnKill(s: State): (s': State)
    ensures s'.isActive == s.isActive && s'.killsNeeded == s.killsNeeded
    ensures !s.isActive ==> s' == s
    ensures s.isActive && s.killCount as int < INT32_MAX ==> s'.killCount as int == s.killCount as int + 1
    ensures s.isActive && s.killCount as int == INT32_MAX ==> s'.killCount as int == INT32_MIN
    ensures 0 <= s.killCount as int < INT32_MAX ==> s'.killCount >= 0
  {
    if s.isActive then s.(killCount := Wrap32(s.killCount as int + 1)) else s
  }
}

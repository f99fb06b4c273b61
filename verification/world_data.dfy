/** `SaveWorldData` / `LoadWorldData`: the two invasion fields kept in the world's tag
    compound. The threshold `killsNeeded` is not among them. */
module WorldData {
  import opened MachineInts
  import opened Wrappers
  import opened ExampleInvasion

  const ActiveKey: string := "InvasionActive"
  const KillCountKey: string := "CurrentKillCount"

  /** The two kinds of entry this code writes into a tag compound. */
  datatype TagValue = TagBool(b: bool) | TagInt(i: Int32)

  type Tag = map<string, TagValue>

  /** A key that is present but holds the other kind of value; the host's typed getter
      throws on it. `written` is the invasion state as the throw leaves it: the fields
      are process-wide statics, so a field assigned before the throw stays assigned. */
  datatype LoadError = WrongKind(key: string, written: State)

  /** Each of the two keys, when present, holds the kind of value its getter expects. */
  predicate WellKinded(tag: Tag)
  {
    && (ActiveKey in tag ==> tag[ActiveKey].TagBool?)
    && (KillCountKey in tag ==> tag[KillCountKey].TagInt?)
  }

  /** Adds the activity flag and the kill count. `TagCompound.Add` refuses a key that is
      already present, so the tag handed in must not hold either key yet. */
  function SaveWorldData(s: State, tag: Tag): (tag': Tag)
    requires ActiveKey !in tag && KillCountKey !in tag
    ensures tag'.Keys == tag.Keys + {ActiveKey, KillCountKey}
    ensures tag'[ActiveKey] == TagBool(s.isActive)
    ensures tag'[KillCountKey] == TagInt(s.killCount)
    ensures forall k :: k in tag ==> tag'[k] == tag[k]
  {
    tag[ActiveKey := TagBool(s.isActive)][KillCountKey := TagInt(s.killCount)]
  }

  /** Reads back whichever of the two keys is present, the flag first, leaving a field
      whose key is missing as it was; `killsNeeded` is never touched. A mistyped flag
      fails before anything is written; a mistyped kill count fails after the flag has
      been written. */
  function LoadWorldData(s: State, tag: Tag): (r: Result<State, LoadError>)
    ensures r.Ok? <==> WellKinded(tag)
    ensures r.Ok? ==> r.value.killsNeeded == s.killsNeeded
    ensures r.Ok? ==> r.value.isActive == (if ActiveKey in tag then tag[ActiveKey].b else s.isActive)
    ensures r.Ok? ==> r.value.killCount == (if KillCountKey in tag then tag[KillCountKey].i else s.killCount)
    ensures r.Err? ==> (r.error.key == ActiveKey <==> ActiveKey in tag && !tag[ActiveKey].TagBool?)
    ensures r.Err? && r.error.key == ActiveKey ==> r.error.written == s
    ensures r.Err? && r.error.key != ActiveKey ==>
      r.error.key == KillCountKey
      && r.error.written == s.(isActive := if ActiveKey in tag then tag[ActiveKey].b else s.isActive)
  {
    var flagged :=
      if ActiveKey !in tag then Ok(s)
      else match tag[ActiveKey]
        case TagBool(b) => Ok(s.(isActive := b))
        case TagInt(_) => Err(WrongKind(ActiveKey, s));
    if flagged.Err? then flagged
    else
      var t := flagged.value;
      if KillCountKey !in tag then Ok(t)
      else match tag[KillCountKey]
        case TagInt(i) => Ok(t.(killCount := i))
        case TagBool(_) => Err(WrongKind(KillCountKey, t))
  }

  /** Saving into a fresh tag and loading it into any state restores the activity flag
      and the kill count exactly, and keeps the loading side's threshold. */
  lemma LoadAfterSave(saved: State, current: State)
    ensures LoadWorldData(current, SaveWorldData(saved, map[]))
            == Ok(State(saved.isActive, saved.killCount, current.killsNeeded))
  {
  }

  /** A world saved before the invasion existed loads as no change at all. */
  lemma LoadEmptyIsIdentity(s: State)
    ensures LoadWorldData(s, map[]) == Ok(s)
  {
  }

  /** The saved tag does not depend on the threshold: two states that differ only in
      `killsNeeded` save identically. */
  lemma SaveIgnoresThreshold(s: State, k: Int32, tag: Tag)
    requires ActiveKey !in tag && KillCountKey !in tag
    ensures SaveWorldData(s, tag) == SaveWorldData(s.(killsNeeded := k), tag)
  {
  }
}

/** `ExampleInvasionProgressUI.ModifyInterfaceLayers`: while the invasion is active, the
    progress-bar layer is inserted into the host's list of interface layers just before
    the vanilla inventory layer, so it is drawn beneath it. A layer is reduced to its
    name; the draw delegate it carries is not modelled. */
module ProgressUI {
  import opened Wrappers

  const InventoryLayerName: string := "Vanilla: Inventory"
  const ProgressLayerName: string := "Eventful: Buried Barrage UI"

  datatype Layer = Layer(name: string)

  /** An entry of the host's `List<GameInterfaceLayer>`; `None` is a null entry. */
  type Slot = Option<Layer>

  /** `NullReference`: a null entry reached by the unguarded search on line 179.
      `ArgumentOutOfRange`: `List.Insert(-1, …)` when there is no inventory layer. */
  datatype UiError = NullReference | ArgumentOutOfRange

  const ProgressLayer: Slot := Some(Layer(ProgressLayerName))

  predicate IsInventory(slot: Slot)
  {
    slot.Some? && slot.value.name == InventoryLayerName
  }

  predicate HasInventory(layers: seq<Slot>)
  {
    exists j :: 0 <= j < |layers| && IsInventory(layers[j])
  }

  /** `i` is the position of the first inventory layer. */
  predicate FirstInventoryAt(layers: seq<Slot>, i: int)
  {
    && 0 <= i < |layers|
    && IsInventory(layers[i])
    && forall j :: 0 <= j < i ==> !IsInventory(layers[j])
  }

  /** A null entry comes before any inventory layer. */
  predicate NullBeforeInventory(layers: seq<Slot>)
  {
    exists j :: 0 <= j < |layers| && layers[j].None?
      && forall k :: 0 <= k < j ==> !IsInventory(layers[k])
  }

  /** `FindIndex(layer => layer.Name.Equals(...))` from position `i`: dereferences every
      entry it visits, so it throws on a null met before a match. */
  function FindInventoryUnguarded(layers: seq<Slot>, i: nat): (r: Result<int, UiError>)
    requires i <= |layers|
    decreases |layers| - i
    ensures r.Err? <==> exists j :: i <= j < |layers| && layers[j].None?
                                    && forall k :: i <= k < j ==> !IsInventory(layers[k])
    ensures r.Ok? && r.value >= 0 ==>
      i <= r.value < |layers| && IsInventory(layers[r.value])
      && forall k :: i <= k < r.value ==> !IsInventory(layers[k])
    ensures r.Ok? && r.value < 0 ==>
      r.value == -1 && forall k :: i <= k < |layers| ==> !IsInventory(layers[k])
  {
    if i == |layers| then Ok(-1)
    else match layers[i]
      case None => Err(NullReference)
      case Some(layer) =>
        if layer.name == InventoryLayerName then Ok(i)
        else FindInventoryUnguarded(layers, i + 1)
  }

  /** `FindIndex(layer => layer is not null && layer.Name.Equals(...))` from position `i`:
      skips null entries, returns -1 when there is no match. */
  function FindInventory(layers: seq<Slot>, i: nat): (r: int)
    requires i <= |layers|
    decreases |layers| - i
    ensures r >= 0 ==>
      i <= r < |layers| && IsInventory(layers[r])
      && forall k :: i <= k < r ==> !IsInventory(layers[k])
    ensures r < 0 ==> r == -1 && forall k :: i <= k < |layers| ==> !IsInventory(layers[k])
  {
    if i == |layers| then -1
    else if IsInventory(layers[i]) then i
    else FindInventory(layers, i + 1)
  }

  /** Where the unguarded search succeeds, both searches agree. */
  lemma SearchesAgree(layers: seq<Slot>, i: nat)
    requires i <= |layers|
    requires FindInventoryUnguarded(layers, i).Ok?
    ensures FindInventoryUnguarded(layers, i).value == FindInventory(layers, i)
  {
  }

  /** The source computes an unused inventory index first (line 179), then, only while
      the invasion is active, searches again null-safely and inserts the new layer at
      the index it finds. */
  function ModifyInterfaceLayers(isActive: bool, layers: seq<Slot>): (r: Result<seq<Slot>, UiError>)
    ensures r.Err? <==> NullBeforeInventory(layers) || (isActive && !HasInventory(layers))
    ensures r.Ok? && !isActive ==> r.value == layers
    ensures r.Ok? && isActive ==>
      exists i :: FirstInventoryAt(layers, i) && r.value == layers[..i] + [ProgressLayer] + layers[i..]
  {
    match FindInventoryUnguarded(layers, 0)
    case Err(e) => Err(e)
    case Ok(_) =>
      if !isActive then Ok(layers)
      else
        var index := FindInventory(layers, 0);
        if index < 0 then Err(ArgumentOutOfRange)
        else Ok(layers[..index] + [ProgressLayer] + layers[index..])
  }

  /** When the insertion happens the list grows by one, the progress layer sits at the
      inventory layer's old position with the inventory layer right after it, and
      removing the progress layer gives back the original list. */
  lemma InsertionKeepsOrder(layers: seq<Slot>, i: int)
    requires FirstInventoryAt(layers, i)
    requires ModifyInterfaceLayers(true, layers).Ok?
    ensures ModifyInterfaceLayers(true, layers).value
            == layers[..i] + [ProgressLayer] + layers[i..]
    ensures var r := ModifyInterfaceLayers(true, layers).value;
      |r| == |layers| + 1 && r[i] == ProgressLayer && IsInventory(r[i + 1])
      && r[..i] + r[i + 1..] == layers
  {
  }
}

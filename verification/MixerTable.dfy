/** The mixer's table of elements: dense, numbered by place, no two with one name and index. */
module MixerTable {
  import opened Arith
  import opened Options

  const SELEM_ITEMS: nat := 5
  const ITEM_ENUM: nat := 4

  /** A control's handle in a slot. */
  type Slots = s: seq<Option<nat>> | |s| == 5 witness [None, None, None, None, None]

  const EMPTY: Slots := [None, None, None, None, None]

  /** An element as a value: its name and index, which never change, and its slots. */
  datatype Entry = Entry(name: string, index: nat, items: Slots)

  /** A slot a control may go to; a control for both directions also takes the next one. */
  predicate SlotArgs(typ: nat, both: bool) {
    typ < SELEM_ITEMS && (both && typ != ITEM_ENUM ==> typ == 0 || typ == 2)
  }

  /** add_cap, as far as the slots go. */
  function WithItem(items: Slots, typ: nat, both: bool, helem: nat): Slots
    requires SlotArgs(typ, both)
  {
    var s := items[typ := Some(helem)];
    if both && typ != ITEM_ENUM then s[typ + 1 := Some(helem)] else s
  }

  // ---------------------------------------------------------------- the table as a value

  ghost predicate UniqueIds(t: seq<Entry>) {
    forall i, j :: 0 <= i < j < |t| ==> t[i].name != t[j].name || t[i].index != t[j].index
  }

  /** From place k on: the first element of that name with the slot free, and one more than the
      greatest index of that name seen up to there. */
  function Scan(t: seq<Entry>, name: string, typ: nat, k: nat, index: nat): (Option<nat>, nat)
    requires k <= |t| && typ < SELEM_ITEMS
    decreases |t| - k
  {
    if k == |t| then (None, index)
    else if t[k].name == name then
      var next := if index <= t[k].index then t[k].index + 1 else index;
      if t[k].items[typ].None? then (Some(k), next) else Scan(t, name, typ, k + 1, next)
    else Scan(t, name, typ, k + 1, index)
  }

  /** add_simple_element, before any sorting. */
  function AddSimple(t: seq<Entry>, name: string, typ: nat, both: bool, helem: nat): seq<Entry>
    requires SlotArgs(typ, both)
  {
    var (place, index) := Scan(t, name, typ, 0, 0);
    if place.Some? && place.value < |t| then
      t[place.value := t[place.value].(items := WithItem(t[place.value].items, typ, both, helem))]
    else t + [Entry(name, index, WithItem(EMPTY, typ, both, helem))]
  }

  /** Which of the allocations succeed: the item, a new element, and the table's growth. */
  datatype Memory = Memory(item: bool, elem: bool, table: bool)

  /** Whether adding a control finds the memory it asks for. */
  predicate Enough(memory: Memory, t: seq<Entry>, name: string, typ: nat)
    requires typ < SELEM_ITEMS
  {
    memory.item && (Scan(t, name, typ, 0, 0).0.Some? || (memory.elem && memory.table))
  }

  /** The first slot that holds the control. */
  function SlotOf(items: Slots, helem: nat, k: nat): nat
    requires k <= SELEM_ITEMS
    decreases SELEM_ITEMS - k
  {
    if k == SELEM_ITEMS || items[k] == Some(helem) then k else SlotOf(items, helem, k + 1)
  }

  /** Clearing a control's slot, and the next one too for a control of both directions. */
  function Without(items: Slots, helem: nat, both: bool): Slots {
    var k := SlotOf(items, helem, 0);
    if k >= SELEM_ITEMS then items
    else if both && (k == 0 || k == 2) then items[k := None][k + 1 := None]
    else items[k := None]
  }

  /** remove_simple_element at place k: the element goes when nothing is left in it. */
  function RemoveSimple(t: seq<Entry>, k: nat, helem: nat, both: bool, removeMixer: bool): seq<Entry>
    requires k < |t|
  {
    if SlotOf(t[k].items, helem, 0) >= SELEM_ITEMS then t
    else
      var items := Without(t[k].items, helem, both);
      if removeMixer && items == EMPTY then t[..k] + t[k + 1..] else t[k := t[k].(items := items)]
  }

  predicate IsPermutation(order: seq<nat>, n: nat) {
    && |order| == n
    && (forall i :: 0 <= i < n ==> order[i] < n)
    && (forall i, j :: 0 <= i < j < n ==> order[i] != order[j])
  }

  /** What qsort may leave. */
  function Permuted<T>(t: seq<T>, order: seq<nat>): seq<T>
    requires IsPermutation(order, |t|)
  {
    seq(|t|, i requires 0 <= i < |t| => t[order[i]])
  }

  lemma {:induction false} ScanPlace(t: seq<Entry>, name: string, typ: nat, k: nat, index: nat)
    requires k <= |t| && typ < SELEM_ITEMS
    ensures var (place, next) := Scan(t, name, typ, k, index);
            && (place.Some? ==>
                  k <= place.value < |t| && t[place.value].name == name && t[place.value].items[typ].None?)
            && next >= index
            && (place.None? ==> forall i :: k <= i < |t| && t[i].name == name ==> t[i].index < next)
            && (forall i :: k <= i < (if place.Some? then place.value else |t|) && t[i].name == name ==>
                  t[i].items[typ].Some?)
    decreases |t| - k
  {
    if k < |t| {
      var next := if t[k].name == name && index <= t[k].index then t[k].index + 1 else index;
      if !(t[k].name == name && t[k].items[typ].None?) {
        ScanPlace(t, name, typ, k + 1, next);
      }
    }
  }

  /** A new element's index is one that no element of its name has. */
  lemma {:induction false} AddKeepsUnique(t: seq<Entry>, name: string, typ: nat, both: bool, helem: nat)
    requires UniqueIds(t) && SlotArgs(typ, both)
    ensures UniqueIds(AddSimple(t, name, typ, both, helem))
  {
    ScanPlace(t, name, typ, 0, 0);
    var (place, index) := Scan(t, name, typ, 0, 0);
    var u := AddSimple(t, name, typ, both, helem);
    assert place.None? ==> |u| == |t| + 1 && u[|t|].name == name && u[|t|].index == index;
    forall i, j | 0 <= i < j < |u|
      ensures u[i].name != u[j].name || u[i].index != u[j].index
    {
      assert u[i].name == t[i].name && u[i].index == t[i].index;
      assert place.None? && t[i].name == name ==> t[i].index < index;
      assert j < |t| ==> u[j].name == t[j].name && u[j].index == t[j].index;
    }
  }

  lemma {:induction false} RemoveKeepsUnique(t: seq<Entry>, k: nat, helem: nat, both: bool, removeMixer: bool)
    requires UniqueIds(t) && k < |t|
    ensures UniqueIds(RemoveSimple(t, k, helem, both, removeMixer))
  {
    var rest := t[..k] + t[k + 1..];
    forall i, j | 0 <= i < j < |rest|
      ensures rest[i].name != rest[j].name || rest[i].index != rest[j].index
    {
      assert rest[i] == t[if i < k then i else i + 1] && rest[j] == t[if j < k then j else j + 1];
    }
  }

  lemma {:induction false} SortKeepsUnique(t: seq<Entry>, order: seq<nat>)
    requires UniqueIds(t) && IsPermutation(order, |t|)
    ensures UniqueIds(Permuted(t, order))
  {
    forall i, j | 0 <= i < j < |t|
      ensures t[order[i]].name != t[order[j]].name || t[order[i]].index != t[order[j]].index
    {
      assert order[i] < order[j] || order[j] < order[i];
    }
  }

  // ---------------------------------------------------------------- runs

  // ---------------------------------------------------------------- what changes and what does not

  /** The slots that a control goes to, or is cleared from, when its first slot is `slot`. */
  predicate Taken(s: nat, slot: nat, both: bool) { s == slot || (both && slot != 4 && s == slot + 1) }

  /** The control has gone to the element at place k, the only one that differs: an earlier one, the
      first of its name with the slot free, or a new one behind the others. Other slots are as they
      were, or empty in a new element, whose index is one more than the greatest of its name. */
  ghost predicate AddedAt(t: seq<Entry>, u: seq<Entry>, k: nat, name: string, typ: nat, both: bool, helem: nat)
    requires k < |u| && typ < 5
  {
    && k <= |t| && |u| == (if k < |t| then |t| else |t| + 1)
    && (forall j :: 0 <= j < |t| && j != k ==> u[j] == t[j])
    && u[k].name == name
    && (forall j :: 0 <= j < k && t[j].name == name ==> t[j].items[typ].Some?)
    && (forall s: nat :: s < 5 && Taken(s, typ, both) ==> u[k].items[s] == Some(helem))
    && (k < |t| ==>
          && u[k].name == t[k].name && u[k].index == t[k].index && t[k].items[typ] == None
          && forall s: nat :: s < 5 && !Taken(s, typ, both) ==> u[k].items[s] == t[k].items[s])
    && (k == |t| ==>
          && (forall s: nat :: s < 5 && !Taken(s, typ, both) ==> u[k].items[s] == None)
          && (forall j :: 0 <= j < |t| && t[j].name == name ==> t[j].index < u[k].index)
          && (u[k].index > 0 ==> Follows(t, name, 0, u[k].index)))
  }

  ghost predicate ControlAdded(t: seq<Entry>, u: seq<Entry>, name: string, typ: nat, both: bool, helem: nat)
    requires typ < 5
  {
    exists k: nat :: k < |u| && AddedAt(t, u, k, name, typ, both, helem)
  }

  /** An element of the name, from place k on, has the index before this one. */
  ghost predicate Follows(t: seq<Entry>, name: string, k: nat, index: nat) {
    exists j :: k <= j < |t| && t[j].name == name && t[j].index + 1 == index
  }

  /** The index counted up to is one more than that of an element of the name, unless it is the first. */
  lemma {:induction false} ScanIndex(t: seq<Entry>, name: string, typ: nat, k: nat, index: nat)
    requires k <= |t| && typ < SELEM_ITEMS
    ensures Scan(t, name, typ, k, index).1 == index || Follows(t, name, k, Scan(t, name, typ, k, index).1)
    decreases |t| - k
  {
    if k < |t| {
      var next := if t[k].name == name && index <= t[k].index then t[k].index + 1 else index;
      if next != index {
        assert t[k].name == name && t[k].index + 1 == next;
        assert Follows(t, name, k, next);
      }
      if t[k].name != name || t[k].items[typ].Some? {
        ScanIndex(t, name, typ, k + 1, next);
      }
    }
  }

  /** Some element of the name has the slot free. */
  ghost predicate Reuses(t: seq<Entry>, name: string, typ: nat)
    requires typ < 5
  {
    exists k :: 0 <= k < |t| && t[k].name == name && t[k].items[typ] == None
  }

  lemma {:induction false} ScanReuses(t: seq<Entry>, name: string, typ: nat)
    requires typ < 5
    ensures Scan(t, name, typ, 0, 0).0.Some? <==> Reuses(t, name, typ)
  {
    ScanPlace(t, name, typ, 0, 0);
  }

  lemma {:induction false} AddFrame(t: seq<Entry>, name: string, typ: nat, both: bool, helem: nat)
    requires SlotArgs(typ, both)
    ensures ControlAdded(t, AddSimple(t, name, typ, both, helem), name, typ, both, helem)
  {
    var (place, index) := Scan(t, name, typ, 0, 0);
    ScanPlace(t, name, typ, 0, 0);
    ScanIndex(t, name, typ, 0, 0);
    var k: nat := if place.Some? then place.value else |t|;
    assert AddedAt(t, AddSimple(t, name, typ, both, helem), k, name, typ, both, helem);
  }

  /** Slot `slot` is the first that holds the control. */
  ghost predicate FirstHolding(items: Slots, helem: nat, slot: nat) {
    slot < 5 && items[slot] == Some(helem) && forall s: nat :: s < slot ==> items[s] != Some(helem)
  }

  /** Of the element at place k the control's slots are cleared and no other; the element goes when
      it is to go and nothing is left in it, and the others keep their order. Without the control
      nothing changes. */
  ghost predicate ControlRemoved(t: seq<Entry>, u: seq<Entry>, k: nat, helem: nat, both: bool, removeMixer: bool)
    requires k < |t|
  {
    && ((forall slot: nat :: !FirstHolding(t[k].items, helem, slot)) ==> u == t)
    && forall slot: nat :: FirstHolding(t[k].items, helem, slot) ==>
         var pair := both && (slot == 0 || slot == 2);
         if removeMixer && forall s: nat :: s < 5 && t[k].items[s].Some? ==> Taken(s, slot, pair)
         then
           && |u| == |t| - 1 && (forall j :: 0 <= j < k ==> u[j] == t[j])
           && forall j :: k <= j < |u| ==> u[j] == t[j + 1]
         else
           && |u| == |t| && (forall j :: 0 <= j < |t| && j != k ==> u[j] == t[j])
           && u[k].name == t[k].name && u[k].index == t[k].index
           && forall s: nat :: s < 5 ==> u[k].items[s] == if Taken(s, slot, pair) then None else t[k].items[s]
  }

  lemma {:induction false} SlotIsFirst(items: Slots, helem: nat, k: nat)
    requires k <= 5 && forall s: nat :: s < k ==> items[s] != Some(helem)
    ensures var slot := SlotOf(items, helem, k);
            && k <= slot <= 5 && (slot < 5 ==> FirstHolding(items, helem, slot))
            && (slot == 5 ==> forall s: nat :: s < 5 ==> items[s] != Some(helem))
    decreases 5 - k
  {
    if k < 5 && items[k] != Some(helem) {
      SlotIsFirst(items, helem, k + 1);
    }
  }

  /** What is left of the slots. */
  lemma {:induction false} ClearedSlots(items: Slots, helem: nat, both: bool, slot: nat)
    requires FirstHolding(items, helem, slot)
    ensures SlotOf(items, helem, 0) == slot
    ensures var pair := both && (slot == 0 || slot == 2);
            var left := Without(items, helem, both);
            && (forall s: nat :: s < 5 ==> left[s] == if Taken(s, slot, pair) then None else items[s])
            && (left == EMPTY <==> forall s: nat :: s < 5 && items[s].Some? ==> Taken(s, slot, pair))
  {
    SlotIsFirst(items, helem, 0);
    var pair := both && (slot == 0 || slot == 2);
    var left := Without(items, helem, both);
    assert forall s: nat :: s < 5 ==> left[s] == if Taken(s, slot, pair) then None else items[s];
    assert forall s: nat :: s < 5 ==> EMPTY[s] == None;
    if forall s: nat :: s < 5 && items[s].Some? ==> Taken(s, slot, pair) {
      assert forall s: nat :: s < 5 ==> left[s] == EMPTY[s];
      assert left == EMPTY;
    }
  }

  lemma {:induction false} RemoveFrame(t: seq<Entry>, k: nat, helem: nat, both: bool, removeMixer: bool)
    requires k < |t|
    ensures ControlRemoved(t, RemoveSimple(t, k, helem, both, removeMixer), k, helem, both, removeMixer)
  {
    SlotIsFirst(t[k].items, helem, 0);
    forall slot: nat | FirstHolding(t[k].items, helem, slot)
      ensures slot == SlotOf(t[k].items, helem, 0) < 5
    {
      ClearedSlots(t[k].items, helem, both, slot);
    }
    if SlotOf(t[k].items, helem, 0) < 5 {
      ClearedSlots(t[k].items, helem, both, SlotOf(t[k].items, helem, 0));
    }
    hide Without, SlotOf, Taken, FirstHolding;
  }

  datatype TableStep =
    | Add(name: string, typ: nat, both: bool, helem: nat, order: seq<nat>)
    | Remove(place: nat, helem: nat, both: bool, removeMixer: bool)
    | Sort(order: seq<nat>)

  ghost predicate Allowed(t: seq<Entry>, step: TableStep) {
    match step
    case Add(name, typ, both, helem, order) =>
      SlotArgs(typ, both) && IsPermutation(order, |AddSimple(t, name, typ, both, helem)|)
    case Remove(place, _, _, _) => place < |t|
    case Sort(order) => IsPermutation(order, |t|)
  }

  ghost function Apply(t: seq<Entry>, step: TableStep): seq<Entry>
    requires Allowed(t, step)
  {
    match step
    case Add(name, typ, both, helem, order) => Permuted(AddSimple(t, name, typ, both, helem), order)
    case Remove(place, helem, both, removeMixer) => RemoveSimple(t, place, helem, both, removeMixer)
    case Sort(order) => Permuted(t, order)
  }

  ghost predicate AllowedRun(t: seq<Entry>, steps: seq<TableStep>)
    decreases |steps|
  {
    steps == [] || (Allowed(t, steps[0]) && AllowedRun(Apply(t, steps[0]), steps[1..]))
  }

  ghost function Run(t: seq<Entry>, steps: seq<TableStep>): seq<Entry>
    requires AllowedRun(t, steps)
    decreases |steps|
  {
    if steps == [] then t else Run(Apply(t, steps[0]), steps[1..])
  }

  /** Under any sequence of additions, removals and sorts no two elements share name and index. */
  lemma {:induction false} IdsStayUnique(t: seq<Entry>, steps: seq<TableStep>)
    requires UniqueIds(t) && AllowedRun(t, steps)
    ensures UniqueIds(Run(t, steps))
    decreases |steps|
  {
    if steps != [] {
      match steps[0] {
        case Add(name, typ, both, helem, order) =>
          AddKeepsUnique(t, name, typ, both, helem);
          SortKeepsUnique(AddSimple(t, name, typ, both, helem), order);
        case Remove(place, helem, both, removeMixer) => RemoveKeepsUnique(t, place, helem, both, removeMixer);
        case Sort(order) => SortKeepsUnique(t, order);
      }
      IdsStayUnique(Apply(t, steps[0]), steps[1..]);
    }
  }

  /** An added control can be found where it was put: in an element of its name, in its slot. */
  lemma {:induction false} AddedIsThere(t: seq<Entry>, name: string, typ: nat, both: bool, helem: nat)
    requires SlotArgs(typ, both)
    ensures exists e :: e in AddSimple(t, name, typ, both, helem) && e.name == name && e.items[typ] == Some(helem)
  {
    var (place, index) := Scan(t, name, typ, 0, 0);
    ScanPlace(t, name, typ, 0, 0);
    var k := if place.Some? then place.value else |t|;
    assert AddSimple(t, name, typ, both, helem)[k].items[typ] == Some(helem);
    assert AddSimple(t, name, typ, both, helem)[k] in AddSimple(t, name, typ, both, helem);
  }

  // ---------------------------------------------------------------- in place

  class Elem {
    const name: string
    const sidIndex: nat
    var index: nat
    var items: Slots

    constructor (name: string, sidIndex: nat)
      ensures this.name == name && this.sidIndex == sidIndex && items == EMPTY
    {
      this.name, this.sidIndex, index, items := name, sidIndex, 0, EMPTY;
    }
  }

  class Mixer {
    var pelems: seq<Elem>

    /** Every element knows its place, so elements are distinct. */
    ghost predicate Valid()
      reads this, pelems
    {
      forall i :: 0 <= i < |pelems| ==> pelems[i].index == i
    }

    ghost function View(): seq<Entry>
      reads this, pelems
    {
      seq(|pelems|, i requires 0 <= i < |pelems| reads this, pelems =>
        Entry(pelems[i].name, pelems[i].sidIndex, pelems[i].items))
    }

    constructor ()
      ensures Valid() && View() == [] && pelems == []
    {
      pelems := [];
    }

    /** snd_mixer_sort: `order` is the permutation that the caller's comparison makes qsort take. */
    method Reorder(order: seq<nat>)
      requires forall i, j :: 0 <= i < j < |pelems| ==> pelems[i] != pelems[j]
      requires IsPermutation(order, |pelems|)
      modifies this, pelems`index
      ensures Valid() && pelems == Permuted(old(pelems), order)
      ensures View() == Permuted(old(View()), order)
    {
      pelems := Permuted(pelems, order);
      var i := 0;
      while i < |pelems|
        invariant i <= |pelems| && pelems == Permuted(old(pelems), order)
        invariant forall k :: 0 <= k < i ==> pelems[k].index == k
        invariant forall k :: 0 <= k < |pelems| ==> pelems[k].items == old(pelems[order[k]].items)
      {
        assert forall k :: 0 <= k < i ==> order[k] != order[i];
        pelems[i].index := i;
        i := i + 1;
      }
    }

    /** add_simple_element, from the point where the control's name, slot and direction are known;
        `onAdd` is what the mixer's callback answers to a new element. */
    method AddControl(name: string, typ: nat, both: bool, helem: nat, memory: Memory, order: seq<nat>, onAdd: int)
      returns (ret: int)
      requires Valid() && SlotArgs(typ, both)
      requires IsPermutation(order, |AddSimple(View(), name, typ, both, helem)|)
      requires |AddSimple(View(), name, typ, both, helem)| == |View()| ==> order == seq(|View()|, i => i)
      modifies this, pelems
      ensures Valid()
      ensures ret == if !Enough(memory, old(View()), name, typ) then -ENOMEM
                     else if Scan(old(View()), name, typ, 0, 0).0.Some? then 0 else onAdd
      ensures ret == if !memory.item || (!Reuses(old(View()), name, typ) && !(memory.elem && memory.table)) then -12
                     else if Reuses(old(View()), name, typ) then 0 else onAdd
      ensures View() == if !Enough(memory, old(View()), name, typ) then old(View())
                        else Permuted(AddSimple(old(View()), name, typ, both, helem), order)
      ensures Enough(memory, old(View()), name, typ) ==>
        exists u :: |u| == |order| &&
          ControlAdded(old(View()), u, name, typ, both, helem) && View() == Permuted(u, order)
    {
      ghost var t := View();
      AddFrame(t, name, typ, both, helem);
      ScanReuses(t, name, typ);
      hide ControlAdded, Reuses;
      if !memory.item {
        return -ENOMEM;
      }
      ScanPlace(t, name, typ, 0, 0);
      var index: nat := 0;
      var i := 0;
      while i < |pelems|
        invariant i <= |pelems| && Valid() && View() == t && pelems == old(pelems)
        invariant Scan(t, name, typ, 0, 0) == Scan(t, name, typ, i, index)
      {
        var elem := pelems[i];
        assert t[i] == Entry(elem.name, elem.sidIndex, elem.items);
        if elem.name == name {
          if index <= elem.sidIndex {
            index := elem.sidIndex + 1;
          }
          if elem.items[typ].None? {
            elem.items := WithItem(elem.items, typ, both, helem);
            OthersUntouched(t, View(), i, t[i].(items := elem.items));
            assert Permuted(View(), order) == View();
            return 0;
          }
        }
        i := i + 1;
      }
      if !memory.elem || !memory.table {
        return -ENOMEM;
      }
      AddElem(name, index, typ, both, helem, order);
      ret := onAdd;
    }

    /** A new element with its first control, at the end of the table, which is then sorted. */
    method AddElem(name: string, index: nat, typ: nat, both: bool, helem: nat, order: seq<nat>)
      requires Valid() && SlotArgs(typ, both) && IsPermutation(order, |pelems| + 1)
      modifies this, pelems`index
      ensures Valid()
      ensures View() == Permuted(old(View()) + [Entry(name, index, WithItem(EMPTY, typ, both, helem))], order)
    {
      var elem := new Elem(name, index);
      elem.items := WithItem(EMPTY, typ, both, helem);
      pelems := pelems + [elem];
      assert View() == old(View()) + [Entry(name, index, elem.items)];
      Reorder(order);
    }

    /** remove_mixer_elem: the elements behind move up by one and are numbered anew. */
    method RemoveElem(elem: Elem)
      requires Valid()
      modifies this, pelems`index
      ensures Valid()
      ensures elem !in old(pelems) ==> pelems == old(pelems) && View() == old(View())
      ensures forall k :: 0 <= k < |old(pelems)| && old(pelems)[k] == elem ==>
        pelems == old(pelems)[..k] + old(pelems)[k + 1..] && View() == old(View())[..k] + old(View())[k + 1..]
    {
      var i := 0;
      while i < |pelems|
        invariant i <= |pelems| && pelems == old(pelems) && Valid() && View() == old(View())
        invariant elem !in pelems[..i]
      {
        if pelems[i] == elem {
          ghost var was, t := pelems, View();
          MoveUp(i);
          assert View() == t[..i] + t[i + 1..];
          return;
        }
        i := i + 1;
      }
    }

    /** The elements behind place k move up by one, and the last place goes. */
    method MoveUp(k: nat)
      requires Valid() && k < |pelems|
      modifies this, pelems`index
      ensures Valid() && pelems == old(pelems)[..k] + old(pelems)[k + 1..]
    {
      ghost var was := pelems;
      var i, count := k, |pelems| - 1;
      while i < count
        invariant k <= i <= count && |pelems| == count + 1
        invariant forall j :: k <= j < i ==> pelems[j] == was[j + 1]
        invariant forall j :: 0 <= j < k || i <= j <= count ==> pelems[j] == was[j]
        invariant forall j :: 0 <= j < i ==> pelems[j].index == j
        invariant forall j :: i < j <= count ==> was[j].index == j
      {
        var next := pelems[i + 1];
        assert next == was[i + 1];
        pelems := pelems[i := next];
        next.index := i;
        i := i + 1;
      }
      pelems := pelems[..count];
    }

    /** remove_simple_element: -ENOENT when the element has no such control. */
    method RemoveControl(elem: Elem, helem: nat, both: bool, removeMixer: bool) returns (ret: int)
      requires Valid() && elem in pelems
      modifies this, pelems
      ensures Valid()
      ensures ret == if SlotOf(old(elem.items), helem, 0) >= SELEM_ITEMS then -ENOENT else 0
      ensures View() == RemoveSimple(old(View()), old(elem.index), helem, both, removeMixer)
      ensures ControlRemoved(old(View()), View(), old(elem.index), helem, both, removeMixer)
    {
      RemoveFrame(View(), elem.index, helem, both, removeMixer);
      ghost var t, place := View(), elem.index;
      assert pelems[place] == elem;
      var i := 0;
      while i < SELEM_ITEMS && elem.items[i] != Some(helem)
        invariant i <= SELEM_ITEMS
        invariant SlotOf(elem.items, helem, 0) == SlotOf(elem.items, helem, i)
      {
        i := i + 1;
      }
      if i == SELEM_ITEMS {
        return -ENOENT;
      }
      var items: Slots := elem.items[i := None];
      if both && (i == 0 || i == 2) {
        items := items[i + 1 := None];
      }
      elem.items := items;
      OthersUntouched(t, View(), place, t[place].(items := items));
      if removeMixer && items == EMPTY {
        RemoveElem(elem);
        assert View() == t[..place] + t[place + 1..];
      }
      return 0;
    }
  }

  lemma {:induction false} OthersUntouched(t: seq<Entry>, u: seq<Entry>, i: nat, e: Entry)
    requires |t| == |u| && i < |t| && u[i] == e && forall k :: 0 <= k < |t| && k != i ==> u[k] == t[k]
    ensures u == t[i := e]
  {
  }
}

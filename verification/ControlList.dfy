/** The list of controls: doubly linked nodes in one sequence, and the events that add, remove and
    announce them. A callback is its result; it does not touch the list. */
module ControlList {
  import opened Arith

  const MASK_REMOVE: Word := 0xFFFF_FFFF
  const MASK_VALUE: Word := 1
  const MASK_INFO: Word := 2
  const MASK_ADD: Word := 4

  /** What identifies a control here; device and subdevice are not looked at. */
  datatype Key = Key(iface: int, name: string, index: nat)

  datatype Event = Event(isElem: bool, mask: Word, key: Key)

  predicate HasBit(mask: Word, bit: int)
    requires bit > 0
  {
    (mask / bit) % 2 == 1
  }

  // ---------------------------------------------------------------- the list as a value

  ghost predicate UniqueKeys(keys: seq<Key>) {
    forall i, j :: 0 <= i < j < |keys| ==> keys[i] != keys[j]
  }

  function IndexOf(keys: seq<Key>, key: Key): (k: nat)
    ensures k <= |keys| && (k < |keys| ==> keys[k] == key) && key !in keys[..k]
  {
    if keys == [] || keys[0] == key then 0 else 1 + IndexOf(keys[1..], key)
  }

  function RemoveAt(keys: seq<Key>, k: nat): seq<Key>
    requires k < |keys|
  {
    keys[..k] + keys[k + 1..]
  }

  /** One event: the result code and the keys afterwards. The last two arguments are what the
      callbacks for a new element and for a change answer. */
  function HandleEvent(keys: seq<Key>, e: Event, onAdd: int, onChange: int): (int, seq<Key>) {
    if !e.isElem then (0, keys)
    else if e.mask == MASK_REMOVE then
      if e.key in keys then (0, RemoveAt(keys, IndexOf(keys, e.key))) else (-ENOENT, keys)
    else if HasBit(e.mask, MASK_ADD) && e.key in keys then (-EBUSY, keys)
    else
      var keys1 := if HasBit(e.mask, MASK_ADD) then keys + [e.key] else keys;
      if HasBit(e.mask, MASK_ADD) && onAdd < 0 then (onAdd, keys1)
      else if !HasBit(e.mask, MASK_VALUE) && !HasBit(e.mask, MASK_INFO) then (0, keys1)
      else if e.key !in keys1 then (-ENOENT, keys1)
      else (if onChange < 0 then onChange else 0, keys1)
  }

  // ---------------------------------------------------------------- what one event does

  predicate Removes(e: Event) { e.isElem && e.mask == 0xFFFF_FFFF }

  predicate Adds(e: Event) { e.isElem && e.mask != 0xFFFF_FFFF && (e.mask / 4) % 2 == 1 }

  /** A value or an information has changed. */
  predicate Announces(e: Event) { e.isElem && e.mask != 0xFFFF_FFFF && (e.mask % 2 == 1 || (e.mask / 2) % 2 == 1) }

  /** The list after an event: with a new key at its end, without the first occurrence of a removed
      one, or as it was. */
  ghost predicate ListAfter(keys: seq<Key>, e: Event, after: seq<Key>) {
    && (Adds(e) && e.key !in keys ==> after == keys + [e.key])
    && (Removes(e) && e.key in keys ==>
          exists k :: 0 <= k < |keys| && keys[k] == e.key && e.key !in keys[..k] && after == keys[..k] + keys[k + 1..])
    && (!(Adds(e) && e.key !in keys) && !(Removes(e) && e.key in keys) ==> after == keys)
  }

  /** Its result: -EBUSY for an addition of a known key, -ENOENT for a removal or an announcement of
      an unknown one, otherwise the answer of the callback that fails, or 0. */
  ghost predicate CodeAfter(keys: seq<Key>, e: Event, onAdd: int, onChange: int, after: seq<Key>, err: int) {
    err == if Removes(e) then (if e.key in keys then 0 else -2)
           else if Adds(e) && e.key in keys then -16
           else if Adds(e) && onAdd < 0 then onAdd
           else if Announces(e) && e.key !in after then -2
           else if Announces(e) && onChange < 0 then onChange
           else 0
  }

  lemma {:induction false} EventLaw(keys: seq<Key>, e: Event, onAdd: int, onChange: int)
    ensures var (err, after) := HandleEvent(keys, e, onAdd, onChange);
            ListAfter(keys, e, after) && CodeAfter(keys, e, onAdd, onChange, after, err)
  {
    if Removes(e) && e.key in keys {
      var k := IndexOf(keys, e.key);
      assert keys[..|keys|] == keys;
      assert keys[k] == e.key && e.key !in keys[..k] && RemoveAt(keys, k) == keys[..k] + keys[k + 1..];
    }
  }

  /** No event makes a key appear twice, and one event changes at most one place. */
  lemma {:induction false} EventKeepsUnique(keys: seq<Key>, e: Event, onAdd: int, onChange: int)
    requires UniqueKeys(keys)
    ensures UniqueKeys(HandleEvent(keys, e, onAdd, onChange).1)
    ensures e.isElem && e.mask == MASK_REMOVE ==> e.key !in HandleEvent(keys, e, onAdd, onChange).1
    ensures forall key :: key != e.key ==> (key in HandleEvent(keys, e, onAdd, onChange).1 <==> key in keys)
  {
    if e.isElem && e.mask == MASK_REMOVE && e.key in keys {
      var k := IndexOf(keys, e.key);
      var rest := RemoveAt(keys, k);
      forall i | 0 <= i < |rest|
        ensures rest[i] == keys[if i < k then i else i + 1]
      {
      }
      forall i | 0 <= i < |keys| && i != k
        ensures keys[i] in rest
      {
        assert rest[if i < k then i else i - 1] == keys[i];
      }
    }
  }

  datatype Answered = Answered(event: Event, onAdd: int, onChange: int)

  function HandleAll(keys: seq<Key>, events: seq<Answered>): seq<Key>
    decreases |events|
  {
    if events == [] then keys
    else HandleAll(HandleEvent(keys, events[0].event, events[0].onAdd, events[0].onChange).1, events[1..])
  }

  /** Over any run of events, failed ones included, keys stay distinct. */
  lemma {:induction false} KeysStayUnique(keys: seq<Key>, events: seq<Answered>)
    requires UniqueKeys(keys)
    ensures UniqueKeys(HandleAll(keys, events))
    decreases |events|
  {
    if events != [] {
      EventKeepsUnique(keys, events[0].event, events[0].onAdd, events[0].onChange);
      KeysStayUnique(HandleEvent(keys, events[0].event, events[0].onAdd, events[0].onChange).1, events[1..]);
    }
  }

  /** Loading compares nothing: the keys stay distinct exactly when the listed ones are, and are new. */
  lemma {:induction false} LoadKeepsUnique(keys: seq<Key>, listed: seq<Key>)
    requires UniqueKeys(keys)
    ensures UniqueKeys(keys + listed) <==> UniqueKeys(listed) && forall key :: key in listed ==> key !in keys
  {
    var all, n := keys + listed, |keys|;
    if UniqueKeys(all) {
      forall i, j | 0 <= i < j < |listed|
        ensures listed[i] != listed[j]
      {
        assert all[n + i] != all[n + j];
      }
      forall key | key in listed
        ensures key !in keys
      {
        var j :| 0 <= j < |listed| && listed[j] == key;
        forall i | 0 <= i < n
          ensures keys[i] != key
        {
          assert all[i] != all[n + j];
        }
      }
    } else {
      var i, j :| 0 <= i < j < |all| && all[i] == all[j];
      if i >= n {
        assert listed[i - n] == listed[j - n];
      } else {
        assert all[i] == keys[i] && keys[i] in keys;
        assert UniqueKeys(listed) ==> j >= n && all[j] == listed[j - n] && listed[j - n] in listed;
      }
    }
  }

  function Reversed<T>(s: seq<T>): seq<T> {
    if s == [] then [] else Reversed(s[1..]) + [s[0]]
  }

  // ---------------------------------------------------------------- in place

  class Elem {
    const key: Key
    var prev: Elem?
    var next: Elem?

    constructor (key: Key)
      ensures this.key == key
    {
      this.key, prev, next := key, null, null;
    }
  }

  class ControlHandle {
    var first: Elem?
    var last: Elem?
    var count: nat
    ghost var nodes: seq<Elem>

    ghost predicate Valid()
      reads this, nodes
    {
      && count == |nodes|
      && first == (if nodes == [] then null else nodes[0])
      && last == (if nodes == [] then null else nodes[|nodes| - 1])
      && (forall i {:trigger nodes[i].prev} :: 0 <= i < |nodes| ==>
            nodes[i].prev == if i == 0 then null else nodes[i - 1])
      && (forall i {:trigger nodes[i].next} :: 0 <= i < |nodes| ==>
            nodes[i].next == if i == |nodes| - 1 then null else nodes[i + 1])
      && (forall i, j :: 0 <= i < j < |nodes| ==> nodes[i] != nodes[j])
    }

    ghost function Keys(): seq<Key>
      reads this
    {
      seq(|nodes|, i requires 0 <= i < |nodes| reads this => nodes[i].key)
    }

    constructor ()
      ensures Valid() && Keys() == []
    {
      first, last, count, nodes := null, null, 0, [];
    }

    /** add_elem_list */
    method Append(elem: Elem)
      requires Valid() && elem !in nodes
      modifies this, nodes, elem
      ensures Valid() && nodes == old(nodes) + [elem] && Keys() == old(Keys()) + [elem.key]
    {
      elem.next := null;
      elem.prev := last;
      if last != null {
        last.next := elem;
      } else {
        first := elem;
      }
      last := elem;
      count := count + 1;
      nodes := nodes + [elem];
    }

    /** del_elem_list */
    method Delete(elem: Elem, ghost k: nat)
      requires Valid() && k < |nodes| && nodes[k] == elem
      modifies this, nodes
      ensures Valid() && nodes == old(nodes)[..k] + old(nodes)[k + 1..] && Keys() == RemoveAt(old(Keys()), k)
    {
      count := count - 1;
      if elem.prev != null {
        elem.prev.next := elem.next;
      } else {
        first := elem.next;
      }
      if elem.next != null {
        elem.next.prev := elem.prev;
      } else {
        last := elem.prev;
      }
      nodes := nodes[..k] + nodes[k + 1..];
    }

    /** snd_hctl_find_elem */
    method Find(key: Key) returns (elem: Elem?, ghost k: nat)
      requires Valid()
      ensures k == IndexOf(Keys(), key)
      ensures elem == null <==> key !in Keys()
      ensures elem != null ==> k < |nodes| && elem == nodes[k] && elem.key == key
    {
      k := 0;
      elem := first;
      while elem != null && elem.key != key
        invariant k <= |nodes| && elem == (if k == |nodes| then null else nodes[k])
        invariant key !in Keys()[..k]
        decreases |nodes| - k
      {
        assert Keys()[k] == elem.key;
        elem := elem.next;
        k := k + 1;
      }
      assert elem != null ==> Keys()[k] == key;
      FirstIndex(Keys(), key, k);
    }

    /** snd_hctl_free: from the last element down to none. */
    method Free()
      requires Valid()
      modifies this, nodes
      ensures Valid() && Keys() == [] && first == null && last == null && count == 0
    {
      while last != null
        invariant Valid() && nodes <= old(nodes)
        decreases |nodes|
      {
        Delete(last, |nodes| - 1);
      }
    }

    /** snd_hctl_load: the controls the driver lists are appended as they come. `listing` and
        `subscribed` are what the driver's calls return, and memory lasts for `room` elements. After
        any failure nothing is left, not even what was there before. */
    method Load(listing: int, listed: seq<Key>, room: nat, subscribed: int) returns (err: int)
      requires Valid()
      modifies this, nodes
      ensures Valid()
      ensures err == if listing < 0 then listing else if room < |listed| then -ENOMEM else subscribed
      ensures Keys() == if err < 0 then [] else old(Keys()) + listed
    {
      if listing < 0 {
        Free();
        return listing;
      }
      var idx := 0;
      ghost var added: seq<Elem> := [];
      while idx < |listed|
        invariant idx <= |listed| && idx <= room && Valid() && Keys() == old(Keys()) + listed[..idx]
        invariant nodes == old(nodes) + added && forall i :: 0 <= i < |added| ==> fresh(added[i])
      {
        if idx == room {
          Free();
          return -ENOMEM;
        }
        var elem := new Elem(listed[idx]);
        Append(elem);
        added := added + [elem];
        idx := idx + 1;
      }
      err := subscribed;
      if err < 0 {
        Free();
      }
    }

    /** snd_hctl_elem_add */
    method AddElem(elem: Elem, onAdd: int) returns (err: int)
      requires Valid() && elem !in nodes
      modifies this, nodes, elem
      ensures Valid()
      ensures elem.key in old(Keys()) ==> err == -EBUSY && Keys() == old(Keys())
      ensures elem.key !in old(Keys()) ==> err == onAdd && Keys() == old(Keys()) + [elem.key]
    {
      var found, k := Find(elem.key);
      if found != null {
        return -EBUSY;
      }
      Append(elem);
      return onAdd;
    }

    /** The event that removes a control. */
    method RemoveKey(key: Key) returns (err: int)
      requires Valid()
      modifies this, nodes
      ensures Valid() && err == if key in old(Keys()) then 0 else -ENOENT
      ensures Keys() == if key in old(Keys()) && IndexOf(old(Keys()), key) < |old(Keys())|
                        then RemoveAt(old(Keys()), IndexOf(old(Keys()), key)) else old(Keys())
    {
      var elem, k := Find(key);
      if elem == null {
        return -ENOENT;
      }
      Delete(elem, k);
      return 0;
    }

    /** The event that tells of a change. */
    method Announce(key: Key, onChange: int) returns (err: int)
      requires Valid()
      ensures err == if key !in Keys() then -ENOENT else if onChange < 0 then onChange else 0
    {
      var elem, k := Find(key);
      if elem == null {
        return -ENOENT;
      }
      return if onChange < 0 then onChange else 0;
    }

    /** snd_hctl_handle_event */
    method Handle(e: Event, onAdd: int, onChange: int) returns (err: int)
      requires Valid()
      modifies this, nodes
      ensures Valid() && (err, Keys()) == HandleEvent(old(Keys()), e, onAdd, onChange)
      ensures ListAfter(old(Keys()), e, Keys()) && CodeAfter(old(Keys()), e, onAdd, onChange, Keys(), err)
    {
      EventLaw(Keys(), e, onAdd, onChange);
      hide ListAfter, CodeAfter, HasBit;
      if !e.isElem {
        return 0;
      }
      if e.mask == MASK_REMOVE {
        err := RemoveKey(e.key);
        return;
      }
      if HasBit(e.mask, MASK_ADD) {
        var elem := new Elem(e.key);
        err := AddElem(elem, onAdd);
        if err < 0 {
          return;
        }
      }
      if HasBit(e.mask, MASK_VALUE) || HasBit(e.mask, MASK_INFO) {
        err := Announce(e.key, onChange);
        return;
      }
      return 0;
    }

    /** Following the forward links reads the keys in order. */
    method ReadForward() returns (keys: seq<Key>)
      requires Valid()
      ensures keys == Keys()
    {
      keys := [];
      var elem, i := first, 0;
      while elem != null
        invariant i <= |nodes| && elem == (if i == |nodes| then null else nodes[i]) && keys == Keys()[..i]
        decreases |nodes| - i
      {
        keys := keys + [elem.key];
        elem := elem.next;
        i := i + 1;
      }
    }

    /** Following the backward links reads the same keys the other way round. */
    method ReadBackward() returns (keys: seq<Key>)
      requires Valid()
      ensures keys == Reversed(Keys())
    {
      keys := [];
      var elem := last;
      ghost var i: nat := |nodes|;
      while elem != null
        invariant i <= |nodes| && elem == (if i == 0 then null else nodes[i - 1])
        invariant keys == Reversed(Keys()[i..])
        decreases i
      {
        assert Keys()[i - 1..] == [Keys()[i - 1]] + Keys()[i..];
        keys := keys + [elem.key];
        elem := elem.prev;
        i := i - 1;
      }
      assert Keys()[0..] == Keys();
    }
  }

  lemma {:induction false} FirstIndex(keys: seq<Key>, key: Key, k: nat)
    requires k <= |keys| && key !in keys[..k] && (k < |keys| ==> keys[k] == key)
    ensures IndexOf(keys, key) == k
    ensures key in keys <==> k < |keys|
  {
  }
}

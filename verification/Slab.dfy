/**
  The handle table of rust/assets/hep-viewer.js: `heap`, `heap_next`, `addHeapObject`, `getObject`,
  `dropObject` and `takeObject`.

  The free list is threaded through the slots of the array itself, as plain numbers that nothing tells
  apart from stored numbers.  The specification is a table that keeps live handles and the free list
  apart.
 */
module Slab {

  /** A slot holds any JavaScript value; a link of the free list is a number like any other. */
  datatype JsValue = Undefined | Null | Boolean(b: bool) | Number(n: int) | Other(id: nat)

  const RESERVED: nat := 1028

  /** 1024 slots of `undefined`, then `undefined`, `null`, `true` and `false`. */
  function ReservedValue(h: nat): JsValue {
    if h == 1025 then Null
    else if h == 1026 then Boolean(true)
    else if h == 1027 then Boolean(false)
    else Undefined
  }

  // ---------- Specification ----------

  datatype Table = Table(live: map<nat, JsValue>, free: seq<nat>, top: nat) {

    /** Every slot at or above the reserved ones is live or free, never both, and listed once. */
    ghost predicate Valid() {
      && RESERVED <= top
      && (forall i, j :: 0 <= i < j < |free| ==> free[i] != free[j])
      && (forall h :: h in live ==> RESERVED <= h < top && h !in free)
      && (forall h :: h in free ==> RESERVED <= h < top)
      && (forall h :: RESERVED <= h < top ==> h in live || h in free)
      && |live| + |free| == top - RESERVED
    }

    /** The handle that the `i`-th addition from now will get. */
    function Handle(i: nat): nat {
      if i < |free| then free[i] else top + (i - |free|)
    }

    function Add(obj: JsValue): Table {
      Table(live[Handle(0) := obj], if free == [] then [] else free[1..], if free == [] then top + 1 else top)
    }

    /** Handles below the reserved mark are never given back. */
    function Drop(h: nat): Table {
      if h < RESERVED then this else Table(live - {h}, [h] + free, top)
    }

    predicate Droppable(h: nat) {
      h < RESERVED || h in live
    }

    function Read(h: nat): JsValue {
      if h < RESERVED then ReservedValue(h) else if h in live then live[h] else Undefined
    }
  }

  const EMPTY: Table := Table(map[], [], RESERVED)

  lemma AddKeepsTable(t: Table, obj: JsValue)
    requires t.Valid()
    ensures t.Add(obj).Valid()
    ensures t.Handle(0) !in t.live && t.Handle(0) >= RESERVED
    ensures |t.Add(obj).live| == |t.live| + 1
  {
    HandleIsNew(t);
    assert t.Add(obj).live.Keys == t.live.Keys + {t.Handle(0)};
    assert |t.Add(obj).live| == |t.Add(obj).live.Keys| && |t.live| == |t.live.Keys|;
    if t.free == [] {
      GrowKeepsTable(t, obj);
    } else {
      ReuseKeepsTable(t, obj);
    }
  }

  lemma GrowKeepsTable(t: Table, obj: JsValue)
    requires t.Valid() && t.free == [] && |t.Add(obj).live| == |t.live| + 1
    ensures t.Add(obj).Valid()
  {
    var t' := t.Add(obj);
    assert t' == Table(t.live[t.top := obj], [], t.top + 1);
    assert forall x :: x in t'.live <==> x in t.live || x == t.top;
  }

  lemma ReuseKeepsTable(t: Table, obj: JsValue)
    requires t.Valid() && t.free != [] && |t.Add(obj).live| == |t.live| + 1
    ensures t.Add(obj).Valid()
  {
    var h, t' := t.free[0], t.Add(obj);
    assert t' == Table(t.live[h := obj], t.free[1..], t.top);
    assert h in t.free;
    RestOfFree(t.free);
    assert forall x :: x in t'.live <==> x in t.live || x == h;
  }

  lemma HandleIsNew(t: Table)
    requires t.Valid()
    ensures t.Handle(0) !in t.live && RESERVED <= t.Handle(0)
    ensures t.Handle(0) == t.top <==> t.free == []
  {
    if t.free != [] {
      assert t.free[0] in t.free;
    }
  }

  lemma RestOfFree(free: seq<nat>)
    requires free != [] && forall i, j :: 0 <= i < j < |free| ==> free[i] != free[j]
    ensures forall h :: h in free[1..] <==> h in free && h != free[0]
  {
    assert free == [free[0]] + free[1..];
  }

  lemma DropKeepsTable(t: Table, h: nat)
    requires t.Valid() && t.Droppable(h)
    ensures t.Drop(h).Valid()
    ensures h >= RESERVED ==> |t.Drop(h).live| == |t.live| - 1
  {
    if h >= RESERVED {
      var t' := t.Drop(h);
      assert t'.live.Keys == t.live.Keys - {h};
      assert |t'.live| == |t'.live.Keys| && |t.live| == |t.live.Keys|;
      assert forall x :: x in t'.free <==> x == h || x in t.free;
    }
  }

  // ---------- The slots of a table ----------

  /** Where the chain goes from its `i`-th free slot; the last link is the length of the array. */
  function Link(t: Table, i: nat): nat {
    if i < |t.free| then t.free[i] else t.top
  }

  ghost predicate Represents(slots: seq<JsValue>, next: int, t: Table) {
    && |slots| == t.top
    && (forall h :: 0 <= h < RESERVED && h < |slots| ==> slots[h] == ReservedValue(h))
    && next == Link(t, 0)
    && (forall h :: h in t.live && h < |slots| ==> slots[h] == t.live[h])
    && (forall i {:trigger slots[t.free[i]]} :: 0 <= i < |t.free| && t.free[i] < |slots| ==>
            slots[t.free[i]] == Number(Link(t, i + 1)))
  }

  /** Follow the links from `next`, at most `fuel` of them, until they leave the array. */
  function Walk(slots: seq<JsValue>, next: int, fuel: nat): seq<int>
    decreases fuel
  {
    if fuel == 0 || !(0 <= next < |slots|) || !slots[next].Number? then []
    else [next] + Walk(slots, slots[next].n, fuel - 1)
  }

  lemma SlotOfFree(slots: seq<JsValue>, t: Table, i: nat)
    requires t.Valid() && Represents(slots, Link(t, 0), t) && i < |t.free|
    ensures RESERVED <= t.free[i] < |slots| && slots[t.free[i]] == Number(Link(t, i + 1))
  {
    assert t.free[i] in t.free;
  }

  /** The chain visits exactly the free slots, each once, in order, and then ends at the array's length. */
  lemma {:induction false} WalkVisitsFreeSlots(slots: seq<JsValue>, t: Table, i: nat, fuel: nat)
    requires t.Valid() && Represents(slots, Link(t, 0), t)
    requires i <= |t.free| <= i + fuel
    ensures Walk(slots, Link(t, i), fuel) == t.free[i..]
    decreases fuel
  {
    if i < |t.free| {
      SlotOfFree(slots, t, i);
      WalkVisitsFreeSlots(slots, t, i + 1, fuel - 1);
      assert t.free[i..] == [t.free[i]] + t.free[i + 1..];
    }
  }

  /** The array and its entry determine the table. */
  lemma ChainIsUnique(slots: seq<JsValue>, next: int, t: Table, t': Table)
    requires t.Valid() && t'.Valid()
    requires Represents(slots, next, t) && Represents(slots, next, t')
    ensures t == t'
  {
    var fuel := |t.free| + |t'.free|;
    WalkVisitsFreeSlots(slots, t, 0, fuel);
    WalkVisitsFreeSlots(slots, t', 0, fuel);
    assert t.free == t.free[0..] == t'.free[0..] == t'.free;
    assert t.live == t'.live;
  }

  /** The slots that never change, in the array and for a reader. */
  lemma ReservedSlotsAreSpelledOut(slots: seq<JsValue>, next: int, t: Table, h: nat)
    requires t.Valid() && Represents(slots, next, t) && h < 1028
    ensures h < |slots| && t.Read(h) == slots[h]
    ensures slots[h] == if h <= 1024 then Undefined else if h == 1025 then Null else Boolean(h == 1026)
  {
  }

  // ---------- One operation on the slots ----------

  lemma GrowThreads(slots: seq<JsValue>, t: Table, obj: JsValue)
    requires t.Valid() && Represents(slots, |slots|, t)
    ensures t.free == []
    ensures Represents(slots + [obj], |slots| + 1, t.Add(obj))
  {
    HandleIsNew(t);
  }

  lemma ReuseThreads(slots: seq<JsValue>, next: int, t: Table, obj: JsValue)
    requires t.Valid() && Represents(slots, next, t) && next != |slots|
    ensures t.free != [] && next == t.free[0] < |slots| && slots[next] == Number(Link(t, 1))
    ensures Represents(slots[next := obj], Link(t, 1), t.Add(obj))
  {
    HandleIsNew(t);
    SlotOfFree(slots, t, 0);
    RestIsThreaded(slots, t, obj);
  }

  lemma RestIsThreaded(slots: seq<JsValue>, t: Table, obj: JsValue)
    requires t.Valid() && Represents(slots, Link(t, 0), t) && t.free != [] && t.free[0] < |slots|
    ensures Represents(slots[t.free[0] := obj], Link(t, 1), t.Add(obj))
  {
    var t', slots' := t.Add(obj), slots[t.free[0] := obj];
    HandleIsNew(t);
    assert t'.free == t.free[1..] && t'.top == t.top && t'.live == t.live[t.free[0] := obj];
    forall i {:trigger slots'[t'.free[i]]} | 0 <= i < |t'.free| && t'.free[i] < |slots'|
      ensures slots'[t'.free[i]] == Number(Link(t', i + 1))
    {
      SlotOfFree(slots, t, i + 1);
      assert t.free[i + 1] != t.free[0];
    }
  }

  lemma DropThreads(slots: seq<JsValue>, next: int, t: Table, h: nat)
    requires t.Valid() && Represents(slots, next, t) && h in t.live
    ensures RESERVED <= h < |slots|
    ensures Represents(slots[h := Number(next)], h, t.Drop(h))
  {
    var t', slots' := t.Drop(h), slots[h := Number(next)];
    forall i | 0 <= i < |t'.free|
      ensures t'.free[i] < |slots'| ==> slots'[t'.free[i]] == Number(Link(t', i + 1))
    {
      if i > 0 {
        SlotOfFree(slots, t, i - 1);
        assert t.free[i - 1] in t.free && t'.free[i] == t.free[i - 1] != h;
      }
    }
  }

  // ---------- The array with its threaded free list ----------

  class Heap {
    var heap: seq<JsValue>
    var heapNext: int
    ghost var table: Table

    ghost predicate Valid()
      reads this
    {
      table.Valid() && Represents(heap, heapNext, table)
    }

    constructor ()
      ensures Valid() && table == EMPTY
      ensures |heap| == heapNext == 1028 && (forall h :: 0 <= h <= 1024 ==> heap[h] == Undefined)
      ensures heap[1025] == Null && heap[1026] == Boolean(true) && heap[1027] == Boolean(false)
    {
      heap := seq(RESERVED, (h: nat) => ReservedValue(h));
      heapNext := RESERVED;
      table := EMPTY;
    }

    method AddHeapObject(obj: JsValue) returns (idx: nat)
      requires Valid()
      modifies this
      ensures Valid() && table == old(table).Add(obj)
      ensures idx == old(table).Handle(0) && idx !in old(table).live
    {
      AddKeepsTable(table, obj);
      HandleIsNew(table);
      if heapNext == |heap| {
        GrowThreads(heap, table, obj);
        heap := heap + [Number(|heap| + 1)];
        assert heap[heapNext := obj] == old(heap) + [obj];
      } else {
        ReuseThreads(heap, heapNext, table, obj);
      }
      idx := heapNext;
      heapNext := heap[idx].n;
      heap := heap[idx := obj];
      table := table.Add(obj);
    }

    method GetObject(idx: nat) returns (obj: JsValue)
      requires Valid() && table.Droppable(idx)
      ensures obj == table.Read(idx)
    {
      obj := heap[idx];
    }

    method DropObject(idx: nat)
      requires Valid() && table.Droppable(idx)
      modifies this
      ensures Valid() && table == old(table).Drop(idx)
    {
      DropKeepsTable(table, idx);
      if idx < RESERVED {
        return;
      }
      DropThreads(heap, heapNext, table, idx);
      heap := heap[idx := Number(heapNext)];
      heapNext := idx;
      table := table.Drop(idx);
    }

    method TakeObject(idx: nat) returns (ret: JsValue)
      requires Valid() && table.Droppable(idx)
      modifies this
      ensures Valid() && table == old(table).Drop(idx)
      ensures ret == old(table).Read(idx)
    {
      ret := GetObject(idx);
      DropObject(idx);
    }
  }
}

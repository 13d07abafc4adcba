/** What the handle table guarantees over whole runs, and over whole arrays of handles. */
module SlabRuns {
  import opened Slab

  datatype Op = AddOp(obj: JsValue) | TakeOp(handle: nat)

  function Apply(t: Table, op: Op): Table {
    match op
    case AddOp(obj) => t.Add(obj)
    case TakeOp(h) => t.Drop(h)
  }

  /** Takes are of live or reserved handles; nothing else is asked of a caller. */
  predicate Allowed(t: Table, op: Op) {
    op.TakeOp? ==> t.Droppable(op.handle)
  }

  function After(t: Table, ops: seq<Op>): Table {
    if ops == [] then t else Apply(After(t, ops[..|ops| - 1]), ops[|ops| - 1])
  }

  ghost predicate Legal(t: Table, ops: seq<Op>) {
    forall i :: 0 <= i < |ops| ==> Allowed(After(t, ops[..i]), ops[i])
  }

  lemma LegalPrefix(t: Table, ops: seq<Op>)
    requires Legal(t, ops) && ops != []
    ensures Legal(t, ops[..|ops| - 1]) && Allowed(After(t, ops[..|ops| - 1]), ops[|ops| - 1])
  {
    var init := ops[..|ops| - 1];
    forall i | 0 <= i < |init|
      ensures Allowed(After(t, init[..i]), init[i])
    {
      assert init[..i] == ops[..i];
    }
  }

  lemma {:induction false} RunKeepsTable(t: Table, ops: seq<Op>)
    requires t.Valid() && Legal(t, ops)
    ensures After(t, ops).Valid()
  {
    if ops != [] {
      var init, last := ops[..|ops| - 1], ops[|ops| - 1];
      LegalPrefix(t, ops);
      RunKeepsTable(t, init);
      match last
      case AddOp(obj) => AddKeepsTable(After(t, init), obj);
      case TakeOp(h) => DropKeepsTable(After(t, init), h);
    }
  }

  // ---------- Growth ----------

  function Max(a: nat, b: nat): nat {
    if a < b then b else a
  }

  /** The largest number of handles that were live at once. */
  function Peak(ops: seq<Op>): nat {
    if ops == [] then 0 else Max(Peak(ops[..|ops| - 1]), |After(EMPTY, ops).live|)
  }

  /** The array never holds a slot more than were once live together. */
  lemma {:induction false} ArrayIsAsLongAsPeak(ops: seq<Op>)
    requires Legal(EMPTY, ops)
    ensures After(EMPTY, ops).top - RESERVED == Peak(ops)
  {
    if ops != [] {
      var init, last := ops[..|ops| - 1], ops[|ops| - 1];
      var before := After(EMPTY, init);
      LegalPrefix(EMPTY, ops);
      RunKeepsTable(EMPTY, init);
      ArrayIsAsLongAsPeak(init);
      match last
      case AddOp(obj) => AddKeepsTable(before, obj);
      case TakeOp(h) => DropKeepsTable(before, h);
      RunKeepsTable(EMPTY, ops);
    }
  }

  // ---------- A handle until it is taken ----------

  /** However the run goes on, a live handle keeps its object and is given to nobody else until it is taken. */
  lemma {:induction false} HandleKeepsItsObject(t: Table, h: nat, ops: seq<Op>)
    requires t.Valid() && h in t.live && Legal(t, ops) && TakeOp(h) !in ops
    ensures After(t, ops).Valid()
    ensures h in After(t, ops).live && After(t, ops).live[h] == t.live[h]
    ensures After(t, ops).Handle(0) != h
  {
    if ops == [] {
      AddKeepsTable(t, Undefined);
    } else {
      var init, last := ops[..|ops| - 1], ops[|ops| - 1];
      LegalPrefix(t, ops);
      assert TakeOp(h) !in init && last != TakeOp(h);
      HandleKeepsItsObject(t, h, init);
      match last
      case AddOp(obj) => AddKeepsTable(After(t, init), obj);
      case TakeOp(k) => DropKeepsTable(After(t, init), k);
      AddKeepsTable(After(t, ops), Undefined);
    }
  }

  // ---------- Runs of the array itself ----------

  lemma OneMoreOp(t: Table, ops: seq<Op>, k: nat)
    requires k < |ops| && Legal(t, ops)
    ensures After(t, ops[..k + 1]) == Apply(After(t, ops[..k]), ops[k]) && Allowed(After(t, ops[..k]), ops[k])
  {
    assert ops[..k + 1][..k] == ops[..k];
  }

  /** Any such run of the real array: it ends as the table does, and a handle that is not taken still reads its object. */
  method Replay(heap: Heap, ops: seq<Op>)
    requires heap.Valid() && Legal(heap.table, ops)
    modifies heap
    ensures heap.Valid() && heap.table == After(old(heap.table), ops)
    ensures forall h :: h in old(heap.table).live && TakeOp(h) !in ops ==>
              h < |heap.heap| && heap.heap[h] == old(heap.table).live[h]
  {
    hide Table.Valid, Represents, Legal;
    ghost var t := heap.table;
    assert After(t, ops[..0]) == t;
    for k := 0 to |ops|
      invariant heap.Valid() && heap.table == After(t, ops[..k])
    {
      OneMoreOp(t, ops, k);
      match ops[k]
      case AddOp(obj) => var _ := heap.AddHeapObject(obj);
      case TakeOp(h) => var _ := heap.TakeObject(h);
    }
    assert ops[..|ops|] == ops;
    StillThere(t, heap, ops);
  }

  lemma StillThere(t: Table, heap: Heap, ops: seq<Op>)
    requires t.Valid() && heap.Valid() && Legal(t, ops) && heap.table == After(t, ops)
    ensures forall h :: h in t.live && TakeOp(h) !in ops ==> h < |heap.heap| && heap.heap[h] == t.live[h]
  {
    forall h | h in t.live && TakeOp(h) !in ops
      ensures h < |heap.heap| && heap.heap[h] == t.live[h]
    {
      HandleKeepsItsObject(t, h, ops);
    }
  }

  /** From the start of the program, the array is then as much longer than its reserved slots as were ever live at once. */
  method ReplayFromStart(ops: seq<Op>) returns (heap: Heap)
    requires Legal(EMPTY, ops)
    ensures fresh(heap) && heap.Valid() && heap.table == After(EMPTY, ops)
    ensures |heap.heap| - RESERVED == Peak(ops)
    ensures forall h :: 0 <= h < RESERVED && h < |heap.heap| ==> heap.heap[h] == ReservedValue(h)
  {
    heap := new Heap();
    Replay(heap, ops);
    ArrayIsAsLongAsPeak(ops);
  }

  // ---------- Taking what is not live ----------

  /** The slots hold a table whose chain ends at the array's length. */
  ghost predicate WellFormed(slots: seq<JsValue>, next: int) {
    exists t: Table :: t.Valid() && Represents(slots, next, t)
  }

  /** Assigning beyond its end extends a JavaScript array; the slots in between read as undefined. */
  function SlotsAfterDrop(slots: seq<JsValue>, next: int, h: nat): seq<JsValue> {
    if h < RESERVED then slots
    else if h < |slots| then slots[h := Number(next)]
    else slots + seq(h - |slots|, (_: nat) => Undefined) + [Number(next)]
  }

  function NextAfterDrop(next: int, h: nat): int {
    if h < RESERVED then next else h
  }

  /**
    Dropping any index at all keeps a well-formed chain exactly when the slot was reserved or live: a free
    slot closes the chain into a loop, and an index beyond the array lets the old end of the chain lead
    into a hole, or back to its start.
   */
  lemma DropKeepsChainExactlyWhenDroppable(slots: seq<JsValue>, next: int, t: Table, h: nat)
    requires t.Valid() && Represents(slots, next, t)
    ensures WellFormed(SlotsAfterDrop(slots, next, h), NextAfterDrop(next, h)) <==> t.Droppable(h)
  {
    if t.Droppable(h) {
      DropKeepsTable(t, h);
      if h >= RESERVED {
        DropThreads(slots, next, t, h);
      }
      assert Represents(SlotsAfterDrop(slots, next, h), NextAfterDrop(next, h), t.Drop(h));
    } else if h < |slots| {
      DroppingFreeClosesLoop(slots, next, t, h);
    } else {
      DroppingBeyondBreaksChain(slots, next, t, h);
    }
  }

  lemma DroppingBeyondBreaksChain(slots: seq<JsValue>, next: int, t: Table, h: nat)
    requires t.Valid() && Represents(slots, next, t) && |slots| <= h
    ensures !WellFormed(SlotsAfterDrop(slots, next, h), h)
  {
    var slots' := SlotsAfterDrop(slots, next, h);
    FreeListIsChained(slots, t);
    forall t': Table | t'.Valid() && Represents(slots', h, t')
      ensures false
    {
      FreeListIsChained(slots', t');
      assert Link(t', 0) == h < t'.top;
      var n := |t.free|;
      ChainRunsOn(slots, t.free, slots', t'.free, n);
    }
  }

  /** Behind an index beyond the old array, the new chain runs through all of the old one and its end. */
  lemma {:induction false} ChainRunsOn(slots: seq<JsValue>, free: seq<nat>, slots': seq<JsValue>, free': seq<nat>, i: nat)
    requires Chained(slots, free) && Chained(slots', free') && i <= |free|
    requires |slots| < |slots'| && forall h :: 0 <= h < |slots| ==> slots'[h] == slots[h]
    requires free' != [] && free'[0] < |slots'|
    requires slots'[free'[0]] == Number(if free == [] then |slots| else free[0])
    ensures i + 1 < |free'| && free'[i + 1] == if i < |free| then free[i] else |slots|
    decreases i
  {
    if i > 0 {
      ChainRunsOn(slots, free, slots', free', i - 1);
      assert free'[i] == free[i - 1] < |slots|;
      assert slots'[free'[i]] == slots[free[i - 1]] == Number(Successor(|slots|, free, i - 1));
    }
    if i < |free| { assert free[i] < |slots|; }
    assert slots'[free'[i]] == Number(Successor(|slots'|, free', i));
    assert slots'[free'[i]] == Number(if i < |free| then free[i] else |slots|);
  }

  lemma DroppingFreeClosesLoop(slots: seq<JsValue>, next: int, t: Table, h: nat)
    requires t.Valid() && Represents(slots, next, t) && h in t.free && RESERVED <= h < |slots|
    ensures !WellFormed(slots[h := Number(next)], h)
  {
    var slots' := slots[h := Number(next)];
    FreeListIsChained(slots, t);
    var k :| 0 <= k < |t.free| && t.free[k] == h;
    assert next == t.free[0];
    forall t': Table | t'.Valid() && Represents(slots', h, t')
      ensures false
    {
      FreeListIsChained(slots', t');
      assert Link(t', 0) == h < t'.top;
      hide Represents, Chained, Table.Valid;
      LoopRepeats(slots, t.free, k, t'.free, k);
    }
  }

  /** Each slot of the list links to the next one, and the last one out of the array. */
  ghost predicate Chained(slots: seq<JsValue>, free: seq<nat>) {
    ChainedUpTo(slots, free, |free|)
  }

  ghost predicate ChainedUpTo(slots: seq<JsValue>, free: seq<nat>, n: nat) {
    forall i :: 0 <= i < n && i < |free| ==> free[i] < |slots| && slots[free[i]] == Number(Successor(|slots|, free, i))
  }

  function Successor(end: nat, free: seq<nat>, i: nat): nat {
    if i + 1 < |free| then free[i + 1] else end
  }

  lemma FreeListIsChained(slots: seq<JsValue>, t: Table)
    requires t.Valid() && Represents(slots, Link(t, 0), t)
    ensures Chained(slots, t.free)
    ensures forall i, j :: 0 <= i < j < |t.free| ==> t.free[i] != t.free[j]
  {
    forall i | 0 <= i < |t.free|
      ensures t.free[i] < |slots| && slots[t.free[i]] == Number(Link(t, i + 1))
    {
      SlotOfFree(slots, t, i);
    }
  }

  /** Behind the dropped free slot, the new chain runs through the old one up to that slot again. */
  lemma {:induction false} LoopRepeats(slots: seq<JsValue>, free: seq<nat>, k: nat, free': seq<nat>, i: nat)
    requires Chained(slots, free) && i <= k < |free|
    requires forall a, b :: 0 <= a < b < |free| ==> free[a] != free[b]
    requires ChainedUpTo(slots[free[k] := Number(free[0])], free', k + 1)
    requires free' != [] && free'[0] == free[k]
    ensures i + 1 < |free'| && free'[i + 1] == free[i]
    decreases i
  {
    var slots' := slots[free[k] := Number(free[0])];
    if i > 0 {
      LoopRepeats(slots, free, k, free', i - 1);
      assert free[i - 1] != free[k];
    }
    assert free[i] < |slots|;
    assert slots'[free'[i]] == Number(Successor(|slots|, free', i));
    assert slots'[free'[i]] == Number(free[i]);
  }

  // ---------- Arrays of handles ----------

  function AddAll(t: Table, objs: seq<JsValue>): Table {
    if objs == [] then t else AddAll(t, objs[..|objs| - 1]).Add(objs[|objs| - 1])
  }

  function Handles(t: Table, n: nat): seq<nat> {
    seq(n, (i: nat) => t.Handle(i))
  }

  function DropAll(t: Table, handles: seq<nat>): Table {
    if handles == [] then t else DropAll(t, handles[..|handles| - 1]).Drop(handles[|handles| - 1])
  }

  function Reverse(s: seq<nat>): seq<nat> {
    if s == [] then [] else [s[|s| - 1]] + Reverse(s[..|s| - 1])
  }

  /** The slots that are still free, and the length of the array, after `n` additions. */
  function FreeAfter(t: Table, n: nat): seq<nat> {
    if n <= |t.free| then t.free[n..] else []
  }

  function TopAfter(t: Table, n: nat): nat {
    if n <= |t.free| then t.top else t.top + n - |t.free|
  }

  /** Which object each granted handle stands for. */
  function Granted(t: Table, objs: seq<JsValue>): map<nat, JsValue> {
    if objs == [] then map[]
    else Granted(t, objs[..|objs| - 1])[t.Handle(|objs| - 1) := objs[|objs| - 1]]
  }

  lemma HandlesAreNew(t: Table, i: nat, j: nat)
    requires t.Valid()
    ensures t.Handle(i) !in t.live && t.Handle(i) >= RESERVED
    ensures i != j ==> t.Handle(i) != t.Handle(j)
  {
    if i < |t.free| { assert t.free[i] in t.free; }
    if j < |t.free| { assert t.free[j] in t.free; }
  }

  lemma {:induction false} AddAllParts(t: Table, objs: seq<JsValue>)
    ensures var t', n := AddAll(t, objs), |objs|;
      && t'.free == FreeAfter(t, n) && t'.top == TopAfter(t, n)
      && t'.live == t.live + Granted(t, objs)
  {
    if objs != [] {
      var n := |objs| - 1;
      AddAllParts(t, objs[..n]);
      assert AddAll(t, objs[..n]).Handle(0) == t.Handle(n);
    }
  }

  lemma {:induction false} AddAllKeepsTable(t: Table, objs: seq<JsValue>)
    requires t.Valid()
    ensures AddAll(t, objs).Valid()
  {
    if objs != [] {
      AddAllKeepsTable(t, objs[..|objs| - 1]);
      AddKeepsTable(AddAll(t, objs[..|objs| - 1]), objs[|objs| - 1]);
    }
  }

  lemma {:induction false} GrantedOnce(t: Table, objs: seq<JsValue>)
    requires t.Valid()
    ensures forall h :: h in Granted(t, objs) <==> h in Handles(t, |objs|)
    ensures forall i :: 0 <= i < |objs| ==> t.Handle(i) in Granted(t, objs) && Granted(t, objs)[t.Handle(i)] == objs[i]
  {
    if objs != [] {
      var n := |objs|;
      GrantedOnce(t, objs[..n - 1]);
      assert Handles(t, n) == Handles(t, n - 1) + [t.Handle(n - 1)];
      forall i | 0 <= i < n
        ensures t.Handle(i) in Granted(t, objs) && Granted(t, objs)[t.Handle(i)] == objs[i]
      {
        HandlesAreNew(t, i, n - 1);
      }
    }
  }

  function Elements(handles: seq<nat>): set<nat> {
    if handles == [] then {} else Elements(handles[..|handles| - 1]) + {handles[|handles| - 1]}
  }

  lemma {:induction false} ElementsAreMembers(handles: seq<nat>, h: nat)
    ensures h in Elements(handles) <==> h in handles
  {
    if handles != [] {
      var init := handles[..|handles| - 1];
      ElementsAreMembers(init, h);
      assert handles == init + [handles[|handles| - 1]];
    }
  }

  /** Dropped handles go in front of the free list, last one first. */
  lemma {:induction false} DropAllParts(t: Table, handles: seq<nat>)
    requires forall i :: 0 <= i < |handles| ==> handles[i] >= RESERVED
    ensures var t' := DropAll(t, handles);
      && t'.free == Reverse(handles) + t.free
      && t'.top == t.top
      && t'.live == t.live - Elements(handles)
  {
    if handles != [] {
      DropAllParts(t, handles[..|handles| - 1]);
    }
  }

  lemma {:induction false} DropAllKeepsTable(t: Table, handles: seq<nat>)
    requires t.Valid()
    requires forall i :: 0 <= i < |handles| ==> handles[i] in t.live
    requires forall i, j :: 0 <= i < j < |handles| ==> handles[i] != handles[j]
    ensures DropAll(t, handles).Valid()
  {
    if handles != [] {
      var init := handles[..|handles| - 1];
      DropAllKeepsTable(t, init);
      DropAllParts(t, init);
      ElementsAreMembers(init, handles[|handles| - 1]);
      assert handles[|handles| - 1] in DropAll(t, init).live;
      DropKeepsTable(DropAll(t, init), handles[|handles| - 1]);
    }
  }

  /** The table after an array was passed into wasm and read back. */
  function TakenBack(t: Table, objs: seq<JsValue>): Table {
    DropAll(AddAll(t, objs), Handles(t, |objs|))
  }

  /** The same objects are read back. */
  lemma PassedObjectsAreRead(t: Table, objs: seq<JsValue>)
    requires t.Valid()
    ensures forall i :: 0 <= i < |objs| ==>
      t.Handle(i) in AddAll(t, objs).live && AddAll(t, objs).live[t.Handle(i)] == objs[i]
  {
    AddAllParts(t, objs);
    GrantedOnce(t, objs);
  }

  /** Reading an array back leaves the same live handles, and the used slots reversed in front of the rest. */
  lemma ArrayRoundTrip(t: Table, objs: seq<JsValue>)
    requires t.Valid()
    ensures TakenBack(t, objs).live == t.live
    ensures TakenBack(t, objs).free == Reverse(Handles(t, |objs|)) + FreeAfter(t, |objs|)
    ensures TakenBack(t, objs).top == TopAfter(t, |objs|)
  {
    AddAllParts(t, objs);
    HandlesAreDistinct(t, |objs|);
    hide AddAll, DropAll, Reverse, Granted, Elements, Table.Valid, FreeAfter, TopAfter;
    DropAllParts(AddAll(t, objs), Handles(t, |objs|));
    LiveIsRestored(t, objs);
  }

  lemma ArrayRoundTripKeepsTable(t: Table, objs: seq<JsValue>)
    requires t.Valid()
    ensures TakenBack(t, objs).Valid()
  {
    var handles := Handles(t, |objs|);
    AddAllKeepsTable(t, objs);
    PassedObjectsAreRead(t, objs);
    HandlesAreDistinct(t, |objs|);
    hide AddAll, DropAll, Table.Valid;
    assert forall i :: 0 <= i < |handles| ==> handles[i] == t.Handle(i);
    DropAllKeepsTable(AddAll(t, objs), handles);
  }

  lemma HandlesAreDistinct(t: Table, n: nat)
    requires t.Valid()
    ensures var handles := Handles(t, n);
      && (forall i :: 0 <= i < n ==> handles[i] !in t.live && handles[i] >= RESERVED)
      && (forall i, j :: 0 <= i < j < n ==> handles[i] != handles[j])
  {
    var handles := Handles(t, n);
    forall i, j | 0 <= i < n && 0 <= j < n
      ensures handles[i] !in t.live && handles[i] >= RESERVED
      ensures i != j ==> handles[i] != handles[j]
    {
      HandlesAreNew(t, i, j);
    }
  }

  lemma LiveIsRestored(t: Table, objs: seq<JsValue>)
    requires t.Valid()
    ensures t.live + Granted(t, objs) - Elements(Handles(t, |objs|)) == t.live
  {
    var handles := Handles(t, |objs|);
    GrantedOnce(t, objs);
    HandlesAreDistinct(t, |objs|);
    forall h: nat
      ensures h in Elements(handles) <==> h in handles
      ensures h in handles ==> h !in t.live
    {
      ElementsAreMembers(handles, h);
    }
  }
}

/**
  Whole arrays of JavaScript values through wasm memory: `passArrayJsValueToWasm0` and
  `getArrayJsValueFromWasm0` of rust/assets/hep-viewer.js, which tie the handle table to the memory views.
 */
module Arrays {
  import opened Wrappers
  import opened Utf
  import opened Wasm
  import opened Slab
  import opened SlabRuns
  import opened Marshal

  class ArrayGlue {
    const glue: Glue
    const objects: Heap

    ghost predicate Valid()
      reads this, glue, glue.buffer, glue.cachedDataViewMemory0, glue.cachedUint8ArrayMemory0, objects
    {
      glue.Valid() && objects.Valid()
    }

    constructor (glue: Glue)
      requires glue.Valid()
      ensures this.glue == glue && Valid() && objects.table == EMPTY
    {
      this.glue := glue;
      objects := new Heap();
    }

    /** The first `i` elements have their handles, and the block at `p` holds them as words. */
    ghost predicate Passing(p: nat, n: nat, i: nat, values: seq<JsValue>, t: Table, before: Store, kept: set<nat>)
      requires i <= |values|
      reads glue`buffer, glue`blocks, glue.buffer`bytes, objects`table
    {
      && glue.Contents().Owns(p, n) && (n > 0 ==> p !in kept) && glue.Contents().Keeps(before, kept)
      && p + n <= |glue.buffer.bytes| && 4 * i <= n
      && Slice(glue.buffer.bytes, p, 4 * i) == Words(Handles(t, i))
      && objects.table == AddAll(t, values[..i])
    }

    method PassOne(view: ArrayBuffer, p: nat, n: nat, i: nat, values: seq<JsValue>,
                   ghost t: Table, ghost before: Store, ghost kept: set<nat>)
      requires Valid() && view == glue.buffer && n == 4 * |values| && i < |values|
      requires Passing(p, n, i, values, t, before, kept)
      modifies objects, glue.buffer`bytes
      ensures Valid() && Passing(p, n, i + 1, values, t, before, kept)
    {
      hide Slice, Splice, AddAll, Words;
      AddAllStep(t, values, i);
      HandlesStep(t, i);
      var idx := objects.AddHeapObject(values[i]);
      glue.Append(view, p, n, 4 * i, Le32(idx), before, kept);
    }

    method StartPassing(values: seq<JsValue>) returns (ptr: Option<nat>)
      requires Valid()
      modifies glue`buffer, glue`blocks, glue.buffer
      ensures Valid() && (glue.buffer == old(glue.buffer) || fresh(glue.buffer))
      ensures ptr.Some? ==>
                && ptr.value < LIMIT
                && Passing(ptr.value, 4 * |values|, 0, values, objects.table, old(glue.Contents()), old(glue.blocks).Keys)
    {
      var raw := glue.Malloc(|values| * 4);
      if raw.None? {
        return None;
      }
      assert values[..0] == [] && Handles(objects.table, 0) == [];
      return Some(ShiftRightZero(raw.value));
    }

    /** A handle for each element, in order, as consecutive words of a new block. */
    method PassArrayJsValueToWasm0(values: seq<JsValue>) returns (ptr: Option<nat>)
      requires Valid()
      modifies objects, glue, glue.buffer
      ensures Valid() && (glue.buffer == old(glue.buffer) || fresh(glue.buffer))
      ensures ptr.None? ==> objects.table == old(objects.table)
      ensures ptr.Some? ==>
                && ptr.value < LIMIT && glue.wasmVectorLen == |values|
                && Passing(ptr.value, 4 * |values|, |values|, values, old(objects.table), old(glue.Contents()), old(glue.blocks).Keys)
    {
      hide Passing, Table.Valid, Store.Valid, Represents, Allocator.Lawful, AddAll;
      ghost var t, before, kept := objects.table, glue.Contents(), glue.blocks.Keys;
      ptr := StartPassing(values);
      if ptr.None? {
        return;
      }
      var p, n := ptr.value, |values| * 4;
      var mem := glue.GetDataViewMemory0();
      for i := 0 to |values|
        invariant Valid() && mem == glue.buffer && Passing(p, n, i, values, t, before, kept)
      {
        PassOne(mem, p, n, i, values, t, before, kept);
      }
      glue.wasmVectorLen := |values|;
    }

    /** The words at `p` are `handles`, each live or reserved when its turn comes. */
    ghost predicate Readable(p: nat, handles: seq<nat>, t: Table)
      reads glue`buffer, glue.buffer`bytes
    {
      && p + 4 * |handles| <= |glue.buffer.bytes|
      && Slice(glue.buffer.bytes, p, 4 * |handles|) == Words(handles)
      && (forall i :: 0 <= i < |handles| ==> handles[i] < LIMIT && DropAll(t, handles[..i]).Droppable(handles[i]))
    }

    method TakeOne(view: ArrayBuffer, p: nat, k: nat, ghost handles: seq<nat>, ghost t: Table) returns (obj: JsValue)
      requires Valid() && view == glue.buffer && k < |handles| && Readable(p, handles, t)
      requires objects.table == DropAll(t, handles[..k])
      modifies objects
      ensures Valid() && objects.table == DropAll(t, handles[..k + 1])
      ensures obj == DropAll(t, handles[..k]).Read(handles[k])
    {
      hide Table.Valid, Store.Valid, Represents, Allocator.Lawful, Table.Read, Slice, Words, Le32, FromLe32;
      WordAt(handles, k);
      FromLe32InvertsLe32(handles[k]);
      SubSlice(view.bytes, p, 4 * |handles|, 4 * k, 4);
      var word := view.GetUint32(p + 4 * k);
      obj := objects.TakeObject(word);
      assert handles[..k + 1][..k] == handles[..k];
    }

    method GetArrayJsValueFromWasm0(ptr: int, len: nat, ghost handles: seq<nat>) returns (result: seq<JsValue>)
      requires Valid() && |handles| == len && Readable(ShiftRightZero(ptr), handles, objects.table)
      modifies objects, glue`cachedDataViewMemory0
      ensures Valid() && objects.table == DropAll(old(objects.table), handles)
      ensures |result| == len
      ensures forall i :: 0 <= i < len ==> result[i] == DropAll(old(objects.table), handles[..i]).Read(handles[i])
    {
      hide Table.Valid, Store.Valid, Represents, Allocator.Lawful, Readable, DropAll, Table.Read;
      EmptyDrop(objects.table, handles);
      ghost var t := objects.table;
      var p := ShiftRightZero(ptr);
      var mem := glue.GetDataViewMemory0();
      result := [];
      var i := p;
      while i < p + 4 * len
        invariant i == p + 4 * |result| && |result| <= len
        invariant Valid() && mem == glue.buffer && Readable(p, handles, t)
        invariant objects.table == DropAll(t, handles[..|result|])
        invariant forall j :: 0 <= j < |result| ==> result[j] == DropAll(t, handles[..j]).Read(handles[j])
      {
        var obj := TakeOne(mem, p, |result|, handles, t);
        result := result + [obj];
        i := i + 4;
      }
      assert handles[..len] == handles;
    }
  }

  lemma EmptyDrop(t: Table, handles: seq<nat>)
    ensures DropAll(t, handles[..0]) == t
  {
  }

  lemma AddAllStep(t: Table, values: seq<JsValue>, i: nat)
    requires i < |values|
    ensures AddAll(t, values[..i + 1]) == AddAll(t, values[..i]).Add(values[i])
    ensures AddAll(t, values[..i]).Handle(0) == t.Handle(i)
  {
    assert values[..i + 1][..i] == values[..i];
    AddAllParts(t, values[..i]);
  }

  lemma HandlesStep(t: Table, i: nat)
    ensures Words(Handles(t, i + 1)) == Words(Handles(t, i)) + Le32(t.Handle(i))
  {
    assert Handles(t, i + 1)[..i] == Handles(t, i);
  }

  lemma SubSlice(m: seq<Byte>, p: nat, n: nat, k: nat, c: nat)
    requires p + n <= |m| && k + c <= n
    ensures Slice(m, p + k, c) == Slice(m, p, n)[k..k + c]
  {
    var outer, inner := Slice(m, p, n), Slice(m, p + k, c);
    forall j | 0 <= j < c
      ensures inner[j] == outer[k..k + c][j]
    {
      assert inner[j] == m[p + k + j] == outer[k + j];
    }
  }

  /** The handles of a passed array can be taken in order, and stand for the array's elements. */
  lemma PassedHandlesAreDroppable(t: Table, values: seq<JsValue>, i: nat)
    requires t.Valid() && i < |values|
    ensures var handles := Handles(t, |values|);
      var now := DropAll(AddAll(t, values), handles[..i]);
      handles[i] in now.live && now.live[handles[i]] == values[i]
  {
    var handles := Handles(t, |values|);
    PassedObjectsAreRead(t, values);
    HandlesAreDistinct(t, |values|);
    hide AddAll, DropAll, Table.Valid;
    assert forall j :: 0 <= j < |values| ==> handles[j] == t.Handle(j);
    HeldHandlesAreDroppable(AddAll(t, values), handles, i);
  }

  /** So can any other different live handles. */
  lemma HeldHandlesAreDroppable(t: Table, handles: seq<nat>, i: nat)
    requires i < |handles| && forall j :: 0 <= j < |handles| ==> handles[j] in t.live && handles[j] >= RESERVED
    requires forall j, k :: 0 <= j < k < |handles| ==> handles[j] != handles[k]
    ensures var now := DropAll(t, handles[..i]); handles[i] in now.live && now.live[handles[i]] == t.live[handles[i]]
  {
    DropAllParts(t, handles[..i]);
    ElementsAreMembers(handles[..i], handles[i]);
  }

  lemma ReadBack(t: Table, values: seq<JsValue>, result: seq<JsValue>)
    requires t.Valid() && |result| == |values|
    requires var handles := Handles(t, |values|);
      forall i :: 0 <= i < |values| ==>
        var now := DropAll(AddAll(t, values), handles[..i]);
        now.Droppable(handles[i]) && result[i] == now.Read(handles[i])
    ensures result == values
    ensures var t' := DropAll(AddAll(t, values), Handles(t, |values|));
      && t'.live == t.live
      && t'.free == Reverse(Handles(t, |values|)) + FreeAfter(t, |values|)
      && t'.top == TopAfter(t, |values|)
  {
    forall i | 0 <= i < |values|
      ensures result[i] == values[i]
    {
      PassedHandlesAreDroppable(t, values, i);
      HandlesAreDistinct(t, |values|);
    }
    ArrayRoundTrip(t, values);
  }

  /** What passing an array left in memory is what reading an array back asks for. */
  lemma PassedIsReadable(arrays: ArrayGlue, p: nat, values: seq<JsValue>, t: Table, before: Store, kept: set<nat>)
    requires t.Valid() && TopAfter(t, |values|) <= LIMIT
    requires arrays.Passing(p, 4 * |values|, |values|, values, t, before, kept)
    ensures arrays.Readable(p, Handles(t, |values|), arrays.objects.table)
    ensures arrays.objects.table == AddAll(t, values)
  {
    var handles := Handles(t, |values|);
    assert values[..|values|] == values;
    forall i | 0 <= i < |values|
      ensures handles[i] < LIMIT && DropAll(AddAll(t, values), handles[..i]).Droppable(handles[i])
    {
      PassedHandlesAreDroppable(t, values, i);
      if i < |t.free| { assert t.free[i] in t.free; }
    }
  }

  /**
    A whole round trip: whatever the table, passing an array and reading back what was passed gives the
    same array, restores the live handles, and leaves the used slots, in reverse, in front of the rest.
   */
  method RoundTrip(arrays: ArrayGlue, values: seq<JsValue>) returns (back: Option<seq<JsValue>>)
    requires arrays.Valid() && TopAfter(arrays.objects.table, |values|) <= LIMIT
    modifies arrays.objects, arrays.glue, arrays.glue.buffer
    ensures arrays.Valid()
    ensures back.Some? ==>
              var t, t' := old(arrays.objects.table), arrays.objects.table;
              && back.value == values
              && t'.live == t.live
              && t'.free == Reverse(Handles(t, |values|)) + FreeAfter(t, |values|)
              && t'.top == TopAfter(t, |values|)
  {
    hide Table.Valid, Store.Valid, Represents, Allocator.Lawful, ArrayGlue.Passing, ArrayGlue.Readable, Reverse;
    ghost var t, handles := arrays.objects.table, Handles(arrays.objects.table, |values|);
    var ptr := arrays.PassArrayJsValueToWasm0(values);
    if ptr.None? {
      return None;
    }
    ShiftRightZeroInvertsSigned(ptr.value);
    PassedIsReadable(arrays, ptr.value, values, t, old(arrays.glue.Contents()), old(arrays.glue.blocks).Keys);
    var result := arrays.GetArrayJsValueFromWasm0(Signed(ptr.value), |values|, handles);
    ReadBack(t, values, result);
    return Some(result);
  }

  // ---------- A round trip with time in between ----------

  /** What wasm does meanwhile to a memory in which it keeps the block at `p`, and whether that detaches the buffer. */
  datatype Meanwhile = Meanwhile(store: (Store, nat, nat) -> Store, grew: (Store, nat, nat) -> bool) {
    ghost predicate Lawful() {
      forall s: Store, p: nat, n: nat :: s.Valid() && s.Owns(p, n) ==>
        var s' := store(s, p, n);
        && s'.Valid() && s'.Owns(p, n) && s'.Keeps(s, if n == 0 then {} else {p})
        && |s.memory| <= |s'.memory| && (!grew(s, p, n) ==> |s'.memory| == |s.memory|)
    }
  }

  /** The handles of `values` are live in `now`, for those values. */
  ghost predicate Holds(t: Table, values: seq<JsValue>, now: Table) {
    forall i :: 0 <= i < |values| ==> t.Handle(i) in now.live && now.live[t.Handle(i)] == values[i]
  }

  lemma RunKeepsHolding(t: Table, values: seq<JsValue>, ops: seq<Op>)
    requires t.Valid() && Legal(AddAll(t, values), ops)
    requires forall i :: 0 <= i < |values| ==> TakeOp(t.Handle(i)) !in ops
    ensures After(AddAll(t, values), ops).Valid() && Holds(t, values, After(AddAll(t, values), ops))
  {
    var passed := AddAll(t, values);
    AddAllKeepsTable(t, values);
    PassedObjectsAreRead(t, values);
    hide AddAll, Table.Valid;
    forall i | 0 <= i < |values|
      ensures t.Handle(i) in After(passed, ops).live && After(passed, ops).live[t.Handle(i)] == values[i]
    {
      HandleKeepsItsObject(passed, t.Handle(i), ops);
    }
    RunKeepsTable(passed, ops);
  }

  /** Held handles that are still in memory are what reading an array back asks for, and lead to the values. */
  lemma HeldIsReadable(t: Table, values: seq<JsValue>, now: Table, i: nat)
    requires t.Valid() && TopAfter(t, |values|) <= LIMIT && Holds(t, values, now) && i < |values|
    ensures var handles := Handles(t, |values|);
      var turn := DropAll(now, handles[..i]);
      handles[i] < LIMIT && turn.Droppable(handles[i]) && turn.Read(handles[i]) == values[i]
  {
    var handles := Handles(t, |values|);
    HandlesAreDistinct(t, |values|);
    HeldHandlesAreDroppable(now, handles, i);
    if i < |t.free| { assert t.free[i] in t.free; }
  }

  lemma ReadingFinds(t: Table, values: seq<JsValue>, now: Table, result: seq<JsValue>)
    requires t.Valid() && TopAfter(t, |values|) <= LIMIT && Holds(t, values, now) && |result| == |values|
    requires forall i :: 0 <= i < |values| ==> result[i] == DropAll(now, Handles(t, |values|)[..i]).Read(Handles(t, |values|)[i])
    ensures result == values
    ensures var handles := Handles(t, |values|); var t' := DropAll(now, handles);
      t'.live == now.live - Elements(handles) && t'.free == Reverse(handles) + now.free && t'.top == now.top
  {
    forall i | 0 <= i < |values|
      ensures result[i] == values[i]
    {
      HeldIsReadable(t, values, now, i);
    }
    HandlesAreDistinct(t, |values|);
    DropAllParts(now, Handles(t, |values|));
  }

  /** The block may move to a new buffer, but its bytes are the same. */
  method RunWasm(arrays: ArrayGlue, p: nat, n: nat, wasm: Meanwhile)
    requires arrays.Valid() && wasm.Lawful() && arrays.glue.Contents().Owns(p, n) && p + n <= |arrays.glue.buffer.bytes|
    modifies arrays.glue`buffer, arrays.glue`blocks, arrays.glue.buffer
    ensures arrays.Valid() && (arrays.glue.buffer == old(arrays.glue.buffer) || fresh(arrays.glue.buffer))
    ensures p + n <= |arrays.glue.buffer.bytes|
    ensures Slice(arrays.glue.buffer.bytes, p, n) == old(Slice(arrays.glue.buffer.bytes, p, n))
  {
    var glue := arrays.glue;
    var s := Store(glue.buffer.bytes, glue.blocks);
    assert s == glue.Contents();
    var s' := wasm.store(s, p, n);
    assert n > 0 ==> s'.blocks[p] == n && Slice(s'.memory, p, n) == Slice(s.memory, p, n);
    glue.Commit(s'.memory, wasm.grew(s, p, n), s'.blocks);
  }

  /**
    A round trip with time in between: the handle table goes through any legal run that takes none of the
    array's handles, wasm does anything that keeps the array's block, and still the same array is read
    back.  Exactly its handles are gone then.
   */
  method RoundTripLater(arrays: ArrayGlue, values: seq<JsValue>, ops: seq<Op>, wasm: Meanwhile)
    returns (back: Option<seq<JsValue>>)
    requires arrays.Valid() && wasm.Lawful() && TopAfter(arrays.objects.table, |values|) <= LIMIT
    requires Legal(AddAll(arrays.objects.table, values), ops)
    requires forall i :: 0 <= i < |values| ==> TakeOp(arrays.objects.table.Handle(i)) !in ops
    modifies arrays.objects, arrays.glue, arrays.glue.buffer
    ensures arrays.Valid()
    ensures back.Some? ==>
              var t := old(arrays.objects.table);
              var handles, now, t' := Handles(t, |values|), After(AddAll(t, values), ops), arrays.objects.table;
              && back.value == values
              && t'.live == now.live - Elements(handles)
              && t'.free == Reverse(handles) + now.free
              && t'.top == now.top
  {
    hide Table.Valid, Store.Valid, Represents, Allocator.Lawful, ArrayGlue.Passing, Meanwhile.Lawful, Reverse, Elements, DropAll, Holds;
    ghost var t, handles := arrays.objects.table, Handles(arrays.objects.table, |values|);
    ghost var now := After(AddAll(t, values), ops);
    var ptr := arrays.PassArrayJsValueToWasm0(values);
    if ptr.None? {
      return None;
    }
    var p := ptr.value;
    PassedParts(arrays, p, values, t, old(arrays.glue.Contents()), old(arrays.glue.blocks).Keys);
    RunKeepsHolding(t, values, ops);
    RunWasm(arrays, p, 4 * |values|, wasm);
    Replay(arrays.objects, ops);
    HeldIsReadableInOrder(t, values, now);
    ShiftRightZeroInvertsSigned(p);
    var result := arrays.GetArrayJsValueFromWasm0(Signed(p), |values|, handles);
    ReadingFinds(t, values, now, result);
    return Some(result);
  }

  lemma PassedParts(arrays: ArrayGlue, p: nat, values: seq<JsValue>, t: Table, before: Store, kept: set<nat>)
    requires arrays.Passing(p, 4 * |values|, |values|, values, t, before, kept)
    ensures arrays.objects.table == AddAll(t, values) && arrays.glue.Contents().Owns(p, 4 * |values|)
    ensures p + 4 * |values| <= |arrays.glue.buffer.bytes|
    ensures Slice(arrays.glue.buffer.bytes, p, 4 * |values|) == Words(Handles(t, |values|))
  {
    assert values[..|values|] == values;
  }

  lemma HeldIsReadableInOrder(t: Table, values: seq<JsValue>, now: Table)
    requires t.Valid() && TopAfter(t, |values|) <= LIMIT && Holds(t, values, now)
    ensures var handles := Handles(t, |values|);
      forall i :: 0 <= i < |values| ==> handles[i] < LIMIT && DropAll(now, handles[..i]).Droppable(handles[i])
  {
    forall i | 0 <= i < |values|
      ensures var handles := Handles(t, |values|); handles[i] < LIMIT && DropAll(now, handles[..i]).Droppable(handles[i])
    {
      HeldIsReadable(t, values, now, i);
    }
  }
}

/**
  Moving bytes, strings and arrays between JavaScript and wasm memory: the cached views, the passers and
  the readers of rust/assets/hep-viewer.js.
 */
module Marshal {
  import opened Wrappers
  import opened Utf
  import opened Wasm

  const MAX_SAFARI_DECODE_BYTES: nat := 2146435072

  function Sum(lengths: seq<nat>): nat {
    if lengths == [] then 0 else Sum(lengths[..|lengths| - 1]) + lengths[|lengths| - 1]
  }

  /** The module variables of the glue code, with the wasm instance they belong to. */
  class Glue {
    var buffer: ArrayBuffer                    // wasm.memory.buffer
    var blocks: map<nat, nat>                  // the allocator's books
    const allocator: Allocator
    const hasEncodeInto: bool                  // whether `TextEncoder.encodeInto` is native
    const reportsDetached: bool                // whether the platform has `ArrayBuffer.prototype.detached`
    // A view spans the whole of its buffer, so the buffer stands for it.
    var cachedDataViewMemory0: ArrayBuffer?
    var cachedUint8ArrayMemory0: ArrayBuffer?
    var wasmVectorLen: nat
    var numBytesDecoded: nat
    ghost var decoded: seq<nat>                // the lengths read by the current text decoder

    ghost function Contents(): Store
      reads this`buffer, this`blocks, buffer`bytes
    {
      Store(buffer.bytes, blocks)
    }

    /** A cached view is on the current buffer, or on one that was detached. */
    ghost predicate Valid()
      reads this, buffer, cachedDataViewMemory0, cachedUint8ArrayMemory0
    {
      && !buffer.detached
      && Contents().Valid()
      && allocator.Lawful()
      && numBytesDecoded == Sum(decoded)
      && (numBytesDecoded < MAX_SAFARI_DECODE_BYTES || |decoded| == 1)
      && (cachedDataViewMemory0 != null ==> cachedDataViewMemory0 == buffer || cachedDataViewMemory0.detached)
      && (cachedUint8ArrayMemory0 != null ==> cachedUint8ArrayMemory0 == buffer || cachedUint8ArrayMemory0.detached)
    }

    constructor (memory: seq<Byte>, allocator: Allocator, reportsDetached: bool, hasEncodeInto: bool)
      requires |memory| <= LIMIT && allocator.Lawful()
      ensures Valid() && Contents() == Store(memory, map[])
    {
      buffer := new ArrayBuffer(memory);
      blocks := map[];
      this.allocator := allocator;
      this.reportsDetached := reportsDetached;
      this.hasEncodeInto := hasEncodeInto;
      cachedDataViewMemory0 := null;
      cachedUint8ArrayMemory0 := null;
      wasmVectorLen := 0;
      numBytesDecoded := 0;
      decoded := [];
    }

    // ---------- Views ----------

    method GetUint8ArrayMemory0() returns (view: ArrayBuffer)
      requires Valid()
      modifies this`cachedUint8ArrayMemory0
      ensures Valid() && view == buffer
    {
      if cachedUint8ArrayMemory0 == null || cachedUint8ArrayMemory0.ByteLength() == 0 {
        cachedUint8ArrayMemory0 := buffer;
      }
      view := cachedUint8ArrayMemory0;
    }

    method GetDataViewMemory0() returns (view: ArrayBuffer)
      requires Valid()
      modifies this`cachedDataViewMemory0
      ensures Valid() && view == buffer
    {
      if cachedDataViewMemory0 == null
        || (reportsDetached && cachedDataViewMemory0.detached)
        || (!reportsDetached && cachedDataViewMemory0 != buffer)
      {
        cachedDataViewMemory0 := buffer;
      }
      view := cachedDataViewMemory0;
    }

    // ---------- Calls into wasm ----------

    /** What any wasm code may do to the memory; growing it, even by nothing, detaches the buffer. */
    method Commit(memory: seq<Byte>, grew: bool, blocks': map<nat, nat>)
      requires Valid() && Store(memory, blocks').Valid()
      modifies this`buffer, this`blocks, buffer
      ensures Valid() && Contents() == Store(memory, blocks')
      ensures if grew then fresh(buffer) && old(buffer).detached else buffer == old(buffer)
    {
      if grew {
        var grown := new ArrayBuffer(memory);
        buffer.detached := true;
        buffer := grown;
      } else {
        buffer.bytes := memory;
      }
      blocks := blocks';
    }

    method Malloc(n: nat) returns (raw: Option<int>)
      requires Valid()
      modifies this`buffer, this`blocks, buffer
      ensures Valid() && (buffer == old(buffer) || fresh(buffer))
      ensures raw.Some? ==>
                var p := ShiftRightZero(raw.value);
                && Contents().Owns(p, n)
                && blocks == (if n == 0 then old(blocks) else old(blocks)[p := n])
                && (n > 0 ==> p !in old(blocks))
                && Contents().Keeps(old(Contents()), old(blocks).Keys)
      ensures raw.None? ==> Contents() == old(Contents())
    {
      var reply := allocator.malloc(Store(buffer.bytes, blocks), n);
      match reply
      case Trap =>
        raw := None;
      case Granted(p, memory, grew) =>
        Commit(memory, grew, if n == 0 then blocks else blocks[ShiftRightZero(p) := n]);
        raw := Some(p);
    }

    method Realloc(p: nat, oldSize: nat, newSize: nat) returns (raw: Option<int>)
      requires Valid() && Contents().Owns(p, oldSize) && 0 < oldSize && 0 < newSize
      modifies this`buffer, this`blocks, buffer
      ensures Valid() && (buffer == old(buffer) || fresh(buffer))
      ensures raw.Some? ==>
                var q := ShiftRightZero(raw.value);
                && Contents().Owns(q, newSize)
                && q !in old(blocks) - {p}
                && blocks == (old(blocks) - {p})[q := newSize]
                && Contents().Keeps(old(Contents()), old(blocks).Keys - {p})
                && (var n := if oldSize < newSize then oldSize else newSize;
                    Slice(buffer.bytes, q, n) == Slice(old(buffer.bytes), p, n))
      ensures raw.None? ==> Contents() == old(Contents())
    {
      var reply := allocator.realloc(Store(buffer.bytes, blocks), p, oldSize, newSize);
      match reply
      case Trap =>
        raw := None;
      case Granted(q, memory, grew) =>
        Commit(memory, grew, (blocks - {p})[ShiftRightZero(q) := newSize]);
        raw := Some(q);
    }

    // ---------- Passing values in ----------

    method PassArray8ToWasm0(arg: seq<Byte>) returns (ptr: Option<nat>)
      requires Valid()
      modifies this, buffer
      ensures Valid() && (buffer == old(buffer) || fresh(buffer))
      ensures ptr.Some? ==>
                && ptr.value < LIMIT && Contents().Owns(ptr.value, |arg|) && wasmVectorLen == |arg|
                && Slice(buffer.bytes, ptr.value, |arg|) == arg
                && blocks == (if arg == [] then old(blocks) else old(blocks)[ptr.value := |arg|])
                && (arg != [] ==> ptr.value !in old(blocks))
                && Contents().Keeps(old(Contents()), old(blocks).Keys)
    {
      hide Splice, Slice, Store.Keeps, Allocator.Lawful;
      var raw := Malloc(|arg| * 1);
      if raw.None? {
        return None;
      }
      var p := ShiftRightZero(raw.value);
      var view := GetUint8ArrayMemory0();
      WriteKeepsOthers(old(Contents()), Contents(), old(blocks).Keys, p, |arg|, p, arg);
      view.Set(arg, p);
      wasmVectorLen := |arg|;
      return Some(p);
    }

    // ---------- Strings ----------

    /** Bytes written through a view right behind the `k` bytes already in the block. */
    method Append(view: ArrayBuffer, p: nat, n: nat, k: nat, data: seq<Byte>, ghost before: Store, ghost kept: set<nat>)
      requires Valid() && view == buffer && Contents().Owns(p, n) && k + |data| <= n
      requires (n > 0 ==> p !in kept) && Contents().Keeps(before, kept)
      modifies buffer`bytes
      ensures Valid() && Contents().Owns(p, n) && Contents().Keeps(before, kept)
      ensures Slice(buffer.bytes, p, k + |data|) == Slice(old(buffer.bytes), p, k) + data
    {
      WriteExtends(before, Contents(), kept, p, n, k, data);
      view.Set(data, p + k);
    }

    /** The fast path: one byte for each leading ASCII code unit, written straight into the block. */
    method WriteAsciiPrefix(arg: seq<CodeUnit>, p: nat, ghost before: Store, ghost kept: set<nat>) returns (offset: nat)
      requires Valid() && Contents().Owns(p, |arg|)
      requires (|arg| > 0 ==> p !in kept) && Contents().Keeps(before, kept)
      modifies this`cachedUint8ArrayMemory0, buffer`bytes
      ensures Valid() && blocks == old(blocks) && Contents().Owns(p, |arg|) && Contents().Keeps(before, kept)
      ensures offset <= |arg| && (forall i :: 0 <= i < offset ==> arg[i] <= 127) && (offset < |arg| ==> arg[offset] > 127)
      ensures Slice(buffer.bytes, p, offset) == arg[..offset]
    {
      var mem := GetUint8ArrayMemory0();
      offset := 0;
      while offset < |arg|
        invariant offset <= |arg| && (forall i :: 0 <= i < offset ==> arg[i] <= 127)
        invariant Valid() && mem == buffer && Contents().Owns(p, |arg|) && Contents().Keeps(before, kept)
        invariant Slice(buffer.bytes, p, offset) == arg[..offset]
      {
        var code := arg[offset];
        if code > 127 {
          break;
        }
        Append(mem, p, |arg|, offset, [code], before, kept);
        offset := offset + 1;
      }
    }

    /** `encodeInto`, or the replacement that encodes first and throws when the bytes do not fit. */
    method TextEncode(s: seq<CodeUnit>, room: nat) returns (result: Encoded)
      requires !hasEncodeInto ==> |Utf8(s)| <= room
      ensures result == if hasEncodeInto then EncodeInto(s, room) else Encoded(|s|, Utf8(s))
      ensures |result.written| <= room
      ensures 3 * |s| <= room ==> result == Encoded(|s|, Utf8(s))
    {
      if hasEncodeInto {
        result := EncodeInto(s, room);
        WrittenFits(s, room);
      } else {
        result := Encoded(|s|, Utf8(s));
      }
      if 3 * |s| <= room { EncodeIntoIsComplete(s, room); }
    }

    /** `realloc`, keeping the first `k` bytes of the block and all of every other block. */
    method Resize(p: nat, oldSize: nat, newSize: nat, ghost k: nat, ghost before: Store, ghost kept: set<nat>)
      returns (ptr: Option<nat>)
      requires Valid() && Contents().Owns(p, oldSize) && 0 < oldSize && 0 < newSize
      requires k <= oldSize && k <= newSize
      requires kept == blocks.Keys - {p} && Contents().Keeps(before, kept)
      modifies this`buffer, this`blocks, buffer
      ensures Valid() && (buffer == old(buffer) || fresh(buffer))
      ensures ptr.Some? ==>
                && Contents().Owns(ptr.value, newSize) && Slice(buffer.bytes, ptr.value, k) == Slice(old(buffer.bytes), p, k)
                && blocks.Keys == kept + {ptr.value} && ptr.value !in kept && Contents().Keeps(before, kept)
    {
      var raw := Realloc(p, oldSize, newSize);
      if raw.None? {
        return None;
      }
      ptr := Some(ShiftRightZero(raw.value));
      KeepsIsTransitive(before, old(Contents()), Contents(), kept);
      SlicePrefix(old(buffer.bytes), p, buffer.bytes, ptr.value, if oldSize < newSize then oldSize else newSize, k);
    }

    /** Encode behind the `k` bytes already in the block, into all the room that is left in it. */
    method EncodeBehind(rest: seq<CodeUnit>, p: nat, n: nat, k: nat, ghost before: Store, ghost kept: set<nat>)
      returns (written: nat)
      requires Valid() && Contents().Owns(p, n) && n == k + |rest| * 3
      requires (n > 0 ==> p !in kept) && Contents().Keeps(before, kept)
      modifies this`cachedUint8ArrayMemory0, buffer`bytes
      ensures Valid() && Contents().Owns(p, n) && Contents().Keeps(before, kept)
      ensures k + written <= n && (rest != [] ==> written > 0)
      ensures Slice(buffer.bytes, p, k + written) == Slice(old(buffer.bytes), p, k) + Utf8(rest)
    {
      var view := GetUint8ArrayMemory0();
      Utf8Length(rest);
      var ret := TextEncode(rest, |rest| * 3);
      Append(view, p, n, k, ret.written, before, kept);
      written := |ret.written|;
    }

    /** The slow path: make room for three bytes a code unit, encode the rest, and shrink the block. */
    method EncodeRest(arg: seq<CodeUnit>, p: nat, offset: nat, ghost before: Store, ghost kept: set<nat>)
      returns (ptr: Option<nat>, total: nat)
      requires Valid() && Contents().Owns(p, |arg|) && offset < |arg|
      requires (forall i :: 0 <= i < offset ==> arg[i] <= 127) && Slice(buffer.bytes, p, offset) == arg[..offset]
      requires kept == blocks.Keys - {p} && Contents().Keeps(before, kept)
      modifies this`buffer, this`blocks, this`cachedUint8ArrayMemory0, buffer
      ensures Valid() && (buffer == old(buffer) || fresh(buffer))
      ensures ptr.Some? ==>
                && Contents().Owns(ptr.value, total) && Slice(buffer.bytes, ptr.value, total) == Utf8(arg)
                && blocks.Keys == kept + {ptr.value} && ptr.value !in kept && Contents().Keeps(before, kept)
    {
      hide Store.Keeps, Allocator.Lawful, Splice;
      var rest := if offset != 0 then arg[offset..] else arg;
      AsciiPrefixSplits(arg, offset);
      total := offset;
      var len := offset + |rest| * 3;
      ptr := Resize(p, |arg|, len, offset, before, kept);
      if ptr.None? {
        return;
      }
      var written := EncodeBehind(rest, ptr.value, len, offset, before, kept);
      total := offset + written;
      ptr := Resize(ptr.value, len, total, total, before, kept);
    }

    /** A block of its own with the UTF-8 form of `arg`, and every older block untouched. */
    ghost predicate Delivered(before: Store, arg: seq<CodeUnit>, p: nat, n: nat)
      reads this`buffer, this`blocks, buffer`bytes
    {
      && p < LIMIT && Contents().Owns(p, n) && p + n <= |buffer.bytes| && Slice(buffer.bytes, p, n) == Utf8(arg)
      && blocks.Keys == before.blocks.Keys + (if arg == [] then {} else {p})
      && (arg != [] ==> p !in before.blocks)
      && Contents().Keeps(before, before.blocks.Keys)
    }

    method PassEncodedString(arg: seq<CodeUnit>) returns (ptr: Option<nat>)
      requires Valid()
      modifies this, buffer
      ensures Valid() && (buffer == old(buffer) || fresh(buffer))
      ensures ptr.Some? ==> Delivered(old(Contents()), arg, ptr.value, wasmVectorLen)
    {
      Utf8Length(arg);
      ptr := PassArray8ToWasm0(Utf8(arg));
    }

    method PassStringToWasm0(arg: seq<CodeUnit>, hasRealloc: bool) returns (ptr: Option<nat>)
      requires Valid()
      modifies this, buffer
      ensures Valid() && (buffer == old(buffer) || fresh(buffer))
      ensures ptr.Some? ==> Delivered(old(Contents()), arg, ptr.value, wasmVectorLen)
    {
      if !hasRealloc {
        ptr := PassEncodedString(arg);
        return;
      }
      var len := |arg|;
      var raw := Malloc(len);
      if raw.None? {
        return None;
      }
      var offset;
      ptr, offset := FillBlock(arg, ShiftRightZero(raw.value), old(Contents()));
      wasmVectorLen := offset;
    }

    /** Both phases of the encoder in a block of one byte for each code unit; `offset` is the final length. */
    method FillBlock(arg: seq<CodeUnit>, p: nat, ghost before: Store) returns (ptr: Option<nat>, offset: nat)
      requires Valid() && p < LIMIT && Contents().Owns(p, |arg|)
      requires Contents().Keeps(before, before.blocks.Keys) && (arg != [] ==> p !in before.blocks)
      requires blocks.Keys == before.blocks.Keys + (if arg == [] then {} else {p})
      modifies this`buffer, this`blocks, this`cachedUint8ArrayMemory0, buffer
      ensures Valid() && (buffer == old(buffer) || fresh(buffer))
      ensures ptr.Some? ==> Delivered(before, arg, ptr.value, offset)
    {
      hide Store.Keeps, Allocator.Lawful, Splice;
      ghost var kept := before.blocks.Keys;
      offset := WriteAsciiPrefix(arg, p, before, kept);
      if offset != |arg| {
        ptr, offset := EncodeRest(arg, p, offset, before, kept);
      } else {
        ptr := Some(p);
        AsciiOnly(arg);
        assert arg[..offset] == arg;
      }
    }

    /** What was delivered reads back as the original exactly when the original has no lone surrogate. */
    lemma DeliveredReadsBack(before: Store, arg: seq<CodeUnit>, p: nat, n: nat)
      requires Delivered(before, arg, p, n)
      ensures Utf.DecodeText(Slice(buffer.bytes, p, n), true) == Some(arg) <==> NoLoneSurrogate(arg)
    {
      TextRoundTrip(arg);
    }

    /** A decoder is replaced before it has read the most that Safari allows; `None` is the TypeError of a fatal decoder. */
    method DecodeText(p: nat, len: nat) returns (text: Option<seq<CodeUnit>>)
      requires Valid() && p + len <= |buffer.bytes|
      modifies this`numBytesDecoded, this`decoded, this`cachedUint8ArrayMemory0
      ensures Valid()
      ensures text == Utf.DecodeText(Slice(buffer.bytes, p, len), true)
      ensures decoded == old(decoded) + [len] || decoded == [len]
      ensures decoded == old(decoded) + [len] <== Sum(old(decoded)) + len < 2146435072
      ensures decoded == [len] <== Sum(old(decoded)) + len >= 2146435072
    {
      numBytesDecoded := numBytesDecoded + len;
      decoded := decoded + [len];
      assert decoded[..|decoded| - 1] == old(decoded);
      if numBytesDecoded >= MAX_SAFARI_DECODE_BYTES {
        decoded := [len];
        assert Sum([len]) == Sum([len][..0]) + len;
        numBytesDecoded := len;
      }
      var view := GetUint8ArrayMemory0();
      text := Utf.DecodeText(Slice(view.bytes, p, len), true);
    }

    method GetStringFromWasm0(ptr: int, len: nat) returns (text: Option<seq<CodeUnit>>)
      requires Valid() && ShiftRightZero(ptr) + len <= |buffer.bytes|
      modifies this`numBytesDecoded, this`decoded, this`cachedUint8ArrayMemory0
      ensures Valid()
      ensures text == Utf.DecodeText(Slice(buffer.bytes, ShiftRightZero(ptr), len), true)
    {
      text := DecodeText(ShiftRightZero(ptr), len);
    }

    /**
      There and back, by either path, the pointer arriving as wasm hands it out: the text that is read is the
      original exactly when that has no lone surrogate, and otherwise the one with replacement characters.
     */
    method StringRoundTrip(arg: seq<CodeUnit>, hasRealloc: bool) returns (back: Option<Option<seq<CodeUnit>>>)
      requires Valid()
      modifies this, buffer
      ensures Valid()
      ensures back.Some? ==>
                && back.value == Some(Utf16(Scalars(arg)))
                && (back.value == Some(arg) <==> NoLoneSurrogate(arg))
                && Contents().Keeps(old(Contents()), old(blocks).Keys)
    {
      var ptr := PassStringToWasm0(arg, hasRealloc);
      if ptr.None? {
        return None;
      }
      TextRoundTrip(arg);
      ShiftRightZeroInvertsSigned(ptr.value);
      var text := GetStringFromWasm0(Signed(ptr.value), wasmVectorLen);
      return Some(text);
    }
  }
}

/**
  The wasm side of rust/assets/hep-viewer.js as its JavaScript sees it: a linear memory whose buffer is
  detached whenever it grows, and an allocator that is free to do anything its contract allows.
 */
module Wasm {
  import opened Utf

  const LIMIT: int := 0x1_0000_0000

  // ---------- 32-bit pointers ----------

  /** How a wasm pointer arrives in JavaScript: as a signed 32-bit integer. */
  function Signed(p: int): int {
    if p < 0x8000_0000 then p else p - LIMIT
  }

  /** JavaScript's `x >>> 0`. */
  function ShiftRightZero(x: int): (u: nat)
    ensures u < LIMIT
  {
    x % LIMIT
  }

  lemma ShiftRightZeroInvertsSigned(p: nat)
    requires p < LIMIT
    ensures ShiftRightZero(Signed(p)) == p
  {
  }

  function Le32(v: int): (bytes: seq<Byte>)
    ensures |bytes| == 4
  {
    [v % 0x100, v / 0x100 % 0x100, v / 0x1_0000 % 0x100, v / 0x100_0000 % 0x100]
  }

  function FromLe32(b: seq<Byte>): nat
    requires |b| == 4
  {
    b[0] as int + 0x100 * b[1] as int + 0x1_0000 * b[2] as int + 0x100_0000 * b[3] as int
  }

  lemma FromLe32InvertsLe32(v: nat)
    requires v < LIMIT
    ensures FromLe32(Le32(v)) == v
  {
    assert v / 0x1_0000 == v / 0x100 / 0x100;
    assert v / 0x100_0000 == v / 0x1_0000 / 0x100;
  }

  /** Consecutive 32-bit words, as `setUint32` with the little-endian flag leaves them. */
  function Words(vs: seq<nat>): (bytes: seq<Byte>)
    ensures |bytes| == 4 * |vs|
  {
    if vs == [] then [] else Words(vs[..|vs| - 1]) + Le32(vs[|vs| - 1])
  }

  lemma {:induction false} WordAt(vs: seq<nat>, i: nat)
    requires i < |vs|
    ensures Words(vs)[4 * i..4 * i + 4] == Le32(vs[i])
  {
    var init := vs[..|vs| - 1];
    if i < |init| {
      WordAt(init, i);
      assert Words(vs)[4 * i..4 * i + 4] == Words(init)[4 * i..4 * i + 4];
    }
  }

  // ---------- Memory and its blocks ----------

  function Slice(m: seq<Byte>, at: nat, n: nat): seq<Byte>
    requires at + n <= |m|
  {
    m[at..at + n]
  }

  function Splice(m: seq<Byte>, at: nat, data: seq<Byte>): (m': seq<Byte>)
    requires at + |data| <= |m|
    ensures |m'| == |m|
  {
    m[..at] + data + m[at + |data|..]
  }

  predicate Disjoint(p: nat, n: nat, q: nat, k: nat) {
    p + n <= q || q + k <= p
  }

  /** Memory with the blocks that the allocator has handed out; a request for no bytes makes no block. */
  datatype Store = Store(memory: seq<Byte>, blocks: map<nat, nat>) {
    ghost predicate Valid() {
      && |memory| <= LIMIT
      && (forall p :: p in blocks ==> 0 < blocks[p] && p + blocks[p] <= |memory|)
      && (forall p, q {:trigger Disjoint(p, blocks[p], q, blocks[q])} ::
            p in blocks && q in blocks && p != q ==> Disjoint(p, blocks[p], q, blocks[q]))
    }

    /** `p` and `n` are what the allocator must be told to resize or free the block. */
    predicate Owns(p: nat, n: nat) {
      if n == 0 then p <= |memory| else p in blocks && blocks[p] == n
    }

    /** Every block of `kept` is still a block, of the same size and with the same bytes. */
    ghost predicate Keeps(before: Store, kept: set<nat>) {
      forall p :: p in kept ==>
        && p in before.blocks && p in blocks && blocks[p] == before.blocks[p]
        && p + blocks[p] <= |memory| && p + blocks[p] <= |before.memory|
        && Slice(memory, p, blocks[p]) == Slice(before.memory, p, blocks[p])
    }
  }

  lemma KeepsIsTransitive(a: Store, b: Store, c: Store, kept: set<nat>)
    requires b.Keeps(a, kept) && c.Keeps(b, kept)
    ensures c.Keeps(a, kept)
  {
  }

  /** Writing inside one's own block leaves every other block alone. */
  lemma WriteKeepsOthers(before: Store, s: Store, kept: set<nat>, p: nat, n: nat, at: nat, data: seq<Byte>)
    requires s.Valid() && s.Owns(p, n) && (n > 0 ==> p !in kept) && s.Keeps(before, kept)
    requires p <= at && at + |data| <= p + n
    ensures var s' := Store(Splice(s.memory, at, data), s.blocks);
      s'.Valid() && s'.Owns(p, n) && s'.Keeps(before, kept) && Slice(s'.memory, at, |data|) == data
  {
    var s' := Store(Splice(s.memory, at, data), s.blocks);
    forall q | q in kept
      ensures Slice(s'.memory, q, s.blocks[q]) == Slice(s.memory, q, s.blocks[q])
    {
      if n > 0 {
        assert Disjoint(p, n, q, s.blocks[q]);
      }
    }
  }

  /** A write right behind the first `k` bytes of a block extends them. */
  lemma WriteExtends(before: Store, s: Store, kept: set<nat>, p: nat, n: nat, k: nat, data: seq<Byte>)
    requires s.Valid() && s.Owns(p, n) && (n > 0 ==> p !in kept) && s.Keeps(before, kept)
    requires k + |data| <= n
    ensures var s' := Store(Splice(s.memory, p + k, data), s.blocks);
      && s'.Valid() && s'.Owns(p, n) && s'.Keeps(before, kept)
      && Slice(s'.memory, p, k + |data|) == Slice(s.memory, p, k) + data
  {
    WriteKeepsOthers(before, s, kept, p, n, p + k, data);
  }

  lemma SlicePrefix(m: seq<Byte>, p: nat, m': seq<Byte>, q: nat, n: nat, k: nat)
    requires k <= n && p + n <= |m| && q + n <= |m'| && Slice(m', q, n) == Slice(m, p, n)
    ensures Slice(m', q, k) == Slice(m, p, k)
  {
    assert Slice(m', q, k) == Slice(m', q, n)[..k] && Slice(m, p, k) == Slice(m, p, n)[..k];
  }

  // ---------- The allocator ----------

  /** The allocator aborts (a JavaScript exception), or returns a pointer having changed and perhaps grown the memory. */
  datatype Reply = Trap | Granted(raw: int, memory: seq<Byte>, grew: bool)

  ghost predicate GoodGrant(s: Store, blocks: map<nat, nat>, n: nat, r: Reply) {
    r.Granted? ==>
      var p := ShiftRightZero(r.raw);
      var s' := Store(r.memory, if n == 0 then blocks else blocks[p := n]);
      && r.raw == Signed(p)
      && |s.memory| <= |r.memory| && (!r.grew ==> |r.memory| == |s.memory|)
      && p + n <= |r.memory|
      && (n > 0 ==> p !in blocks)
      && s'.Valid()
      && s'.Keeps(s, blocks.Keys)
  }

  ghost predicate GoodRealloc(s: Store, p: nat, oldSize: nat, newSize: nat, r: Reply)
    requires s.Valid() && s.Owns(p, oldSize) && oldSize > 0
  {
    && GoodGrant(s, s.blocks - {p}, newSize, r)
    && (r.Granted? && ShiftRightZero(r.raw) + newSize <= |r.memory| ==>
          var n := if oldSize < newSize then oldSize else newSize;
          Slice(r.memory, ShiftRightZero(r.raw), n) == Slice(s.memory, p, n))
  }

  datatype Allocator = Allocator(malloc: (Store, nat) -> Reply, realloc: (Store, nat, nat, nat) -> Reply) {
    ghost predicate Lawful() {
      && (forall s: Store, n: nat :: s.Valid() ==> GoodGrant(s, s.blocks, n, malloc(s, n)))
      && (forall s: Store, p: nat, m: nat, n: nat ::
            s.Valid() && s.Owns(p, m) && 0 < m && 0 < n ==> GoodRealloc(s, p, m, n, realloc(s, p, m, n)))
    }
  }

  // ---------- Buffers ----------

  class ArrayBuffer {
    var bytes: seq<Byte>
    var detached: bool

    constructor (bytes: seq<Byte>)
      ensures this.bytes == bytes && !detached
    {
      this.bytes := bytes;
      detached := false;
    }

    /** A detached buffer reads as having no bytes. */
    function ByteLength(): nat
      reads this
    {
      if detached then 0 else |bytes|
    }

    method Set(data: seq<Byte>, at: nat)
      requires !detached && at + |data| <= |bytes|
      modifies this`bytes
      ensures bytes == Splice(old(bytes), at, data)
    {
      bytes := Splice(bytes, at, data);
    }

    method GetUint32(at: nat) returns (v: nat)
      requires !detached && at + 4 <= |bytes|
      ensures v == FromLe32(Slice(bytes, at, 4))
    {
      v := FromLe32(Slice(bytes, at, 4));
    }
  }

  // ---------- Spelled out ----------

  /** The least significant byte comes first. */
  lemma WordsAreLittleEndian(b: seq<Byte>)
    requires |b| == 4
    ensures Le32(b[0] as int + 256 * b[1] as int + 65536 * b[2] as int + 16777216 * b[3] as int) == b
  {
    var v := b[0] as int + 256 * (b[1] as int + 256 * (b[2] as int + 256 * b[3] as int));
    assert v / 0x100 == b[1] as int + 256 * (b[2] as int + 256 * b[3] as int);
    assert v / 0x1_0000 == v / 0x100 / 0x100 == b[2] as int + 256 * b[3] as int;
    assert v / 0x100_0000 == v / 0x1_0000 / 0x100 == b[3] as int;
  }

  /** A pointer arrives as the signed 32-bit number, and the shift makes the unsigned one, of the same remainder by 2^32. */
  lemma PointersAreSpelledOut(x: int, p: nat)
    requires p < 4294967296
    ensures -2147483648 <= Signed(p) < 2147483648 && (Signed(p) == p || Signed(p) == p - 4294967296)
    ensures ShiftRightZero(x) < 4294967296
    ensures ShiftRightZero(x) == p <==> (x - p) % 4294967296 == 0
  {
    assert x == x / 4294967296 * 4294967296 + x % 4294967296;
  }
}

/**
  The two Unicode encoding forms that meet in rust/assets/hep-viewer.js: JavaScript strings are sequences
  of UTF-16 code units, wasm memory holds UTF-8 (RFC 3629, sections 3 and 4).
 */
module Utf {
  import opened Wrappers

  type Byte = x: int | 0 <= x < 0x100
  type CodeUnit = x: int | 0 <= x < 0x1_0000
  type Scalar = x: int | 0 <= x < 0xD800 || 0xE000 <= x < 0x11_0000

  const REPLACEMENT: Scalar := 0xFFFD
  const BOM: CodeUnit := 0xFEFF

  predicate IsHigh(u: CodeUnit) { 0xD800 <= u < 0xDC00 }

  predicate IsLow(u: CodeUnit) { 0xDC00 <= u < 0xE000 }

  // ---------- UTF-16 ----------

  function PairValue(high: CodeUnit, low: CodeUnit): Scalar
    requires IsHigh(high) && IsLow(low)
  {
    0x1_0000 + (high - 0xD800) * 0x400 + (low - 0xDC00)
  }

  /** The scalar values of a string; a surrogate without its partner reads as U+FFFD. */
  function Scalars(s: seq<CodeUnit>): seq<Scalar> {
    if s == [] then []
    else if IsHigh(s[0]) && |s| > 1 && IsLow(s[1]) then [PairValue(s[0], s[1])] + Scalars(s[2..])
    else if IsHigh(s[0]) || IsLow(s[0]) then [REPLACEMENT] + Scalars(s[1..])
    else [s[0]] + Scalars(s[1..])
  }

  function UnitsOf(v: Scalar): seq<CodeUnit> {
    if v < 0x1_0000 then [v] else [0xD800 + (v - 0x1_0000) / 0x400, 0xDC00 + (v - 0x1_0000) % 0x400]
  }

  function Utf16(vs: seq<Scalar>): seq<CodeUnit> {
    if vs == [] then [] else UnitsOf(vs[0]) + Utf16(vs[1..])
  }

  /** Every surrogate has its partner next to it. */
  predicate NoLoneSurrogate(s: seq<CodeUnit>) {
    && (forall i :: 0 <= i < |s| && IsHigh(s[i]) ==> i + 1 < |s| && IsLow(s[i + 1]))
    && (forall i :: 0 <= i < |s| && IsLow(s[i]) ==> i > 0 && IsHigh(s[i - 1]))
  }

  /** A string is rebuilt from its scalar values exactly when it has no lone surrogate. */
  lemma {:induction false} Utf16InvertsScalars(s: seq<CodeUnit>)
    ensures Utf16(Scalars(s)) == s <==> NoLoneSurrogate(s)
    ensures |Utf16(Scalars(s))| == |s|
    decreases |s|
  {
    if s != [] {
      var n := if IsHigh(s[0]) && |s| > 1 && IsLow(s[1]) then 2 else 1;
      var v, rest := Scalars(s)[0], s[n..];
      Utf16InvertsScalars(rest);
      assert Scalars(s)[1..] == Scalars(rest);
      NoLoneSurrogateSplits(s, n);
      SameConcat(UnitsOf(v), Utf16(Scalars(rest)), s[..n], rest);
      assert s == s[..n] + rest;
      FirstUnits(s, n);
    }
  }

  lemma FirstUnits(s: seq<CodeUnit>, n: nat)
    requires s != []
    requires n == if IsHigh(s[0]) && |s| > 1 && IsLow(s[1]) then 2 else 1
    ensures var units := UnitsOf(Scalars(s)[0]);
      |units| == n && (units == s[..n] <==> n == 2 || !(IsHigh(s[0]) || IsLow(s[0])))
  {
  }

  lemma SameConcat(a: seq<CodeUnit>, b: seq<CodeUnit>, a': seq<CodeUnit>, b': seq<CodeUnit>)
    ensures |a| == |a'| ==> (a + b == a' + b' <==> a == a' && b == b')
  {
    if |a| == |a'| && a + b == a' + b' {
      assert a == (a + b)[..|a|] && b == (a + b)[|a|..];
    }
  }

  lemma NoLoneSurrogateSplits(s: seq<CodeUnit>, n: nat)
    requires s != []
    requires n == if IsHigh(s[0]) && |s| > 1 && IsLow(s[1]) then 2 else 1
    ensures NoLoneSurrogate(s) <==> (n == 2 || !(IsHigh(s[0]) || IsLow(s[0]))) && NoLoneSurrogate(s[n..])
  {
    var rest := s[n..];
    assert forall i :: 0 <= i < |rest| ==> rest[i] == s[n + i];
    if NoLoneSurrogate(rest) && (n == 2 || !(IsHigh(s[0]) || IsLow(s[0]))) {
      forall i | 0 <= i < |s| && IsHigh(s[i])
        ensures i + 1 < |s| && IsLow(s[i + 1])
      {
        if i >= n { assert IsHigh(rest[i - n]); }
      }
      forall i | 0 <= i < |s| && IsLow(s[i])
        ensures i > 0 && IsHigh(s[i - 1])
      {
        if i >= n { assert IsLow(rest[i - n]); }
      }
    }
    if NoLoneSurrogate(s) {
      forall i | 0 <= i < |rest| && IsLow(rest[i])
        ensures i > 0 && IsHigh(rest[i - 1])
      {
        assert IsLow(s[n + i]) && IsHigh(s[n + i - 1]);
      }
    }
  }

  // ---------- UTF-8 encoding ----------

  /** RFC 3629, section 3. */
  function EncodeScalar(v: Scalar): (bytes: seq<Byte>)
    ensures 1 <= |bytes| <= 4
  {
    if v < 0x80 then [v]
    else if v < 0x800 then [0xC0 + v / 0x40, 0x80 + v % 0x40]
    else if v < 0x1_0000 then [0xE0 + v / 0x1000, 0x80 + v / 0x40 % 0x40, 0x80 + v % 0x40]
    else [0xF0 + v / 0x4_0000, 0x80 + v / 0x1000 % 0x40, 0x80 + v / 0x40 % 0x40, 0x80 + v % 0x40]
  }

  function Encode(vs: seq<Scalar>): seq<Byte> {
    if vs == [] then [] else EncodeScalar(vs[0]) + Encode(vs[1..])
  }

  /** `TextEncoder.encode`. */
  function Utf8(s: seq<CodeUnit>): seq<Byte> {
    Encode(Scalars(s))
  }

  // ---------- UTF-8 decoding ----------

  predicate IsTail(b: Byte) { 0x80 <= b < 0xC0 }

  /** The payload bits of a byte behind its marker. */
  function Bits(b: int, marker: int): int { b - marker }

  /** The first character by the grammar of RFC 3629, section 4, and its length. */
  function DecodeFirst(b: seq<Byte>): Option<(Scalar, nat)> {
    if |b| >= 1 && b[0] < 0x80 then Some((b[0], 1))
    else if |b| >= 2 && 0xC2 <= b[0] < 0xE0 && IsTail(b[1]) then
      Some((Bits(b[0], 0xC0) * 0x40 + Bits(b[1], 0x80), 2))
    else if |b| >= 3 && 0xE0 <= b[0] < 0xF0 && IsTail(b[1]) && IsTail(b[2])
      && (b[0] == 0xE0 ==> 0xA0 <= b[1]) && (b[0] == 0xED ==> b[1] < 0xA0) then
      Some((Bits(b[0], 0xE0) * 0x1000 + Bits(b[1], 0x80) * 0x40 + Bits(b[2], 0x80), 3))
    else if |b| >= 4 && 0xF0 <= b[0] < 0xF5 && IsTail(b[1]) && IsTail(b[2]) && IsTail(b[3])
      && (b[0] == 0xF0 ==> 0x90 <= b[1]) && (b[0] == 0xF4 ==> b[1] < 0x90) then
      Some((Bits(b[0], 0xF0) * 0x4_0000 + Bits(b[1], 0x80) * 0x1000 + Bits(b[2], 0x80) * 0x40 + Bits(b[3], 0x80), 4))
    else None
  }

  /** Strict decoding: `None` is the TypeError of a decoder made with `fatal: true`. */
  function Decode(b: seq<Byte>): Option<seq<Scalar>>
    decreases |b|
  {
    if b == [] then Some([])
    else match DecodeFirst(b)
      case None => None
      case Some((v, n)) =>
        match Decode(b[n..])
        case None => None
        case Some(vs) => Some([v] + vs)
  }

  /** The groups of an encoded value put it together again. */
  lemma Regroup(v: nat)
    ensures v == v / 0x40 * 0x40 + v % 0x40
    ensures v / 0x40 == v / 0x1000 * 0x40 + v / 0x40 % 0x40
    ensures v / 0x1000 == v / 0x4_0000 * 0x40 + v / 0x1000 % 0x40
  {
    assert v / 0x1000 == v / 0x40 / 0x40;
    assert v / 0x4_0000 == v / 0x1000 / 0x40;
  }

  lemma DecodeFirstInvertsEncode(v: Scalar, rest: seq<Byte>)
    ensures DecodeFirst(EncodeScalar(v) + rest) == Some((v, |EncodeScalar(v)|))
  {
    Regroup(v);
    var b := EncodeScalar(v) + rest;
    if v >= 0x800 {
      if v < 0x1_0000 {
        DecodeThreeBytes(v, b);
      } else {
        DecodeFourBytes(v, b);
      }
    }
  }

  lemma DecodeThreeBytes(v: Scalar, b: seq<Byte>)
    requires 0x800 <= v < 0x1_0000 && EncodeScalar(v) <= b
    ensures DecodeFirst(b) == Some((v, 3))
  {
    Regroup(v);
    var w, x, y := v / 0x1000, v / 0x40 % 0x40, v % 0x40;
    assert b[0] == 0xE0 + w && b[1] == 0x80 + x && b[2] == 0x80 + y;
    assert v == w * 0x1000 + x * 0x40 + y;
  }

  lemma DecodeFourBytes(v: Scalar, b: seq<Byte>)
    requires 0x1_0000 <= v && EncodeScalar(v) <= b
    ensures DecodeFirst(b) == Some((v, 4))
  {
    Regroup(v);
    var w, x, y, z := v / 0x4_0000, v / 0x1000 % 0x40, v / 0x40 % 0x40, v % 0x40;
    assert b[0] == 0xF0 + w && b[1] == 0x80 + x && b[2] == 0x80 + y && b[3] == 0x80 + z;
    assert v == w * 0x4_0000 + x * 0x1000 + y * 0x40 + z;
  }

  /** Appending a six-bit group and taking it off again. */
  lemma SixBits(high: nat, low: nat)
    requires low < 0x40
    ensures var v := high * 0x40 + low; v / 0x40 == high && v % 0x40 == low
  {
  }

  lemma ThreeGroups(w: nat, x: nat, y: nat)
    requires x < 0x40 && y < 0x40
    ensures var v := w * 0x1000 + x * 0x40 + y;
      v / 0x1000 == w && v / 0x40 == w * 0x40 + x && v / 0x40 % 0x40 == x && v % 0x40 == y
  {
    SixBits(w, x);
    SixBits(w * 0x40 + x, y);
  }

  lemma FourGroups(w: nat, x: nat, y: nat, z: nat)
    requires x < 0x40 && y < 0x40 && z < 0x40
    ensures var v := w * 0x4_0000 + x * 0x1000 + y * 0x40 + z;
      v / 0x4_0000 == w && v / 0x1000 % 0x40 == x && v / 0x40 % 0x40 == y && v % 0x40 == z
  {
    ThreeGroups(w * 0x40 + x, y, z);
    SixBits(w, x);
  }

  lemma EncodeInvertsDecodeFirst(b: seq<Byte>)
    requires DecodeFirst(b).Some?
    ensures var (v, n) := DecodeFirst(b).value;
      n <= |b| && b[..n] == EncodeScalar(v)
  {
    var (v, n) := DecodeFirst(b).value;
    if n == 2 {
      SixBits(Bits(b[0], 0xC0), Bits(b[1], 0x80));
    } else if n == 3 {
      ThreeGroups(Bits(b[0], 0xE0), Bits(b[1], 0x80), Bits(b[2], 0x80));
    } else if n == 4 {
      FourGroups(Bits(b[0], 0xF0), Bits(b[1], 0x80), Bits(b[2], 0x80), Bits(b[3], 0x80));
    }
  }

  /** The strict decoder accepts exactly what the encoder produces, and gives back what was encoded. */
  lemma {:induction false} DecodeInvertsEncode(b: seq<Byte>, vs: seq<Scalar>)
    ensures Decode(b) == Some(vs) <==> b == Encode(vs)
    decreases |b| + |vs|
  {
    if vs != [] && b == Encode(vs) {
      DecodeFirstInvertsEncode(vs[0], Encode(vs[1..]));
      assert b[|EncodeScalar(vs[0])|..] == Encode(vs[1..]);
      DecodeInvertsEncode(Encode(vs[1..]), vs[1..]);
      assert vs == [vs[0]] + vs[1..];
    }
    if b != [] && Decode(b) == Some(vs) {
      EncodeInvertsDecodeFirst(b);
      var (v, n) := DecodeFirst(b).value;
      DecodeInvertsEncode(b[n..], vs[1..]);
      assert b == b[..n] + b[n..];
    }
  }

  // ---------- Reading text back ----------

  /** `TextDecoder.decode` of a fatal decoder, with or without the `ignoreBOM` option. */
  function DecodeText(b: seq<Byte>, ignoreBom: bool): Option<seq<CodeUnit>> {
    var body := if !ignoreBom && [0xEF, 0xBB, 0xBF] <= b then b[3..] else b;
    match Decode(body)
    case None => None
    case Some(vs) => Some(Utf16(vs))
  }

  /** Text that went through UTF-8 comes back unchanged exactly when it has no lone surrogate. */
  lemma TextRoundTrip(s: seq<CodeUnit>)
    ensures DecodeText(Utf8(s), true) == Some(Utf16(Scalars(s)))
    ensures DecodeText(Utf8(s), true) == Some(s) <==> NoLoneSurrogate(s)
  {
    DecodeInvertsEncode(Utf8(s), Scalars(s));
    Utf16InvertsScalars(s);
  }

  lemma {:induction false} EncodedBomIsFirst(s: seq<CodeUnit>)
    ensures [0xEF, 0xBB, 0xBF] <= Utf8(s) <==> s != [] && s[0] == BOM
  {
    if s != [] {
      var v, rest := Scalars(s)[0], Scalars(s)[1..];
      DecodeFirstInvertsEncode(v, Encode(rest));
      assert EncodeScalar(BOM) == [0xEF, 0xBB, 0xBF];
      if [0xEF, 0xBB, 0xBF] <= Utf8(s) {
        assert Utf8(s) == EncodeScalar(BOM) + Utf8(s)[3..];
        DecodeFirstInvertsEncode(BOM, Utf8(s)[3..]);
      }
    }
  }

  /** A decoder that consumed byte order marks would lose the first character of such strings. */
  lemma BomHandlingMatters(s: seq<CodeUnit>)
    ensures DecodeText(Utf8(s), false) == Some(s) <==> NoLoneSurrogate(s) && (s == [] || s[0] != BOM)
  {
    EncodedBomIsFirst(s);
    TextRoundTrip(s);
    if s != [] && s[0] == BOM {
      assert Scalars(s) == [BOM] + Scalars(s[1..]);
      assert EncodeScalar(BOM) == [0xEF, 0xBB, 0xBF];
      assert Utf8(s)[3..] == Utf8(s[1..]);
      DecodeInvertsEncode(Utf8(s[1..]), Scalars(s[1..]));
      Utf16InvertsScalars(s[1..]);
    }
  }

  // ---------- Encoding into a bounded view ----------

  /** What `TextEncoder.encodeInto` reports and writes: it stops before a character that does not fit. */
  datatype Encoded = Encoded(read: nat, written: seq<Byte>)

  function EncodeInto(s: seq<CodeUnit>, room: nat): Encoded
    decreases |s|
  {
    if s == [] then Encoded(0, [])
    else
      var n := if IsHigh(s[0]) && |s| > 1 && IsLow(s[1]) then 2 else 1;
      var bytes := EncodeScalar(Scalars(s)[0]);
      if |bytes| > room then Encoded(0, [])
      else
        var more := EncodeInto(s[n..], room - |bytes|);
        Encoded(n + more.read, bytes + more.written)
  }

  lemma {:induction false} WrittenFits(s: seq<CodeUnit>, room: nat)
    ensures |EncodeInto(s, room).written| <= room
    decreases |s|
  {
    if s != [] {
      assert Scalars(s) != [];
      hide EncodeScalar, Scalars;
      var n := if IsHigh(s[0]) && |s| > 1 && IsLow(s[1]) then 2 else 1;
      var bytes := EncodeScalar(Scalars(s)[0]);
      if |bytes| <= room { WrittenFits(s[n..], room - |bytes|); }
    }
  }

  /** Three bytes for each code unit are always enough, so `encodeInto` never stops early. */
  lemma {:induction false} EncodeIntoIsComplete(s: seq<CodeUnit>, room: nat)
    requires 3 * |s| <= room
    ensures EncodeInto(s, room) == Encoded(|s|, Utf8(s))
    ensures |Utf8(s)| <= 3 * |s| && (s != [] ==> Utf8(s) != [])
    decreases |s|
  {
    if s != [] {
      var n := if IsHigh(s[0]) && |s| > 1 && IsLow(s[1]) then 2 else 1;
      FirstCharacter(s, n);
      hide EncodeScalar, Scalars;
      EncodeIntoIsComplete(s[n..], room - |EncodeScalar(Scalars(s)[0])|);
    }
  }

  lemma FirstCharacter(s: seq<CodeUnit>, n: nat)
    requires s != []
    requires n == if IsHigh(s[0]) && |s| > 1 && IsLow(s[1]) then 2 else 1
    ensures Scalars(s) != [] && 0 < |EncodeScalar(Scalars(s)[0])| <= 3 * n
    ensures Utf8(s) == EncodeScalar(Scalars(s)[0]) + Utf8(s[n..])
  {
    assert Scalars(s) == [Scalars(s)[0]] + Scalars(s[n..]);
  }

  lemma Utf8Length(s: seq<CodeUnit>)
    ensures |Utf8(s)| <= 3 * |s| && (s != [] ==> |Utf8(s)| > 0)
  {
    EncodeIntoIsComplete(s, 3 * |s|);
  }

  /** With any less room some string of that many code units is cut short. */
  lemma {:induction false} ThreeBytesAreNeeded(n: nat, room: nat)
    requires room < 3 * n
    ensures EncodeInto(Euros(n), room).read < n
    decreases n
  {
    assert |EncodeScalar(0x20AC)| == 3 && Euros(n)[1..] == Euros(n - 1);
    assert Scalars(Euros(n))[0] == 0x20AC;
    if room >= 3 {
      ThreeBytesAreNeeded(n - 1, room - 3);
    }
  }

  function Euros(n: nat): seq<CodeUnit> {
    seq(n, (_: nat) => 0x20AC)
  }

  lemma AsciiHead(s: seq<CodeUnit>)
    requires s != [] && s[0] <= 127
    ensures Utf8(s) == [s[0]] + Utf8(s[1..])
  {
    assert Scalars(s) == [s[0]] + Scalars(s[1..]);
    assert EncodeScalar(s[0]) == [s[0]];
  }

  /** Splitting behind a prefix of ASCII code units never cuts a surrogate pair. */
  lemma {:induction false} AsciiPrefixSplits(s: seq<CodeUnit>, k: nat)
    requires k <= |s| && forall i :: 0 <= i < k ==> s[i] <= 127
    ensures Utf8(s) == s[..k] + Utf8(s[k..])
    decreases k
  {
    if k == 0 {
      assert s[..0] + Utf8(s[0..]) == Utf8(s) by { assert s[0..] == s; }
    } else {
      var tail := s[k - 1..];
      AsciiPrefixSplits(s, k - 1);
      AsciiHead(tail);
      assert tail[1..] == s[k..] && s[..k] == s[..k - 1] + [tail[0]];
    }
  }

  lemma AsciiOnly(s: seq<CodeUnit>)
    requires forall i :: 0 <= i < |s| ==> s[i] <= 127
    ensures Utf8(s) == s
  {
    AsciiPrefixSplits(s, |s|);
    assert s[..|s|] == s && s[|s|..] == [];
  }

  // ---------- Spelled out ----------

  predicate Continues(b: int) {
    0x80 <= b <= 0xBF
  }

  predicate TwoBytes(v: int, a: int, b: int) {
    0xC2 <= a <= 0xDF && Continues(b) && v == (a - 0xC0) * 64 + (b - 0x80)
  }

  predicate ThreeBytes(v: int, a: int, b: int, c: int) {
    0xE0 <= a <= 0xEF && Continues(b) && Continues(c) && v == (a - 0xE0) * 4096 + (b - 0x80) * 64 + (c - 0x80)
  }

  predicate FourBytes(v: int, a: int, b: int, c: int, d: int) {
    && 0xF0 <= a <= 0xF4 && Continues(b) && Continues(c) && Continues(d)
    && v == (a - 0xF0) * 262144 + (b - 0x80) * 4096 + (c - 0x80) * 64 + (d - 0x80)
  }

  /** The table in section 3 of RFC 3629: how many bytes, in which ranges, and that their payloads make up the value. */
  lemma EncodingIsSpelledOut(v: Scalar)
    ensures var b := EncodeScalar(v);
      if v <= 0x7F then b == [v]
      else if v <= 0x7FF then |b| == 2 && TwoBytes(v, b[0], b[1])
      else if v <= 0xFFFF then |b| == 3 && ThreeBytes(v, b[0], b[1], b[2])
      else |b| == 4 && FourBytes(v, b[0], b[1], b[2], b[3])
  {
    Regroup(v);
  }

  predicate PairOf(v: int, high: int, low: int) {
    v >= 0x1_0000 && high == 0xD7C0 + v / 0x400 && low == 0xDC00 + v % 0x400
  }

  /** A pair stands for one value, a lone surrogate for U+FFFD, and every other code unit for itself. */
  lemma ScalarsAreSpelledOut(s: seq<CodeUnit>)
    requires s != []
    ensures Scalars(s) != []
    ensures var v := Scalars(s)[0];
      if 0xD800 <= s[0] <= 0xDBFF && |s| > 1 && 0xDC00 <= s[1] <= 0xDFFF then
        PairOf(v, s[0], s[1]) && Scalars(s)[1..] == Scalars(s[2..])
      else
        v == (if 0xD800 <= s[0] <= 0xDFFF then 0xFFFD else s[0]) && Scalars(s)[1..] == Scalars(s[1..])
  {
    if IsHigh(s[0]) && |s| > 1 && IsLow(s[1]) {
      PairIsSpelledOut(s[0], s[1]);
    }
  }

  lemma PairIsSpelledOut(high: CodeUnit, low: CodeUnit)
    requires IsHigh(high) && IsLow(low)
    ensures PairOf(PairValue(high, low), high, low)
  {
    var v: int := PairValue(high, low);
    assert v == (high as int - 0xD7C0) * 0x400 + (low as int - 0xDC00);
  }

  /** Text is read exactly from the encodings of scalar values, and as those values. */
  lemma DecodesExactlyWhen(b: seq<Byte>, text: seq<CodeUnit>)
    ensures DecodeText(b, true) == Some(text) <==> exists vs :: b == Encode(vs) && text == Utf16(vs)
  {
    if DecodeText(b, true) == Some(text) {
      DecodeInvertsEncode(b, Decode(b).value);
    }
    if vs :| b == Encode(vs) && text == Utf16(vs) {
      DecodeInvertsEncode(b, vs);
    }
  }

  /** What was written is the encoding of what was read, it fits, and only a character that does not fit is left. */
  predicate StopsForRoomOnly(s: seq<CodeUnit>, room: nat, r: Encoded) {
    && r.read <= |s| && |r.written| <= room && Utf8(s) == r.written + Utf8(s[r.read..])
    && (r.read < |s| ==> |r.written| + FirstLength(s[r.read..]) > room)
  }

  /** How many bytes the first character takes. */
  function FirstLength(s: seq<CodeUnit>): nat
    requires s != []
  {
    FirstCharacter(s, if IsHigh(s[0]) && |s| > 1 && IsLow(s[1]) then 2 else 1);
    |EncodeScalar(Scalars(s)[0])|
  }

  lemma EncodeIntoStep(s: seq<CodeUnit>, room: nat) returns (n: nat, bytes: seq<Byte>)
    requires s != []
    ensures 0 < n <= |s| && |bytes| == FirstLength(s) && Utf8(s) == bytes + Utf8(s[n..])
    ensures EncodeInto(s, room) == if |bytes| > room then Encoded(0, [])
                                   else var more := EncodeInto(s[n..], room - |bytes|);
                                        Encoded(n + more.read, bytes + more.written)
  {
    n := if IsHigh(s[0]) && |s| > 1 && IsLow(s[1]) then 2 else 1;
    FirstCharacter(s, n);
    bytes := EncodeScalar(Scalars(s)[0]);
    hide EncodeScalar;
  }

  lemma OneMoreCharacter(s: seq<CodeUnit>, room: nat, n: nat, bytes: seq<Byte>, more: Encoded)
    requires n <= |s| && |bytes| <= room && Utf8(s) == bytes + Utf8(s[n..])
    requires StopsForRoomOnly(s[n..], room - |bytes|, more)
    ensures StopsForRoomOnly(s, room, Encoded(n + more.read, bytes + more.written))
  {
    hide Utf8, FirstLength;
    assert s[n..][more.read..] == s[n + more.read..];
  }

  /** Whatever the room, `encodeInto` stops early for want of it and for nothing else, and never inside a character. */
  lemma {:induction false} EncodeIntoStopsForRoomOnly(s: seq<CodeUnit>, room: nat)
    ensures StopsForRoomOnly(s, room, EncodeInto(s, room))
    decreases |s|
  {
    if s == [] {
      NothingWritten(s, room);
    } else {
      var n, bytes := EncodeIntoStep(s, room);
      hide EncodeInto, EncodeScalar, Scalars, Utf8, StopsForRoomOnly, FirstLength;
      if |bytes| <= room {
        EncodeIntoStopsForRoomOnly(s[n..], room - |bytes|);
        OneMoreCharacter(s, room, n, bytes, EncodeInto(s[n..], room - |bytes|));
      } else {
        NothingWritten(s, room);
      }
    }
  }

  lemma NothingWritten(s: seq<CodeUnit>, room: nat)
    requires s != [] ==> FirstLength(s) > room
    ensures StopsForRoomOnly(s, room, Encoded(0, []))
  {
    assert s[0..] == s;
  }
}

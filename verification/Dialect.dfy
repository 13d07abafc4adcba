/**
  Quote doubling in `sql_st_transform` of rust/src/dialect.rs, matched with the scanner that later reads
  text of that shape.
 */
module Dialect {
  import opened Scanner

  /** Rust's `replace('\'', "''")`. */
  function Double(s: string): string {
    if s == "" then "" else (if s[0] == '\'' then "''" else [s[0]]) + Double(s[1..])
  }

  /** What a reader of the literal makes of its inside: two quotes in a row stand for one. */
  function Undouble(s: string): string {
    if s == "" then ""
    else if |s| >= 2 && s[0] == '\'' && s[1] == '\'' then "'" + Undouble(s[2..])
    else [s[0]] + Undouble(s[1..])
  }

  function Quoted(s: string): string {
    "'" + Double(s) + "'"
  }

  const HEAD := "ST_Transform("
  const SEPARATOR := ", "
  const TAIL := ", always_xy := true)"

  function StTransform(column: string, source: string, target: string): string {
    HEAD + column + SEPARATOR + Quoted(source) + SEPARATOR + Quoted(target) + TAIL
  }

  /** The expression spelled out. */
  lemma TransformIsSpelledOut(column: string, a: string, b: string)
    ensures StTransform(column, a, b)
         == "ST_Transform(" + (column + (", '" + (Double(a) + ("', '" + (Double(b) + "', always_xy := true)")))))
  {
    Flatten(HEAD, column, SEPARATOR, Double(a), Double(b), TAIL);
    assert SEPARATOR + "'" == ", '" && "'" + SEPARATOR + "'" == "', '" && "'" + TAIL == "', always_xy := true)";
  }

  lemma Flatten(head: string, column: string, s: string, a: string, b: string, tail: string)
    ensures head + column + s + ("'" + a + "'") + s + ("'" + b + "'") + tail
         == head + (column + ((s + "'") + (a + (("'" + s + "'") + (b + ("'" + tail))))))
  {
    assert column + s + ("'" + a + "'") == column + ((s + "'") + (a + "'"));
    assert s + ("'" + b + "'") + tail == (s + "'") + (b + ("'" + tail));
  }

  // ---------- Doubling and reading back ----------

  lemma {:induction false} UndoubleInvertsDouble(s: string)
    ensures Undouble(Double(s)) == s
  {
    if s != "" {
      var rest := Double(s[1..]);
      UndoubleInvertsDouble(s[1..]);
      if s[0] == '\'' {
        assert Double(s)[2..] == rest;
        assert s == "'" + s[1..];
      } else {
        assert Double(s)[1..] == rest;
        assert s == [s[0]] + s[1..];
      }
    }
  }

  /** The scanner's quote loop, entered behind the opening quote, stops exactly behind the closing one. */
  lemma {:induction false} ScanLeavesAtRest(before: string, s: string, rest: string)
    requires rest == "" || rest[0] != '\''
    ensures AfterQuoted(before + Double(s) + "'" + rest, |before|, '\'') == |before| + |Double(s)| + 1
    decreases |s|
  {
    var q := before + Double(s) + "'" + rest;
    if s != "" {
      var first := Double(s)[..|Double(s)| - |Double(s[1..])|];
      assert Double(s) == first + Double(s[1..]);
      assert q == (before + first) + Double(s[1..]) + "'" + rest;
      ScanLeavesAtRest(before + first, s[1..], rest);
      assert first == if s[0] == '\'' then "''" else [s[0]];
      assert q[|before|] == first[0];
    } else {
      assert q[|before|] == '\'';
    }
  }

  /** If the text that follows does start with a quote, the loop runs past the literal's end. */
  lemma {:induction false} ScanRunsOnAtQuote(before: string, s: string, rest: string)
    requires rest != "" && rest[0] == '\''
    ensures AfterQuoted(before + Double(s) + "'" + rest, |before|, '\'') > |before| + |Double(s)| + 1
    decreases |s|
  {
    var q := before + Double(s) + "'" + rest;
    if s != "" {
      var first := Double(s)[..|Double(s)| - |Double(s[1..])|];
      assert Double(s) == first + Double(s[1..]);
      assert q == (before + first) + Double(s[1..]) + "'" + rest;
      ScanRunsOnAtQuote(before + first, s[1..], rest);
      assert first == if s[0] == '\'' then "''" else [s[0]];
      assert q[|before|] == first[0];
    } else {
      assert q[|before|] == '\'' && q[|before| + 1] == '\'';
    }
  }

  /** Inside doubled text the automaton is quoted, except on the second quote of a pair. */
  lemma {:induction false} DoubledStaysQuoted(s: string)
    ensures ModeAfter(Single, Double(s), |Double(s)|) == Single
    ensures forall k :: 0 <= k < |Double(s)| ==>
              ModeAfter(Single, Double(s), k) == Single
              || (ModeAfter(Single, Double(s), k) == Top && Double(s)[k] == '\'')
  {
    if s != "" {
      var first := if s[0] == '\'' then "''" else [s[0]];
      var rest := Double(s[1..]);
      DoubledStaysQuoted(s[1..]);
      assert Double(s) == first + rest;
      assert ModeAfter(Single, first, |first|) == Single by {
        if s[0] == '\'' { assert ModeAfter(Single, first, 1) == Top; } else { assert ModeAfter(Single, first, 0) == Single; }
      }
      ModeAfterConcat(Single, first, rest, |rest|);
      forall k | 0 <= k < |Double(s)| && ModeAfter(Single, Double(s), k) != Single
        ensures ModeAfter(Single, Double(s), k) == Top && Double(s)[k] == '\''
      {
        if k < |first| {
          ModeAfterPrefix(Single, first, rest, k);
        } else {
          ModeAfterConcat(Single, first, rest, k - |first|);
        }
      }
    }
  }

  // ---------- The transform expression under the scanner ----------

  predicate EndsAtTop(column: string) {
    ModeAt(column, |column|).TopLevel()
  }

  lemma QuoteSwitches(before: string)
    ensures EndsAtTop(before) ==> ModeAt(before + "'", |before + "'"|) == Single
    ensures ModeAt(before, |before|) == Single ==> ModeAt(before + "'", |before + "'"|) == Top
  {
    ModeAfterConcat(Top, before, "'", 1);
    assert ModeAfter(ModeAt(before, |before|), "'", 0) == ModeAt(before, |before|);
  }

  /** The opening quote starts quoted text, and behind the closing one the automaton is at top level again. */
  lemma LiteralEndsAtTop(before: string, s: string)
    requires EndsAtTop(before)
    ensures ModeAt(before + "'", |before + "'"|) == Single
    ensures ModeAt(before + Quoted(s), |before + Quoted(s)|) == Top
  {
    hide ModeAfter, Step;
    var lead := before + "'";
    QuoteSwitches(before);
    DoubledStaysQuoted(s);
    ModeAfterConcat(Top, lead, Double(s), |Double(s)|);
    QuoteSwitches(lead + Double(s));
    assert before + Quoted(s) == lead + Double(s) + "'";
  }

  /** A literal that starts at top level hides all its text and ends at top level. */
  lemma QuotedHidesText(before: string, s: string, rest: string)
    requires EndsAtTop(before)
    ensures ModeAt(before + Quoted(s), |before + Quoted(s)|) == Top
    ensures forall p :: |before| <= p < |before + Quoted(s)| ==> !Hit(before + Quoted(s) + rest, p)
  {
    LiteralEndsAtTop(before, s);
    var q := before + Quoted(s) + rest;
    forall p | |before| <= p < |before + Quoted(s)|
      ensures !Hit(q, p)
    {
      if p == |before| || p == |before + Quoted(s)| - 1 {
        assert q[p] == '\'';
        NoHitWithoutV(q, p);
      } else {
        InsideIsHidden(before, s, rest, p - |before| - 1);
      }
    }
  }

  lemma InsideIsHidden(before: string, s: string, rest: string, k: nat)
    requires EndsAtTop(before) && k < |Double(s)|
    ensures !Hit(before + Quoted(s) + rest, |before| + 1 + k)
  {
    hide ModeAfter, Hit;
    LiteralEndsAtTop(before, s);
    DoubledStaysQuoted(s);
    QuotedIsNoHit(before + "'", Double(s), "'" + rest, k);
    assert before + Quoted(s) + rest == before + "'" + Double(s) + ("'" + rest);
  }

  lemma QuotedIsNoHit(lead: string, inside: string, rest: string, k: nat)
    requires ModeAt(lead, |lead|) == Single && k < |inside|
    requires ModeAfter(Single, inside, k) == Single || inside[k] == '\''
    ensures !Hit(lead + inside + rest, |lead| + k)
  {
    hide ModeAfter, Step, KeywordAt;
    var q, p := lead + inside + rest, |lead| + k;
    ModeAfterConcat(Top, lead, inside, k);
    ModeAfterPrefix(Top, lead + inside, rest, p);
    assert q[p] == inside[k];
    if ModeAt(q, p).TopLevel() {
      NoHitWithoutV(q, p);
    }
  }

  lemma NoHitWithoutV(q: string, p: nat)
    requires p < |q| && ToLower(q[p]) != 'v'
    ensures !Hit(q, p)
  {
    if KeywordAt(q, p) { KeywordLetters(q, p); }
  }

  /** A column sits in the expression as it would stand alone. */
  lemma HitsInColumn(column: string, rest: string, p: nat)
    requires p < |column|
    requires rest != "" && !IsIdentChar(rest[0])
    ensures Hit(HEAD + column + rest, |HEAD| + p) <==> Hit(column, p)
  {
    PlainText(HEAD, |HEAD|);
    assert HEAD + column + rest == HEAD + (column + rest);
    HitSurvivesPrepending(HEAD, column + rest, p);
    HitSurvivesAppending(column, rest, p);
    if KeywordAt(column + rest, p) {
      KeywordLetters(column + rest, p);
      assert (column + rest)[|column|] == rest[0];
    }
  }

  /** Text without quotes, dashes, slashes and stars keeps the automaton at top level. */
  lemma {:induction false} PlainText(s: string, k: nat)
    requires k <= |s|
    requires forall i :: 0 <= i < k ==> s[i] !in "-/*'\""
    ensures ModeAt(s, k) == Top
    decreases k
  {
    if k != 0 {
      PlainText(s, k - 1);
    }
  }

  /** The expression behind its column. */
  function Arguments(source: string, target: string): string {
    SEPARATOR + Quoted(source) + SEPARATOR + Quoted(target) + TAIL
  }

  lemma SegmentWithoutV(before: string, segment: string, rest: string, p: nat)
    requires forall c :: c in segment ==> ToLower(c) != 'v'
    requires |before| <= p < |before| + |segment|
    ensures !Hit(before + segment + rest, p)
  {
    var q := before + segment + rest;
    assert q[p] == segment[p - |before|];
    NoHitWithoutV(q, p);
  }

  lemma SeparatorIsPlain()
    ensures forall c :: c in SEPARATOR ==> ToLower(c) != 'v'
    ensures forall c :: c in TAIL ==> ToLower(c) != 'v'
  {
  }

  /** A separator and a literal behind a text that ends at top level: no keyword, and top level again. */
  lemma ArgumentHidesText(before: string, s: string, rest: string, p: nat)
    requires EndsAtTop(before)
    ensures EndsAtTop(before + (SEPARATOR + Quoted(s)))
    ensures |before| <= p < |before| + |SEPARATOR + Quoted(s)| ==> !Hit(before + (SEPARATOR + Quoted(s)) + rest, p)
  {
    var lead := before + SEPARATOR;
    TopAfterSeparator(before);
    QuotedHidesText(lead, s, rest);
    assert before + (SEPARATOR + Quoted(s)) == lead + Quoted(s);
    if |before| <= p < |lead| {
      SeparatorIsPlain();
      assert lead + Quoted(s) + rest == before + SEPARATOR + (Quoted(s) + rest);
      SegmentWithoutV(before, SEPARATOR, Quoted(s) + rest, p);
    }
  }

  lemma NothingBehindColumn(before: string, source: string, target: string, p: nat)
    requires EndsAtTop(before)
    requires |before| <= p < |before| + |Arguments(source, target)|
    ensures !Hit(before + Arguments(source, target), p)
  {
    var first := SEPARATOR + Quoted(source);
    var second := SEPARATOR + Quoted(target);
    ArgumentHidesText(before, source, second + TAIL, p);
    ArgumentHidesText(before + first, target, TAIL, p);
    SeparatorIsPlain();
    if p >= |before| + |first| + |second| {
      SegmentWithoutV(before + first + second, TAIL, "", p);
    }
    Associate(before, first, second, TAIL);
    assert Arguments(source, target) == first + (second + TAIL);
  }

  lemma Associate(a: string, b: string, c: string, d: string)
    ensures a + (b + (c + d)) == a + b + (c + d) == a + b + c + d == a + b + c + d + ""
  {
  }

  lemma TopAfterSeparator(before: string)
    requires EndsAtTop(before)
    ensures EndsAtTop(before + SEPARATOR)
  {
    var m := ModeAt(before, |before|);
    ModeAfterConcat(Top, before, SEPARATOR, 2);
    assert ModeAfter(m, SEPARATOR, 0) == m;
    assert ModeAfter(m, SEPARATOR, 1) == Top;
  }

  /** The whole expression, cut behind its column. */
  lemma StTransformParts(column: string, source: string, target: string)
    ensures StTransform(column, source, target) == (HEAD + column) + Arguments(source, target)
  {
  }

  /**
    For a column text that ends at top level, the scanner's answer on the expression is its answer on
    the column, whatever the two reference systems say.
   */
  lemma ClaimDependsOnColumnOnly(column: string, source: string, target: string)
    requires EndsAtTop(column)
    ensures Claimed(StTransform(column, source, target)) <==> Claimed(column)
  {
    ColumnClaimIsKept(column, source, target);
    if p: nat :| Hit(StTransform(column, source, target), p) {
      StTransformParts(column, source, target);
      HitsAreInColumn(column, source, target, p);
    }
  }

  lemma HitsAreInColumn(column: string, source: string, target: string, p: nat)
    requires EndsAtTop(column)
    requires Hit(HEAD + column + Arguments(source, target), p)
    ensures |HEAD| <= p < |HEAD| + |column| && Hit(column, p - |HEAD|)
  {
    var rest := Arguments(source, target);
    HeadThenColumn(column);
    if p >= |HEAD + column| {
      NothingBehindColumn(HEAD + column, source, target, p);
    }
    assert HEAD + (column + rest) == HEAD + column + rest;
    if p < |HEAD| {
      HeadHasNoHit(column + rest, p);
    }
    HitsInColumn(column, rest, p - |HEAD|);
  }

  lemma HeadThenColumn(column: string)
    ensures ModeAt(HEAD + column, |HEAD + column|) == ModeAt(column, |column|)
  {
    PlainText(HEAD, |HEAD|);
    ModeAfterConcat(Top, HEAD, column, |column|);
  }

  lemma HeadHasNoHit(rest: string, p: nat)
    requires p < |HEAD|
    ensures !Hit(HEAD + rest, p)
  {
    assert forall c :: c in HEAD ==> ToLower(c) != 'v';
    assert "" + HEAD + rest == HEAD + rest;
    SegmentWithoutV("", HEAD, rest, p);
  }

  lemma ColumnClaimIsKept(column: string, source: string, target: string)
    ensures Claimed(column) ==> Claimed(StTransform(column, source, target))
  {
    if p: nat :| Hit(column, p) {
      HitsInColumn(column, Arguments(source, target), p);
      StTransformParts(column, source, target);
    }
  }

  // ---------- Exactly when the arguments cannot be seen ----------

  lemma {:induction false} DoubleKeepsUnquoted(s: string)
    requires '\'' !in s
    ensures Double(s) == s
  {
    if s != "" {
      DoubleKeepsUnquoted(s[1..]);
    }
  }

  /** Text that leaves the mode a column ended in, given that a separator and a quote come first. */
  function Escape(m: Mode): string
    requires !m.TopLevel()
  {
    match m
    case Line => "\n"
    case Block => "*/"
    case Star => "*/"
    case Single => ""
    case Double => "\""
  }

  lemma EscapeReachesTop(m: Mode)
    requires !m.TopLevel()
    ensures var s := ", '" + Escape(m); ModeAfter(m, s, |s|) == Top
  {
    var s := ", '" + Escape(m);
    assert ModeAfter(m, s, 0) == m;
    assert ModeAfter(m, s, 1) == if m == Star then Block else m;
    assert ModeAfter(m, s, 2) == if m == Star then Block else m;
    assert ModeAfter(m, s, 3) == if m == Star then Block else if m == Single then Top else m;
    if m == Block || m == Star {
      assert ModeAfter(m, s, 4) == Star;
    }
  }

  lemma KeywordBetween(before: string, rest: string)
    requires before != "" && !IsIdentChar(before[|before| - 1]) && ModeAt(before, |before|) == Top
    requires rest != "" && !IsIdentChar(rest[0])
    ensures Claimed(before + VISUALISE + rest)
  {
    assert Hit(VISUALISE, 0);
    HitSurvivesPrepending(before, VISUALISE, 0);
    HitSurvivesAppending(before + VISUALISE, rest, |before|);
  }

  lemma SplitAtKeyword(escape: string)
    requires '\'' !in escape
    ensures Arguments(escape + VISUALISE, "") == (", '" + escape) + VISUALISE + ("'" + (SEPARATOR + Quoted("") + TAIL))
  {
    var source := escape + VISUALISE;
    assert '\'' !in VISUALISE;
    DoubleKeepsUnquoted(source);
    assert Quoted(source) == "'" + source + "'";
    assert SEPARATOR + "'" == ", '";
    Requote(SEPARATOR, escape, VISUALISE, SEPARATOR, Quoted(""), TAIL);
  }

  lemma Requote(separator: string, text: string, keyword: string, s: string, quoted: string, tail: string)
    ensures separator + ("'" + (text + keyword) + "'") + s + quoted + tail
         == ((separator + "'") + text) + keyword + ("'" + (s + quoted + tail))
  {
  }

  lemma OpenColumnExposesSource(column: string)
    requires !EndsAtTop(column)
    ensures exists source :: Claimed(StTransform(column, source, ""))
  {
    var m := ModeAt(column, |column|);
    var lead := ", '" + Escape(m);
    var rest := "'" + (SEPARATOR + Quoted("") + TAIL);
    EscapeReachesTop(m);
    HeadThenColumn(column);
    ModeAfterConcat(Top, HEAD + column, lead, |lead|);
    KeywordBetween(HEAD + column + lead, rest);
    SplitAtKeyword(Escape(m));
    StTransformParts(column, Escape(m) + VISUALISE, "");
    Regroup(HEAD + column, lead, rest);
  }

  lemma Regroup(column: string, lead: string, rest: string)
    ensures column + (lead + VISUALISE + rest) == column + lead + VISUALISE + rest
  {
  }

  lemma EmptyArgumentsArePlain()
    ensures forall c :: c in Arguments("", "") ==> ToLower(c) != 'v'
  {
    SeparatorIsPlain();
    assert forall c :: c in Quoted("") ==> ToLower(c) != 'v';
  }

  lemma PlainRestAddsNoHit(column: string, rest: string, p: nat)
    requires rest != "" && !IsIdentChar(rest[0]) && forall c :: c in rest ==> ToLower(c) != 'v'
    requires Hit(HEAD + column + rest, p)
    ensures |HEAD| <= p < |HEAD| + |column| && Hit(column, p - |HEAD|)
  {
    if p >= |HEAD + column| {
      assert HEAD + column + rest + "" == HEAD + column + rest;
      SegmentWithoutV(HEAD + column, rest, "", p);
    }
    assert HEAD + (column + rest) == HEAD + column + rest;
    if p < |HEAD| {
      HeadHasNoHit(column + rest, p);
    }
    HitsInColumn(column, rest, p - |HEAD|);
  }

  lemma EmptyArgumentsAddNoClaim(column: string)
    ensures Claimed(StTransform(column, "", "")) <==> Claimed(column)
  {
    ColumnClaimIsKept(column, "", "");
    StTransformParts(column, "", "");
    EmptyArgumentsArePlain();
    if p: nat :| Hit(HEAD + column + Arguments("", ""), p) {
      PlainRestAddsNoHit(column, Arguments("", ""), p);
    }
  }

  /** The two arguments are invisible to the scanner exactly when the column text is complete (or already claimed). */
  lemma ArgumentsAreInvisibleExactlyWhen(column: string)
    ensures (forall a, b, c, d :: Claimed(StTransform(column, a, b)) <==> Claimed(StTransform(column, c, d)))
       <==> EndsAtTop(column) || Claimed(column)
  {
    if EndsAtTop(column) {
      forall a, b
        ensures Claimed(StTransform(column, a, b)) <==> Claimed(column)
      {
        ClaimDependsOnColumnOnly(column, a, b);
      }
    } else if Claimed(column) {
      forall a, b
        ensures Claimed(StTransform(column, a, b))
      {
        ColumnClaimIsKept(column, a, b);
      }
    } else {
      OpenColumnExposesSource(column);
      var source :| Claimed(StTransform(column, source, ""));
      EmptyArgumentsAddNoClaim(column);
    }
  }

  // ---------- Recovering the arguments ----------

  /** A literal and the text behind it determine the quoted string and where it ends. */
  lemma LiteralIsUnambiguous(s: string, rest: string, s': string, rest': string)
    requires Quoted(s) + rest == Quoted(s') + rest'
    requires rest == "" || rest[0] != '\''
    requires rest' == "" || rest'[0] != '\''
    ensures s == s' && rest == rest'
  {
    ScanLeavesAtRest("'", s, rest);
    ScanLeavesAtRest("'", s', rest');
    assert Quoted(s) + rest == "'" + Double(s) + "'" + rest;
    assert Quoted(s') + rest' == "'" + Double(s') + "'" + rest';
    var q := Quoted(s) + rest;
    var n := |Double(s)|;
    assert Double(s) == q[1..n + 1] == Double(s');
    assert rest == q[n + 2..] == rest';
    UndoubleInvertsDouble(s);
    UndoubleInvertsDouble(s');
  }

  // Read from the right, a doubled literal is again a doubled literal, and in front of it stands a blank.

  function Reverse(s: string): string {
    if s == "" then "" else Reverse(s[1..]) + [s[0]]
  }

  lemma {:induction false} ReverseConcat(a: string, b: string)
    ensures Reverse(a + b) == Reverse(b) + Reverse(a)
  {
    if a == "" {
      assert a + b == b;
    } else {
      ReverseConcat(a[1..], b);
      assert (a + b)[1..] == a[1..] + b;
    }
  }

  lemma {:induction false} ReverseTwice(s: string)
    ensures Reverse(Reverse(s)) == s
  {
    if s != "" {
      ReverseTwice(s[1..]);
      ReverseConcat(Reverse(s[1..]), [s[0]]);
      assert Reverse([s[0]]) == [s[0]];
    }
  }

  lemma {:induction false} DoubleConcat(a: string, b: string)
    ensures Double(a + b) == Double(a) + Double(b)
  {
    if a == "" {
      assert a + b == b;
    } else {
      DoubleConcat(a[1..], b);
      assert (a + b)[1..] == a[1..] + b;
      var first := if a[0] == '\'' then "''" else [a[0]];
      assert Double(a + b) == first + Double(a[1..] + b) && Double(a) == first + Double(a[1..]);
      hide Double;
      Reassociate(first, Double(a[1..]), Double(b));
    }
  }

  lemma Reassociate(a: string, b: string, c: string)
    ensures a + (b + c) == (a + b) + c
  {
  }

  lemma DoubledCharacter(c: char)
    ensures Double([c]) == if c == '\'' then "''" else [c]
    ensures Reverse(Double([c])) == Double([c])
  {
    assert [c][1..] == "";
    if c == '\'' {
      assert Double([c]) == "''" && "''"[1..] == "'" && "'"[1..] == "";
    } else {
      assert Double([c]) == [c];
    }
  }

  lemma {:induction false} ReverseDouble(s: string)
    ensures Reverse(Double(s)) == Double(Reverse(s))
  {
    if s != "" {
      var first := Double([s[0]]);
      ReverseDouble(s[1..]);
      DoubledCharacter(s[0]);
      ReverseConcat(first, Double(s[1..]));
      DoubleConcat(Reverse(s[1..]), [s[0]]);
    }
  }

  lemma ReverseQuoted(s: string)
    ensures Reverse(Quoted(s)) == Quoted(Reverse(s))
  {
    assert Reverse("'") == "'";
    ReverseConcat("'" + Double(s), "'");
    ReverseConcat("'", Double(s));
    ReverseDouble(s);
    assert "'" + (Double(Reverse(s)) + "'") == Quoted(Reverse(s));
  }

  /** The last literal behind a separator, and the text in front of it, can be told from the whole. */
  lemma LastLiteral(before: string, s: string, before': string, s': string)
    requires before + SEPARATOR + Quoted(s) == before' + SEPARATOR + Quoted(s')
    ensures before == before' && s == s'
  {
    ReverseLastLiteral(before, s);
    ReverseLastLiteral(before', s');
    var rest, rest' := " ," + Reverse(before), " ," + Reverse(before');
    LiteralIsUnambiguous(Reverse(s), rest, Reverse(s'), rest');
    assert Reverse(before) == rest[2..] == rest'[2..] == Reverse(before');
    ReverseTwice(before);
    ReverseTwice(before');
    ReverseTwice(s);
    ReverseTwice(s');
  }

  lemma ReverseLastLiteral(before: string, s: string)
    ensures Reverse(before + SEPARATOR + Quoted(s)) == Quoted(Reverse(s)) + (" ," + Reverse(before))
  {
    assert Reverse(SEPARATOR) == " ,";
    ReverseConcat(before + SEPARATOR, Quoted(s));
    ReverseConcat(before, SEPARATOR);
    ReverseQuoted(s);
  }

  lemma CommonSuffix(a: string, b: string, tail: string)
    requires a + tail == b + tail
    ensures a == b
  {
    assert |a| == |b|;
    assert a == (a + tail)[..|a|] && b == (b + tail)[..|b|];
  }

  lemma CommonPrefix(lead: string, a: string, b: string)
    requires lead + a == lead + b
    ensures a == b
  {
    assert a == (lead + a)[|lead|..] && b == (lead + b)[|lead|..];
  }

  /** Whatever the column text is, the expression determines it and both reference systems. */
  lemma ExpressionIsUnambiguous(column: string, a: string, b: string, column': string, a': string, b': string)
    requires StTransform(column, a, b) == StTransform(column', a', b')
    ensures column == column' && a == a' && b == b'
  {
    hide Quoted;
    var first, first' := HEAD + column + SEPARATOR + Quoted(a), HEAD + column' + SEPARATOR + Quoted(a');
    CommonSuffix(first + SEPARATOR + Quoted(b), first' + SEPARATOR + Quoted(b'), TAIL);
    LastLiteral(first, b, first', b');
    LastLiteral(HEAD + column, a, HEAD + column', a');
    CommonPrefix(HEAD, column, column');
  }
}

/**
  The keyword scanner of src/ggsql_parser.cpp.

  The scanner jumps over comments, quoted text and identifiers with inner loops and one character of
  lookahead.  Its specification is an automaton that reads one character at a time and never looks
  ahead: the query is claimed when a whole-word keyword starts where the automaton is at top level.
 */
module Scanner {

  // ---------- Characters (the C locale) ----------

  predicate IsIdentChar(c: char) {
    '0' <= c <= '9' || 'A' <= c <= 'Z' || 'a' <= c <= 'z' || c == '_'
  }

  predicate IsSpace(c: char) {
    c == ' ' || '\t' <= c <= '\r'
  }

  function ToLower(c: char): char {
    if 'A' <= c <= 'Z' then c - 'A' + 'a' else c
  }

  // ---------- The reference automaton ----------

  /** `Dash`, `Slash` and `Star` remember the one character that may open or close a comment. */
  datatype Mode = Top | Dash | Slash | Line | Block | Star | Single | Double {
    predicate TopLevel() {
      Top? || Dash? || Slash?
    }
  }

  function Step(m: Mode, c: char): Mode {
    match m
    case Line => if c == '\n' then Top else Line
    case Block => if c == '*' then Star else Block
    case Star => if c == '/' then Top else if c == '*' then Star else Block
    case Single => if c == '\'' then Top else Single
    case Double => if c == '"' then Top else Double
    case _ =>
      if m == Dash && c == '-' then Line
      else if m == Slash && c == '*' then Block
      else if c == '-' then Dash
      else if c == '/' then Slash
      else if c == '\'' then Single
      else if c == '"' then Double
      else Top
  }

  /** The mode after reading the first `k` characters of `s`, starting in mode `m`. */
  function ModeAfter(m: Mode, s: string, k: nat): Mode
    requires k <= |s|
  {
    if k == 0 then m else Step(ModeAfter(m, s, k - 1), s[k - 1])
  }

  function ModeAt(q: string, p: nat): Mode
    requires p <= |q|
  {
    ModeAfter(Top, q, p)
  }

  lemma {:induction false} ModeAfterConcat(m: Mode, a: string, b: string, k: nat)
    requires k <= |b|
    ensures ModeAfter(m, a + b, |a| + k) == ModeAfter(ModeAfter(m, a, |a|), b, k)
    decreases k
  {
    if k == 0 {
      ModeAfterPrefix(m, a, b, |a|);
    } else {
      ModeAfterConcat(m, a, b, k - 1);
    }
  }

  lemma {:induction false} ModeAfterPrefix(m: Mode, a: string, b: string, k: nat)
    requires k <= |a|
    ensures ModeAfter(m, a + b, k) == ModeAfter(m, a, k)
    decreases k
  {
    if k != 0 {
      ModeAfterPrefix(m, a, b, k - 1);
    }
  }

  // ---------- Keywords ----------

  const VISUALISE := "VISUALISE"
  const VISUALIZE := "VISUALIZE"

  predicate WholeWordAt(text: string, pos: nat, word: string) {
    && pos + |word| <= |text|
    && (forall i :: 0 <= i < |word| ==> ToLower(text[pos + i]) == ToLower(word[i]))
    && !(pos > 0 && IsIdentChar(text[pos - 1]))
    && !(pos + |word| < |text| && IsIdentChar(text[pos + |word|]))
  }

  predicate KeywordAt(q: string, p: nat) {
    WholeWordAt(q, p, VISUALISE) || WholeWordAt(q, p, VISUALIZE)
  }

  /** A keyword that the reference automaton sees at top level. */
  predicate Hit(q: string, p: nat) {
    p < |q| && ModeAt(q, p).TopLevel() && KeywordAt(q, p)
  }

  ghost predicate Claimed(q: string) {
    exists p :: Hit(q, p)
  }

  /** Every letter of a keyword occurrence is an identifier character, so it is not a quote, blank or `;`. */
  lemma KeywordLetters(q: string, p: nat)
    requires KeywordAt(q, p)
    ensures p + 9 <= |q|
    ensures forall i :: p <= i < p + 9 ==> IsIdentChar(q[i])
    ensures ToLower(q[p]) == 'v'
    ensures p == 0 || !IsIdentChar(q[p - 1])
    ensures p + 9 == |q| || !IsIdentChar(q[p + 9])
  {
    var word := if WholeWordAt(q, p, VISUALISE) then VISUALISE else VISUALIZE;
    assert WholeWordAt(q, p, word);
    assert ToLower(q[p + 0]) == ToLower(word[0]);
    forall i | p <= i < p + 9
      ensures IsIdentChar(q[i])
    {
      assert ToLower(q[p + (i - p)]) == ToLower(word[i - p]);
      assert IsIdentChar(word[i - p]);
    }
  }

  // ---------- The scanner ----------

  method MatchesWholeWord(haystack: string, pos: nat, needle: string) returns (matches: bool)
    ensures matches <==> WholeWordAt(haystack, pos, needle)
  {
    if pos + |needle| > |haystack| {
      return false;
    }
    for i := 0 to |needle|
      invariant forall j :: 0 <= j < i ==> ToLower(haystack[pos + j]) == ToLower(needle[j])
    {
      if ToLower(haystack[pos + i]) != ToLower(needle[i]) {
        return false;
      }
    }
    if pos > 0 && IsIdentChar(haystack[pos - 1]) {
      return false;
    }
    var after := pos + |needle|;
    if after < |haystack| && IsIdentChar(haystack[after]) {
      return false;
    }
    return true;
  }

  /** No position in `lo..hi` starts a keyword that the automaton sees at top level. */
  ghost predicate NoHit(q: string, lo: nat, hi: nat) {
    forall p :: lo <= p < hi ==> !Hit(q, p)
  }

  /**
    Where the scanner may stand between two tokens: at the end, at top level with no comment half
    opened, or on the line break that ends a line comment.
   */
  predicate Aligned(q: string, i: nat) {
    || i == |q|
    || (i < |q| && ModeAt(q, i) == Line && q[i] == '\n')
    || (&& i < |q|
        && ModeAt(q, i).TopLevel()
        && (q[i] == '-' ==> ModeAt(q, i) != Dash)
        && (q[i] == '*' ==> ModeAt(q, i) != Slash))
  }

  method SkipLineComment(q: string, start: nat) returns (i: nat)
    requires start <= |q| && ModeAt(q, start) == Line
    ensures start <= i <= |q| && Aligned(q, i) && NoHit(q, start, i)
  {
    i := start;
    while i < |q| && q[i] != '\n'
      invariant start <= i <= |q| && ModeAt(q, i) == Line && NoHit(q, start, i)
    {
      i := i + 1;
    }
  }

  method SkipBlockComment(q: string, start: nat) returns (i: nat)
    requires start <= |q| && ModeAt(q, start) == Block
    ensures start <= i <= |q| && Aligned(q, i) && NoHit(q, start, i)
  {
    i := start;
    while i + 1 < |q| && !(q[i] == '*' && q[i + 1] == '/')
      invariant start <= i <= |q| && NoHit(q, start, i)
      invariant ModeAt(q, i) == Block || (ModeAt(q, i) == Star && i < |q| && q[i] != '/')
      decreases |q| - i
    {
      i := i + 1;
    }
    if i + 1 < |q| {
      assert ModeAt(q, i + 1) == Star && ModeAt(q, i + 2) == Top;
      i := i + 2;
    } else {
      i := |q|;
    }
  }

  function QuoteMode(quote: char): Mode {
    if quote == '\'' then Single else Double
  }

  /** Just past the quote that closes the text at `i`, where two quotes in a row stand for one. */
  function AfterQuoted(q: string, i: nat, quote: char): (end: nat)
    requires i <= |q|
    ensures i <= end <= |q|
    decreases |q| - i
  {
    if i == |q| then i
    else if q[i] != quote then AfterQuoted(q, i + 1, quote)
    else if i + 1 < |q| && q[i + 1] == quote then AfterQuoted(q, i + 2, quote)
    else i + 1
  }

  method SkipQuoted(q: string, start: nat, quote: char) returns (i: nat)
    requires quote == '\'' || quote == '"'
    requires start <= |q| && ModeAt(q, start) == QuoteMode(quote)
    ensures i == AfterQuoted(q, start, quote)
    ensures start <= i <= |q| && Aligned(q, i) && NoHit(q, start, i)
  {
    i := start;
    while i < |q|
      invariant start <= i <= |q| && ModeAt(q, i) == QuoteMode(quote) && NoHit(q, start, i)
      invariant AfterQuoted(q, i, quote) == AfterQuoted(q, start, quote)
    {
      if q[i] == quote {
        if i + 1 < |q| && q[i + 1] == quote {
          assert !Hit(q, i + 1) by {
            if KeywordAt(q, i + 1) { KeywordLetters(q, i + 1); }
          }
          assert ModeAt(q, i + 1) == Top;
          i := i + 2;
          continue;
        }
        i := i + 1;
        break;
      }
      i := i + 1;
    }
  }

  method SkipIdentifier(q: string, start: nat) returns (i: nat)
    requires start < |q| && ModeAt(q, start).TopLevel() && IsIdentChar(q[start]) && !Hit(q, start)
    ensures start < i <= |q| && Aligned(q, i) && NoHit(q, start, i)
  {
    i := start;
    while i < |q| && IsIdentChar(q[i])
      invariant start <= i <= |q| && NoHit(q, start, i)
      invariant if i == start then ModeAt(q, i).TopLevel() else ModeAt(q, i) == Top && IsIdentChar(q[i - 1])
    {
      assert !Hit(q, i) by {
        if i != start && KeywordAt(q, i) { KeywordLetters(q, i); }
      }
      i := i + 1;
    }
  }

  /** Two characters open a comment at once for the scanner, one after the other for the automaton. */
  lemma CommentOpens(q: string, i: nat)
    requires i + 1 < |q| && Aligned(q, i)
    requires (q[i] == '-' && q[i + 1] == '-') || (q[i] == '/' && q[i + 1] == '*')
    ensures ModeAt(q, i + 2) == if q[i] == '-' then Line else Block
    ensures !Hit(q, i) && !Hit(q, i + 1)
  {
    NoKeywordOn(q, i);
    NoKeywordOn(q, i + 1);
    assert ModeAt(q, i + 1) == if q[i] == '-' then Dash else Slash;
  }

  /** The index-skipping scanner refines the character-at-a-time automaton. */
  method ContainsVisualiseKeyword(q: string) returns (found: bool)
    ensures found <==> Claimed(q)
  {
    hide WholeWordAt;
    var i: nat := 0;
    while i < |q|
      invariant i <= |q| && Aligned(q, i) && NoHit(q, 0, i)
    {
      var c := q[i];
      if c == '-' && i + 1 < |q| && q[i + 1] == '-' {
        CommentOpens(q, i);
        i := SkipLineComment(q, i + 2);
        continue;
      }
      if c == '/' && i + 1 < |q| && q[i + 1] == '*' {
        CommentOpens(q, i);
        i := SkipBlockComment(q, i + 2);
        continue;
      }
      if c == '\'' {
        NoKeywordOn(q, i);
        i := SkipQuoted(q, i + 1, '\'');
        continue;
      }
      if c == '"' {
        NoKeywordOn(q, i);
        i := SkipQuoted(q, i + 1, '"');
        continue;
      }
      if IsIdentChar(c) && (i == 0 || !IsIdentChar(q[i - 1])) {
        var visualise := MatchesWholeWord(q, i, VISUALISE);
        if visualise {
          assert Hit(q, i);
          return true;
        }
        var visualize := MatchesWholeWord(q, i, VISUALIZE);
        if visualize {
          assert Hit(q, i);
          return true;
        }
        i := SkipIdentifier(q, i);
        continue;
      }
      NoKeywordOn(q, i);
      i := i + 1;
    }
    return false;
  }

  /** No keyword starts on a character that is not an identifier's, or inside an identifier. */
  lemma NoKeywordOn(q: string, i: nat)
    requires i < |q|
    requires !IsIdentChar(q[i]) || (i > 0 && IsIdentChar(q[i - 1]))
    ensures !Hit(q, i)
  {
    if KeywordAt(q, i) { KeywordLetters(q, i); }
  }

  // ---------- Prefix determinism of the scanner ----------

  /** Appending text that does not continue an identifier never hides a keyword, nor moves one. */
  lemma HitSurvivesAppending(q: string, tail: string, p: nat)
    requires p < |q|
    requires tail == "" || !IsIdentChar(tail[0])
    ensures Hit(q, p) <==> Hit(q + tail, p) && p + 9 <= |q|
  {
    ModeAfterPrefix(Top, q, tail, p);
    if KeywordAt(q, p) {
      KeywordLetters(q, p);
    }
    if KeywordAt(q + tail, p) && p + 9 <= |q| {
      KeywordLetters(q + tail, p);
    }
    if p + 9 <= |q| {
      SameLetters(q, tail, p, VISUALISE);
      SameLetters(q, tail, p, VISUALIZE);
    }
  }

  lemma SameLetters(q: string, tail: string, p: nat, word: string)
    requires word != "" && p + |word| <= |q|
    requires tail == "" || !IsIdentChar(tail[0])
    ensures WholeWordAt(q, p, word) <==> WholeWordAt(q + tail, p, word)
  {
    assert forall i :: p <= i < p + |word| ==> (q + tail)[i] == q[i];
    if WholeWordAt(q + tail, p, word) {
      forall i | 0 <= i < |word|
        ensures ToLower(q[p + i]) == ToLower(word[i])
      {
        assert (q + tail)[p + i] == q[p + i];
      }
    }
  }

  lemma ClaimSurvivesAppending(q: string, tail: string)
    requires tail == "" || !IsIdentChar(tail[0])
    ensures Claimed(q) ==> Claimed(q + tail)
  {
    if p: nat :| Hit(q, p) {
      HitSurvivesAppending(q, tail, p);
    }
  }

  /** The scanner's answer does not depend on a tail in which no identifier character occurs. */
  lemma ClaimIgnoresTail(q: string, tail: string)
    requires forall c :: c in tail ==> !IsIdentChar(c)
    ensures Claimed(q) <==> Claimed(q + tail)
  {
    ClaimSurvivesAppending(q, tail);
    if p: nat :| Hit(q + tail, p) {
      KeywordLetters(q + tail, p);
      assert forall j :: |q| <= j < |q + tail| ==> (q + tail)[j] in tail;
      assert IsIdentChar((q + tail)[p + 8]);
      HitSurvivesAppending(q, tail, p);
    }
  }

  /** Text put in front of a query leaves its keywords alone when it ends at top level, off a word. */
  lemma HitSurvivesPrepending(head: string, q: string, p: nat)
    requires head != "" && !IsIdentChar(head[|head| - 1]) && ModeAt(head, |head|) == Top
    requires p < |q|
    ensures Hit(head + q, |head| + p) <==> Hit(q, p)
  {
    ModeAfterConcat(Top, head, q, p);
    ShiftedLetters(head, q, p, VISUALISE);
    ShiftedLetters(head, q, p, VISUALIZE);
  }

  lemma ShiftedLetters(head: string, q: string, p: nat, word: string)
    requires head != "" && !IsIdentChar(head[|head| - 1]) && p < |q|
    ensures WholeWordAt(head + q, |head| + p, word) <==> WholeWordAt(q, p, word)
  {
    assert forall i :: 0 <= i < |q| ==> (head + q)[|head| + i] == q[i];
    if WholeWordAt(head + q, |head| + p, word) {
      forall i | 0 <= i < |word|
        ensures ToLower(q[p + i]) == ToLower(word[i])
      {
        assert ToLower((head + q)[|head| + p + i]) == ToLower(word[i]);
      }
    }
    if WholeWordAt(q, p, word) {
      forall i | 0 <= i < |word|
        ensures ToLower((head + q)[|head| + p + i]) == ToLower(word[i])
      {
        assert ToLower(q[p + i]) == ToLower(word[i]);
      }
    }
  }
}

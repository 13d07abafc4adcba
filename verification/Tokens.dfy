/**
  The automaton and the keywords of Scanner spelled out: which characters make words, how the keywords are
  written, and what opens and closes comments and quotes in src/ggsql_parser.cpp.
 */
module Tokens {
  import opened Characters
  import opened Scanner

  // ---------- Words ----------

  predicate Word(c: char) {
    c in "0123456789" || c in "ABCDEFGHIJKLMNOPQRSTUVWXYZ" || c in "abcdefghijklmnopqrstuvwxyz" || c == '_'
  }

  lemma WordCharacters(c: char)
    ensures Word(c) <==> IsIdentChar(c)
  {
    Digits(c);
    UpperCase(c);
    LowerCase(c);
  }

  /** One of the two keywords, in any mixture of cases. */
  predicate Spelled(w: string) {
    && |w| == 9
    && w[0] in "vV" && w[1] in "iI" && w[2] in "sS" && w[3] in "uU" && w[4] in "aA"
    && w[5] in "lL" && w[6] in "iI" && w[7] in "sSzZ" && w[8] in "eE"
  }

  lemma WordIsSpelled(q: string, p: nat, word: string)
    requires |word| == 9 && p + 9 <= |q|
    ensures WholeWordAt(q, p, word) <==>
              && (forall i :: 0 <= i < 9 ==> ToLower(q[p + i]) == ToLower(word[i]))
              && (p == 0 || !Word(q[p - 1])) && (p + 9 == |q| || !Word(q[p + 9]))
  {
    if p > 0 { WordCharacters(q[p - 1]); }
    if p + 9 < |q| { WordCharacters(q[p + 9]); }
  }

  lemma LettersAreSpelled(w: string)
    requires |w| == 9
    ensures Spelled(w) <==>
              || (forall i :: 0 <= i < 9 ==> ToLower(w[i]) == ToLower(VISUALISE[i]))
              || (forall i :: 0 <= i < 9 ==> ToLower(w[i]) == ToLower(VISUALIZE[i]))
  {
    LettersMatch(w, VISUALISE);
    LettersMatch(w, VISUALIZE);
  }

  lemma LettersMatch(w: string, word: string)
    requires |w| == |word| == 9
    ensures (forall i :: 0 <= i < 9 ==> ToLower(w[i]) == ToLower(word[i])) <==>
              && ToLower(w[0]) == ToLower(word[0]) && ToLower(w[1]) == ToLower(word[1]) && ToLower(w[2]) == ToLower(word[2])
              && ToLower(w[3]) == ToLower(word[3]) && ToLower(w[4]) == ToLower(word[4]) && ToLower(w[5]) == ToLower(word[5])
              && ToLower(w[6]) == ToLower(word[6]) && ToLower(w[7]) == ToLower(word[7]) && ToLower(w[8]) == ToLower(word[8])
  {
  }

  /** A hit is a keyword at top level with no word character on either side. */
  lemma HitIsSpelledOut(q: string, p: nat)
    ensures Hit(q, p) <==>
              && p + 9 <= |q| && ModeAt(q, p).TopLevel() && Spelled(q[p..p + 9])
              && (p == 0 || !Word(q[p - 1])) && (p + 9 == |q| || !Word(q[p + 9]))
  {
    if p + 9 <= |q| {
      var w := q[p..p + 9];
      assert forall i :: 0 <= i < 9 ==> w[i] == q[p + i];
      WordIsSpelled(q, p, VISUALISE);
      WordIsSpelled(q, p, VISUALIZE);
      LettersAreSpelled(w);
      hide Word, Spelled, WholeWordAt, ModeAfter;
    }
  }

  // ---------- Comments and quotes ----------

  /** Behind two dashes nothing is at top level up to the line break, and the text behind that is. */
  lemma {:induction false} LineCommentHides(q: string, p: nat, end: nat)
    requires p + 2 <= end <= |q| && ModeAt(q, p).TopLevel() && q[p] == '-' && q[p + 1] == '-'
    requires forall i :: p + 2 <= i < end ==> q[i] != '\n'
    ensures forall k :: p + 2 <= k <= end ==> !ModeAt(q, k).TopLevel()
    ensures ModeAt(q, end) == Line
    ensures end < |q| && q[end] == '\n' ==> ModeAt(q, end + 1) == Top
    decreases end
  {
    if end == p + 2 {
      assert ModeAt(q, p + 1) == Dash || ModeAt(q, p + 1) == Line;
    } else {
      LineCommentHides(q, p, end - 1);
    }
  }

  /** Behind a slash and a star nothing is at top level up to and in the first star and slash, and the text behind is. */
  lemma {:induction false} BlockCommentHides(q: string, p: nat, end: nat)
    requires p + 2 <= end <= |q| && ModeAt(q, p).TopLevel() && q[p] == '/' && q[p + 1] == '*'
    requires forall i :: p + 2 <= i < end && i + 1 < |q| ==> !(q[i] == '*' && q[i + 1] == '/')
    ensures forall k :: p + 2 <= k <= end ==> !ModeAt(q, k).TopLevel()
    ensures ModeAt(q, end) == if end > p + 2 && q[end - 1] == '*' then Star else Block
    ensures end + 1 < |q| && q[end] == '*' && q[end + 1] == '/' ==>
              !ModeAt(q, end + 1).TopLevel() && ModeAt(q, end + 2) == Top
    decreases end
  {
    if end == p + 2 {
      assert ModeAt(q, p + 1) == Slash;
    } else {
      BlockCommentHides(q, p, end - 1);
    }
    assert ModeAt(q, end) == if end > p + 2 && q[end - 1] == '*' then Star else Block;
    if end + 1 < |q| && q[end] == '*' && q[end + 1] == '/' {
      assert ModeAt(q, end + 1) == Star;
    }
  }

  /** Behind a quote nothing is at top level up to and at the next quote of its kind, and the text behind that is. */
  lemma {:induction false} QuoteHides(q: string, p: nat, end: nat)
    requires p + 1 <= end <= |q| && ModeAt(q, p).TopLevel() && (q[p] == '\'' || q[p] == '"')
    requires forall i :: p + 1 <= i < end ==> q[i] != q[p]
    ensures forall k :: p + 1 <= k <= end ==> !ModeAt(q, k).TopLevel()
    ensures ModeAt(q, end) == if q[p] == '\'' then Single else Mode.Double
    ensures end < |q| && q[end] == q[p] ==> ModeAt(q, end + 1) == Top
    decreases end
  {
    if end > p + 1 {
      QuoteHides(q, p, end - 1);
    }
  }

  /** Text that opens neither a comment nor a quote stays at top level. */
  lemma {:induction false} OtherTextIsTop(q: string, p: nat, end: nat)
    requires p <= end <= |q| && ModeAt(q, p) == Top
    requires forall i :: p <= i < end ==> q[i] != '\'' && q[i] != '"'
    requires forall i :: p <= i && i + 1 < end ==> !(q[i] == '-' && q[i + 1] == '-') && !(q[i] == '/' && q[i + 1] == '*')
    ensures forall k :: p <= k <= end ==> ModeAt(q, k).TopLevel()
    ensures ModeAt(q, end) == if p == end then Top else if q[end - 1] == '-' then Dash else if q[end - 1] == '/' then Slash else Top
    decreases end
  {
    if p < end {
      OtherTextIsTop(q, p, end - 1);
    }
  }
}

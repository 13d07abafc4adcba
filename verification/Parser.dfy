/**
  `ParseFunction` of src/ggsql_parser.cpp: decide whether the query is ours and, if so, hand over its
  text without trailing blanks and without one statement terminator.
 */
module Parser {
  import opened Scanner

  datatype ParseOutcome = NotOurs | Parsed(query: string)

  // ---------- Stripping ----------

  /** The blanks that `ParseFunction` may remove after the terminator. */
  predicate AllSpace(s: string) {
    forall c :: c in s ==> IsSpace(c)
  }

  /**
    `stripped` is `q` without its trailing blanks and then without one `;`.  Blanks in front of that
    `;` stay.
   */
  ghost predicate Stripped(q: string, stripped: string) {
    exists terminator, blanks :: StrippedBy(q, stripped, terminator, blanks)
  }

  ghost predicate StrippedBy(q: string, stripped: string, terminator: string, blanks: string) {
    && q == stripped + terminator + blanks
    && AllSpace(blanks)
    && (terminator == ";"
        || (terminator == ""
            && (stripped == "" || (!IsSpace(stripped[|stripped| - 1]) && stripped[|stripped| - 1] != ';'))))
  }

  /** What `Stripped` describes is unique, so the relation is a function of the query. */
  lemma StrippedIsUnique(q: string, a: string, b: string)
    requires Stripped(q, a) && Stripped(q, b)
    ensures a == b
  {
    var ta, wa :| StrippedBy(q, a, ta, wa);
    var tb, wb :| StrippedBy(q, b, tb, wb);
    EndsInTerminator(q, a, ta, wa);
    EndsInTerminator(q, b, tb, wb);
    CoresAgree(q, a, ta, wa, b, tb, wb);
    assert a == (a + ta)[..|a|] && b == (b + tb)[..|b|];
  }

  lemma CoresAgree(q: string, a: string, ta: string, wa: string, b: string, tb: string, wb: string)
    requires StrippedBy(q, a, ta, wa) && StrippedBy(q, b, tb, wb)
    ensures a + ta == b + tb
  {
    CoreEndsInText(q, a, ta, wa);
    CoreEndsInText(q, b, tb, wb);
    hide StrippedBy;
    LongerPrefixEndsInSpace(q, a + ta, wa, b + tb, wb);
    LongerPrefixEndsInSpace(q, b + tb, wb, a + ta, wa);
    assert a + ta == q[..|a + ta|] && b + tb == q[..|b + tb|];
  }

  lemma CoreEndsInText(q: string, stripped: string, terminator: string, blanks: string)
    requires StrippedBy(q, stripped, terminator, blanks)
    ensures var core := stripped + terminator;
      q == core + blanks && AllSpace(blanks) && (core != "" ==> !IsSpace(core[|core| - 1]))
  {
  }

  lemma EndsInTerminator(q: string, stripped: string, terminator: string, blanks: string)
    requires StrippedBy(q, stripped, terminator, blanks)
    ensures var core := stripped + terminator;
      terminator == if core != "" && core[|core| - 1] == ';' then ";" else ""
  {
  }

  lemma LongerPrefixEndsInSpace(q: string, a: string, wa: string, b: string, wb: string)
    requires q == a + wa == b + wb && AllSpace(wa)
    ensures |a| < |b| ==> IsSpace(b[|b| - 1])
  {
    if |a| < |b| {
      assert b[|b| - 1] == q[|b| - 1] == wa[|b| - 1 - |a|];
    }
  }

  predicate Blank(c: char) {
    c in " \t\n\r" || c == '\U{B}' || c == '\U{C}'
  }

  /**
    Spelled out: of a text followed by one `;` and blanks exactly the text is left, and of a text that ends
    in neither, followed by blanks alone, the same.
   */
  lemma StrippingIsSpelledOut(t: string, blanks: string, s: string)
    requires forall c :: c in blanks ==> Blank(c)
    ensures Stripped(t + ";" + blanks, s) <==> s == t
    ensures t == "" || (!Blank(t[|t| - 1]) && t[|t| - 1] != ';') ==> (Stripped(t + blanks, s) <==> s == t)
  {
    assert AllSpace(blanks);
    assert StrippedBy(t + ";" + blanks, t, ";", blanks);
    if Stripped(t + ";" + blanks, s) {
      StrippedIsUnique(t + ";" + blanks, s, t);
    }
    if t == "" || (!Blank(t[|t| - 1]) && t[|t| - 1] != ';') {
      assert t + blanks == t + "" + blanks;
      assert StrippedBy(t + blanks, t, "", blanks);
      if Stripped(t + blanks, s) {
        StrippedIsUnique(t + blanks, s, t);
      }
    }
  }

  /** Stripping loses no claim and invents none. */
  lemma StrippingKeepsClaim(q: string, stripped: string)
    requires Stripped(q, stripped)
    ensures stripped <= q
    ensures Claimed(q) <==> Claimed(stripped)
  {
    var terminator, blanks :| StrippedBy(q, stripped, terminator, blanks);
    assert q == stripped + (terminator + blanks);
    ClaimIgnoresTail(stripped, terminator + blanks);
  }

  method ParseFunction(q: string) returns (outcome: ParseOutcome)
    ensures outcome.NotOurs? <==> !Claimed(q)
    ensures outcome.Parsed? ==> Stripped(q, outcome.query) && Claimed(outcome.query)
  {
    var ours := ContainsVisualiseKeyword(q);
    if !ours {
      return NotOurs;
    }
    var stripped := q;
    while stripped != "" && IsSpace(stripped[|stripped| - 1])
      invariant stripped <= q && AllSpace(q[|stripped|..])
      decreases |stripped|
    {
      stripped := stripped[..|stripped| - 1];
    }
    ghost var core, blanks := stripped, q[|stripped|..];
    if stripped != "" && stripped[|stripped| - 1] == ';' {
      stripped := stripped[..|stripped| - 1];
      assert core == stripped + ";" && q == core + blanks;
      assert StrippedBy(q, stripped, ";", blanks);
    } else {
      assert q == stripped + "" + blanks;
      assert StrippedBy(q, stripped, "", blanks);
    }
    StrippingKeepsClaim(q, stripped);
    return Parsed(stripped);
  }
}

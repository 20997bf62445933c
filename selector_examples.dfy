/** Worked shapes of the selector rewriter: a plain branch followed by a
    pseudo-class branch (".btn, .btn:hover"), a pseudo-element (p::before)
    and two chained pseudo-classes (a:hover:focus). */
module SelectorExamples {
  import opened JsString
  import opened Selector

  /** The reference result of a branch whose rewrite is known. */
  lemma BranchResultOf(selector: string, scopeAttr: string, r: string)
    requires ScopeBranch(selector, scopeAttr) == r + ", "
    ensures BranchResult(selector, scopeAttr) == r
  {
    ScopeBranchIsInsertion(selector, scopeAttr);
    assert BranchResult(selector, scopeAttr) == (r + ", ")[..|r|];
  }

  /** A selector list of one branch whose rewrite `r` starts with a
      non-whitespace code point is `r`. */
  lemma SingleBranchList(text: string, scopeAttr: string, r: string)
    requires ',' !in text && ScopeBranch(text, scopeAttr) == r + ", "
    requires |r| > 0 && !IsWhitespace(r[0])
    ensures ScopeSelectorList(text, scopeAttr) == r
  {
    IncludesChar(text, ',');
    SplitAbsent(text, ",");
    BranchResultOf(text, scopeAttr, r);
    assert BranchResults([text], scopeAttr) == [r];
    ScopeSelectorListJoinsBranches(text, scopeAttr);
  }

  /** Splitting two comma-free pieces joined by a comma gives them back. */
  lemma SplitTwo(s1: string, s2: string)
    requires ',' !in s1 && ',' !in s2
    ensures Split(s1 + "," + s2, ",") == [s1, s2]
  {
    var text := s1 + "," + s2;
    assert text == s1 + [','] + s2;
    assert text[..|s1|] == s1 && text[|s1| + 1..] == s2;
    IndexOfChar(text, ',', |s1|);
    IncludesChar(s2, ',');
    SplitAbsent(s2, ",");
  }

  /** A selector list of two branches with known rewrites `r1` and `r2`,
      where `r1` starts with a non-whitespace code point. */
  lemma TwoBranchList(s1: string, s2: string, scopeAttr: string, r1: string, r2: string)
    requires ',' !in s1 && ',' !in s2
    requires ScopeBranch(s1, scopeAttr) == r1 + ", " && ScopeBranch(s2, scopeAttr) == r2 + ", "
    requires |r1| > 0 && !IsWhitespace(r1[0])
    ensures ScopeSelectorList(s1 + "," + s2, scopeAttr) == r1 + ", " + r2
  {
    SplitTwo(s1, s2);
    BranchResultOf(s1, scopeAttr, r1);
    BranchResultOf(s2, scopeAttr, r2);
    assert BranchResults([s1, s2], scopeAttr) == [r1, r2];
    assert Join([r1, r2], ", ") == r1 + ", " + r2;
    ScopeSelectorListJoinsBranches(s1 + "," + s2, scopeAttr);
    assert (r1 + ", " + r2)[0] == r1[0];
  }

  /** A colon-free branch without surrounding whitespace is kept as it is. */
  lemma PlainUntrimmed(x: string, attr: string)
    requires ':' !in x && |x| > 0 && !IsWhitespace(x[0]) && !IsWhitespace(x[|x| - 1])
    ensures ScopeBranch(x, attr) == x + attr + ", "
  {
    PlainBranch(x, attr);
    TrimUnchanged(x);
  }

  /** Regrouping helper for `PlainThenPseudoClass`: the ", " the reducer
      adds and the leading space the second branch keeps make ",  ". */
  lemma SpaceAfterComma(x: string, y: string, z: string, attr: string)
    ensures x + "," + (" " + y + ":" + z) == x + ", " + y + ":" + z
    ensures x + attr + ", " + (" " + y + attr + ":" + z) == x + attr + ",  " + y + attr + ":" + z
  {
  }

  /** "x, y:z" (".btn, .btn:hover" with x = y = ".btn", z = "hover"): the
      attribute goes after the plain branch and before the colon of the
      second, and the second branch keeps its leading space, so two spaces
      follow the comma. */
  lemma PlainThenPseudoClass(x: string, y: string, z: string, attr: string)
    requires ',' !in x && ',' !in y && ',' !in z
    requires ':' !in x && ':' !in y && ':' !in z
    requires |x| > 0 && !IsWhitespace(x[0]) && !IsWhitespace(x[|x| - 1])
    ensures ScopeSelectorList(x + ", " + y + ":" + z, attr) == x + attr + ",  " + y + attr + ":" + z
  {
    var before := " " + y;
    var second := before + ":" + z;
    PlainUntrimmed(x, attr);
    SingleColonBranch(before, z, attr);
    TwoBranchList(x, second, attr, x + attr, before + attr + ":" + z);
    SpaceAfterComma(x, y, z, attr);
  }

  /** "e::n" (p::before): the attribute qualifies the originating element. */
  lemma PseudoElement(e: string, n: string, attr: string)
    requires ',' !in e && ',' !in n && ':' !in e && ':' !in n
    requires |e| > 0 && !IsWhitespace(e[0])
    ensures ScopeSelectorList(e + "::" + n, attr) == e + attr + "::" + n
  {
    IncludesChar(n, ':');
    if Includes(n, "::") {
      IncludesPair(n, ':', ':');
    }
    SingleDoubleColonBranch(e, n, attr);
    var r := e + attr + "::" + n;
    assert ',' !in e + "::" + n;
    SingleBranchList(e + "::" + n, attr, r);
  }

  /** In `a + [c] + p + [c] + q`, with `c` nowhere else, `c` stands at two places. */
  lemma TwoMarks(a: string, p: string, q: string, c: char, j: int)
    requires c !in a && c !in p && c !in q
    requires 0 <= j < |a + [c] + p + [c] + q|
    ensures (a + [c] + p + [c] + q)[j] == c <==> j == |a| || j == |a| + 1 + |p|
  {
    var text := a + [c] + p + [c] + q;
    if j < |a| {
      assert text[j] == a[j];
    } else if |a| < j < |a| + 1 + |p| {
      assert text[j] == p[j - |a| - 1];
    } else if j > |a| + 1 + |p| {
      assert text[j] == q[j - |a| - 2 - |p|];
    }
  }

  /** Two marks with something between them never make the doubled mark. */
  lemma NoDoubledMark(a: string, p: string, q: string, c: char)
    requires c !in a && c !in p && c !in q && |p| > 0
    ensures !Includes(a + [c] + p + [c] + q, [c, c])
  {
    var text := a + [c] + p + [c] + q;
    forall i | 0 <= i ensures !OccursAt(text, [c, c], i) {
      if i + 2 <= |text| {
        TwoMarks(a, p, q, c, i);
        TwoMarks(a, p, q, c, i + 1);
        assert text[i..i + 2][0] == text[i] && text[i..i + 2][1] == text[i + 1];
      }
    }
  }

  /** Deleting the one `c` from `p + [c] + q`. */
  lemma WithoutOneMark(p: string, q: string, c: char)
    requires c !in p && c !in q
    ensures Without(p + [c] + q, c) == p + q
  {
    WithoutAround(p, q, c);
    WithoutAbsent(p, c);
    WithoutAbsent(q, c);
  }

  /** The branch "a:p:q" loses its second colon. */
  lemma ChainedBranch(a: string, p: string, q: string, attr: string)
    requires ':' !in a && ':' !in p && ':' !in q && |p| > 0
    ensures ScopeBranch(a + ":" + p + ":" + q, attr) == a + attr + ":" + (p + q) + ", "
  {
    var text := a + ":" + p + ":" + q;
    var rest := p + ":" + q;
    assert text == a + [':'] + rest;
    assert text[..|a|] == a && text[|a| + 1..] == rest;
    NoDoubledMark(a, p, q, ':');
    IndexOfChar(text, ':', |a|);
    WithoutOneMark(p, q, ':');
    PseudoClassBranch(text, attr);
  }

  /** "a:p:q" (a:hover:focus): every colon after the first vanishes, so two
      chained pseudo-classes are glued into one name. */
  lemma ChainedPseudoClasses(a: string, p: string, q: string, attr: string)
    requires ',' !in a && ',' !in p && ',' !in q && ':' !in a && ':' !in p && ':' !in q
    requires |a| > 0 && !IsWhitespace(a[0]) && |p| > 0
    ensures ScopeSelectorList(a + ":" + p + ":" + q, attr) == a + attr + ":" + p + q
  {
    ChainedBranch(a, p, q, attr);
    assert ',' !in a + ":" + p + ":" + q;
    SingleBranchList(a + ":" + p + ":" + q, attr, a + attr + ":" + (p + q));
  }
}

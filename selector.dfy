/** The selector rewriter of `StyleScopeFactory`: it qualifies every branch of
    a comma-separated selector list with a scope attribute selector such as
    `[data-scope-abc]`. */
module Selector {
  import opened JsString

  /** `scopeCssPseudoElementSelector`: split the branch on "::", put
      `scopeAttr + "::"` in as the second piece, glue the pieces together and
      add the ", " separator. */
  function ScopePseudoElement(selector: string, scopeAttr: string): string {
    var exploded := Split(selector, "::");
    Concat(exploded[..1] + [scopeAttr + "::"] + exploded[1..]) + ", "
  }

  /** `scopeCssPseudoClassSelector`: the same with ":" as the split point. */
  function ScopePseudoClass(selector: string, scopeAttr: string): string {
    var exploded := Split(selector, ":");
    Concat(exploded[..1] + [scopeAttr + ":"] + exploded[1..]) + ", "
  }

  /** What the reducer of `scopeCssSelectorString` adds for one branch. The
      pseudo-element test comes first; only a plain branch is trimmed. */
  function ScopeBranch(selector: string, scopeAttr: string): string {
    if Includes(selector, "::") then ScopePseudoElement(selector, scopeAttr)
    else if Includes(selector, ":") then ScopePseudoClass(selector, scopeAttr)
    else Trim(selector) + scopeAttr + ", "
  }

  /** The `reduce` over the branches, starting from the empty string. */
  function ScopeBranches(selectors: seq<string>, scopeAttr: string): string {
    if |selectors| == 0 then ""
    else ScopeBranch(selectors[0], scopeAttr) + ScopeBranches(selectors[1..], scopeAttr)
  }

  /** `scopeCssSelectorString`: split on ",", rewrite each branch, trim the
      whole and strip the last character (the trailing comma). */
  function ScopeSelectorList(selectorText: string, scopeAttr: string): string {
    DropLast(Trim(ScopeBranches(Split(selectorText, ","), scopeAttr)))
  }

  // ---------------------------------------------------------------------
  // Reference definition: where the scope attribute goes in one branch.

  /** The rewritten branch, without its separator, stated as an insertion
      that does not split or join: before the first "::" if there is one
      (later non-overlapping "::" are deleted), else before the first ":"
      (later ":" are deleted), else after the trimmed branch. */
  function BranchResult(selector: string, scopeAttr: string): string {
    if Includes(selector, "::") then
      var i := IndexOf(selector, "::");
      selector[..i] + scopeAttr + "::" + WithoutPair(selector[i + 2..], ':', ':')
    else if Includes(selector, ":") then
      var i := IndexOf(selector, ":");
      selector[..i] + scopeAttr + ":" + Without(selector[i + 1..], ':')
    else
      Trim(selector) + scopeAttr
  }

  function BranchResults(selectors: seq<string>, scopeAttr: string): (r: seq<string>)
    ensures |r| == |selectors|
    ensures forall k :: 0 <= k < |r| ==> r[k] == BranchResult(selectors[k], scopeAttr)
  {
    if |selectors| == 0 then [] else [BranchResult(selectors[0], scopeAttr)] + BranchResults(selectors[1..], scopeAttr)
  }

  // ---------------------------------------------------------------------
  // Lemmas

  /** Gluing the split pieces back with the scope attribute as second piece
      puts the attribute right before the first separator. */
  lemma InsertAtFirst(selector: string, sep: string, scopeAttr: string)
    requires |sep| > 0 && Includes(selector, sep)
    ensures var exploded := Split(selector, sep);
            var i := IndexOf(selector, sep);
            Concat(exploded[..1] + [scopeAttr + sep] + exploded[1..])
              == selector[..i] + scopeAttr + sep + Concat(Split(selector[i + |sep|..], sep))
  {
    var i := IndexOf(selector, sep);
    var tail := Split(selector[i + |sep|..], sep);
    var exploded := Split(selector, sep);
    assert exploded == [selector[..i]] + tail;
    assert exploded[..1] + [scopeAttr + sep] + exploded[1..] == [selector[..i], scopeAttr + sep] + tail;
    ConcatAppend([selector[..i], scopeAttr + sep], tail);
  }

  /** Every branch contributes its reference result followed by ", ". */
  lemma ScopeBranchIsInsertion(selector: string, scopeAttr: string)
    ensures ScopeBranch(selector, scopeAttr) == BranchResult(selector, scopeAttr) + ", "
  {
    if Includes(selector, "::") {
      var i := IndexOf(selector, "::");
      assert ScopePseudoElement(selector, scopeAttr)
               == selector[..i] + scopeAttr + "::" + WithoutPair(selector[i + 2..], ':', ':') + ", " by {
        InsertAtFirst(selector, "::", scopeAttr);
        SplitPair(selector[i + 2..], ':', ':');
      }
    } else if Includes(selector, ":") {
      var i := IndexOf(selector, ":");
      assert ScopePseudoClass(selector, scopeAttr)
               == selector[..i] + scopeAttr + ":" + Without(selector[i + 1..], ':') + ", " by {
        InsertAtFirst(selector, ":", scopeAttr);
        SplitChar(selector[i + 1..], ':');
      }
    }
  }

  /** A branch without any colon is trimmed and gets the attribute appended. */
  lemma PlainBranch(selector: string, scopeAttr: string)
    requires ':' !in selector
    ensures ScopeBranch(selector, scopeAttr) == Trim(selector) + scopeAttr + ", "
  {
    IncludesChar(selector, ':');
    if Includes(selector, "::") {
      IncludesPair(selector, ':', ':');
    }
  }

  /** A branch with "::" gets the attribute right before its first "::"; with
      only one "::" the rest of the branch is kept as it is. */
  lemma PseudoElementBranch(selector: string, scopeAttr: string)
    requires Includes(selector, "::")
    ensures var i := IndexOf(selector, "::");
            && ScopeBranch(selector, scopeAttr)
                 == selector[..i] + scopeAttr + "::" + WithoutPair(selector[i + 2..], ':', ':') + ", "
            && (!Includes(selector[i + 2..], "::") ==>
                  ScopeBranch(selector, scopeAttr) == selector[..i] + scopeAttr + selector[i..] + ", ")
  {
    var i := IndexOf(selector, "::");
    var rest := selector[i + 2..];
    var kept := WithoutPair(rest, ':', ':');
    assert ScopeBranch(selector, scopeAttr) == selector[..i] + scopeAttr + "::" + kept + ", " by {
      ScopeBranchIsInsertion(selector, scopeAttr);
    }
    if !Includes(rest, "::") {
      assert kept == rest by {
        WithoutPairAbsent(rest, ':', ':');
      }
      PairKept(selector, i, ':', scopeAttr);
    }
  }

  /** Putting the pair back after the attribute restores `selector[i..]`. */
  lemma PairKept(selector: string, i: int, c: char, scopeAttr: string)
    requires OccursAt(selector, [c, c], i)
    ensures selector[..i] + scopeAttr + [c, c] + selector[i + 2..] == selector[..i] + scopeAttr + selector[i..]
  {
    assert selector[i..] == [c, c] + selector[i + 2..];
  }

  /** With a single "::" and no colon before it the rest of the branch is kept as it is. */
  lemma SingleDoubleColonBranch(before: string, after: string, scopeAttr: string)
    requires ':' !in before && !Includes(after, "::")
    ensures ScopeBranch(before + "::" + after, scopeAttr) == before + scopeAttr + "::" + after + ", "
  {
    var selector := before + "::" + after;
    assert selector[..|before|] == before && selector[|before|..] == "::" + after;
    forall j | 0 <= j < |before| ensures !OccursAt(selector, "::", j) {
      assert selector[j] == before[j];
    }
    IndexOfIs(selector, "::", |before|);
    assert selector[|before| + 2..] == after;
    PseudoElementBranch(selector, scopeAttr);
  }

  /** A branch with ":" but no "::" gets the attribute right before its first
      ":", and every later ":" is dropped. */
  lemma PseudoClassBranch(selector: string, scopeAttr: string)
    requires !Includes(selector, "::") && ':' in selector
    ensures var i := IndexOf(selector, ":");
            && 0 <= i < |selector| && selector[i] == ':' && ':' !in selector[..i]
            && ScopeBranch(selector, scopeAttr)
                 == selector[..i] + scopeAttr + ":" + Without(selector[i + 1..], ':') + ", "
  {
    IncludesChar(selector, ':');
    var i := IndexOf(selector, ":");
    FirstColon(selector, i);
    ScopeBranchIsInsertion(selector, scopeAttr);
  }

  /** With a single ":" and no "::" the rest of the branch is kept as it is. */
  lemma SingleColonBranch(before: string, after: string, scopeAttr: string)
    requires ':' !in before && ':' !in after
    ensures ScopeBranch(before + ":" + after, scopeAttr) == before + scopeAttr + ":" + after + ", "
  {
    var selector := before + ":" + after;
    assert selector == before + [':'] + after;
    assert selector[..|before|] == before && selector[|before| + 1..] == after;
    assert multiset(selector)[':'] == 1;
    if Includes(selector, "::") {
      IncludesPair(selector, ':', ':');
    }
    IndexOfChar(selector, ':', |before|);
    PseudoClassBranch(selector, scopeAttr);
    WithoutAbsent(after, ':');
  }

  lemma FirstColon(selector: string, i: int)
    requires i == IndexOf(selector, ":") && i >= 0
    ensures 0 <= i < |selector| && selector[i] == ':' && ':' !in selector[..i]
  {
    OccursAtChar(selector, ':', i);
    forall j | 0 <= j < i ensures selector[..i][j] != ':' {
      OccursAtChar(selector, ':', j);
    }
  }

  /** The reducer's output is the branch results joined by ", ", with one
      more ", " at the end. */
  lemma {:induction false} ScopeBranchesJoin(selectors: seq<string>, scopeAttr: string)
    requires |selectors| >= 1
    ensures ScopeBranches(selectors, scopeAttr) == Join(BranchResults(selectors, scopeAttr), ", ") + ", "
  {
    ScopeBranchIsInsertion(selectors[0], scopeAttr);
    var results := BranchResults(selectors, scopeAttr);
    if |selectors| > 1 {
      ScopeBranchesJoin(selectors[1..], scopeAttr);
      assert results[1..] == BranchResults(selectors[1..], scopeAttr);
    }
  }

  /** `scopeCssSelectorString` yields one rewritten branch per comma-separated
      branch, joined by ", ", with leading whitespace trimmed and no trailing
      separator. */
  lemma ScopeSelectorListJoinsBranches(selectorText: string, scopeAttr: string)
    ensures |Split(selectorText, ",")| == multiset(selectorText)[','] + 1
    ensures ScopeSelectorList(selectorText, scopeAttr)
              == TrimStart(Join(BranchResults(Split(selectorText, ","), scopeAttr), ", "))
  {
    SplitChar(selectorText, ',');
    var joined := Join(BranchResults(Split(selectorText, ","), scopeAttr), ", ");
    ScopeBranchesJoin(Split(selectorText, ","), scopeAttr);
    assert joined + ", " == joined + [','] + " ";
    TrimEndAfter(joined, ',', " ");
    TrimStartBefore(joined, ',');
  }
}

/** `walk` from utils.js: a pre-order traversal that hands every node it
    reaches to a callback and descends into the node's children, left to
    right, unless the callback answered `false`. Nodes are named by their
    paths, so the visit list is the sequence of paths in callback order. */
module Walk {
  import opened Dom

  /** The callback's answer for a node, given its path from the walk's root:
      `true` unless the callback returned `false`. */
  type Descend = (Path, Element) -> bool

  /** The paths `walk` passes to the callback, in order, for the subtree `t`
      found at `path`. */
  function WalkOrder(t: Element, path: Path, descend: Descend): seq<Path>
    decreases t, 1, 0
  {
    [path] + (if descend(path, t) then WalkChildren(t, path, 0, descend) else [])
  }

  /** The walks of the children of `t` from index `from` on, one after the other. */
  function WalkChildren(t: Element, path: Path, from: nat, descend: Descend): seq<Path>
    decreases t, 0, |t.children| - from
  {
    if from >= |t.children| then []
    else WalkOrder(t.children[from], path + [from], descend) + WalkChildren(t, path, from + 1, descend)
  }

  /** `walk(el, callback)`: the callback on `el`, then, unless it said
      `false`, a walk of each child from the first to the last. */
  method Walk(t: Element, path: Path, descend: Descend) returns (visits: seq<Path>)
    ensures visits == WalkOrder(t, path, descend)
    decreases t
  {
    visits := [path];
    if !descend(path, t) {
      return;
    }
    var i := 0;
    while i < |t.children|
      invariant 0 <= i <= |t.children|
      invariant visits + WalkChildren(t, path, i, descend) == WalkOrder(t, path, descend)
    {
      var sub := Walk(t.children[i], path + [i], descend);
      visits := visits + sub;
      i := i + 1;
    }
  }

  /** The node at relative path `p` below `t` (which sits at `base`) is
      reached: every node on the way down, `t` included and the node itself
      excluded, answered other than `false`. */
  predicate Reached(t: Element, base: Path, p: Path, descend: Descend)
    decreases |p|
  {
    |p| == 0
    || (descend(base, t) && p[0] < |t.children|
        && Reached(t.children[p[0]], base + [p[0]], p[1..], descend))
  }

  /** Paths in document order: a proper prefix comes first, otherwise the
      smaller index at the first difference. */
  predicate LexLess(p: Path, q: Path)
    decreases |p|
  {
    |q| > 0 && (|p| == 0 || p[0] < q[0] || (p[0] == q[0] && LexLess(p[1..], q[1..])))
  }

  predicate Increasing(s: seq<Path>) {
    forall i, j :: 0 <= i < j < |s| ==> LexLess(s[i], s[j])
  }

  // ---------------------------------------------------------------------
  // Lemmas about document order

  lemma {:induction false} LexLessIrreflexive(p: Path)
    ensures !LexLess(p, p)
    decreases |p|
  {
    if |p| > 0 {
      LexLessIrreflexive(p[1..]);
    }
  }

  lemma {:induction false} LexLessAsymmetric(p: Path, q: Path)
    requires LexLess(p, q)
    ensures !LexLess(q, p)
    decreases |p|
  {
    if |p| > 0 && p[0] == q[0] {
      LexLessAsymmetric(p[1..], q[1..]);
    }
  }

  /** A proper prefix comes first. */
  lemma {:induction false} PrefixLess(p: Path, q: Path)
    requires |p| < |q| && q[..|p|] == p
    ensures LexLess(p, q)
    decreases |p|
  {
    if |p| > 0 {
      assert q[1..][..|p| - 1] == p[1..];
      PrefixLess(p[1..], q[1..]);
    }
  }

  /** At the first difference, the smaller index comes first. */
  lemma {:induction false} DifferLess(p: Path, q: Path, k: nat)
    requires k < |p| && k < |q| && p[..k] == q[..k] && p[k] < q[k]
    ensures LexLess(p, q)
    decreases k
  {
    if k > 0 {
      assert p[0] == p[..k][0] == q[..k][0] == q[0];
      assert p[1..][..k - 1] == q[1..][..k - 1];
      DifferLess(p[1..], q[1..], k - 1);
    }
  }

  lemma IncreasingAppend(a: seq<Path>, b: seq<Path>)
    requires Increasing(a) && Increasing(b)
    requires forall x, y :: x in a && y in b ==> LexLess(x, y)
    ensures Increasing(a + b)
  {
    var s := a + b;
    forall i, j | 0 <= i < j < |s| ensures LexLess(s[i], s[j]) {
      if j < |a| {
        assert s[i] == a[i] && s[j] == a[j];
      } else if i >= |a| {
        assert s[i] == b[i - |a|] && s[j] == b[j - |a|];
      } else {
        assert s[i] == a[i] && s[j] == b[j - |a|];
      }
    }
  }

  // ---------------------------------------------------------------------
  // Lemmas about the walk

  /** Every path the walk of `t` at `base` visits starts with `base`; those
      below the children from index `from` on extend it by an index of at
      least `from`. */
  lemma {:induction false} WalkOrderPrefix(t: Element, base: Path, descend: Descend)
    ensures forall q :: q in WalkOrder(t, base, descend) ==> |base| <= |q| && q[..|base|] == base
    decreases t, 1, 0
  {
    if descend(base, t) {
      WalkChildrenPrefix(t, base, 0, descend);
    }
  }

  lemma {:induction false} WalkChildrenPrefix(t: Element, base: Path, from: nat, descend: Descend)
    ensures forall q :: q in WalkChildren(t, base, from, descend) ==>
              |base| < |q| && q[..|base|] == base && from <= q[|base|] < |t.children|
    decreases t, 0, |t.children| - from
  {
    if from < |t.children| {
      var child := base + [from];
      WalkOrderPrefix(t.children[from], child, descend);
      WalkChildrenPrefix(t, base, from + 1, descend);
      forall q | q in WalkOrder(t.children[from], child, descend)
        ensures |base| < |q| && q[..|base|] == base && q[|base|] == from
      {
        assert q[..|base|] == q[..|child|][..|base|];
        assert q[|base|] == q[..|child|][|base|];
      }
    }
  }

  /** The walk visits each node at most once, every node before its
      descendants, and siblings' subtrees from left to right: its visit list
      is strictly increasing in document order. */
  lemma {:induction false} WalkOrderIncreasing(t: Element, base: Path, descend: Descend)
    ensures Increasing(WalkOrder(t, base, descend))
    decreases t, 1, 0
  {
    if descend(base, t) {
      WalkChildrenIncreasing(t, base, 0, descend);
      WalkChildrenPrefix(t, base, 0, descend);
      forall y | y in WalkChildren(t, base, 0, descend) ensures LexLess(base, y) {
        PrefixLess(base, y);
      }
      IncreasingAppend([base], WalkChildren(t, base, 0, descend));
    }
  }

  lemma {:induction false} WalkChildrenIncreasing(t: Element, base: Path, from: nat, descend: Descend)
    ensures Increasing(WalkChildren(t, base, from, descend))
    decreases t, 0, |t.children| - from
  {
    if from < |t.children| {
      var child := base + [from];
      var first := WalkOrder(t.children[from], child, descend);
      var rest := WalkChildren(t, base, from + 1, descend);
      WalkOrderIncreasing(t.children[from], child, descend);
      WalkChildrenIncreasing(t, base, from + 1, descend);
      WalkOrderPrefix(t.children[from], child, descend);
      WalkChildrenPrefix(t, base, from + 1, descend);
      forall x, y | x in first && y in rest ensures LexLess(x, y) {
        assert x[..|base|] == x[..|child|][..|base|];
        assert x[|base|] == x[..|child|][|base|];
        DifferLess(x, y, |base|);
      }
      IncreasingAppend(first, rest);
    }
  }

  /** Each node is visited exactly once: no path occurs twice. */
  lemma WalkOrderDistinct(t: Element, base: Path, descend: Descend)
    ensures var s := WalkOrder(t, base, descend);
            forall i, j :: 0 <= i < j < |s| ==> s[i] != s[j]
  {
    var s := WalkOrder(t, base, descend);
    WalkOrderIncreasing(t, base, descend);
    forall i, j | 0 <= i < j < |s| ensures s[i] != s[j] {
      LexLessIrreflexive(s[i]);
    }
  }

  /** Pre-order: a node is visited before every visited descendant. */
  lemma WalkOrderPreOrder(t: Element, base: Path, descend: Descend, i: int, j: int)
    requires var s := WalkOrder(t, base, descend);
             0 <= i < |s| && 0 <= j < |s| && |s[i]| < |s[j]| && s[j][..|s[i]|] == s[i]
    ensures i < j
  {
    var s := WalkOrder(t, base, descend);
    WalkOrderIncreasing(t, base, descend);
    PrefixLess(s[i], s[j]);
    if j < i {
      LexLessAsymmetric(s[j], s[i]);
    }
  }

  /** A path is visited exactly when it lies below the walk's root and every
      node above it answered other than `false`: a `false` prunes the whole
      subtree below that node, and any other answer lets the walk in. */
  lemma {:induction false} WalkVisits(t: Element, base: Path, descend: Descend, q: Path)
    ensures q in WalkOrder(t, base, descend) <==>
              |base| <= |q| && q[..|base|] == base && Reached(t, base, q[|base|..], descend)
    decreases t, 1, 0
  {
    if |base| <= |q| && q[..|base|] == base && |q| > |base| {
      var p := q[|base|..];
      assert p[0] == q[|base|] && p[1..] == q[|base| + 1..];
    }
    if |base| <= |q| && q[..|base|] == base && |q| == |base| {
      assert q == base;
    }
    if descend(base, t) {
      WalkChildrenVisits(t, base, 0, descend, q);
    }
  }

  lemma {:induction false} WalkChildrenVisits(t: Element, base: Path, from: nat, descend: Descend, q: Path)
    ensures q in WalkChildren(t, base, from, descend) <==>
              |base| < |q| && q[..|base|] == base && from <= q[|base|] < |t.children|
              && Reached(t.children[q[|base|]], base + [q[|base|]], q[|base| + 1..], descend)
    decreases t, 0, |t.children| - from
  {
    if from < |t.children| {
      var child := base + [from];
      WalkVisits(t.children[from], child, descend, q);
      WalkChildrenVisits(t, base, from + 1, descend, q);
      if |base| < |q| {
        assert q[..|child|] == child <==> q[..|base|] == base && q[|base|] == from by {
          if q[..|child|] == child {
            assert q[..|base|] == q[..|child|][..|base|];
            assert q[|base|] == q[..|child|][|base|];
          }
          if q[..|base|] == base && q[|base|] == from {
            assert q[..|child|] == q[..|base|] + [q[|base|]];
          }
        }
      }
    }
  }
}

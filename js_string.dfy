/** The handful of JavaScript string operations the scoper relies on:
    `includes`, `split` (with a non-empty separator), `join`, `trim` and
    `slice(0, -1)`, on strings as sequences of code points. */
module JsString {

  /** WhiteSpace and LineTerminator code points of ECMAScript, the set that
      `String.prototype.trim` strips. */
  predicate IsWhitespace(c: char) {
    || c == '\t' || c == '\n' || c == '\U{B}' || c == '\U{C}' || c == '\r'
    || c == ' ' || c == '\U{A0}' || c == '\U{1680}'
    || ('\U{2000}' <= c <= '\U{200A}')
    || c == '\U{2028}' || c == '\U{2029}' || c == '\U{202F}' || c == '\U{205F}'
    || c == '\U{3000}' || c == '\U{FEFF}'
  }

  /** `s.trimStart()`: the suffix of `s` left after dropping leading whitespace. */
  function TrimStart(s: string): (r: string)
    ensures |r| <= |s| && r == s[|s| - |r|..]
    ensures r == [] || !IsWhitespace(r[0])
  {
    if |s| > 0 && IsWhitespace(s[0]) then TrimStart(s[1..]) else s
  }

  /** `s.trimEnd()`: the prefix of `s` left after dropping trailing whitespace. */
  function TrimEnd(s: string): (r: string)
    ensures |r| <= |s| && r == s[..|r|]
    ensures r == [] || !IsWhitespace(r[|r| - 1])
  {
    if |s| > 0 && IsWhitespace(s[|s| - 1]) then TrimEnd(s[..|s| - 1]) else s
  }

  /** `s.trim()`. */
  function Trim(s: string): string {
    TrimStart(TrimEnd(s))
  }

  /** What `trimStart` drops is whitespace. */
  lemma {:induction false} TrimStartDropsWhitespace(s: string)
    ensures forall i :: 0 <= i < |s| - |TrimStart(s)| ==> IsWhitespace(s[i])
  {
    if |s| > 0 && IsWhitespace(s[0]) {
      var t := s[1..];
      TrimStartDropsWhitespace(t);
      forall i | 1 <= i < |s| - |TrimStart(s)| ensures IsWhitespace(s[i]) {
        assert s[i] == t[i - 1];
      }
    }
  }

  /** What `trimEnd` drops is whitespace. */
  lemma {:induction false} TrimEndDropsWhitespace(s: string)
    ensures forall i :: |TrimEnd(s)| <= i < |s| ==> IsWhitespace(s[i])
  {
    if |s| > 0 && IsWhitespace(s[|s| - 1]) {
      var t := s[..|s| - 1];
      TrimEndDropsWhitespace(t);
      forall i | |TrimEnd(s)| <= i < |s| - 1 ensures IsWhitespace(s[i]) {
        assert s[i] == t[i];
      }
    }
  }

  /** A string that neither starts nor ends with whitespace is its own trim. */
  lemma TrimUnchanged(s: string)
    requires |s| > 0 && !IsWhitespace(s[0]) && !IsWhitespace(s[|s| - 1])
    ensures Trim(s) == s
  {
  }

  /** `s.slice(0, -1)`: everything but the last code point ("" stays ""). */
  function DropLast(s: string): (r: string)
    ensures |s| > 0 ==> s == r + [s[|s| - 1]]
    ensures |s| == 0 ==> r == []
  {
    if |s| == 0 then s else s[..|s| - 1]
  }

  /** `sep` occurs in `s` starting at index `i`. */
  predicate OccursAt(s: string, sep: string, i: int) {
    0 <= i && i + |sep| <= |s| && s[i..i + |sep|] == sep
  }

  /** The first index at or after `from` at which `sep` occurs, or -1. */
  function IndexOfFrom(s: string, sep: string, from: nat): (r: int)
    requires |sep| > 0 && from <= |s|
    ensures r == -1 || (from <= r && OccursAt(s, sep, r))
    ensures forall j :: from <= j && (r < 0 || j < r) ==> !OccursAt(s, sep, j)
    decreases |s| - from
  {
    if from + |sep| > |s| then -1
    else if OccursAt(s, sep, from) then from
    else IndexOfFrom(s, sep, from + 1)
  }

  /** `s.indexOf(sep)`: the first index at which `sep` occurs, or -1. */
  function IndexOf(s: string, sep: string): int
    requires |sep| > 0
  {
    IndexOfFrom(s, sep, 0)
  }

  /** `s.includes(sep)`. */
  predicate Includes(s: string, sep: string)
    requires |sep| > 0
  {
    IndexOf(s, sep) >= 0
  }

  /** `s.split(sep)` for a non-empty separator: the pieces between the
      non-overlapping occurrences of `sep`, scanned left to right. */
  function Split(s: string, sep: string): (parts: seq<string>)
    requires |sep| > 0
    ensures |parts| >= 1
    decreases |s|
  {
    var i := IndexOf(s, sep);
    if i < 0 then [s] else [s[..i]] + Split(s[i + |sep|..], sep)
  }

  /** `parts.join(sep)`. */
  function Join(parts: seq<string>, sep: string): string {
    if |parts| == 0 then ""
    else if |parts| == 1 then parts[0]
    else parts[0] + sep + Join(parts[1..], sep)
  }

  /** `parts.join('')`. */
  function Concat(parts: seq<string>): string {
    if |parts| == 0 then "" else parts[0] + Concat(parts[1..])
  }

  /** `s` with the non-overlapping occurrences of the pair `a b` removed,
      scanned left to right. */
  function WithoutPair(s: string, a: char, b: char): (r: string)
    ensures |r| <= |s|
  {
    if |s| < 2 then s
    else if s[0] == a && s[1] == b then WithoutPair(s[2..], a, b)
    else [s[0]] + WithoutPair(s[1..], a, b)
  }

  /** `s` with every occurrence of `c` removed. */
  function Without(s: string, c: char): (r: string)
    ensures c !in r
  {
    if |s| == 0 then s
    else (if s[0] == c then "" else [s[0]]) + Without(s[1..], c)
  }

  // ---------------------------------------------------------------------
  // Lemmas

  lemma {:induction false} ConcatAppend(a: seq<string>, b: seq<string>)
    ensures Concat(a + b) == Concat(a) + Concat(b)
  {
    if |a| == 0 {
      assert a + b == b;
    } else {
      assert (a + b)[1..] == a[1..] + b;
      ConcatAppend(a[1..], b);
    }
  }

  /** `join('')` is `join` with the empty separator. */
  lemma {:induction false} ConcatIsJoin(parts: seq<string>)
    ensures Concat(parts) == Join(parts, "")
  {
    if |parts| > 1 {
      ConcatIsJoin(parts[1..]);
    }
  }

  /** An occurrence in `s[1..]` is one in `s`, one place further on. */
  lemma OccursAtShift(s: string, sep: string, j: int)
    requires |s| >= 1 && j >= 0
    ensures OccursAt(s[1..], sep, j) <==> OccursAt(s, sep, j + 1)
  {
    if j + |sep| <= |s| - 1 {
      assert s[1..][j..j + |sep|] == s[j + 1..j + 1 + |sep|];
    }
  }

  /** Without the pair at the front, the pair deletion keeps the first code point. */
  lemma WithoutPairStep(s: string, a: char, b: char)
    requires |s| >= 1 && !OccursAt(s, [a, b], 0)
    ensures WithoutPair(s, a, b) == [s[0]] + WithoutPair(s[1..], a, b)
  {
    if |s| >= 2 {
      assert s[0..2] == [s[0], s[1]];
    } else {
      assert s == [s[0]] + s[1..];
    }
  }

  /** No pair occurs before `i`: the pair deletion keeps `s[..i]` as it is. */
  lemma {:induction false} WithoutPairPrefix(s: string, a: char, b: char, i: int)
    requires 0 <= i <= |s|
    requires forall j :: 0 <= j < i ==> !OccursAt(s, [a, b], j)
    ensures WithoutPair(s, a, b) == s[..i] + WithoutPair(s[i..], a, b)
    decreases i
  {
    if i > 0 {
      var t := s[1..];
      WithoutPairStep(s, a, b);
      forall j | 0 <= j < i - 1 ensures !OccursAt(t, [a, b], j) {
        OccursAtShift(s, [a, b], j);
      }
      WithoutPairPrefix(t, a, b, i - 1);
      assert t[i - 1..] == s[i..];
      assert [s[0]] + t[..i - 1] == s[..i];
    }
  }

  /** Splitting on a two-code-point separator and gluing the pieces together
      deletes its non-overlapping occurrences, left to right. */
  lemma {:induction false} SplitPair(s: string, a: char, b: char)
    ensures Concat(Split(s, [a, b])) == WithoutPair(s, a, b)
    decreases |s|
  {
    var i := IndexOf(s, [a, b]);
    if i < 0 {
      WithoutPairPrefix(s, a, b, |s|);
      assert s[..|s|] == s && s[|s|..] == [];
    } else {
      var rest := s[i + 2..];
      WithoutPairPrefix(s, a, b, i);
      assert s[i..][..2] == [a, b] && s[i..][2..] == rest;
      assert WithoutPair(s[i..], a, b) == WithoutPair(rest, a, b);
      SplitPair(rest, a, b);
      assert Split(s, [a, b]) == [s[..i]] + Split(rest, [a, b]);
      ConcatAppend([s[..i]], Split(rest, [a, b]));
    }
  }

  /** Deleting a pair that does not occur changes nothing. */
  lemma WithoutPairAbsent(s: string, a: char, b: char)
    requires !Includes(s, [a, b])
    ensures WithoutPair(s, a, b) == s
  {
    WithoutPairPrefix(s, a, b, |s|);
    assert s[..|s|] == s && s[|s|..] == [];
  }

  lemma {:induction false} WithoutAppend(a: string, b: string, c: char)
    ensures Without(a + b, c) == Without(a, c) + Without(b, c)
  {
    if |a| == 0 {
      assert a + b == b;
    } else {
      var ab := a + b;
      assert ab[0] == a[0] && ab[1..] == a[1..] + b;
      var head := if a[0] == c then "" else [a[0]];
      assert Without(ab, c) == head + Without(a[1..] + b, c);
      WithoutAppend(a[1..], b, c);
    }
  }

  lemma {:induction false} WithoutAbsent(s: string, c: char)
    requires c !in s
    ensures Without(s, c) == s
  {
    if |s| > 0 {
      WithoutAbsent(s[1..], c);
    }
  }

  /** Deleting `c` from `[c]` leaves nothing. */
  lemma WithoutSelf(c: char)
    ensures Without([c], c) == []
  {
    assert [c][1..] == [];
  }

  /** Deleting `c` around one occurrence of it. */
  lemma WithoutAround(p: string, q: string, c: char)
    ensures Without(p + [c] + q, c) == Without(p, c) + Without(q, c)
  {
    WithoutAppend(p + [c], q, c);
    WithoutAppend(p, [c], c);
    WithoutSelf(c);
  }

  /** The first index is unique: an occurrence with none before it is `indexOf`. */
  lemma IndexOfIs(s: string, sep: string, i: int)
    requires |sep| > 0 && OccursAt(s, sep, i)
    requires forall j :: 0 <= j < i ==> !OccursAt(s, sep, j)
    ensures IndexOf(s, sep) == i
  {
  }

  /** A single-code-point separator occurs exactly where that code point stands. */
  lemma OccursAtChar(s: string, c: char, j: int)
    requires 0 <= j < |s|
    ensures OccursAt(s, [c], j) <==> s[j] == c
  {
    if s[j] == c {
      assert s[j..j + 1] == [c];
    }
  }

  lemma IncludesChar(s: string, c: char)
    ensures Includes(s, [c]) <==> c in s
  {
    var i := IndexOf(s, [c]);
    if i >= 0 {
      OccursAtChar(s, c, i);
    } else if c in s {
      var j :| 0 <= j < |s| && s[j] == c;
      OccursAtChar(s, c, j);
    }
  }

  /** The first `c` in `s` is at `i` when `s[i]` is `c` and no `c` comes before. */
  lemma IndexOfChar(s: string, c: char, i: int)
    requires 0 <= i < |s| && s[i] == c && c !in s[..i]
    ensures IndexOf(s, [c]) == i
  {
    OccursAtChar(s, c, i);
    forall j | 0 <= j < i ensures !OccursAt(s, [c], j) {
      OccursAtChar(s, c, j);
      assert s[j] == s[..i][j];
    }
    IndexOfIs(s, [c], i);
  }

  /** A string that includes a two-code-point separator holds at least two
      code points counted together, one for each of the separator's. */
  lemma IncludesPair(s: string, a: char, b: char)
    requires Includes(s, [a, b])
    ensures a == b ==> multiset(s)[a] >= 2
    ensures a in s && b in s
  {
    var i := IndexOf(s, [a, b]);
    assert s == s[..i] + [a, b] + s[i + 2..];
    assert multiset(s) == multiset(s[..i]) + multiset{a, b} + multiset(s[i + 2..]);
  }

  /** Round trip: joining the pieces of `s.split(sep)` with `sep` gives back `s`. */
  lemma {:induction false} SplitJoin(s: string, sep: string)
    requires |sep| > 0
    ensures Join(Split(s, sep), sep) == s
    decreases |s|
  {
    var i := IndexOf(s, sep);
    if i >= 0 {
      var rest := s[i + |sep|..];
      var tail := Split(rest, sep);
      SplitJoin(rest, sep);
      assert Split(s, sep) == [s[..i]] + tail;
      assert Join([s[..i]] + tail, sep) == s[..i] + sep + Join(tail, sep) by {
        assert ([s[..i]] + tail)[1..] == tail;
      }
      assert s == s[..i] + sep + rest;
    }
  }

  /** No piece of `s.split(sep)` contains `sep`. */
  lemma {:induction false} SplitPiecesFree(s: string, sep: string)
    requires |sep| > 0
    ensures forall k :: 0 <= k < |Split(s, sep)| ==> !Includes(Split(s, sep)[k], sep)
    decreases |s|
  {
    var i := IndexOf(s, sep);
    if i >= 0 {
      var rest := s[i + |sep|..];
      SplitPiecesFree(rest, sep);
      var head := s[..i];
      var j := IndexOf(head, sep);
      if j >= 0 {
        assert head[j..j + |sep|] == s[j..j + |sep|];
        assert OccursAt(s, sep, j);
        assert false;
      }
    }
  }

  /** A string without the separator splits into itself alone. */
  lemma SplitAbsent(s: string, sep: string)
    requires |sep| > 0 && !Includes(s, sep)
    ensures Split(s, sep) == [s]
  {
  }

  /** Splitting on a single code point `c` yields one more piece than there
      are `c`s, and gluing the pieces back together deletes every `c`. */
  lemma {:induction false} SplitChar(s: string, c: char)
    ensures |Split(s, [c])| == multiset(s)[c] + 1
    ensures Concat(Split(s, [c])) == Without(s, c)
    decreases |s|
  {
    var i := IndexOf(s, [c]);
    if i < 0 {
      IncludesChar(s, c);
      WithoutAbsent(s, c);
      assert multiset(s)[c] == 0;
    } else {
      var head, rest := s[..i], s[i + 1..];
      OccursAtChar(s, c, i);
      assert s == head + [c] + rest;
      assert c !in head by {
        forall j | 0 <= j < i ensures head[j] != c {
          OccursAtChar(s, c, j);
        }
      }
      SplitChar(rest, c);
      WithoutAbsent(head, c);
      WithoutAppend(head + [c], rest, c);
      WithoutAppend(head, [c], c);
      assert Without([c], c) == "";
      assert multiset(s) == multiset(head) + multiset{c} + multiset(rest);
      assert Split(s, [c]) == [head] + Split(rest, [c]);
      ConcatAppend([head], Split(rest, [c]));
    }
  }

  /** Trailing whitespace after a last non-whitespace code point is what `trimEnd` drops. */
  lemma {:induction false} TrimEndAfter(x: string, c: char, ws: string)
    requires !IsWhitespace(c) && forall k :: 0 <= k < |ws| ==> IsWhitespace(ws[k])
    ensures TrimEnd(x + [c] + ws) == x + [c]
    decreases |ws|
  {
    var s := x + [c] + ws;
    if |ws| == 0 {
      assert s == x + [c];
    } else {
      assert s[..|s| - 1] == x + [c] + ws[..|ws| - 1];
      TrimEndAfter(x, c, ws[..|ws| - 1]);
    }
  }

  /** `trimStart` of a string ending in a non-whitespace code point trims only its front. */
  lemma {:induction false} TrimStartBefore(x: string, c: char)
    requires !IsWhitespace(c)
    ensures TrimStart(x + [c]) == TrimStart(x) + [c]
  {
    if |x| > 0 && IsWhitespace(x[0]) {
      assert (x + [c])[1..] == x[1..] + [c];
      TrimStartBefore(x[1..], c);
    }
  }
}

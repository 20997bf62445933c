/** The part of the DOM the scoper touches: elements with their attribute
    lists, the component flag behind `__css_scope`, ordered element
    children, and the attribute operations `hasAttribute`, `getAttribute`,
    `setAttribute` and `removeAttribute`. */
module Dom {
  import opened Wrappers

  /** An attribute: a name and its value. */
  datatype Attr = Attr(name: string, value: string)

  /** An element: its attributes in order, whether a `Component` is already
      stored in its `__css_scope` field, and its element children in order. */
  datatype Element = Element(attrs: seq<Attr>, initialized: bool, children: seq<Element>)

  /** A node is named by the child indexes that lead to it from a root. */
  type Path = seq<nat>

  /** The attribute that marks a component root. */
  const CssScopeMarker: string := "data-css-scope"

  /** The prefix of the per-scope attribute `data-scope-<id>`. */
  const ScopePrefix: string := "data-scope-"

  /** What JavaScript's string conversion makes of an `Attr` object. */
  const AttrObjectString: string := "[object Attr]"

  // ---------------------------------------------------------------------
  // Attribute operations

  predicate HasAttribute(attrs: seq<Attr>, name: string) {
    exists a :: a in attrs && a.name == name
  }

  /** The index of the first attribute called `name`, or -1. */
  function IndexOfName(attrs: seq<Attr>, name: string): (r: int)
    ensures -1 <= r < |attrs|
    ensures r >= 0 ==> attrs[r].name == name && forall k :: 0 <= k < r ==> attrs[k].name != name
    ensures r < 0 <==> !HasAttribute(attrs, name)
  {
    if |attrs| == 0 then -1
    else if attrs[0].name == name then 0
    else
      var r := IndexOfName(attrs[1..], name);
      assert forall a :: a in attrs[1..] ==> a in attrs;
      if r < 0 then -1 else r + 1
  }

  /** `getAttribute(name)`: the value, or `None` for `null`. */
  function GetAttribute(attrs: seq<Attr>, name: string): (r: Option<string>)
    ensures r.Some? <==> HasAttribute(attrs, name)
    ensures r.Some? ==> Attr(name, r.value) in attrs
  {
    var i := IndexOfName(attrs, name);
    if i < 0 then None else Some(attrs[i].value)
  }

  /** `setAttribute(name, value)`: an existing attribute of that name keeps
      its place and takes the new value; otherwise the attribute is appended. */
  function SetAttribute(attrs: seq<Attr>, name: string, value: string): (r: seq<Attr>)
    ensures GetAttribute(r, name) == Some(value)
    ensures HasAttribute(attrs, name) ==> r == attrs[IndexOfName(attrs, name) := Attr(name, value)]
    ensures !HasAttribute(attrs, name) ==> r == attrs + [Attr(name, value)]
  {
    var i := IndexOfName(attrs, name);
    if i < 0 then
      var r := attrs + [Attr(name, value)];
      assert IndexOfName(r, name) == |attrs| by {
        IndexOfNameAfter(attrs, Attr(name, value));
      }
      r
    else
      var r := attrs[i := Attr(name, value)];
      assert r[..i] == attrs[..i];
      IndexOfNameAt(r, name, i);
      r
  }

  /** The attributes whose name is not in `names`, in order. */
  function RemoveNames(attrs: seq<Attr>, names: set<string>): (r: seq<Attr>)
    ensures |r| <= |attrs|
    ensures forall a :: a in r <==> a in attrs && a.name !in names
  {
    if |attrs| == 0 then []
    else (if attrs[0].name in names then [] else [attrs[0]]) + RemoveNames(attrs[1..], names)
  }

  /** `removeAttribute(name)`. */
  function RemoveAttribute(attrs: seq<Attr>, name: string): (r: seq<Attr>)
    ensures !HasAttribute(r, name)
    ensures forall a :: a in r <==> a in attrs && a.name != name
  {
    RemoveNames(attrs, {name})
  }

  // ---------------------------------------------------------------------
  // The scope attribute pattern /data-scope-[a-z0-9]+/

  predicate IsScopeChar(c: char) {
    'a' <= c <= 'z' || '0' <= c <= '9'
  }

  /** A scope id as `generateScopeId` draws them: base-36 digits. */
  predicate ValidScopeId(scope: string) {
    |scope| > 0 && forall k :: 0 <= k < |scope| ==> IsScopeChar(scope[k])
  }

  function ScopeAttrName(scope: string): string {
    ScopePrefix + scope
  }

  /** The pattern matches at `i`: "data-scope-" followed by one [a-z0-9]. */
  predicate PatternAt(name: string, i: int) {
    0 <= i && i + |ScopePrefix| < |name|
    && name[i..i + |ScopePrefix|] == ScopePrefix && IsScopeChar(name[i + |ScopePrefix|])
  }

  /** `attrRE.test(name)`: the pattern is not anchored, so it may match anywhere. */
  predicate MatchesScopePattern(name: string) {
    exists i | 0 <= i < |name| :: PatternAt(name, i)
  }

  /** `getScopeAttrs`: the attributes whose name matches the pattern, in order. */
  function ScopeAttrs(attrs: seq<Attr>): (r: seq<Attr>)
    ensures |r| <= |attrs|
    ensures forall a :: a in r <==> a in attrs && MatchesScopePattern(a.name)
  {
    if |attrs| == 0 then []
    else (if MatchesScopePattern(attrs[0].name) then [attrs[0]] else []) + ScopeAttrs(attrs[1..])
  }

  /** The attributes whose name does not match the pattern, in order. */
  function OtherAttrs(attrs: seq<Attr>): (r: seq<Attr>)
    ensures |r| <= |attrs|
    ensures forall a :: a in r <==> a in attrs && !MatchesScopePattern(a.name)
  {
    if |attrs| == 0 then []
    else (if MatchesScopePattern(attrs[0].name) then [] else [attrs[0]]) + OtherAttrs(attrs[1..])
  }

  predicate IsComponent(el: Element) {
    HasAttribute(el.attrs, CssScopeMarker)
  }

  // ---------------------------------------------------------------------
  // Paths

  predicate ValidPath(t: Element, p: Path) {
    |p| == 0 || (p[0] < |t.children| && ValidPath(t.children[p[0]], p[1..]))
  }

  /** The node `p` leads to. */
  function At(t: Element, p: Path): Element
    requires ValidPath(t, p)
  {
    if |p| == 0 then t else At(t.children[p[0]], p[1..])
  }

  // ---------------------------------------------------------------------
  // Lemmas

  lemma IndexOfNameAfter(attrs: seq<Attr>, a: Attr)
    requires !HasAttribute(attrs, a.name)
    ensures IndexOfName(attrs + [a], a.name) == |attrs|
  {
    var r := attrs + [a];
    assert r[|attrs|] == a;
    forall k | 0 <= k < |attrs| ensures r[k].name != a.name {
      assert r[k] == attrs[k];
    }
  }

  lemma IndexOfNameAt(attrs: seq<Attr>, name: string, i: int)
    requires 0 <= i < |attrs| && attrs[i].name == name
    requires forall k :: 0 <= k < i ==> attrs[k].name != name
    ensures IndexOfName(attrs, name) == i
  {
    if i > 0 {
      IndexOfNameAt(attrs[1..], name, i - 1);
    }
  }

  /** The id attribute `data-scope-<id>` of a valid id matches the pattern. */
  lemma ScopeAttrNameMatches(scope: string)
    requires ValidScopeId(scope)
    ensures MatchesScopePattern(ScopeAttrName(scope))
  {
    var name := ScopeAttrName(scope);
    assert name[..|ScopePrefix|] == ScopePrefix;
    assert name[|ScopePrefix|] == scope[0];
    assert PatternAt(name, 0);
  }

  /** The component marker is not a scope attribute, so scoping a component
      root keeps it a component root. */
  lemma MarkerIsNotScopeAttr()
    ensures !MatchesScopePattern(CssScopeMarker)
  {
    forall i | 0 <= i < |CssScopeMarker| ensures !PatternAt(CssScopeMarker, i) {
      if i + |ScopePrefix| < |CssScopeMarker| {
        var slice := CssScopeMarker[i..i + |ScopePrefix|];
        assert slice[0] == CssScopeMarker[i] && slice[5] == CssScopeMarker[i + 5];
        assert ScopePrefix[0] == 'd' && ScopePrefix[5] == 's';
        assert i == 0 ==> CssScopeMarker[5] == 'c';
        assert i > 0 ==> CssScopeMarker[i] != 'd';
      }
    }
  }

  /** `getScopeAttrs` splits over a concatenation without reordering. */
  lemma {:induction false} ScopeAttrsAppend(a: seq<Attr>, b: seq<Attr>)
    ensures ScopeAttrs(a + b) == ScopeAttrs(a) + ScopeAttrs(b)
  {
    if |a| == 0 {
      assert a + b == b;
    } else {
      assert (a + b)[0] == a[0] && (a + b)[1..] == a[1..] + b;
      ScopeAttrsAppend(a[1..], b);
    }
  }

  /** So does its complement. */
  lemma {:induction false} OtherAttrsAppend(a: seq<Attr>, b: seq<Attr>)
    ensures OtherAttrs(a + b) == OtherAttrs(a) + OtherAttrs(b)
  {
    if |a| == 0 {
      assert a + b == b;
    } else {
      assert (a + b)[0] == a[0] && (a + b)[1..] == a[1..] + b;
      OtherAttrsAppend(a[1..], b);
    }
  }

  /** Filtering twice by the same side of the pattern changes nothing more. */
  lemma {:induction false} OtherAttrsFilters(attrs: seq<Attr>)
    ensures OtherAttrs(OtherAttrs(attrs)) == OtherAttrs(attrs)
    ensures ScopeAttrs(OtherAttrs(attrs)) == []
  {
    if |attrs| > 0 {
      OtherAttrsFilters(attrs[1..]);
      var head := if MatchesScopePattern(attrs[0].name) then [] else [attrs[0]];
      assert OtherAttrs(attrs) == head + OtherAttrs(attrs[1..]);
      ScopeAttrsAppend(head, OtherAttrs(attrs[1..]));
      OtherAttrsAppend(head, OtherAttrs(attrs[1..]));
      if head != [] {
        assert head[1..] == [];
      }
    }
  }
}

/** `scopeElement`: strip every attribute matching the scope pattern from an
    element, then set `data-scope-<id>` to the empty string. The source hands
    each `Attr` object itself to `removeAttribute`; the corrected fold removes
    by the attribute's name, the as-written fold by the object's string form. */
module ScopeElement {
  import opened Wrappers
  import opened Dom

  /** The names of a list of attributes. */
  function NameSet(xs: seq<Attr>): set<string> {
    set a | a in xs :: a.name
  }

  /** `forEach(attr => el.removeAttribute(attr.name))`, one removal per entry. */
  function RemoveEach(attrs: seq<Attr>, xs: seq<Attr>): seq<Attr>
  {
    if |xs| == 0 then attrs
    else RemoveAttribute(RemoveEach(attrs, xs[..|xs| - 1]), xs[|xs| - 1].name)
  }

  /** `forEach(attr => el.removeAttribute(attr))` as written: the argument is
      converted to the string "[object Attr]". */
  function RemoveEachAsWritten(attrs: seq<Attr>, xs: seq<Attr>): seq<Attr>
  {
    if |xs| == 0 then attrs
    else RemoveAttribute(RemoveEachAsWritten(attrs, xs[..|xs| - 1]), AttrObjectString)
  }

  /** The attributes after the corrected `scopeElement(el, scope)`. */
  function ScopedAttrs(attrs: seq<Attr>, scope: string): seq<Attr> {
    SetAttribute(RemoveEach(attrs, ScopeAttrs(attrs)), ScopeAttrName(scope), "")
  }

  /** The attributes after `scopeElement(el, scope)` as written. */
  function ScopedAttrsAsWritten(attrs: seq<Attr>, scope: string): seq<Attr> {
    SetAttribute(RemoveEachAsWritten(attrs, ScopeAttrs(attrs)), ScopeAttrName(scope), "")
  }

  /** The corrected `scopeElement` as the loop it is. */
  method ScopeElementAttrs(attrs: seq<Attr>, scope: string) returns (r: seq<Attr>)
    requires ValidScopeId(scope)
    ensures r == OtherAttrs(attrs) + [Attr(ScopeAttrName(scope), "")]
  {
    var scopeAttrs := ScopeAttrs(attrs);
    r := attrs;
    for i := 0 to |scopeAttrs|
      invariant r == RemoveEach(attrs, scopeAttrs[..i])
    {
      assert scopeAttrs[..i + 1][..i] == scopeAttrs[..i];
      r := RemoveAttribute(r, scopeAttrs[i].name);
    }
    assert scopeAttrs[..|scopeAttrs|] == scopeAttrs;
    r := SetAttribute(r, ScopeAttrName(scope), "");
    ScopedAttrsShape(attrs, scope);
  }

  // ---------------------------------------------------------------------
  // Lemmas

  lemma {:induction false} RemoveNamesTwice(attrs: seq<Attr>, n: set<string>, m: set<string>)
    ensures RemoveNames(RemoveNames(attrs, n), m) == RemoveNames(attrs, n + m)
  {
    if |attrs| > 0 {
      RemoveNamesTwice(attrs[1..], n, m);
      var head := if attrs[0].name in n then [] else [attrs[0]];
      RemoveNamesAppend(head, RemoveNames(attrs[1..], n), m);
      if head != [] {
        assert head[1..] == [];
      }
    }
  }

  lemma {:induction false} RemoveNamesAppend(a: seq<Attr>, b: seq<Attr>, n: set<string>)
    ensures RemoveNames(a + b, n) == RemoveNames(a, n) + RemoveNames(b, n)
  {
    if |a| == 0 {
      assert a + b == b;
    } else {
      assert (a + b)[0] == a[0] && (a + b)[1..] == a[1..] + b;
      RemoveNamesAppend(a[1..], b, n);
    }
  }

  /** Removing names one by one removes exactly the set of them. */
  lemma {:induction false} RemoveEachNames(attrs: seq<Attr>, xs: seq<Attr>)
    ensures RemoveEach(attrs, xs) == RemoveNames(attrs, NameSet(xs))
  {
    if |xs| == 0 {
      assert NameSet(xs) == {};
      RemoveNamesNone(attrs);
    } else {
      var init := xs[..|xs| - 1];
      RemoveEachNames(attrs, init);
      RemoveNamesTwice(attrs, NameSet(init), {xs[|xs| - 1].name});
      assert xs == init + [xs[|xs| - 1]];
      assert NameSet(xs) == NameSet(init) + {xs[|xs| - 1].name};
    }
  }

  lemma {:induction false} RemoveNamesNone(attrs: seq<Attr>)
    ensures RemoveNames(attrs, {}) == attrs
  {
    if |attrs| > 0 {
      RemoveNamesNone(attrs[1..]);
    }
  }

  /** Removing the names of the matching attributes leaves the others. */
  lemma {:induction false} RemoveScopeNames(attrs: seq<Attr>, names: set<string>)
    requires forall a :: a in attrs ==> (a.name in names <==> MatchesScopePattern(a.name))
    ensures RemoveNames(attrs, names) == OtherAttrs(attrs)
  {
    if |attrs| > 0 {
      assert attrs[0] in attrs;
      assert forall a :: a in attrs[1..] ==> a in attrs;
      RemoveScopeNames(attrs[1..], names);
    }
  }

  /** A scoped element keeps its other attributes in order and ends with the
      one scope attribute. */
  lemma ScopedAttrsShape(attrs: seq<Attr>, scope: string)
    requires ValidScopeId(scope)
    ensures ScopedAttrs(attrs, scope) == OtherAttrs(attrs) + [Attr(ScopeAttrName(scope), "")]
  {
    var scopeAttrs := ScopeAttrs(attrs);
    RemoveEachNames(attrs, scopeAttrs);
    forall a | a in attrs ensures a.name in NameSet(scopeAttrs) <==> MatchesScopePattern(a.name) {
      if a.name in NameSet(scopeAttrs) {
        var b :| b in scopeAttrs && b.name == a.name;
      }
    }
    RemoveScopeNames(attrs, NameSet(scopeAttrs));
    ScopeAttrNameMatches(scope);
  }

  /** After `scopeElement(el, scope)` the only attribute matching the
      pattern is `data-scope-<scope>`, with the empty value. */
  lemma ScopedAttrsSingleScope(attrs: seq<Attr>, scope: string)
    requires ValidScopeId(scope)
    ensures ScopeAttrs(ScopedAttrs(attrs, scope)) == [Attr(ScopeAttrName(scope), "")]
    ensures GetAttribute(ScopedAttrs(attrs, scope), ScopeAttrName(scope)) == Some("")
  {
    ScopedAttrsShape(attrs, scope);
    var last := Attr(ScopeAttrName(scope), "");
    ScopeAttrsAppend(OtherAttrs(attrs), [last]);
    OtherAttrsFilters(attrs);
    ScopeAttrNameMatches(scope);
    assert [last][1..] == [];
  }

  /** Attributes that do not match the pattern are kept, in order. */
  lemma ScopedAttrsKeepOthers(attrs: seq<Attr>, scope: string)
    requires ValidScopeId(scope)
    ensures OtherAttrs(ScopedAttrs(attrs, scope)) == OtherAttrs(attrs)
  {
    ScopedAttrsShape(attrs, scope);
    var last := Attr(ScopeAttrName(scope), "");
    OtherAttrsAppend(OtherAttrs(attrs), [last]);
    OtherAttrsFilters(attrs);
    ScopeAttrNameMatches(scope);
    assert [last][1..] == [];
  }

  /** Scoping twice with the same id is scoping once. */
  lemma ScopedAttrsIdempotent(attrs: seq<Attr>, scope: string)
    requires ValidScopeId(scope)
    ensures ScopedAttrs(ScopedAttrs(attrs, scope), scope) == ScopedAttrs(attrs, scope)
  {
    ScopedAttrsShape(attrs, scope);
    ScopedAttrsShape(ScopedAttrs(attrs, scope), scope);
    ScopedAttrsKeepOthers(attrs, scope);
  }

  /** A component root stays one after scoping, and a plain element stays plain. */
  lemma ScopedAttrsKeepMarker(attrs: seq<Attr>, scope: string)
    requires ValidScopeId(scope)
    ensures HasAttribute(ScopedAttrs(attrs, scope), CssScopeMarker) <==> HasAttribute(attrs, CssScopeMarker)
  {
    ScopedAttrsShape(attrs, scope);
    MarkerIsNotScopeAttr();
    if HasAttribute(attrs, CssScopeMarker) {
      var a :| a in attrs && a.name == CssScopeMarker;
      assert a in OtherAttrs(attrs);
    }
    if HasAttribute(ScopedAttrs(attrs, scope), CssScopeMarker) {
      var a :| a in ScopedAttrs(attrs, scope) && a.name == CssScopeMarker;
      ScopeAttrNameMatches(scope);
      assert a != Attr(ScopeAttrName(scope), "");
      assert a in OtherAttrs(attrs);
    }
  }

  /** As written, the removals hit no attribute at all, since no attribute
      is called "[object Attr]". */
  lemma {:induction false} RemoveEachAsWrittenKeepsAll(attrs: seq<Attr>, xs: seq<Attr>)
    requires !HasAttribute(attrs, AttrObjectString)
    ensures RemoveEachAsWritten(attrs, xs) == attrs
  {
    if |xs| > 0 {
      RemoveEachAsWrittenKeepsAll(attrs, xs[..|xs| - 1]);
      RemoveNamesAbsent(attrs, AttrObjectString);
    }
  }

  lemma {:induction false} RemoveNamesAbsent(attrs: seq<Attr>, name: string)
    requires !HasAttribute(attrs, name)
    ensures RemoveNames(attrs, {name}) == attrs
  {
    if |attrs| > 0 {
      assert attrs[0] in attrs;
      assert forall a :: a in attrs[1..] ==> a in attrs;
      RemoveNamesAbsent(attrs[1..], name);
    }
  }

  /** An element already scoped with `old` and scoped again with another id
      ends up with two scope attributes when run as written. */
  lemma StaleScopeAttrSurvives(stale: string, scope: string, value: string)
    requires ValidScopeId(stale) && ValidScopeId(scope) && stale != scope
    ensures var attrs := [Attr(ScopeAttrName(stale), value)];
            var scoped := ScopedAttrsAsWritten(attrs, scope);
            && scoped == [Attr(ScopeAttrName(stale), value), Attr(ScopeAttrName(scope), "")]
            && |ScopeAttrs(scoped)| == 2
  {
    var attrs := [Attr(ScopeAttrName(stale), value)];
    assert ScopeAttrName(stale)[0] == 'd' && AttrObjectString[0] == '[';
    assert !HasAttribute(attrs, AttrObjectString);
    RemoveEachAsWrittenKeepsAll(attrs, ScopeAttrs(attrs));
    assert ScopeAttrName(stale)[|ScopePrefix|..] == stale;
    assert ScopeAttrName(scope)[|ScopePrefix|..] == scope;
    assert !HasAttribute(attrs, ScopeAttrName(scope));
    var scoped := ScopedAttrsAsWritten(attrs, scope);
    ScopeAttrNameMatches(stale);
    ScopeAttrNameMatches(scope);
    ScopeAttrsAppend(attrs, [Attr(ScopeAttrName(scope), "")]);
  }
}

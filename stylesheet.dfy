/** The stylesheet side of `StyleScopeFactory`: the rule tree of a `<style>`
    element, the scoped text generated for it, the in-place replacement of
    its rules and the one-shot `build` guarded by the `x-scope` attribute. */
module StyleScope {
  import opened Wrappers
  import opened JsString
  import opened Selector
  import opened SelectorExamples

  /** A CSSOM rule as far as the scoper looks at it: a style rule, an
      `@media` rule with its nested rules, or any other rule, known only by
      its `cssText`. */
  datatype Rule =
    | StyleRule(selectorText: string, declarations: string)
    | MediaRule(conditionText: string, children: seq<Rule>)
    | OtherRule(cssText: string)

  /** The text `generateScopedRules` produces for one rule. A media rule wraps
      its scoped children, which template interpolation joins with ",". */
  function ScopedRuleText(rule: Rule, scopeAttr: string): string
    decreases rule
  {
    match rule
    case MediaRule(cond, children) =>
      "@media " + cond + " { " + Join(GenerateScopedRules(children, scopeAttr), ",") + " }"
    case StyleRule(sel, decls) => ScopeSelectorList(sel, scopeAttr) + "{" + decls + "}"
    case OtherRule(text) => text
  }

  /** `generateScopedRules`: one scoped text per rule, in order. */
  function GenerateScopedRules(rules: seq<Rule>, scopeAttr: string): (r: seq<string>)
    ensures |r| == |rules|
    ensures forall k :: 0 <= k < |r| ==> r[k] == ScopedRuleText(rules[k], scopeAttr)
    decreases rules
  {
    if |rules| == 0 then [] else [ScopedRuleText(rules[0], scopeAttr)] + GenerateScopedRules(rules[1..], scopeAttr)
  }

  /** The attribute selector built from a scope id. */
  function ScopeAttrSelector(scopeId: string): string {
    "[data-scope-" + scopeId + "]"
  }

  /** What `insertRule` leaves in the sheet for each inserted text: a rule
      whose serialisation is that text. */
  function Inserted(texts: seq<string>): (r: seq<Rule>)
    ensures |r| == |texts| && forall k :: 0 <= k < |r| ==> r[k] == OtherRule(texts[k])
  {
    if |texts| == 0 then [] else [OtherRule(texts[0])] + Inserted(texts[1..])
  }

  /** A stand-in for the CSSOM's `cssText` serialisation. */
  function CssText(rule: Rule): string
    decreases rule
  {
    match rule
    case StyleRule(sel, decls) => sel + "{" + decls + "}"
    case MediaRule(cond, children) => "@media " + cond + " {" + SheetText(children) + "}"
    case OtherRule(text) => text
  }

  /** The text `sheetToString` builds: each rule's text followed by a newline. */
  function SheetText(rules: seq<Rule>): string
    decreases rules
  {
    if |rules| == 0 then "" else CssText(rules[0]) + "\n" + SheetText(rules[1..])
  }

  /** Each text followed by a newline. */
  function Lines(texts: seq<string>): string {
    if |texts| == 0 then "" else texts[0] + "\n" + Lines(texts[1..])
  }

  /** A `CSSStyleSheet` (or the rule list of one): `insertRule` and
      `removeRule` change its rule list in place. */
  class StyleSheet {
    var rules: seq<Rule>

    constructor(rules: seq<Rule>)
      ensures this.rules == rules
    {
      this.rules := rules;
    }

    /** `insertRule(text, index)`: the new rule takes slot `index`, the
        rules from there on move up by one. */
    method InsertRule(text: string, index: nat)
      requires index <= |rules|
      modifies this
      ensures rules == old(rules[..index]) + [OtherRule(text)] + old(rules[index..])
    {
      rules := rules[..index] + [OtherRule(text)] + rules[index..];
    }

    /** `removeRule(index)`: the rule at `index` goes, the ones after it move down. */
    method RemoveRule(index: nat)
      requires index < |rules|
      modifies this
      ensures rules == old(rules[..index]) + old(rules[index + 1..])
    {
      rules := rules[..index] + rules[index + 1..];
    }
  }

  /** A `<style>` element: its `x-scope` attribute, its `innerHTML` and the
      sheet the browser made of it. */
  class StyleElement {
    var xScope: Option<string>
    var innerHTML: string
    const sheet: StyleSheet

    constructor(xScope: Option<string>, innerHTML: string, sheet: StyleSheet)
      ensures this.xScope == xScope && this.innerHTML == innerHTML && this.sheet == sheet
    {
      this.xScope := xScope;
      this.innerHTML := innerHTML;
      this.sheet := sheet;
    }
  }

  /** `replaceRuleObjects`: for every slot of the original list, insert the
      new text before it and remove the old rule, which has moved up by one. */
  method ReplaceRuleObjects(sheet: StyleSheet, newRules: seq<string>)
    requires |newRules| >= |sheet.rules|
    modifies sheet
    ensures |sheet.rules| == old(|sheet.rules|)
    ensures sheet.rules == Inserted(newRules[..old(|sheet.rules|)])
  {
    var n := |sheet.rules|;
    ghost var original := sheet.rules;
    var index := 0;
    while index < n
      invariant 0 <= index <= n && |sheet.rules| == n
      invariant sheet.rules[..index] == Inserted(newRules[..index])
      invariant sheet.rules[index..] == original[index..]
    {
      sheet.InsertRule(newRules[index], index);
      sheet.RemoveRule(index + 1);
      assert newRules[..index + 1] == newRules[..index] + [newRules[index]];
      index := index + 1;
    }
    assert sheet.rules == sheet.rules[..n];
  }

  /** `sheetToString`: the rule texts, each followed by "\n", in order. */
  method SheetToString(sheet: StyleSheet) returns (result: string)
    ensures result == SheetText(sheet.rules)
  {
    result := "";
    var rules := sheet.rules;
    var i := 0;
    while i < |rules|
      invariant 0 <= i <= |rules|
      invariant result + SheetText(rules[i..]) == SheetText(rules)
    {
      SheetTextStep(rules, i);
      result := result + CssText(rules[i]) + "\n";
      i := i + 1;
    }
    assert rules[i..] == [];
  }

  /** `StyleScopeFactory`, bound to one `<style>` element. */
  class StyleScopeFactory {
    const el: StyleElement

    constructor(el: StyleElement)
      ensures this.el == el
    {
      this.el := el;
    }

    /** `build`: a set, non-empty `x-scope` is returned as it is and nothing
        changes; otherwise the sheet's rules are replaced by their scoped
        texts under `freshId` (the id `generateScopeId` would draw), `x-scope`
        is set to it and `innerHTML` becomes the new sheet's text. */
    method Build(freshId: string) returns (scopeId: string)
      modifies el, el.sheet
      ensures old(el.xScope).Some? && old(el.xScope).value != "" ==>
                scopeId == old(el.xScope).value && unchanged(el, el.sheet)
      ensures !(old(el.xScope).Some? && old(el.xScope).value != "") ==>
                var scoped := GenerateScopedRules(old(el.sheet.rules), ScopeAttrSelector(freshId));
                && scopeId == freshId
                && el.xScope == Some(freshId)
                && el.sheet.rules == Inserted(scoped)
                && el.innerHTML == Lines(scoped)
    {
      if el.xScope.Some? && el.xScope.value != "" {
        return el.xScope.value;
      }
      scopeId := freshId;
      var scopedAttrSelector := ScopeAttrSelector(scopeId);
      var scopedRules := GenerateScopedRules(el.sheet.rules, scopedAttrSelector);
      ReplaceRuleObjects(el.sheet, scopedRules);
      el.xScope := Some(scopeId);
      var text := SheetToString(el.sheet);
      el.innerHTML := text;
      SheetTextInserted(scopedRules);
    }
  }

  /** Two builds in a row. When the first id drawn is not empty the second
      build returns it and leaves the sheet and `innerHTML` as the first build
      made them. An empty first id is no guard: the second build runs again
      under its own id, over the rules the first build inserted. */
  method BuildTwice(factory: StyleScopeFactory, firstId: string, secondId: string)
      returns (first: string, second: string)
    requires factory.el.xScope == None
    modifies factory.el, factory.el.sheet
    ensures first == firstId
    ensures firstId != "" ==>
              var scoped := GenerateScopedRules(old(factory.el.sheet.rules), ScopeAttrSelector(firstId));
              && second == firstId
              && factory.el.xScope == Some(firstId)
              && factory.el.sheet.rules == Inserted(scoped)
              && factory.el.innerHTML == Lines(scoped)
    ensures firstId == "" ==>
              var scoped := GenerateScopedRules(old(factory.el.sheet.rules), ScopeAttrSelector(firstId));
              var rescoped := GenerateScopedRules(Inserted(scoped), ScopeAttrSelector(secondId));
              && second == secondId
              && factory.el.xScope == Some(secondId)
              && factory.el.sheet.rules == Inserted(rescoped)
              && factory.el.innerHTML == Lines(rescoped)
  {
    first := factory.Build(firstId);
    second := factory.Build(secondId);
  }

  // ---------------------------------------------------------------------
  // Lemmas

  lemma SheetTextStep(rules: seq<Rule>, i: int)
    requires 0 <= i < |rules|
    ensures SheetText(rules[i..]) == CssText(rules[i]) + "\n" + SheetText(rules[i + 1..])
  {
    assert rules[i..][0] == rules[i] && rules[i..][1..] == rules[i + 1..];
  }

  /** The sheet made of inserted texts serialises to those texts, one per line. */
  lemma {:induction false} SheetTextInserted(texts: seq<string>)
    ensures SheetText(Inserted(texts)) == Lines(texts)
  {
    if |texts| > 0 {
      assert Inserted(texts)[1..] == Inserted(texts[1..]);
      SheetTextInserted(texts[1..]);
    }
  }

  /** Rules left by `insertRule` pass through a second `generateScopedRules`
      unchanged, since they are known only by their text. */
  lemma {:induction false} RescopeInserted(texts: seq<string>, scopeAttr: string)
    ensures GenerateScopedRules(Inserted(texts), scopeAttr) == texts
  {
    if |texts| > 0 {
      assert Inserted(texts)[1..] == Inserted(texts[1..]);
      RescopeInserted(texts[1..], scopeAttr);
    }
  }

  /** `generateScopedRules` distributes over a split of the rule list. */
  lemma {:induction false} GenerateScopedRulesAppend(a: seq<Rule>, b: seq<Rule>, scopeAttr: string)
    ensures GenerateScopedRules(a + b, scopeAttr) == GenerateScopedRules(a, scopeAttr) + GenerateScopedRules(b, scopeAttr)
  {
    if |a| == 0 {
      assert a + b == b;
    } else {
      assert (a + b)[1..] == a[1..] + b;
      GenerateScopedRulesAppend(a[1..], b, scopeAttr);
    }
  }

  /** Lines of newline-free texts split back on "\n" into those texts, plus
      the empty piece after the last newline. */
  lemma {:induction false} LinesSplit(texts: seq<string>)
    requires forall k :: 0 <= k < |texts| ==> '\n' !in texts[k]
    ensures Split(Lines(texts), "\n") == texts + [""]
  {
    var s := Lines(texts);
    if |texts| == 0 {
      IncludesChar(s, '\n');
    } else {
      var head, rest := texts[0], Lines(texts[1..]);
      assert s == head + ['\n'] + rest;
      assert s[..|head|] == head && s[|head| + 1..] == rest;
      IndexOfChar(s, '\n', |head|);
      LinesSplit(texts[1..]);
      assert texts == [head] + texts[1..];
    }
  }

  /** A style rule with one plain selector is scoped by appending the
      attribute selector to the selector. */
  lemma PlainStyleRule(selector: string, declarations: string, scopeId: string)
    requires ',' !in selector && ':' !in selector
    requires |selector| > 0 && !IsWhitespace(selector[0]) && !IsWhitespace(selector[|selector| - 1])
    ensures ScopedRuleText(StyleRule(selector, declarations), ScopeAttrSelector(scopeId))
              == selector + ScopeAttrSelector(scopeId) + "{" + declarations + "}"
  {
    var attr := ScopeAttrSelector(scopeId);
    PlainUntrimmed(selector, attr);
    assert (selector + attr)[0] == selector[0];
    SingleBranchList(selector, attr, selector + attr);
  }
}

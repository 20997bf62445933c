/** `Component` from component.js: scoping every element a component owns
    (`scopeElements` over `walkAndSkipNestedComponents`), constructing nested
    components on the way, and the decisions of the mutation-observer
    handler for a batch of mutation records. The tree is a value; the
    functions return the tree as the in-place updates leave it. */
module Component {
  import opened Dom
  import opened ScopeElement
  import opened Walk

  /** The scope id the component built on a given root uses. The constructor
      takes no id from anywhere yet and uses one fixed id for every
      component; this parameter stands for that choice. */
  type ScopeOf = Element -> string

  /** The answer of `walkAndSkipNestedComponents`'s callback: `false` at a
      component root other than the component's own element (which is the
      walk's root when `isSelf`), not `false` everywhere else. */
  function Descends(isSelf: bool): Descend {
    (path: Path, el: Element) => !IsComponent(el) || (isSelf && |path| == 0)
  }

  /** `scopeElements(t, scope)` run by the component whose element is `t`
      when `isSelf`: a nested component root is constructed unless its
      `__css_scope` is already set, and is otherwise left alone; every other
      node reached gets the scope attribute and is descended into. */
  function ScopeElements(t: Element, isSelf: bool, scope: string, scopeOf: ScopeOf): Element
    decreases t, if isSelf then 1 else 2
  {
    if IsComponent(t) && !isSelf then
      if t.initialized then t
      else ScopeElements(t, true, scopeOf(t), scopeOf).(initialized := true)
    else
      Element(ScopedAttrs(t.attrs, scope), t.initialized,
              seq(|t.children|, k requires 0 <= k < |t.children| => ScopeElements(t.children[k], false, scope, scopeOf)))
  }

  /** `new Component(el)`: the tree below `el` once its constructor has
      scoped it with its own id. */
  function ConstructComponent(root: Element, scopeOf: ScopeOf): Element {
    ScopeElements(root, true, scopeOf(root), scopeOf)
  }

  /** The relative path `p` names a node the component owns: no component
      root other than the component's own element lies on the way down, the
      node included. */
  predicate Owned(t: Element, p: Path, isSelf: bool)
    decreases |p|
  {
    (!IsComponent(t) || isSelf)
    && (|p| > 0 ==> p[0] < |t.children| && Owned(t.children[p[0]], p[1..], false))
  }

  /** The relative path `p` names a nested component root that the walk
      reaches and stops at. */
  predicate Boundary(t: Element, p: Path, isSelf: bool)
    decreases |p|
  {
    if |p| == 0 then IsComponent(t) && !isSelf
    else (!IsComponent(t) || isSelf) && p[0] < |t.children| && Boundary(t.children[p[0]], p[1..], false)
  }

  predicate SameShape(a: Element, b: Element)
    decreases a
  {
    |a.children| == |b.children|
    && forall k :: 0 <= k < |a.children| ==> SameShape(a.children[k], b.children[k])
  }

  // ---------------------------------------------------------------------
  // Lemmas about the boundary walk

  /** Scoping changes attributes and flags, never the shape of the tree. */
  lemma {:induction false} ScopeElementsSameShape(t: Element, isSelf: bool, scope: string, scopeOf: ScopeOf)
    ensures SameShape(t, ScopeElements(t, isSelf, scope, scopeOf))
    decreases t, if isSelf then 1 else 2
  {
    var r := ScopeElements(t, isSelf, scope, scopeOf);
    if IsComponent(t) && !isSelf {
      if t.initialized {
        SameShapeRefl(t);
      } else {
        ScopeElementsSameShape(t, true, scopeOf(t), scopeOf);
      }
    } else {
      forall k | 0 <= k < |t.children| ensures SameShape(t.children[k], r.children[k]) {
        ScopeElementsSameShape(t.children[k], false, scope, scopeOf);
      }
    }
  }

  lemma {:induction false} SameShapeRefl(t: Element)
    ensures SameShape(t, t)
    decreases t
  {
    forall k | 0 <= k < |t.children| ensures SameShape(t.children[k], t.children[k]) {
      SameShapeRefl(t.children[k]);
    }
  }

  /** Every owned node carries the component's scope attribute and keeps
      its other attributes and its `__css_scope` state. */
  lemma {:induction false} OwnedScoped(t: Element, p: Path, isSelf: bool, scope: string, scopeOf: ScopeOf)
    requires Owned(t, p, isSelf)
    ensures ValidPath(t, p) && ValidPath(ScopeElements(t, isSelf, scope, scopeOf), p)
    ensures At(ScopeElements(t, isSelf, scope, scopeOf), p).attrs == ScopedAttrs(At(t, p).attrs, scope)
    ensures At(ScopeElements(t, isSelf, scope, scopeOf), p).initialized == At(t, p).initialized
    decreases |p|
  {
    if |p| > 0 {
      OwnedScoped(t.children[p[0]], p[1..], false, scope, scopeOf);
    }
  }

  /** At a nested component root the walk stops: an initialized one is left
      exactly as it was, an uninitialized one is what its own constructor
      makes of it, marked initialized; the outer scope plays no part. */
  lemma {:induction false} BoundaryUntouched(t: Element, p: Path, isSelf: bool, scope: string, scopeOf: ScopeOf)
    requires Boundary(t, p, isSelf)
    ensures ValidPath(t, p) && ValidPath(ScopeElements(t, isSelf, scope, scopeOf), p)
    ensures var nested := At(t, p);
            At(ScopeElements(t, isSelf, scope, scopeOf), p)
              == if nested.initialized then nested
                 else ConstructComponent(nested, scopeOf).(initialized := true)
    decreases |p|
  {
    if |p| > 0 {
      BoundaryUntouched(t.children[p[0]], p[1..], false, scope, scopeOf);
    }
  }

  /** With a valid id, each owned node ends with exactly one scope
      attribute, the component's own. */
  lemma OwnedHasOneScopeAttr(t: Element, p: Path, isSelf: bool, scope: string, scopeOf: ScopeOf)
    requires Owned(t, p, isSelf) && ValidScopeId(scope)
    ensures ValidPath(ScopeElements(t, isSelf, scope, scopeOf), p)
    ensures ScopeAttrs(At(ScopeElements(t, isSelf, scope, scopeOf), p).attrs) == [Attr(ScopeAttrName(scope), "")]
  {
    OwnedScoped(t, p, isSelf, scope, scopeOf);
    ScopedAttrsSingleScope(At(t, p).attrs, scope);
  }

  /** A reached node is at a valid path. */
  lemma {:induction false} ReachedValid(t: Element, base: Path, p: Path, descend: Descend)
    requires Reached(t, base, p, descend)
    ensures ValidPath(t, p)
    decreases |p|
  {
    if |p| > 0 {
      ReachedValid(t.children[p[0]], base + [p[0]], p[1..], descend);
    }
  }

  /** The owned nodes are the nodes the walk visits and descends into; the
      boundary nodes are those it visits and stops at. `flag` says whether
      the node at `base` is the component's own element. */
  lemma {:induction false} ReachedOwned(t: Element, base: Path, p: Path, isSelf: bool, flag: bool)
    requires flag == (isSelf && |base| == 0)
    ensures Owned(t, p, flag) <==>
              Reached(t, base, p, Descends(isSelf)) && ValidPath(t, p) && Descends(isSelf)(base + p, At(t, p))
    ensures Boundary(t, p, flag) <==>
              Reached(t, base, p, Descends(isSelf)) && ValidPath(t, p) && !Descends(isSelf)(base + p, At(t, p))
    decreases |p|
  {
    if |p| == 0 {
      assert base + p == base;
    } else if p[0] < |t.children| {
      var child := base + [p[0]];
      ReachedOwned(t.children[p[0]], child, p[1..], isSelf, false);
      assert child + p[1..] == base + p;
    }
  }

  /** `scopeElements` scopes exactly the nodes that `walk` visits under the
      callback of `walkAndSkipNestedComponents` and descends into. */
  lemma ScopedAreWalked(t: Element, isSelf: bool, p: Path)
    ensures Owned(t, p, isSelf) <==>
              p in WalkOrder(t, [], Descends(isSelf)) && ValidPath(t, p) && Descends(isSelf)(p, At(t, p))
    ensures Boundary(t, p, isSelf) <==>
              p in WalkOrder(t, [], Descends(isSelf)) && ValidPath(t, p) && !Descends(isSelf)(p, At(t, p))
  {
    WalkVisits(t, [], Descends(isSelf), p);
    assert p[..0] == [] && p[0..] == p && [] + p == p;
    ReachedOwned(t, [], p, isSelf, isSelf);
  }

  /** The component's own element is scoped even though it is a component root. */
  lemma RootIsScoped(t: Element, isSelf: bool)
    requires isSelf || !IsComponent(t)
    ensures Owned(t, [], isSelf)
    ensures [] in WalkOrder(t, [], Descends(isSelf))
  {
  }

  // ---------------------------------------------------------------------
  // The mutation-observer handler of `listenForNewElementsToScope`

  /** An added node: an element, or any other node type (text, comment). */
  datatype Node = ElementNode(el: Element) | OtherNode

  /** A mutation record: whether the nearest `[data-css-scope]` ancestor of
      its target is this component's element, and the nodes it added. */
  datatype MutationRecord = MutationRecord(targetInThisComponent: bool, addedNodes: seq<Node>)

  /** What the handler does with an added element: construct a component on
      it (stored in `__x`, so `__css_scope` stays as it was), or scope it. */
  datatype Effect = Instantiated(result: Element) | Scoped(result: Element)

  /** The handler's decision for one added element. */
  function AddedElementEffect(e: Element, cssScope: string, scopeOf: ScopeOf): Effect {
    if IsComponent(e) then Instantiated(ConstructComponent(e, scopeOf))
    else Scoped(ScopeElements(e, false, cssScope, scopeOf))
  }

  /** The `forEach` over the added nodes: other node types are skipped. */
  function NodeEffects(nodes: seq<Node>, cssScope: string, scopeOf: ScopeOf): seq<Effect> {
    if |nodes| == 0 then []
    else
      (match nodes[0]
       case OtherNode => []
       case ElementNode(e) => [AddedElementEffect(e, cssScope, scopeOf)])
      + NodeEffects(nodes[1..], cssScope, scopeOf)
  }

  /** The loop over the batch: it stops for good at the first record whose
      target lies in another component. */
  function BatchEffects(records: seq<MutationRecord>, cssScope: string, scopeOf: ScopeOf): seq<Effect> {
    if |records| == 0 || !records[0].targetInThisComponent then []
    else NodeEffects(records[0].addedNodes, cssScope, scopeOf) + BatchEffects(records[1..], cssScope, scopeOf)
  }

  /** The elements among the added nodes, in order. */
  function ElementsOf(nodes: seq<Node>): seq<Element> {
    if |nodes| == 0 then []
    else (match nodes[0] case OtherNode => [] case ElementNode(e) => [e]) + ElementsOf(nodes[1..])
  }

  /** The `forEach` over one record's added nodes. */
  method HandleAddedNodes(nodes: seq<Node>, cssScope: string, scopeOf: ScopeOf) returns (effects: seq<Effect>)
    ensures effects == NodeEffects(nodes, cssScope, scopeOf)
  {
    effects := [];
    var j := 0;
    while j < |nodes|
      invariant 0 <= j <= |nodes|
      invariant effects + NodeEffects(nodes[j..], cssScope, scopeOf) == NodeEffects(nodes, cssScope, scopeOf)
    {
      NodeStep(nodes, j, cssScope, scopeOf);
      if nodes[j].ElementNode? {
        var effect := AddedElementEffect(nodes[j].el, cssScope, scopeOf);
        effects := effects + [effect];
      }
      j := j + 1;
    }
  }

  /** The handler run on one batch: the loop over the records with its
      early `return`. */
  method HandleBatch(records: seq<MutationRecord>, cssScope: string, scopeOf: ScopeOf) returns (effects: seq<Effect>)
    ensures effects == BatchEffects(records, cssScope, scopeOf)
  {
    effects := [];
    var i := 0;
    while i < |records|
      invariant 0 <= i <= |records|
      invariant effects + BatchEffects(records[i..], cssScope, scopeOf) == BatchEffects(records, cssScope, scopeOf)
    {
      BatchStep(records, i, cssScope, scopeOf);
      if !records[i].targetInThisComponent {
        return;
      }
      var added := HandleAddedNodes(records[i].addedNodes, cssScope, scopeOf);
      effects := effects + added;
      i := i + 1;
    }
  }

  lemma BatchStep(records: seq<MutationRecord>, i: int, cssScope: string, scopeOf: ScopeOf)
    requires 0 <= i < |records|
    ensures BatchEffects(records[i..], cssScope, scopeOf)
              == if records[i].targetInThisComponent
                 then NodeEffects(records[i].addedNodes, cssScope, scopeOf) + BatchEffects(records[i + 1..], cssScope, scopeOf)
                 else []
  {
    assert records[i..][0] == records[i] && records[i..][1..] == records[i + 1..];
  }

  lemma NodeStep(nodes: seq<Node>, j: int, cssScope: string, scopeOf: ScopeOf)
    requires 0 <= j < |nodes|
    ensures NodeEffects(nodes[j..], cssScope, scopeOf)
              == (if nodes[j].ElementNode? then [AddedElementEffect(nodes[j].el, cssScope, scopeOf)] else [])
                 + NodeEffects(nodes[j + 1..], cssScope, scopeOf)
  {
    assert nodes[j..][0] == nodes[j] && nodes[j..][1..] == nodes[j + 1..];
  }

  // ---------------------------------------------------------------------
  // Lemmas about the handler

  /** Records whose target is in this component each contribute their
      added elements' effects, in order. */
  lemma {:induction false} BatchEffectsAppend(a: seq<MutationRecord>, b: seq<MutationRecord>, cssScope: string, scopeOf: ScopeOf)
    requires forall k :: 0 <= k < |a| ==> a[k].targetInThisComponent
    ensures BatchEffects(a + b, cssScope, scopeOf) == BatchEffects(a, cssScope, scopeOf) + BatchEffects(b, cssScope, scopeOf)
  {
    if |a| == 0 {
      assert a + b == b;
    } else {
      assert (a + b)[0] == a[0] && (a + b)[1..] == a[1..] + b;
      BatchEffectsAppend(a[1..], b, cssScope, scopeOf);
    }
  }

  /** The first record from another component ends the batch: nothing in it
      or after it has any effect. */
  lemma ForeignRecordEndsBatch(a: seq<MutationRecord>, r: MutationRecord, b: seq<MutationRecord>, cssScope: string, scopeOf: ScopeOf)
    requires forall k :: 0 <= k < |a| ==> a[k].targetInThisComponent
    requires !r.targetInThisComponent
    ensures BatchEffects(a + [r] + b, cssScope, scopeOf) == BatchEffects(a, cssScope, scopeOf)
  {
    assert a + [r] + b == a + ([r] + b);
    BatchEffectsAppend(a, [r] + b, cssScope, scopeOf);
  }

  /** The loop over the batch as its comment describes it, filtering out
      records from other components (`continue` instead of `return`): a
      foreign record is skipped and the records after it are still handled. */
  function BatchEffectsSkipping(records: seq<MutationRecord>, cssScope: string, scopeOf: ScopeOf): seq<Effect> {
    if |records| == 0 then []
    else
      (if records[0].targetInThisComponent then NodeEffects(records[0].addedNodes, cssScope, scopeOf) else [])
      + BatchEffectsSkipping(records[1..], cssScope, scopeOf)
  }

  lemma {:induction false} BatchEffectsSkippingAppend(a: seq<MutationRecord>, b: seq<MutationRecord>, cssScope: string, scopeOf: ScopeOf)
    ensures BatchEffectsSkipping(a + b, cssScope, scopeOf)
              == BatchEffectsSkipping(a, cssScope, scopeOf) + BatchEffectsSkipping(b, cssScope, scopeOf)
  {
    if |a| == 0 {
      assert a + b == b;
    } else {
      assert (a + b)[0] == a[0] && (a + b)[1..] == a[1..] + b;
      BatchEffectsSkippingAppend(a[1..], b, cssScope, scopeOf);
    }
  }

  /** With records filtered out rather than ending the batch, a foreign
      record contributes nothing and the records after it keep their effects. */
  lemma ForeignRecordSkipped(a: seq<MutationRecord>, r: MutationRecord, b: seq<MutationRecord>, cssScope: string, scopeOf: ScopeOf)
    requires !r.targetInThisComponent
    ensures BatchEffectsSkipping(a + [r] + b, cssScope, scopeOf)
              == BatchEffectsSkipping(a, cssScope, scopeOf) + BatchEffectsSkipping(b, cssScope, scopeOf)
  {
    BatchEffectsSkippingAppend(a + [r], b, cssScope, scopeOf);
    BatchEffectsSkippingAppend(a, [r], cssScope, scopeOf);
    assert BatchEffectsSkipping([r], cssScope, scopeOf) == [] by {
      assert [r][1..] == [];
    }
  }

  /** On a batch without foreign records both loops do the same. */
  lemma {:induction false} SkippingAgrees(records: seq<MutationRecord>, cssScope: string, scopeOf: ScopeOf)
    requires forall k :: 0 <= k < |records| ==> records[k].targetInThisComponent
    ensures BatchEffectsSkipping(records, cssScope, scopeOf) == BatchEffects(records, cssScope, scopeOf)
  {
    if |records| > 0 {
      SkippingAgrees(records[1..], cssScope, scopeOf);
    }
  }

  /** As written, an element added in this component by a record that comes
      after a foreign record in the same batch is never handled, though the
      filtering loop would handle it. */
  lemma LaterInsertionDropped(a: seq<MutationRecord>, r: MutationRecord, e: Element, cssScope: string, scopeOf: ScopeOf)
    requires forall k :: 0 <= k < |a| ==> a[k].targetInThisComponent
    requires !r.targetInThisComponent
    ensures var batch := a + [r] + [MutationRecord(true, [ElementNode(e)])];
            && BatchEffects(batch, cssScope, scopeOf) == BatchEffects(a, cssScope, scopeOf)
            && BatchEffectsSkipping(batch, cssScope, scopeOf)
                 == BatchEffects(a, cssScope, scopeOf) + [AddedElementEffect(e, cssScope, scopeOf)]
  {
    var later := [MutationRecord(true, [ElementNode(e)])];
    ForeignRecordEndsBatch(a, r, later, cssScope, scopeOf);
    ForeignRecordSkipped(a, r, later, cssScope, scopeOf);
    SkippingAgrees(a, cssScope, scopeOf);
    assert BatchEffectsSkipping(later, cssScope, scopeOf) == [AddedElementEffect(e, cssScope, scopeOf)] by {
      assert later[1..] == [];
      NodeStep([ElementNode(e)], 0, cssScope, scopeOf);
    }
  }

  /** Every added element gets exactly one effect, in order, and other
      nodes get none. */
  lemma {:induction false} NodeEffectsElements(nodes: seq<Node>, cssScope: string, scopeOf: ScopeOf)
    ensures |NodeEffects(nodes, cssScope, scopeOf)| == |ElementsOf(nodes)|
    ensures forall k :: 0 <= k < |ElementsOf(nodes)| ==>
              NodeEffects(nodes, cssScope, scopeOf)[k] == AddedElementEffect(ElementsOf(nodes)[k], cssScope, scopeOf)
  {
    if |nodes| > 0 {
      NodeEffectsElements(nodes[1..], cssScope, scopeOf);
    }
  }

  /** An added component root is constructed with its own id and is not
      scoped with this component's; its `__css_scope` state is unchanged. */
  lemma AddedComponentConstructed(e: Element, cssScope: string, scopeOf: ScopeOf)
    requires IsComponent(e) && ValidScopeId(scopeOf(e))
    ensures AddedElementEffect(e, cssScope, scopeOf).Instantiated?
    ensures var r := AddedElementEffect(e, cssScope, scopeOf).result;
            && ScopeAttrs(r.attrs) == [Attr(ScopeAttrName(scopeOf(e)), "")]
            && r.initialized == e.initialized
  {
    OwnedHasOneScopeAttr(e, [], true, scopeOf(e), scopeOf);
  }

  /** Any other added element is scoped with this component's id, and so
      is everything below it up to the nested component roots. */
  lemma AddedElementScoped(e: Element, p: Path, cssScope: string, scopeOf: ScopeOf)
    requires !IsComponent(e) && ValidScopeId(cssScope) && Owned(e, p, false)
    ensures AddedElementEffect(e, cssScope, scopeOf).Scoped?
    ensures var r := AddedElementEffect(e, cssScope, scopeOf).result;
            ValidPath(r, p) && ScopeAttrs(At(r, p).attrs) == [Attr(ScopeAttrName(cssScope), "")]
  {
    OwnedHasOneScopeAttr(e, p, false, cssScope, scopeOf);
  }
}

# runtime-css-scope, modelled in Dafny

`runtime-css-scope` scopes the CSS of a component to the component's own
elements at run time. It has two halves.

- **Stylesheet side** (`StyleScopeFactory`). It rewrites every selector of a
  `<style>` element's sheet so that each branch carries an attribute
  selector `[data-scope-<id>]`. It then replaces the sheet's rules in place,
  writes the new text back into the element, and records the id in the
  element's `x-scope` attribute, so that the sheet is scoped only once.
- **DOM side** (`Component`). It walks the component's subtree in pre-order
  and adds a `data-scope-<id>` attribute to every element the component owns.
  The intent, stated in a comment, is that this is each element's only scope
  attribute; the removal as written does not achieve that (see "## Findings"),
  and the walk in this model uses the corrected removal. It stops at nested component roots (elements with
  `data-css-scope`) and constructs those nested components that are not yet
  initialized. A mutation observer then scopes, or constructs components on,
  nodes added later.

The model has these modules:

- `JsString` (`js_string.dfy`): the JavaScript string operations the rewriter relies on. These are `split` with a non-empty separator, `join`, `indexOf`/`includes`, `trim` with ECMAScript white space, and `slice(0, -1)`.
- `Selector` (`selector.dfy`): `scopeCssSelectorString` and the two pseudo-selector helpers. `BranchResult` is a reference definition written without `split` or `join`: "insert the attribute before the first `::` and delete the later non-overlapping `::`, else before the first `:` and delete the later colons, else after the trimmed branch". It uses the same `includes` tests and the same first index as the code; what it states independently is the text around the insertion point.
- `SelectorExamples` (`selector_examples.dfy`): worked shapes of the rewriter (`.btn, .btn:hover`, `p::before`, `a:hover:focus`), proved for all pieces of those shapes.
- `StyleScope` (`stylesheet.dfy`):
  - the `Rule` tree (style, `@media`, other);
  - `generateScopedRules`;
  - a `StyleSheet` class whose `InsertRule`/`RemoveRule` change its rule list in place;
  - `replaceRuleObjects` and `sheetToString` as loops;
  - `build` on a `StyleScopeFactory` class bound to a `StyleElement`.
- `Dom` (`dom.dfy`): attributes and elements as values. It covers `getAttribute`/`setAttribute`/`removeAttribute`, the unanchored pattern `data-scope-[a-z0-9]+`, `getScopeAttrs`, and paths naming nodes.
- `ScopeElement` (`scope_element.dfy`): `scopeElement`. It has the corrected removal fold, the fold as written, and the loop proved against the corrected fold.
- `Walk` (`walk.dfy`): `walk` from utils.js. It is a specification of the visit order, a recursive method with the `while` loop over the children, and the document-order, pruning and visit-once lemmas.
- `Component` (`component.js` logic, `component.dfy`):
  - `walkAndSkipNestedComponents` together with `scopeElements`, as a function from the tree before to the tree after;
  - its link to `Walk`;
  - the mutation-batch handler as a loop proved against `BatchEffects`, and the filtering variant `BatchEffectsSkipping`.
- `Wrappers` (`wrappers.dfy`): `Option`.

The model follows the code in these places, where it reads differently from what the design promises:

- A pseudo-class branch gets the attribute *before* its colon: `.btn:hover` becomes `.btn[data-scope-abc]:hover`, not `.btn:hover[data-scope-abc]`.
- Pseudo branches are not trimmed. So `.btn, .btn:hover` becomes `.btn[data-scope-abc],  .btn[data-scope-abc]:hover`, with two spaces after the comma (`SelectorExamples.PlainThenPseudoClass`).
- An `x-scope` attribute that is present but empty is not a guard, because `if (scopeId)` treats `""` as false. A build that drew an empty id is therefore repeated by the next build (`StyleScope.BuildTwice`).
- The constructor scopes every component with the fixed id `'1234'` (src/component.js:11, 14). The model takes the id as a parameter: `cssScope` for the walk, and `scopeOf` for the id a nested or added component would use.
- An added component root is stored in `__x`, not `__css_scope` (src/component.js:79). `Component.AddedComponentConstructed` records that its initialized flag does not change.

## Model

| member | source | states |
|---|---|---|
| JsString.IndexOfFrom | src/style-scope-factory.js:70-74 | `indexOf`: the result is -1 or an occurrence of the separator, and no occurrence lies before it |
| JsString.IndexOfIs | src/style-scope-factory.js:70-74 | an occurrence with none before it is the first index `indexOf` reports |
| JsString.IncludesChar | src/style-scope-factory.js:74 | `includes(':')` holds exactly when the string holds a colon |
| JsString.IndexOfChar | src/style-scope-factory.js:104 | the first index of a one-character separator is the first position holding it |
| JsString.IncludesPair | src/style-scope-factory.js:70 | a string that includes `::` holds at least two colons |
| JsString.SplitJoin | src/style-scope-factory.js:67 | round trip: joining the pieces of `split(sep)` with `sep` gives the string back |
| JsString.SplitPiecesFree | src/style-scope-factory.js:67 | no piece of `split(sep)` contains the separator |
| JsString.SplitAbsent | src/style-scope-factory.js:67 | a string without the separator splits into itself alone |
| JsString.SplitChar | src/style-scope-factory.js:67 | splitting on one character gives one piece more than its occurrences, and the pieces glued together are the string without that character |
| JsString.TrimStart | src/style-scope-factory.js:81 | `trim` on the left drops a prefix and leaves no leading white space |
| JsString.TrimEnd | src/style-scope-factory.js:81 | `trim` on the right drops a suffix and leaves no trailing white space |
| JsString.TrimStartDropsWhitespace | src/style-scope-factory.js:81 | everything `trim` drops on the left is white space |
| JsString.TrimEndDropsWhitespace | src/style-scope-factory.js:81 | everything `trim` drops on the right is white space |
| JsString.TrimUnchanged | src/style-scope-factory.js:79 | a string that starts and ends with a non-white-space character is its own `trim` |
| JsString.DropLast | src/style-scope-factory.js:82 | `slice(0, -1)` removes exactly the last character, and leaves "" as it is |
| JsString.TrimEndAfter | src/style-scope-factory.js:81-82 | trailing white space after a last non-white character is removed by `trim` |
| JsString.TrimStartBefore | src/style-scope-factory.js:81-82 | `trim` on the left commutes with appending a non-white character |
| JsString.ConcatIsJoin | src/style-scope-factory.js:94 | `join('')` is `join` with the empty separator |
| JsString.SplitPair | src/style-scope-factory.js:92-94 | splitting on a two-character separator and joining with '' deletes its non-overlapping occurrences, scanned left to right |
| JsString.WithoutPairAbsent | src/style-scope-factory.js:92-94 | deleting a pair that does not occur changes nothing |
| JsString.ConcatAppend | src/style-scope-factory.js:94 | `join('')` distributes over concatenation of the piece lists |
| JsString.WithoutAppend | src/style-scope-factory.js:106 | deleting a character distributes over concatenation |
| JsString.WithoutAbsent | src/style-scope-factory.js:106 | deleting an absent character changes nothing |
| JsString.WithoutAround | src/style-scope-factory.js:106 | deleting a character around one occurrence of it deletes that occurrence |
| Selector.InsertAtFirst | src/style-scope-factory.js:92-94 | splicing `scopeAttr + sep` in as second piece puts the attribute right before the first separator |
| Selector.ScopeBranchIsInsertion | src/style-scope-factory.js:68-80 | each branch contributes the reference insertion `BranchResult` followed by ", " |
| Selector.PlainBranch | src/style-scope-factory.js:74-79 | a branch without any colon becomes its trimmed text followed by the attribute |
| Selector.PseudoElementBranch | src/style-scope-factory.js:91-95 | a branch with `::` gets the attribute right before its first `::`, and every later non-overlapping `::` is deleted; with no later `::` the rest of the branch is kept |
| Selector.SingleDoubleColonBranch | src/style-scope-factory.js:70-71 | with no colon before a single `::`, the branch is `before + attr + "::" + after`; the `::` test wins over the `:` test |
| Selector.PseudoClassBranch | src/style-scope-factory.js:103-107 | a branch with `:` but no `::` gets the attribute right before its first colon, and every later colon is dropped |
| Selector.SingleColonBranch | src/style-scope-factory.js:74-75 | a branch with exactly one colon is `before + attr + ":" + after`, untrimmed |
| Selector.BranchResults | src/style-scope-factory.js:67-68 | one reference result per comma-separated branch, in order |
| Selector.ScopeBranchesJoin | src/style-scope-factory.js:68-80 | the reducer's output is the branch results joined by ", " with one more ", " at the end |
| Selector.ScopeSelectorListJoinsBranches | src/style-scope-factory.js:65-83 | the result is one rewritten branch per comma-separated branch (one more than the commas), joined by ", ", left-trimmed, with no trailing separator |
| SelectorExamples.BranchResultOf | src/style-scope-factory.js:68-80 | a branch's known rewrite without its ", " is its reference result |
| SelectorExamples.SingleBranchList | src/style-scope-factory.js:65-83 | a comma-free selector list is its single rewritten branch |
| SelectorExamples.TwoBranchList | src/style-scope-factory.js:65-83 | a two-branch list is the two rewritten branches joined by ", " |
| SelectorExamples.PlainUntrimmed | src/style-scope-factory.js:79 | a colon-free branch without surrounding white space just gets the attribute appended |
| SelectorExamples.PlainThenPseudoClass | src/style-scope-factory.js:65-83 | `x, y:z` becomes `x[attr],  y[attr]:z`: the attribute goes before the colon and two spaces follow the comma |
| SelectorExamples.PseudoElement | src/style-scope-factory.js:91-95 | `e::n` becomes `e[attr]::n` |
| SelectorExamples.ChainedBranch | src/style-scope-factory.js:103-107 | the branch `a:p:q` loses its second colon |
| SelectorExamples.ChainedPseudoClasses | src/style-scope-factory.js:103-107 | `a:p:q` becomes `a[attr]:pq`: chained pseudo-classes are glued together |
| SelectorExamples.NoDoubledMark | src/style-scope-factory.js:70 | two separated colons do not make a `::` |
| SelectorExamples.WithoutOneMark | src/style-scope-factory.js:104-106 | splitting on the only colon and joining with '' deletes it |
| StyleScope.GenerateScopedRules | src/style-scope-factory.js:39-56 | exactly one scoped text per rule, in order: media rules wrap their recursively scoped children joined by ",", style rules get the scoped selector and `{declarations}`, other rules keep `cssText` |
| StyleScope.GenerateScopedRulesAppend | src/style-scope-factory.js:43-53 | the rule map distributes over concatenation of rule lists |
| StyleScope.PlainStyleRule | src/style-scope-factory.js:49-50 | a style rule with one plain selector becomes `selector[data-scope-<id>]{declarations}` |
| StyleScope.Inserted | src/style-scope-factory.js:127 | each inserted text becomes one rule carrying that text, in order |
| StyleScope.StyleSheet.InsertRule | src/style-scope-factory.js:127 | `insertRule(text, index)` puts the new rule at `index` and moves the rest up |
| StyleScope.StyleSheet.RemoveRule | src/style-scope-factory.js:128 | `removeRule(index)` drops the rule at `index` and moves the rest down |
| StyleScope.ReplaceRuleObjects | src/style-scope-factory.js:124-130 | after slot k the first k slots hold the new rules and the rest the old tail; at the end the list is the new rules and its length is unchanged |
| StyleScope.SheetToString | src/style-scope-factory.js:133-140 | the result is each rule's text followed by "\n", in order |
| StyleScope.SheetTextInserted | src/style-scope-factory.js:133-140 | a sheet of inserted texts serialises to those texts, one per line |
| StyleScope.LinesSplit | src/style-scope-factory.js:19 | the written `innerHTML` splits back on "\n" into the scoped rule texts |
| StyleScope.StyleScopeFactory.Build | src/style-scope-factory.js:6-21 | a set, non-empty `x-scope` is returned and nothing changes; otherwise the rules become their scoped texts, `x-scope` holds the returned id and `innerHTML` is the scoped texts one per line |
| StyleScope.BuildTwice | src/style-scope-factory.js:6-21 | after a non-empty first id, a second build returns that id and the rules, `x-scope` and `innerHTML` stay as the first build left them; after an empty id the second build runs again under its own id over the inserted rules |
| StyleScope.RescopeInserted | src/style-scope-factory.js:43-53 | rules known only by their text pass through `generateScopedRules` unchanged |
| Dom.IndexOfName | src/component.js:45-47 | the index of the first attribute with the name, or -1 exactly when there is none |
| Dom.GetAttribute | src/style-scope-factory.js:7 | `getAttribute` answers a value exactly when the attribute is set, and that attribute is present |
| Dom.SetAttribute | src/component.js:47 | `setAttribute` makes `getAttribute` answer the new value; an existing attribute keeps its place and takes the new value while every other attribute stays as it was; a new one is appended |
| Dom.RemoveNames | src/component.js:45 | removal keeps exactly the attributes whose names are not removed |
| Dom.RemoveAttribute | src/component.js:45 | `removeAttribute(name)` leaves no attribute of that name and keeps all others |
| Dom.ScopeAttrs | src/utils.js:32-38 | `getScopeAttrs` keeps exactly the attributes whose name matches the unanchored `data-scope-[a-z0-9]+`, in order; the copy at src/component.js:50-56 is the same filter |
| Dom.OtherAttrs | src/component.js:43-48 | the attributes not matching the pattern, in order |
| Dom.ScopeAttrsAppend | src/utils.js:32-38 | `getScopeAttrs` is an order-preserving filter: it distributes over concatenation |
| Dom.OtherAttrsAppend | src/component.js:50-56 | so does its complement |
| Dom.OtherAttrsFilters | src/component.js:50-56 | the non-matching attributes contain no match and are their own filter |
| Dom.ScopeAttrNameMatches | src/component.js:47-54 | the attribute `data-scope-<id>` set for a valid id matches the pattern |
| Dom.MarkerIsNotScopeAttr | src/component.js:50-56 | `data-css-scope` does not match the pattern, so scoping never removes the component marker |
| ScopeElement.ScopeElementAttrs | src/component.js:43-48 | the corrected removal loop (removing by `attr.name`) followed by `setAttribute` leaves the non-matching attributes in order, then `data-scope-<id>` with the empty value |
| ScopeElement.RemoveEachNames | src/component.js:45 | removing names one by one removes exactly the set of them |
| ScopeElement.RemoveScopeNames | src/component.js:45 | removing the names of the matching attributes leaves the others |
| ScopeElement.ScopedAttrsShape | src/component.js:43-48 | `scopeElement` leaves the other attributes in order and appends the one scope attribute |
| ScopeElement.ScopedAttrsSingleScope | src/component.js:43-48 | after `scopeElement(el, id)` the only attribute matching the pattern is `data-scope-<id>`, with value "" |
| ScopeElement.ScopedAttrsKeepOthers | src/component.js:43-48 | attributes not matching the pattern are unchanged and keep their order |
| ScopeElement.ScopedAttrsIdempotent | src/component.js:43-48 | scoping twice with the same id equals scoping once |
| ScopeElement.ScopedAttrsKeepMarker | src/component.js:43-48 | an element is a component root after scoping exactly when it was before |
| ScopeElement.RemoveEachAsWrittenKeepsAll | src/component.js:45 | as written, the removals remove nothing, because every one of them asks for "[object Attr]" |
| ScopeElement.StaleScopeAttrSurvives | src/component.js:45 | as written, an element already scoped under another id keeps that attribute and ends with two scope attributes |
| Walk.Walk | src/utils.js:20-30 | the loop visits exactly the sequence `WalkOrder`: the node, then, unless the callback said `false`, each child's walk in order |
| Walk.WalkVisits | src/utils.js:21-29 | a node is visited exactly when every node above it answered other than `false`; `false` prunes exactly that node's descendants |
| Walk.WalkChildrenVisits | src/utils.js:23-29 | the children's walks visit exactly the paths below a child from the start index on that are reached |
| Walk.WalkOrderPrefix | src/utils.js:23-29 | every path a walk visits lies below the walk's root |
| Walk.WalkChildrenPrefix | src/utils.js:23-29 | the children's walks visit only paths below those children |
| Walk.WalkOrderIncreasing | src/utils.js:20-30 | the visit list is strictly increasing in document order: pre-order, siblings left to right |
| Walk.WalkChildrenIncreasing | src/utils.js:23-29 | the children's walks together are strictly increasing in document order |
| Walk.WalkOrderDistinct | src/utils.js:23-29 | no node is visited twice |
| Walk.WalkOrderPreOrder | src/utils.js:21-26 | a node is visited before each of its visited descendants |
| Walk.PrefixLess | src/utils.js:21-26 | an ancestor precedes its descendants in document order |
| Walk.DifferLess | src/utils.js:23-29 | a node in an earlier sibling's subtree precedes one in a later sibling's |
| Component.ScopeElementsSameShape | src/component.js:35-41 | scoping changes attributes and flags, never the shape of the tree |
| Component.OwnedScoped | src/component.js:35-41 | every node reached without crossing a nested component root gets the corrected `scopeElement(el, scope)` and keeps its `__css_scope` state |
| Component.OwnedHasOneScopeAttr | src/component.js:35-48 | under the corrected `scopeElement`, every owned node ends with exactly one scope attribute, the component's own |
| Component.BoundaryUntouched | src/component.js:20-28 | a nested component root stops the walk: if initialized it is left exactly as it was, otherwise it is what its own constructor makes of it, marked initialized; the outer scope plays no part |
| Component.ReachedValid | src/component.js:18 | a node the walk reaches exists |
| Component.ReachedOwned | src/component.js:17-33 | the owned nodes are those the walk visits and descends into, and the boundary nodes those it visits and stops at |
| Component.ScopedAreWalked | src/component.js:17-41 | `scopeElements` scopes exactly the nodes `walk` visits under the callback of `walkAndSkipNestedComponents` and enters |
| Component.RootIsScoped | src/component.js:20-22 | the component's own element is passed to the callback although it carries `data-css-scope` |
| Component.HandleAddedNodes | src/component.js:74-85 | the `forEach` over one record's added nodes produces exactly `NodeEffects`: one effect per element node, in order |
| Component.HandleBatch | src/component.js:67-87 | the handler's loops produce exactly `BatchEffects`: non-element nodes skipped, component roots constructed, other elements scoped, everything stopped at the first foreign record |
| Component.BatchStep | src/component.js:68-71 | one record either ends the batch or contributes its nodes' effects before the rest |
| Component.NodeStep | src/component.js:75-84 | one added node contributes one effect if it is an element and none otherwise |
| Component.BatchEffectsAppend | src/component.js:68-86 | records of this component contribute their effects in order |
| Component.ForeignRecordEndsBatch | src/component.js:70-71 | the first record whose target lies in another component ends the batch: it and all later records have no effect |
| Component.ForeignRecordSkipped | src/component.js:69-71 | corrected loop: a record from another component is filtered out and the records after it keep their effects |
| Component.SkippingAgrees | src/component.js:67-87 | on a batch without foreign records the corrected loop and the loop as written do the same |
| Component.LaterInsertionDropped | src/component.js:71 | as written, an element added by a record that follows a foreign record in the same batch is never handled; the corrected loop handles it |
| Component.NodeEffectsElements | src/component.js:75-84 | every added element gets exactly one effect, in order; other node types get none |
| Component.AddedComponentConstructed | src/component.js:78-81 | an added component root is constructed with its own id, is not scoped with this component's, and its `__css_scope` state does not change |
| Component.AddedElementScoped | src/component.js:83 | under the corrected `scopeElement`, any other added element, and everything it owns below it, gets exactly one scope attribute: this component's |

## Left out

- `src/index.js` (bootstrap, a document-wide observer, a `window` global), `domReady` and `isTesting`: these are browser events and environment detection.
- `generateScopeId`: `Math.random()` is replaced by the `freshId` parameter of `Build`.
- CSSOM parsing and serialisation: `insertRule` keeps the inserted text as a rule with that `cssText`, without re-parsing it. `CssText` is a stand-in for the browser's `cssText`. Setting `innerHTML` on a `<style>` element does not re-parse the sheet in the model. The `IndexSizeError` that `insertRule` and `removeRule` raise on a bad index is excluded by their preconditions, which the loop meets. The `SyntaxError` that `insertRule` raises on a scoped text the browser cannot parse is not modelled: `InsertRule` accepts any text. In the browser such a throw in the middle of `replaceRuleObjects` leaves the sheet half replaced and `x-scope` unset.
- `instanceof` tests on CSSOM rule classes: the `Rule` datatype says which kind a rule is.
- The DOM tree is a value: `scopeElements` is a function from the tree before to the tree after, and nodes are named by paths. Node identity, aliasing and the order of the in-place attribute writes are not modelled. Each node's update depends only on that node, so the order does not change the result.
- `isSameNode(this.el)` is modelled by the flag saying whether the walk's root is the component's own element. The walks in the source can meet that element only at their root.
- `document.querySelector` on the `data-css-scope` value (src/component.js:7): its result is never used, and `ConstructComponent` always succeeds. The `SyntaxError` it throws when the value is not a valid id selector (empty, starting with a digit, holding a space) is not modelled. Thrown from the construction at src/component.js:24 and 39, it would abort the outer walk and leave the later nodes unscoped; thrown at src/component.js:79, it would abort the rest of the batch.
- The fixed scope `'1234'` is a parameter, as are the ids of nested and added components (`scopeOf`).
- The constructor's observer registration and asynchronous delivery are left out. The handler is modelled on one given batch of records. `closest('[data-css-scope]')` compared with `this.el` is an input flag of each record.
- Component.HandleBatch: the effects of several added nodes on one shared DOM are reported one per node. The model does not compose them when one added node lies inside another. `HandleBatch` follows the loop as written, which ends at the first foreign record; the filtering loop the comment describes is `BatchEffectsSkipping`, proved against it only in the lemmas of the second "## Findings" row.
- Component.ScopeElements: the walk, and the handler through it, apply the corrected `scopeElement`, which removes each matching attribute by name. So `OwnedScoped`, `OwnedHasOneScopeAttr`, `AddedComponentConstructed` and `AddedElementScoped` hold of the corrected program. What src/component.js:45 does as written is `ScopedAttrsAsWritten`, and `StaleScopeAttrSurvives` shows an element ending with two scope attributes under it.
- StyleScope.BuildTwice: the model cannot show the double scoping a second build does after an empty id. Writing `innerHTML` makes the browser re-parse the sheet into style rules, which a second build scopes again. In the model `insertRule` keeps opaque rules that a second `generateScopedRules` passes through unchanged (`RescopeInserted`).
- The expando fields `__css_scope` and `__x` are the `initialized` flag. Storing into `__x` leaves that flag unchanged.

## Findings

| source | as written | input that shows it | evidently intended | confidence | as-written member | corrected member |
|---|---|---|---|---|---|---|
| src/component.js:45 | `el.removeAttribute(attr)` is handed the `Attr` object, which is converted to the name "[object Attr]", so no scope attribute is removed | an element carrying `data-scope-abc` scoped with id `1234` keeps `data-scope-abc` and also gets `data-scope-1234` | remove each matching attribute by `attr.name`, so that only one scope attribute remains (the comment at line 44 says so) | not executed | ScopeElement.StaleScopeAttrSurvives | ScopeElement.ScopedAttrsSingleScope |
| src/component.js:71 | a mutation record whose target lies in another component ends the whole batch with `return` | a batch whose first record comes from a nested component and whose second record adds an element to this component: the element is never scoped | skip that record and go on with the next one (`continue`), as the comment at line 69 ("filter out") says | not executed | Component.LaterInsertionDropped | Component.ForeignRecordSkipped |

# BPEL mapping queries and the BPEL4Chor export plug-in

This project models two parts of the Wapama/Oryx BPMN editor stack and proves
properties of the models.

**The BPEL-to-BPMN mapping utilities** (`BPEL2BPMNMappingUtil`) are static
queries over a BPEL XML tree:
- Is an element an activity?
- Is an invoke synchronous?
- What is an activity's real name?
- Is `createInstance` set to "yes"?
- The child lookups: any, last or all children that match.
- Control links and their names.
- The implicit join condition: link names joined by `" OR "` in hash-set order.
- The `suppressJoinFailure` value inherited up the parent chain.

A DOM node is a value: its name, attributes, children, a text flag and its
text. Java's `HashSet<Node>` is a `set<Node>`. A `NullPointerException` is a
`NullPointer` result (module `BpelMappingUtil`, with `Text` for case folding
and joining).

**The BPEL4Chor export plug-in** (`bpmnplus2bpel4chor.js`) does the following:
- It checks that every edge has a source and a target.
- It marks the faulty edges with overlays numbered `syntaxchecker.<n>`, and hides them again.
- It enriches the generated XPDL4Chor document with the canvas properties.
- It puts an XML declaration in front of the serialized document.
- It either shows the document or posts it to the BPEL4Chor service.
- It turns the service's answer into a result table and into overlays on the shapes its errors name.
- When a shape's name or loop type changes, it warns about inconsistent message-receiving names and about looping receive tasks after an event-based gateway.

The pure parts are specification functions and lemmas in `Bpel4ChorModel`.
The plug-in object is the class `Bpel4ChorPlugin.Bpel4ChorTransformation`. Its
field `raisedEventIds` is the plug-in's own list. Its `log` field records every
event raised, alert shown, dialog opened and request posted, in order. The
generated document is a class `XmlDocument` whose root element the enrichment
replaces.

## Model

| member | source | states |
|---|---|---|
| BpelMappingUtil.LastMatchIsLast | server/src/de/hpi/bpel2bpmn/util/BPEL2BPMNMappingUtil.java:128-140 | the lookup loop that keeps overwriting its match ends with a matching child after which no child matches, and with null exactly when no child matches |
| BpelMappingUtil.LastMatchAbsentIffNoMatches | server/src/de/hpi/bpel2bpmn/util/BPEL2BPMNMappingUtil.java:128-160 | the single lookup is null exactly when the set lookup is empty, and otherwise returns one of that set's members |
| BpelMappingUtil.IsSynchronousInvoke | server/src/de/hpi/bpel2bpmn/util/BPEL2BPMNMappingUtil.java:53-68 | false for anything but an invoke (ignoring case); for an invoke, true exactly when it has an `outputVariable` attribute or a `toParts` child |
| BpelMappingUtil.RealNameOfNode | server/src/de/hpi/bpel2bpmn/util/BPEL2BPMNMappingUtil.java:77-83 | the `name` attribute when present, the element name otherwise |
| BpelMappingUtil.IsCreateInstanceSet | server/src/de/hpi/bpel2bpmn/util/BPEL2BPMNMappingUtil.java:92-99 | true exactly when `createInstance` is present and lower-cases to "yes" |
| BpelMappingUtil.NodeIsMappedToSingleActivity | server/src/de/hpi/bpel2bpmn/util/BPEL2BPMNMappingUtil.java:216-223 | true exactly when the element name equals "assign" or "validate" after case folding |
| BpelMappingUtil.AnyChildMatches | server/src/de/hpi/bpel2bpmn/util/BPEL2BPMNMappingUtil.java:108-120 | the sibling walk raises its flag exactly when some child matches |
| BpelMappingUtil.LastChildMatching | server/src/de/hpi/bpel2bpmn/util/BPEL2BPMNMappingUtil.java:128-140 | the sibling walk returns the last matching child, or null |
| BpelMappingUtil.AllChildrenMatching | server/src/de/hpi/bpel2bpmn/util/BPEL2BPMNMappingUtil.java:148-160 | the sibling walk collects exactly the set of matching children |
| BpelMappingUtil.HasActivityChildNode | server/src/de/hpi/bpel2bpmn/util/BPEL2BPMNMappingUtil.java:108-120 | true exactly when some non-text child's name is in the activity set |
| BpelMappingUtil.GetActivityChildNode | server/src/de/hpi/bpel2bpmn/util/BPEL2BPMNMappingUtil.java:128-140 | the last activity child, or null |
| BpelMappingUtil.GetAllActivityChildNodes | server/src/de/hpi/bpel2bpmn/util/BPEL2BPMNMappingUtil.java:148-160 | the set of activity children |
| BpelMappingUtil.GetSpecificChildNode | server/src/de/hpi/bpel2bpmn/util/BPEL2BPMNMappingUtil.java:192-202 | the last child whose name equals the given name ignoring case, or null |
| BpelMappingUtil.GetAllSpecificChildNodes | server/src/de/hpi/bpel2bpmn/util/BPEL2BPMNMappingUtil.java:204-214 | the set of children whose name equals the given name ignoring case |
| BpelMappingUtil.ActivityLookupsAgree | server/src/de/hpi/bpel2bpmn/util/BPEL2BPMNMappingUtil.java:108-160 | the three activity lookups agree: null last child ⇔ no activity child ⇔ empty activity set |
| BpelMappingUtil.ActivityTestIsCaseSensitive | server/src/de/hpi/bpel2bpmn/util/BPEL2BPMNMappingUtil.java:20-42 | the activity set is matched case-sensitively against lower-case names, so `repeatUntil`, `forEach` and `onMessage` elements are not activities |
| BpelMappingUtil.GetAllActivityChildNodesRecursively | server/src/de/hpi/bpel2bpmn/util/BPEL2BPMNMappingUtil.java:169-181 | as written, the result is always the empty set |
| BpelMappingUtil.AnyCreateInstanceSet | server/src/de/hpi/bpel2bpmn/util/BPEL2BPMNMappingUtil.java:183-190 | the loop over a collection is true exactly when some member has `createInstance` set |
| BpelMappingUtil.HasActivityChildNodeWithCreateInstanceSet | server/src/de/hpi/bpel2bpmn/util/BPEL2BPMNMappingUtil.java:183-190 | as written, never true |
| BpelMappingUtil.ActivityDescendantsCorrected | server/src/de/hpi/bpel2bpmn/util/BPEL2BPMNMappingUtil.java:169-181 | the corrected recursion returns the documented activity descendants |
| BpelMappingUtil.ActivityDescendantsUpToProperties | server/src/de/hpi/bpel2bpmn/util/BPEL2BPMNMappingUtil.java:162-181 | the corrected collection contains only activities, contains every activity child, and contains the whole collection of each activity child |
| BpelMappingUtil.ActivityDescendantsOrigin | server/src/de/hpi/bpel2bpmn/util/BPEL2BPMNMappingUtil.java:162-181 | nothing else is collected: every member of the corrected collection is an activity child of the node or a member of the collection of one |
| BpelMappingUtil.ActivityDescendantsClosed | server/src/de/hpi/bpel2bpmn/util/BPEL2BPMNMappingUtil.java:162-181 | every member of the corrected collection is an activity, and the collection is closed under taking activity children |
| BpelMappingUtil.HasActivityChildNodeWithCreateInstanceSetCorrected | server/src/de/hpi/bpel2bpmn/util/BPEL2BPMNMappingUtil.java:183-190 | corrected: true exactly when some activity descendant has `createInstance` set |
| BpelMappingUtil.CreateInstanceChildIsFound | server/src/de/hpi/bpel2bpmn/util/BPEL2BPMNMappingUtil.java:183-190 | an activity child with `createInstance="yes"` is found by the corrected check |
| BpelMappingUtil.HasControlLinks | server/src/de/hpi/bpel2bpmn/util/BPEL2BPMNMappingUtil.java:225-255 | the shared control-link test: the last container child exists and has a link child |
| BpelMappingUtil.NodeHasIncomingControlLinks | server/src/de/hpi/bpel2bpmn/util/BPEL2BPMNMappingUtil.java:225-239 | a `targets` child exists whose last occurrence has a `target` child |
| BpelMappingUtil.NodeHasOutgoingControlLinks | server/src/de/hpi/bpel2bpmn/util/BPEL2BPMNMappingUtil.java:241-255 | a `sources` child exists whose last occurrence has a `source` child |
| BpelMappingUtil.ControlLinksIff | server/src/de/hpi/bpel2bpmn/util/BPEL2BPMNMappingUtil.java:225-255 | the test holds exactly when some child of the last container matches the link name |
| BpelMappingUtil.GetJoinConditionOfNode | server/src/de/hpi/bpel2bpmn/util/BPEL2BPMNMappingUtil.java:265-286 | the explicit condition's text when there is one, else the targets' link names joined by " OR " in some iteration order of the target set; null dereference without `targets` or `linkName` |
| BpelMappingUtil.ImplicitJoinCondition | server/src/de/hpi/bpel2bpmn/util/BPEL2BPMNMappingUtil.java:275-285 | with no targets the implicit condition is ""; for n targets it is the n link names in iteration order with " OR " between neighbours, 2n-1 pieces |
| BpelMappingUtil.LinkNamesShape | server/src/de/hpi/bpel2bpmn/util/BPEL2BPMNMappingUtil.java:277-283 | one link name per target, in order |
| BpelMappingUtil.ControlLinkNames | server/src/de/hpi/bpel2bpmn/util/BPEL2BPMNMappingUtil.java:305-321 | the set of `linkName`s of the link children of the last container, or a null dereference |
| BpelMappingUtil.GetAllIncomingControlLinkNames | server/src/de/hpi/bpel2bpmn/util/BPEL2BPMNMappingUtil.java:305-312 | the `linkName`s of the `target` children of `targets` |
| BpelMappingUtil.GetAllOutgoingControlLinkNames | server/src/de/hpi/bpel2bpmn/util/BPEL2BPMNMappingUtil.java:314-321 | the `linkName`s of the `source` children of `sources` |
| BpelMappingUtil.ControlLinkNamesMembers | server/src/de/hpi/bpel2bpmn/util/BPEL2BPMNMappingUtil.java:305-321 | success implies a container exists; a name is collected exactly when some link child carries it |
| BpelMappingUtil.IsSuppressJoinFailureAsWritten | server/src/de/hpi/bpel2bpmn/util/BPEL2BPMNMappingUtil.java:288-302 | as written, the nearest ancestor-or-self carrying `suppressJoinFailure` decides; it is true only if some node of the chain carries "yes" in any case, and it dereferences null only when the top element sits in a document and no node of the chain carries the attribute |
| BpelMappingUtil.IsSuppressJoinFailure | server/src/de/hpi/bpel2bpmn/util/BPEL2BPMNMappingUtil.java:288-302 | corrected: the nearest ancestor-or-self carrying the attribute decides; it is true only if some node of the chain carries "yes", and false when no element carries it |
| BpelMappingUtil.SuppressJoinFailureNearestDecides | server/src/de/hpi/bpel2bpmn/util/BPEL2BPMNMappingUtil.java:288-302 | the nearest ancestor-or-self carrying the attribute decides ("yes" in any case gives true); with no carrier the result is false |
| BpelMappingUtil.SuppressJoinFailureOwnValueWins | server/src/de/hpi/bpel2bpmn/util/BPEL2BPMNMappingUtil.java:288-302 | a node's own non-"yes" value gives false whatever its ancestors carry |
| BpelMappingUtil.SuppressJoinFailureAsWrittenAgrees | server/src/de/hpi/bpel2bpmn/util/BPEL2BPMNMappingUtil.java:288-302 | where the as-written walk returns, it agrees with the corrected one; it dereferences null exactly when the top element is in a document and no node of the chain carries the attribute |
| BpelMappingUtil.SuppressJoinFailureDocumentCounterexample | server/src/de/hpi/bpel2bpmn/util/BPEL2BPMNMappingUtil.java:288-302 | an activity under a `process` without the attribute: as written a null dereference, corrected false |
| Text.EqualsIgnoreCaseIsLowerEquality | server/src/de/hpi/bpel2bpmn/util/BPEL2BPMNMappingUtil.java:216-223 | comparing ignoring case is equality of the lower-cased strings |
| Text.JoinHasSeparatorsBetweenParts | server/src/de/hpi/bpel2bpmn/util/BPEL2BPMNMappingUtil.java:275-285 | a join of n parts is the parts in order with exactly one separator between neighbours |
| Text.NatToStringInjective | designer/src/main/webapp/js/Plugins/bpmnplus2bpel4chor.js:481 | different counters render to different decimal strings |
| Bpel4ChorModel.OverlayIdInjective | designer/src/main/webapp/js/Plugins/bpmnplus2bpel4chor.js:479-500 | overlay ids `syntaxchecker.<n>` for different n differ |
| Bpel4ChorModel.OverlayIdsAt | designer/src/main/webapp/js/Plugins/bpmnplus2bpel4chor.js:479-500 | the i-th recorded overlay id is `syntaxchecker.<i>` |
| Bpel4ChorModel.OverlayIdsDistinct | designer/src/main/webapp/js/Plugins/bpmnplus2bpel4chor.js:479-500 | the recorded overlay ids are pairwise distinct |
| Bpel4ChorModel.OverlayEventsConcat | designer/src/main/webapp/js/Plugins/bpmnplus2bpel4chor.js:479-500 | raising two batches of overlays numbers the second batch after the first |
| Bpel4ChorModel.OverlayEventsAt | designer/src/main/webapp/js/Plugins/bpmnplus2bpel4chor.js:479-500 | one overlay event per mark, the i-th with id `syntaxchecker.<start+i>` on that mark's shape and text |
| Bpel4ChorModel.HideEventsAt | designer/src/main/webapp/js/Plugins/bpmnplus2bpel4chor.js:505-515 | one hide event per recorded id, in order |
| Bpel4ChorModel.ValidationMarksMatchUnconnected | designer/src/main/webapp/js/Plugins/bpmnplus2bpel4chor.js:178-199 | one mark per unconnected edge, in order: "no source" when it has no incoming shape, otherwise "no target" |
| Bpel4ChorModel.ValidationMarksEmptyIff | designer/src/main/webapp/js/Plugins/bpmnplus2bpel4chor.js:178-199 | no edge is marked exactly when every edge has a source and a target |
| Bpel4ChorModel.UnconnectedAppend | designer/src/main/webapp/js/Plugins/bpmnplus2bpel4chor.js:182-197 | one more edge adds itself to the unconnected edges exactly when it lacks a source or a target |
| Bpel4ChorModel.ErrorTextIsJoinedLines | designer/src/main/webapp/js/Plugins/bpmnplus2bpel4chor.js:305-315 | a failed record's text is its error messages, each with its id in parentheses when it has one, each ended by a newline |
| Bpel4ChorModel.TwoErrorsOneRow | designer/src/main/webapp/js/Plugins/bpmnplus2bpel4chor.js:300-318 | a failed record with two errors becomes one "error" row holding both messages on separate lines |
| Bpel4ChorModel.FailedErrorsAppend | designer/src/main/webapp/js/Plugins/bpmnplus2bpel4chor.js:287-325 | the collected errors of two runs of records are those of the first followed by those of the second |
| Bpel4ChorModel.FailedErrorsMembers | designer/src/main/webapp/js/Plugins/bpmnplus2bpel4chor.js:300-315 | an error is collected exactly when it belongs to a failed record |
| Bpel4ChorModel.FailedErrorsEmptyIff | designer/src/main/webapp/js/Plugins/bpmnplus2bpel4chor.js:321-325 | the error list is empty exactly when no failed record has errors |
| Bpel4ChorModel.FirstMatchingIsFirst | designer/src/main/webapp/js/Plugins/bpmnplus2bpel4chor.js:366-376 | the lookup returns a matching shape with no earlier match, and nothing exactly when no shape matches |
| Bpel4ChorModel.ResolveErrorShapeCases | designer/src/main/webapp/js/Plugins/bpmnplus2bpel4chor.js:362-381 | a shape whose resource id equals the error id wins; otherwise the process-id lookup decides; an error is marked exactly when its id is not "undefined" and it resolves |
| Bpel4ChorModel.ErrorMarksAppend | designer/src/main/webapp/js/Plugins/bpmnplus2bpel4chor.js:362-381 | the marks of two runs of errors are those of the first followed by those of the second |
| Bpel4ChorModel.ErrorMarksEmptyIff | designer/src/main/webapp/js/Plugins/bpmnplus2bpel4chor.js:362-381 | no overlay is raised exactly when every error is "undefined" or resolves to no shape |
| Bpel4ChorModel.WithXmlDeclaration | designer/src/main/webapp/js/Plugins/bpmnplus2bpel4chor.js:435-436 | the result starts with `<?xml`; a document that already does is unchanged, any other gets the UTF-8 declaration in front |
| Bpel4ChorModel.WithXmlDeclarationIdempotent | designer/src/main/webapp/js/Plugins/bpmnplus2bpel4chor.js:435-436 | adding the declaration twice is adding it once |
| Bpel4ChorModel.EnrichedAttributes | designer/src/main/webapp/js/Plugins/bpmnplus2bpel4chor.js:209-227 | the root carries target namespace, name and id from the canvas, with a fresh id when the canvas id is "", and keeps every other attribute |
| Bpel4ChorModel.EnrichedChildren | designer/src/main/webapp/js/Plugins/bpmnplus2bpel4chor.js:229-252 | the package header gets a `Created` child with the creation date; a `RedefinableHeader` with query and expression language when non-empty is inserted second; the other children are kept in order |
| Bpel4ChorModel.TransformOutcomeCases | designer/src/main/webapp/js/Plugins/bpmnplus2bpel4chor.js:395-458 | the export stops exactly when some edge is unconnected; otherwise it fails without a document or a package header, or shows (XPDL4Chor) or posts (BPEL4Chor) the enriched, declared document; the spinner is switched off on every path but the post and the throwing enrichment |
| Bpel4ChorModel.NameScanWarnsIffDisagree | designer/src/main/webapp/js/Plugins/bpmnplus2bpel4chor.js:129-143 | the name scan warns exactly when some defined receiving name is followed by a different or missing one, and then quotes the first defined name |
| Bpel4ChorModel.NameScanFromDefined | designer/src/main/webapp/js/Plugins/bpmnplus2bpel4chor.js:129-143 | once a name is fixed, the scan is silent exactly when every later name equals it |
| Bpel4ChorModel.GatewayPredecessorCountPositive | designer/src/main/webapp/js/Plugins/bpmnplus2bpel4chor.js:151-156 | the count of gateway predecessors is positive exactly when some incoming sequence flow has an event-based-gateway source (the loop-type test is stated by `LoopWarningIff`) |
| Bpel4ChorModel.LoopWarningIff | designer/src/main/webapp/js/Plugins/bpmnplus2bpel4chor.js:145-166 | a loop warning is due exactly for a receive task with loop type other than "None" after an event-based gateway |
| Bpel4ChorModel.FlattenEmptyIff | designer/src/main/webapp/js/Plugins/bpmnplus2bpel4chor.js:101-167 | no warning is due overall exactly when none is due for any shape |
| Bpel4ChorModel.FirstThrowIff | designer/src/main/webapp/js/Plugins/bpmnplus2bpel4chor.js:138-140 | the unbound callback throws exactly when some shape has a warning due |
| Bpel4ChorModel.PropertyChangedAsWrittenThrowsIffWarningDue | designer/src/main/webapp/js/Plugins/bpmnplus2bpel4chor.js:98-169 | as written, the handler throws exactly when a warning is due, which is exactly when some changed shape has one |
| Bpel4ChorModel.PropertyChangedCounterexample | designer/src/main/webapp/js/Plugins/bpmnplus2bpel4chor.js:145-166 | a looping receive task after an event-based gateway: the loop warning is due, and as written the handler throws |
| Bpel4ChorPlugin.XmlDocument.constructor | designer/src/main/webapp/js/Plugins/bpmnplus2bpel4chor.js:426 | the generated document holds the given root element |
| Bpel4ChorPlugin.FindShape | designer/src/main/webapp/js/Plugins/bpmnplus2bpel4chor.js:366-376 | the lookup loop returns the first matching shape |
| Bpel4ChorPlugin.CollectErrors | designer/src/main/webapp/js/Plugins/bpmnplus2bpel4chor.js:305-315 | the inner loop builds the record's error text and appends its errors to those collected |
| Bpel4ChorPlugin.BuildDisplayData | designer/src/main/webapp/js/Plugins/bpmnplus2bpel4chor.js:281-328 | one row per record (file, text, status), or the single placeholder row for no records; the errors of the failed records in order |
| Bpel4ChorPlugin.CheckShape | designer/src/main/webapp/js/Plugins/bpmnplus2bpel4chor.js:102-166 | the warnings due for one changed shape |
| Bpel4ChorPlugin.FirstNameMismatch | designer/src/main/webapp/js/Plugins/bpmnplus2bpel4chor.js:129-143 | the nested name loop returns the name the warning quotes, or nothing |
| Bpel4ChorPlugin.Bpel4ChorTransformation.constructor | designer/src/main/webapp/js/Plugins/bpmnplus2bpel4chor.js:43-77 | no overlays recorded, nothing logged |
| Bpel4ChorPlugin.Bpel4ChorTransformation.RaisedIdsDistinct | designer/src/main/webapp/js/Plugins/bpmnplus2bpel4chor.js:479-515 | the recorded overlay ids are pairwise distinct |
| Bpel4ChorPlugin.Bpel4ChorTransformation.ShowOverlay | designer/src/main/webapp/js/Plugins/bpmnplus2bpel4chor.js:479-500 | raises an overlay with id `syntaxchecker.<count>` on the shape and records the id |
| Bpel4ChorPlugin.Bpel4ChorTransformation.HideOverlays | designer/src/main/webapp/js/Plugins/bpmnplus2bpel4chor.js:505-515 | hides every recorded overlay in order, then forgets them |
| Bpel4ChorPlugin.Bpel4ChorTransformation.ValidateEdge | designer/src/main/webapp/js/Plugins/bpmnplus2bpel4chor.js:183-196 | marks one edge "no source" or else "no target" when it lacks one; tells whether it is connected |
| Bpel4ChorPlugin.Bpel4ChorTransformation.Validate | designer/src/main/webapp/js/Plugins/bpmnplus2bpel4chor.js:178-199 | valid exactly when every edge is connected; raises one overlay per unconnected edge, numbered after those already recorded |
| Bpel4ChorPlugin.Bpel4ChorTransformation.AddCanvasProperties | designer/src/main/webapp/js/Plugins/bpmnplus2bpel4chor.js:208-253 | with a package header the root becomes the enriched root; without an element first child the root attributes are set before the DOM call on that child throws |
| Bpel4ChorPlugin.Bpel4ChorTransformation.Deliver | designer/src/main/webapp/js/Plugins/bpmnplus2bpel4chor.js:425-457 | the part of the export after validation: no document, a throwing enrichment, or the document shown or posted, each with its events |
| Bpel4ChorPlugin.Bpel4ChorTransformation.Transform | designer/src/main/webapp/js/Plugins/bpmnplus2bpel4chor.js:395-458 | hides the old overlays, marks the unconnected edges numbered from 0, then delivers the outcome `TransformOutcome` describes, with its events and document effects |
| Bpel4ChorPlugin.Bpel4ChorTransformation.TransformXpdl4Chor | designer/src/main/webapp/js/Plugins/bpmnplus2bpel4chor.js:463-466 | switches the spinner on, then runs the XPDL4Chor export: the outcome, the full log, one recorded overlay per unconnected edge, and the document root left alone, given the canvas attributes only, or enriched, per outcome |
| Bpel4ChorPlugin.Bpel4ChorTransformation.TransformBpel4Chor | designer/src/main/webapp/js/Plugins/bpmnplus2bpel4chor.js:471-474 | switches the spinner on, then runs the BPEL4Chor export: the outcome, the full log, one recorded overlay per unconnected edge, and the document root left alone, given the canvas attributes only, or enriched, per outcome |
| Bpel4ChorPlugin.Bpel4ChorTransformation.MarkError | designer/src/main/webapp/js/Plugins/bpmnplus2bpel4chor.js:362-381 | marks the shape an error resolves to, unless its id is "undefined" |
| Bpel4ChorPlugin.Bpel4ChorTransformation.MarkErrors | designer/src/main/webapp/js/Plugins/bpmnplus2bpel4chor.js:362-381 | marks the shape of every error in turn |
| Bpel4ChorPlugin.Bpel4ChorTransformation.DisplayResult | designer/src/main/webapp/js/Plugins/bpmnplus2bpel4chor.js:342-384 | spinner off; an answer that does not evaluate is alerted and the handler stops; a version other than "1.0" is alerted; no result opens the no-result dialog; otherwise every resolving error is marked and the result table is opened |
| Bpel4ChorPlugin.Bpel4ChorTransformation.PropertyChanged | designer/src/main/webapp/js/Plugins/bpmnplus2bpel4chor.js:98-169 | as written: the handler completes or throws at the first warning that is due |
| Bpel4ChorPlugin.Bpel4ChorTransformation.PropertyChangedCorrected | designer/src/main/webapp/js/Plugins/bpmnplus2bpel4chor.js:98-169 | as intended: one warning dialog per warning due, shape by shape |

## Left out

- `designer/src/main/webapp/js/Core/svgDrag.js` is not part of this model. It is browser drag handling, outside the export.
- The XSLT run, DOM parsing and XML serialization are left out because they are browser services. The generated document is an `Option` (the `None` case is the transformation that throws), and serialization is a function parameter.
- The Ajax calls and `eval` of the answer are left out. The service's answer arrives as an `Option<ServiceResponse>`, where `None` means it does not evaluate. The asynchronous callback is a separate call to `DisplayResult`.
- Dialog rendering and `getResultInfo` are left out. `buildXPDL4ChorData` is the `XpdlResultDialogOpened` event carrying the document.
- The overlay glyph and its `nodePosition` are left out: they are decoration.
- `DataManager.__provideId` is the `freshId` parameter.
- The I18N message texts are kept abstract. Overlay and dialog texts are constructors. The edge title and id, the expected name and the service's version are carried as substitutions.
- The exception name and message that the "no generation" dialog quotes are dropped: `NoGeneration` carries no fields, because the generated document is an `Option` without the error.
- The exception and the answer text that the evaluation-failure alert quotes are dropped: `EvaluationFailed` carries no fields, because an unevaluable answer is `None`.
- Concurrency and the event bus's own reactions are left out.
- The iteration order of a Java `HashSet` is unspecified, so `GetJoinConditionOfNode` returns it as a ghost `order`. Sibling nodes that are equal as values collapse in a `set<Node>`.
- `Node` admits states a DOM cannot have, such as a text node with attributes, children, or a name other than `#text`. Java's `getAttributes()` is null on a text node, so `getRealNameOfNode` and `isCreateInstanceSet` throw there. `RealNameOfNode` and `IsCreateInstanceSet` return a value for a text node instead; the model treats only elements as inputs to them.
- Case folding covers ASCII letters only. Java's `equalsIgnoreCase` and JavaScript's `toLowerCase` also fold other letters.
- The canvas lookups (`getChildShapeByResourceId`, and `getChildShapes(true)` with `find`) are a first match over one flat sequence of shapes.
- A shape whose `wapama-name` is absent is modelled by an `Option` lookup.
- The record fields `name` and `document` are always present. A "PROCESS" record without `name`, which makes the file `undefined`, is not modelled. Neither is a successful record without `document`. Other absent fields of the answer are not modelled either.
- The grouping of receiving shapes assumes Prototype 1.5's `Hash`. There, the bracket assignment of a group is what `values()` returns, in insertion order. Under Prototype 1.6's `Hash`, `values()` would be empty and the name check would never warn. That variant is not modelled.
- A failed transport for the posted request has no handler in the code, so nothing is recorded for it. Only an answer that arrives is modelled.
- BpelMappingUtil.NodeIsMappedToSingleActivity: stated as equality of lower-cased names (ASCII folding), not with Java's full Unicode `equalsIgnoreCase`.

## Findings

| source | as written | input that shows it | evidently intended | confidence | as-written member | corrected member |
|---|---|---|---|---|---|---|
| server/src/de/hpi/bpel2bpmn/util/BPEL2BPMNMappingUtil.java:169-190 | the recursion adds only the results of its recursive calls, never a node, so it always returns the empty set and `hasActivityChildNodeWithCreateInstanceSet` is always false | a `flow` with one `receive` child carrying `createInstance="yes"` | collect every activity child and its own activity descendants, recursing through activity children as the recursive call does; this is one of two readings, the other recursing through every child as the Javadoc's "all child nodes" suggests, which would also find an activity under a non-activity such as `if` | not executed | BpelMappingUtil.HasActivityChildNodeWithCreateInstanceSet | BpelMappingUtil.HasActivityChildNodeWithCreateInstanceSetCorrected |
| server/src/de/hpi/bpel2bpmn/util/BPEL2BPMNMappingUtil.java:288-302 | walking up past the top element reaches the Document node, whose attribute map is null, and dereferences it | an `empty` activity inside a `process` element, with no element in the chain carrying `suppressJoinFailure` | stop at the top element and return the default false | not executed | BpelMappingUtil.SuppressJoinFailureDocumentCounterexample | BpelMappingUtil.IsSuppressJoinFailure |
| designer/src/main/webapp/js/Plugins/bpmnplus2bpel4chor.js:101-166 | the callbacks given to `each` are not bound to the plug-in, so `this.dialogSupport` is undefined and the would-be warning throws a TypeError | a receive task with loop type "Standard" whose incoming sequence flow comes from an event-based gateway, when its loop type changes | open the warning dialog | not executed | Bpel4ChorModel.PropertyChangedCounterexample | Bpel4ChorPlugin.Bpel4ChorTransformation.PropertyChangedCorrected |

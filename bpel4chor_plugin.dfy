/**
 * The BPEL4Chor export plugin as an object: it keeps the ids of the
 * overlays it has raised and records, in `log`, every event it hands to the
 * editor facade, every dialog and alert it opens and every request it
 * posts. The generated XPDL4Chor document is an object whose root the
 * plugin edits in place.
 */
module Bpel4ChorPlugin {
  import opened Text
  import opened Bpel4ChorModel

  /** A DOM document, reduced to its document element. */
  class XmlDocument {
    var root: Element

    constructor (root: Element)
      ensures this.root == root
    {
      this.root := root;
    }
  }

  /** The first shape that matches (`find`, and the canvas lookup by resource id). */
  method FindShape(shapes: seq<Shape>, lookup: Lookup) returns (r: Option<Shape>)
    ensures r == FirstMatching(shapes, lookup)
  {
    var i := 0;
    while i < |shapes|
      invariant 0 <= i <= |shapes|
      invariant FirstMatching(shapes, lookup) == FirstMatching(shapes[i..], lookup)
    {
      if ShapeMatches(shapes[i], lookup) {
        return Some(shapes[i]);
      }
      assert shapes[i..][1..] == shapes[i + 1..];
      i := i + 1;
    }
    return None;
  }

  /** The inner loop over a failed record's errors: its error text, and the errors collected so far extended by them. */
  method CollectErrors(collected: seq<ServiceError>, recordErrors: seq<ServiceError>) returns (text: string, errors: seq<ServiceError>)
    ensures text == ErrorText(recordErrors)
    ensures errors == collected + recordErrors
  {
    text := "";
    errors := collected;
    var j := 0;
    while j < |recordErrors|
      invariant 0 <= j <= |recordErrors|
      invariant text == ErrorText(recordErrors[..j])
      invariant errors == collected + recordErrors[..j]
    {
      var error := recordErrors[j];
      text := text + error.message;
      if error.id.Some? && error.id.value != "" {
        text := text + " (" + error.id.value + ")";
      }
      text := text + "\n";
      errors := errors + [error];
      assert recordErrors[..j + 1][..j] == recordErrors[..j];
      j := j + 1;
    }
    assert recordErrors[..j] == recordErrors;
  }

  /** The result table and the errors to highlight, built record by record. */
  method BuildDisplayData(entries: seq<ResultEntry>) returns (data: seq<Row>, errors: seq<ServiceError>)
    ensures data == DisplayRows(entries)
    ensures errors == FailedErrors(entries)
  {
    data := [Placeholder];
    errors := [];
    var i := 0;
    while i < |entries|
      invariant 0 <= i <= |entries|
      invariant i == 0 ==> data == [Placeholder]
      invariant i > 0 ==> |data| == i && forall k :: 0 <= k < i ==> data[k] == RowOf(entries[k])
      invariant errors == FailedErrors(entries[..i])
    {
      var entry := entries[i];
      var file := if entry.kind == "PROCESS" then entry.name else Lower(entry.kind);
      var row;
      assert entries[..i + 1][..i] == entries[..i];
      if entry.success {
        row := Row(file, entry.document, "success");
      } else {
        var text;
        text, errors := CollectErrors(errors, entry.errors);
        row := Row(file, text, "error");
      }
      data := if i == 0 then [row] else data + [row];
      i := i + 1;
    }
    assert entries[..i] == entries;
  }

  /** The warnings due for one changed shape, with the name scan done as a loop. */
  method CheckShape(propId: string, shape: Shape, diagram: seq<Shape>) returns (warnings: seq<DialogText>)
    ensures warnings == ShapeWarnings(propId, shape, diagram)
  {
    if propId == "wapama-name" {
      warnings := [];
      if IsReceiving(shape) {
        var expected := FirstNameMismatch(ReceivingNames(shape, diagram));
        if expected.Some? {
          warnings := [WrongValue(expected.value)];
        }
      }
    } else if propId == "wapama-looptype" {
      warnings := seq(LoopWarningCount(shape, diagram), _ => LoopNone);
    } else {
      warnings := [];
    }
  }

  /** The name scan: the first defined name, reported at the first later name that differs from it. */
  method FirstNameMismatch(names: seq<Option<string>>) returns (expected: Option<string>)
    ensures expected == NameScan(None, names)
  {
    var name: Option<string> := None;
    var i := 0;
    while i < |names|
      invariant 0 <= i <= |names|
      invariant NameScan(None, names) == NameScan(name, names[i..])
    {
      assert names[i..][1..] == names[i + 1..];
      if name.None? {
        name := names[i];
      } else if name != names[i] {
        return Some(name.value);
      }
      i := i + 1;
    }
    return None;
  }

  class Bpel4ChorTransformation {
    /** The ids of the overlays raised since they were last hidden. */
    var raisedEventIds: seq<string>
    /** Everything the plugin has raised, opened or posted, in order. */
    var log: seq<Event>

    /** The i-th raised overlay has id "syntaxchecker.i". */
    ghost predicate Valid()
      reads this
    {
      raisedEventIds == OverlayIds(|raisedEventIds|)
    }

    constructor ()
      ensures raisedEventIds == [] && log == []
      ensures Valid()
    {
      raisedEventIds := [];
      log := [];
    }

    /** The raised overlays carry pairwise different ids, so hiding one hides no other. */
    lemma RaisedIdsDistinct()
      requires Valid()
      ensures forall i, j :: 0 <= i < |raisedEventIds| && 0 <= j < |raisedEventIds| && raisedEventIds[i] == raisedEventIds[j] ==> i == j
    {
      OverlayIdsDistinct(|raisedEventIds|);
    }

    /** Raise an overlay on `shape`, numbered by how many are recorded, and record its id. */
    method ShowOverlay(shape: Shape, text: OverlayText)
      modifies this
      requires Valid()
      ensures Valid()
      ensures raisedEventIds == old(raisedEventIds) + [OverlayId(|old(raisedEventIds)|)]
      ensures log == old(log) + [OverlayShown(OverlayId(|old(raisedEventIds)|), shape, text)]
    {
      var id := OverlayId(|raisedEventIds|);
      log := log + [OverlayShown(id, shape, text)];
      raisedEventIds := raisedEventIds + [id];
    }

    /** Hide every recorded overlay, in order, and forget them. */
    method HideOverlays()
      modifies this
      ensures Valid()
      ensures raisedEventIds == []
      ensures log == old(log) + HideEvents(old(raisedEventIds))
    {
      var ids := raisedEventIds;
      var i := 0;
      while i < |ids|
        invariant 0 <= i <= |ids|
        invariant log == old(log) + HideEvents(ids[..i])
      {
        log := log + [OverlayHidden(ids[i])];
        assert ids[..i + 1][..i] == ids[..i];
        i := i + 1;
      }
      assert ids[..i] == ids;
      raisedEventIds := [];
    }

    /** The body of the validation loop: mark one edge when it lacks a source or else a target. */
    method ValidateEdge(edge: Shape) returns (connected: bool)
      modifies this
      requires Valid()
      ensures Valid()
      ensures connected <==> IsConnected(edge)
      ensures |raisedEventIds| == |old(raisedEventIds)| + |EdgeMarks(edge)|
      ensures log == old(log) + OverlayEvents(EdgeMarks(edge), |old(raisedEventIds)|)
    {
      connected := true;
      if |edge.incoming| == 0 {
        ShowOverlay(edge, NoSource(edge.stencil.title, edge.id));
        OverlayEventsSingle(Mark(edge, NoSource(edge.stencil.title, edge.id)), |old(raisedEventIds)|);
        connected := false;
      } else if |edge.outgoing| == 0 {
        ShowOverlay(edge, NoTarget(edge.stencil.title, edge.id));
        OverlayEventsSingle(Mark(edge, NoTarget(edge.stencil.title, edge.id)), |old(raisedEventIds)|);
        connected := false;
      }
    }

    /** Mark every edge without a source or a target; the diagram is valid when none is marked. */
    method Validate(edges: seq<Shape>) returns (valid: bool)
      modifies this
      requires Valid()
      ensures Valid()
      ensures valid <==> forall i :: 0 <= i < |edges| ==> IsConnected(edges[i])
      ensures |raisedEventIds| == |old(raisedEventIds)| + |ValidationMarks(edges)|
      ensures log == old(log) + OverlayEvents(ValidationMarks(edges), |old(raisedEventIds)|)
    {
      valid := true;
      ghost var start := |raisedEventIds|;
      ghost var initial := log;
      var i := 0;
      while i < |edges|
        invariant 0 <= i <= |edges|
        invariant Valid()
        invariant |raisedEventIds| == start + |ValidationMarks(edges[..i])|
        invariant log == initial + OverlayEvents(ValidationMarks(edges[..i]), start)
        invariant valid <==> ValidationMarks(edges[..i]) == []
      {
        ghost var previous := log;
        var connected := ValidateEdge(edges[i]);
        ValidationStep(edges, i, start, initial, previous, log);
        if !connected {
          valid := false;
        }
        i := i + 1;
      }
      assert edges[..i] == edges;
      ValidationMarksEmptyIff(edges);
    }

    /**
     * Set the canvas attributes on the document element, then append the
     * creation date to the package header and insert the redefinable header
     * after it. Without a package header the DOM call throws after the
     * attributes are set; `ok` is false then.
     */
    method AddCanvasProperties(doc: XmlDocument, canvas: map<string, string>, freshId: string) returns (ok: bool)
      modifies doc
      ensures ok <==> HasPackageHeader(old(doc.root))
      ensures ok ==> doc.root == Enriched(old(doc.root), canvas, freshId)
      ensures !ok ==> doc.root == WithCanvasAttributes(old(doc.root), canvas, freshId)
    {
      var root := doc.root;
      root := root.(attributes := root.attributes["chor:TargetNamespace" := PropertyText(canvas, "wapama-targetNamespace")]);
      root := root.(attributes := root.attributes["Name" := PropertyText(canvas, "wapama-name")]);
      var id := PropertyText(canvas, "wapama-id");
      if id == "" {
        id := freshId;
      }
      root := root.(attributes := root.attributes["Id" := id]);
      doc.root := root;
      if |root.children| == 0 || !root.children[0].ElementNode? {
        return false;
      }
      var created := Element("xpdl:Created", map[], [TextNode(PropertyText(canvas, "wapama-creationdate"))]);
      var packageHeader := root.children[0].element;
      packageHeader := packageHeader.(children := packageHeader.children + [ElementNode(created)]);
      var expressionLanguage := PropertyText(canvas, "wapama-expressionlanguage");
      var queryLanguage := PropertyText(canvas, "wapama-querylanguage");
      var headerAttributes: map<string, string> := map[];
      if queryLanguage != "" {
        headerAttributes := headerAttributes["chor:QueryLanguage" := queryLanguage];
      }
      if expressionLanguage != "" {
        headerAttributes := headerAttributes["chor:ExpressionLanguage" := expressionLanguage];
      }
      var header := Element("xpdl:RedefinableHeader", headerAttributes, []);
      doc.root := root.(children := [ElementNode(packageHeader), ElementNode(header)] + root.children[1..]);
      return true;
    }

    /**
     * The export once the edges are valid: enrich and serialize the
     * stylesheet's result (`None` when it threw), then show it (XPDL4Chor)
     * or post it to the BPEL4Chor service.
     */
    method Deliver(xpdlOnly: bool, generated: Option<XmlDocument>, canvas: map<string, string>,
                   freshId: string, serialize: Element -> string) returns (outcome: Outcome)
      modifies this, if generated.Some? then {generated.value} else {}
      ensures outcome == GenerationOutcome(xpdlOnly, old(if generated.Some? then Some(generated.value.root) else None), canvas, freshId, serialize)
      ensures log == old(log) + OutcomeEvents(outcome)
      ensures raisedEventIds == old(raisedEventIds)
      ensures generated.Some? && outcome == EnrichmentFailed ==> generated.value.root == WithCanvasAttributes(old(generated.value.root), canvas, freshId)
      ensures generated.Some? && (outcome.XpdlShown? || outcome.Requested?) ==> generated.value.root == Enriched(old(generated.value.root), canvas, freshId)
    {
      if generated.None? {
        log := log + [MessageDialogOpened(NoGeneration), LoadingDisabled];
        return GenerationFailed;
      }
      var doc := generated.value;
      var ok := AddCanvasProperties(doc, canvas, freshId);
      if !ok {
        assert log == log + [];
        return EnrichmentFailed;
      }
      var serialized := serialize(doc.root);
      if !StartsWith(serialized, "<?xml") {
        serialized := XmlDeclaration + serialized;
      }
      if xpdlOnly {
        log := log + [LoadingDisabled, XpdlResultDialogOpened(serialized)];
        outcome := XpdlShown(serialized);
      } else {
        log := log + [Posted(serialized)];
        outcome := Requested(serialized);
      }
    }

    /** One export run: hide the old overlays, validate the edges, and deliver the document when they are valid. */
    method Transform(xpdlOnly: bool, edges: seq<Shape>, generated: Option<XmlDocument>, canvas: map<string, string>,
                     freshId: string, serialize: Element -> string) returns (outcome: Outcome)
      modifies this, if generated.Some? then {generated.value} else {}
      requires Valid()
      ensures Valid()
      ensures outcome == TransformOutcome(xpdlOnly, edges, old(if generated.Some? then Some(generated.value.root) else None), canvas, freshId, serialize)
      ensures log == old(log) + HideEvents(old(raisedEventIds)) + OverlayEvents(ValidationMarks(edges), 0) + OutcomeEvents(outcome)
      ensures |raisedEventIds| == |ValidationMarks(edges)|
      ensures generated.Some? && outcome == InputInvalid ==> generated.value.root == old(generated.value.root)
      ensures generated.Some? && outcome == EnrichmentFailed ==> generated.value.root == WithCanvasAttributes(old(generated.value.root), canvas, freshId)
      ensures generated.Some? && (outcome.XpdlShown? || outcome.Requested?) ==> generated.value.root == Enriched(old(generated.value.root), canvas, freshId)
    {
      HideOverlays();
      var valid := Validate(edges);
      ValidationMarksEmptyIff(edges);
      if !valid {
        log := log + [LoadingDisabled, AlertShown(InputNotValid)];
        return InputInvalid;
      }
      outcome := Deliver(xpdlOnly, generated, canvas, freshId, serialize);
    }

    /** The XPDL4Chor export: switch the spinner on, then run the export showing the document. */
    method TransformXpdl4Chor(edges: seq<Shape>, generated: Option<XmlDocument>, canvas: map<string, string>,
                              freshId: string, serialize: Element -> string) returns (outcome: Outcome)
      modifies this, if generated.Some? then {generated.value} else {}
      requires Valid()
      ensures Valid()
      ensures outcome == TransformOutcome(true, edges, old(if generated.Some? then Some(generated.value.root) else None), canvas, freshId, serialize)
      ensures log == old(log) + [LoadingEnabled(true)] + HideEvents(old(raisedEventIds)) + OverlayEvents(ValidationMarks(edges), 0) + OutcomeEvents(outcome)
      ensures |raisedEventIds| == |ValidationMarks(edges)|
      ensures generated.Some? && outcome == InputInvalid ==> generated.value.root == old(generated.value.root)
      ensures generated.Some? && outcome == EnrichmentFailed ==> generated.value.root == WithCanvasAttributes(old(generated.value.root), canvas, freshId)
      ensures generated.Some? && (outcome.XpdlShown? || outcome.Requested?) ==> generated.value.root == Enriched(old(generated.value.root), canvas, freshId)
    {
      log := log + [LoadingEnabled(true)];
      outcome := Transform(true, edges, generated, canvas, freshId, serialize);
    }

    /** The BPEL4Chor export: switch the spinner on, then run the export posting the document. */
    method TransformBpel4Chor(edges: seq<Shape>, generated: Option<XmlDocument>, canvas: map<string, string>,
                              freshId: string, serialize: Element -> string) returns (outcome: Outcome)
      modifies this, if generated.Some? then {generated.value} else {}
      requires Valid()
      ensures Valid()
      ensures outcome == TransformOutcome(false, edges, old(if generated.Some? then Some(generated.value.root) else None), canvas, freshId, serialize)
      ensures log == old(log) + [LoadingEnabled(false)] + HideEvents(old(raisedEventIds)) + OverlayEvents(ValidationMarks(edges), 0) + OutcomeEvents(outcome)
      ensures |raisedEventIds| == |ValidationMarks(edges)|
      ensures generated.Some? && outcome == InputInvalid ==> generated.value.root == old(generated.value.root)
      ensures generated.Some? && outcome == EnrichmentFailed ==> generated.value.root == WithCanvasAttributes(old(generated.value.root), canvas, freshId)
      ensures generated.Some? && (outcome.XpdlShown? || outcome.Requested?) ==> generated.value.root == Enriched(old(generated.value.root), canvas, freshId)
    {
      log := log + [LoadingEnabled(false)];
      outcome := Transform(false, edges, generated, canvas, freshId, serialize);
    }

    /** The body of the error loop: mark the shape an error resolves to, unless its id is "undefined". */
    method MarkError(diagram: seq<Shape>, error: ServiceError)
      modifies this
      requires Valid()
      ensures Valid()
      ensures |raisedEventIds| == |old(raisedEventIds)| + |ErrorMark(diagram, error)|
      ensures log == old(log) + OverlayEvents(ErrorMark(diagram, error), |old(raisedEventIds)|)
    {
      if error.id == Some("undefined") {
        return;
      }
      var shape := FindShape(diagram, ByResourceId(error.id));
      if shape.None? {
        shape := FindShape(diagram, ByProcessId(error.id));
      }
      if shape.Some? {
        ShowOverlay(shape.value, ServiceMessage(error.message));
        OverlayEventsSingle(Mark(shape.value, ServiceMessage(error.message)), |old(raisedEventIds)|);
      }
    }

    /** Mark the shape of every error in turn. */
    method MarkErrors(diagram: seq<Shape>, errors: seq<ServiceError>)
      modifies this
      requires Valid()
      ensures Valid()
      ensures |raisedEventIds| == |old(raisedEventIds)| + |ErrorMarks(diagram, errors)|
      ensures log == old(log) + OverlayEvents(ErrorMarks(diagram, errors), |old(raisedEventIds)|)
    {
      ghost var start := |raisedEventIds|;
      ghost var initial := log;
      var i := 0;
      while i < |errors|
        invariant 0 <= i <= |errors|
        invariant Valid()
        invariant |raisedEventIds| == start + |ErrorMarks(diagram, errors[..i])|
        invariant log == initial + OverlayEvents(ErrorMarks(diagram, errors[..i]), start)
      {
        ghost var previous := log;
        MarkError(diagram, errors[i]);
        ErrorMarksStep(diagram, errors, i, start, initial, previous, log);
        i := i + 1;
      }
      assert errors[..i] == errors;
    }

    /**
     * The service's answer: switch the spinner off, warn about a version
     * other than "1.0", then report that there is no result, or mark every
     * error that resolves to a shape and open the result table. An answer
     * that does not evaluate (`None`) is alerted, and reading its version
     * throws; `completed` is false then.
     */
    method DisplayResult(response: Option<ServiceResponse>, diagram: seq<Shape>) returns (completed: bool)
      modifies this
      requires Valid()
      ensures Valid()
      ensures completed <==> response.Some?
      ensures response.None? ==> log == old(log) + [LoadingDisabled, AlertShown(EvaluationFailed)] && raisedEventIds == old(raisedEventIds)
      ensures response.Some? && NoEntries(response.value.res) ==>
        log == old(log) + [LoadingDisabled] + VersionAlert(response.value.version) + [MessageDialogOpened(NoResult)] &&
        raisedEventIds == old(raisedEventIds)
      ensures response.Some? && !NoEntries(response.value.res) ==>
        var entries := response.value.res.value;
        var marks := ErrorMarks(diagram, FailedErrors(entries));
        log == old(log) + [LoadingDisabled] + VersionAlert(response.value.version) +
          OverlayEvents(marks, |old(raisedEventIds)|) + [ResultDialogOpened(DisplayRows(entries))] &&
        |raisedEventIds| == |old(raisedEventIds)| + |marks|
    {
      log := log + [LoadingDisabled];
      if response.None? {
        log := log + [AlertShown(EvaluationFailed)];
        return false;
      }
      var answer := response.value;
      if answer.version != "1.0" {
        log := log + [AlertShown(WrongVersion(answer.version))];
      } else {
        assert log == log + VersionAlert(answer.version);
      }
      if answer.res.None? || answer.res.value == [] {
        log := log + [MessageDialogOpened(NoResult)];
        return true;
      }
      var data, errors := BuildDisplayData(answer.res.value);
      MarkErrors(diagram, errors);
      log := log + [ResultDialogOpened(data)];
      return true;
    }

    /**
     * A property change as written: the callbacks run unbound, so the first
     * warning that is due throws instead of opening a dialog. Nothing is
     * recorded on either path.
     */
    method PropertyChanged(propId: string, elements: seq<Shape>, diagram: seq<Shape>) returns (reaction: Reaction)
      ensures reaction == PropertyChangedAsWritten(propId, elements, diagram)
    {
      ghost var groups := PerShapeWarnings(propId, elements, diagram);
      var i := 0;
      while i < |elements|
        invariant 0 <= i <= |elements|
        invariant FirstThrow(groups) == FirstThrow(groups[i..])
      {
        var warnings := CheckShape(propId, elements[i], diagram);
        assert warnings == groups[i];
        if warnings != [] {
          return TypeErrorThrown;
        }
        assert groups[i..][1..] == groups[i + 1..];
        i := i + 1;
      }
      return Completed;
    }

    /** A property change as intended: every warning that is due opens its dialog, shape by shape. */
    method PropertyChangedCorrected(propId: string, elements: seq<Shape>, diagram: seq<Shape>)
      modifies this
      ensures log == old(log) + DialogEvents(PropertyChangedWarnings(propId, elements, diagram))
      ensures raisedEventIds == old(raisedEventIds)
    {
      ghost var groups := PerShapeWarnings(propId, elements, diagram);
      var i := 0;
      while i < |elements|
        invariant 0 <= i <= |elements|
        invariant log == old(log) + DialogEvents(Flatten(groups[..i]))
        invariant raisedEventIds == old(raisedEventIds)
      {
        var warnings := CheckShape(propId, elements[i], diagram);
        assert warnings == groups[i];
        assert groups[..i + 1][..i] == groups[..i];
        DialogEventsAppend(Flatten(groups[..i]), warnings);
        AppendAssociative(old(log), DialogEvents(Flatten(groups[..i])), DialogEvents(warnings));
        log := log + DialogEvents(warnings);
        i := i + 1;
      }
      assert groups[..i] == groups;
    }
  }
}

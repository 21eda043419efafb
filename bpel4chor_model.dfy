/**
 * The data and the pure rules of the BPEL4Chor export plugin: edge
 * validation, overlay ids, the result table built from the service's
 * records, the resolution of an error to a shape, the XML declaration,
 * the canvas properties added to the generated XPDL4Chor document, and the
 * two advisory checks run when a property changes.
 *
 * A diagram is the sequence of its shapes; a shape names its neighbours by
 * resource id. JavaScript `undefined` is `None`.
 */
module Bpel4ChorModel {
  import opened Text

  datatype Stencil = Stencil(namespace: string, id: string, title: string)

  /** A node or an edge of the diagram. */
  datatype Shape = Shape(
    id: string,
    resourceId: string,
    stencil: Stencil,
    properties: map<string, string>,
    incoming: seq<string>,
    outgoing: seq<string>)

  /** `shape.properties[key]`; a missing key reads as `undefined`. */
  function Property(shape: Shape, key: string): Option<string>
  {
    if key in shape.properties then Some(shape.properties[key]) else None
  }

  /** The stencil test `stencil.id() == stencil.namespace() + typeName`. */
  predicate HasType(shape: Shape, typeName: string)
  {
    shape.stencil.id == shape.stencil.namespace + typeName
  }

  // ---------------------------------------------------------------------------
  // Overlays and the events the plugin raises
  // ---------------------------------------------------------------------------

  /** The text of an overlay: the two validation messages (filled with the edge's title and id) or a service message. */
  datatype OverlayText = NoSource(title: string, edgeId: string) | NoTarget(title: string, edgeId: string) | ServiceMessage(message: string)

  /** An overlay to raise: on which shape, with which text. */
  datatype Mark = Mark(shape: Shape, text: OverlayText)

  datatype AlertText = InputNotValid | EvaluationFailed | WrongVersion(version: string)
  datatype DialogText = NoGeneration | NoResult | WrongValue(expected: string) | LoopNone

  datatype Row = Placeholder | Row(file: string, content: string, status: string)

  /** What the plugin hands to the facade, the dialogs and the network, in order. */
  datatype Event =
    | OverlayShown(overlayId: string, shape: Shape, text: OverlayText)
    | OverlayHidden(overlayId: string)
    | LoadingEnabled(xpdlOnly: bool)
    | LoadingDisabled
    | AlertShown(alert: AlertText)
    | MessageDialogOpened(dialog: DialogText)
    | XpdlResultDialogOpened(document: string)
    | ResultDialogOpened(rows: seq<Row>)
    | Posted(data: string)

  /** The id of the overlay raised when `n` overlays are recorded. */
  function OverlayId(n: nat): string
  {
    "syntaxchecker." + NatToString(n)
  }

  /** Overlay ids made from different counts differ. */
  lemma OverlayIdInjective(m: nat, n: nat)
    requires OverlayId(m) == OverlayId(n)
    ensures m == n
  {
    PrefixCancels("syntaxchecker.", NatToString(m), NatToString(n));
    NatToStringInjective(m, n);
  }

  /** The ids of the first `n` overlays raised. */
  function OverlayIds(n: nat): (ids: seq<string>)
    ensures |ids| == n
  {
    if n == 0 then [] else OverlayIds(n - 1) + [OverlayId(n - 1)]
  }

  /** The i-th of the first `n` ids is "syntaxchecker.i". */
  lemma {:induction false} OverlayIdsAt(n: nat)
    ensures forall i :: 0 <= i < n ==> OverlayIds(n)[i] == OverlayId(i)
  {
    if n > 0 {
      OverlayIdsAt(n - 1);
      assert OverlayIds(n) == OverlayIds(n - 1) + [OverlayId(n - 1)];
    }
  }

  /** No two of the first `n` ids are equal. */
  lemma OverlayIdsDistinct(n: nat)
    ensures forall i, j :: 0 <= i < n && 0 <= j < n && OverlayIds(n)[i] == OverlayIds(n)[j] ==> i == j
  {
    OverlayIdsAt(n);
    forall i, j | 0 <= i < n && 0 <= j < n && OverlayIds(n)[i] == OverlayIds(n)[j] ensures i == j {
      OverlayIdInjective(i, j);
    }
  }

  /** The show events for `marks` when `start` overlays are already recorded. */
  function OverlayEvents(marks: seq<Mark>, start: nat): seq<Event>
  {
    if marks == [] then []
    else
      var front := marks[..|marks| - 1];
      var last := marks[|marks| - 1];
      OverlayEvents(front, start) + [OverlayShown(OverlayId(start + |front|), last.shape, last.text)]
  }

  /** A single overlay gets the next id. */
  lemma OverlayEventsSingle(mark: Mark, start: nat)
    ensures OverlayEvents([mark], start) == [OverlayShown(OverlayId(start), mark.shape, mark.text)]
  {
    assert [mark][..0] == [];
  }

  /** Raising two batches of overlays numbers the second batch after the first. */
  lemma {:induction false} OverlayEventsConcat(a: seq<Mark>, b: seq<Mark>, start: nat)
    ensures OverlayEvents(a + b, start) == OverlayEvents(a, start) + OverlayEvents(b, start + |a|)
    decreases |b|
  {
    if b == [] {
      assert a + b == a;
    } else {
      var front := b[..|b| - 1];
      assert (a + b)[..|a + b| - 1] == a + front;
      OverlayEventsConcat(a, front, start);
    }
  }

  /** One show event per mark, in order, numbered on from `start`. */
  lemma {:induction false} OverlayEventsAt(marks: seq<Mark>, start: nat)
    ensures |OverlayEvents(marks, start)| == |marks|
    ensures forall i :: 0 <= i < |marks| ==>
      OverlayEvents(marks, start)[i] == OverlayShown(OverlayId(start + i), marks[i].shape, marks[i].text)
  {
    if marks != [] {
      var front := marks[..|marks| - 1];
      OverlayEventsAt(front, start);
      forall i | 0 <= i < |front| ensures marks[i] == front[i] {}
    }
  }

  /** The hide events for the recorded ids, in order. */
  function HideEvents(ids: seq<string>): seq<Event>
  {
    if ids == [] then [] else HideEvents(ids[..|ids| - 1]) + [OverlayHidden(ids[|ids| - 1])]
  }

  /** One hide event per recorded id, in order. */
  lemma {:induction false} HideEventsAt(ids: seq<string>)
    ensures |HideEvents(ids)| == |ids|
    ensures forall i :: 0 <= i < |ids| ==> HideEvents(ids)[i] == OverlayHidden(ids[i])
  {
    if ids != [] {
      var front := ids[..|ids| - 1];
      HideEventsAt(front);
      forall i | 0 <= i < |front| ensures ids[i] == front[i] {}
    }
  }

  // ---------------------------------------------------------------------------
  // Validation of the edges
  // ---------------------------------------------------------------------------

  /** An edge is valid when it has a source and a target. */
  predicate IsConnected(edge: Shape)
  {
    |edge.incoming| > 0 && |edge.outgoing| > 0
  }

  /** The overlay an invalid edge gets: no source wins over no target. */
  function EdgeMarks(edge: Shape): seq<Mark>
  {
    if |edge.incoming| == 0 then [Mark(edge, NoSource(edge.stencil.title, edge.id))]
    else if |edge.outgoing| == 0 then [Mark(edge, NoTarget(edge.stencil.title, edge.id))]
    else []
  }

  /** The overlays the validation pass raises over `edges`, visiting every edge in order. */
  function ValidationMarks(edges: seq<Shape>): seq<Mark>
  {
    if edges == [] then [] else ValidationMarks(edges[..|edges| - 1]) + EdgeMarks(edges[|edges| - 1])
  }

  /** The invalid edges, in order: the reference against which validation is stated. */
  function Unconnected(edges: seq<Shape>): seq<Shape>
  {
    if edges == [] then []
    else if IsConnected(edges[0]) then Unconnected(edges[1..])
    else [edges[0]] + Unconnected(edges[1..])
  }

  lemma {:induction false} UnconnectedAppend(edges: seq<Shape>, e: Shape)
    ensures Unconnected(edges + [e]) == Unconnected(edges) + (if IsConnected(e) then [] else [e])
  {
    if edges != [] {
      assert (edges + [e])[1..] == edges[1..] + [e];
      UnconnectedAppend(edges[1..], e);
    } else {
      assert [e][1..] == [];
    }
  }

  /** Validating one more edge appends that edge's overlays, numbered after the earlier ones. */
  lemma ValidationStep(edges: seq<Shape>, i: nat, start: nat, initial: seq<Event>, previous: seq<Event>, log: seq<Event>)
    requires i < |edges|
    requires previous == initial + OverlayEvents(ValidationMarks(edges[..i]), start)
    requires log == previous + OverlayEvents(EdgeMarks(edges[i]), start + |ValidationMarks(edges[..i])|)
    ensures |ValidationMarks(edges[..i + 1])| == |ValidationMarks(edges[..i])| + |EdgeMarks(edges[i])|
    ensures ValidationMarks(edges[..i + 1]) == [] <==> ValidationMarks(edges[..i]) == [] && EdgeMarks(edges[i]) == []
    ensures log == initial + OverlayEvents(ValidationMarks(edges[..i + 1]), start)
  {
    var marks := ValidationMarks(edges[..i]);
    assert edges[..i + 1][..i] == edges[..i];
    assert ValidationMarks(edges[..i + 1]) == marks + EdgeMarks(edges[i]);
    OverlayEventsConcat(marks, EdgeMarks(edges[i]), start);
    AppendAssociative(initial, OverlayEvents(marks, start), OverlayEvents(EdgeMarks(edges[i]), start + |marks|));
  }

  /**
   * Validation raises exactly one overlay per invalid edge, in the order of
   * the edges; an edge without a source gets only the no-source message.
   */
  lemma {:induction false} ValidationMarksMatchUnconnected(edges: seq<Shape>)
    ensures |ValidationMarks(edges)| == |Unconnected(edges)|
    ensures forall i :: 0 <= i < |Unconnected(edges)| ==>
      var e := Unconnected(edges)[i];
      ValidationMarks(edges)[i] == Mark(e, if |e.incoming| == 0 then NoSource(e.stencil.title, e.id) else NoTarget(e.stencil.title, e.id))
  {
    if edges != [] {
      var front := edges[..|edges| - 1];
      var last := edges[|edges| - 1];
      assert edges == front + [last];
      ValidationMarksMatchUnconnected(front);
      UnconnectedAppend(front, last);
    }
  }

  /** Validation raises nothing exactly when every edge is connected. */
  lemma {:induction false} ValidationMarksEmptyIff(edges: seq<Shape>)
    ensures ValidationMarks(edges) == [] <==> forall i :: 0 <= i < |edges| ==> IsConnected(edges[i])
  {
    if edges != [] {
      var front := edges[..|edges| - 1];
      var last := edges[|edges| - 1];
      ValidationMarksEmptyIff(front);
      assert ValidationMarks(edges) == ValidationMarks(front) + EdgeMarks(last);
      assert EdgeMarks(last) == [] <==> IsConnected(last);
      assert forall i :: 0 <= i < |front| ==> front[i] == edges[i];
    }
  }

  // ---------------------------------------------------------------------------
  // Result table built from the service's records
  // ---------------------------------------------------------------------------

  /** An error record of the service: a message and possibly the id of a shape. */
  datatype ServiceError = ServiceError(message: string, id: Option<string>)

  /** One record of the service's result list. */
  datatype ResultEntry = ResultEntry(kind: string, name: string, success: bool, document: string, errors: seq<ServiceError>)

  /** The service's parsed response: a version tag and, possibly, the result list. */
  datatype ServiceResponse = ServiceResponse(version: string, res: Option<seq<ResultEntry>>)

  /** The file column: the process name for "PROCESS" records, else the lower-cased type. */
  function FileName(entry: ResultEntry): string
  {
    if entry.kind == "PROCESS" then entry.name else Lower(entry.kind)
  }

  /** JavaScript truthiness of `error.id`: set and not empty. */
  predicate HasShapeId(error: ServiceError)
  {
    error.id.Some? && error.id.value != ""
  }

  /** One error as a line of text, without its newline: the message and " (id)" when the id is set. */
  function ErrorMessage(error: ServiceError): string
  {
    error.message + if HasShapeId(error) then " (" + error.id.value + ")" else ""
  }

  /** The text of a failed record: each error message followed by a newline. */
  function ErrorText(errors: seq<ServiceError>): string
  {
    if errors == [] then "" else ErrorText(errors[..|errors| - 1]) + ErrorMessage(errors[|errors| - 1]) + "\n"
  }

  function ErrorMessages(errors: seq<ServiceError>): seq<string>
  {
    if errors == [] then [] else ErrorMessages(errors[..|errors| - 1]) + [ErrorMessage(errors[|errors| - 1])]
  }

  /** The error text is the error messages joined by newlines, with a final newline. */
  lemma {:induction false} ErrorTextIsJoinedLines(errors: seq<ServiceError>)
    ensures errors == [] ==> ErrorText(errors) == ""
    ensures errors != [] ==> ErrorText(errors) == Join(ErrorMessages(errors), "\n") + "\n"
    ensures |ErrorMessages(errors)| == |errors|
    ensures forall i :: 0 <= i < |errors| ==> ErrorMessages(errors)[i] == ErrorMessage(errors[i])
  {
    if errors != [] {
      var front := errors[..|errors| - 1];
      var last := errors[|errors| - 1];
      ErrorTextIsJoinedLines(front);
      JoinAppend(ErrorMessages(front), ErrorMessage(last), "\n");
      forall i | 0 <= i < |front| ensures errors[i] == front[i] {}
    }
  }

  /** The row for one record: its file name, then the document and "success", or the error text and "error". */
  function RowOf(entry: ResultEntry): Row
  {
    if entry.success then Row(FileName(entry), entry.document, "success")
    else Row(FileName(entry), ErrorText(entry.errors), "error")
  }

  /** The table: one row per record; with no record the initial one-empty-row table stays. */
  function DisplayRows(entries: seq<ResultEntry>): seq<Row>
  {
    if entries == [] then [Placeholder]
    else seq(|entries|, i requires 0 <= i < |entries| => RowOf(entries[i]))
  }

  /** Every error of every failed record, in order. */
  function FailedErrors(entries: seq<ResultEntry>): seq<ServiceError>
  {
    if entries == [] then []
    else
      var last := entries[|entries| - 1];
      FailedErrors(entries[..|entries| - 1]) + (if last.success then [] else last.errors)
  }

  /** The errors of two record lists are the errors of the first followed by those of the second. */
  lemma {:induction false} FailedErrorsAppend(a: seq<ResultEntry>, b: seq<ResultEntry>)
    ensures FailedErrors(a + b) == FailedErrors(a) + FailedErrors(b)
    decreases |b|
  {
    if b == [] {
      assert a + b == a;
    } else {
      var front := b[..|b| - 1];
      assert (a + b)[..|a + b| - 1] == a + front;
      FailedErrorsAppend(a, front);
      AppendAssociative(FailedErrors(a), FailedErrors(front), if b[|b| - 1].success then [] else b[|b| - 1].errors);
    }
  }

  /** An error is collected exactly when it belongs to a failed record. */
  lemma {:induction false} FailedErrorsMembers(entries: seq<ResultEntry>, e: ServiceError)
    ensures e in FailedErrors(entries) <==> exists i :: 0 <= i < |entries| && !entries[i].success && e in entries[i].errors
  {
    if entries != [] {
      var front := entries[..|entries| - 1];
      FailedErrorsMembers(front, e);
      assert forall i :: 0 <= i < |front| ==> front[i] == entries[i];
    }
  }

  /** The error list is empty exactly when no failed record carries an error. */
  lemma FailedErrorsEmptyIff(entries: seq<ResultEntry>)
    ensures FailedErrors(entries) == [] <==> forall i :: 0 <= i < |entries| && !entries[i].success ==> entries[i].errors == []
  {
    if FailedErrors(entries) != [] {
      FailedErrorsMembers(entries, FailedErrors(entries)[0]);
    } else {
      forall i | 0 <= i < |entries| && !entries[i].success ensures entries[i].errors == [] {
        if entries[i].errors != [] {
          FailedErrorsMembers(entries, entries[i].errors[0]);
        }
      }
    }
  }

  /** A failed record with two errors shows both messages, each with its id when set, one per line. */
  lemma TwoErrorsOneRow(entry: ResultEntry, e1: ServiceError, e2: ServiceError)
    requires !entry.success && entry.errors == [e1, e2]
    ensures RowOf(entry) == Row(FileName(entry), ErrorMessage(e1) + "\n" + ErrorMessage(e2) + "\n", "error")
  {
    assert entry.errors[..1] == [e1];
    assert [e1][..0] == [];
    assert ErrorText([e1]) == ErrorMessage(e1) + "\n";
    assert ErrorText(entry.errors) == ErrorText([e1]) + ErrorMessage(e2) + "\n";
  }

  // ---------------------------------------------------------------------------
  // Resolving an error to a shape
  // ---------------------------------------------------------------------------

  /** How a shape is looked for: by resource id, or by process id (`resourceId + "_process"` when the property is empty). */
  datatype Lookup = ByResourceId(key: Option<string>) | ByProcessId(key: Option<string>)

  predicate ShapeMatches(shape: Shape, lookup: Lookup)
  {
    match lookup
    case ByResourceId(key) => Some(shape.resourceId) == key
    case ByProcessId(key) =>
      var processId := Property(shape, "wapama-processid");
      if processId == Some("") then Some(shape.resourceId + "_process") == key else processId == key
  }

  /** The first shape that matches, as `find` returns it. */
  function FirstMatching(shapes: seq<Shape>, lookup: Lookup): Option<Shape>
  {
    if shapes == [] then None
    else if ShapeMatches(shapes[0], lookup) then Some(shapes[0])
    else FirstMatching(shapes[1..], lookup)
  }

  /** `FirstMatching` finds a matching shape before which none matches, and finds nothing only when none matches. */
  lemma {:induction false} FirstMatchingIsFirst(shapes: seq<Shape>, lookup: Lookup)
    ensures FirstMatching(shapes, lookup).None? <==> forall i :: 0 <= i < |shapes| ==> !ShapeMatches(shapes[i], lookup)
    ensures FirstMatching(shapes, lookup).Some? ==>
      exists i :: 0 <= i < |shapes| && shapes[i] == FirstMatching(shapes, lookup).value && ShapeMatches(shapes[i], lookup) &&
        forall j :: 0 <= j < i ==> !ShapeMatches(shapes[j], lookup)
  {
    if shapes != [] && !ShapeMatches(shapes[0], lookup) {
      var rest := shapes[1..];
      FirstMatchingIsFirst(rest, lookup);
      if FirstMatching(rest, lookup).Some? {
        var i :| 0 <= i < |rest| && rest[i] == FirstMatching(rest, lookup).value && ShapeMatches(rest[i], lookup) &&
          forall j :: 0 <= j < i ==> !ShapeMatches(rest[j], lookup);
        assert shapes[i + 1] == rest[i];
        forall j | 0 <= j < i + 1 ensures !ShapeMatches(shapes[j], lookup) {
          if j > 0 { assert shapes[j] == rest[j - 1]; }
        }
      } else {
        forall i | 0 <= i < |shapes| ensures !ShapeMatches(shapes[i], lookup) {
          if i > 0 { assert shapes[i] == rest[i - 1]; }
        }
      }
    }
  }

  /** The shape an error points at: a direct resource-id match, else the first process-id match. */
  function ResolveErrorShape(shapes: seq<Shape>, error: ServiceError): Option<Shape>
  {
    match FirstMatching(shapes, ByResourceId(error.id))
    case Some(shape) => Some(shape)
    case None => FirstMatching(shapes, ByProcessId(error.id))
  }

  /** The overlay an error gets: none when its id is the string "undefined" or no shape matches. */
  function ErrorMark(shapes: seq<Shape>, error: ServiceError): seq<Mark>
  {
    if error.id == Some("undefined") then []
    else
      match ResolveErrorShape(shapes, error)
      case Some(shape) => [Mark(shape, ServiceMessage(error.message))]
      case None => []
  }

  /** The overlays raised for the collected errors, in order. */
  function ErrorMarks(shapes: seq<Shape>, errors: seq<ServiceError>): seq<Mark>
  {
    if errors == [] then [] else ErrorMarks(shapes, errors[..|errors| - 1]) + ErrorMark(shapes, errors[|errors| - 1])
  }

  /**
   * Resolution prefers a direct resource-id match; otherwise it takes the
   * first process-id match; an overlay is raised only when one is found.
   */
  lemma ResolveErrorShapeCases(shapes: seq<Shape>, error: ServiceError)
    ensures (exists i :: 0 <= i < |shapes| && Some(shapes[i].resourceId) == error.id) ==>
      ResolveErrorShape(shapes, error).Some? && Some(ResolveErrorShape(shapes, error).value.resourceId) == error.id
    ensures (forall i :: 0 <= i < |shapes| ==> Some(shapes[i].resourceId) != error.id) ==>
      ResolveErrorShape(shapes, error) == FirstMatching(shapes, ByProcessId(error.id))
    ensures ErrorMark(shapes, error) != [] <==> error.id != Some("undefined") && ResolveErrorShape(shapes, error).Some?
  {
    FirstMatchingIsFirst(shapes, ByResourceId(error.id));
    if exists i :: 0 <= i < |shapes| && Some(shapes[i].resourceId) == error.id {
      var i :| 0 <= i < |shapes| && Some(shapes[i].resourceId) == error.id;
      assert ShapeMatches(shapes[i], ByResourceId(error.id));
    }
  }

  /** Resolving one more error appends that error's overlay, numbered after the earlier ones. */
  lemma ErrorMarksStep(shapes: seq<Shape>, errors: seq<ServiceError>, i: nat, start: nat,
                       initial: seq<Event>, previous: seq<Event>, log: seq<Event>)
    requires i < |errors|
    requires previous == initial + OverlayEvents(ErrorMarks(shapes, errors[..i]), start)
    requires log == previous + OverlayEvents(ErrorMark(shapes, errors[i]), start + |ErrorMarks(shapes, errors[..i])|)
    ensures |ErrorMarks(shapes, errors[..i + 1])| == |ErrorMarks(shapes, errors[..i])| + |ErrorMark(shapes, errors[i])|
    ensures log == initial + OverlayEvents(ErrorMarks(shapes, errors[..i + 1]), start)
  {
    var marks := ErrorMarks(shapes, errors[..i]);
    assert errors[..i + 1][..i] == errors[..i];
    assert ErrorMarks(shapes, errors[..i + 1]) == marks + ErrorMark(shapes, errors[i]);
    OverlayEventsConcat(marks, ErrorMark(shapes, errors[i]), start);
    AppendAssociative(initial, OverlayEvents(marks, start), OverlayEvents(ErrorMark(shapes, errors[i]), start + |marks|));
  }

  /** The overlays of two error lists are those of the first followed by those of the second. */
  lemma {:induction false} ErrorMarksAppend(shapes: seq<Shape>, a: seq<ServiceError>, b: seq<ServiceError>)
    ensures ErrorMarks(shapes, a + b) == ErrorMarks(shapes, a) + ErrorMarks(shapes, b)
    decreases |b|
  {
    if b == [] {
      assert a + b == a;
    } else {
      var front := b[..|b| - 1];
      assert (a + b)[..|a + b| - 1] == a + front;
      ErrorMarksAppend(shapes, a, front);
      AppendAssociative(ErrorMarks(shapes, a), ErrorMarks(shapes, front), ErrorMark(shapes, b[|b| - 1]));
    }
  }

  /** No overlay is raised exactly when every error is skipped or resolves to no shape. */
  lemma {:induction false} ErrorMarksEmptyIff(shapes: seq<Shape>, errors: seq<ServiceError>)
    ensures ErrorMarks(shapes, errors) == [] <==>
      forall i :: 0 <= i < |errors| ==> errors[i].id == Some("undefined") || ResolveErrorShape(shapes, errors[i]).None?
  {
    if errors != [] {
      var front := errors[..|errors| - 1];
      ErrorMarksEmptyIff(shapes, front);
      assert forall i :: 0 <= i < |front| ==> front[i] == errors[i];
    }
  }

  // ---------------------------------------------------------------------------
  // Serialized output
  // ---------------------------------------------------------------------------

  const XmlDeclaration: string := "<?xml version=\"1.0\" encoding=\"UTF-8\"?>"

  /** The serialized document, with the XML declaration put in front when it does not start with "<?xml". */
  function WithXmlDeclaration(serialized: string): (r: string)
    ensures StartsWith(r, "<?xml")
    ensures StartsWith(serialized, "<?xml") ==> r == serialized
    ensures !StartsWith(serialized, "<?xml") ==> r == XmlDeclaration + serialized
  {
    assert XmlDeclaration[..5] == "<?xml";
    if StartsWith(serialized, "<?xml") then serialized else XmlDeclaration + serialized
  }

  /** Adding the declaration twice is adding it once. */
  lemma WithXmlDeclarationIdempotent(serialized: string)
    ensures WithXmlDeclaration(WithXmlDeclaration(serialized)) == WithXmlDeclaration(serialized)
  {
  }

  /** The alert raised when the response's version is not "1.0". */
  function VersionAlert(version: string): seq<Event>
  {
    if version != "1.0" then [AlertShown(WrongVersion(version))] else []
  }

  /** The response carries no result: `res` is missing or empty. */
  predicate NoEntries(res: Option<seq<ResultEntry>>)
  {
    res.None? || res.value == []
  }

  // ---------------------------------------------------------------------------
  // Canvas properties added to the XPDL4Chor document
  // ---------------------------------------------------------------------------

  datatype XmlNode = ElementNode(element: Element) | TextNode(data: string)
  datatype Element = Element(tag: string, attributes: map<string, string>, children: seq<XmlNode>)

  /** A canvas property as it lands in an attribute or a text node; `undefined` becomes "undefined". */
  function PropertyText(canvas: map<string, string>, key: string): string
  {
    if key in canvas then canvas[key] else "undefined"
  }

  /** The `Id` attribute: the canvas id, or a fresh id when the canvas id is empty. */
  function CanvasId(canvas: map<string, string>, freshId: string): string
  {
    if PropertyText(canvas, "wapama-id") == "" then freshId else PropertyText(canvas, "wapama-id")
  }

  /** The root with `chor:TargetNamespace`, `Name` and `Id` set (replacing attributes of the same name). */
  function WithCanvasAttributes(root: Element, canvas: map<string, string>, freshId: string): Element
  {
    root.(attributes := root.attributes
      ["chor:TargetNamespace" := PropertyText(canvas, "wapama-targetNamespace")]
      ["Name" := PropertyText(canvas, "wapama-name")]
      ["Id" := CanvasId(canvas, freshId)])
  }

  /** The `xpdl:Created` element carrying the creation date. */
  function CreatedElement(canvas: map<string, string>): Element
  {
    Element("xpdl:Created", map[], [TextNode(PropertyText(canvas, "wapama-creationdate"))])
  }

  /** The `xpdl:RedefinableHeader`, with a language attribute for each non-empty language property. */
  function RedefinableHeader(canvas: map<string, string>): Element
  {
    var query := PropertyText(canvas, "wapama-querylanguage");
    var expression := PropertyText(canvas, "wapama-expressionlanguage");
    var withQuery: map<string, string> := if query != "" then map["chor:QueryLanguage" := query] else map[];
    var attributes := if expression != "" then withQuery["chor:ExpressionLanguage" := expression] else withQuery;
    Element("xpdl:RedefinableHeader", attributes, [])
  }

  /** The first child of the root is an element (the package header) that can take a child. */
  predicate HasPackageHeader(root: Element)
  {
    |root.children| > 0 && root.children[0].ElementNode?
  }

  /** The enriched root: canvas attributes, `Created` appended to the package header, the redefinable header as second child. */
  function Enriched(root: Element, canvas: map<string, string>, freshId: string): Element
    requires HasPackageHeader(root)
  {
    var withAttributes := WithCanvasAttributes(root, canvas, freshId);
    var header := root.children[0].element;
    var header' := header.(children := header.children + [ElementNode(CreatedElement(canvas))]);
    withAttributes.(children := [ElementNode(header'), ElementNode(RedefinableHeader(canvas))] + root.children[1..])
  }

  /** `Id` keeps a non-empty canvas id verbatim and is a fresh id otherwise; the other two attributes copy the canvas. */
  lemma EnrichedAttributes(root: Element, canvas: map<string, string>, freshId: string)
    requires HasPackageHeader(root)
    ensures var attributes := Enriched(root, canvas, freshId).attributes;
      && attributes.Keys == root.attributes.Keys + {"chor:TargetNamespace", "Name", "Id"}
      && ("wapama-id" in canvas && canvas["wapama-id"] != "" ==> attributes["Id"] == canvas["wapama-id"])
      && ("wapama-id" in canvas && canvas["wapama-id"] == "" ==> attributes["Id"] == freshId)
      && (freshId != "" ==> attributes["Id"] != "")
      && ("wapama-name" in canvas ==> attributes["Name"] == canvas["wapama-name"])
      && ("wapama-targetNamespace" in canvas ==> attributes["chor:TargetNamespace"] == canvas["wapama-targetNamespace"])
      && (forall a :: a in root.attributes && a !in {"chor:TargetNamespace", "Name", "Id"} ==> attributes[a] == root.attributes[a])
  {
    assert "undefined" != "";
  }

  /**
   * The redefinable header is the root's second child and carries a language
   * attribute exactly when that property is non-empty; the package header
   * keeps its children and gains `Created` last; the other children follow
   * unchanged.
   */
  lemma EnrichedChildren(root: Element, canvas: map<string, string>, freshId: string)
    requires HasPackageHeader(root)
    ensures var e := Enriched(root, canvas, freshId);
      && |e.children| == |root.children| + 1
      && e.children[1].ElementNode? && e.children[1].element.tag == "xpdl:RedefinableHeader"
      && e.children[1].element.attributes.Keys <= {"chor:QueryLanguage", "chor:ExpressionLanguage"}
      && ("chor:QueryLanguage" in e.children[1].element.attributes <==> PropertyText(canvas, "wapama-querylanguage") != "")
      && ("chor:ExpressionLanguage" in e.children[1].element.attributes <==> PropertyText(canvas, "wapama-expressionlanguage") != "")
      && ("chor:QueryLanguage" in e.children[1].element.attributes ==>
            e.children[1].element.attributes["chor:QueryLanguage"] == PropertyText(canvas, "wapama-querylanguage"))
      && ("chor:ExpressionLanguage" in e.children[1].element.attributes ==>
            e.children[1].element.attributes["chor:ExpressionLanguage"] == PropertyText(canvas, "wapama-expressionlanguage"))
      && e.children[0].ElementNode?
      && e.children[0].element.children == root.children[0].element.children + [ElementNode(CreatedElement(canvas))]
      && e.children[2..] == root.children[1..]
  {
  }

  // ---------------------------------------------------------------------------
  // The export run
  // ---------------------------------------------------------------------------

  /**
   * How an export run ends: invalid edges, the stylesheet failed, the
   * generated document has no package header to extend (the DOM call
   * throws), the XPDL4Chor document is shown, or it is posted to the
   * BPEL4Chor service.
   */
  datatype Outcome = InputInvalid | GenerationFailed | EnrichmentFailed | XpdlShown(document: string) | Requested(data: string)

  /** The outcome of an export once the edges are valid, given the stylesheet's result and a serializer. */
  function GenerationOutcome(xpdlOnly: bool, generated: Option<Element>, canvas: map<string, string>,
                             freshId: string, serialize: Element -> string): Outcome
  {
    match generated
    case None => GenerationFailed
    case Some(root) =>
      if !HasPackageHeader(root) then EnrichmentFailed
      else
        var document := WithXmlDeclaration(serialize(Enriched(root, canvas, freshId)));
        if xpdlOnly then XpdlShown(document) else Requested(document)
  }

  /** The outcome of an export, given the edges, the stylesheet's result and a serializer. */
  function TransformOutcome(xpdlOnly: bool, edges: seq<Shape>, generated: Option<Element>, canvas: map<string, string>,
                            freshId: string, serialize: Element -> string): Outcome
  {
    if ValidationMarks(edges) != [] then InputInvalid
    else GenerationOutcome(xpdlOnly, generated, canvas, freshId, serialize)
  }

  /** The events that close an export run, after the overlays. */
  function OutcomeEvents(outcome: Outcome): seq<Event>
  {
    match outcome
    case InputInvalid => [LoadingDisabled, AlertShown(InputNotValid)]
    case GenerationFailed => [MessageDialogOpened(NoGeneration), LoadingDisabled]
    case EnrichmentFailed => []
    case XpdlShown(document) => [LoadingDisabled, XpdlResultDialogOpened(document)]
    case Requested(data) => [Posted(data)]
  }

  /**
   * An export stops before the stylesheet exactly when some edge lacks a
   * source or a target; otherwise the document shown or posted is the
   * enriched document with an XML declaration, shown only for the
   * XPDL4Chor export and posted only for the BPEL4Chor export; and the
   * spinner is switched off on every path except the posted one (where the
   * response handler does it) and the one that throws.
   */
  lemma TransformOutcomeCases(xpdlOnly: bool, edges: seq<Shape>, generated: Option<Element>, canvas: map<string, string>,
                              freshId: string, serialize: Element -> string)
    ensures var outcome := TransformOutcome(xpdlOnly, edges, generated, canvas, freshId, serialize);
      && (outcome == InputInvalid <==> exists i :: 0 <= i < |edges| && !IsConnected(edges[i]))
      && (outcome == GenerationFailed <==> outcome != InputInvalid && generated.None?)
      && (outcome == EnrichmentFailed <==> outcome != InputInvalid && generated.Some? && !HasPackageHeader(generated.value))
      && (outcome.XpdlShown? ==> xpdlOnly && StartsWith(outcome.document, "<?xml"))
      && (outcome.Requested? ==> !xpdlOnly && StartsWith(outcome.data, "<?xml"))
      && ((outcome.XpdlShown? || outcome.Requested?) ==>
            generated.Some? && HasPackageHeader(generated.value) &&
            var document := if outcome.XpdlShown? then outcome.document else outcome.data;
            var serialized := serialize(Enriched(generated.value, canvas, freshId));
            (StartsWith(serialized, "<?xml") ==> document == serialized) &&
            (!StartsWith(serialized, "<?xml") ==> document == XmlDeclaration + serialized))
      && (LoadingDisabled in OutcomeEvents(outcome) <==> !outcome.Requested? && outcome != EnrichmentFailed)
  {
    ValidationMarksEmptyIff(edges);
  }

  // ---------------------------------------------------------------------------
  // Advisory checks when a property changes
  // ---------------------------------------------------------------------------

  /** The shapes the ids name, in order (`getIncomingShapes`, `getOutgoingShapes`). */
  function Resolve(diagram: seq<Shape>, ids: seq<string>): seq<Shape>
  {
    if ids == [] then []
    else
      match FirstMatching(diagram, ByResourceId(Some(ids[0])))
      case Some(shape) => [shape] + Resolve(diagram, ids[1..])
      case None => Resolve(diagram, ids[1..])
  }

  /** A receiving element: receive task, intermediate or start message event. */
  predicate IsReceiving(shape: Shape)
  {
    HasType(shape, "ReceiveTask") || HasType(shape, "IntermediateMessageEvent") || HasType(shape, "StartMessageEvent")
  }

  /** The `receiving` table: message-flow targets grouped by source resource id, keys in first-insertion order. */
  datatype Group = Group(key: string, targets: seq<Shape>)

  function AddToGroup(groups: seq<Group>, key: string, targets: seq<Shape>): seq<Group>
  {
    if groups == [] then [Group(key, targets)]
    else if groups[0].key == key then [Group(key, groups[0].targets + targets)] + groups[1..]
    else [groups[0]] + AddToGroup(groups[1..], key, targets)
  }

  /** For each outgoing message flow of `source`, add its targets under the source's id. */
  function CollectFromSourceEdges(groups: seq<Group>, source: Shape, edges: seq<Shape>, diagram: seq<Shape>): seq<Group>
    decreases |edges|
  {
    if edges == [] then groups
    else
      var groups' := if HasType(edges[0], "MessageFlow")
        then AddToGroup(groups, source.resourceId, Resolve(diagram, edges[0].outgoing)) else groups;
      CollectFromSourceEdges(groups', source, edges[1..], diagram)
  }

  function CollectFromSources(groups: seq<Group>, sources: seq<Shape>, diagram: seq<Shape>): seq<Group>
    decreases |sources|
  {
    if sources == [] then groups
    else
      var groups' := CollectFromSourceEdges(groups, sources[0], Resolve(diagram, sources[0].outgoing), diagram);
      CollectFromSources(groups', sources[1..], diagram)
  }

  /** For each incoming message flow of the changed shape, visit its sources. */
  function CollectFromIncoming(groups: seq<Group>, edges: seq<Shape>, diagram: seq<Shape>): seq<Group>
    decreases |edges|
  {
    if edges == [] then groups
    else
      var groups' := if HasType(edges[0], "MessageFlow")
        then CollectFromSources(groups, Resolve(diagram, edges[0].incoming), diagram) else groups;
      CollectFromIncoming(groups', edges[1..], diagram)
  }

  function FlattenGroups(groups: seq<Group>): seq<Shape>
  {
    if groups == [] then [] else groups[0].targets + FlattenGroups(groups[1..])
  }

  /** The `wapama-name` of every receiving element found, in the order the check visits them. */
  function ReceivingNames(shape: Shape, diagram: seq<Shape>): seq<Option<string>>
  {
    var receiving := FlattenGroups(CollectFromIncoming([], Resolve(diagram, shape.incoming), diagram));
    seq(|receiving|, i requires 0 <= i < |receiving| => Property(receiving[i], "wapama-name"))
  }

  /**
   * The name scan: keep the first defined name and report it at the first
   * later name that differs from it (a missing name differs).
   */
  function NameScan(current: Option<string>, names: seq<Option<string>>): Option<string>
    decreases |names|
  {
    if names == [] then None
    else if current.None? then NameScan(names[0], names[1..])
    else if current != names[0] then Some(current.value)
    else NameScan(current, names[1..])
  }

  /** Every defined name is equal to every name after it. */
  ghost predicate NamesAgree(names: seq<Option<string>>)
  {
    forall i, j :: 0 <= i < j < |names| && names[i].Some? ==> names[j] == names[i]
  }

  /**
   * The scan warns exactly when the names disagree, and then reports the
   * first defined name as the expected value.
   */
  lemma {:induction false} NameScanWarnsIffDisagree(names: seq<Option<string>>)
    ensures NameScan(None, names).None? <==> NamesAgree(names)
    ensures NameScan(None, names).Some? ==>
      exists k :: 0 <= k < |names| && names[k] == Some(NameScan(None, names).value) &&
        forall j :: 0 <= j < k ==> names[j].None?
  {
    if names != [] {
      var rest := names[1..];
      if names[0].None? {
        NameScanWarnsIffDisagree(rest);
        assert forall j :: 0 <= j < |rest| ==> rest[j] == names[j + 1];
        if NameScan(None, rest).Some? {
          var k :| 0 <= k < |rest| && rest[k] == Some(NameScan(None, rest).value) && forall j :: 0 <= j < k ==> rest[j].None?;
          assert names[k + 1] == rest[k];
          forall j | 0 <= j < k + 1 ensures names[j].None? {
            if j > 0 { assert names[j] == rest[j - 1]; }
          }
        }
        if NamesAgree(rest) {
          forall i, j | 0 <= i < j < |names| && names[i].Some? ensures names[j] == names[i] {
            assert i > 0;
            assert names[i] == rest[i - 1] && names[j] == rest[j - 1];
          }
        }
      } else {
        NameScanFromDefined(names[0].value, rest);
        assert forall j :: 0 <= j < |rest| ==> rest[j] == names[j + 1];
        assert names[0] == Some(names[0].value);
        if NamesAgree(names) {
          forall j | 0 <= j < |rest| ensures rest[j] == names[0] {
            assert names[j + 1] == names[0];
          }
        } else {
          var i, j :| 0 <= i < j < |names| && names[i].Some? && names[j] != names[i];
          if i > 0 {
            assert names[i] == rest[i - 1];
            if rest[i - 1] == names[0] { assert rest[j - 1] != names[0]; }
          }
          assert names[j] == rest[j - 1];
        }
      }
    }
  }

  /** From a defined name, the scan warns exactly when some later name differs, and reports that name. */
  lemma {:induction false} NameScanFromDefined(name: string, names: seq<Option<string>>)
    ensures NameScan(Some(name), names).None? <==> forall j :: 0 <= j < |names| ==> names[j] == Some(name)
    ensures NameScan(Some(name), names).Some? ==> NameScan(Some(name), names).value == name
  {
    if names != [] {
      NameScanFromDefined(name, names[1..]);
      assert forall j :: 0 <= j < |names[1..]| ==> names[1..][j] == names[j + 1];
    }
  }

  /** The name check of one changed shape: the expected name when the names disagree. */
  function NameWarning(shape: Shape, diagram: seq<Shape>): Option<string>
  {
    if IsReceiving(shape) then NameScan(None, ReceivingNames(shape, diagram)) else None
  }

  /** How many (sequence flow, event-based gateway source) pairs lead into the changed receive task. */
  function GatewayPredecessorCount(task: Shape, edges: seq<Shape>, diagram: seq<Shape>): nat
    decreases |edges|
  {
    if edges == [] then 0
    else
      (if HasType(edges[0], "SequenceFlow") then GatewaySourceCount(task, Resolve(diagram, edges[0].incoming)) else 0) +
      GatewayPredecessorCount(task, edges[1..], diagram)
  }

  /** The gateway test uses the namespace of the receive task's stencil. */
  predicate IsEventBasedGatewayFor(task: Shape, source: Shape)
  {
    source.stencil.id == task.stencil.namespace + "Exclusive_Eventbased_Gateway"
  }

  function GatewaySourceCount(task: Shape, sources: seq<Shape>): nat
  {
    if sources == [] then 0
    else (if IsEventBasedGatewayFor(task, sources[0]) then 1 else 0) + GatewaySourceCount(task, sources[1..])
  }

  /** The loop-type check of one changed shape: how many times the warning is due. */
  function LoopWarningCount(shape: Shape, diagram: seq<Shape>): nat
  {
    if HasType(shape, "ReceiveTask") && Property(shape, "wapama-looptype") != Some("None")
    then GatewayPredecessorCount(shape, Resolve(diagram, shape.incoming), diagram)
    else 0
  }

  lemma {:induction false} GatewaySourceCountPositive(task: Shape, sources: seq<Shape>)
    ensures GatewaySourceCount(task, sources) > 0 <==> exists i :: 0 <= i < |sources| && IsEventBasedGatewayFor(task, sources[i])
  {
    if sources != [] {
      GatewaySourceCountPositive(task, sources[1..]);
      assert forall i :: 0 < i < |sources| ==> sources[i] == sources[1..][i - 1];
    }
  }

  lemma {:induction false} GatewayPredecessorCountPositive(task: Shape, edges: seq<Shape>, diagram: seq<Shape>)
    ensures GatewayPredecessorCount(task, edges, diagram) > 0 <==>
      exists i :: 0 <= i < |edges| && HasType(edges[i], "SequenceFlow") &&
        GatewaySourceCount(task, Resolve(diagram, edges[i].incoming)) > 0
  {
    if edges != [] {
      GatewayPredecessorCountPositive(task, edges[1..], diagram);
      assert forall i :: 0 < i < |edges| ==> edges[i] == edges[1..][i - 1];
    }
  }

  /**
   * The loop-type warning is due exactly for a receive task whose loop type
   * is not "None" and that is reached by a sequence flow from an
   * event-based gateway.
   */
  lemma LoopWarningIff(shape: Shape, diagram: seq<Shape>)
    ensures LoopWarningCount(shape, diagram) > 0 <==>
      HasType(shape, "ReceiveTask") && Property(shape, "wapama-looptype") != Some("None") &&
      exists edge :: edge in Resolve(diagram, shape.incoming) && HasType(edge, "SequenceFlow") &&
        exists source :: source in Resolve(diagram, edge.incoming) && IsEventBasedGatewayFor(shape, source)
  {
    var edges := Resolve(diagram, shape.incoming);
    GatewayPredecessorCountPositive(shape, edges, diagram);
    forall edge | edge in edges
      ensures GatewaySourceCount(shape, Resolve(diagram, edge.incoming)) > 0 <==>
        exists source :: source in Resolve(diagram, edge.incoming) && IsEventBasedGatewayFor(shape, source)
    {
      GatewaySourceCountPositive(shape, Resolve(diagram, edge.incoming));
    }
  }

  /** The warnings due for one changed shape. */
  function ShapeWarnings(propId: string, shape: Shape, diagram: seq<Shape>): seq<DialogText>
  {
    if propId == "wapama-name" then
      match NameWarning(shape, diagram)
      case Some(expected) => [WrongValue(expected)]
      case None => []
    else if propId == "wapama-looptype" then
      seq(LoopWarningCount(shape, diagram), _ => LoopNone)
    else []
  }

  /** The warnings due for each changed shape, in the order of the shapes. */
  function PerShapeWarnings(propId: string, elements: seq<Shape>, diagram: seq<Shape>): seq<seq<DialogText>>
  {
    seq(|elements|, i requires 0 <= i < |elements| => ShapeWarnings(propId, elements[i], diagram))
  }

  function Flatten(groups: seq<seq<DialogText>>): seq<DialogText>
  {
    if groups == [] then [] else Flatten(groups[..|groups| - 1]) + groups[|groups| - 1]
  }

  /** The warning dialogs the two checks are meant to open, shape by shape. */
  function PropertyChangedWarnings(propId: string, elements: seq<Shape>, diagram: seq<Shape>): seq<DialogText>
  {
    Flatten(PerShapeWarnings(propId, elements, diagram))
  }

  /** The dialogs opened for the warnings, in order. */
  function DialogEvents(warnings: seq<DialogText>): seq<Event>
  {
    seq(|warnings|, i requires 0 <= i < |warnings| => MessageDialogOpened(warnings[i]))
  }

  lemma DialogEventsAppend(a: seq<DialogText>, b: seq<DialogText>)
    ensures DialogEvents(a + b) == DialogEvents(a) + DialogEvents(b)
  {
    assert forall i :: 0 <= i < |a + b| ==> DialogEvents(a + b)[i] == (DialogEvents(a) + DialogEvents(b))[i];
  }

  /** What a property change does as written: complete, or throw from the first dialog call. */
  datatype Reaction = Completed | TypeErrorThrown

  /** Visit the shapes' warnings in order and throw at the first shape that has one. */
  function FirstThrow(groups: seq<seq<DialogText>>): Reaction
  {
    if groups == [] then Completed
    else if groups[0] != [] then TypeErrorThrown
    else FirstThrow(groups[1..])
  }

  /**
   * As written, the per-shape callbacks are not bound to the plugin, so
   * `this.dialogSupport` is undefined there: the first warning that is due
   * throws instead of opening a dialog, and the remaining shapes are not
   * checked.
   */
  function PropertyChangedAsWritten(propId: string, elements: seq<Shape>, diagram: seq<Shape>): Reaction
  {
    FirstThrow(PerShapeWarnings(propId, elements, diagram))
  }

  /** The flattened warnings are empty exactly when every group is. */
  lemma {:induction false} FlattenEmptyIff(groups: seq<seq<DialogText>>)
    ensures Flatten(groups) == [] <==> forall i :: 0 <= i < |groups| ==> groups[i] == []
  {
    if groups != [] {
      var front := groups[..|groups| - 1];
      FlattenEmptyIff(front);
      assert forall i :: 0 <= i < |front| ==> front[i] == groups[i];
    }
  }

  /** The scan throws exactly when some group is not empty. */
  lemma {:induction false} FirstThrowIff(groups: seq<seq<DialogText>>)
    ensures FirstThrow(groups) == TypeErrorThrown <==> exists i :: 0 <= i < |groups| && groups[i] != []
  {
    if groups != [] {
      FirstThrowIff(groups[1..]);
      assert forall i :: 0 < i < |groups| ==> groups[i] == groups[1..][i - 1];
    }
  }

  /** As written, no warning dialog ever opens: the code throws exactly when a warning is due. */
  lemma PropertyChangedAsWrittenThrowsIffWarningDue(propId: string, elements: seq<Shape>, diagram: seq<Shape>)
    ensures PropertyChangedAsWritten(propId, elements, diagram) == TypeErrorThrown <==>
      PropertyChangedWarnings(propId, elements, diagram) != []
    ensures PropertyChangedWarnings(propId, elements, diagram) == [] <==>
      forall i :: 0 <= i < |elements| ==> ShapeWarnings(propId, elements[i], diagram) == []
  {
    var groups := PerShapeWarnings(propId, elements, diagram);
    FlattenEmptyIff(groups);
    FirstThrowIff(groups);
    assert forall i :: 0 <= i < |elements| ==> groups[i] == ShapeWarnings(propId, elements[i], diagram);
  }

  /** A looping receive task right after an event-based gateway: the warning is due, and as written the code throws. */
  lemma PropertyChangedCounterexample()
    ensures var ns := "http://b3mn.org/stencilset/bpmnplus#";
      var gateway := Shape("g", "g", Stencil(ns, ns + "Exclusive_Eventbased_Gateway", "Gateway"), map[], [], ["f"]);
      var flow := Shape("f", "f", Stencil(ns, ns + "SequenceFlow", "Flow"), map[], ["g"], ["t"]);
      var task := Shape("t", "t", Stencil(ns, ns + "ReceiveTask", "Task"), map["wapama-looptype" := "Standard"], ["f"], []);
      var diagram := [gateway, flow, task];
      PropertyChangedWarnings("wapama-looptype", [task], diagram) == [LoopNone] &&
      PropertyChangedAsWritten("wapama-looptype", [task], diagram) == TypeErrorThrown
  {
    var ns := "http://b3mn.org/stencilset/bpmnplus#";
    var gateway := Shape("g", "g", Stencil(ns, ns + "Exclusive_Eventbased_Gateway", "Gateway"), map[], [], ["f"]);
    var flow := Shape("f", "f", Stencil(ns, ns + "SequenceFlow", "Flow"), map[], ["g"], ["t"]);
    var task := Shape("t", "t", Stencil(ns, ns + "ReceiveTask", "Task"), map["wapama-looptype" := "Standard"], ["f"], []);
    var diagram := [gateway, flow, task];
    assert "Standard" != "None";
    assert "f" != "g";
    assert diagram[1..] == [flow, task];
    assert FirstMatching(diagram, ByResourceId(Some("f"))) == Some(flow);
    assert FirstMatching(diagram, ByResourceId(Some("g"))) == Some(gateway);
    assert Resolve(diagram, ["f"]) == [flow];
    assert Resolve(diagram, ["g"]) == [gateway];
    assert GatewaySourceCount(task, [gateway]) == 1;
    assert GatewayPredecessorCount(task, [flow], diagram) == 1;
    assert LoopWarningCount(task, diagram) == 1;
    assert ShapeWarnings("wapama-looptype", task, diagram) == [LoopNone];
    assert PerShapeWarnings("wapama-looptype", [task], diagram) == [[LoopNone]];
    assert [[LoopNone]][..0] == [];
  }
}

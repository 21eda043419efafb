/**
 * The static queries of the BPEL-to-BPMN mapping over a BPEL XML tree.
 *
 * A DOM node is a value: its element name, its attributes, its children in
 * document order, whether it is a text node, and (for text nodes) its
 * character data. Walking `getFirstChild`/`getNextSibling` is a loop over
 * `children`; a Java `HashSet<Node>` is a `set<Node>`; a Java
 * `NullPointerException` is the `NullPointer` result.
 */
module BpelMappingUtil {
  import opened Text

  datatype Node = Node(name: string, attributes: map<string, string>, children: seq<Node>, isText: bool, text: string)

  /** What the source returns where it may dereference null. */
  datatype Result<T> = Ok(value: T) | NullPointer

  /** The element names that count as BPEL activities; membership is case-sensitive. */
  const BpelActivities: set<string> := {
    "invoke", "receive", "reply", "wait", "exit", "empty", "throw", "rethrow",
    "validate", "assign", "compensate", "compensatescope", "pick", "onmessage",
    "onalarm", "sequence", "while", "repeatuntil", "foreach", "flow", "scope"
  }

  /** A non-text child whose name is one of the activity names. */
  predicate IsActivityNode(child: Node)
  {
    !child.isText && child.name in BpelActivities
  }

  /** How a child lookup selects children: as an activity, or by a name compared ignoring case. */
  datatype Criterion = Activity | Named(name: string)

  predicate Matches(child: Node, k: Criterion)
  {
    match k
    case Activity => IsActivityNode(child)
    case Named(name) => EqualsIgnoreCase(child.name, name)
  }

  // ---------------------------------------------------------------------------
  // Specification of the child lookups
  // ---------------------------------------------------------------------------

  predicate AnyMatch(children: seq<Node>, k: Criterion)
  {
    exists i :: 0 <= i < |children| && Matches(children[i], k)
  }

  /** The last child that matches: what a loop keeping the latest match ends with. */
  function LastMatch(children: seq<Node>, k: Criterion): Option<Node>
  {
    if children == [] then None
    else if Matches(children[|children| - 1], k) then Some(children[|children| - 1])
    else LastMatch(children[..|children| - 1], k)
  }

  /** The set of matching children. */
  function AllMatches(children: seq<Node>, k: Criterion): set<Node>
  {
    set c | c in children && Matches(c, k)
  }

  /** `LastMatch` is a matching child after which no child matches, and it is absent only when nothing matches. */
  lemma {:induction false} LastMatchIsLast(children: seq<Node>, k: Criterion)
    ensures LastMatch(children, k).None? <==> !AnyMatch(children, k)
    ensures LastMatch(children, k).Some? ==>
      exists i :: 0 <= i < |children| && children[i] == LastMatch(children, k).value && Matches(children[i], k) &&
        forall j :: i < j < |children| ==> !Matches(children[j], k)
  {
    if children != [] {
      var n := |children| - 1;
      if !Matches(children[n], k) {
        var front := children[..n];
        LastMatchIsLast(front, k);
        assert LastMatch(children, k) == LastMatch(front, k);
        if LastMatch(front, k).Some? {
          var i :| 0 <= i < |front| && front[i] == LastMatch(front, k).value && Matches(front[i], k) &&
            forall j :: i < j < |front| ==> !Matches(front[j], k);
          assert children[i] == front[i];
          forall j | i < j < |children| ensures !Matches(children[j], k) {
            if j < n { assert children[j] == front[j]; }
          }
        } else {
          forall i | 0 <= i < |children| ensures !Matches(children[i], k) {
            if i < n { assert children[i] == front[i]; }
          }
        }
      }
    }
  }

  /** The last match is null exactly when the set of all matches is empty. */
  lemma LastMatchAbsentIffNoMatches(children: seq<Node>, k: Criterion)
    ensures LastMatch(children, k).None? <==> AllMatches(children, k) == {}
    ensures LastMatch(children, k).Some? ==> LastMatch(children, k).value in AllMatches(children, k)
  {
    LastMatchIsLast(children, k);
    if AllMatches(children, k) != {} {
      var c :| c in AllMatches(children, k);
      var i :| 0 <= i < |children| && children[i] == c;
      assert Matches(children[i], k);
      assert AnyMatch(children, k);
    }
    if LastMatch(children, k).Some? {
      var i :| 0 <= i < |children| && children[i] == LastMatch(children, k).value && Matches(children[i], k) &&
        forall j :: i < j < |children| ==> !Matches(children[j], k);
      assert children[i] in AllMatches(children, k);
    }
  }

  // ---------------------------------------------------------------------------
  // Node predicates
  // ---------------------------------------------------------------------------

  /**
   * An invoke is synchronous when it defines output data: an
   * `outputVariable` attribute or a `toParts` child (names ignoring case).
   */
  method IsSynchronousInvoke(invoke: Node) returns (r: bool)
    ensures !EqualsIgnoreCase(invoke.name, "invoke") ==> !r
    ensures EqualsIgnoreCase(invoke.name, "invoke") ==>
      (r <==> "outputVariable" in invoke.attributes || AnyMatch(invoke.children, Named("toParts")))
  {
    if !EqualsIgnoreCase(invoke.name, "invoke") {
      return false;
    }
    r := "outputVariable" in invoke.attributes;
    var i := 0;
    while i < |invoke.children|
      invariant 0 <= i <= |invoke.children|
      invariant r <==> ("outputVariable" in invoke.attributes ||
                        exists j :: 0 <= j < i && Matches(invoke.children[j], Named("toParts")))
    {
      if EqualsIgnoreCase(invoke.children[i].name, "toParts") {
        r := true;
      }
      i := i + 1;
    }
  }

  /** The activity's name: its `name` attribute when set, otherwise its element name. */
  function RealNameOfNode(node: Node): (r: string)
    ensures "name" in node.attributes ==> r == node.attributes["name"]
    ensures "name" !in node.attributes ==> r == node.name
  {
    var name := node.name;
    if "name" in node.attributes then node.attributes["name"] else name
  }

  /** Whether the `createInstance` attribute is set to "yes", in any case. */
  function IsCreateInstanceSet(node: Node): (r: bool)
    ensures r <==> "createInstance" in node.attributes && Lower(node.attributes["createInstance"]) == "yes"
  {
    if "createInstance" in node.attributes then
      EqualsIgnoreCaseIsLowerEquality(node.attributes["createInstance"], "yes");
      LowerOfLowerCase("yes");
      EqualsIgnoreCase(node.attributes["createInstance"], "yes")
    else false
  }

  /** Whether the node maps to a single BPMN activity: it is an assign or a validate, in any case. */
  function NodeIsMappedToSingleActivity(node: Node): (r: bool)
    ensures r <==> Lower(node.name) == Lower("assign") || Lower(node.name) == Lower("validate")
  {
    EqualsIgnoreCaseIsLowerEquality(node.name, "assign");
    EqualsIgnoreCaseIsLowerEquality(node.name, "validate");
    EqualsIgnoreCase(node.name, "assign") || EqualsIgnoreCase(node.name, "validate")
  }

  // ---------------------------------------------------------------------------
  // Child lookups (loops over the sibling chain)
  // ---------------------------------------------------------------------------

  /** Whether some child matches: a loop that raises a flag. */
  method AnyChildMatches(node: Node, k: Criterion) returns (found: bool)
    ensures found <==> AnyMatch(node.children, k)
  {
    found := false;
    var i := 0;
    while i < |node.children|
      invariant 0 <= i <= |node.children|
      invariant found <==> AnyMatch(node.children[..i], k)
    {
      if Matches(node.children[i], k) {
        found := true;
      }
      assert node.children[..i + 1][i] == node.children[i];
      assert forall j :: 0 <= j < i ==> node.children[..i + 1][j] == node.children[..i][j];
      i := i + 1;
    }
    assert node.children[..i] == node.children;
  }

  /** The last matching child: a loop that keeps overwriting its latest match. */
  method LastChildMatching(node: Node, k: Criterion) returns (last: Option<Node>)
    ensures last == LastMatch(node.children, k)
  {
    last := None;
    var i := 0;
    while i < |node.children|
      invariant 0 <= i <= |node.children|
      invariant last == LastMatch(node.children[..i], k)
    {
      assert node.children[..i + 1][..i] == node.children[..i];
      if Matches(node.children[i], k) {
        last := Some(node.children[i]);
      }
      i := i + 1;
    }
    assert node.children[..i] == node.children;
  }

  /** All matching children: a loop that adds each match to a set. */
  method AllChildrenMatching(node: Node, k: Criterion) returns (found: set<Node>)
    ensures found == AllMatches(node.children, k)
  {
    found := {};
    var i := 0;
    while i < |node.children|
      invariant 0 <= i <= |node.children|
      invariant found == AllMatches(node.children[..i], k)
    {
      assert node.children[..i + 1] == node.children[..i] + [node.children[i]];
      if Matches(node.children[i], k) {
        found := found + {node.children[i]};
      }
      i := i + 1;
    }
    assert node.children[..i] == node.children;
  }

  /** Whether the node has a child that is a BPEL activity. */
  method HasActivityChildNode(node: Node) returns (r: bool)
    ensures r <==> exists i :: 0 <= i < |node.children| && IsActivityNode(node.children[i])
  {
    r := AnyChildMatches(node, Activity);
  }

  /** The last child that is a BPEL activity, or null when there is none. */
  method GetActivityChildNode(node: Node) returns (r: Option<Node>)
    ensures r == LastMatch(node.children, Activity)
  {
    r := LastChildMatching(node, Activity);
  }

  /** All children that are BPEL activities. */
  method GetAllActivityChildNodes(node: Node) returns (r: set<Node>)
    ensures r == AllMatches(node.children, Activity)
  {
    r := AllChildrenMatching(node, Activity);
  }

  /** The last child whose name equals `name` ignoring case, or null. */
  method GetSpecificChildNode(node: Node, name: string) returns (r: Option<Node>)
    ensures r == LastMatch(node.children, Named(name))
  {
    r := LastChildMatching(node, Named(name));
  }

  /** All children whose name equals `name` ignoring case. */
  method GetAllSpecificChildNodes(node: Node, name: string) returns (r: set<Node>)
    ensures r == AllMatches(node.children, Named(name))
  {
    r := AllChildrenMatching(node, Named(name));
  }

  /**
   * The activity lookups agree: the last activity child is null exactly when
   * no child is an activity, and is then one of the set of activity children.
   */
  lemma ActivityLookupsAgree(node: Node)
    ensures LastMatch(node.children, Activity).None? <==> !(exists i :: 0 <= i < |node.children| && IsActivityNode(node.children[i]))
    ensures LastMatch(node.children, Activity).None? <==> AllMatches(node.children, Activity) == {}
  {
    LastMatchIsLast(node.children, Activity);
    LastMatchAbsentIffNoMatches(node.children, Activity);
  }

  /** The element names of the activity set are lower case, so camel-cased BPEL names such as `repeatUntil` do not count. */
  lemma ActivityTestIsCaseSensitive(node: Node)
    requires node.name == "repeatUntil" || node.name == "forEach" || node.name == "onMessage"
    ensures !IsActivityNode(node)
  {
    assert "repeatUntil" != "repeatuntil" by { assert "repeatUntil"[6] != "repeatuntil"[6]; }
    assert "forEach" != "foreach" by { assert "forEach"[3] != "foreach"[3]; }
    assert "onMessage" != "onmessage" by { assert "onMessage"[2] != "onmessage"[2]; }
  }

  // ---------------------------------------------------------------------------
  // Recursive activity collection
  // ---------------------------------------------------------------------------

  /**
   * As written, the recursive collection only ever adds the results of its
   * own recursive calls to the accumulator and never a node itself, so what
   * it returns is always the empty set.
   */
  method GetAllActivityChildNodesRecursively(node: Node) returns (r: set<Node>)
    ensures r == {}
    decreases node
  {
    r := {};
    var i := 0;
    while i < |node.children|
      invariant 0 <= i <= |node.children|
      invariant r == {}
    {
      var child := node.children[i];
      if IsActivityNode(child) {
        var below := GetAllActivityChildNodesRecursively(child);
        r := r + below;
      }
      i := i + 1;
    }
  }

  /** Whether some node of the collection has `createInstance` set: a loop that raises a flag. */
  method AnyCreateInstanceSet(nodes: set<Node>) returns (r: bool)
    ensures r <==> exists c :: c in nodes && IsCreateInstanceSet(c)
  {
    r := false;
    var rest := nodes;
    while rest != {}
      invariant rest <= nodes
      invariant r <==> exists c :: c in nodes - rest && IsCreateInstanceSet(c)
      decreases rest
    {
      var child :| child in rest;
      if IsCreateInstanceSet(child) {
        r := true;
      }
      rest := rest - {child};
    }
  }

  /** As written: never true, because the collection it iterates is always empty. */
  method HasActivityChildNodeWithCreateInstanceSet(node: Node) returns (r: bool)
    ensures !r
  {
    var nodes := GetAllActivityChildNodesRecursively(node);
    r := AnyCreateInstanceSet(nodes);
  }

  /**
   * What the collection is documented to return: every activity child and,
   * recursively, the activity descendants reached through activity children,
   * taking the children `[0, i)` of `node`.
   */
  function ActivityDescendantsUpTo(node: Node, i: nat): set<Node>
    requires i <= |node.children|
    decreases node, i
  {
    if i == 0 then {}
    else
      var child := node.children[i - 1];
      ActivityDescendantsUpTo(node, i - 1) +
        (if IsActivityNode(child) then {child} + ActivityDescendantsUpTo(child, |child.children|) else {})
  }

  function ActivityDescendants(node: Node): set<Node>
  {
    ActivityDescendantsUpTo(node, |node.children|)
  }

  /** The corrected collection: add each activity child, then its own collection. */
  method ActivityDescendantsCorrected(node: Node) returns (r: set<Node>)
    ensures r == ActivityDescendants(node)
    decreases node
  {
    r := {};
    var i := 0;
    while i < |node.children|
      invariant 0 <= i <= |node.children|
      invariant r == ActivityDescendantsUpTo(node, i)
    {
      var child := node.children[i];
      if IsActivityNode(child) {
        var below := ActivityDescendantsCorrected(child);
        r := r + {child} + below;
      }
      i := i + 1;
    }
  }

  /**
   * The corrected collection holds exactly activity nodes, holds every
   * activity child, and is closed under taking activity children.
   */
  lemma {:induction false} ActivityDescendantsUpToProperties(node: Node, i: nat)
    requires i <= |node.children|
    ensures forall d :: d in ActivityDescendantsUpTo(node, i) ==> IsActivityNode(d)
    ensures forall j :: 0 <= j < i && IsActivityNode(node.children[j]) ==>
      node.children[j] in ActivityDescendantsUpTo(node, i) &&
      ActivityDescendants(node.children[j]) <= ActivityDescendantsUpTo(node, i)
    decreases node, i
  {
    if i > 0 {
      ActivityDescendantsUpToProperties(node, i - 1);
      var child := node.children[i - 1];
      if IsActivityNode(child) {
        ActivityDescendantsUpToProperties(child, |child.children|);
      }
    }
  }

  lemma ActivityDescendantsClosed(node: Node, d: Node, c: Node)
    requires d in ActivityDescendants(node)
    requires c in d.children && IsActivityNode(c)
    ensures IsActivityNode(d) && c in ActivityDescendants(node)
  {
    ActivityDescendantsUpToProperties(node, |node.children|);
    ActivityDescendantsMembers(node, |node.children|, d, c);
  }

  lemma {:induction false} ActivityDescendantsMembers(node: Node, i: nat, d: Node, c: Node)
    requires i <= |node.children|
    requires d in ActivityDescendantsUpTo(node, i)
    requires c in d.children && IsActivityNode(c)
    ensures c in ActivityDescendantsUpTo(node, i)
    decreases node, i
  {
    var child := node.children[i - 1];
    if d in ActivityDescendantsUpTo(node, i - 1) {
      ActivityDescendantsMembers(node, i - 1, d, c);
    } else if d == child {
      var j :| 0 <= j < |child.children| && child.children[j] == c;
      ActivityDescendantsUpToProperties(child, |child.children|);
    } else {
      ActivityDescendantsMembers(child, |child.children|, d, c);
    }
  }

  /**
   * Nothing else is collected: every member is an activity child of `node`
   * or a member of the collection of one.
   */
  lemma {:induction false} ActivityDescendantsOrigin(node: Node, i: nat, d: Node)
    requires i <= |node.children|
    requires d in ActivityDescendantsUpTo(node, i)
    ensures exists j ::
      0 <= j < i && IsActivityNode(node.children[j]) && (d == node.children[j] || d in ActivityDescendants(node.children[j]))
  {
    if d in ActivityDescendantsUpTo(node, i - 1) {
      ActivityDescendantsOrigin(node, i - 1, d);
    } else {
      assert IsActivityNode(node.children[i - 1]);
    }
  }

  /** The corrected check: some collected activity has `createInstance` set. */
  method HasActivityChildNodeWithCreateInstanceSetCorrected(node: Node) returns (r: bool)
    ensures r <==> exists d :: d in ActivityDescendants(node) && IsCreateInstanceSet(d)
  {
    var nodes := ActivityDescendantsCorrected(node);
    r := AnyCreateInstanceSet(nodes);
  }

  /** An activity child with `createInstance="yes"` is what the corrected check finds and the as-written one misses. */
  lemma CreateInstanceChildIsFound(node: Node, i: nat)
    requires i < |node.children| && IsActivityNode(node.children[i]) && IsCreateInstanceSet(node.children[i])
    ensures exists d :: d in ActivityDescendants(node) && IsCreateInstanceSet(d)
  {
    ActivityDescendantsUpToProperties(node, |node.children|);
    assert node.children[i] in ActivityDescendants(node);
  }

  // ---------------------------------------------------------------------------
  // Control links and join conditions
  // ---------------------------------------------------------------------------

  /** The container child ("targets" or "sources") that the control-link queries use: the last one. */
  function LinkContainer(node: Node, containerName: string): Option<Node>
  {
    LastMatch(node.children, Named(containerName))
  }

  /** Some `containerName` child exists and the last one has a `linkName` child, both ignoring case. */
  predicate HasControlLinksSpec(node: Node, containerName: string, linkName: string)
  {
    LinkContainer(node, containerName).Some? &&
    AllMatches(LinkContainer(node, containerName).value.children, Named(linkName)) != {}
  }

  method HasControlLinks(node: Node, containerName: string, linkName: string) returns (r: bool)
    ensures r == HasControlLinksSpec(node, containerName, linkName)
  {
    var container := GetSpecificChildNode(node, containerName);
    if container.None? {
      return false;
    }
    var links := GetAllSpecificChildNodes(container.value, linkName);
    r := |links| != 0;
  }

  /** Whether the node has incoming control links: a `targets` child with a `target` child. */
  method NodeHasIncomingControlLinks(node: Node) returns (r: bool)
    ensures r == HasControlLinksSpec(node, "targets", "target")
  {
    r := HasControlLinks(node, "targets", "target");
  }

  /** Whether the node has outgoing control links: a `sources` child with a `source` child. */
  method NodeHasOutgoingControlLinks(node: Node) returns (r: bool)
    ensures r == HasControlLinksSpec(node, "sources", "source")
  {
    r := HasControlLinks(node, "sources", "source");
  }

  /** The control-link test holds exactly when one of the container's children is a link element. */
  lemma ControlLinksIff(node: Node, containerName: string, linkName: string)
    ensures HasControlLinksSpec(node, containerName, linkName) <==>
      LinkContainer(node, containerName).Some? &&
      exists j :: 0 <= j < |LinkContainer(node, containerName).value.children| &&
        EqualsIgnoreCase(LinkContainer(node, containerName).value.children[j].name, linkName)
  {
    var container := LinkContainer(node, containerName);
    if container.Some? {
      var cs := container.value.children;
      if AllMatches(cs, Named(linkName)) != {} {
        var c :| c in AllMatches(cs, Named(linkName));
        var j :| 0 <= j < |cs| && cs[j] == c;
        assert Matches(cs[j], Named(linkName));
      } else {
        forall j | 0 <= j < |cs| ensures !EqualsIgnoreCase(cs[j].name, linkName) {
          assert cs[j] !in AllMatches(cs, Named(linkName));
        }
      }
    }
  }

  /** DOM `getTextContent`: a text node's data, or the concatenated text of an element's children. */
  function TextContent(node: Node): string
  {
    if node.isText then node.text else TextContentOf(node.children)
  }

  function TextContentOf(nodes: seq<Node>): string
  {
    if nodes == [] then "" else TextContent(nodes[0]) + TextContentOf(nodes[1..])
  }

  /** The value of every link's `linkName` attribute, in the given order. */
  function LinkNames(links: seq<Node>): seq<string>
    requires forall t :: t in links ==> "linkName" in t.attributes
  {
    if links == [] then [] else [links[0].attributes["linkName"]] + LinkNames(links[1..])
  }

  /** `order` lists every element of `s` once: an iteration order of a hash set. */
  ghost predicate IsIterationOrder(order: seq<Node>, s: set<Node>)
  {
    |order| == |s| && forall x :: x in order <==> x in s
  }

  /** The outcome of `getJoinConditionOfNode` for the given iteration order of the target set. */
  function JoinConditionSpec(node: Node, order: seq<Node>): Result<string>
  {
    match LinkContainer(node, "targets")
    case None => NullPointer
    case Some(targets) =>
      match LastMatch(targets.children, Named("joincondition"))
      case Some(condition) => Ok(TextContent(condition))
      case None =>
        if forall t :: t in order ==> "linkName" in t.attributes
        then Ok(Join(LinkNames(order), " OR "))
        else NullPointer
  }

  /**
   * The join condition: the text of an explicit `joincondition` when there is
   * one, otherwise the `linkName`s of the targets joined by " OR ", taken in
   * the unspecified order of the hash set. Without a `targets` child, or with
   * a target lacking `linkName`, the source dereferences null.
   */
  method GetJoinConditionOfNode(node: Node) returns (r: Result<string>, ghost order: seq<Node>)
    ensures LinkContainer(node, "targets").Some? &&
            LastMatch(LinkContainer(node, "targets").value.children, Named("joincondition")).None? ==>
      IsIterationOrder(order, AllMatches(LinkContainer(node, "targets").value.children, Named("target")))
    ensures r == JoinConditionSpec(node, order)
  {
    order := [];
    var targets := GetSpecificChildNode(node, "targets");
    if targets.None? {
      return NullPointer, order;
    }
    var condition := GetSpecificChildNode(targets.value, "joincondition");
    if condition.Some? {
      return Ok(TextContent(condition.value)), order;
    }
    var rest := GetAllSpecificChildNodes(targets.value, "target");
    ghost var all := rest;
    var buffer := "";
    var missing, started := false, false;
    while rest != {}
      invariant rest <= all
      invariant forall x :: x in order <==> x in all - rest
      invariant |order| + |rest| == |all|
      invariant missing <==> exists t :: t in order && "linkName" !in t.attributes
      invariant started <==> order != []
      invariant !missing ==> buffer == Join(LinkNames(order), " OR ")
      decreases rest
    {
      var t :| t in rest;
      if !missing {
        if "linkName" !in t.attributes {
          missing := true;
        } else {
          JoinAppend(LinkNames(order), t.attributes["linkName"], " OR ");
          LinkNamesAppend(order, t);
          buffer := if started then buffer + " OR " + t.attributes["linkName"] else t.attributes["linkName"];
        }
      }
      order := order + [t];
      rest := rest - {t};
      started := true;
    }
    r := if missing then NullPointer else Ok(buffer);
  }

  lemma LinkNamesAppend(links: seq<Node>, t: Node)
    requires forall x :: x in links ==> "linkName" in x.attributes
    requires "linkName" in t.attributes
    ensures LinkNames(links + [t]) == LinkNames(links) + [t.attributes["linkName"]]
  {
    if links != [] {
      assert (links + [t])[1..] == links[1..] + [t];
      LinkNamesAppend(links[1..], t);
    }
  }

  /**
   * Without an explicit condition the implicit one is empty when there are no
   * targets, and for n targets it is the n link names with n - 1 " OR "
   * separators between them.
   */
  lemma ImplicitJoinCondition(node: Node, order: seq<Node>)
    requires LinkContainer(node, "targets").Some?
    requires LastMatch(LinkContainer(node, "targets").value.children, Named("joincondition")).None?
    requires forall t :: t in order ==> "linkName" in t.attributes
    ensures order == [] ==> JoinConditionSpec(node, order) == Ok("")
    ensures JoinConditionSpec(node, order) == Ok(Concat(JoinPieces(LinkNames(order), " OR ")))
    ensures |order| > 0 ==> |JoinPieces(LinkNames(order), " OR ")| == 2 * |order| - 1
    ensures forall k :: 0 <= k < |order| - 1 ==> JoinPieces(LinkNames(order), " OR ")[2 * k + 1] == " OR "
    ensures forall k :: 0 <= k < |order| ==> JoinPieces(LinkNames(order), " OR ")[2 * k] == order[k].attributes["linkName"]
  {
    LinkNamesShape(order);
    JoinHasSeparatorsBetweenParts(LinkNames(order), " OR ");
  }

  lemma {:induction false} LinkNamesShape(links: seq<Node>)
    requires forall t :: t in links ==> "linkName" in t.attributes
    ensures |LinkNames(links)| == |links|
    ensures forall k :: 0 <= k < |links| ==> LinkNames(links)[k] == links[k].attributes["linkName"]
  {
    if links != [] {
      LinkNamesShape(links[1..]);
    }
  }

  /** The names of all link elements under the last container child, or a null dereference. */
  function ControlLinkNamesSpec(node: Node, containerName: string, linkName: string): Result<set<string>>
  {
    match LinkContainer(node, containerName)
    case None => NullPointer
    case Some(container) =>
      var links := AllMatches(container.children, Named(linkName));
      if forall t :: t in links ==> "linkName" in t.attributes
      then Ok(set t | t in links :: t.attributes["linkName"])
      else NullPointer
  }

  method ControlLinkNames(node: Node, containerName: string, linkName: string) returns (r: Result<set<string>>)
    ensures r == ControlLinkNamesSpec(node, containerName, linkName)
  {
    var container := GetSpecificChildNode(node, containerName);
    if container.None? {
      return NullPointer;
    }
    var links := GetAllSpecificChildNodes(container.value, linkName);
    var names: set<string> := {};
    var rest := links;
    while rest != {}
      invariant rest <= links
      invariant forall t :: t in links - rest ==> "linkName" in t.attributes
      invariant names == set t | t in links - rest :: t.attributes["linkName"]
      decreases rest
    {
      var t :| t in rest;
      if "linkName" !in t.attributes {
        return NullPointer;
      }
      names := names + {t.attributes["linkName"]};
      rest := rest - {t};
    }
    assert links - rest == links;
    r := Ok(names);
  }

  /** The `linkName`s of the `target` children of the last `targets` child. */
  method GetAllIncomingControlLinkNames(node: Node) returns (r: Result<set<string>>)
    ensures r == ControlLinkNamesSpec(node, "targets", "target")
  {
    r := ControlLinkNames(node, "targets", "target");
  }

  /** The `linkName`s of the `source` children of the last `sources` child. */
  method GetAllOutgoingControlLinkNames(node: Node) returns (r: Result<set<string>>)
    ensures r == ControlLinkNamesSpec(node, "sources", "source")
  {
    r := ControlLinkNames(node, "sources", "source");
  }

  /** A name is collected exactly when some link element carries it; collecting succeeds only under a container. */
  lemma ControlLinkNamesMembers(node: Node, containerName: string, linkName: string, s: string)
    requires ControlLinkNamesSpec(node, containerName, linkName).Ok?
    ensures LinkContainer(node, containerName).Some?
    ensures s in ControlLinkNamesSpec(node, containerName, linkName).value <==>
      exists t :: t in LinkContainer(node, containerName).value.children && EqualsIgnoreCase(t.name, linkName) &&
        t.attributes["linkName"] == s
  {
  }

  // ---------------------------------------------------------------------------
  // Inherited suppressJoinFailure
  // ---------------------------------------------------------------------------

  /**
   * As written, walking up the parent chain: the first node of the chain
   * `[node] + ancestors` that carries `suppressJoinFailure` decides (true
   * when it is "yes" in any case). `ancestors` lists the parent first and the
   * top element last. When the top element sits in a document
   * (`inDocument`), its parent is the Document node, whose attribute map is
   * null in DOM, so running off the chain there dereferences null.
   */
  function IsSuppressJoinFailureAsWritten(node: Node, ancestors: seq<Node>, inDocument: bool): (r: Result<bool>)
    ensures r.NullPointer? ==>
      inDocument && !CarriesSuppressJoinFailure(node) && forall j :: 0 <= j < |ancestors| ==> !CarriesSuppressJoinFailure(ancestors[j])
    ensures r == Ok(true) ==> exists c :: c in [node] + ancestors && SuppressesJoinFailure(c)
    decreases |ancestors|
  {
    if "suppressJoinFailure" in node.attributes then
      assert node in [node] + ancestors && (SuppressesJoinFailure(node) <==> EqualsIgnoreCase(node.attributes["suppressJoinFailure"], "yes"));
      Ok(EqualsIgnoreCase(node.attributes["suppressJoinFailure"], "yes"))
    else if ancestors != [] then
      assert ancestors == [ancestors[0]] + ancestors[1..];
      IsSuppressJoinFailureAsWritten(ancestors[0], ancestors[1..], inDocument)
    else if inDocument then NullPointer
    else Ok(false)
  }

  /** The node carries a `suppressJoinFailure` attribute. */
  predicate CarriesSuppressJoinFailure(node: Node)
  {
    "suppressJoinFailure" in node.attributes
  }

  /** The node carries `suppressJoinFailure` set to "yes", in any case. */
  predicate SuppressesJoinFailure(node: Node)
  {
    "suppressJoinFailure" in node.attributes && EqualsIgnoreCase(node.attributes["suppressJoinFailure"], "yes")
  }

  /** Corrected: running off the chain gives the default `false`. */
  function IsSuppressJoinFailure(node: Node, ancestors: seq<Node>): (r: bool)
    ensures r ==> exists c :: c in [node] + ancestors && SuppressesJoinFailure(c)
    ensures !CarriesSuppressJoinFailure(node) && (forall j :: 0 <= j < |ancestors| ==> !CarriesSuppressJoinFailure(ancestors[j])) ==> !r
    decreases |ancestors|
  {
    if "suppressJoinFailure" in node.attributes then
      assert node in [node] + ancestors && (SuppressesJoinFailure(node) <==> EqualsIgnoreCase(node.attributes["suppressJoinFailure"], "yes"));
      EqualsIgnoreCase(node.attributes["suppressJoinFailure"], "yes")
    else if ancestors != [] then
      assert ancestors == [ancestors[0]] + ancestors[1..];
      IsSuppressJoinFailure(ancestors[0], ancestors[1..])
    else false
  }

  /** The index of the nearest node of `chain` carrying the attribute. */
  ghost predicate NearestCarrier(chain: seq<Node>, k: nat)
  {
    k < |chain| && "suppressJoinFailure" in chain[k].attributes &&
    forall j :: 0 <= j < k ==> "suppressJoinFailure" !in chain[j].attributes
  }

  /**
   * The nearest ancestor-or-self carrying `suppressJoinFailure` decides, and
   * with no carrier the result is false.
   */
  lemma {:induction false} SuppressJoinFailureNearestDecides(node: Node, ancestors: seq<Node>)
    ensures var chain := [node] + ancestors;
      (forall k: nat :: NearestCarrier(chain, k) ==>
        (IsSuppressJoinFailure(node, ancestors) <==> Lower(chain[k].attributes["suppressJoinFailure"]) == "yes")) &&
      ((forall j :: 0 <= j < |chain| ==> "suppressJoinFailure" !in chain[j].attributes) ==>
        !IsSuppressJoinFailure(node, ancestors))
    decreases |ancestors|
  {
    var chain := [node] + ancestors;
    LowerOfLowerCase("yes");
    if "suppressJoinFailure" in node.attributes {
      EqualsIgnoreCaseIsLowerEquality(node.attributes["suppressJoinFailure"], "yes");
      assert chain[0] == node;
      forall k: nat | NearestCarrier(chain, k) ensures k == 0 {
      }
    } else if ancestors != [] {
      SuppressJoinFailureNearestDecides(ancestors[0], ancestors[1..]);
      var tail := [ancestors[0]] + ancestors[1..];
      assert tail == ancestors;
      forall k: nat | NearestCarrier(chain, k)
        ensures IsSuppressJoinFailure(node, ancestors) <==> Lower(chain[k].attributes["suppressJoinFailure"]) == "yes"
      {
        assert k > 0;
        assert chain[k] == tail[k - 1];
        forall j | 0 <= j < k - 1 ensures "suppressJoinFailure" !in tail[j].attributes {
          assert tail[j] == chain[j + 1];
        }
        assert NearestCarrier(tail, k - 1);
      }
      if forall j :: 0 <= j < |chain| ==> "suppressJoinFailure" !in chain[j].attributes {
        forall j | 0 <= j < |tail| ensures "suppressJoinFailure" !in tail[j].attributes {
          assert tail[j] == chain[j + 1];
        }
      }
    }
  }

  /** A node's own non-"yes" value gives false, whatever the ancestors say. */
  lemma SuppressJoinFailureOwnValueWins(node: Node, ancestors: seq<Node>)
    requires "suppressJoinFailure" in node.attributes
    requires Lower(node.attributes["suppressJoinFailure"]) != "yes"
    ensures !IsSuppressJoinFailure(node, ancestors)
  {
    EqualsIgnoreCaseIsLowerEquality(node.attributes["suppressJoinFailure"], "yes");
    LowerOfLowerCase("yes");
  }

  /** Where the as-written walk returns at all, it agrees with the corrected one. */
  lemma {:induction false} SuppressJoinFailureAsWrittenAgrees(node: Node, ancestors: seq<Node>, inDocument: bool)
    ensures IsSuppressJoinFailureAsWritten(node, ancestors, inDocument).Ok? ==>
      IsSuppressJoinFailureAsWritten(node, ancestors, inDocument).value == IsSuppressJoinFailure(node, ancestors)
    ensures IsSuppressJoinFailureAsWritten(node, ancestors, inDocument).NullPointer? <==>
      inDocument && forall j :: 0 <= j < |[node] + ancestors| ==> "suppressJoinFailure" !in ([node] + ancestors)[j].attributes
    decreases |ancestors|
  {
    var chain := [node] + ancestors;
    if "suppressJoinFailure" !in node.attributes && ancestors != [] {
      SuppressJoinFailureAsWrittenAgrees(ancestors[0], ancestors[1..], inDocument);
      var tail := [ancestors[0]] + ancestors[1..];
      assert tail == ancestors;
      assert chain[0] == node;
      var noneOnChain := forall j :: 0 <= j < |chain| ==> "suppressJoinFailure" !in chain[j].attributes;
      var noneOnTail := forall j :: 0 <= j < |tail| ==> "suppressJoinFailure" !in tail[j].attributes;
      assert noneOnChain <==> noneOnTail by {
        if noneOnTail {
          forall j | 0 <= j < |chain| ensures "suppressJoinFailure" !in chain[j].attributes {
            if j > 0 { assert chain[j] == tail[j - 1]; }
          }
        }
        if noneOnChain {
          forall j | 0 <= j < |tail| ensures "suppressJoinFailure" !in tail[j].attributes {
            assert tail[j] == chain[j + 1];
          }
        }
      }
    } else {
      assert chain[0] == node;
    }
  }

  /** An activity under a process element that leaves the attribute unset, in a document: the walk dereferences null. */
  lemma SuppressJoinFailureDocumentCounterexample()
    ensures IsSuppressJoinFailureAsWritten(
      Node("empty", map[], [], false, ""), [Node("process", map[], [], false, "")], true) == NullPointer
    ensures !IsSuppressJoinFailure(Node("empty", map[], [], false, ""), [Node("process", map[], [], false, "")])
  {
  }
}

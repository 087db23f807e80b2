/** The course-graph builder of frontend/src/hooks/useCourseFlow.js: the
    function `getFlowElements` that the hook returns turns the ordered module
    list of a course into the nodes and edges of a vertical roadmap. */
module CourseFlow {
  import opened Wrappers
  import opened CourseModel
  import opened Chars

  const NODE_WIDTH: int := 250
  const NODE_HEIGHT: int := 120
  const Y_SPACING: int := 50

  /** The course object the hook is given: `null` is `None`, and a course whose
      `modules` key is missing has `modules == None`. */
  datatype CourseSnapshot = CourseSnapshot(modules: Option<seq<Module>>)

  datatype Position = Position(x: int, y: int)

  /** The `data` bundle of a node. `onComplete` is the handler passed to
      `getFlowElements`, of whatever type the view uses. */
  datatype NodeData<H> = NodeData(
    labelText: string,
    description: string,
    resources: seq<Resource>,
    isCompleted: bool,
    onComplete: H,
    moduleId: string)

  datatype NodeStyle = NodeStyle(width: int, height: int)

  /** A roadmap node; `kind` is the node's `type` key ('input' or 'default'). */
  datatype FlowNode<H> = FlowNode(
    id: string,
    position: Position,
    data: NodeData<H>,
    kind: string,
    style: NodeStyle)

  datatype EdgeStyle = EdgeStyle(stroke: string, strokeWidth: int)

  /** A roadmap edge; `kind` is the edge's `type` key. */
  datatype FlowEdge = FlowEdge(
    id: string,
    source: string,
    target: string,
    kind: string,
    animated: bool,
    labelText: string,
    style: EdgeStyle)

  /** The modules the builder walks over: none when the course or its
      `modules` key is absent. */
  function ModulesOf(course: Option<CourseSnapshot>): seq<Module>
  {
    if course.None? || course.value.modules.None? then [] else course.value.modules.value
  }

  // ---------------------------------------------------------------------
  // Decimal rendering of the week number inside the template literal
  // ---------------------------------------------------------------------

  function DigitChar(d: nat): (c: char)
    requires d < 10
    ensures IsDigit(c)
  {
    ('0' as int + d) as char
  }

  /** The decimal digits of `n`, most significant first, without leading zeros. */
  function NatDigits(n: nat): (s: string)
    decreases n
  {
    if n < 10 then [DigitChar(n)] else NatDigits(n / 10) + [DigitChar(n % 10)]
  }

  /** `String(n)` for an integer `n`: a minus sign for negatives, then the digits. */
  function DecimalString(n: int): string
  {
    if n < 0 then "-" + NatDigits(-n) else NatDigits(n)
  }

  function DigitValue(c: char): nat
    requires IsDigit(c)
  {
    c as int - '0' as int
  }

  /** The value of a string of decimal digits, read most significant first. */
  function DigitsValue(s: string): nat
    requires forall i :: 0 <= i < |s| ==> IsDigit(s[i])
  {
    if s == [] then 0
    else DigitsValue(s[..|s| - 1]) * 10 + DigitValue(s[|s| - 1])
  }

  /** `NatDigits` is a canonical decimal rendering: digits only, no leading
      zero unless the number is 0, and reading it back gives the number. */
  lemma {:induction false} NatDigitsRoundTrip(n: nat)
    ensures var s := NatDigits(n);
      && s != []
      && (forall i :: 0 <= i < |s| ==> IsDigit(s[i]))
      && (s[0] == '0' ==> n == 0)
      && DigitsValue(s) == n
  {
    if n >= 10 {
      NatDigitsRoundTrip(n / 10);
      var s := NatDigits(n);
      assert s[..|s| - 1] == NatDigits(n / 10);
    }
  }

  /** The node label `Week ${module.week}: ${module.title}`. */
  function Label(m: Module): (r: string)
    ensures |r| > 7 + |m.title|
    ensures r[..5] == "Week "
    ensures r[|r| - |m.title| - 2..] == ": " + m.title
    ensures r[5..|r| - |m.title| - 2] == DecimalString(m.week)
  {
    "Week " + DecimalString(m.week) + ": " + m.title
  }

  // ---------------------------------------------------------------------
  // The graph
  // ---------------------------------------------------------------------

  /** Vertical position of the node for module `i`. */
  function NodeY(i: nat): int
  {
    i * (NODE_HEIGHT + Y_SPACING)
  }

  /** The nodes form one column going strictly downwards. */
  lemma NodeYIncreasing(i: nat, j: nat)
    requires i < j
    ensures NodeY(i) < NodeY(j)
  {
  }

  /** `n` is the node built for module `m` sitting at index `i`. */
  ghost predicate IsNodeFor<H>(n: FlowNode<H>, m: Module, i: nat, onComplete: H)
  {
    && n.id == m.id
    && n.position == Position(0, NodeY(i))
    && n.data == NodeData(Label(m), m.description, m.resources, m.isCompleted, onComplete, m.id)
    && n.kind == (if i == 0 then "input" else "default")
    && n.style == NodeStyle(NODE_WIDTH, NODE_HEIGHT)
  }

  /** Appending the node for the next module keeps every node in place. */
  lemma NodesExtend<H>(nodes: seq<FlowNode<H>>, node: FlowNode<H>, ms: seq<Module>, onComplete: H)
    requires |nodes| < |ms|
    requires forall i :: 0 <= i < |nodes| ==> IsNodeFor(nodes[i], ms[i], i, onComplete)
    requires IsNodeFor(node, ms[|nodes|], |nodes|, onComplete)
    ensures forall i :: 0 <= i <= |nodes| ==> IsNodeFor((nodes + [node])[i], ms[i], i, onComplete)
  {
    forall i | 0 <= i <= |nodes|
      ensures IsNodeFor((nodes + [node])[i], ms[i], i, onComplete)
    {
      if i < |nodes| {
        assert (nodes + [node])[i] == nodes[i];
      }
    }
  }

  /** The edge from the node with id `sourceId` into the node of `target`. */
  function EdgeInto(sourceId: string, target: Module): FlowEdge
  {
    var done := target.isCompleted;
    FlowEdge(
      "e-" + sourceId + "-" + target.id,
      sourceId,
      target.id,
      "smoothstep",
      !done,
      if done then "Completed" else "Next Up",
      EdgeStyle(if done then "#10B981" else "#4F46E5", if done then 3 else 2))
  }

  /** The edges drawn for the first `k` modules: one into each module `i`
      (`1 <= i < k`) whose predecessor has a truthy id, in module order. */
  function EdgesUpTo(ms: seq<Module>, k: nat): seq<FlowEdge>
    requires k <= |ms|
    decreases k
  {
    if k <= 1 then []
    else EdgesUpTo(ms, k - 1) + (if ms[k - 2].id != "" then [EdgeInto(ms[k - 2].id, ms[k - 1])] else [])
  }

  function EdgesOf(ms: seq<Module>): seq<FlowEdge>
  {
    EdgesUpTo(ms, |ms|)
  }

  /** Visiting module `k` adds at most the one edge into it, from module
      `k - 1`, when that module has a truthy id. */
  lemma EdgesStep(ms: seq<Module>, k: nat, previousNodeId: Option<string>)
    requires k < |ms|
    requires previousNodeId == if k == 0 then None else Some(ms[k - 1].id)
    ensures EdgesUpTo(ms, k + 1)
      == EdgesUpTo(ms, k) + (if Truthy(previousNodeId) then [EdgeInto(previousNodeId.value, ms[k])] else [])
  {
  }

  /** `getFlowElements(onCompleteHandler)` for the course the hook was given. */
  method GetFlowElements<H>(course: Option<CourseSnapshot>, onComplete: H)
    returns (nodes: seq<FlowNode<H>>, edges: seq<FlowEdge>)
    ensures ModulesOf(course) == [] ==> nodes == [] && edges == []
    ensures |nodes| == |ModulesOf(course)|
    ensures forall i :: 0 <= i < |nodes| ==> IsNodeFor(nodes[i], ModulesOf(course)[i], i, onComplete)
    ensures forall i, j :: 0 <= i < j < |nodes| ==> nodes[i].position.y < nodes[j].position.y
    ensures edges == EdgesOf(ModulesOf(course))
  {
    if course.None? || course.value.modules.None? || |course.value.modules.value| == 0 {
      return [], [];
    }
    var modules := course.value.modules.value;
    nodes, edges := [], [];
    var previousNodeId: Option<string> := None;
    var yPos := 0;
    var index := 0;
    while index < |modules|
      invariant 0 <= index <= |modules|
      invariant |nodes| == index
      invariant forall i :: 0 <= i < index ==> IsNodeFor(nodes[i], modules[i], i, onComplete)
      invariant yPos == NodeY(index)
      invariant previousNodeId == if index == 0 then None else Some(modules[index - 1].id)
      invariant edges == EdgesUpTo(modules, index)
    {
      var current := modules[index];
      var nodeId := current.id;
      var isFirstModule := index == 0;
      var node := FlowNode(
        nodeId,
        Position(0, yPos),
        NodeData(Label(current), current.description, current.resources, current.isCompleted, onComplete, current.id),
        if isFirstModule then "input" else "default",
        NodeStyle(NODE_WIDTH, NODE_HEIGHT));
      NodesExtend(nodes, node, modules, onComplete);
      nodes := nodes + [node];
      EdgesStep(modules, index, previousNodeId);
      if Truthy(previousNodeId) {
        edges := edges + [EdgeInto(previousNodeId.value, current)];
      }
      previousNodeId := Some(nodeId);
      yPos := yPos + NODE_HEIGHT + Y_SPACING;
      index := index + 1;
    }
    forall i, j | 0 <= i < j < |nodes|
      ensures nodes[i].position.y < nodes[j].position.y
    {
      NodeYIncreasing(i, j);
    }
  }

  // ---------------------------------------------------------------------
  // Properties of the edge list
  // ---------------------------------------------------------------------

  /** Every edge drawn goes from module `i - 1` into module `i` for some `i`,
      its id is `e-<source>-<target>`, and its styling follows the completion
      state of its TARGET module: animated and "Next Up" with width 2 while the
      target is pending, "Completed" with width 3 once it is done. */
  lemma {:induction false} EdgesConnectConsecutiveModules(ms: seq<Module>, k: nat, e: FlowEdge)
    requires k <= |ms|
    requires e in EdgesUpTo(ms, k)
    ensures exists i :: 1 <= i < k && ms[i - 1].id != "" && e == EdgeInto(ms[i - 1].id, ms[i])
    ensures exists i :: (1 <= i < k
      && e.source == ms[i - 1].id && e.source != ""
      && e.target == ms[i].id
      && e.id == "e-" + ms[i - 1].id + "-" + ms[i].id
      && e.animated == !ms[i].isCompleted
      && e.labelText == (if ms[i].isCompleted then "Completed" else "Next Up")
      && e.style.strokeWidth == (if ms[i].isCompleted then 3 else 2))
  {
    assert k > 1;
    if e in EdgesUpTo(ms, k - 1) {
      EdgesConnectConsecutiveModules(ms, k - 1, e);
    } else {
      assert e == EdgeInto(ms[k - 2].id, ms[k - 1]);
    }
  }

  /** Conversely, every consecutive pair whose first module has a truthy id
      gets its edge. */
  lemma {:induction false} ConsecutiveModulesAreConnected(ms: seq<Module>, k: nat, i: nat)
    requires k <= |ms|
    requires 1 <= i < k && ms[i - 1].id != ""
    ensures EdgeInto(ms[i - 1].id, ms[i]) in EdgesUpTo(ms, k)
  {
    if i < k - 1 {
      ConsecutiveModulesAreConnected(ms, k - 1, i);
    }
  }

  /** There is at most one edge per consecutive pair. */
  lemma {:induction false} EdgeCountBound(ms: seq<Module>, k: nat)
    requires 1 <= k <= |ms|
    ensures |EdgesUpTo(ms, k)| <= k - 1
  {
    if k > 1 {
      EdgeCountBound(ms, k - 1);
    }
  }

  /** When every module that has a successor has a non-empty id (the usual
      case), there are exactly `n - 1` edges and the `i`-th of them joins
      module `i` to module `i + 1`. */
  lemma {:induction false} EdgesWhenIdsPresent(ms: seq<Module>, k: nat)
    requires 1 <= k <= |ms|
    requires forall i :: 0 <= i < k - 1 ==> ms[i].id != ""
    ensures |EdgesUpTo(ms, k)| == k - 1
    ensures forall i :: 0 <= i < k - 1 ==> EdgesUpTo(ms, k)[i] == EdgeInto(ms[i].id, ms[i + 1])
  {
    if k > 1 {
      EdgesWhenIdsPresent(ms, k - 1);
    }
  }

  /** The worked example: with only the first of three modules completed,
      both edges are animated; once the second is completed the edge into it
      stops being animated and the edge into the third still is. */
  lemma ProgressScenario(r: seq<Resource>)
    ensures var before := [
        Module("m1", 1, "A", "", 5, r, true),
        Module("m2", 2, "B", "", 5, r, false),
        Module("m3", 3, "C", "", 5, r, false)];
      var after := before[1 := before[1].(isCompleted := true)];
      && |EdgesOf(before)| == 2 && |EdgesOf(after)| == 2
      && EdgesOf(before)[0].id == "e-m1-m2" && EdgesOf(before)[1].id == "e-m2-m3"
      && EdgesOf(before)[0].animated && EdgesOf(before)[1].animated
      && EdgesOf(after)[0].id == "e-m1-m2" && EdgesOf(after)[1].id == "e-m2-m3"
      && !EdgesOf(after)[0].animated && EdgesOf(after)[1].animated
  {
  }
}

/** The task dependency check (scripts/agent_os_compliance/validators/tasks.py):
    the graph that the validator builds and its depth-first search, which goes
    on after it has found a cycle. */
module TaskGraph {
  type TaskId = string

  datatype Task = Task(id: TaskId, dependencies: seq<TaskId>)

  type Graph = map<TaskId, seq<TaskId>>

  // ----- the graph -----------------------------------------------------------

  predicate IsBlocker(d: TaskId) { "B-" <= d }

  predicate IsEpic(d: TaskId) { "E" <= d && '.' !in d }

  predicate Known(d: TaskId, ids: set<TaskId>)
  {
    d in ids || (IsEpic(d) && exists k :: k in ids && d + "." <= k)
  }

  function IdsOf(tasks: seq<Task>): set<TaskId> { set t | t in tasks :: t.id }

  /** The dependencies that become edges, in order. */
  function EdgesOf(deps: seq<TaskId>, ids: set<TaskId>): seq<TaskId>
  {
    if deps == [] then []
    else
      var d := deps[|deps| - 1];
      EdgesOf(deps[..|deps| - 1], ids) + if !IsBlocker(d) && Known(d, ids) then [d] else []
  }

  lemma {:induction false} EdgesAreKnownDependencies(deps: seq<TaskId>, ids: set<TaskId>, d: TaskId)
    ensures d in EdgesOf(deps, ids) <==> d in deps && !IsBlocker(d) && Known(d, ids)
  {
    if deps != [] {
      var init, last := deps[..|deps| - 1], deps[|deps| - 1];
      assert deps == init + [last];
      EdgesAreKnownDependencies(init, ids, d);
    }
  }

  ghost predicate LastRow(tasks: seq<Task>, i: int)
  {
    0 <= i < |tasks| && forall j :: i < j < |tasks| ==> tasks[j].id != tasks[i].id
  }

  /** The last row of a task identifier decides its edges. */
  ghost predicate IsGraphOf(g: Graph, tasks: seq<Task>, ids: set<TaskId>)
  {
    && g.Keys == IdsOf(tasks)
    && forall i :: LastRow(tasks, i) ==> g[tasks[i].id] == EdgesOf(tasks[i].dependencies, ids)
  }

  predicate StartsWith(text: string, prefix: string)
  {
    |prefix| <= |text| && forall i :: 0 <= i < |prefix| ==> text[i] == prefix[i]
  }

  /** A task by its name, or an epic, named without a dot, by one of its tasks. */
  predicate Refers(tasks: seq<Task>, d: TaskId)
  {
    || (exists t :: t in tasks && t.id == d)
    || (StartsWith(d, "E") && (forall c :: c in d ==> c != '.') && exists t :: t in tasks && StartsWith(t.id, d + "."))
  }

  /** From a task, edges lead exactly to the dependencies of its last row that refer
      to a task and are no blockers. */
  ghost predicate KnownDependencies(g: Graph, tasks: seq<Task>)
  {
    forall i :: LastRow(tasks, i) ==>
      tasks[i].id in g && forall d :: d in g[tasks[i].id] <==>
        d in tasks[i].dependencies && !StartsWith(d, "B-") && Refers(tasks, d)
  }

  lemma {:induction false} PrefixExactly(prefix: string, text: string)
    ensures prefix <= text <==> StartsWith(text, prefix)
  {
  }

  lemma {:induction false} RefersExactly(tasks: seq<Task>, d: TaskId)
    ensures Known(d, IdsOf(tasks)) <==> Refers(tasks, d)
    ensures IsBlocker(d) <==> StartsWith(d, "B-")
  {
    forall k: string, prefix: string
      ensures prefix <= k <==> StartsWith(k, prefix)
    {
      PrefixExactly(prefix, k);
    }
    hide StartsWith;
    if k :| k in IdsOf(tasks) && d + "." <= k {
      var t :| t in tasks && t.id == k;
    }
    if t :| t in tasks && StartsWith(t.id, d + ".") {
      assert t.id in IdsOf(tasks);
    }
  }

  lemma {:induction false} GraphHasKnownDependencies(g: Graph, tasks: seq<Task>)
    requires IsGraphOf(g, tasks, IdsOf(tasks))
    ensures KnownDependencies(g, tasks)
  {
    forall i, d | LastRow(tasks, i)
      ensures tasks[i].id in g
      ensures d in g[tasks[i].id] <==> d in tasks[i].dependencies && !StartsWith(d, "B-") && Refers(tasks, d)
    {
      assert tasks[i] in tasks;
      EdgesAreKnownDependencies(tasks[i].dependencies, IdsOf(tasks), d);
      RefersExactly(tasks, d);
      hide IsBlocker, Known, StartsWith, Refers;
    }
  }

  ghost predicate Distinct(s: seq<TaskId>) { forall i, j :: 0 <= i < j < |s| ==> s[i] != s[j] }

  /** The dependency loop of one row. */
  method AddEdges(graph: Graph, id: TaskId, deps: seq<TaskId>, ids: set<TaskId>) returns (g: Graph)
    ensures g == graph[id := EdgesOf(deps, ids)]
  {
    g := graph[id := []];
    for k := 0 to |deps|
      invariant g == graph[id := EdgesOf(deps[..k], ids)]
    {
      assert deps[..k + 1][..k] == deps[..k];
      assert EdgesOf(deps[..k], ids) + [] == EdgesOf(deps[..k], ids);
      if !IsBlocker(deps[k]) && Known(deps[k], ids) {
        g := g[id := g[id] + [deps[k]]];
      }
    }
    assert deps[..|deps|] == deps;
  }

  lemma {:induction false} OneMoreRow(g: Graph, tasks: seq<Task>, ids: set<TaskId>, t: Task)
    requires IsGraphOf(g, tasks, ids)
    ensures IsGraphOf(g[t.id := EdgesOf(t.dependencies, ids)], tasks + [t], ids)
  {
    var more, rows := g[t.id := EdgesOf(t.dependencies, ids)], tasks + [t];
    assert IdsOf(rows) == IdsOf(tasks) + {t.id};
    forall i | LastRow(rows, i)
      ensures more[rows[i].id] == EdgesOf(rows[i].dependencies, ids)
    {
      if i < |tasks| {
        assert rows[|tasks|].id != rows[i].id;
        assert forall j :: i < j < |tasks| ==> tasks[j].id == rows[j].id;
        assert LastRow(tasks, i);
      }
    }
  }

  /** The first row that carries an id. */
  function FirstRow(tasks: seq<Task>, id: TaskId): (k: nat)
    requires id in IdsOf(tasks)
    ensures k < |tasks| && tasks[k].id == id && forall j :: 0 <= j < k ==> tasks[j].id != id
  {
    if tasks[0].id == id then 0 else 1 + FirstRow(tasks[1..], id)
  }

  ghost predicate InFirstRowOrder(nodes: seq<TaskId>, tasks: seq<Task>)
  {
    && (forall n :: n in nodes ==> n in IdsOf(tasks))
    && forall i, j :: 0 <= i < j < |nodes| ==> FirstRow(tasks, nodes[i]) < FirstRow(tasks, nodes[j])
  }

  lemma {:induction false} FirstRowKept(tasks: seq<Task>, t: Task, id: TaskId)
    requires id in IdsOf(tasks)
    ensures id in IdsOf(tasks + [t]) && FirstRow(tasks + [t], id) == FirstRow(tasks, id)
  {
    hide FirstRow;
    var rows, k := tasks + [t], FirstRow(tasks, id);
    assert rows[k] == tasks[k] && rows[k] in rows;
    var first := FirstRow(rows, id);
    assert first <= k;
    assert rows[first] == tasks[first];
  }

  lemma {:induction false} FirstRowNew(tasks: seq<Task>, t: Task)
    requires t.id !in IdsOf(tasks)
    ensures t.id in IdsOf(tasks + [t]) && FirstRow(tasks + [t], t.id) == |tasks|
  {
    hide FirstRow;
    var rows := tasks + [t];
    assert rows[|tasks|] == t && rows[|tasks|] in rows;
    var first := FirstRow(rows, t.id);
    assert forall j :: 0 <= j < |tasks| ==> rows[j] == tasks[j] && tasks[j] in tasks;
  }

  lemma {:induction false} OneMoreNode(nodes: seq<TaskId>, tasks: seq<Task>, t: Task)
    requires InFirstRowOrder(nodes, tasks) && forall n :: n in nodes <==> n in IdsOf(tasks)
    ensures InFirstRowOrder(if t.id in IdsOf(tasks) then nodes else nodes + [t.id], tasks + [t])
  {
    hide FirstRow, IdsOf;
    forall n | n in nodes
      ensures n in IdsOf(tasks + [t]) && FirstRow(tasks + [t], n) == FirstRow(tasks, n) < |tasks|
    {
      FirstRowKept(tasks, t, n);
    }
    if t.id !in IdsOf(tasks) {
      FirstRowNew(tasks, t);
    }
    assert forall i :: 0 <= i < |nodes| ==> nodes[i] in nodes;
  }

  lemma {:induction false} NoNodes()
    ensures InFirstRowOrder([], [])
  {
  }

  /** Builds the edge lists, and the nodes in the order of their first row. */
  method BuildGraph(tasks: seq<Task>) returns (g: Graph, nodes: seq<TaskId>)
    ensures IsGraphOf(g, tasks, IdsOf(tasks)) && KnownDependencies(g, tasks)
    ensures Distinct(nodes) && (forall n :: n in nodes <==> n in g)
    ensures InFirstRowOrder(nodes, tasks)
  {
    hide FirstRow, InFirstRowOrder;
    var ids := IdsOf(tasks);
    g, nodes := map[], [];
    NoNodes();
    for i := 0 to |tasks|
      invariant IsGraphOf(g, tasks[..i], ids)
      invariant Distinct(nodes) && forall n :: n in nodes <==> n in g
      invariant InFirstRowOrder(nodes, tasks[..i])
    {
      OneMoreRow(g, tasks[..i], ids, tasks[i]);
      OneMoreNode(nodes, tasks[..i], tasks[i]);
      assert tasks[..i + 1] == tasks[..i] + [tasks[i]];
      if tasks[i].id !in g {
        nodes := nodes + [tasks[i].id];
      }
      g := AddEdges(g, tasks[i].id, tasks[i].dependencies, ids);
    }
    assert tasks[..|tasks|] == tasks;
    GraphHasKnownDependencies(g, tasks);
  }

  // ----- cycles ----------------------------------------------------------------

  predicate Edge(g: Graph, u: TaskId, v: TaskId) { u in g && v in g && v in g[u] }

  ghost predicate Walk(g: Graph, p: seq<TaskId>)
  {
    forall i :: 0 <= i < |p| - 1 ==> Edge(g, p[i], p[i + 1])
  }

  ghost predicate Cycle(g: Graph, c: seq<TaskId>)
  {
    |c| >= 2 && c[0] == c[|c| - 1] && Walk(g, c)
  }

  ghost predicate OnCycle(g: Graph, n: TaskId)
  {
    exists c :: Cycle(g, c) && c[0] == n
  }

  /** `order` lists finished nodes: every successor of a finished node was
      finished before it, or has been reported. */
  ghost predicate Finished(g: Graph, order: seq<TaskId>, findings: seq<TaskId>)
  {
    forall i, v :: 0 <= i < |order| && Edge(g, order[i], v) ==> v in order[..i] || v in findings
  }

  /** Position of a node in a list of nodes. */
  function IndexOf(order: seq<TaskId>, n: TaskId): (i: nat)
    requires n in order
    ensures i < |order| && order[i] == n && n !in order[..i]
  {
    if order[0] == n then 0 else 1 + IndexOf(order[1..], n)
  }

  lemma {:induction false} EarliestOnWalk(order: seq<TaskId>, c: seq<TaskId>) returns (k: nat)
    requires |c| >= 1 && forall n :: n in c ==> n in order
    ensures k < |c| && forall n :: n in c ==> IndexOf(order, c[k]) <= IndexOf(order, n)
  {
    k := 0;
    for i := 1 to |c|
      invariant k < i <= |c|
      invariant forall j :: 0 <= j < i ==> IndexOf(order, c[k]) <= IndexOf(order, c[j])
    {
      if IndexOf(order, c[i]) < IndexOf(order, c[k]) {
        k := i;
      }
    }
  }

  /** Completeness: once every node is finished, every cycle carries a report. */
  lemma {:induction false} EveryCycleIsReported(g: Graph, order: seq<TaskId>, findings: seq<TaskId>, c: seq<TaskId>)
    requires Finished(g, order, findings)
    requires forall n :: n in g ==> n in order
    requires Cycle(g, c)
    ensures exists n :: n in c && n in findings
  {
    forall n | n in c
      ensures n in order
    {
      var i :| 0 <= i < |c| && c[i] == n;
      assert i < |c| - 1 ==> Edge(g, c[i], c[i + 1]);
      assert i == |c| - 1 ==> Edge(g, c[0], c[1]);
    }
    var k := EarliestOnWalk(order, c);
    if k == |c| - 1 {
      k := 0;
    }
    var u, v := c[k], c[k + 1];
    assert Edge(g, u, v);
    var i := IndexOf(order, u);
    if v in order[..i] {
      IndexBelow(order, v, i);
      assert false;
    }
    assert v in c && v in findings;
  }

  lemma {:induction false} IndexBelow(order: seq<TaskId>, n: TaskId, i: nat)
    requires i <= |order| && n in order[..i]
    ensures n in order && IndexOf(order, n) < i
  {
    var j :| 0 <= j < i && order[j] == n;
    var first := IndexOf(order, n);
    assert forall k :: 0 <= k < first ==> order[..first][k] == order[k];
  }

  lemma {:induction false} FinishNode(g: Graph, order: seq<TaskId>, findings: seq<TaskId>, node: TaskId)
    requires Finished(g, order, findings) && node in g
    requires forall k :: 0 <= k < |g[node]| && g[node][k] in g ==> g[node][k] in order || g[node][k] in findings
    ensures Finished(g, order + [node], findings)
  {
    var more := order + [node];
    forall i, v | 0 <= i < |more| && Edge(g, more[i], v)
      ensures v in more[..i] || v in findings
    {
      if i < |order| {
        assert more[..i] == order[..i] && more[i] == order[i];
      } else {
        assert more[..i] == order;
      }
    }
  }

  // ----- the search --------------------------------------------------------

  class CycleSearch {
    const graph: Graph
    var visiting: set<TaskId>
    var visited: set<TaskId>
    var findings: seq<TaskId>
    ghost var stack: seq<TaskId>  // the nodes of `visiting`, outermost call first
    ghost var order: seq<TaskId>  // the nodes of `visited`, first finished first

    constructor (g: Graph)
      ensures Valid() && graph == g && visiting == {} && visited == {} && findings == [] && stack == [] && order == []
    {
      graph := g;
      visiting, visited, findings, stack, order := {}, {}, [], [], [];
    }

    ghost predicate Valid()
      reads this
    {
      && (forall n :: n in visiting <==> n in stack)
      && (forall n :: n in visited <==> n in order)
      && Distinct(stack) && visiting !! visited
      && visiting <= graph.Keys && visited <= graph.Keys
      && Walk(graph, stack)
      && Finished(graph, order, findings)
      && (forall n :: n in findings ==> OnCycle(graph, n))
    }

    method Visit(node: TaskId)
      requires Valid() && node in graph
      requires stack == [] || Edge(graph, stack[|stack| - 1], node)
      modifies this
      ensures Valid()
      ensures visiting == old(visiting) && stack == old(stack)
      ensures old(visited) <= visited && old(findings) <= findings
      ensures node in visited || node in findings
      ensures node !in visiting ==> node in visited
      decreases graph.Keys - visiting - visited
    {
      if node in visiting {
        ClosesCycle(graph, stack, node);
        findings := findings + [node];
        return;
      }
      if node in visited {
        return;
      }
      visiting := visiting + {node};
      stack := stack + [node];
      var deps := graph[node];
      for i := 0 to |deps|
        invariant Valid() && node !in visited
        invariant visiting == old(visiting) + {node} && stack == old(stack) + [node]
        invariant old(visited) <= visited && old(findings) <= findings
        invariant forall k :: 0 <= k < i && deps[k] in graph ==> deps[k] in visited || deps[k] in findings
      {
        if deps[i] in graph {
          assert graph.Keys - visiting - visited < old(graph.Keys - visiting - visited) by {
            assert node in old(graph.Keys - visiting - visited);
          }
          Visit(deps[i]);
        }
      }
      FinishNode(graph, order, findings, node);
      visiting := visiting - {node};
      visited := visited + {node};
      stack := old(stack);
      order := order + [node];
    }

    method VisitAll(nodes: seq<TaskId>)
      requires Valid() && stack == []
      requires forall n :: n in nodes <==> n in graph
      modifies this
      ensures forall n :: n in findings ==> OnCycle(graph, n)
      ensures forall c :: Cycle(graph, c) ==> exists n :: n in c && n in findings
    {
      for i := 0 to |nodes|
        invariant Valid() && stack == []
        invariant forall k :: 0 <= k < i ==> nodes[k] in visited
      {
        Visit(nodes[i]);
      }
      forall c | Cycle(graph, c)
        ensures exists n :: n in c && n in findings
      {
        EveryCycleIsReported(graph, order, findings, c);
      }
    }
  }

  /** Reaching a node of the stack again closes a cycle through it. */
  lemma {:induction false} ClosesCycle(g: Graph, stack: seq<TaskId>, node: TaskId)
    requires Walk(g, stack) && node in stack
    requires Edge(g, stack[|stack| - 1], node)
    ensures OnCycle(g, node)
  {
    var i :| 0 <= i < |stack| && stack[i] == node;
    var c := stack[i..] + [node];
    assert Cycle(g, c) && c[0] == node;
  }

  /** The whole check: the reported nodes all lie on cycles, every cycle
      contains a reported node, so something is reported exactly when the task
      graph has a cycle. */
  method CheckCycles(tasks: seq<Task>) returns (findings: seq<TaskId>, g: Graph)
    ensures IsGraphOf(g, tasks, IdsOf(tasks))
    ensures forall n :: n in findings ==> OnCycle(g, n)
    ensures forall c :: Cycle(g, c) ==> exists n :: n in c && n in findings
    ensures findings != [] <==> exists c :: Cycle(g, c)
  {
    var nodes;
    g, nodes := BuildGraph(tasks);
    var search := new CycleSearch(g);
    search.VisitAll(nodes);
    findings := search.findings;
    if findings != [] {
      assert findings[0] in findings;
      assert OnCycle(g, findings[0]);
    }
  }
}

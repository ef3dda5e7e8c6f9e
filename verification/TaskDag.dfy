/**
 The checker of task dependencies: edges named in a task file, the errors they
 give rise to, and the backward walk from the closing task. A task is the rank
 of its name in the order of the texts, by which the original compares tasks.
 */
module TaskDag {
  import Sets

  type Task = nat

  datatype Edge = Edge(source: Task, target: Task)

  /** What stands at one end of an arrow: a task, or the name of something else. */
  datatype Endpoint = Local(task: Task) | Foreign

  /** A chain of hops `A/B -> C -> D`, each hop a list of endpoints. */
  type Chain = seq<seq<Endpoint>>

  // ---- parsing -----------------------------------------------------

  /** The chain has an arrow from a hop that names `e.source` to one that names `e.target`. */
  predicate Draws(chain: Chain, hops: nat, e: Edge) {
    exists i :: 0 <= i < hops && i + 1 < |chain| && Local(e.source) in chain[i] && Local(e.target) in chain[i + 1]
  }

  method Product(left: seq<Endpoint>, right: seq<Endpoint>) returns (edges: seq<Edge>)
    ensures forall e :: e in edges <==> Local(e.source) in left && Local(e.target) in right
  {
    edges := [];
    for i := 0 to |left|
      invariant forall e :: e in edges <==> Local(e.source) in left[..i] && Local(e.target) in right
    {
      var row: seq<Edge> := [];
      for j := 0 to |right|
        invariant forall e :: e in row <==> Local(e.source) == left[i] && Local(e.target) in right[..j]
      {
        if left[i].Local? && right[j].Local? {
          row := row + [Edge(left[i].task, right[j].task)];
        }
        assert right[..j + 1] == right[..j] + [right[j]];
      }
      assert right[..|right|] == right;
      edges := edges + row;
      assert left[..i + 1] == left[..i] + [left[i]];
    }
    assert left[..|left|] == left;
  }

  /** All pairs of tasks in neighbouring hops. */
  method ParseChain(chain: Chain) returns (edges: seq<Edge>)
    ensures forall e :: e in edges <==> Draws(chain, |chain|, e)
  {
    edges := [];
    for i := 0 to |chain|
      invariant forall e :: e in edges <==> Draws(chain, i, e)
    {
      var more: seq<Edge> := [];
      if i + 1 < |chain| {
        more := Product(chain[i], chain[i + 1]);
      }
      forall e ensures Draws(chain, i + 1, e) <==> Draws(chain, i, e) || e in more {
        if Draws(chain, i + 1, e) {
          var k :| 0 <= k < i + 1 && k + 1 < |chain| && Local(e.source) in chain[k] && Local(e.target) in chain[k + 1];
          assert k < i || e in more;
        }
      }
      edges := edges + more;
    }
  }

  // ---- paths -------------------------------------------------------

  /** Consecutive tasks of the path are joined by edges. */
  predicate IsPath(edges: seq<Edge>, p: seq<Task>) {
    p != [] && forall i :: 0 <= i < |p| - 1 ==> Edge(p[i], p[i + 1]) in edges
  }

  ghost predicate Joins(edges: seq<Edge>, p: seq<Task>, from: Task, to: Task) {
    IsPath(edges, p) && p[0] == from && p[|p| - 1] == to
  }

  ghost predicate Reaches(edges: seq<Edge>, from: Task, to: Task) {
    exists p :: Joins(edges, p, from, to)
  }

  lemma ReachesItself(edges: seq<Edge>, t: Task)
    ensures Reaches(edges, t, t)
  {
    assert Joins(edges, [t], t, t);
  }

  lemma ReachesBefore(edges: seq<Edge>, s: Task, t: Task, to: Task)
    requires Edge(s, t) in edges && Reaches(edges, t, to)
    ensures Reaches(edges, s, to)
  {
    var p :| Joins(edges, p, t, to);
    var q := [s] + p;
    forall i | 0 <= i < |q| - 1 ensures Edge(q[i], q[i + 1]) in edges {
      if i > 0 { assert Edge(p[i - 1], p[i]) in edges; }
    }
    assert Joins(edges, q, s, to);
  }

  /** A set that holds the end of a path and all sources of edges into it holds the path. */
  lemma {:induction false} ClosedHoldsPath(edges: seq<Edge>, closed: set<Task>, p: seq<Task>)
    requires IsPath(edges, p) && p[|p| - 1] in closed
    requires forall e :: e in edges && e.target in closed ==> e.source in closed
    ensures p[0] in closed
  {
    if |p| > 1 {
      var rest := p[1..];
      assert forall i :: 0 <= i < |rest| - 1 ==> Edge(rest[i], rest[i + 1]) == Edge(p[i + 1], p[i + 2]);
      ClosedHoldsPath(edges, closed, rest);
      assert Edge(p[0], rest[0]) in edges;
    }
  }

  // ---- the worklist ------------------------------------------------

  /** The sources of the edges into each task. */
  ghost predicate IsIncoming(incoming: map<Task, set<Task>>, edges: seq<Edge>) {
    forall s, t :: Edge(s, t) in edges <==> t in incoming && s in incoming[t]
  }

  method Incoming(edges: seq<Edge>) returns (incoming: map<Task, set<Task>>)
    ensures IsIncoming(incoming, edges)
  {
    incoming := map[];
    for i := 0 to |edges|
      invariant IsIncoming(incoming, edges[..i])
    {
      var e := edges[i];
      var known := if e.target in incoming then incoming[e.target] else {};
      incoming := incoming[e.target := known + {e.source}];
      assert edges[..i + 1] == edges[..i] + [e];
    }
    assert edges[..|edges|] == edges;
  }

  function Sources(edges: seq<Edge>): set<Task> {
    set i | 0 <= i < |edges| :: edges[i].source
  }

  /** Every task found reaches the last one; those not on the stack have all their sources found. */
  ghost predicate Explored(edges: seq<Edge>, last: Task, reachable: set<Task>, stack: seq<Task>) {
    && last in reachable
    && (forall t :: t in reachable ==> Reaches(edges, t, last))
    && (forall e :: e in edges && e.target in reachable && e.target !in stack ==> e.source in reachable)
  }

  /** As `Explored`, but for the sources of one task. */
  ghost predicate ExploredBut(edges: seq<Edge>, last: Task, reachable: set<Task>, stack: seq<Task>, current: Task) {
    && last in reachable
    && (forall t :: t in reachable ==> Reaches(edges, t, last))
    && (forall e :: e in edges && e.target in reachable && e.target !in stack && e.target != current ==>
          e.source in reachable)
  }

  /** The inner loop: the sources of `current` that are new are found and pushed. */
  method PushSources(edges: seq<Edge>, incoming: map<Task, set<Task>>, last: Task, current: Task, found: set<Task>,
                     stack: seq<Task>)
    returns (found': set<Task>, stack': seq<Task>)
    requires IsIncoming(incoming, edges) && current in found && found <= Sources(edges) + {last}
    requires ExploredBut(edges, last, found, stack, current) && forall t :: t in stack ==> t in found
    ensures Explored(edges, last, found', stack') && forall t :: t in stack' ==> t in found'
    ensures found <= found' <= Sources(edges) + {last} && (found' == found ==> stack' == stack)
  {
    found', stack' := found, stack;
    var pending := if current in incoming then incoming[current] else {};
    while pending != {}
      invariant forall s :: s in pending ==> Edge(s, current) in edges
      invariant forall e :: e in edges && e.target == current ==> e.source in found' + pending
      invariant found <= found' <= Sources(edges) + {last} && (found' == found ==> stack' == stack)
      invariant forall t :: t in stack' ==> t in found'
      invariant ExploredBut(edges, last, found', stack', current)
      decreases |pending|
    {
      var previous :| previous in pending;
      assert Edge(previous, current) in edges;
      if previous !in found' {
        ReachesBefore(edges, previous, current, last);
        found' := found' + {previous};
        stack' := stack' + [previous];
      }
      pending := pending - {previous};
    }
  }

  /** Walks backwards from the closing task: ends with exactly the tasks that have a path to it. */
  method TasksReaching(edges: seq<Edge>, incoming: map<Task, set<Task>>, last: Task) returns (reachable: set<Task>)
    requires IsIncoming(incoming, edges)
    ensures forall t :: t in reachable <==> Reaches(edges, t, last)
  {
    reachable := {last};
    var stack := [last];
    ReachesItself(edges, last);
    while stack != []
      invariant reachable <= Sources(edges) + {last}
      invariant forall t :: t in stack ==> t in reachable
      invariant Explored(edges, last, reachable, stack)
      decreases |Sources(edges) + {last} - reachable|, |stack|
    {
      var current := stack[|stack| - 1];
      stack := stack[..|stack| - 1];
      ghost var before := reachable;
      reachable, stack := PushSources(edges, incoming, last, current, reachable, stack);
      if reachable != before {
        Sets.Fewer(Sources(edges) + {last}, before, reachable);
      }
    }
    forall t | Reaches(edges, t, last) ensures t in reachable {
      var p :| Joins(edges, p, t, last);
      ClosedHoldsPath(edges, reachable, p);
    }
  }

  // ---- the check ---------------------------------------------------

  datatype Error =
    | NoTasks
    | Undefined(edge: Edge)
    | Backward(edge: Edge)
    | ParallelWithSource(edge: Edge)
    | NothingBeforeLast(task: Task)
    | Isolated(task: Task)

  predicate IsGreatest(m: Task, ids: seq<Task>) {
    m in ids && forall i :: 0 <= i < |ids| ==> ids[i] <= m
  }

  function Greatest(ids: seq<Task>): (m: Task)
    requires ids != []
    ensures IsGreatest(m, ids)
  {
    if |ids| == 1 then ids[0]
    else
      var rest := Greatest(ids[1..]);
      assert forall i :: 1 <= i < |ids| ==> ids[i] == ids[1..][i - 1];
      if ids[0] >= rest then ids[0] else rest
  }

  /** What is wrong with the task file, error by error. */
  ghost predicate Violates(ids: seq<Task>, parallel: set<Task>, edges: seq<Edge>, e: Error) {
    match e
    case NoTasks => ids == []
    case Undefined(edge) => ids != [] && edge in edges && (edge.source !in ids || edge.target !in ids)
    case Backward(edge) => edge in edges && edge.source in ids && edge.target in ids && edge.source >= edge.target
    case ParallelWithSource(edge) => ids != [] && edge in edges && edge.target in parallel
    case NothingBeforeLast(t) =>
      ids != [] && t == Greatest(ids) && forall i :: 0 <= i < |edges| ==> edges[i].target != t
    case Isolated(t) => t in ids && !Reaches(edges, t, Greatest(ids))
  }

  /** The errors of single edges. */
  ghost predicate EdgeError(ids: seq<Task>, parallel: set<Task>, e: Error, edges: seq<Edge>) {
    (e.Undefined? || e.Backward? || e.ParallelWithSource?) && Violates(ids, parallel, edges, e)
  }

  method CheckEdges(ids: seq<Task>, parallel: set<Task>, edges: seq<Edge>) returns (errors: seq<Error>)
    requires ids != []
    ensures forall e :: e in errors <==> EdgeError(ids, parallel, e, edges)
  {
    var undefined: seq<Error>, backward: seq<Error>, taken: seq<Error> := [], [], [];
    for i := 0 to |edges|
      invariant forall e: Error :: e in undefined <==> e.Undefined? && EdgeError(ids, parallel, e, edges[..i])
      invariant forall e: Error :: e in backward <==> e.Backward? && EdgeError(ids, parallel, e, edges[..i])
      invariant forall e: Error :: e in taken <==> e.ParallelWithSource? && EdgeError(ids, parallel, e, edges[..i])
    {
      var edge := edges[i];
      assert edges[..i + 1] == edges[..i] + [edge];
      if edge.source !in ids || edge.target !in ids {
        undefined := undefined + [Undefined(edge)];
      } else if edge.source >= edge.target {
        backward := backward + [Backward(edge)];
      }
      if edge.target in parallel {
        taken := taken + [ParallelWithSource(edge)];
      }
    }
    assert edges[..|edges|] == edges;
    errors := undefined + backward + taken;
  }

  /** Keeps the first of equal errors. */
  method WithoutRepeats(errors: seq<Error>) returns (r: seq<Error>)
    ensures forall e :: e in r <==> e in errors
    ensures forall i, j :: 0 <= i < j < |r| ==> r[i] != r[j]
  {
    r := [];
    for i := 0 to |errors|
      invariant forall e :: e in r <==> e in errors[..i]
      invariant forall j, k :: 0 <= j < k < |r| ==> r[j] != r[k]
    {
      if errors[i] !in r {
        r := r + [errors[i]];
      }
      assert errors[..i + 1] == errors[..i] + [errors[i]];
    }
    assert errors[..|errors|] == errors;
  }

  /** Reports exactly what is wrong, each error once. */
  method CheckTasks(ids: seq<Task>, parallel: set<Task>, edges: seq<Edge>) returns (errors: seq<Error>)
    ensures forall e :: e in errors <==> Violates(ids, parallel, edges, e)
    ensures forall i, j :: 0 <= i < j < |errors| ==> errors[i] != errors[j]
  {
    if ids == [] {
      return [NoTasks];
    }
    errors := CheckEdges(ids, parallel, edges);
    var last := Greatest(ids);
    var incoming := Incoming(edges);
    if last !in incoming || incoming[last] == {} {
      assert forall i :: 0 <= i < |edges| && edges[i].target == last ==> Edge(edges[i].source, last) in edges;
      errors := errors + [NothingBeforeLast(last)];
    } else {
      var s :| s in incoming[last];
      assert Edge(s, last) in edges;
    }
    var reachable := TasksReaching(edges, incoming, last);
    var isolated: seq<Error> := [];
    for i := 0 to |ids|
      invariant forall e: Error :: e in isolated <==> e.Isolated? && e.task in ids[..i] && e.task !in reachable
    {
      if ids[i] !in reachable {
        isolated := isolated + [Isolated(ids[i])];
      }
      assert ids[..i + 1] == ids[..i] + [ids[i]];
    }
    assert ids[..|ids|] == ids;
    errors := WithoutRepeats(errors + isolated);
  }

  // ---- what a clean file is ----------------------------------------

  /** Edges join defined tasks and lead forward, none into a parallel task, and every task reaches the closing one. */
  ghost predicate Clean(ids: seq<Task>, parallel: set<Task>, edges: seq<Edge>) {
    && ids != []
    && (forall e :: e in edges ==> e.source in ids && e.target in ids && e.source < e.target && e.target !in parallel)
    && (exists e :: e in edges && e.target == Greatest(ids))
    && (forall t :: t in ids ==> Reaches(edges, t, Greatest(ids)))
  }

  /** No task can be had before itself. */
  ghost predicate Acyclic(edges: seq<Edge>) {
    forall p :: IsPath(edges, p) && |p| > 1 ==> p[0] != p[|p| - 1]
  }

  lemma {:induction false} ForwardPath(edges: seq<Edge>, p: seq<Task>)
    requires IsPath(edges, p) && |p| > 1 && forall e :: e in edges ==> e.source < e.target
    ensures p[0] < p[|p| - 1]
  {
    assert Edge(p[0], p[1]) in edges;
    if |p| > 2 {
      var rest := p[1..];
      assert forall i :: 0 <= i < |rest| - 1 ==> Edge(rest[i], rest[i + 1]) == Edge(p[i + 1], p[i + 2]);
      ForwardPath(edges, rest);
    }
  }

  /** Nothing is reported exactly for a clean file, and a clean file has no cycle. */
  lemma NoErrorsExactly(ids: seq<Task>, parallel: set<Task>, edges: seq<Edge>)
    ensures (forall e :: !Violates(ids, parallel, edges, e)) <==> Clean(ids, parallel, edges)
    ensures Clean(ids, parallel, edges) ==> Acyclic(edges)
  {
    if forall e :: !Violates(ids, parallel, edges, e) {
      assert !Violates(ids, parallel, edges, NoTasks);
      forall e | e in edges ensures e.source in ids && e.target in ids && e.source < e.target && e.target !in parallel {
        assert !Violates(ids, parallel, edges, Undefined(e));
        assert !Violates(ids, parallel, edges, Backward(e));
        assert !Violates(ids, parallel, edges, ParallelWithSource(e));
      }
      assert !Violates(ids, parallel, edges, NothingBeforeLast(Greatest(ids)));
      forall t | t in ids ensures Reaches(edges, t, Greatest(ids)) {
        assert !Violates(ids, parallel, edges, Isolated(t));
      }
    }
    if Clean(ids, parallel, edges) {
      forall p | IsPath(edges, p) && |p| > 1 ensures p[0] != p[|p| - 1] {
        ForwardPath(edges, p);
      }
    }
  }
}

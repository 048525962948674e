/** bitbake/lib/bb/build.py: `tasksbetween`, the search for all chains between two tasks. */
module TaskChain {
  import opened Lists

  type Task = string

  /** The tasks of the recipe, and the `deps` flag of each. */
  datatype Graph = Graph(tasks: seq<Task>, deps: map<Task, set<Task>>)

  ghost predicate GraphOk(g: Graph) {
    forall t :: t in g.tasks ==> t in g.deps
  }

  /** `b` runs after `a`; a task naming itself is skipped by the search. */
  predicate Edge(g: Graph, a: Task, b: Task) {
    b in g.tasks && b != a && b in g.deps && a in g.deps[b]
  }

  ghost predicate Walk(g: Graph, w: seq<Task>) {
    w != [] && forall i :: 0 <= i < |w| - 1 ==> Edge(g, w[i], w[i + 1])
  }

  /** A walk from `a` that meets `end` nowhere before its last task. */
  ghost predicate Open(g: Graph, end: Task, a: Task, w: seq<Task>) {
    Walk(g, w) && w[0] == a && end !in w[..|w| - 1]
  }

  /** An open walk from `a` that arrives at `end`. */
  ghost predicate Chain(g: Graph, end: Task, a: Task, w: seq<Task>) {
    Open(g, end, a, w) && w[|w| - 1] == end
  }

  ghost predicate Leads(g: Graph, end: Task, a: Task) {
    exists w :: Chain(g, end, a, w)
  }

  ghost predicate OnChain(g: Graph, end: Task, a: Task, x: Task) {
    exists w :: Chain(g, end, a, w) && x in w
  }

  /** No open walk from `a` repeats a task, not even one of `before`. */
  ghost predicate Simple(g: Graph, end: Task, before: seq<Task>, a: Task) {
    forall w :: Open(g, end, a, w) ==> NoDup(before + w)
  }

  // ---- one step of the search ----

  lemma StepOut(g: Graph, end: Task, a: Task, w: seq<Task>)
    requires Open(g, end, a, w) && |w| > 1
    ensures a != end && Edge(g, a, w[1]) && Open(g, end, w[1], w[1..])
    ensures w == [a] + w[1..]
  {
    assert w[..|w| - 1][0] == a;
    assert w[1..][..|w[1..]| - 1] == w[1..|w| - 1];
    assert forall i :: 0 <= i < |w[1..]| - 1 ==> Edge(g, w[1..][i], w[1..][i + 1]);
  }

  lemma StepIn(g: Graph, end: Task, a: Task, b: Task, w: seq<Task>)
    requires a != end && Edge(g, a, b) && Open(g, end, b, w)
    ensures Open(g, end, a, [a] + w)
  {
    var w' := [a] + w;
    forall i | 0 <= i < |w'| - 1 ensures Edge(g, w'[i], w'[i + 1]) {
      if i > 0 { assert Edge(g, w[i - 1], w[i]); }
    }
    assert w'[..|w'| - 1] == [a] + w[..|w| - 1];
  }

  lemma AtEnd(g: Graph, end: Task, before: seq<Task>)
    requires NoDup(before + [end])
    ensures Simple(g, end, before, end)
    ensures Leads(g, end, end) && forall x :: OnChain(g, end, end, x) <==> x == end
  {
    assert Chain(g, end, end, [end]);
    forall w | Open(g, end, end, w) ensures w == [end] {
      if |w| > 1 { StepOut(g, end, end, w); }
    }
  }

  /** The search meets no repeated task from a task on exactly if it meets none from its successors on. */
  lemma SimpleStep(g: Graph, end: Task, before: seq<Task>, a: Task)
    requires a != end && NoDup(before + [a])
    ensures Simple(g, end, before, a) <==> forall b :: Edge(g, a, b) ==> Simple(g, end, before + [a], b)
  {
    if forall b :: Edge(g, a, b) ==> Simple(g, end, before + [a], b) {
      forall w | Open(g, end, a, w) ensures NoDup(before + w) {
        if |w| > 1 {
          StepOut(g, end, a, w);
          assert before + w == (before + [a]) + w[1..];
        } else {
          assert w == [a];
        }
      }
    }
    if Simple(g, end, before, a) {
      forall b, w | Edge(g, a, b) && Open(g, end, b, w) ensures NoDup(before + [a] + w) {
        StepIn(g, end, a, b, w);
        assert before + [a] + w == before + ([a] + w);
      }
    }
  }

  /** What a task contributes, in terms of its successors. */
  ghost predicate Found(g: Graph, end: Task, chain: seq<Task>, b: Task, x: Task) {
    (x in chain && Leads(g, end, b)) || OnChain(g, end, b, x)
  }

  lemma FoundStep(g: Graph, end: Task, before: seq<Task>, a: Task, x: Task)
    requires a != end
    ensures Found(g, end, before, a, x) <==> exists b :: Edge(g, a, b) && Found(g, end, before + [a], b, x)
  {
    if Found(g, end, before, a, x) {
      var w :| Chain(g, end, a, w) && (x in before || x in w);
      assert |w| > 1;
      StepOut(g, end, a, w);
      assert Chain(g, end, w[1], w[1..]);
      assert Found(g, end, before + [a], w[1], x);
    }
    if b :| Edge(g, a, b) && Found(g, end, before + [a], b, x) {
      var w :| Chain(g, end, b, w) && (x in before + [a] || x in w);
      StepIn(g, end, a, b, w);
      assert Chain(g, end, a, [a] + w);
    }
  }

  // ---- the search ----

  class Search {
    const g: Graph
    const end: Task
    var chain: seq<Task>
    var outtasks: seq<Task>

    constructor (g: Graph, end: Task)
      ensures this.g == g && this.end == end && chain == [] && outtasks == []
    {
      this.g, this.end, chain, outtasks := g, end, [], [];
    }

    /** The loop that adds the chain to the output, leaving out what is there already. */
    method Collect()
      requires NoDup(outtasks)
      modifies `outtasks
      ensures NoDup(outtasks)
      ensures forall x :: x in outtasks <==> x in old(outtasks) || x in chain
    {
      for i := 0 to |chain|
        invariant NoDup(outtasks)
        invariant forall x :: x in outtasks <==> x in old(outtasks) || x in chain[..i]
      {
        if chain[i] !in outtasks {
          outtasks := outtasks + [chain[i]];
        }
      }
    }

    /** False stands for `bb.fatal`: a circular dependency was met. */
    method FollowChain(task: Task) returns (ok: bool)
      requires GraphOk(g) && NoDup(outtasks) && NoDup(chain)
      requires Open(g, end, (chain + [task])[0], chain + [task])
      modifies `chain, `outtasks
      ensures !ok ==> exists w :: Open(g, end, (old(chain) + [task])[0], w) && !NoDup(w)
      ensures ok ==> chain == old(chain) && NoDup(outtasks) && Simple(g, end, chain, task)
      ensures ok ==> forall x :: x in outtasks <==>
        x in old(outtasks) || (HasOther(g, end) && Found(g, end, chain, task, x))
      decreases |Elems(g.tasks) + {task} - Elems(chain)|, 1
    {
      ghost var before := chain;
      if task in chain {
        Repeats(chain, task);
        return false;
      }
      chain := chain + [task];
      ghost var path := chain;
      for i := 0 to |g.tasks|
        invariant chain == path && NoDup(outtasks)
        invariant task != end ==> AllSimple(g, end, path, task, i)
        invariant forall x :: x in outtasks <==> x in old(outtasks) || Visited(g, end, path, task, i, x)
      {
        VisitedNext(g, end, path, task, i);
        ok := Visit(g.tasks[i], task, before);
        if !ok {
          return;
        }
        if task != end {
          AllSimpleNext(g, end, path, task, i);
        }
      }
      chain := chain[..|chain| - 1];
      assert chain == before;
      VisitedAll(g, end, before, task);
      ok := true;
    }

    /** The body of the inner loop, for one `othertask`. */
    method Visit(othertask: Task, task: Task, ghost before: seq<Task>) returns (ok: bool)
      requires GraphOk(g) && NoDup(outtasks) && NoDup(chain) && othertask in g.tasks
      requires chain == before + [task] && Open(g, end, chain[0], chain)
      modifies `chain, `outtasks
      ensures !ok ==> exists w :: Open(g, end, old(chain)[0], w) && !NoDup(w)
      ensures ok ==> chain == old(chain) && NoDup(outtasks)
      ensures ok && task != end && Edge(g, task, othertask) ==> Simple(g, end, chain, othertask)
      ensures ok ==> forall x :: x in outtasks <==>
        x in old(outtasks) || Adds(g, end, chain, task, othertask, x)
      decreases |Elems(g.tasks) + {task} - Elems(before)|, 0
    {
      if othertask != task {
        if task == end {
          Collect();
        } else if task in g.deps[othertask] {
          Extend(g, end, chain, othertask);
          Deeper(g, before, task);
          assert (chain + [othertask])[0] == chain[0];
          ok := FollowChain(othertask);
          return;
        }
      }
      return true;
    }
  }

  /** Some task other than `end` exists; otherwise the inner loop body never runs at the end. */
  ghost predicate HasOther(g: Graph, end: Task) {
    exists j :: 0 <= j < |g.tasks| && g.tasks[j] != end
  }

  /** What the first `i` tasks of the inner loop have contributed. */
  ghost predicate Visited(g: Graph, end: Task, chain: seq<Task>, task: Task, i: nat, x: Task)
    requires i <= |g.tasks|
  {
    if task == end then
      x in chain && exists j :: 0 <= j < i && g.tasks[j] != task
    else
      HasOther(g, end) &&
      exists j :: 0 <= j < i && Edge(g, task, g.tasks[j]) && Found(g, end, chain, g.tasks[j], x)
  }

  ghost predicate AllSimple(g: Graph, end: Task, chain: seq<Task>, task: Task, i: nat)
    requires i <= |g.tasks|
  {
    forall j :: 0 <= j < i && Edge(g, task, g.tasks[j]) ==> Simple(g, end, chain, g.tasks[j])
  }

  lemma AllSimpleNext(g: Graph, end: Task, chain: seq<Task>, task: Task, i: nat)
    requires i < |g.tasks| && AllSimple(g, end, chain, task, i)
    requires Edge(g, task, g.tasks[i]) ==> Simple(g, end, chain, g.tasks[i])
    ensures AllSimple(g, end, chain, task, i + 1)
  {
  }

  lemma Repeats(chain: seq<Task>, task: Task)
    requires task in chain
    ensures !NoDup(chain + [task])
  {
    var k :| 0 <= k < |chain| && chain[k] == task;
    assert (chain + [task])[k] == (chain + [task])[|chain|];
  }

  /** What one iteration of the inner loop adds. */
  ghost predicate Adds(g: Graph, end: Task, chain: seq<Task>, task: Task, b: Task, x: Task) {
    if task == end then b != task && x in chain
    else Edge(g, task, b) && HasOther(g, end) && Found(g, end, chain, b, x)
  }

  lemma VisitedNext(g: Graph, end: Task, chain: seq<Task>, task: Task, i: nat)
    requires i < |g.tasks|
    ensures forall x :: Visited(g, end, chain, task, i + 1, x) <==>
      Visited(g, end, chain, task, i, x) || Adds(g, end, chain, task, g.tasks[i], x)
  {
  }

  lemma VisitedAll(g: Graph, end: Task, before: seq<Task>, task: Task)
    requires NoDup(before + [task])
    requires task != end ==> AllSimple(g, end, before + [task], task, |g.tasks|)
    ensures Simple(g, end, before, task)
    ensures forall x :: Visited(g, end, before + [task], task, |g.tasks|, x) <==>
      HasOther(g, end) && Found(g, end, before, task, x)
  {
    if task == end {
      AtEnd(g, end, before);
      forall x ensures Visited(g, end, before + [task], task, |g.tasks|, x) <==>
        HasOther(g, end) && Found(g, end, before, task, x)
      {
        assert x in before + [task] <==> Found(g, end, before, task, x);
      }
    } else {
      SimpleStep(g, end, before, task);
      forall x ensures Visited(g, end, before + [task], task, |g.tasks|, x) <==>
        HasOther(g, end) && Found(g, end, before, task, x)
      {
        FoundStep(g, end, before, task, x);
      }
    }
  }

  lemma Extend(g: Graph, end: Task, chain: seq<Task>, b: Task)
    requires chain != [] && Open(g, end, chain[0], chain) && chain[|chain| - 1] != end
    requires Edge(g, chain[|chain| - 1], b)
    ensures Open(g, end, chain[0], chain + [b])
  {
    var w := chain + [b];
    forall i | 0 <= i < |w| - 1 ensures Edge(g, w[i], w[i + 1]) {
      if i < |chain| - 1 { assert Edge(g, chain[i], chain[i + 1]); }
    }
    assert w[..|w| - 1] == chain[..|chain| - 1] + [chain[|chain| - 1]];
  }

  lemma Deeper(g: Graph, before: seq<Task>, task: Task)
    requires task !in before
    ensures forall b :: b in g.tasks ==>
      |Elems(g.tasks) + {b} - Elems(before + [task])| < |Elems(g.tasks) + {task} - Elems(before)|
  {
    forall b | b in g.tasks
      ensures |Elems(g.tasks) + {b} - Elems(before + [task])| < |Elems(g.tasks) + {task} - Elems(before)|
    {
      var small := Elems(g.tasks) + {b} - Elems(before + [task]);
      var big := Elems(g.tasks) + {task} - Elems(before);
      assert task in big && task in before + [task] && task !in small;
      SmallerCard(small, big);
    }
  }

  // ---- the answer ----

  datatype Answer = Circular | Tasks(tasks: seq<Task>)

  /** A cycle that the search reaches from `start` without passing through `end`. */
  ghost predicate ReachesCycle(g: Graph, end: Task, start: Task) {
    exists w, i :: Open(g, end, start, w) && 0 <= i < |w| - 1 && w[i] == w[|w| - 1]
  }

  lemma RepeatIsCycle(g: Graph, end: Task, start: Task)
    ensures ReachesCycle(g, end, start) <==> exists w :: Open(g, end, start, w) && !NoDup(w)
  {
    if w :| Open(g, end, start, w) && !NoDup(w) {
      var i, j :| 0 <= i < j < |w| && w[i] == w[j];
      var v := w[..j + 1];
      assert v[..|v| - 1] == w[..j];
      assert w[..|w| - 1][..j] == w[..j];
      assert forall k :: 0 <= k < |v| - 1 ==> Edge(g, v[k], v[k + 1]);
      assert Open(g, end, start, v) && v[i] == v[|v| - 1];
    }
  }

  /**
   Terminates on every graph; reports a circular dependency iff the search can reach a cycle
   before `end`, and otherwise returns, without duplicates, exactly the tasks on a chain.
   */
  method TasksBetween(g: Graph, start: Task, end: Task) returns (r: Answer)
    requires GraphOk(g)
    ensures r.Circular? <==> ReachesCycle(g, end, start)
    ensures r.Tasks? ==> NoDup(r.tasks)
    ensures r.Tasks? ==> forall x :: x in r.tasks <==> HasOther(g, end) && OnChain(g, end, start, x)
  {
    var s := new Search(g, end);
    assert [] + [start] == [start];
    var ok := s.FollowChain(start);
    FromTheStart(g, end, start);
    r := if ok then Tasks(s.outtasks) else Circular;
  }

  /** With an empty chain, the search conditions speak of walks from the start alone. */
  lemma FromTheStart(g: Graph, end: Task, start: Task)
    ensures Simple(g, end, [], start) <==> !ReachesCycle(g, end, start)
    ensures (exists w :: Open(g, end, start, w) && !NoDup(w)) ==> ReachesCycle(g, end, start)
  {
    RepeatIsCycle(g, end, start);
    forall w: seq<Task> ensures [] + w == w {}
  }

  /** Where no walk from `start` repeats a task, every walk from `start` to `end` is one of these chains. */
  lemma EveryWalkIsChain(g: Graph, start: Task, end: Task, w: seq<Task>)
    requires forall v :: Walk(g, v) && v[0] == start ==> NoDup(v)
    requires Walk(g, w) && w[0] == start && w[|w| - 1] == end
    ensures Chain(g, end, start, w)
  {
    assert NoDup(w);
  }
}

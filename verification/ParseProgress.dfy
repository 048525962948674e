/**
 The parallel recipe parser gets done: every run of the pool is finite but for timeouts, and while no
 worker has been killed there is always a way to the end.
 */
module ParseProgress {
  import opened ParsePool

  // ---- a measure ----

  /** A step that only waits: `put` on a full queue, `get` on an empty one; setting the quit flag counts as one. */
  predicate Waits(s: Pool, a: Action)
    requires Enabled(s, a)
  {
    match a
    case Run(i, full) => full && s.workers[i].phase.Putting?
    case Consume => s.stage.Getting? && s.queue == []
    case Quit => true
    case _ => false
  }

  /** Steps a worker's phase is still good for; `n` is the number of workers. */
  function PhaseRank(w: Worker, n: nat): nat {
    match w.phase
    case Top => 2
    case Parsing(_) => n + 9
    case Offering => if w.pending == [] then 3 else 1
    case Putting(_) => n + 7
    case Closing => 1
    case _ => 0
  }

  function WorkerRank(w: Worker, n: nat): nat {
    |w.jobs| * (n + 8) + (if w.havejobs then 2 else 0) + |w.pending| * (n + 7) + |w.outbox| * (n + 4) + PhaseRank(w, n)
  }

  function WorkersRank(ws: seq<Worker>, n: nat): nat {
    if ws == [] then 0 else WorkersRank(ws[..|ws| - 1], n) + WorkerRank(ws[|ws| - 1], n)
  }

  function StageRank(s: Pool): nat {
    match s.stage
    case Guard => |s.processes| + 3
    case Reaping(todo) => |todo| + 2
    case Getting => 1
    case Done(_) => 0
  }

  function Rank(s: Pool): nat {
    WorkersRank(s.workers, |s.workers|) + |s.queue| * (|s.workers| + 3) + StageRank(s)
  }

  lemma {:induction false} RankUpdate(ws: seq<Worker>, i: nat, w: Worker, n: nat)
    requires i < |ws|
    ensures WorkersRank(ws[i := w], n) + WorkerRank(ws[i], n) == WorkersRank(ws, n) + WorkerRank(w, n)
    decreases |ws|
  {
    hide WorkerRank;
    var init, last := ws[..|ws| - 1], |ws| - 1;
    var updated := ws[i := w];
    if i < last {
      assert updated[..last] == init[i := w] && updated[last] == ws[last];
      RankUpdate(init, i, w, n);
    } else {
      assert updated[..last] == init && updated[last] == w;
    }
  }

  lemma Times(a: nat, k: nat)
    ensures (a + 1) * k == a * k + k
  {
  }

  lemma WorkRank(w: Worker, quit: bool, full: bool, n: nat)
    requires !Dead(w) && (w.phase.Closing? ==> w.outbox == [])
    ensures var w' := Work(w, quit, full);
      if full && w.phase.Putting? then WorkerRank(w', n) <= WorkerRank(w, n) + 2 else WorkerRank(w', n) < WorkerRank(w, n)
  {
    if w.phase.Top? && w.jobs != [] { Times(|w.jobs| - 1, n + 8); }
    if w.phase.Parsing? { Times(|w.pending|, n + 7); }
    if w.phase.Offering? && w.pending != [] { Times(|w.pending| - 1, n + 7); }
    if w.phase.Putting? {
      Times(|w.pending|, n + 7);
      Times(|w.outbox|, n + 4);
    }
  }

  /** Every step uses up the measure, but for those that only wait. */
  lemma StepRank(s: Pool, a: Action, toparse: nat, fails: set<Recipe>)
    requires Enabled(s, a) && |s.processes| <= |s.workers|
    ensures var s' := Act(s, a, toparse, fails);
      && |s'.workers| == |s.workers| && |s'.processes| <= |s'.workers|
      && if Waits(s, a) then Rank(s') <= Rank(s) + |s.workers| + 2 else Rank(s') < Rank(s)
  {
    hide WorkersRank, WorkerRank, Work;
    var n, s' := |s.workers|, Act(s, a, toparse, fails);
    match a
    case Run(i, full) =>
      WorkRank(s.workers[i], s.quit, full, n);
      RankUpdate(s.workers, i, s'.workers[i], n);
    case Feed(i) =>
      FeedRank(s.workers[i], n);
      RankUpdate(s.workers, i, s'.workers[i], n);
      Times(|s.queue|, n + 3);
    case Kill(i) =>
      KillRank(s.workers[i], n);
      RankUpdate(s.workers, i, s'.workers[i], n);
    case Consume => ConsumeRank(s, toparse, fails);
    case Drain => Times(|s.queue| - 1, n + 3);
    case _ =>
  }

  lemma KillRank(w: Worker, n: nat)
    requires !Dead(w)
    ensures WorkerRank(w.(phase := Killed(InHand(w.phase))), n) < WorkerRank(w, n)
  {
  }

  lemma FeedRank(w: Worker, n: nat)
    requires w.outbox != []
    ensures WorkerRank(w.(outbox := w.outbox[1..]), n) + n + 4 == WorkerRank(w, n)
  {
    Times(|w.outbox| - 1, n + 4);
  }

  lemma ConsumeRank(s: Pool, toparse: nat, fails: set<Recipe>)
    requires !s.stage.Done? && |s.processes| <= |s.workers|
    ensures var s' := ConsumeStep(s, toparse, fails);
      && s'.workers == s.workers && |s'.processes| <= |s'.workers|
      && if s.stage.Getting? && s.queue == [] then Rank(s') <= Rank(s) + |s.workers| + 2 else Rank(s') < Rank(s)
  {
    hide WorkersRank;
    if s.stage.Reaping? && s.stage.todo != [] { RemovedLength(s.processes, s.stage.todo[0]); }
    if s.stage.Getting? && s.queue != [] { Times(|s.queue| - 1, |s.workers| + 3); }
  }

  lemma {:induction false} RemovedLength(ps: seq<nat>, p: nat)
    ensures |RemoveProcess(ps, p)| <= |ps|
  {
    if ps != [] && ps[0] != p { RemovedLength(ps[1..], p); }
  }

  // ---- every run is finite but for the waiting ----

  function Waiting(s: Pool, acts: seq<Action>, toparse: nat, fails: set<Recipe>): nat
    requires Allowed(s, acts, toparse, fails)
    decreases |acts|
  {
    if acts == [] then 0
    else (if Waits(s, acts[0]) then 1 else 0) + Waiting(Act(s, acts[0], toparse, fails), acts[1..], toparse, fails)
  }

  lemma {:induction false} RunRank(s: Pool, acts: seq<Action>, toparse: nat, fails: set<Recipe>)
    requires Allowed(s, acts, toparse, fails) && |s.processes| <= |s.workers|
    ensures |acts| <= Rank(s) + (|s.workers| + 3) * Waiting(s, acts, toparse, fails)
    decreases |acts|
  {
    if acts != [] {
      hide Rank, Act, Waits;
      var s1 := Act(s, acts[0], toparse, fails);
      StepRank(s, acts[0], toparse, fails);
      RunRank(s1, acts[1..], toparse, fails);
      OneMore(|acts| - 1, Rank(s), Rank(s1), Waiting(s1, acts[1..], toparse, fails), Waits(s, acts[0]), |s.workers| + 3);
    }
  }

  lemma OneMore(steps: nat, rank: nat, rank1: nat, waiting: nat, waits: bool, k: nat)
    requires steps <= rank1 + k * waiting
    requires if waits then rank1 <= rank + k - 1 else rank1 < rank
    ensures steps + 1 <= rank + k * ((if waits then 1 else 0) + waiting)
  {
    assert k * (1 + waiting) == k + k * waiting;
  }

  function SizeOf(chunks: seq<seq<Recipe>>): nat {
    if chunks == [] then 0 else SizeOf(chunks[..|chunks| - 1]) + |chunks[|chunks| - 1]|
  }

  lemma {:induction false} SizeUpdate(chunks: seq<seq<Recipe>>, i: nat, c: seq<Recipe>)
    requires i < |chunks|
    ensures SizeOf(chunks[i := c]) + |chunks[i]| == SizeOf(chunks) + |c|
    decreases |chunks|
  {
    var init, last := chunks[..|chunks| - 1], |chunks| - 1;
    var updated := chunks[i := c];
    if i < last {
      assert updated[..last] == init[i := c] && updated[last] == chunks[last];
      SizeUpdate(init, i, c);
    } else {
      assert updated[..last] == init && updated[last] == c;
    }
  }

  lemma {:induction false} EmptySize(chunks: seq<seq<Recipe>>)
    requires forall i :: 0 <= i < |chunks| ==> chunks[i] == []
    ensures SizeOf(chunks) == 0
  {
    if chunks != [] { EmptySize(chunks[..|chunks| - 1]); }
  }

  lemma {:induction false} ChunkSizes(lst: seq<Recipe>, n: nat)
    requires n > 0
    ensures SizeOf(Chunkify(lst, n)) == |lst|
    decreases |lst|
  {
    if lst == [] {
      EmptySize(Chunkify(lst, n));
    } else {
      var init, x := lst[..|lst| - 1], lst[|lst| - 1];
      ChunkSizes(init, n);
      ChunkifySnoc(init, x, n);
      hide Chunkify;
      var before, j := Chunkify(init, n), |init| % n;
      SizeUpdate(before, j, before[j] + [x]);
      assert init + [x] == lst;
    }
  }

  lemma {:induction false} FreshRank(ws: seq<Worker>, chunks: seq<seq<Recipe>>, n: nat)
    requires |ws| == |chunks|
    requires forall i :: 0 <= i < |ws| ==> ws[i] == Worker(chunks[i], true, [], Top, [])
    ensures WorkersRank(ws, n) == SizeOf(chunks) * (n + 8) + |ws| * 4
  {
    if ws != [] {
      var last := |ws| - 1;
      FreshRank(ws[..last], chunks[..last], n);
      var a, b := SizeOf(chunks[..last]), |chunks[last]|;
      assert (a + b) * (n + 8) == a * (n + 8) + b * (n + 8);
    }
  }

  lemma StartRank(recipes: seq<Recipe>, n: nat)
    requires n > 0
    ensures Rank(Start(recipes, n)) == |recipes| * (n + 8) + 5 * n + 3
  {
    ChunkSizes(recipes, n);
    FreshRank(Start(recipes, n).workers, Chunkify(recipes, n), n);
    hide Chunkify, WorkersRank;
  }

  /**
   Whatever the interleaving, and even with kills and interrupts, a run has no more steps than this but
   for its timeouts, each of which costs a bounded number of further steps.
   */
  lemma RunIsBounded(recipes: seq<Recipe>, n: nat, fails: set<Recipe>, acts: seq<Action>)
    requires n > 0 && Allowed(Start(recipes, n), acts, |recipes|, fails)
    ensures |acts| <= |recipes| * (n + 8) + 5 * n + 3
                    + (n + 3) * Waiting(Start(recipes, n), acts, |recipes|, fails)
  {
    StartRank(recipes, n);
    RunRank(Start(recipes, n), acts, |recipes|, fails);
  }

  // ---- somebody can move ----

  /** What holds of a pool on its way, beside `Sound`. */
  ghost predicate Underway(s: Pool, recipes: seq<Recipe>, fails: set<Recipe>) {
    && Sound(s, |recipes|, fails)
    && (forall r :: Everywhere(s, r) == Count(recipes, r))
    && NoneKilled(s.workers) && |s.processes| <= |s.workers|
    && (s.stage.Getting? ==> s.parsed < |recipes|)
    && forall r :: r in s.raised ==> r in fails
  }

  /** A step of the three kinds that the work is made of. */
  predicate IsWork(a: Action) { a.Run? || a.Feed? || a.Consume? }

  lemma StepNotKilled(s: Pool, a: Action, toparse: nat, fails: set<Recipe>)
    requires Enabled(s, a) && !a.Kill? && NoneKilled(s.workers)
    ensures NoneKilled(Act(s, a, toparse, fails).workers)
  {
    if a.Run? {
      assert !Work(s.workers[a.i], s.quit, a.full).phase.Killed?;
      hide Work;
    }
  }

  lemma StepStages(s: Pool, a: Action, toparse: nat, fails: set<Recipe>)
    requires Enabled(s, a) && (s.stage.Getting? ==> s.parsed < toparse) && forall r :: r in s.raised ==> r in fails
    ensures var s' := Act(s, a, toparse, fails);
      && (s'.stage.Getting? ==> s'.parsed < toparse) && (forall r :: r in s'.raised ==> r in fails)
      && (a.Interrupt? || s.stage.Done? || !s'.stage.Done? || s'.stage.outcome != Interrupted)
  {
    hide Work;
  }

  lemma ActUnderway(s: Pool, a: Action, recipes: seq<Recipe>, fails: set<Recipe>)
    requires Underway(s, recipes, fails) && Enabled(s, a) && !a.Kill?
    ensures Underway(Act(s, a, |recipes|, fails), recipes, fails)
  {
    hide Sound, Everywhere, Rank, Act, NoneKilled, Enabled;
    forall r ensures Everywhere(Act(s, a, |recipes|, fails), r) == Count(recipes, r) {
      ActConserves(s, a, |recipes|, fails, r);
    }
    ActSound(s, a, |recipes|, fails);
    StepNotKilled(s, a, |recipes|, fails);
    StepStages(s, a, |recipes|, fails);
    StepRank(s, a, |recipes|, fails);
  }

  lemma {:induction false} HeldNothing(ws: seq<Worker>, r: Recipe)
    requires forall i :: 0 <= i < |ws| ==> Held(ws[i], r) == 0
    ensures HeldByAll(ws, r) == 0
  {
    hide Held;
    if ws != [] { HeldNothing(ws[..|ws| - 1], r); }
  }

  /** With all workers gone by themselves, everything has been delivered. */
  lemma AllGone(s: Pool, recipes: seq<Recipe>, fails: set<Recipe>)
    requires Underway(s, recipes, fails) && AllDead(s.workers) && Unforced(s.workers)
    requires s.queue == s.raised == s.drained == []
    ensures s.parsed >= |recipes|
  {
    forall r ensures Count(recipes, r) <= Count(s.delivered, r) {
      forall i | 0 <= i < |s.workers| ensures Held(s.workers[i], r) == 0 {
        assert WorkerOk(s.workers[i], s.quit) && Dead(s.workers[i]);
        CountNone(r);
      }
      HeldNothing(s.workers, r);
      CountNone(r);
      assert Everywhere(s, r) == Count(recipes, r);
    }
    FewerIsLess(recipes, s.delivered);
  }

  /** As long as the generator has not ended, somebody can take a step that does not wait. */
  lemma SomeoneMoves(s: Pool, recipes: seq<Recipe>, fails: set<Recipe>) returns (a: Action)
    requires Underway(s, recipes, fails) && !s.stage.Done?
    ensures IsWork(a) && Enabled(s, a) && !Waits(s, a)
  {
    if !(s.stage.Getting? && s.queue == []) {
      a := Consume;
    } else {
      if AllDead(s.workers) {
        assert Unforced(s.workers);
        AllGone(s, recipes, fails);
      }
      var i :| 0 <= i < |s.workers| && !Dead(s.workers[i]);
      a := if s.workers[i].outbox != [] then Feed(i) else Run(i, false);
    }
  }

  // ---- a way to the end ----

  /** How the parse must end. */
  function Verdict(recipes: seq<Recipe>, fails: set<Recipe>): Outcome {
    if exists r :: r in recipes && r in fails then ParseFailed else Completed
  }

  lemma {:induction false} CanFinish(s: Pool, recipes: seq<Recipe>, fails: set<Recipe>) returns (acts: seq<Action>)
    requires Underway(s, recipes, fails) && !s.stage.Done?
    ensures Allowed(s, acts, |recipes|, fails) && forall k :: 0 <= k < |acts| ==> IsWork(acts[k])
    ensures var s' := After(s, acts, |recipes|, fails);
      Underway(s', recipes, fails) && s'.stage.Done? && s'.stage.outcome != Interrupted
    decreases Rank(s)
  {
    var a := SomeoneMoves(s, recipes, fails);
    StepStages(s, a, |recipes|, fails);
    assert |s.processes| <= |s.workers| && !a.Interrupt?;
    hide Act, Underway, Rank, Waits, Enabled;
    ActUnderway(s, a, recipes, fails);
    StepRank(s, a, |recipes|, fails);
    var s1 := Act(s, a, |recipes|, fails);
    if s1.stage.Done? {
      acts := [a];
      assert acts[1..] == [];
    } else {
      var more := CanFinish(s1, recipes, fails);
      acts := [a] + more;
      assert acts[1..] == more;
    }
  }

  /** Nobody killed and not interrupted: the parse has failed if a recipe fails, and else delivered everything. */
  lemma EndsRightly(s: Pool, recipes: seq<Recipe>, fails: set<Recipe>)
    requires Underway(s, recipes, fails) && s.stage.Done? && s.stage.outcome != Interrupted
    ensures s.stage == Done(Verdict(recipes, fails))
    ensures s.stage == Done(Completed) ==> multiset(s.delivered) == multiset(recipes)
  {
    match s.stage.outcome
    case Completed =>
      forall r ensures Count(s.delivered, r) <= Count(recipes, r) { assert Everywhere(s, r) == Count(recipes, r); }
      FewerIsLess(s.delivered, recipes);
      forall r | r in recipes ensures r !in fails { assert r in multiset(recipes) && r in s.delivered; }
    case ParseFailed =>
      var r := s.raised[0];
      assert Count(s.raised, r) > 0 && Everywhere(s, r) == Count(recipes, r);
      assert r in multiset(recipes) && r in recipes && r in fails;
    case NotAllParsed =>
      AllGone(s, recipes, fails);
  }

  lemma StartUnderway(recipes: seq<Recipe>, n: nat, fails: set<Recipe>)
    requires n > 0
    ensures Underway(Start(recipes, n), recipes, fails)
  {
    StartSound(recipes, n, fails);
    forall r ensures Everywhere(Start(recipes, n), r) == Count(recipes, r) { StartHolds(recipes, n, r); }
  }

  lemma {:induction false} AfterUnderway(s: Pool, acts: seq<Action>, recipes: seq<Recipe>, fails: set<Recipe>)
    requires Underway(s, recipes, fails) && Allowed(s, acts, |recipes|, fails)
    requires forall k :: 0 <= k < |acts| ==> !acts[k].Kill?
    ensures Underway(After(s, acts, |recipes|, fails), recipes, fails)
    decreases |acts|
  {
    if acts != [] {
      ActUnderway(s, acts[0], recipes, fails);
      hide Act, Underway;
      AfterUnderway(Act(s, acts[0], |recipes|, fails), acts[1..], recipes, fails);
    }
  }

  lemma {:induction false} AfterBoth(s: Pool, a: seq<Action>, b: seq<Action>, toparse: nat, fails: set<Recipe>)
    requires Allowed(s, a, toparse, fails) && Allowed(After(s, a, toparse, fails), b, toparse, fails)
    ensures Allowed(s, a + b, toparse, fails)
    ensures After(s, a + b, toparse, fails) == After(After(s, a, toparse, fails), b, toparse, fails)
    decreases |a|
  {
    if a == [] {
      assert a + b == b;
    } else {
      hide Act;
      AfterBoth(Act(s, a[0], toparse, fails), a[1..], b, toparse, fails);
      assert (a + b)[1..] == a[1..] + b;
    }
  }

  /**
   From every state that is reached without kills and in which the generator has not ended, steps of the
   workers and of the generator lead to the end, and it is the right one: everything has been delivered
   once if no recipe fails, and else the parse has failed.
   */
  lemma GetsDone(recipes: seq<Recipe>, n: nat, fails: set<Recipe>, acts: seq<Action>) returns (more: seq<Action>)
    requires n > 0 && Allowed(Start(recipes, n), acts, |recipes|, fails)
    requires forall k :: 0 <= k < |acts| ==> !acts[k].Kill?
    requires !After(Start(recipes, n), acts, |recipes|, fails).stage.Done?
    ensures forall k :: 0 <= k < |more| ==> IsWork(more[k])
    ensures Allowed(Start(recipes, n), acts + more, |recipes|, fails)
    ensures var s := After(Start(recipes, n), acts + more, |recipes|, fails);
      && s.stage == Done(Verdict(recipes, fails))
      && (s.stage == Done(Completed) ==> multiset(s.delivered) == multiset(recipes))
  {
    hide Underway, Start, Act;
    var start := Start(recipes, n);
    StartUnderway(recipes, n, fails);
    AfterUnderway(start, acts, recipes, fails);
    var s := After(start, acts, |recipes|, fails);
    more := CanFinish(s, recipes, fails);
    AfterBoth(start, acts, more, |recipes|, fails);
    EndsRightly(After(s, more, |recipes|, fails), recipes, fails);
  }

  /** However it went, without kills and interrupts the generator ends in no other way. */
  lemma EndIsVerdict(recipes: seq<Recipe>, n: nat, fails: set<Recipe>, acts: seq<Action>)
    requires n > 0 && Allowed(Start(recipes, n), acts, |recipes|, fails)
    requires forall k :: 0 <= k < |acts| ==> !acts[k].Kill?
    ensures var stage := After(Start(recipes, n), acts, |recipes|, fails).stage;
      stage.Done? && stage.outcome != Interrupted ==> stage == Done(Verdict(recipes, fails))
  {
    hide Underway, Start, Act;
    StartUnderway(recipes, n, fails);
    AfterUnderway(Start(recipes, n), acts, recipes, fails);
    var s := After(Start(recipes, n), acts, |recipes|, fails);
    if s.stage.Done? && s.stage.outcome != Interrupted { EndsRightly(s, recipes, fails); }
  }

  // ---- the generator never hangs ----

  /** The processes listed are workers, each listed once. */
  ghost predicate Listed(s: Pool) {
    && |s.processes| <= |s.workers| && (forall p :: p in s.processes ==> p < |s.workers|)
    && forall i, j :: 0 <= i < j < |s.processes| ==> s.processes[i] != s.processes[j]
  }

  lemma {:induction false} RemoveOnce(ps: seq<nat>, p: nat)
    requires forall i, j :: 0 <= i < j < |ps| ==> ps[i] != ps[j]
    ensures var r := RemoveProcess(ps, p);
      && |r| <= |ps| && (forall x :: x in r <==> x in ps && x != p)
      && forall i, j :: 0 <= i < j < |r| ==> r[i] != r[j]
  {
    if ps != [] && ps[0] != p {
      RemoveOnce(ps[1..], p);
      var rest := RemoveProcess(ps[1..], p);
      assert ps == [ps[0]] + ps[1..];
      forall x ensures x in [ps[0]] + rest <==> x in ps && x != p {}
      forall j | 0 <= j < |rest| ensures rest[j] != ps[0] { assert rest[j] in ps[1..]; }
    } else if ps != [] {
      assert ps == [ps[0]] + ps[1..] && forall j :: 0 < j < |ps| ==> ps[j] != ps[0];
    }
  }

  lemma ActListed(s: Pool, a: Action, toparse: nat, fails: set<Recipe>)
    requires Enabled(s, a) && Listed(s)
    ensures Listed(Act(s, a, toparse, fails))
  {
    if a.Consume? && s.stage.Reaping? && s.stage.todo != [] { RemoveOnce(s.processes, s.stage.todo[0]); }
    hide Work;
  }

  /** Nobody is left, and nothing in the queue: only the generator takes steps. */
  ghost predicate Deserted(s: Pool) { AllDead(s.workers) && s.queue == [] && Listed(s) }

  /** How many steps it then takes at most. */
  function DesertedRank(s: Pool): nat {
    var round := if s.processes == [] then 1 else |s.processes| + 5;
    match s.stage
    case Guard => if s.empty then round else |s.processes| + 5
    case Reaping(todo) => |todo| + 3 + if forall p :: p in s.processes ==> p in todo then 1 else |s.processes| + 6
    case Getting => round + 1
    case Done(_) => 0
  }

  lemma DesertedStep(s: Pool, toparse: nat, fails: set<Recipe>)
    requires Deserted(s) && !s.stage.Done?
    ensures var s' := Act(s, Consume, toparse, fails);
      Deserted(s') && DesertedRank(s') < DesertedRank(s) && (s'.stage.Done? ==> s'.stage.outcome != Interrupted)
  {
    if s.stage.Reaping? && s.stage.todo != [] {
      ReapStep(s, toparse, fails);
    } else {
      ActListed(s, Consume, toparse, fails);
      if s.processes != [] { assert s.processes[0] in s.processes; }
    }
  }

  lemma ReapStep(s: Pool, toparse: nat, fails: set<Recipe>)
    requires Deserted(s) && s.stage.Reaping? && s.stage.todo != []
    ensures var s' := Act(s, Consume, toparse, fails);
      Deserted(s') && s'.stage == Reaping(s.stage.todo[1..]) && DesertedRank(s') < DesertedRank(s)
  {
    var todo, s' := s.stage.todo, Act(s, Consume, toparse, fails);
    RemoveOnce(s.processes, todo[0]);
    ActListed(s, Consume, toparse, fails);
    if forall p :: p in s.processes ==> p in todo {
      forall p | p in s'.processes ensures p in todo[1..] {
        assert p in todo && todo == [todo[0]] + todo[1..];
      }
    }
  }

  lemma {:induction false} DesertedEnds(s: Pool, toparse: nat, fails: set<Recipe>) returns (acts: seq<Action>)
    requires Deserted(s) && !s.stage.Done?
    ensures Allowed(s, acts, toparse, fails) && forall k :: 0 <= k < |acts| ==> IsWork(acts[k])
    ensures var s' := After(s, acts, toparse, fails); s'.stage.Done? && s'.stage.outcome != Interrupted
    decreases DesertedRank(s)
  {
    DesertedStep(s, toparse, fails);
    hide DesertedRank, Deserted, Act;
    var s1 := Act(s, Consume, toparse, fails);
    if s1.stage.Done? {
      acts := [Consume];
      assert acts[1..] == [];
    } else {
      var more := DesertedEnds(s1, toparse, fails);
      acts := [Consume] + more;
      assert acts[1..] == more;
    }
  }

  /** As long as somebody is alive or the queue has something, a step that does not wait is possible. */
  lemma AliveMoves(s: Pool, toparse: nat, fails: set<Recipe>) returns (a: Action)
    requires Listed(s) && !s.stage.Done? && !(s.stage.Getting? && Deserted(s))
    ensures IsWork(a) && Enabled(s, a) && !Waits(s, a)
  {
    if !(s.stage.Getting? && s.queue == []) {
      a := Consume;
    } else {
      var i :| 0 <= i < |s.workers| && !Dead(s.workers[i]);
      a := if s.workers[i].outbox != [] then Feed(i) else Run(i, false);
    }
  }

  lemma {:induction false} AlwaysEnds(s: Pool, toparse: nat, fails: set<Recipe>) returns (acts: seq<Action>)
    requires Listed(s) && !s.stage.Done?
    ensures Allowed(s, acts, toparse, fails) && forall k :: 0 <= k < |acts| ==> IsWork(acts[k])
    ensures var s' := After(s, acts, toparse, fails); s'.stage.Done? && s'.stage.outcome != Interrupted
    decreases Rank(s)
  {
    if s.stage.Getting? && Deserted(s) {
      acts := DesertedEnds(s, toparse, fails);
    } else {
      var a := AliveMoves(s, toparse, fails);
      assert Listed(s) && |s.processes| <= |s.workers| && !a.Interrupt?;
      EndNotInterrupted(s, a, toparse, fails);
      hide Act, Listed, Rank, Waits, Enabled, Deserted;
      ActListed(s, a, toparse, fails);
      StepRank(s, a, toparse, fails);
      var s1 := Act(s, a, toparse, fails);
      if s1.stage.Done? {
        acts := [a];
        assert acts[1..] == [];
      } else {
        var more := AlwaysEnds(s1, toparse, fails);
        acts := [a] + more;
        assert acts[1..] == more;
      }
    }
  }

  lemma EndNotInterrupted(s: Pool, a: Action, toparse: nat, fails: set<Recipe>)
    requires Enabled(s, a) && !a.Interrupt? && !s.stage.Done?
    ensures var stage := Act(s, a, toparse, fails).stage; stage.Done? ==> stage.outcome != Interrupted
  {
    hide Work;
  }

  lemma {:induction false} AfterListed(s: Pool, acts: seq<Action>, toparse: nat, fails: set<Recipe>)
    requires Listed(s) && Allowed(s, acts, toparse, fails)
    ensures Listed(After(s, acts, toparse, fails))
    decreases |acts|
  {
    if acts != [] {
      hide Act, Listed;
      ActListed(s, acts[0], toparse, fails);
      AfterListed(Act(s, acts[0], toparse, fails), acts[1..], toparse, fails);
    }
  }

  /**
   However many workers there are, and whoever has been killed: from every state in which the generator has
   not ended, steps of the workers and of the generator lead to its end. A dead worker is noticed.
   */
  lemma NeverHangs(recipes: seq<Recipe>, n: int, fails: set<Recipe>, acts: seq<Action>) returns (more: seq<Action>)
    requires Allowed(Start(recipes, n), acts, |recipes|, fails)
    requires !After(Start(recipes, n), acts, |recipes|, fails).stage.Done?
    ensures forall k :: 0 <= k < |more| ==> IsWork(more[k])
    ensures Allowed(Start(recipes, n), acts + more, |recipes|, fails)
    ensures var stage := After(Start(recipes, n), acts + more, |recipes|, fails).stage;
      stage.Done? && stage.outcome != Interrupted
  {
    var start := Start(recipes, n);
    assert Listed(start);
    hide Listed, Start, Act;
    AfterListed(start, acts, |recipes|, fails);
    var s := After(start, acts, |recipes|, fails);
    more := AlwaysEnds(s, |recipes|, fails);
    AfterBoth(start, acts, more, |recipes|, fails);
  }
}

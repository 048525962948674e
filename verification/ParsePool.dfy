/**
 The parallel recipe parser of bitbake/lib/bb/cooker.py as a state machine: `Parser.realrun` in every
 worker, the shared result queue, and `CookerParser.parse_generator` with `parse_next` on its end.

 A `multiprocessing.Queue` is a buffer in the writing process, emptied into one pipe by its feeder
 thread; `close` and `join_thread` wait until the buffer is empty.
 */
module ParsePool {

  type Recipe = string

  // ---- dealing out the work ----

  /** Every `n`-th recipe, from the `i`-th on. */
  function Stride(lst: seq<Recipe>, i: nat, n: nat): seq<Recipe>
    requires n > 0
    decreases |lst| - i
  {
    if i >= |lst| then [] else [lst[i]] + Stride(lst, i + n, n)
  }

  /** `chunkify`: `range(n)` is empty for any `n` below one. */
  function Chunkify(lst: seq<Recipe>, n: int): (chunks: seq<seq<Recipe>>)
    ensures |chunks| == if n > 0 then n else 0
  {
    if n <= 0 then [] else seq(n, i requires 0 <= i < n => Stride(lst, i, n))
  }

  /** How often `r` is in a list. */
  function Count(s: seq<Recipe>, r: Recipe): nat { multiset(s)[r] }

  lemma CountJoin(a: seq<Recipe>, b: seq<Recipe>, r: Recipe)
    ensures Count(a + b, r) == Count(a, r) + Count(b, r)
  {
  }

  lemma CountLast(s: seq<Recipe>, r: Recipe)
    requires s != []
    ensures Count(s, r) == Count(s[..|s| - 1], r) + Count([s[|s| - 1]], r)
  {
    assert s[..|s| - 1] + [s[|s| - 1]] == s;
  }

  lemma CountFirst(s: seq<Recipe>, r: Recipe)
    requires s != []
    ensures Count(s, r) == Count([s[0]], r) + Count(s[1..], r)
  {
    assert [s[0]] + s[1..] == s;
  }

  function Dealt(chunks: seq<seq<Recipe>>, r: Recipe): nat {
    if chunks == [] then 0 else Dealt(chunks[..|chunks| - 1], r) + Count(chunks[|chunks| - 1], r)
  }

  lemma {:induction false} DealtUpdate(chunks: seq<seq<Recipe>>, i: nat, c: seq<Recipe>, r: Recipe)
    requires i < |chunks|
    ensures Dealt(chunks[i := c], r) + Count(chunks[i], r) == Dealt(chunks, r) + Count(c, r)
    decreases |chunks|
  {
    var init, last := chunks[..|chunks| - 1], |chunks| - 1;
    var updated := chunks[i := c];
    if i < last {
      assert updated[..last] == init[i := c] && updated[last] == chunks[last];
      DealtUpdate(init, i, c, r);
    } else {
      assert updated[..last] == init && updated[last] == c;
    }
  }

  lemma {:induction false} StrideSnoc(lst: seq<Recipe>, x: Recipe, i: nat, n: nat)
    requires n > 0
    ensures Stride(lst + [x], i, n) ==
      Stride(lst, i, n) + if i <= |lst| && (|lst| - i) % n == 0 then [x] else []
    decreases |lst| + 1 - i
  {
    if i < |lst| {
      hide Stride;
      StrideSnoc(lst, x, i + n, n);
      TurnStays(|lst| - i, n);
      StrideStep(lst + [x], i, n);
      StrideStep(lst, i, n);
      assert (lst + [x])[i] == lst[i];
    } else {
      StrideEnds(lst, x, i, n);
    }
  }

  lemma StrideEnds(lst: seq<Recipe>, x: Recipe, i: nat, n: nat)
    requires n > 0 && i >= |lst|
    ensures Stride(lst + [x], i, n) == if i == |lst| then [x] else []
    ensures Stride(lst, i, n) == [] && (i == |lst| ==> (|lst| - i) % n == 0)
  {
    if i == |lst| {
      StrideStep(lst + [x], i, n);
      assert Stride(lst + [x], i + n, n) == [];
    }
  }

  lemma TurnStays(d: nat, n: nat)
    requires n > 0 && d > 0
    ensures n <= d && (d - n) % n == 0 <==> d % n == 0
  {
    StepsOfN(d, n);
  }

  lemma StrideStep(lst: seq<Recipe>, i: nat, n: nat)
    requires n > 0 && i < |lst|
    ensures Stride(lst, i, n) == [lst[i]] + Stride(lst, i + n, n)
  {
  }

  lemma StepsOfN(d: int, n: nat)
    requires n > 0
    ensures (d - n) % n == d % n && (0 < d < n ==> d % n != 0)
  {
    assert d - n == n * (d / n - 1) + d % n;
    SameRemainder(d - n, n, d / n - 1, d % n);
  }

  lemma SameRemainder(a: int, n: nat, q: int, r: int)
    requires n > 0 && a == n * q + r && 0 <= r < n
    ensures a % n == r
  {
    var q', r' := a / n, a % n;
    assert n * (q - q') == r' - r;
    MultipleIsFar(n, q - q');
  }

  lemma MultipleIsFar(n: nat, d: int)
    ensures (d >= 1 ==> n * d >= n) && (d <= -1 ==> n * d <= -(n as int))
  {
  }

  lemma {:induction false} EmptyChunks(chunks: seq<seq<Recipe>>, r: Recipe)
    requires forall i :: 0 <= i < |chunks| ==> chunks[i] == []
    ensures Dealt(chunks, r) == 0
  {
    if chunks != [] { EmptyChunks(chunks[..|chunks| - 1], r); }
  }

  /** One more recipe goes to the worker whose turn it is. */
  lemma ChunkifySnoc(lst: seq<Recipe>, x: Recipe, n: nat)
    requires n > 0
    ensures var chunks, j := Chunkify(lst, n), |lst| % n;
      Chunkify(lst + [x], n) == chunks[j := chunks[j] + [x]]
  {
    var chunks, j := Chunkify(lst, n), |lst| % n;
    forall i | 0 <= i < n ensures Stride(lst + [x], i, n) == chunks[j := chunks[j] + [x]][i] {
      StrideSnoc(lst, x, i, n);
      TurnOf(|lst|, i, n);
    }
  }

  lemma NothingDealt(n: nat, r: Recipe)
    ensures Dealt(Chunkify([], n), r) == 0
  {
    hide Dealt, Count;
    EmptyChunks(Chunkify([], n), r);
  }

  lemma OneMoreDealt(init: seq<Recipe>, x: Recipe, n: nat, r: Recipe)
    requires n > 0 && Dealt(Chunkify(init, n), r) == Count(init, r)
    ensures Dealt(Chunkify(init + [x], n), r) == Count(init + [x], r)
  {
    hide Chunkify, Dealt, Count;
    var before, j := Chunkify(init, n), |init| % n;
    ChunkifySnoc(init, x, n);
    DealtUpdate(before, j, before[j] + [x], r);
    CountJoin(before[j], [x], r);
    CountJoin(init, [x], r);
  }

  /** With a worker to deal to, every recipe is dealt exactly as often as it is listed. */
  lemma {:induction false} ChunkifyDeals(lst: seq<Recipe>, n: nat, r: Recipe)
    requires n > 0
    ensures Dealt(Chunkify(lst, n), r) == Count(lst, r)
    decreases |lst|
  {
    if lst == [] {
      NothingDealt(n, r);
    } else {
      hide Chunkify, Dealt, Count;
      var init, x := lst[..|lst| - 1], lst[|lst| - 1];
      ChunkifyDeals(init, n, r);
      OneMoreDealt(init, x, n, r);
      assert init + [x] == lst;
    }
  }

  lemma TurnOf(m: nat, i: nat, n: nat)
    requires i < n
    ensures i <= m && (m - i) % n == 0 <==> m % n == i
  {
    if m % n == i {
      SameRemainder(m - i, n, m / n, 0);
    } else if i <= m && (m - i) % n == 0 {
      SameRemainder(m, n, (m - i) / n, i);
      assert false;
    }
  }

  /** `chunkify` loses work exactly when there is work and nobody to do it. */
  lemma ChunkifyDealsAll(lst: seq<Recipe>, n: int)
    ensures (forall r :: Dealt(Chunkify(lst, n), r) == Count(lst, r)) <==> n > 0 || lst == []
  {
    if n > 0 {
      forall r ensures Dealt(Chunkify(lst, n), r) == Count(lst, r) { ChunkifyDeals(lst, n, r); }
    } else if lst != [] {
      assert Count(lst, lst[0]) > Dealt(Chunkify(lst, n), lst[0]);
    }
  }

  // ---- workers ----

  datatype Phase =
    | Top
    | Parsing(job: Recipe)
    | Offering
    | Putting(result: Recipe)
    | Closing
    | Exited
    | Killed(hand: seq<Recipe>)

  datatype Worker = Worker(jobs: seq<Recipe>, havejobs: bool, pending: seq<Recipe>, phase: Phase, outbox: seq<Recipe>)

  predicate Dead(w: Worker) {
    w.phase.Exited? || w.phase.Killed?
  }

  function InHand(p: Phase): seq<Recipe> {
    match p
    case Parsing(job) => [job]
    case Putting(result) => [result]
    case Killed(hand) => hand
    case _ => []
  }

  /** How often a worker has taken on `r` and not yet passed it to the queue. */
  function Held(w: Worker, r: Recipe): nat {
    Count(w.jobs, r) + Count(w.pending, r) + Count(InHand(w.phase), r) + Count(w.outbox, r)
  }

  ghost predicate Idle(w: Worker) {
    w.jobs == [] && w.pending == [] && InHand(w.phase) == [] && w.outbox == []
  }

  /** One step of `realrun`; `full` says that `put` times out. */
  function Work(w: Worker, quit: bool, full: bool): Worker
    requires !Dead(w) && (w.phase.Closing? ==> w.outbox == [])
  {
    match w.phase
    case Top =>
      if (!w.havejobs && w.pending == []) || quit then w.(phase := Closing)
      else if w.jobs == [] then w.(havejobs := false, phase := Offering)
      else w.(jobs := w.jobs[..|w.jobs| - 1], phase := Parsing(w.jobs[|w.jobs| - 1]))
    case Parsing(job) => w.(pending := w.pending + [job], phase := Offering)
    case Offering =>
      if w.pending == [] then w.(phase := Top)
      else w.(pending := w.pending[..|w.pending| - 1], phase := Putting(w.pending[|w.pending| - 1]))
    case Putting(result) =>
      if full then w.(pending := w.pending + [result], phase := Top)
      else w.(outbox := w.outbox + [result], phase := Top)
    case Closing => w.(phase := Exited)
  }

  lemma WorkKeepsHeld(w: Worker, quit: bool, full: bool, r: Recipe)
    requires !Dead(w) && (w.phase.Closing? ==> w.outbox == [])
    ensures Held(Work(w, quit, full), r) == Held(w, r)
  {
    hide Count;
    CountNone(r);
    match w.phase
    case Top => if w.jobs != [] { CountLast(w.jobs, r); }
    case Parsing(job) => CountJoin(w.pending, [job], r);
    case Offering => if w.pending != [] { CountLast(w.pending, r); }
    case Putting(result) => CountJoin(w.pending, [result], r); CountJoin(w.outbox, [result], r);
    case Closing =>
  }

  /** A `put` that times out puts nothing, and the result is the next to be tried. */
  lemma FullPutsNothing(w: Worker, quit: bool)
    requires w.phase.Putting?
    ensures var w' := Work(w, quit, true);
      w'.outbox == w.outbox && w'.pending != [] && w'.pending[|w'.pending| - 1] == w.phase.result
  {
  }

  lemma CountNone(r: Recipe)
    ensures Count([], r) == 0
  {
  }

  /** A worker leaves its loop only with nothing left, unless it was told to quit. */
  ghost predicate WorkerOk(w: Worker, quit: bool) {
    && (!w.havejobs ==> w.jobs == [])
    && (w.phase.Closing? || w.phase.Exited? ==> quit || (w.jobs == [] && w.pending == []))
    && (w.phase.Exited? ==> w.outbox == [])
  }

  lemma WorkKeepsOk(w: Worker, quit: bool, full: bool)
    requires !Dead(w) && (w.phase.Closing? ==> w.outbox == []) && WorkerOk(w, quit)
    ensures WorkerOk(Work(w, quit, full), quit)
  {
  }

  function HeldByAll(ws: seq<Worker>, r: Recipe): nat {
    if ws == [] then 0 else HeldByAll(ws[..|ws| - 1], r) + Held(ws[|ws| - 1], r)
  }

  lemma {:induction false} HeldUpdate(ws: seq<Worker>, i: nat, w: Worker, r: Recipe)
    requires i < |ws|
    ensures HeldByAll(ws[i := w], r) + Held(ws[i], r) == HeldByAll(ws, r) + Held(w, r)
    decreases |ws|
  {
    hide Held;
    var init, last := ws[..|ws| - 1], |ws| - 1;
    var updated := ws[i := w];
    if i < last {
      assert updated[..last] == init[i := w] && updated[last] == ws[last];
      HeldUpdate(init, i, w, r);
    } else {
      assert updated[..last] == init && updated[last] == w;
    }
  }

  lemma {:induction false} SomeoneHolds(ws: seq<Worker>, r: Recipe)
    requires HeldByAll(ws, r) > 0
    ensures exists i :: 0 <= i < |ws| && Held(ws[i], r) > 0
  {
    if Held(ws[|ws| - 1], r) == 0 { SomeoneHolds(ws[..|ws| - 1], r); }
  }

  // ---- the pool ----

  datatype Outcome = Completed | NotAllParsed | ParseFailed | Interrupted

  /** Where the generator stands: at its loop guard, reaping dead processes, at `get`, or finished. */
  datatype Stage = Guard | Reaping(todo: seq<nat>) | Getting | Done(outcome: Outcome)

  datatype Pool = Pool(
    workers: seq<Worker>, queue: seq<Recipe>, quit: bool,
    processes: seq<nat>, empty: bool, stage: Stage,
    parsed: nat, delivered: seq<Recipe>, raised: seq<Recipe>, drained: seq<Recipe>)

  datatype Action = Run(i: nat, full: bool) | Feed(i: nat) | Kill(i: nat) | Consume | Interrupt | Drain | Quit

  predicate Enabled(s: Pool, a: Action) {
    match a
    case Run(i, _) => i < |s.workers| && !Dead(s.workers[i]) && (s.workers[i].phase.Closing? ==> s.workers[i].outbox == [])
    case Feed(i) => i < |s.workers| && !Dead(s.workers[i]) && s.workers[i].outbox != []
    case Kill(i) => i < |s.workers| && !Dead(s.workers[i])
    case Consume => !s.stage.Done?
    case Interrupt => !s.stage.Done?
    case Drain => s.stage.Done? && s.queue != []
    case Quit => s.stage.Done?
  }

  function RemoveProcess(processes: seq<nat>, p: nat): seq<nat> {
    if processes == [] then []
    else if processes[0] == p then processes[1..]
    else [processes[0]] + RemoveProcess(processes[1..], p)
  }

  /** What the generator does after its loop: StopIteration, or "Not all recipes parsed". */
  function Ended(s: Pool, toparse: nat): Pool {
    s.(stage := Done(if s.parsed >= toparse then Completed else NotAllParsed))
  }

  /** `fails` are the recipes whose parse raises; the exception arrives as their result. */
  function ConsumeStep(s: Pool, toparse: nat, fails: set<Recipe>): Pool
    requires !s.stage.Done?
  {
    match s.stage
    case Guard =>
      if s.processes != [] || !s.empty then s.(stage := Reaping(s.processes)) else Ended(s, toparse)
    case Reaping(todo) =>
      if todo != [] then
        var dead := todo[0] < |s.workers| && Dead(s.workers[todo[0]]);
        s.(stage := Reaping(todo[1..]), processes := if dead then RemoveProcess(s.processes, todo[0]) else s.processes)
      else if s.parsed >= toparse then Ended(s, toparse)
      else s.(stage := Getting)
    case Getting =>
      if s.queue == [] then s.(empty := true, stage := Guard)
      else if s.queue[0] in fails then
        s.(queue := s.queue[1..], raised := s.raised + [s.queue[0]], stage := Done(ParseFailed))
      else
        s.(queue := s.queue[1..], empty := false, delivered := s.delivered + [s.queue[0]],
           parsed := s.parsed + 1, stage := Guard)
  }

  function Act(s: Pool, a: Action, toparse: nat, fails: set<Recipe>): Pool
    requires Enabled(s, a)
  {
    match a
    case Run(i, full) => s.(workers := s.workers[i := Work(s.workers[i], s.quit, full)])
    case Feed(i) =>
      var w := s.workers[i];
      s.(workers := s.workers[i := w.(outbox := w.outbox[1..])], queue := s.queue + [w.outbox[0]])
    case Kill(i) =>
      var w := s.workers[i];
      s.(workers := s.workers[i := w.(phase := Killed(InHand(w.phase)))])
    case Consume => ConsumeStep(s, toparse, fails)
    case Interrupt => s.(stage := Done(Interrupted))
    case Drain => s.(queue := s.queue[1..], drained := s.drained + [s.queue[0]])
    case Quit => s.(quit := true)
  }

  /** `CookerParser.start` with `n` processes. */
  function Start(recipes: seq<Recipe>, n: int): Pool {
    var chunks := Chunkify(recipes, n);
    Pool(seq(|chunks|, i requires 0 <= i < |chunks| => Worker(chunks[i], true, [], Top, [])),
         [], false, seq(|chunks|, i => i), false, Guard, 0, [], [], [])
  }

  predicate Allowed(s: Pool, acts: seq<Action>, toparse: nat, fails: set<Recipe>)
    decreases |acts|
  {
    acts == [] ||
    (Enabled(s, acts[0]) && Allowed(Act(s, acts[0], toparse, fails), acts[1..], toparse, fails))
  }

  function After(s: Pool, acts: seq<Action>, toparse: nat, fails: set<Recipe>): Pool
    requires Allowed(s, acts, toparse, fails)
    decreases |acts|
  {
    if acts == [] then s else After(Act(s, acts[0], toparse, fails), acts[1..], toparse, fails)
  }

  // ---- what every step keeps ----

  /** How often `r` is found in all the places a recipe can be in. */
  function Everywhere(s: Pool, r: Recipe): nat {
    HeldByAll(s.workers, r) + Count(s.queue, r) + Count(s.delivered, r) + Count(s.raised, r) + Count(s.drained, r)
  }

  ghost predicate AllDead(ws: seq<Worker>) {
    forall i :: 0 <= i < |ws| ==> Dead(ws[i])
  }

  ghost predicate Sound(s: Pool, toparse: nat, fails: set<Recipe>) {
    && (forall i :: 0 <= i < |s.workers| ==> WorkerOk(s.workers[i], s.quit))
    && (forall i :: 0 <= i < |s.workers| && i !in s.processes ==> Dead(s.workers[i]))
    && s.parsed == |s.delivered|
    && (forall r :: r in s.delivered ==> r !in fails)
    && (s.quit ==> s.stage.Done?)
    && (s.raised != [] ==> s.stage == Done(ParseFailed))
    && (s.drained != [] ==> s.stage.Done?)
    && (s.stage.Guard? && s.processes == [] && s.empty ==> s.queue == [])
    && (s.stage.Done? ==> Closed(s, toparse))
  }

  /** What holds once the generator has ended, and while `shutdown` runs. */
  ghost predicate Closed(s: Pool, toparse: nat)
    requires s.stage.Done?
  {
    match s.stage.outcome
    case Completed => s.parsed >= toparse
    case NotAllParsed => s.parsed < toparse && AllDead(s.workers) && s.queue == [] && s.drained == [] && Unforced(s.workers)
    case ParseFailed => |s.raised| == 1
    case Interrupted => true
  }

  /** Nobody left the loop with work to do, but for those that were killed. */
  ghost predicate Unforced(ws: seq<Worker>) {
    forall i :: 0 <= i < |ws| && ws[i].phase.Exited? ==> ws[i].jobs == [] && ws[i].pending == []
  }

  /** Once nobody is left alive, no worker takes a step. */
  lemma AliveIsListed(s: Pool, toparse: nat, fails: set<Recipe>, i: nat)
    requires Sound(s, toparse, fails) && i < |s.workers| && !Dead(s.workers[i])
    ensures s.processes != []
    ensures s.stage.Done? ==> s.stage.outcome != NotAllParsed
  {
    assert i in s.processes;
  }

  lemma WorkerStepSound(s: Pool, a: Action, toparse: nat, fails: set<Recipe>)
    requires Enabled(s, a) && Sound(s, toparse, fails) && (a.Run? || a.Feed? || a.Kill?)
    ensures Sound(Act(s, a, toparse, fails), toparse, fails)
  {
    AliveIsListed(s, toparse, fails, a.i);
    if a.Run? { WorkKeepsOk(s.workers[a.i], s.quit, a.full); }
    hide Work;
  }

  lemma {:induction false} RemoveProcessElem(ps: seq<nat>, p: nat, x: nat)
    requires x in ps && x != p
    ensures x in RemoveProcess(ps, p)
  {
    if ps[0] != p && ps[0] != x { RemoveProcessElem(ps[1..], p, x); }
  }

  lemma ConsumeSound(s: Pool, toparse: nat, fails: set<Recipe>)
    requires !s.stage.Done? && Sound(s, toparse, fails)
    ensures Sound(ConsumeStep(s, toparse, fails), toparse, fails)
  {
    if s.stage.Reaping? && s.stage.todo != [] {
      var p := s.stage.todo[0];
      forall i | 0 <= i < |s.workers| && i in s.processes && !Dead(s.workers[i])
        ensures i in ConsumeStep(s, toparse, fails).processes
      {
        if i != p { RemoveProcessElem(s.processes, p, i); }
      }
    }
  }

  lemma ActSound(s: Pool, a: Action, toparse: nat, fails: set<Recipe>)
    requires Enabled(s, a) && Sound(s, toparse, fails)
    ensures Sound(Act(s, a, toparse, fails), toparse, fails)
  {
    match a
    case Consume => ConsumeSound(s, toparse, fails);
    case Interrupt =>
    case Drain =>
    case Quit =>
    case _ => WorkerStepSound(s, a, toparse, fails);
  }

  /** Conservation: a step moves recipes, and neither loses nor doubles one. */
  lemma ActConserves(s: Pool, a: Action, toparse: nat, fails: set<Recipe>, r: Recipe)
    requires Enabled(s, a)
    ensures Everywhere(Act(s, a, toparse, fails), r) == Everywhere(s, r)
  {
    hide Count, HeldByAll, Work;
    var s' := Act(s, a, toparse, fails);
    match a
    case Run(i, full) =>
      WorkKeepsHeld(s.workers[i], s.quit, full, r);
      HeldUpdate(s.workers, i, s'.workers[i], r);
    case Feed(i) =>
      var w := s.workers[i];
      CountFirst(w.outbox, r);
      CountJoin(s.queue, [w.outbox[0]], r);
      HeldUpdate(s.workers, i, s'.workers[i], r);
    case Kill(i) =>
      HeldUpdate(s.workers, i, s'.workers[i], r);
    case Consume =>
      if s.stage.Getting? && s.queue != [] { TakeConserves(s, toparse, fails, r); }
    case Drain =>
      CountFirst(s.queue, r);
      CountJoin(s.drained, [s.queue[0]], r);
    case _ =>
  }

  lemma TakeConserves(s: Pool, toparse: nat, fails: set<Recipe>, r: Recipe)
    requires s.stage.Getting? && s.queue != []
    ensures Everywhere(ConsumeStep(s, toparse, fails), r) == Everywhere(s, r)
  {
    hide Count, HeldByAll;
    CountFirst(s.queue, r);
    CountJoin(s.delivered, [s.queue[0]], r);
    CountJoin(s.raised, [s.queue[0]], r);
  }

  // ---- whole runs ----

  lemma StartSound(recipes: seq<Recipe>, n: int, fails: set<Recipe>)
    ensures Sound(Start(recipes, n), |recipes|, fails)
  {
    var s := Start(recipes, n);
    forall i | 0 <= i < |s.workers| ensures i in s.processes { assert s.processes[i] == i; }
  }

  lemma {:induction false} FreshHold(ws: seq<Worker>, chunks: seq<seq<Recipe>>, r: Recipe)
    requires |ws| == |chunks|
    requires forall i :: 0 <= i < |ws| ==> ws[i] == Worker(chunks[i], true, [], Top, [])
    ensures HeldByAll(ws, r) == Dealt(chunks, r)
  {
    if ws != [] { FreshHold(ws[..|ws| - 1], chunks[..|chunks| - 1], r); }
  }

  lemma StartHolds(recipes: seq<Recipe>, n: int, r: Recipe)
    ensures Everywhere(Start(recipes, n), r) == if n > 0 then Count(recipes, r) else 0
  {
    FreshHold(Start(recipes, n).workers, Chunkify(recipes, n), r);
    if n > 0 { ChunkifyDeals(recipes, n, r); }
  }

  lemma {:induction false} AfterSound(s: Pool, acts: seq<Action>, toparse: nat, fails: set<Recipe>)
    requires Sound(s, toparse, fails) && Allowed(s, acts, toparse, fails)
    ensures Sound(After(s, acts, toparse, fails), toparse, fails)
    decreases |acts|
  {
    if acts != [] {
      hide Act, Sound;
      ActSound(s, acts[0], toparse, fails);
      AfterSound(Act(s, acts[0], toparse, fails), acts[1..], toparse, fails);
    }
  }

  lemma {:induction false} AfterConserves(s: Pool, acts: seq<Action>, toparse: nat, fails: set<Recipe>, r: Recipe)
    requires Allowed(s, acts, toparse, fails)
    ensures Everywhere(After(s, acts, toparse, fails), r) == Everywhere(s, r)
    decreases |acts|
  {
    if acts != [] {
      hide Act, Everywhere;
      ActConserves(s, acts[0], toparse, fails, r);
      AfterConserves(Act(s, acts[0], toparse, fails), acts[1..], toparse, fails, r);
    }
  }

  /** The pool after any interleaving of its processes, kills, interrupts and the clean-up. */
  ghost predicate Reached(recipes: seq<Recipe>, n: int, fails: set<Recipe>, s: Pool) {
    exists acts ::
      Allowed(Start(recipes, n), acts, |recipes|, fails) && After(Start(recipes, n), acts, |recipes|, fails) == s
  }

  lemma ReachedIsSound(recipes: seq<Recipe>, n: int, fails: set<Recipe>, s: Pool)
    requires Reached(recipes, n, fails, s)
    ensures Sound(s, |recipes|, fails)
    ensures forall r :: Everywhere(s, r) == if n > 0 then Count(recipes, r) else 0
  {
    var acts :|
      Allowed(Start(recipes, n), acts, |recipes|, fails) && After(Start(recipes, n), acts, |recipes|, fails) == s;
    StartSound(recipes, n, fails);
    AfterSound(Start(recipes, n), acts, |recipes|, fails);
    forall r ensures Everywhere(s, r) == if n > 0 then Count(recipes, r) else 0 {
      hide Everywhere, Start;
      StartHolds(recipes, n, r);
      AfterConserves(Start(recipes, n), acts, |recipes|, fails, r);
    }
  }

  /** `willparse` is a set: at any time each recipe is in exactly one place. */
  lemma ExactlyOnePlace(recipes: seq<Recipe>, n: nat, fails: set<Recipe>, s: Pool, r: Recipe)
    requires n > 0 && Reached(recipes, n, fails, s) && Count(recipes, r) == 1
    ensures var w, q, d := HeldByAll(s.workers, r), Count(s.queue, r), Count(s.delivered, r);
      var x := Count(s.raised, r) + Count(s.drained, r);
      || (w == 1 && q == d == x == 0) || (q == 1 && w == d == x == 0)
      || (d == 1 && w == q == x == 0) || (x == 1 && w == q == d == 0)
  {
    ReachedIsSound(recipes, n, fails, s);
    assert Everywhere(s, r) == 1;
  }

  lemma FewerIsLess(a: seq<Recipe>, b: seq<Recipe>)
    requires forall r :: Count(a, r) <= Count(b, r)
    ensures |a| <= |b| && (|a| == |b| ==> multiset(a) == multiset(b))
  {
    var d := multiset(b) - multiset(a);
    assert forall r :: Count(a, r) == multiset(a)[r] && Count(b, r) == multiset(b)[r];
    assert multiset(a) + d == multiset(b);
    assert |multiset(a)| + |d| == |multiset(b)|;
    if |a| == |b| { assert d == multiset{}; }
  }

  /** Normal end: everything is delivered exactly once, and nothing is left anywhere else. */
  lemma CompletedDeliversAll(recipes: seq<Recipe>, n: nat, fails: set<Recipe>, s: Pool)
    requires n > 0 && Reached(recipes, n, fails, s) && s.stage == Done(Completed)
    ensures multiset(s.delivered) == multiset(recipes) && s.parsed == |recipes|
    ensures forall r :: HeldByAll(s.workers, r) == 0
    ensures forall r :: r in recipes ==> r !in fails
  {
    ReachedIsSound(recipes, n, fails, s);
    forall r ensures Count(s.delivered, r) <= Count(recipes, r) { assert Everywhere(s, r) == Count(recipes, r); }
    FewerIsLess(s.delivered, recipes);
    forall r ensures HeldByAll(s.workers, r) == 0 {
      assert Everywhere(s, r) == Count(recipes, r) == Count(s.delivered, r);
    }
    forall r | r in recipes ensures r !in fails {
      assert r in multiset(recipes);
      assert r in s.delivered;
    }
  }

  lemma SomeoneShort(a: seq<Recipe>, b: seq<Recipe>)
    requires |a| < |b|
    ensures exists r :: Count(a, r) < Count(b, r)
  {
    if forall r :: Count(b, r) <= Count(a, r) { FewerIsLess(b, a); }
  }

  /** A dead worker that was not killed holds nothing. */
  lemma DeadHolderWasKilled(s: Pool, toparse: nat, fails: set<Recipe>, i: nat, r: Recipe)
    requires Sound(s, toparse, fails) && s.stage == Done(NotAllParsed) && i < |s.workers| && Held(s.workers[i], r) > 0
    ensures s.workers[i].phase.Killed?
  {
    CountNone(r);
    assert WorkerOk(s.workers[i], s.quit) && Dead(s.workers[i]);
  }

  /** "Not all recipes parsed": some worker was killed while it still held work. */
  lemma ErrorMeansKilledHolder(recipes: seq<Recipe>, n: nat, fails: set<Recipe>, s: Pool)
    requires n > 0 && Reached(recipes, n, fails, s) && s.stage == Done(NotAllParsed)
    ensures exists i, r :: 0 <= i < |s.workers| && s.workers[i].phase.Killed? && Held(s.workers[i], r) > 0
  {
    hide Reached, Held, HeldByAll, Count;
    ReachedIsSound(recipes, n, fails, s);
    SomeoneShort(s.delivered, recipes);
    var r :| Count(s.delivered, r) < Count(recipes, r);
    assert Everywhere(s, r) == Count(recipes, r);
    CountNone(r);
    SomeoneHolds(s.workers, r);
    var i :| 0 <= i < |s.workers| && Held(s.workers[i], r) > 0;
    DeadHolderWasKilled(s, |recipes|, fails, i, r);
  }

  /** When the generator ends by itself, it complains exactly if a killed worker took work with it. */
  lemma ErrorExactly(recipes: seq<Recipe>, n: nat, fails: set<Recipe>, s: Pool)
    requires n > 0 && Reached(recipes, n, fails, s) && (s.stage == Done(Completed) || s.stage == Done(NotAllParsed))
    ensures s.stage == Done(NotAllParsed) <==>
      exists i, r :: 0 <= i < |s.workers| && s.workers[i].phase.Killed? && Held(s.workers[i], r) > 0
  {
    if s.stage == Done(NotAllParsed) {
      ErrorMeansKilledHolder(recipes, n, fails, s);
    } else {
      CompletedDeliversAll(recipes, n, fails, s);
      forall i, r | 0 <= i < |s.workers| ensures Held(s.workers[i], r) == 0 { HeldAtMostAll(s.workers, i, r); }
    }
  }

  lemma {:induction false} HeldAtMostAll(ws: seq<Worker>, i: nat, r: Recipe)
    requires i < |ws|
    ensures Held(ws[i], r) <= HeldByAll(ws, r)
  {
    if i < |ws| - 1 { HeldAtMostAll(ws[..|ws| - 1], i, r); }
  }

  ghost predicate NoneKilled(ws: seq<Worker>) {
    forall i :: 0 <= i < |ws| ==> !ws[i].phase.Killed?
  }

  lemma {:induction false} NobodyKilled(s: Pool, acts: seq<Action>, toparse: nat, fails: set<Recipe>)
    requires Allowed(s, acts, toparse, fails) && NoneKilled(s.workers)
    requires forall k :: 0 <= k < |acts| ==> !acts[k].Kill?
    ensures NoneKilled(After(s, acts, toparse, fails).workers)
    decreases |acts|
  {
    if acts != [] {
      assert NoneKilled(Act(s, acts[0], toparse, fails).workers);
      hide Act, NoneKilled;
      NobodyKilled(Act(s, acts[0], toparse, fails), acts[1..], toparse, fails);
    }
  }

  /** Without kills the parse never ends in that error, whatever the timing. */
  lemma NoKillNoError(recipes: seq<Recipe>, n: nat, fails: set<Recipe>, acts: seq<Action>)
    requires n > 0 && Allowed(Start(recipes, n), acts, |recipes|, fails)
    requires forall k :: 0 <= k < |acts| ==> !acts[k].Kill?
    ensures After(Start(recipes, n), acts, |recipes|, fails).stage != Done(NotAllParsed)
  {
    NobodyKilled(Start(recipes, n), acts, |recipes|, fails);
    var s := After(Start(recipes, n), acts, |recipes|, fails);
    if s.stage == Done(NotAllParsed) { ErrorMeansKilledHolder(recipes, n, fails, s); }
  }

  lemma EmptyOrCounted(s: seq<Recipe>)
    ensures s == [] || exists r :: Count(s, r) > 0
  {
    if s != [] { assert Count(s, s[0]) > 0; }
  }

  /** With no worker at all, parsing something never completes. */
  lemma NoWorkersNeverCompletes(recipes: seq<Recipe>, n: int, fails: set<Recipe>, s: Pool)
    requires n <= 0 && recipes != [] && Reached(recipes, n, fails, s)
    ensures s.stage != Done(Completed)
  {
    hide Reached, Count;
    ReachedIsSound(recipes, n, fails, s);
    forall r ensures Count(s.delivered, r) <= 0 { assert Everywhere(s, r) == 0; }
    EmptyOrCounted(s.delivered);
  }

  /** Four steps of the generator, with nobody else to take one: it raises. */
  lemma NoWorkersRaises(recipes: seq<Recipe>, n: int, fails: set<Recipe>)
    requires n <= 0 && recipes != []
    ensures var acts := [Consume, Consume, Consume, Consume];
      && Allowed(Start(recipes, n), acts, |recipes|, fails)
      && After(Start(recipes, n), acts, |recipes|, fails).stage == Done(NotAllParsed)
  {
    var s0, toparse := Start(recipes, n), |recipes|;
    assert s0.processes == [] && s0.queue == [];
    var s1 := Act(s0, Consume, toparse, fails);
    var s2 := Act(s1, Consume, toparse, fails);
    var s3 := Act(s2, Consume, toparse, fails);
    var s4 := Act(s3, Consume, toparse, fails);
    hide Act, Start;
    AllowedCons(s3, Consume, [], toparse, fails);
    AllowedCons(s2, Consume, [Consume], toparse, fails);
    AllowedCons(s1, Consume, [Consume, Consume], toparse, fails);
    AllowedCons(s0, Consume, [Consume, Consume, Consume], toparse, fails);
    assert s4.stage == Done(NotAllParsed);
  }

  lemma AllowedCons(s: Pool, a: Action, acts: seq<Action>, toparse: nat, fails: set<Recipe>)
    requires Enabled(s, a) && Allowed(Act(s, a, toparse, fails), acts, toparse, fails)
    ensures Allowed(s, [a] + acts, toparse, fails)
    ensures After(s, [a] + acts, toparse, fails) == After(Act(s, a, toparse, fails), acts, toparse, fails)
  {
    assert ([a] + acts)[1..] == acts;
  }
}

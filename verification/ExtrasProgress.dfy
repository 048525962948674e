/**
 The extras protocol gets done: a writer that runs is through after finitely many steps, a merge leaves no
 extras, and from every state there is a way to a cache that has everything.
 */
module ExtrasProgress {
  import opened CacheMerge
  import opened ExtrasProtocol
  import opened Options

  lemma {:induction false} AfterBoth(calls: seq<Call>, s: State, a: seq<Action>, b: seq<Action>)
    requires |calls| == |s.writers| && Allowed(calls, s, a)
    requires |After(calls, s, a).writers| == |calls| && Allowed(calls, After(calls, s, a), b)
    ensures Allowed(calls, s, a + b) && After(calls, s, a + b) == After(calls, After(calls, s, a), b)
    decreases |a|
  {
    if a == [] {
      assert a + b == b;
    } else {
      hide Act, Enabled;
      ActCounts(calls, s, a[0]);
      AfterBoth(calls, Act(calls, s, a[0]), a[1..], b);
      assert (a + b)[1..] == a[1..] + b;
    }
  }

  lemma ActCounts(calls: seq<Call>, s: State, a: Action)
    requires |calls| == |s.writers| && Enabled(s, a)
    ensures |Act(calls, s, a).writers| == |s.writers|
  {
  }

  // ---- one writer ----

  /** The numbers below `bound` are all that are taken, but for the one that the writer has itself. */
  ghost predicate Bounded(s: State, w: Writer, bound: nat) {
    && (forall i :: i in s.locks ==> i < bound || Held(w) == Some(i))
    && (w.Waiting? || w.Locking? || w.Checking? ==> forall i :: i in s.files ==> i < bound)
  }

  /** How many steps a writer has left at most. */
  function WriterRank(w: Writer, bound: nat): nat {
    match w
    case Waiting => 2 * bound + 7
    case Locking(i) => if i < bound then 2 * (bound - i) + 6 else 6
    case Checking(i) => if i < bound then 2 * (bound - i) + 5 else 5
    case Opening(_) => 4
    case Writing(_) => 3
    case Unlocking(_) => 2
    case Leaving => 1
    case Saved => 0
  }

  lemma {:induction false} SomeBound(s: set<nat>) returns (bound: nat)
    ensures forall i :: i in s ==> i < bound
    decreases |s|
  {
    if s == {} {
      bound := 0;
    } else {
      var i :| i in s;
      var rest := SomeBound(s - {i});
      bound := if i < rest then rest else i + 1;
      forall k | k in s ensures k < bound { assert k == i || k in s - {i}; }
    }
  }

  lemma WriterStepRank(calls: seq<Call>, s: State, j: nat, bound: nat)
    requires |calls| == |s.writers| && Enabled(s, Write(j)) && Bounded(s, s.writers[j], bound)
    ensures var s' := WriterStep(calls, s, j);
      |s'.writers| == |s.writers| && WriterRank(s'.writers[j], bound) < WriterRank(s.writers[j], bound)
  {
  }

  lemma WriterStepBounded(calls: seq<Call>, s: State, j: nat, bound: nat)
    requires |calls| == |s.writers| && Enabled(s, Write(j)) && Bounded(s, s.writers[j], bound)
    ensures var s' := WriterStep(calls, s, j); |s'.writers| == |s.writers| && Bounded(s', s'.writers[j], bound)
  {
  }

  lemma WriterStepFrame(calls: seq<Call>, s: State, j: nat)
    requires |calls| == |s.writers| && Enabled(s, Write(j))
    ensures var s' := WriterStep(calls, s, j);
      && |s'.writers| == |s.writers| && s'.merger == s.merger && s'.exclusive == s.exclusive
      && forall k :: 0 <= k < |s.writers| && k != j ==> s'.writers[k] == s.writers[k]
  {
  }

  /** A writer that runs alone, while the merger is idle, gets its table saved. */
  lemma {:induction false} WriterAlone(calls: seq<Call>, data0: Data, s: State, j: nat, bound: nat)
      returns (acts: seq<Action>)
    requires Inv(calls, data0, s) && s.merger.Idle? && j < |s.writers| && Bounded(s, s.writers[j], bound)
    ensures |acts| <= WriterRank(s.writers[j], bound) && forall i :: 0 <= i < |acts| ==> acts[i] == Write(j)
    ensures Allowed(calls, s, acts)
    ensures var s' := After(calls, s, acts);
      && Inv(calls, data0, s') && s'.merger.Idle? && s'.writers[j].Saved?
      && forall k :: 0 <= k < |s.writers| && k != j ==> s'.writers[k] == s.writers[k]
    decreases WriterRank(s.writers[j], bound)
  {
    if s.writers[j].Saved? {
      acts := [];
    } else {
      assert Enabled(s, Write(j));
      WriterStepRank(calls, s, j, bound);
      WriterStepBounded(calls, s, j, bound);
      WriterStepFrame(calls, s, j);
      ActKeepsInv(calls, data0, s, Write(j));
      var s1 := Act(calls, s, Write(j));
      assert |s1.writers| == |calls|;
      hide Inv, Bounded, WriterRank, WriterStep, Enabled;
      var more := WriterAlone(calls, data0, s1, j, bound);
      acts := [Write(j)] + more;
      assert acts[1..] == more;
    }
  }

  /** One after the other, all of them. */
  lemma {:induction false} WritersInTurn(calls: seq<Call>, data0: Data, s: State, n: nat) returns (acts: seq<Action>)
    requires Inv(calls, data0, s) && s.merger.Idle? && n <= |s.writers|
    ensures Allowed(calls, s, acts)
    ensures var s' := After(calls, s, acts);
      Inv(calls, data0, s') && s'.merger.Idle? && forall k :: 0 <= k < n ==> s'.writers[k].Saved?
    decreases n
  {
    if n == 0 {
      acts := [];
    } else {
      var before := WritersInTurn(calls, data0, s, n - 1);
      var s1 := After(calls, s, before);
      var bound := SomeBound(s1.locks.Keys + s1.files.Keys);
      assert Bounded(s1, s1.writers[n - 1], bound);
      assert |s1.writers| == |calls| == |s.writers|;
      hide Inv, Bounded, WriterRank;
      var more := WriterAlone(calls, data0, s1, n - 1, bound);
      AfterBoth(calls, s, before, more);
      acts := before + more;
    }
  }

  // ---- one merge ----

  /** How many steps the merger has left at most before it is idle again. */
  function MergerRank(s: State): nat {
    match s.merger
    case Idle => 0
    case Listing => 3 * |s.files| + 3
    case Choosing(todo) => 3 * |todo| + 2
    case Reading(_, todo) => 3 * |todo| + 4
    case Removing(_, todo) => 3 * |todo| + 3
    case Finishing => 1
  }

  /** The merger's next step, whatever it chooses; none can be held up. */
  lemma MergerMoves(calls: seq<Call>, s: State) returns (a: Action)
    requires |calls| == |s.writers| && !s.merger.Idle?
    ensures !a.Write? && Enabled(s, a)
    ensures var s' := Act(calls, s, a);
      && MergerRank(s') < MergerRank(s) && s'.writers == s.writers
      && (s'.merger.Idle? ==> s.merger.Finishing? && s'.files == s.files)
  {
    if s.merger.Choosing? && s.merger.todo != {} {
      var f :| f in s.merger.todo;
      a := Choose(f);
    } else {
      a := Merge;
      hide FoldMerge;
    }
  }

  /** A merge that has begun ends, and leaves no extras behind. */
  lemma {:induction false} MergeEnds(calls: seq<Call>, data0: Data, s: State) returns (acts: seq<Action>)
    requires Inv(calls, data0, s) && !s.merger.Idle?
    ensures Allowed(calls, s, acts) && |acts| <= MergerRank(s) && forall i :: 0 <= i < |acts| ==> !acts[i].Write?
    ensures var s' := After(calls, s, acts);
      Inv(calls, data0, s') && s'.merger.Idle? && s'.files == map[] && s'.writers == s.writers
    decreases MergerRank(s)
  {
    assert |calls| == |s.writers| && (s.merger.Finishing? ==> s.files == map[]);
    hide Inv, MergerRank, Act, Enabled;
    var a := MergerMoves(calls, s);
    ActKeepsInv(calls, data0, s, a);
    var s1 := Act(calls, s, a);
    if s1.merger.Idle? {
      acts := [a];
      assert acts[1..] == [];
    } else {
      var more := MergeEnds(calls, data0, s1);
      acts := [a] + more;
      assert acts[1..] == more;
    }
  }

  // ---- everybody ----

  lemma NobodyInside(calls: seq<Call>, data0: Data, s: State)
    requires Inv(calls, data0, s) && s.merger.Idle? && forall k :: 0 <= k < |s.writers| ==> s.writers[k].Saved?
    ensures Enabled(s, Merge) && |s.writers| == |calls|
    ensures var s' := Act(calls, s, Merge); s'.writers == s.writers && s'.merger.Listing?
  {
    assert forall j :: j !in s.sharers;
    assert s.sharers == {};
  }

  /** A whole merge, once nobody is inside `save_extras`. */
  lemma WholeMerge(calls: seq<Call>, data0: Data, s: State) returns (acts: seq<Action>)
    requires Inv(calls, data0, s) && s.merger.Idle? && forall k :: 0 <= k < |s.writers| ==> s.writers[k].Saved?
    ensures Allowed(calls, s, acts)
    ensures var s' := After(calls, s, acts);
      Inv(calls, data0, s') && s'.merger.Idle? && s'.files == map[] && s'.writers == s.writers
  {
    NobodyInside(calls, data0, s);
    ActKeepsInv(calls, data0, s, Merge);
    hide Inv, Act, Enabled;
    var more := MergeEnds(calls, data0, Act(calls, s, Merge));
    acts := [Merge] + more;
    assert acts[1..] == more;
  }

  lemma InvCounts(calls: seq<Call>, data0: Data, s: State)
    requires Inv(calls, data0, s)
    ensures |s.writers| == |calls|
  {
  }

  lemma Finished(calls: seq<Call>, data0: Data, s: State) returns (acts: seq<Action>)
    requires Inv(calls, data0, s)
    ensures |s.writers| == |calls| && Allowed(calls, s, acts)
    ensures var s' := After(calls, s, acts);
      && Inv(calls, data0, s') && s'.merger.Idle? && s'.files == map[] && |s'.writers| == |calls|
      && forall k :: 0 <= k < |calls| ==> s'.writers[k].Saved?
  {
    InvCounts(calls, data0, s);
    hide Inv, Act;
    var first: seq<Action> := [];
    if !s.merger.Idle? { first := MergeEnds(calls, data0, s); }
    var s1 := After(calls, s, first);
    InvCounts(calls, data0, s1);
    var second := WritersInTurn(calls, data0, s1, |calls|);
    var s2 := After(calls, s1, second);
    InvCounts(calls, data0, s2);
    var third := WholeMerge(calls, data0, s2);
    AfterBoth(calls, s1, second, third);
    AfterBoth(calls, s, first, second + third);
    acts := first + (second + third);
    InvCounts(calls, data0, After(calls, s, acts));
  }

  /** The cache has every key of the table. */
  ghost predicate HasAll(cache: Data, table: Data) {
    |table| == |cache| && forall j, h :: 0 <= j < |cache| && h in table[j] ==> h in cache[j]
  }

  lemma TableWidth(calls: seq<Call>, s: State, k: nat)
    requires Initial(calls, s) && k < |calls|
    ensures |calls[k].table| == |s.data|
  {
  }

  /**
   From every state that any interleaving reaches there is a way to an end: all processes have saved, no
   extras are left, and the cache file has every key that one of them saved.
   */
  lemma AllGetsCached(calls: seq<Call>, s: State, acts: seq<Action>) returns (more: seq<Action>)
    requires Initial(calls, s) && Allowed(calls, s, acts)
    ensures Allowed(calls, s, acts + more)
    ensures var s' := After(calls, s, acts + more);
      && s'.merger.Idle? && s'.files == map[]
      && forall k :: 0 <= k < |calls| ==> HasAll(s'.cache, calls[k].table)
  {
    RunSound(calls, s, acts);
    assert |calls| == |s.writers|;
    hide Initial, Act, Inv;
    var now := After(calls, s, acts);
    more := Finished(calls, s.data, now);
    AfterBoth(calls, s, acts, more);
    var s' := After(calls, s, acts + more);
    SameWidthAtEnd(calls, s.data, s');
    forall k | 0 <= k < |calls| ensures HasAll(s'.cache, calls[k].table) {
      TableWidth(calls, s, k);
      forall j, h | 0 <= j < |s.data| && h in calls[k].table[j] ensures h in s'.cache[j] {
        SavedIsCached(calls, s, acts + more, k, j, h);
      }
    }
  }

  lemma SameWidthAtEnd(calls: seq<Call>, data0: Data, s: State)
    requires Inv(calls, data0, s) && s.merger.Idle?
    ensures |s.cache| == |data0|
  {
  }

  /** What a merge has read is all there was: afterwards no extras are left, and all that was saved is merged. */
  lemma MergeDrains(calls: seq<Call>, s: State, acts: seq<Action>, k: nat)
    requires Initial(calls, s) && Allowed(calls, s, acts) && k < |calls|
    requires After(calls, s, acts).merger.Finishing?
    ensures var s' := After(calls, s, acts);
      s'.files == map[] && |s'.writers| == |calls| && (HasWritten(s'.writers[k]) ==> calls[k].table in s'.merged)
  {
    RunSound(calls, s, acts);
    NothingIsLost(calls, s, acts);
  }
}

/**
 bitbake/lib/bb/data.py: `generate_dependencies` and `generate_dependency_hash`.
 `build_dependencies` is a function of the variable name; hashes are left as the hashed text.
 */
module SignatureDeps {
  import opened Sorting

  type Key = string
  datatype Value = Missing | Text(text: string)

  /** What `build_dependencies` answers for one name: the names it uses, and its value. */
  datatype Built = Built(deps: set<Key>, value: Value)
  type Builder = Key -> Built
  type Table = map<Key, set<Key>>

  // ---- reachability ----

  /** A path of one or more steps from `a`; `p` lists the names after `a`. */
  ghost predicate Path(b: Builder, a: Key, p: seq<Key>)
    decreases |p|
  {
    p != [] && p[0] in b(a).deps && (|p| > 1 ==> Path(b, p[0], p[1..]))
  }

  ghost predicate Reaches(b: Builder, a: Key, x: Key) {
    exists p :: Path(b, a, p) && p[|p| - 1] == x
  }

  lemma {:induction false} PathExtends(b: Builder, a: Key, p: seq<Key>, y: Key)
    requires Path(b, a, p) && y in b(p[|p| - 1]).deps
    ensures Path(b, a, p + [y])
    decreases |p|
  {
    var q := p + [y];
    if |p| == 1 {
      assert q[1..] == [y];
    } else {
      PathExtends(b, p[0], p[1..], y);
      assert q[1..] == p[1..] + [y];
    }
  }

  lemma ReachesExtends(b: Builder, a: Key, x: Key, y: Key)
    requires Reaches(b, a, x) && y in b(x).deps
    ensures Reaches(b, a, y)
  {
    var p :| Path(b, a, p) && p[|p| - 1] == x;
    PathExtends(b, a, p, y);
    assert (p + [y])[|p + [y]| - 1] == y;
  }

  lemma ReachesDirect(b: Builder, a: Key, x: Key)
    requires x in b(a).deps
    ensures Reaches(b, a, x)
  {
    assert Path(b, a, [x]);
  }

  lemma {:induction false} PathStaysIn(b: Builder, a: Key, p: seq<Key>, s: set<Key>)
    requires Path(b, a, p) && b(a).deps <= s && forall k :: k in s ==> b(k).deps <= s
    ensures p[|p| - 1] in s
    decreases |p|
  {
    if |p| > 1 { PathStaysIn(b, p[0], p[1..], s); }
  }

  /** The names that every closed set above `b(a).deps` must have. */
  lemma ClosedHasAll(b: Builder, a: Key, s: set<Key>)
    requires b(a).deps <= s && forall k :: k in s ==> b(k).deps <= s
    ensures forall x :: Reaches(b, a, x) ==> x in s
  {
    forall x | Reaches(b, a, x) ensures x in s {
      var p :| Path(b, a, p) && p[|p| - 1] == x;
      PathStaysIn(b, a, p, s);
    }
  }

  // ---- the worklist ----

  /** `seen` and the next round `newdeps` together hold what has been found so far. */
  ghost predicate Frontier(b: Builder, task: Key, seen: set<Key>, newdeps: set<Key>) {
    && seen !! newdeps && b(task).deps <= seen + newdeps
    && (forall x :: x in seen + newdeps ==> Reaches(b, task, x))
    && (forall k :: k in seen ==> b(k).deps <= seen + newdeps)
  }

  /** The names a round reaches: the union of the dependency sets of `from`. */
  function Round(b: Builder, from: set<Key>): set<Key> {
    set k, d | k in from && d in b(k).deps :: d
  }

  lemma FrontierStarts(b: Builder, task: Key)
    ensures Frontier(b, task, {}, b(task).deps)
  {
    forall x | x in b(task).deps ensures Reaches(b, task, x) { ReachesDirect(b, task, x); }
  }

  lemma FrontierStep(b: Builder, task: Key, seen: set<Key>, newdeps: set<Key>)
    requires Frontier(b, task, seen, newdeps)
    ensures Frontier(b, task, seen + newdeps, Round(b, newdeps) - (seen + newdeps))
  {
    var seen' := seen + newdeps;
    var next := Round(b, newdeps) - seen';
    forall x | x in seen' + next ensures Reaches(b, task, x) {
      if x in next {
        var k :| k in newdeps && x in b(k).deps;
        ReachesExtends(b, task, k, x);
      }
    }
  }

  lemma FrontierEnds(b: Builder, task: Key, seen: set<Key>)
    requires Frontier(b, task, seen, {})
    ensures forall x :: x in seen <==> Reaches(b, task, x)
  {
    ClosedHasAll(b, task, seen);
  }

  // ---- generate_dependencies ----

  /** The names found are finitely many: everything stays inside `universe`. */
  ghost predicate Finite(b: Builder, universe: set<Key>) {
    forall k :: k in universe ==> b(k).deps <= universe
  }

  /** Every row of the tables is what `build_dependencies` answers for its name. */
  ghost predicate Rows(b: Builder, deps: Table, values: map<Key, Value>) {
    && values.Keys == deps.Keys
    && forall k :: k in deps ==> deps[k] == b(k).deps && values[k] == b(k).value
  }

  ghost predicate Covers(b: Builder, deps: Table, task: Key) {
    task in deps && forall x :: Reaches(b, task, x) ==> x in deps
  }

  ghost predicate Wants(b: Builder, task: Key, k: Key) {
    k == task || Reaches(b, task, k)
  }

  /** The first `n` tasks are covered, and the table has nothing that none of them wants. */
  ghost predicate Exact(b: Builder, deps: Table, tasks: seq<Key>, n: nat)
    requires n <= |tasks|
  {
    && (forall j :: 0 <= j < n ==> Covers(b, deps, tasks[j]))
    && (forall k :: k in deps ==> exists j :: 0 <= j < n && Wants(b, tasks[j], k))
  }

  class Generator {
    var deps: Table
    var values: map<Key, Value>

    constructor ()
      ensures deps == map[] && values == map[]
    {
      deps, values := map[], map[];
    }

    /** The inner `for dep in nextdeps`: fill in missing rows, and collect the next round. */
    method Expand(b: Builder, nextdeps: set<Key>) returns (newdeps: set<Key>)
      requires Rows(b, deps, values)
      modifies this
      ensures Rows(b, deps, values) && deps.Keys == old(deps.Keys) + nextdeps
      ensures newdeps == Round(b, nextdeps)
    {
      newdeps := {};
      var todo := nextdeps;
      while todo != {}
        invariant todo <= nextdeps
        invariant Rows(b, deps, values) && deps.Keys == old(deps.Keys) + (nextdeps - todo)
        invariant newdeps == Round(b, nextdeps - todo)
        decreases todo
      {
        var dep :| dep in todo;
        if dep !in deps {
          var built := b(dep);
          deps, values := deps[dep := built.deps], values[dep := built.value];
        }
        newdeps := newdeps + deps[dep];
        todo := todo - {dep};
      }
      assert nextdeps - todo == nextdeps;
    }

    /** The worklist of one task; rows of earlier tasks are reused. */
    method Closure(b: Builder, task: Key, ghost universe: set<Key>)
      requires Rows(b, deps, values) && Finite(b, universe) && task in universe
      modifies this
      ensures Rows(b, deps, values) && Covers(b, deps, task)
      ensures deps.Keys >= old(deps.Keys)
      ensures forall k :: k in deps ==> k in old(deps) || Wants(b, task, k)
    {
      var built := b(task);
      deps, values := deps[task := built.deps], values[task := built.value];
      var newdeps := deps[task];
      var seen: set<Key> := {};
      FrontierStarts(b, task);
      while newdeps != {}
        invariant Rows(b, deps, values) && Frontier(b, task, seen, newdeps)
        invariant seen + newdeps <= universe
        invariant deps.Keys == old(deps.Keys) + {task} + seen
        decreases universe - seen
      {
        var nextdeps := newdeps;
        FrontierStep(b, task, seen, newdeps);
        seen := seen + nextdeps;
        newdeps := Expand(b, nextdeps);
        newdeps := newdeps - seen;
      }
      FrontierEnds(b, task, seen);
    }

    method Generate(b: Builder, tasks: seq<Key>, ghost universe: set<Key>)
      requires Finite(b, universe) && deps == map[] && values == map[]
      requires forall i :: 0 <= i < |tasks| ==> tasks[i] in universe
      modifies this
      ensures Rows(b, deps, values) && Exact(b, deps, tasks, |tasks|)
    {
      for i := 0 to |tasks|
        invariant Rows(b, deps, values) && Exact(b, deps, tasks, i)
      {
        ghost var before := deps;
        Closure(b, tasks[i], universe);
        ExactStep(b, before, deps, tasks, i);
      }
    }
  }

  lemma CoversMore(b: Builder, before: Table, deps: Table, task: Key)
    requires Covers(b, before, task) && before.Keys <= deps.Keys
    ensures Covers(b, deps, task)
  {
    hide Reaches;
  }

  lemma ExactStep(b: Builder, before: Table, deps: Table, tasks: seq<Key>, i: nat)
    requires i < |tasks| && Exact(b, before, tasks, i)
    requires before.Keys <= deps.Keys && Covers(b, deps, tasks[i])
    requires forall k :: k in deps ==> k in before || Wants(b, tasks[i], k)
    ensures Exact(b, deps, tasks, i + 1)
  {
    hide Reaches, Wants, Covers;
    forall j | 0 <= j < i + 1 ensures Covers(b, deps, tasks[j]) {
      if j < i { CoversMore(b, before, deps, tasks[j]); }
    }
    forall k | k in deps ensures exists j :: 0 <= j < i + 1 && Wants(b, tasks[j], k) {
      if k in before {
        var j :| 0 <= j < i && Wants(b, tasks[j], k);
        assert 0 <= j < i + 1 && Wants(b, tasks[j], k);
      } else {
        assert 0 <= i < i + 1 && Wants(b, tasks[i], k);
      }
    }
  }

  /** The table is closed under its own edges. */
  lemma ExactIsClosed(b: Builder, deps: Table, values: map<Key, Value>, tasks: seq<Key>)
    requires Rows(b, deps, values) && Exact(b, deps, tasks, |tasks|)
    ensures forall k :: k in deps ==> deps[k] <= deps.Keys
  {
    hide Reaches, Wants, Covers;
    forall k, d | k in deps && d in deps[k] ensures d in deps {
      var j :| 0 <= j < |tasks| && Wants(b, tasks[j], k);
      CoversNext(b, deps, tasks[j], k, d);
    }
  }

  lemma CoversNext(b: Builder, deps: Table, task: Key, k: Key, d: Key)
    requires Covers(b, deps, task) && Wants(b, task, k) && d in b(k).deps
    ensures d in deps
  {
    hide Reaches;
    if k == task { ReachesDirect(b, k, d); } else { ReachesExtends(b, task, k, d); }
  }

  // ---- generate_dependency_hash ----

  function Shown(v: Value): string {
    match v
    case Missing => ""
    case Text(text) => text
  }

  /** The text hashed for a task: its value, then each dependency in order with its value. */
  function HashText(b: Builder, task: Key, sorted: seq<Key>): string {
    if sorted == [] then Shown(b(task).value)
    else
      var last := sorted[|sorted| - 1];
      HashText(b, task, sorted[..|sorted| - 1]) + last + Shown(b(last).value)
  }

  datatype TaskHash = TaskHash(deps: set<Key>, text: string)

  /** What the second pass must answer for a task; the tables do not show in it. */
  ghost predicate HashOk(b: Builder, task: Key, h: TaskHash) {
    && (forall x :: x in h.deps <==> Reaches(b, task, x))
    && exists s :: Sorted(s) && (forall x :: x in s <==> x in h.deps) && h.text == HashText(b, task, s)
  }

  /** The worklist of the second pass. Every `gendeps[dep]` finds its row. */
  method Follow(b: Builder, deps: Table, values: map<Key, Value>, task: Key) returns (seen: set<Key>)
    requires Rows(b, deps, values) && Covers(b, deps, task)
    ensures forall x :: x in seen <==> Reaches(b, task, x)
  {
    hide Reaches;
    var newdeps := deps[task];
    seen := {};
    FrontierStarts(b, task);
    while newdeps != {}
      invariant Frontier(b, task, seen, newdeps)
      decreases deps.Keys - seen
    {
      var nextdeps := newdeps;
      FrontierStep(b, task, seen, newdeps);
      seen := seen + nextdeps;
      newdeps := CollectRound(b, deps, values, nextdeps);
      newdeps := newdeps - seen;
    }
    FrontierEnds(b, task, seen);
  }

  method CollectRound(b: Builder, deps: Table, values: map<Key, Value>, nextdeps: set<Key>)
      returns (newdeps: set<Key>)
    requires Rows(b, deps, values) && nextdeps <= deps.Keys
    ensures newdeps == Round(b, nextdeps)
  {
    newdeps := {};
    var todo := nextdeps;
    while todo != {}
      invariant todo <= nextdeps && newdeps == Round(b, nextdeps - todo)
      decreases todo
    {
      var dep :| dep in todo;
      newdeps := newdeps + deps[dep];
      todo := todo - {dep};
    }
    assert nextdeps - todo == nextdeps;
  }

  /** One task of the second pass. Every `lookupcache[dep]` finds its row, too. */
  method HashTask(b: Builder, deps: Table, values: map<Key, Value>, task: Key) returns (h: TaskHash)
    requires Rows(b, deps, values) && Covers(b, deps, task)
    ensures HashOk(b, task, h)
  {
    hide Reaches;
    var seen := Follow(b, deps, values, task);
    var sorted := SortKeys(seen);
    var text := Shown(values[task]);
    for i := 0 to |sorted|
      invariant text == HashText(b, task, sorted[..i])
    {
      assert sorted[..i + 1][..i] == sorted[..i];
      text := text + sorted[i] + Shown(values[sorted[i]]);
    }
    assert sorted[..|sorted|] == sorted;
    h := TaskHash(seen, text);
  }

  /** The answer depends on nothing but which names are reached, and the values of these and of the task. */
  lemma HashDependsOnReachable(b1: Builder, b2: Builder, task: Key, h1: TaskHash, h2: TaskHash)
    requires HashOk(b1, task, h1) && HashOk(b2, task, h2)
    requires forall x :: Reaches(b1, task, x) <==> Reaches(b2, task, x)
    requires forall x :: x == task || Reaches(b1, task, x) ==> Shown(b1(x).value) == Shown(b2(x).value)
    ensures h1 == h2
  {
    assert h1.deps == h2.deps;
    var s1 :| Sorted(s1) && (forall x :: x in s1 <==> x in h1.deps) && h1.text == HashText(b1, task, s1);
    var s2 :| Sorted(s2) && (forall x :: x in s2 <==> x in h2.deps) && h2.text == HashText(b2, task, s2);
    SortedIsUnique(s1, s2);
    SameText(b1, b2, task, s1);
  }

  /** It is enough that the rows agree along the way. */
  lemma HashDependsOnRows(b1: Builder, b2: Builder, task: Key, h1: TaskHash, h2: TaskHash)
    requires HashOk(b1, task, h1) && HashOk(b2, task, h2)
    requires b1(task) == b2(task) && forall x :: Reaches(b1, task, x) ==> b1(x) == b2(x)
    ensures h1 == h2
  {
    SameReach(b1, b2, task);
    HashDependsOnReachable(b1, b2, task, h1, h2);
  }

  lemma {:induction false} SamePath(b1: Builder, b2: Builder, task: Key, a: Key, p: seq<Key>)
    requires a == task || Reaches(b1, task, a)
    requires b1(task) == b2(task) && forall x :: Reaches(b1, task, x) ==> b1(x) == b2(x)
    ensures Path(b1, a, p) <==> Path(b2, a, p)
    decreases |p|
  {
    if p != [] && p[0] in b1(a).deps && |p| > 1 {
      if a == task { ReachesDirect(b1, task, p[0]); } else { ReachesExtends(b1, task, a, p[0]); }
      SamePath(b1, b2, task, p[0], p[1..]);
    }
  }

  lemma SameReach(b1: Builder, b2: Builder, task: Key)
    requires b1(task) == b2(task) && forall x :: Reaches(b1, task, x) ==> b1(x) == b2(x)
    ensures forall x :: Reaches(b1, task, x) <==> Reaches(b2, task, x)
  {
    forall p ensures Path(b1, task, p) <==> Path(b2, task, p) { SamePath(b1, b2, task, task, p); }
  }

  lemma {:induction false} SameText(b1: Builder, b2: Builder, task: Key, s: seq<Key>)
    requires forall k :: k == task || k in s ==> Shown(b1(k).value) == Shown(b2(k).value)
    ensures HashText(b1, task, s) == HashText(b2, task, s)
    decreases |s|
  {
    if s != [] { SameText(b1, b2, task, s[..|s| - 1]); }
  }

  // ---- what the text tells apart ----

  /** The length of the value of a name. */
  function Size(b: Builder, k: Key): nat { |Shown(b(k).value)| }

  /** The lengths of the names and of their values, added up. */
  function Pieces(b: Builder, s: seq<Key>): nat {
    if s == [] then 0 else Pieces(b, s[..|s| - 1]) + |s[|s| - 1]| + Size(b, s[|s| - 1])
  }

  /** All names and values are in the text, and nothing else. */
  lemma {:induction false} TextLength(b: Builder, task: Key, s: seq<Key>)
    ensures |HashText(b, task, s)| == Size(b, task) + Pieces(b, s)
    decreases |s|
  {
    if s != [] { TextLength(b, task, s[..|s| - 1]); }
  }

  /** The name is there, with its value behind it. */
  lemma {:induction false} NameInText(b: Builder, task: Key, s: seq<Key>, i: nat) returns (before: string, after: string)
    requires i < |s|
    ensures HashText(b, task, s) == before + (s[i] + Shown(b(s[i]).value)) + after
    decreases |s|
  {
    var init, last := s[..|s| - 1], s[|s| - 1];
    var piece := last + Shown(b(last).value);
    assert HashText(b, task, s) == HashText(b, task, init) + piece;
    if i == |init| {
      before, after := HashText(b, task, init), "";
    } else {
      var rest;
      before, rest := NameInText(b, task, init, i);
      after := rest + piece;
      assert before + (s[i] + Shown(b(s[i]).value)) + rest + piece == before + (s[i] + Shown(b(s[i]).value)) + after;
    }
  }

  /** Texts of the same names, with values of the same lengths, are equal only if all the values are. */
  lemma {:induction false} TextTellsApart(b1: Builder, b2: Builder, task: Key, s: seq<Key>)
    requires forall x :: x == task || x in s ==> Size(b1, x) == Size(b2, x)
    requires HashText(b1, task, s) == HashText(b2, task, s)
    ensures forall x :: x == task || x in s ==> Shown(b1(x).value) == Shown(b2(x).value)
    decreases |s|
  {
    if s != [] {
      var init, last := s[..|s| - 1], s[|s| - 1];
      assert s == init + [last];
      SamePieces(b1, b2, init);
      TextLength(b1, task, init);
      TextLength(b2, task, init);
      SameHalves(HashText(b1, task, init), last, Shown(b1(last).value),
                 HashText(b2, task, init), Shown(b2(last).value));
      TextTellsApart(b1, b2, task, init);
    }
  }

  lemma SameHalves(a1: string, k: string, v1: string, a2: string, v2: string)
    requires |a1| == |a2| && a1 + k + v1 == a2 + k + v2
    ensures a1 == a2 && v1 == v2
  {
    assert a1 == (a1 + k + v1)[..|a1|] && a2 == (a2 + k + v2)[..|a2|];
    assert v1 == (a1 + k + v1)[|a1| + |k|..] && v2 == (a2 + k + v2)[|a2| + |k|..];
  }

  lemma {:induction false} SamePieces(b1: Builder, b2: Builder, s: seq<Key>)
    requires forall x :: x in s ==> Size(b1, x) == Size(b2, x)
    ensures Pieces(b1, s) == Pieces(b2, s)
    decreases |s|
  {
    if s != [] { SamePieces(b1, b2, s[..|s| - 1]); }
  }

  /** A longer value of one name that is there makes the pieces longer. */
  lemma {:induction false} LongerPieces(b1: Builder, b2: Builder, s: seq<Key>, k: Key)
    requires forall x :: x in s && x != k ==> Size(b1, x) == Size(b2, x)
    requires Size(b1, k) < Size(b2, k)
    ensures if k in s then Pieces(b1, s) < Pieces(b2, s) else Pieces(b1, s) == Pieces(b2, s)
    decreases |s|
  {
    if s != [] {
      assert s == s[..|s| - 1] + [s[|s| - 1]];
      LongerPieces(b1, b2, s[..|s| - 1], k);
    }
  }

  lemma LongerText(b1: Builder, b2: Builder, task: Key, s: seq<Key>, k: Key)
    requires k == task || k in s
    requires forall x :: (x == task || x in s) && x != k ==> Size(b1, x) == Size(b2, x)
    requires Size(b1, k) < Size(b2, k)
    ensures HashText(b1, task, s) != HashText(b2, task, s)
  {
    LongerPieces(b1, b2, s, k);
    TextLength(b1, task, s);
    TextLength(b2, task, s);
  }

  /** Equal, or one unset and the other empty: these two look alike. */
  predicate Alike(v: Value, w: Value) {
    v == w || (v in {Missing, Text("")} && w in {Missing, Text("")})
  }

  lemma ShownAlike(v: Value, w: Value)
    ensures Shown(v) == Shown(w) <==> Alike(v, w)
  {
  }

  /**
   A change of one value that a task depends on, or of its own, changes its text, unless a variable
   that was not set becomes empty or the other way round.
   */
  lemma HashTellsApart(b1: Builder, b2: Builder, task: Key, h1: TaskHash, h2: TaskHash, k: Key)
    requires HashOk(b1, task, h1) && HashOk(b2, task, h2)
    requires forall x :: Reaches(b1, task, x) <==> Reaches(b2, task, x)
    requires k == task || Reaches(b1, task, k)
    requires forall x :: (x == task || Reaches(b1, task, x)) && x != k ==> Alike(b1(x).value, b2(x).value)
    ensures h1.text == h2.text <==> Alike(b1(k).value, b2(k).value)
  {
    hide Reaches, Shown, Alike;
    forall x ensures Shown(b1(x).value) == Shown(b2(x).value) <==> Alike(b1(x).value, b2(x).value) {
      ShownAlike(b1(x).value, b2(x).value);
    }
    assert h1.deps == h2.deps;
    var s1 :| Sorted(s1) && (forall x :: x in s1 <==> x in h1.deps) && h1.text == HashText(b1, task, s1);
    var s2 :| Sorted(s2) && (forall x :: x in s2 <==> x in h2.deps) && h2.text == HashText(b2, task, s2);
    SortedIsUnique(s1, s2);
    if Size(b1, k) < Size(b2, k) {
      LongerText(b1, b2, task, s1, k);
    } else if Size(b2, k) < Size(b1, k) {
      LongerText(b2, b1, task, s1, k);
    } else if h1.text == h2.text {
      TextTellsApart(b1, b2, task, s1);
    } else {
      if Shown(b1(k).value) == Shown(b2(k).value) { SameText(b1, b2, task, s1); }
    }
  }

  /** A task that uses A and B. */
  function TwoNames(a: string, b: string): Builder {
    (k: Key) => if k == "t" then Built({"A", "B"}, Missing) else Built({}, Text(if k == "A" then a else b))
  }

  lemma TwoReached(a: string, b: string, x: Key)
    ensures Reaches(TwoNames(a, b), "t", x) <==> x in {"A", "B"}
  {
    var names := TwoNames(a, b);
    if x in {"A", "B"} { ReachesDirect(names, "t", x); }
    if Reaches(names, "t", x) {
      var p :| Path(names, "t", p) && p[|p| - 1] == x;
      assert p[0] in {"A", "B"} && p[0][0] != "t"[0];
      assert names(p[0]).deps == {} && !Path(names, p[0], p[1..]);
    }
  }

  lemma TwoHashed(a: string, b: string)
    ensures HashOk(TwoNames(a, b), "t", TaskHash({"A", "B"}, "A" + a + "B" + b))
  {
    var names, s := TwoNames(a, b), ["A", "B"];
    forall x ensures x in {"A", "B"} <==> Reaches(names, "t", x) { TwoReached(a, b, x); }
    assert Sorted(s) && forall x :: x in s <==> x in {"A", "B"};
    assert s[..1] == ["A"] && s[..1][..0] == [] && s[..1][0] == "A";
    assert HashText(names, "t", []) == "";
    assert HashText(names, "t", ["A"]) == "" + "A" + a;
    assert HashText(names, "t", s) == HashText(names, "t", s[..1]) + "B" + b;
    assert "" + "A" + a + "B" + b == "A" + a + "B" + b;
  }

  /** Two values that change together can cancel: nothing in the text says where a value ends. */
  lemma ChangesCancel() returns (h: TaskHash)
    ensures HashOk(TwoNames("xB", ""), "t", h) && HashOk(TwoNames("x", "B"), "t", h)
  {
    hide HashOk, TwoNames;
    TwoHashed("xB", "");
    TwoHashed("x", "B");
    h := TaskHash({"A", "B"}, "AxBB");
    assert "A" + "xB" + "B" + "" == "AxBB" == "A" + "x" + "B" + "B";
  }

  /** Every name reached is in the text, with its value behind it. */
  lemma NameIsHashed(b: Builder, task: Key, h: TaskHash, k: Key) returns (before: string, after: string)
    requires HashOk(b, task, h) && k in h.deps
    ensures h.text == before + (k + Shown(b(k).value)) + after
  {
    var s :| Sorted(s) && (forall x :: x in s <==> x in h.deps) && h.text == HashText(b, task, s);
    var i :| 0 <= i < |s| && s[i] == k;
    before, after := NameInText(b, task, s, i);
  }

  /** `generate_dependencies` feeding `generate_dependency_hash`. */
  method HashAll(b: Builder, tasks: seq<Key>, ghost universe: set<Key>) returns (hashes: map<Key, TaskHash>)
    requires Finite(b, universe) && forall i :: 0 <= i < |tasks| ==> tasks[i] in universe
    ensures forall i :: 0 <= i < |tasks| ==> tasks[i] in hashes
    ensures forall t :: t in hashes ==> t in tasks && HashOk(b, t, hashes[t])
  {
    var g := new Generator();
    g.Generate(b, tasks, universe);
    hashes := HashEach(b, g.deps, g.values, tasks);
  }

  /** The loop over tasks of the second pass. */
  method HashEach(b: Builder, deps: Table, values: map<Key, Value>, tasks: seq<Key>)
      returns (hashes: map<Key, TaskHash>)
    requires Rows(b, deps, values) && forall j :: 0 <= j < |tasks| ==> Covers(b, deps, tasks[j])
    ensures forall i :: 0 <= i < |tasks| ==> tasks[i] in hashes
    ensures forall t :: t in hashes ==> t in tasks && HashOk(b, t, hashes[t])
  {
    hide HashOk, Covers, Rows;
    hashes := map[];
    for i := 0 to |tasks|
      invariant forall j :: 0 <= j < i ==> tasks[j] in hashes
      invariant forall t :: t in hashes ==> t in tasks && HashOk(b, t, hashes[t])
    {
      var h := HashTask(b, deps, values, tasks[i]);
      hashes := hashes[tasks[i] := h];
    }
  }
}

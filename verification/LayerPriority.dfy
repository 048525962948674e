/**
 bitbake/lib/bb/cooker.py, `handleCollections`: the priority of every layer, read from
 BBFILE_PRIORITY or computed from the layers it depends on.
 */
module LayerPriority {
  import opened Options

  type Layer = string

  /** `explicit` has a value where BBFILE_PRIORITY is set; `depends` includes the enabled recommends. */
  datatype Layers = Layers(list: seq<Layer>, explicit: map<Layer, Option<int>>, depends: map<Layer, seq<Layer>>)

  /** Every dependency is enabled, and `rank` shows that there is no dependency cycle. */
  ghost predicate Acyclic(g: Layers, rank: Layer -> nat) {
    && g.explicit.Keys == g.depends.Keys
    && (forall c :: c in g.list ==> c in g.depends)
    && forall c, d :: c in g.depends && d in g.depends[c] ==> d in g.depends && rank(d) < rank(c)
  }

  // ---- min_prio ----

  function MinStep(minPrio: int, prio: int): int {
    if minPrio == 0 || prio < minPrio then prio else minPrio
  }

  /** `min_prio` after the explicit priorities `ps`, in listing order. */
  function MinPrio(ps: seq<int>): int {
    if ps == [] then 0 else MinStep(MinPrio(ps[..|ps| - 1]), ps[|ps| - 1])
  }

  ghost predicate IsLeast(m: int, ps: seq<int>) {
    m in ps && forall p :: p in ps ==> m <= p
  }

  lemma {:induction false} MinPrioSign(ps: seq<int>)
    requires ps != []
    ensures MinPrio(ps) in ps
    ensures (forall p :: p in ps ==> p > 0) ==> IsLeast(MinPrio(ps), ps)
    ensures (exists p :: p in ps && p < 0) ==> IsLeast(MinPrio(ps), ps)
    ensures (forall p :: p in ps ==> p >= 0) ==> (MinPrio(ps) == 0 <==> ps[|ps| - 1] == 0)
    decreases |ps|
  {
    var init, last := ps[..|ps| - 1], ps[|ps| - 1];
    assert forall p :: p in ps <==> p in init || p == last by { assert ps == init + [last]; }
    if init != [] { MinPrioSign(init); }
  }

  /**
   `min_prio` is meant to be the lowest explicit priority. A priority of 0 reads as "none so far",
   so it is that exactly when the lowest is not 0, or 0 comes last.
   */
  lemma MinPrioIsLeast(ps: seq<int>)
    requires ps != []
    ensures IsLeast(MinPrio(ps), ps) <==> (0 in ps && (forall p :: p in ps ==> p >= 0) ==> ps[|ps| - 1] == 0)
  {
    MinPrioSign(ps);
  }

  lemma MinPrioForgetsZero()
    ensures MinPrio([5, 0, 7]) == 7 && IsLeast(0, [5, 0, 7])
  {
    assert [5, 0, 7][..2] == [5, 0] && [5, 0][..1] == [5] && [5][..0] == [];
    assert MinPrio([5, 0, 7]) == MinStep(MinPrio([5, 0]), 7);
  }

  /** `min_prio` depends on which priorities there are, not on their order, as long as none is 0. */
  lemma MinPrioAnyOrder(ps: seq<int>, qs: seq<int>)
    requires 0 !in ps && forall p :: p in ps <==> p in qs
    ensures MinPrio(ps) == MinPrio(qs)
  {
    if ps == [] || qs == [] {
      NoneOrSome(ps);
      NoneOrSome(qs);
    } else {
      MinPrioIsLeast(ps);
      MinPrioIsLeast(qs);
    }
  }

  lemma NoneOrSome(ps: seq<int>)
    ensures ps == [] || exists p :: p in ps
  {
    if ps != [] {
      var p := ps[0];
      assert p in ps;
    }
  }

  // ---- the priority of a layer ----

  /** An explicit priority other than 0; None and 0 are falsy. */
  predicate Truthy(p: Option<int>) {
    p.Some? && p.value != 0
  }

  ghost function Prio(g: Layers, rank: Layer -> nat, minPrio: int, c: Layer): int
    requires Acyclic(g, rank) && c in g.depends
    decreases rank(c), 1, 0
  {
    if Truthy(g.explicit[c]) then g.explicit[c].value
    else 1 + MaxPrio(g, rank, minPrio, c, |g.depends[c]|)
  }

  /** The largest of `minPrio` and the priorities of the first `n` dependencies. */
  ghost function MaxPrio(g: Layers, rank: Layer -> nat, minPrio: int, c: Layer, n: nat): int
    requires Acyclic(g, rank) && c in g.depends && n <= |g.depends[c]|
    decreases rank(c), 0, n
  {
    if n == 0 then minPrio else
      var most, p := MaxPrio(g, rank, minPrio, c, n - 1), Prio(g, rank, minPrio, g.depends[c][n - 1]);
      if p > most then p else most
  }

  lemma MaxStart(g: Layers, rank: Layer -> nat, minPrio: int, c: Layer)
    requires Acyclic(g, rank) && c in g.depends
    ensures MaxPrio(g, rank, minPrio, c, 0) == minPrio
  {
  }

  lemma MaxStep(g: Layers, rank: Layer -> nat, minPrio: int, c: Layer, i: nat)
    requires Acyclic(g, rank) && c in g.depends && i < |g.depends[c]|
    ensures var d, most := g.depends[c][i], MaxPrio(g, rank, minPrio, c, i);
      && d in g.depends && rank(d) < rank(c)
      && MaxPrio(g, rank, minPrio, c, i + 1)
         == if Prio(g, rank, minPrio, d) > most then Prio(g, rank, minPrio, d) else most
  {
  }

  lemma {:induction false} MaxPrioIsMost(g: Layers, rank: Layer -> nat, minPrio: int, c: Layer, n: nat)
    requires Acyclic(g, rank) && c in g.depends && n <= |g.depends[c]|
    ensures var most := MaxPrio(g, rank, minPrio, c, n);
      && most >= minPrio
      && (forall i :: 0 <= i < n ==> most >= Prio(g, rank, minPrio, g.depends[c][i]))
      && (most == minPrio || exists i :: 0 <= i < n && most == Prio(g, rank, minPrio, g.depends[c][i]))
    decreases n
  {
    if n > 0 { MaxPrioIsMost(g, rank, minPrio, c, n - 1); }
  }

  /** What the priorities mean, with no mention of how they are computed. */
  ghost predicate IsPriority(g: Layers, minPrio: int, value: Layer -> int)
    requires g.explicit.Keys == g.depends.Keys
  {
    forall c :: c in g.depends ==>
      if g.explicit[c] !in {None, Some(0)} then g.explicit[c] == Some(value(c))
      else
        && value(c) > minPrio
        && (forall d :: d in g.depends[c] ==> value(c) > value(d))
        && (value(c) == minPrio + 1 || exists d :: d in g.depends[c] && value(c) == value(d) + 1)
  }

  /** An explicit priority of 0 counts as none: it is kept exactly if 0 is what the dependencies make of the layer. */
  lemma ZeroIsRecomputed(g: Layers, minPrio: int, value: Layer -> int, c: Layer)
    requires g.explicit.Keys == g.depends.Keys && IsPriority(g, minPrio, value)
    requires c in g.depends && g.explicit[c] == Some(0)
    ensures value(c) > minPrio
    ensures value(c) == 0 <==>
      && minPrio < 0 && (forall d :: d in g.depends[c] ==> value(d) < 0)
      && (minPrio == -1 || exists d :: d in g.depends[c] && value(d) == -1)
  {
  }

  lemma PrioIsPriority(g: Layers, rank: Layer -> nat, minPrio: int, value: Layer -> int)
    requires Acyclic(g, rank) && forall c :: c in g.depends ==> value(c) == Prio(g, rank, minPrio, c)
    ensures IsPriority(g, minPrio, value)
  {
    forall c | c in g.depends && !Truthy(g.explicit[c])
      ensures value(c) > minPrio
      ensures forall d :: d in g.depends[c] ==> value(c) > value(d)
      ensures value(c) == minPrio + 1 || exists d :: d in g.depends[c] && value(c) == value(d) + 1
    {
      MaxPrioIsMost(g, rank, minPrio, c, |g.depends[c]|);
    }
  }

  /** No other values meet that description. */
  lemma {:induction false} PriorityIsUnique(g: Layers, rank: Layer -> nat, minPrio: int, v: Layer -> int,
      w: Layer -> int, c: Layer)
    requires Acyclic(g, rank) && c in g.depends && IsPriority(g, minPrio, v) && IsPriority(g, minPrio, w)
    ensures v(c) == w(c)
    decreases rank(c)
  {
    forall d | d in g.depends[c] ensures v(d) == w(d) { PriorityIsUnique(g, rank, minPrio, v, w, d); }
  }

  // ---- the code ----

  class Collections {
    const g: Layers
    ghost const rank: Layer -> nat
    var minPrio: int
    var priorities: map<Layer, Option<int>>

    constructor (g: Layers, ghost rank: Layer -> nat)
      ensures this.g == g && this.rank == rank
    {
      this.g, this.rank, minPrio, priorities := g, rank, 0, map[];
    }

    /** Each layer has its explicit priority still, or already its final one. */
    ghost predicate Valid() reads this {
      Acyclic(g, rank) && Memo(g, rank, minPrio, priorities)
    }

    /** The first part of the loop over `collection_list`. */
    method ReadPriorities()
      requires Acyclic(g, rank)
      modifies this
      ensures minPrio == MinPrio(Given(g, g.list))
      ensures IsRead(g, |g.list|, priorities)
    {
      hide Given, MinPrio, IsRead;
      minPrio, priorities := 0, map[];
      ReadNone(g);
      for i := 0 to |g.list|
        invariant minPrio == MinPrio(Given(g, g.list[..i])) && IsRead(g, i, priorities)
      {
        var c := g.list[i];
        GivenSnoc(g, i);
        ReadSnoc(g, i, priorities);
        match g.explicit[c] {
          case Some(prio) =>
            if minPrio == 0 || prio < minPrio { minPrio := prio; }
            priorities := priorities[c := Some(prio)];
          case None =>
            priorities := priorities[c := None];
        }
      }
      assert g.list[..|g.list|] == g.list;
    }

    method CalcLayerPriority(c: Layer)
      requires Valid() && c in g.depends
      modifies this`priorities
      ensures Valid() && c in priorities && priorities[c] == Some(Prio(g, rank, minPrio, c))
      ensures Kept(g, rank, minPrio, old(priorities), priorities)
      decreases rank(c), 1
    {
      if Truthy(priorities[c]) { return; }
      var most := MostOf(c);
      MemoSet(g, rank, minPrio, priorities, c);
      priorities := priorities[c := Some(most + 1)];
    }

    /** The loop over the dependencies of a layer. */
    method MostOf(c: Layer) returns (most: int)
      requires Valid() && c in g.depends && !Truthy(priorities[c])
      modifies this`priorities
      ensures Valid() && most == MaxPrio(g, rank, minPrio, c, |g.depends[c]|)
      ensures Kept(g, rank, minPrio, old(priorities), priorities)
      decreases rank(c), 0
    {
      hide Memo, Kept, Prio, MaxPrio, Acyclic;
      most := minPrio;
      KeptSame(g, rank, minPrio, priorities);
      MaxStart(g, rank, minPrio, c);
      for i := 0 to |g.depends[c]|
        invariant Valid() && most == MaxPrio(g, rank, minPrio, c, i)
        invariant Kept(g, rank, minPrio, old(priorities), priorities)
      {
        MaxStep(g, rank, minPrio, c, i);
        var dep := g.depends[c][i];
        ghost var before := priorities;
        CalcLayerPriority(dep);
        KeptTwice(g, rank, minPrio, old(priorities), before, priorities);
        var p := priorities[dep].value;
        if p > most { most := p; }
      }
    }

    /** Both passes: whatever the order, every layer ends with its priority. */
    method HandleCollections()
      requires Acyclic(g, rank) && forall c :: c in g.depends ==> c in g.list
      modifies this
      ensures minPrio == MinPrio(Given(g, g.list)) && priorities.Keys == g.depends.Keys
      ensures forall c :: c in g.list ==> priorities[c] == Some(Prio(g, rank, minPrio, c))
    {
      hide Prio, Memo, Kept, Given, IsRead, Settled;
      ReadPriorities();
      ReadIsMemo(g, rank, minPrio, priorities);
      for i := 0 to |g.list|
        invariant Valid() && minPrio == MinPrio(Given(g, g.list)) && Settled(g, rank, minPrio, priorities, i)
      {
        ghost var before := priorities;
        CalcLayerPriority(g.list[i]);
        SettledSnoc(g, rank, minPrio, before, priorities, i);
      }
      SettledAll(g, rank, minPrio, priorities);
    }
  }

  /** The first `n` listed layers have their final priority. */
  ghost predicate Settled(g: Layers, rank: Layer -> nat, minPrio: int, priorities: map<Layer, Option<int>>, n: nat)
    requires Acyclic(g, rank) && n <= |g.list|
  {
    forall j :: 0 <= j < n ==>
      var c := g.list[j];
      c in g.depends && c in priorities && priorities[c] == Some(Prio(g, rank, minPrio, c))
  }

  lemma ReadIsMemo(g: Layers, rank: Layer -> nat, minPrio: int, priorities: map<Layer, Option<int>>)
    requires Acyclic(g, rank) && (forall c :: c in g.depends ==> c in g.list) && IsRead(g, |g.list|, priorities)
    ensures Memo(g, rank, minPrio, priorities) && Settled(g, rank, minPrio, priorities, 0)
  {
    assert g.list[..|g.list|] == g.list;
    assert forall c :: c in priorities <==> c in g.depends;
  }

  lemma SettledSnoc(g: Layers, rank: Layer -> nat, minPrio: int, before: map<Layer, Option<int>>,
      after: map<Layer, Option<int>>, i: nat)
    requires Acyclic(g, rank) && i < |g.list|
    requires Settled(g, rank, minPrio, before, i) && Kept(g, rank, minPrio, before, after)
    requires g.list[i] in g.depends && g.list[i] in after && after[g.list[i]] == Some(Prio(g, rank, minPrio, g.list[i]))
    ensures Settled(g, rank, minPrio, after, i + 1)
  {
    hide Prio, Acyclic;
  }

  lemma SettledAll(g: Layers, rank: Layer -> nat, minPrio: int, priorities: map<Layer, Option<int>>)
    requires Acyclic(g, rank) && Memo(g, rank, minPrio, priorities) && Settled(g, rank, minPrio, priorities, |g.list|)
    ensures priorities.Keys == g.depends.Keys
    ensures forall c :: c in g.list ==> c in g.depends && priorities[c] == Some(Prio(g, rank, minPrio, c))
  {
    hide Prio, Acyclic;
  }

  /** The explicit priorities in listing order. */
  function Given(g: Layers, list: seq<Layer>): seq<int>
    requires forall c :: c in list ==> c in g.explicit
  {
    if list == [] then [] else
      Given(g, list[..|list| - 1]) +
        match g.explicit[list[|list| - 1]]
        case Some(prio) => [prio]
        case None => []
  }

  lemma GivenSnoc(g: Layers, i: nat)
    requires i < |g.list| && forall c :: c in g.list ==> c in g.explicit
    ensures var before, after := Given(g, g.list[..i]), Given(g, g.list[..i + 1]);
      match g.explicit[g.list[i]]
      case Some(prio) => after == before + [prio] && MinPrio(after) == MinStep(MinPrio(before), prio)
      case None => after == before
  {
    assert g.list[..i + 1][..i] == g.list[..i];
  }

  /** What the first pass has read of the first `n` listed layers. */
  ghost predicate IsRead(g: Layers, n: nat, priorities: map<Layer, Option<int>>)
    requires n <= |g.list| && forall c :: c in g.list ==> c in g.explicit
  {
    && (forall c :: c in priorities <==> c in g.list[..n])
    && forall c :: c in priorities ==> priorities[c] == g.explicit[c]
  }

  lemma ReadNone(g: Layers)
    requires forall c :: c in g.list ==> c in g.explicit
    ensures IsRead(g, 0, map[]) && MinPrio(Given(g, g.list[..0])) == 0
  {
  }

  lemma ReadSnoc(g: Layers, i: nat, priorities: map<Layer, Option<int>>)
    requires i < |g.list| && (forall c :: c in g.list ==> c in g.explicit) && IsRead(g, i, priorities)
    ensures IsRead(g, i + 1, priorities[g.list[i] := g.explicit[g.list[i]]])
  {
    assert g.list[..i + 1] == g.list[..i] + [g.list[i]];
  }

  ghost predicate Memo(g: Layers, rank: Layer -> nat, minPrio: int, priorities: map<Layer, Option<int>>)
    requires Acyclic(g, rank)
  {
    && priorities.Keys == g.depends.Keys
    && forall c :: c in g.depends ==>
      priorities[c] == Some(Prio(g, rank, minPrio, c)) || (priorities[c] == g.explicit[c] && !Truthy(g.explicit[c]))
  }

  /** A priority once computed is never computed to something else. */
  ghost predicate Kept(g: Layers, rank: Layer -> nat, minPrio: int, before: map<Layer, Option<int>>,
      after: map<Layer, Option<int>>)
    requires Acyclic(g, rank)
  {
    forall c :: c in g.depends && c in before && before[c] == Some(Prio(g, rank, minPrio, c)) ==>
      c in after && after[c] == before[c]
  }

  lemma KeptSame(g: Layers, rank: Layer -> nat, minPrio: int, p: map<Layer, Option<int>>)
    requires Acyclic(g, rank)
    ensures Kept(g, rank, minPrio, p, p)
  {
  }

  lemma KeptTwice(g: Layers, rank: Layer -> nat, minPrio: int, p: map<Layer, Option<int>>,
      q: map<Layer, Option<int>>, r: map<Layer, Option<int>>)
    requires Acyclic(g, rank) && Kept(g, rank, minPrio, p, q) && Kept(g, rank, minPrio, q, r)
    ensures Kept(g, rank, minPrio, p, r)
  {
  }

  lemma MemoSet(g: Layers, rank: Layer -> nat, minPrio: int, p: map<Layer, Option<int>>, c: Layer)
    requires Acyclic(g, rank) && c in g.depends && Memo(g, rank, minPrio, p)
    ensures var q := p[c := Some(Prio(g, rank, minPrio, c))];
      Memo(g, rank, minPrio, q) && Kept(g, rank, minPrio, p, q)
  {
  }
}

/** What updates of the datastore of bitbake/lib/bb/data_smart.py do to the variables, seen from outside. */
module StoreLaws {
  import opened Colons
  import opened Options
  import opened PlainStore

  // ---- what a name means ----

  /** How the override behind the keyword is written. */
  function Suffix(add: Option<string>): string {
    if add.None? then "" else ":" + add.value
  }

  /** The operation is a way to read the name. */
  ghost predicate Reads(name: string, op: Operation) {
    && op.keyword in [":append", ":prepend", ":remove"]
    && name == op.base + op.keyword + Suffix(op.add)
    && (op.add.Some? ==> forall c :: c in op.add.value ==> !('A' <= c <= 'Z'))
  }

  lemma AtReads(name: string, i: nat, keyword: string)
    requires i <= |name| && keyword in [APPEND, PREPEND, REMOVE] && OperationAt(name, i, keyword).Some?
    ensures var op := OperationAt(name, i, keyword).value;
      Reads(name, op) && |op.base| == i && op.keyword == keyword
  {
    var tail, rest := name[i..], name[i + |keyword|..];
    assert tail == keyword + rest && name == name[..i] + tail;
    if rest != "" {
      assert rest == ":" + rest[1..];
    }
  }

  lemma ReadsAt(name: string, op: Operation)
    requires Reads(name, op)
    ensures |op.base| <= |name| && OperationAt(name, |op.base|, op.keyword) == Some(op)
  {
    CutAt(name, op.base, op.keyword, Suffix(op.add));
    if op.add.Some? {
      assert Suffix(op.add)[1..] == op.add.value;
      assert NoUpper(op.add.value) by { assert forall i :: 0 <= i < |op.add.value| ==> op.add.value[i] in op.add.value; }
    }
  }

  lemma CutAt(name: string, a: string, b: string, c: string)
    requires name == a + b + c
    ensures name[..|a|] == a && StartsWith(name[|a|..], b) && name[|a| + |b|..] == c
  {
    assert name[|a|..] == b + c;
  }

  /** A name has one keyword at most at one place: its second letter tells. */
  lemma KeywordAt(name: string, op: Operation)
    requires Reads(name, op)
    ensures var i := |op.base|;
      i + 1 < |name| &&
      op.keyword == match name[i + 1] case 'a' => ":append" case 'p' => ":prepend" case _ => ":remove"
  {
    var i := |op.base|;
    CutAt(name, op.base, op.keyword, Suffix(op.add));
    assert name[i + 1] == name[i..][1] == op.keyword[1];
  }

  lemma OneKeyword(name: string, a: Operation, b: Operation)
    requires Reads(name, a) && Reads(name, b) && |a.base| == |b.base|
    ensures a == b
  {
    KeywordAt(name, a);
    KeywordAt(name, b);
    ReadsAt(name, a);
    ReadsAt(name, b);
  }

  lemma {:induction false} ParsedFrom(name: string, i: nat, op: Operation)
    requires i <= |name| && Reads(name, op) && i <= |op.base|
    requires forall o :: Reads(name, o) && |o.base| >= i ==> |op.base| <= |o.base|
    ensures ParseFrom(name, i) == Some(op)
    decreases |name| - i
  {
    ReadsAt(name, op);
    forall k | k in [APPEND, PREPEND, REMOVE] && OperationAt(name, i, k).Some?
      ensures OperationAt(name, i, k) == Some(op)
    {
      AtReads(name, i, k);
      OneKeyword(name, op, OperationAt(name, i, k).value);
    }
    hide PlainStore.OperationAt, Reads;
    if |op.base| > i { ParsedFrom(name, i + 1, op); }
  }

  lemma {:induction false} ParsedReads(name: string, i: nat)
    requires i <= |name|
    ensures ParseFrom(name, i).Some? ==> Reads(name, ParseFrom(name, i).value)
    decreases |name| - i
  {
    forall k | k in [APPEND, PREPEND, REMOVE] && OperationAt(name, i, k).Some?
      ensures Reads(name, OperationAt(name, i, k).value)
    {
      AtReads(name, i, k);
    }
    hide PlainStore.OperationAt, Reads;
    if i < |name| { ParsedReads(name, i + 1); }
  }

  lemma {:induction false} ReadsParsed(name: string, i: nat, op: Operation)
    requires i <= |name| && Reads(name, op) && |op.base| >= i
    ensures ParseFrom(name, i).Some? && |ParseFrom(name, i).value.base| <= |op.base|
    decreases |name| - i
  {
    ReadsAt(name, op);
    forall k | k in [APPEND, PREPEND, REMOVE] && OperationAt(name, i, k).Some?
      ensures |OperationAt(name, i, k).value.base| == i
    {
      AtReads(name, i, k);
    }
    hide PlainStore.OperationAt;
    if |op.base| > i { ReadsParsed(name, i + 1, op); }
  }

  /**
   A name is an operation exactly if it can be read as one, and then it is the reading with the
   shortest base. With the old syntax in it, it is refused.
   */
  lemma OperationIff(name: string, op: Operation)
    ensures KindOf(name).Refused? <==> OldName(name)
    ensures KindOf(name) == Queued(op) <==>
      !OldName(name) && Reads(name, op) && forall o :: Reads(name, o) ==> |op.base| <= |o.base|
    ensures KindOf(name).Plain? <==> !OldName(name) && forall o :: !Reads(name, o)
  {
    OldNameIff(name);
    ParsedReads(name, 0);
    hide PlainStore.OldSyntax, PlainStore.ParseFrom, OldName, Reads;
    forall o | Reads(name, o) ensures ParseFrom(name, 0).Some? && |ParseFrom(name, 0).value.base| <= |o.base| {
      ReadsParsed(name, 0, o);
    }
    if Reads(name, op) && forall o :: Reads(name, o) ==> |op.base| <= |o.base| { ParsedFrom(name, 0, op); }
  }

  /** The name has the old operation syntax in it, and is not that of an anonymous function. */
  ghost predicate OldName(name: string) {
    && (forall rest :: name != "__anon_" + rest)
    && exists before, word, after :: word in ["_append", "_prepend", "_remove"] && name == before + word + after
  }

  lemma ContainsIff(name: string, part: string)
    ensures Contains(name, part) <==> exists before, after :: name == before + part + after
  {
    if Contains(name, part) {
      var i :| 0 <= i <= |name| && StartsWith(name[i..], part);
      assert name == name[..i] + part + name[i + |part|..];
    }
    if exists before, after :: name == before + part + after {
      var before, after :| name == before + part + after;
      assert name[|before|..] == part + after;
    }
  }

  lemma OldNameIff(name: string)
    ensures OldSyntax(name) <==> OldName(name)
  {
    ContainsIff(name, "_append");
    ContainsIff(name, "_prepend");
    ContainsIff(name, "_remove");
    if StartsWith(name, "__anon_") { assert name == "__anon_" + name[|"__anon_"|..]; }
    if rest :| name == "__anon_" + rest { assert name[..|"__anon_"|] == "__anon_"; }
  }

  /** A deleted variable has no flags left; no other variable changes. */
  lemma DelVarEmpties(s: Store, v: string, w: string)
    ensures FlagsOf(DelVar(s, v), w) == if w == v then map[] else FlagsOf(s, w)
  {
    hide PlainStore.Unindexed;
  }

  /** A flag is set or deleted in its variable; nothing else changes. */
  lemma FlagUpdates(s: Store, v: string, flag: string, val: Value, w: string)
    ensures FlagsOf(Apply(s, SetF(v, flag, val)), w) == if w == v then FlagsOf(s, v)[flag := val] else FlagsOf(s, w)
    ensures FlagsOf(Apply(s, DelF(v, flag)), w) == if w == v then FlagsOf(s, v) - {flag} else FlagsOf(s, w)
  {
    hide PlainStore.Indexed;
  }

  lemma {:induction false} DelVarsEmpties(s: Store, vs: seq<string>, i: nat, w: string)
    requires i <= |vs|
    ensures FlagsOf(DelVars(s, vs, i), w) == if w in vs[..i] then map[] else FlagsOf(s, w)
  {
    hide PlainStore.Unindexed, PlainStore.DelVar;
    if i > 0 {
      DelVarsEmpties(s, vs, i - 1, w);
      DelVarEmpties(DelVars(s, vs, i - 1), vs[i - 1], w);
      assert vs[..i] == vs[..i - 1] + [vs[i - 1]];
    }
  }

  lemma {:induction false} ActiveNamesElem(list: Overrides, overrides: set<string>, w: string)
    ensures w in ActiveNames(list, overrides) <==> exists e :: e in list && e.0 == w && Active(e.1, overrides)
  {
    if list != [] {
      assert list == [list[0]] + list[1..];
      ActiveNamesElem(list[1..], overrides, w);
    }
  }

  /** An override is active exactly if OVERRIDES has it as a whole, or all the parts between its colons. */
  lemma ActiveParts(parts: seq<string>, overrides: set<string>)
    requires parts != [] && forall i :: 0 <= i < |parts| ==> NoColon(parts[i])
    ensures Active(Join(parts), overrides) <==> Join(parts) in overrides || forall p :: p in parts ==> p in overrides
  {
    SplitJoin(parts);
    if |parts| == 1 {
      assert Join(parts) == parts[0] && ':' !in parts[0] && parts[0] in parts;
    } else {
      assert Tail(parts[1..])[0] == ':' && Join(parts)[|parts[0]|] == ':';
    }
    hide Colons.Join, Colons.Split;
  }

  /** A variable that the index knows to override `v`, with an override that is active. */
  ghost predicate ActivelyOverrides(s: Store, v: string, overrides: set<string>, w: string) {
    v in s.index && exists e :: e in s.index[v] && e.0 == w && Active(e.1, overrides)
  }

  /**
   An assignment to a variable sets its text and, outside parsing, drops its pending operations
   and empties exactly the variables that actively override it. Nothing else changes.
   */
  lemma AssignmentSets(s: Store, v: string, value: string, parsing: bool, overrides: set<string>, w: string)
    requires KindOf(v).Plain?
    ensures var s' := Apply(s, Set(v, value, parsing, overrides));
      var emptied := !parsing && ActivelyOverrides(s, v, overrides, w);
      var kept :=
        if emptied then map[]
        else if parsing || w != v then FlagsOf(s, w)
        else FlagsOf(s, w) - {APPEND, PREPEND, REMOVE};
      FlagsOf(s', w) == if w == v then kept["_content" := Text(value)] else kept
  {
    hide KindOf, PlainStore.Indexed;
    if !parsing && v in s.index {
      var s1 := s.(vars := s.vars[v := FlagsOf(s, v)]);
      var s2 := s1.(vars := s1.vars[v := FlagsOf(s1, v) - {APPEND, PREPEND, REMOVE}]);
      var active := ActiveNames(s2.index[v], overrides);
      DelVarsEmpties(s2, active, |active|, w);
      ActiveNamesElem(s2.index[v], overrides, w);
      assert active[..|active|] == active;
    }
  }

  /** `VAR:append = x` queues behind what is queued already, and changes no other flag or variable. */
  lemma OperationQueues(s: Store, v: string, value: string, parsing: bool, overrides: set<string>, w: string,
      flag: string)
    requires KindOf(v).Queued?
    ensures var op, s' := KindOf(v).op, Apply(s, Set(v, value, parsing, overrides));
      && OpsOf(FlagsOf(s', op.base), op.keyword) == OpsOf(FlagsOf(s, op.base), op.keyword) + [(value, op.add)]
      && (w != op.base || flag != op.keyword ==>
        (flag in FlagsOf(s', w) <==> flag in FlagsOf(s, w)) &&
        (flag in FlagsOf(s, w) ==> FlagsOf(s', w)[flag] == FlagsOf(s, w)[flag]))
  {
    hide KindOf, PlainStore.Indexed;
  }

  /** A run applies its updates one after the other. */
  lemma {:induction false} RunsInOrder(s: Store, us: seq<Update>, more: seq<Update>)
    ensures ApplyAll(s, us + more) == ApplyAll(ApplyAll(s, us), more)
    ensures forall u :: ApplyAll(s, [u]) == Apply(s, u)
    decreases |more|
  {
    hide PlainStore.Apply;
    forall u ensures ApplyAll(s, [u]) == Apply(s, u) { assert ApplyAll(s, [u][..0]) == s; }
    if more == [] {
      assert us + more == us;
    } else {
      RunsInOrder(s, us, more[..|more| - 1]);
      assert (us + more)[..|us + more| - 1] == us + more[..|more| - 1];
    }
  }

  /** No operation keyword is in the name. */
  ghost predicate NoKeyword(name: string) {
    forall i, j :: 0 <= i <= j <= |name| ==> name[i..j] !in [":append", ":prepend", ":remove"]
  }

  lemma ColonsOfKeyword(word: string)
    requires word in [":append", ":prepend", ":remove"]
    ensures word[0] == ':' && forall i :: 1 <= i < |word| ==> word[i] != ':'
  {
  }

  /** A base without a keyword is the shortest. */
  lemma ShortestBase(op: Operation, name: string, o: Operation)
    requires Reads(name, op) && Reads(name, o) && NoKeyword(op.base)
    ensures |op.base| <= |o.base|
  {
    CutAt(name, op.base, op.keyword, Suffix(op.add));
    CutAt(name, o.base, o.keyword, Suffix(o.add));
    ColonsOfKeyword(op.keyword);
    ColonsOfKeyword(o.keyword);
    hide Suffix;
    NoKeywordBefore(name, op.base, op.keyword, |o.base|, o.keyword);
  }

  /** A keyword does not begin in such a base, and one that begins there does not reach into the next. */
  lemma NoKeywordBefore(name: string, base: string, keyword: string, i: nat, word: string)
    requires |base| <= |name| && name[..|base|] == base && NoKeyword(base)
    requires StartsWith(name[|base|..], keyword) && keyword != "" && keyword[0] == ':'
    requires word in [":append", ":prepend", ":remove"] && forall k :: 1 <= k < |word| ==> word[k] != ':'
    ensures i < |base| ==> !StartsWith(name[i..], word)
  {
    var n := |base|;
    if i < n {
      var tail := name[i..];
      assert name[n] == name[n..][..|keyword|][0] == ':' && tail[n - i] == name[n];
      if i + |word| <= n {
        assert base[i..i + |word|] == tail[..|word|];
      } else if |word| <= |tail| {
        assert tail[..|word|][n - i] == ':' != word[n - i];
      }
    }
  }

  /** So `VAR:append:o = x` queues the value for VAR, with the override behind the keyword if there is one. */
  lemma QueuesOverride(s: Store, op: Operation, value: string, parsing: bool, overrides: set<string>)
    requires NoKeyword(op.base) && Reads(op.base + op.keyword + Suffix(op.add), op)
    requires !OldName(op.base + op.keyword + Suffix(op.add))
    ensures var s' := Apply(s, Set(op.base + op.keyword + Suffix(op.add), value, parsing, overrides));
      OpsOf(FlagsOf(s', op.base), op.keyword) == OpsOf(FlagsOf(s, op.base), op.keyword) + [(value, op.add)]
  {
    var name := op.base + op.keyword + Suffix(op.add);
    forall o | Reads(name, o) ensures |op.base| <= |o.base| { ShortestBase(op, name, o); }
    OperationIff(name, op);
    hide Reads, OldName, NoKeyword;
    OperationQueues(s, name, value, parsing, overrides, op.base, op.keyword);
  }

  lemma AddStays(index: map<string, Overrides>, name: string, r: int, k: string, e: (string, string))
    requires -1 <= r < |name| && k in index && e in index[k]
    ensures k in IndexAdd(index, name, r) && e in IndexAdd(index, name, r)[k]
  {
    hide PlainStore.Base, PlainStore.Override;
  }

  /** `f(n)` is the index after the first `n` cuts. */
  ghost predicate Steps(f: nat -> map<string, Overrides>, name: string, cuts: seq<int>) {
    AreCuts(name, cuts) && forall n {:trigger cuts[n]} :: 0 <= n < |cuts| ==> f(n + 1) == IndexAdd(f(n), name, cuts[n])
  }

  /** An entry that is there after some of the cuts is there after all. */
  lemma {:induction false} EntryStays(f: nat -> map<string, Overrides>, name: string, cuts: seq<int>, i: nat, j: nat,
      k: string, e: (string, string))
    requires Steps(f, name, cuts) && i <= j <= |cuts| && k in f(i) && e in f(i)[k]
    ensures k in f(j) && e in f(j)[k]
    decreases j
  {
    hide PlainStore.IndexAdd;
    if i < j {
      EntryStays(f, name, cuts, i, j - 1, k, e);
      AddStays(f(j - 1), name, cuts[j - 1], k, e);
    }
  }

  ghost function IndexAfter(index: map<string, Overrides>, name: string, cuts: seq<int>): nat -> map<string, Overrides>
    requires AreCuts(name, cuts)
  {
    (n: nat) => if n <= |cuts| then IndexAddAll(index, name, cuts, n) else index
  }

  lemma OneCut(index: map<string, Overrides>, name: string, cuts: seq<int>, n: nat)
    requires AreCuts(name, cuts) && n < |cuts|
    ensures IndexAddAll(index, name, cuts, n + 1) == IndexAdd(IndexAddAll(index, name, cuts, n), name, cuts[n])
  {
    hide PlainStore.IndexAdd;
  }

  lemma StepsOf(index: map<string, Overrides>, name: string, cuts: seq<int>)
    requires AreCuts(name, cuts)
    ensures var f := IndexAfter(index, name, cuts);
      Steps(f, name, cuts) && f(0) == index && f(|cuts|) == IndexAddAll(index, name, cuts, |cuts|)
  {
    var f := IndexAfter(index, name, cuts);
    assert f(0) == index;
    hide PlainStore.IndexAdd, PlainStore.IndexAddAll;
    forall n | 0 <= n < |cuts| ensures f(n + 1) == IndexAdd(f(n), name, cuts[n]) { OneCut(index, name, cuts, n); }
  }

  lemma AddsEntry(index: map<string, Overrides>, name: string, r: int)
    requires -1 <= r < |name|
    ensures var after := IndexAdd(index, name, r); Base(name, r) in after && (name, Override(name, r)) in after[Base(name, r)]
  {
    hide PlainStore.Base, PlainStore.Override;
  }

  lemma AllCutsStay(index: map<string, Overrides>, name: string, cuts: seq<int>, k: string, e: (string, string))
    requires AreCuts(name, cuts) && cuts != []
    requires (k in index && e in index[k]) || (k == Base(name, cuts[0]) && e == (name, Override(name, cuts[0])))
    ensures var after := IndexAddAll(index, name, cuts, |cuts|); k in after && e in after[k]
  {
    StepsOf(index, name, cuts);
    hide IndexAfter, PlainStore.IndexAddAll, PlainStore.IndexAdd, PlainStore.Base, PlainStore.Override;
    var f := IndexAfter(index, name, cuts);
    if k in index && e in index[k] {
      EntryStays(f, name, cuts, 0, |cuts|, k, e);
    } else {
      AddsEntry(index, name, cuts[0]);
      assert f(0 + 1) == IndexAdd(f(0), name, cuts[0]);
      EntryStays(f, name, cuts, 1, |cuts|, k, e);
    }
  }

  /** Indexing a name forgets no entry, and adds it under its longest base. */
  lemma IndexedUnderBase(index: map<string, Overrides>, base: string, o: string)
    requires ':' !in o && OverrideLike(o, 0)
    ensures var after := Indexed(index, base + ":" + o);
      && base in after && (base + ":" + o, o) in after[base]
      && forall k, e :: k in index && e in index[k] ==> k in after && e in after[k]
  {
    var name := base + ":" + o;
    CutsAreCuts(name);
    LastColon(base, o, |name|);
    var cuts := Cuts(name);
    assert cuts[0] == |base| && name[..|base|] == base && name[|base| + 1..] == o;
    hide PlainStore.IndexAdd, PlainStore.IndexAddAll, PlainStore.Cuts;
    AllCutsStay(index, name, cuts, base, (name, o));
    forall k, e | k in index && e in index[k] ensures k in Indexed(index, name) && e in Indexed(index, name)[k] {
      AllCutsStay(index, name, cuts, k, e);
    }
  }

  lemma {:induction false} LastColon(base: string, o: string, n: nat)
    requires ':' !in o && |base| < n <= |base + ":" + o|
    ensures RFind(base + ":" + o, n) == |base|
  {
    var name := base + ":" + o;
    if n > |base| + 1 {
      assert name[n - 1] == o[n - 2 - |base|];
      LastColon(base, o, n - 1);
    }
  }
}

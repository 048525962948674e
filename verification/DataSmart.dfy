/**
 bitbake/lib/bb/data_smart.py: the copy-on-write datastore. Copies share their ancestors'
 dictionaries through a link and their override lists by reference.
 */
module DataStore {
  import opened Lists
  import opened Options
  import opened PlainStore

  /** The dictionary of flags of one variable. */
  class Flags {
    var m: FlagMap

    constructor (m: FlagMap)
      ensures this.m == m
    {
      this.m := m;
    }
  }

  /** One override list; shared between copies, so it must never be changed once published. */
  class OverrideList {
    var items: Overrides

    constructor (items: Overrides)
      ensures this.items == items
    {
      this.items := items;
    }
  }

  /** `DataSmart.dict`: the variables set here, and the link `_data` to the dictionary copied from. */
  class Layer {
    var vars: map<string, Flags>
    const parent: Layer?
    /** The objects that belong to this layer alone, and those of the ancestors with them. */
    ghost var Own: set<object>
    ghost var Repr: set<object>

    ghost predicate Valid()
      reads this, Repr
      decreases Repr
    {
      && this in Own && Own <= Repr
      && (forall v :: v in vars ==> vars[v] in Own)
      && (forall v, w :: v in vars && w in vars && v != w ==> vars[v] != vars[w])
      && (parent != null ==>
            parent in Repr && parent.Repr <= Repr && Own !! parent.Repr && parent.Valid())
    }

    /** What `_findVar` sees: the nearest layer that has the variable. */
    ghost function Lookup(v: string): Option<FlagMap>
      requires Valid()
      reads this, Repr
      decreases Repr
    {
      if v in vars then Some(vars[v].m) else if parent == null then None else parent.Lookup(v)
    }

    /** The layer and its ancestors together hold exactly the variables of `m`. */
    ghost predicate Holds(m: map<string, FlagMap>)
      requires Valid()
      reads this, Repr
    {
      forall v :: Lookup(v) == if v in m then Some(m[v]) else None
    }

    constructor (parent: Layer?, ghost m: map<string, FlagMap>)
      requires if parent == null then m == map[] else parent.Valid() && parent.Holds(m)
      ensures Valid() && Holds(m) && this.parent == parent
      ensures fresh(Own) && Repr == Own + if parent == null then {} else parent.Repr
    {
      this.parent, vars := parent, map[];
      Own := {this};
      Repr := {this} + if parent == null then {} else parent.Repr;
    }

    /** `_findVar`. */
    method Find(v: string) returns (r: Flags?)
      requires Valid()
      ensures r != null <==> Lookup(v).Some?
      ensures r != null ==> r in Repr && r.m == Lookup(v).value
    {
      var dest: Layer? := this;
      while dest != null
        invariant dest != null ==> dest in Repr && dest.Repr <= Repr && dest.Valid()
        invariant Lookup(v) == if dest == null then None else dest.Lookup(v)
        decreases if dest == null then {} else dest.Repr
      {
        if v in dest.vars {
          return dest.vars[v];
        }
        dest := dest.parent;
      }
      r := null;
    }

    /** The entry of a variable becomes a fresh dictionary: nothing but this layer changes. */
    method Put(v: string, m: FlagMap, ghost all: map<string, FlagMap>)
      requires Valid() && Holds(all)
      modifies this
      ensures Valid() && Holds(all[v := m]) && v in vars
      ensures Own > old(Own) && fresh(Own - old(Own)) && Repr == old(Repr) + Own
    {
      var f := new Flags(m);
      vars := vars[v := f];
      Own := Own + {f};
      Repr := Repr + {f};
      assert forall w :: Lookup(w) == if w == v then Some(m) else old(Lookup(w));
    }

    /** `_makeShadowCopy`, when the variable is not set in this layer. */
    method MakeShadowCopy(v: string, ghost all: map<string, FlagMap>)
      requires Valid() && Holds(all)
      modifies this
      ensures Valid() && Holds(all[v := if v in all then all[v] else map[]]) && v in vars
      ensures Own >= old(Own) && fresh(Own - old(Own)) && Repr == old(Repr) + Own
    {
      if v in vars {
        assert Lookup(v) == Some(all[v]);
        assert all[v := all[v]] == all;
        return;
      }
      var local := Find(v);
      if local != null && local.m != map[] {
        Put(v, local.m, all);
      } else {
        Put(v, map[], all);
      }
    }

    /** The entry of a variable is changed in place. */
    method Write(v: string, m: FlagMap, ghost all: map<string, FlagMap>)
      requires Valid() && Holds(all) && v in vars
      modifies vars[v]
      ensures Valid() && Holds(all[v := m])
    {
      vars[v].m := m;
      assert forall w :: Lookup(w) == if w == v then Some(m) else old(Lookup(w));
    }

    method SetFlag(v: string, flag: string, value: Value, ghost all: map<string, FlagMap>)
      requires Valid() && Holds(all)
      modifies Own
      ensures Valid() && Holds(all[v := (if v in all then all[v] else map[])[flag := value]])
      ensures Own >= old(Own) && fresh(Own - old(Own)) && Repr == old(Repr) + Own
    {
      ghost var flags := if v in all then all[v] else map[];
      MakeShadowCopy(v, all);
      assert Lookup(v) == Some(flags);
      Write(v, vars[v].m[flag := value], all[v := flags]);
      assert all[v := flags][v := flags[flag := value]] == all[v := flags[flag := value]];
    }

    /** Drop some flags of a variable that is set in this layer or shadowed into it. */
    method DropFlags(v: string, flags: set<string>, ghost all: map<string, FlagMap>)
      requires Valid() && Holds(all)
      modifies Own
      ensures Valid() && Holds(all[v := (if v in all then all[v] else map[]) - flags])
      ensures Own >= old(Own) && fresh(Own - old(Own)) && Repr == old(Repr) + Own
    {
      ghost var had := if v in all then all[v] else map[];
      MakeShadowCopy(v, all);
      assert Lookup(v) == Some(had);
      Write(v, vars[v].m - flags, all[v := had]);
      assert all[v := had][v := had - flags] == all[v := had - flags];
    }

    method DelFlag(v: string, flag: string, ghost all: map<string, FlagMap>)
      requires Valid() && Holds(all)
      modifies Own
      ensures Valid() && Holds(if v in all then all[v := all[v] - {flag}] else all)
      ensures Own >= old(Own) && fresh(Own - old(Own)) && Repr == old(Repr) + Own
    {
      var local := Find(v);
      if local == null || local.m == map[] {
        if v in all {
          assert Lookup(v) == Some(all[v]) && all[v] - {flag} == all[v];
          assert all[v := all[v]] == all;
        }
        return;
      }
      MakeShadowCopy(v, all);
      assert all[v := all[v]] == all;
      assert Lookup(v) == Some(all[v]);
      if flag in vars[v].m {
        Write(v, vars[v].m - {flag}, all);
      } else {
        assert all[v] - {flag} == all[v];
        assert all[v := all[v] - {flag}] == all;
      }
    }
  }

  /** What the colon loop still has to visit, from a cut at `r` on. */
  ghost function Rest(name: string, r: int, going: bool): seq<int>
    requires going ==> -1 <= r < |name|
  {
    if !going then [] else [r] + if r < 0 then [] else CutsBelow(name, r)
  }

  lemma CutsStart(name: string)
    ensures var r := RFind(name, |name|);
      var going := OverrideLike(name, r + 1);
      (going ==> r < |name|) && Cuts(name) == [] + Rest(name, r, going)
  {
    hide CutsBelow, RFind, OverrideLike;
    assert [] + Cuts(name) == Cuts(name);
  }

  lemma RestStep(done: seq<int>, name: string, r: int)
    requires 0 <= r < |name|
    ensures var next := RFind(name, r);
      done + Rest(name, r, true) ==
      done + [r] + if next > 0 then Rest(name, next, OverrideLike(name, next + 1)) else []
  {
    assert forall t: seq<int> :: done + ([r] + t) == done + [r] + t;
  }

  /** `DataSmart.overridedata`: per base name, the list of overriding variables. */
  class OverrideIndex {
    var lists: map<string, OverrideList>

    ghost predicate Holds(index: map<string, Overrides>)
      reads this, lists.Values
    {
      lists.Keys == index.Keys && forall k :: k in index ==> lists[k].items == index[k]
    }

    /** Every list that was not there before is new. */
    twostate predicate Fresh()
      reads this
    {
      fresh(lists.Values - old(lists.Values))
    }

    constructor (lists: map<string, OverrideList>)
      ensures this.lists == lists
    {
      this.lists := lists;
    }

    /** The colon loop of `_setvar_update_overrides` and of `delVar`. */
    method FindCuts(name: string) returns (cuts: seq<int>)
      ensures cuts == Cuts(name) && AreCuts(name, cuts)
    {
      CutsAreCuts(name);
      CutsStart(name);
      hide PlainStore.Cuts, PlainStore.CutsBelow, PlainStore.RFind, PlainStore.AreCuts, PlainStore.OverrideLike;
      var r := RFind(name, |name|);
      var going := OverrideLike(name, r + 1);
      cuts := [];
      while going
        invariant -1 <= r && (going ==> r < |name|)
        invariant Cuts(name) == cuts + Rest(name, r, going)
        decreases if going then r + 2 else 0
      {
        if r >= 0 {
          RestStep(cuts, name, r);
        }
        cuts := cuts + [r];
        going := false;
        if r >= 0 {
          var next := RFind(name, r);
          if next > 0 {
            r := next;
            going := OverrideLike(name, r + 1);
          }
        }
      }
    }

    method Add(name: string, r: int, ghost index: map<string, Overrides>)
      requires Holds(index) && -1 <= r < |name|
      modifies this
      ensures Holds(IndexAdd(index, name, r)) && Fresh()
    {
      hide PlainStore.Base, PlainStore.Override;
      var base, o := Base(name, r), Override(name, r);
      if base !in lists {
        var empty := new OverrideList([]);
        lists := lists[base := empty];
      }
      if (name, o) !in lists[base].items {
        var list := new OverrideList(lists[base].items);
        lists := lists[base := list];
        list.items := list.items + [(name, o)];
      }
    }

    /** `_setvar_update_overrides`. */
    method AddAll(name: string, ghost index: map<string, Overrides>)
      requires Holds(index)
      modifies this
      ensures Holds(Indexed(index, name)) && Fresh()
    {
      hide IndexAdd, IndexRemove;
      var cuts := FindCuts(name);
      for i := 0 to |cuts|
        invariant Holds(IndexAddAll(index, name, cuts, i)) && Fresh()
      {
        Add(name, cuts[i], IndexAddAll(index, name, cuts, i));
      }
    }

    method Remove(name: string, r: int, ghost index: map<string, Overrides>)
      requires Holds(index) && -1 <= r < |name|
      modifies this
      ensures Holds(IndexRemove(index, name, r)) && Fresh()
    {
      var base, o := Base(name, r), Override(name, r);
      if base in lists {
        var list := new OverrideList(lists[base].items);
        lists := lists[base := list];
        list.items := RemoveFirst(list.items, (name, o));
      }
    }

    /** The colon loop of `delVar`. */
    method RemoveAll(name: string, ghost index: map<string, Overrides>)
      requires Holds(index)
      modifies this
      ensures Holds(Unindexed(index, name)) && Fresh()
    {
      hide IndexAdd, IndexRemove;
      var cuts := FindCuts(name);
      for i := 0 to |cuts|
        invariant Holds(IndexRemoveAll(index, name, cuts, i)) && Fresh()
      {
        Remove(name, cuts[i], IndexRemoveAll(index, name, cuts, i));
      }
    }

    method Drop(base: string, ghost index: map<string, Overrides>)
      requires Holds(index)
      modifies this
      ensures Holds(index - {base}) && Fresh()
    {
      lists := lists - {base};
    }

    /** The index part of `delVar`. */
    method Forget(v: string, ghost index: map<string, Overrides>)
      requires Holds(index)
      modifies this
      ensures Holds(PlainStore.DelVar(Store(map[], index), v).index) && Fresh()
    {
      Drop(v, index);
      if ':' in v {
        RemoveAll(v, index - {v});
      }
    }
  }

  class DataSmart {
    const dict: Layer
    const index: OverrideIndex

    ghost predicate Valid()
      reads dict, dict.Repr, index
    {
      dict.Valid() && index !in dict.Repr && index.lists.Values !! dict.Repr
    }

    /** The linked store means the plain store `s`. */
    ghost predicate Holds(s: Store)
      requires Valid()
      reads dict, dict.Repr, index, index.lists.Values
    {
      dict.Holds(s.vars) && index.Holds(s.index)
    }

    /** Everything an update may write: the store's own layer and index, and no override list at all. */
    ghost function Mine(): set<object>
      reads dict
    {
      {index} + dict.Own
    }

    /** Everything a lookup may read. */
    ghost function Footprint(): set<object>
      reads dict, index
    {
      {index} + dict.Repr + index.lists.Values
    }

    /** Only new objects come under the store. */
    twostate predicate Kept()
      reads dict, index
    {
      && old(dict.Own) <= dict.Own && fresh(dict.Own - old(dict.Own))
      && dict.Repr == old(dict.Repr) + dict.Own && index.Fresh()
    }

    constructor ()
      ensures Valid() && Holds(Store(map[], map[])) && fresh(Mine())
    {
      dict := new Layer(null, map[]);
      index := new OverrideIndex(map[]);
    }

    /** The second half of `createCopy`. */
    constructor Linked(parent: Layer, lists: map<string, OverrideList>, ghost m: map<string, FlagMap>)
      requires parent.Valid() && parent.Holds(m) && lists.Values !! parent.Repr
      ensures Valid() && dict.Holds(m) && index.lists == lists
      ensures fresh(Mine()) && dict.Repr == dict.Own + parent.Repr
    {
      dict := new Layer(parent, m);
      index := new OverrideIndex(lists);
    }

    /** `createCopy`: link to the dictionary, share the override lists. */
    method CreateCopy(ghost s: Store) returns (d: DataSmart)
      requires Valid() && Holds(s)
      ensures d.Valid() && d.Holds(s) && fresh(d.Mine()) && d.Footprint() <= d.Mine() + Footprint()
    {
      d := new DataSmart.Linked(dict, index.lists, s.vars);
    }

    // ---- updates ----

    method SetVarFlag(v: string, flag: string, value: Value, ghost s: Store)
      requires Valid() && Holds(s)
      modifies Mine()
      ensures Valid() && Kept() && Holds(PlainStore.SetFlag(s, v, flag, value))
    {
      dict.SetFlag(v, flag, value, s.vars);
      if flag == "_defaultval" && ':' in v {
        index.AddAll(v, s.index);
      }
    }

    method DelVarFlag(v: string, flag: string, ghost s: Store)
      requires Valid() && Holds(s)
      modifies Mine()
      ensures Valid() && Kept() && Holds(PlainStore.DelFlag(s, v, flag))
    {
      dict.DelFlag(v, flag, s.vars);
    }

    method DelVar(v: string, ghost s: Store)
      requires Valid() && Holds(s)
      modifies Mine()
      ensures Valid() && Kept() && Holds(PlainStore.DelVar(s, v))
    {
      dict.Put(v, map[], s.vars);
      index.Forget(v, s.index);
    }

    method DelVars(vs: seq<string>, ghost s: Store)
      requires Valid() && Holds(s)
      modifies Mine()
      ensures Valid() && Kept() && Holds(PlainStore.DelVars(s, vs, |vs|))
    {
      hide PlainStore.DelVar, Layer.Holds, OverrideIndex.Holds;
      for i := 0 to |vs|
        invariant Valid() && Kept() && Holds(PlainStore.DelVars(s, vs, i))
      {
        DelVar(vs[i], PlainStore.DelVars(s, vs, i));
      }
    }

    /** The part of `setVar` that is skipped while parsing. */
    method Overwrite(v: string, overrides: set<string>, ghost s: Store)
      requires Valid() && Holds(s)
      modifies Mine()
      ensures Valid() && Kept() && Holds(PlainStore.Overwrite(s, v, overrides))
    {
      dict.DropFlags(v, {APPEND, PREPEND, REMOVE}, s.vars);
      ghost var s1 := s.(vars := s.vars[v := FlagsOf(s, v) - {APPEND, PREPEND, REMOVE}]);
      assert Valid() && Kept() && Holds(s1);
      if v in index.lists {
        DropActive(v, overrides, s1);
      }
    }

    method DropActive(v: string, overrides: set<string>, ghost s: Store)
      requires Valid() && Holds(s) && v in index.lists
      modifies Mine()
      ensures Valid() && Kept()
      ensures var active := ActiveNames(s.index[v], overrides);
        var s' := PlainStore.DelVars(s, active, |active|);
        Holds(s'.(index := s'.index - {v}))
    {
      hide PlainStore.DelVar, PlainStore.DelVars, PlainStore.ActiveNames, Layer.Valid, Layer.Holds, OverrideIndex.Holds;
      var active := ActiveOf(v, overrides, s);
      DelVars(active, s);
      DropList(v, PlainStore.DelVars(s, active, |active|));
    }

    method ActiveOf(v: string, overrides: set<string>, ghost s: Store) returns (active: seq<string>)
      requires Valid() && Holds(s) && v in index.lists
      ensures v in s.index && active == ActiveNames(s.index[v], overrides)
    {
      active := ActiveNames(index.lists[v].items, overrides);
    }

    /** The index entry of a variable is deleted. */
    method DropList(v: string, ghost s: Store)
      requires Valid() && Holds(s)
      modifies index
      ensures Valid() && Kept() && Holds(s.(index := s.index - {v}))
    {
      assert dict.Own <= dict.Repr;
      hide Layer.Valid, Layer.Holds, OverrideIndex.Holds;
      index.Drop(v, s.index);
    }

    /** `_setvar_update_overrides` of this store. */
    method UpdateIndex(v: string, ghost s: Store)
      requires Valid() && Holds(s)
      modifies index
      ensures Valid() && Kept() && Holds(UpdateOverrides(s, v))
    {
      assert dict.Own <= dict.Repr;
      hide Layer.Valid, Layer.Holds, OverrideIndex.Holds, PlainStore.Indexed;
      index.AddAll(v, s.index);
    }

    /** An assignment `VAR:append = ...`: the operation is queued on the base variable. */
    method Queue(op: Operation, value: string, ghost s: Store)
      requires Valid() && Holds(s)
      modifies Mine()
      ensures Valid() && Kept() && Holds(PlainStore.Queue(s, op, value))
    {
      hide PlainStore.Indexed, PlainStore.OpsOf, PlainStore.SetFlag, Layer.Valid, OverrideIndex.Holds;
      var local := dict.Find(op.base);
      var flags := if local == null then map[] else local.m;
      var l := OpsOf(flags, op.keyword) + [(value, op.add)];
      assert flags == FlagsOf(s, op.base);
      hide Layer.Holds;
      SetVarFlag(op.base, op.keyword, Ops(l), s);
      UpdateIndex(op.base, PlainStore.SetFlag(s, op.base, op.keyword, Ops(l)));
    }

    /** An assignment to the variable itself. */
    method Assign(v: string, value: string, parsing: bool, overrides: set<string>, ghost s: Store)
      requires Valid() && Holds(s)
      modifies Mine()
      ensures Valid() && Kept() && Holds(PlainStore.Assign(s, v, value, parsing, overrides))
    {
      hide PlainStore.Overwrite, PlainStore.Indexed, Layer.Holds, OverrideIndex.Holds;
      Prepare(v, s);
      ghost var s1 := s.(vars := s.vars[v := FlagsOf(s, v)]);
      ghost var s2 := s1;
      if !parsing {
        Overwrite(v, overrides, s1);
        s2 := PlainStore.Overwrite(s1, v, overrides);
      }
      SetContent(v, value, s2);
    }

    method Prepare(v: string, ghost s: Store)
      requires Valid() && Holds(s)
      modifies Mine()
      ensures Valid() && Kept() && Holds(s.(vars := s.vars[v := FlagsOf(s, v)]))
    {
      dict.MakeShadowCopy(v, s.vars);
    }

    method SetContent(v: string, value: string, ghost s: Store)
      requires Valid() && Holds(s)
      modifies Mine()
      ensures var s' := if ':' in v then UpdateOverrides(s, v) else s;
        Valid() && Kept() && Holds(s'.(vars := s'.vars[v := FlagsOf(s', v)["_content" := Text(value)]]))
    {
      if ':' in v {
        index.AddAll(v, s.index);
      }
      dict.SetFlag(v, "_content", Text(value), s.vars);
    }

    /** `setVar`; a refused name stands for `bb.fatal`. `overrides` is `overridesset`. */
    method SetVar(v: string, kind: NameKind, value: string, parsing: bool, overrides: set<string>, ghost s: Store)
      requires Valid() && Holds(s)
      modifies Mine()
      ensures Valid() && Kept() && Holds(PlainStore.SetVar(s, v, kind, value, parsing, overrides))
    {
      match kind
      case Refused =>
      case Queued(op) => Queue(op, value, s);
      case Plain => Assign(v, value, parsing, overrides, s);
    }

    // ---- runs ----

    method Update(u: Update, ghost s: Store)
      requires Valid() && Holds(s)
      modifies Mine()
      ensures Valid() && Kept() && Holds(Apply(s, u))
    {
      match u
      case Set(v, value, parsing, overrides) => SetVar(v, KindOf(v), value, parsing, overrides, s);
      case SetF(v, flag, val) => SetVarFlag(v, flag, val, s);
      case DelF(v, flag) => DelVarFlag(v, flag, s);
      case Del(v) => DelVar(v, s);
    }

    method Run(us: seq<Update>, ghost s: Store)
      requires Valid() && Holds(s)
      modifies Mine()
      ensures Valid() && Kept() && Holds(ApplyAll(s, us))
    {
      for i := 0 to |us|
        invariant Valid() && Kept() && Holds(ApplyAll(s, us[..i]))
      {
        Update(us[i], ApplyAll(s, us[..i]));
        assert us[..i + 1][..i] == us[..i];
      }
      assert us[..|us|] == us;
    }

    /** `getVarFlag` without expansion, for a flag other than `_content`. */
    method GetVarFlag(v: string, flag: string, ghost s: Store) returns (r: Option<Value>)
      requires Valid() && Holds(s)
      ensures r == if flag in FlagsOf(s, v) then Some(FlagsOf(s, v)[flag]) else None
    {
      var local := dict.Find(v);
      if local != null && flag in local.m {
        return Some(local.m[flag]);
      }
      return None;
    }
  }

  /**
   A copy that receives any updates holds what an eager copy would hold, and nothing that
   existed before changes: the method has no `modifies` clause.
   */
  method CopyAndUpdate(parent: DataSmart, us: seq<Update>, ghost s: Store) returns (copy: DataSmart)
    requires parent.Valid() && parent.Holds(s)
    ensures copy.Valid() && copy.Holds(ApplyAll(s, us)) && fresh(copy.Mine())
    ensures parent.Valid() && parent.Holds(s)
  {
    copy := parent.CreateCopy(s);
    copy.Run(us, s);
  }

  /** The updates addressed to one of two copies. */
  function Of(us: seq<(bool, Update)>, first: bool): seq<Update> {
    if us == [] then []
    else Of(us[..|us| - 1], first) + if us[|us| - 1].0 == first then [us[|us| - 1].1] else []
  }

  lemma OfStep(us: seq<(bool, Update)>, i: nat, s: Store, first: bool)
    requires i < |us|
    ensures ApplyAll(s, Of(us[..i + 1], first)) ==
      if us[i].0 == first then Apply(ApplyAll(s, Of(us[..i], first)), us[i].1)
      else ApplyAll(s, Of(us[..i], first))
  {
    assert us[..i + 1][..i] == us[..i];
    var before := Of(us[..i], first);
    if us[i].0 == first {
      assert (before + [us[i].1])[..|before|] == before;
    } else {
      assert before + [] == before;
    }
  }

  /** Neither store can write what the other reads. */
  ghost predicate Apart(a: DataSmart, b: DataSmart)
    reads a.dict, a.index, b.dict, b.index
  {
    a.Mine() !! b.Footprint() && b.Mine() !! a.Footprint()
  }

  method UpdateBeside(a: DataSmart, b: DataSmart, u: Update, ghost s: Store, ghost t: Store)
    requires a.Valid() && a.Holds(s) && b.Valid() && b.Holds(t) && Apart(a, b)
    modifies a.Mine()
    ensures a.Valid() && a.Holds(Apply(s, u)) && b.Valid() && b.Holds(t) && Apart(a, b)
    ensures fresh(a.Mine() - old(a.Mine())) && b.Mine() == old(b.Mine())
  {
    hide PlainStore.Apply;
    a.Update(u, s);
  }

  method RunBoth(a: DataSmart, b: DataSmart, us: seq<(bool, Update)>, ghost s: Store)
    requires a.Valid() && b.Valid() && a.Holds(s) && b.Holds(s) && Apart(a, b)
    modifies a.Mine(), b.Mine()
    ensures a.Valid() && a.Holds(ApplyAll(s, Of(us, true)))
    ensures b.Valid() && b.Holds(ApplyAll(s, Of(us, false)))
  {
    hide Apply;
    for i := 0 to |us|
      invariant a.Valid() && b.Valid() && Apart(a, b)
      invariant fresh(a.Mine() - old(a.Mine())) && fresh(b.Mine() - old(b.Mine()))
      invariant a.Holds(ApplyAll(s, Of(us[..i], true)))
      invariant b.Holds(ApplyAll(s, Of(us[..i], false)))
    {
      OfStep(us, i, s, true);
      OfStep(us, i, s, false);
      ghost var sa, sb := ApplyAll(s, Of(us[..i], true)), ApplyAll(s, Of(us[..i], false));
      if us[i].0 {
        UpdateBeside(a, b, us[i].1, sa, sb);
      } else {
        UpdateBeside(b, a, us[i].1, sb, sa);
      }
    }
    assert us[..|us|] == us;
  }

  /** Two copies of one store, updated in any interleaving, never see each other's updates. */
  method TwoCopies(parent: DataSmart, us: seq<(bool, Update)>, ghost s: Store)
      returns (a: DataSmart, b: DataSmart)
    requires parent.Valid() && parent.Holds(s)
    ensures a.Valid() && a.Holds(ApplyAll(s, Of(us, true)))
    ensures b.Valid() && b.Holds(ApplyAll(s, Of(us, false)))
    ensures parent.Valid() && parent.Holds(s)
  {
    hide Apply, ApplyAll, Of, Layer.Valid, Layer.Holds, OverrideIndex.Holds;
    a := parent.CreateCopy(s);
    b := parent.CreateCopy(s);
    RunBoth(a, b, us, s);
  }
}

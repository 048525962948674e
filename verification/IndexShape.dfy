/**
 What the override index of bitbake/lib/bb/data_smart.py means: an entry [name, override] under
 a base says that the name is the base, a colon and the override.
 */
module IndexShape {
  import opened Colons
  import opened Lists
  import opened Options
  import opened PlainStore

  predicate Splits(base: string, entry: (string, string)) {
    entry.0 == base + ":" + entry.1
  }

  ghost predicate WellIndexed(index: map<string, Overrides>) {
    forall k, e :: k in index && e in index[k] ==> Splits(k, e)
  }

  /** Names that the first, unguarded `rfind` cuts at -1. */
  predicate Miscut(name: string) {
    RFind(name, |name|) < 0 && OverrideLike(name, 0)
  }

  lemma {:induction false} RFindIsColon(name: string, n: nat)
    requires n <= |name|
    ensures RFind(name, n) >= 0 ==> name[RFind(name, n)] == ':'
  {
    if n > 0 && name[n - 1] != ':' { RFindIsColon(name, n - 1); }
  }

  lemma {:induction false} CutsBelowAreColons(name: string, n: nat, i: nat)
    requires n <= |name| && i < |CutsBelow(name, n)|
    ensures 0 <= CutsBelow(name, n)[i] < |name| && name[CutsBelow(name, n)[i]] == ':'
  {
    RFindIsColon(name, n);
    if i > 0 { CutsBelowAreColons(name, RFind(name, n), i - 1); }
  }

  lemma CutsAreColons(name: string, i: nat)
    requires !Miscut(name) && i < |Cuts(name)|
    ensures 0 <= Cuts(name)[i] < |name| && name[Cuts(name)[i]] == ':'
  {
    RFindIsColon(name, |name|);
    if i > 0 { CutsBelowAreColons(name, RFind(name, |name|), i - 1); }
  }

  lemma {:induction false} RemovalKeeps<T>(s: seq<T>, x: T, y: T)
    requires y in RemoveFirst(s, x)
    ensures y in s
  {
    if s[0] != x && y != s[0] { RemovalKeeps(s[1..], x, y); }
  }

  lemma AddKeeps(index: map<string, Overrides>, name: string, r: int)
    requires WellIndexed(index) && 0 <= r < |name| && name[r] == ':'
    ensures WellIndexed(IndexAdd(index, name, r))
  {
    assert name == name[..r] + ":" + name[r + 1..];
    var index' := IndexAdd(index, name, r);
    forall k, e | k in index' && e in index'[k] ensures Splits(k, e) {
      if !(k in index && e in index[k]) { assert e == (name, name[r + 1..]) && k == name[..r]; }
    }
  }

  lemma {:induction false} AddAllKeeps(index: map<string, Overrides>, name: string, i: nat)
    requires WellIndexed(index) && !Miscut(name) && AreCuts(name, Cuts(name)) && i <= |Cuts(name)|
    ensures WellIndexed(IndexAddAll(index, name, Cuts(name), i))
  {
    hide PlainStore.IndexAdd, WellIndexed, PlainStore.Cuts, Miscut;
    if i > 0 {
      AddAllKeeps(index, name, i - 1);
      CutsAreColons(name, i - 1);
      AddKeeps(IndexAddAll(index, name, Cuts(name), i - 1), name, Cuts(name)[i - 1]);
    }
  }

  lemma {:induction false} RemoveAllKeeps(index: map<string, Overrides>, name: string, cuts: seq<int>, i: nat)
    requires WellIndexed(index) && AreCuts(name, cuts) && i <= |cuts|
    ensures WellIndexed(IndexRemoveAll(index, name, cuts, i))
  {
    if i > 0 {
      RemoveAllKeeps(index, name, cuts, i - 1);
      var before := IndexRemoveAll(index, name, cuts, i - 1);
      var after := IndexRemoveAll(index, name, cuts, i);
      var r := cuts[i - 1];
      forall k, e | k in after && e in after[k] ensures Splits(k, e) {
        if k == Base(name, r) { RemovalKeeps(before[k], (name, Override(name, r)), e); }
      }
    }
  }

  /** A name without a colon that starts like an override puts itself under a base that is no base of it. */
  lemma MiscutBreaks(index: map<string, Overrides>, name: string)
    requires Miscut(name)
    ensures !WellIndexed(Indexed(index, name))
  {
    CutsAreCuts(name);
    var base := name[..|name| - 1];
    assert Cuts(name) == [-1];
    var index' := IndexAddAll(index, name, Cuts(name), 1);
    assert index' == IndexAdd(IndexAddAll(index, name, Cuts(name), 0), name, -1);
    assert name[0..] == name;
    assert (name, name) in index'[base];
    assert |base + ":" + name| > |name|;
  }

  /** Indexing a name keeps the index meaningful exactly when the name is not cut at -1. */
  lemma IndexedIsWellIndexed(index: map<string, Overrides>, name: string)
    requires WellIndexed(index)
    ensures WellIndexed(Indexed(index, name)) <==> !Miscut(name)
  {
    CutsAreCuts(name);
    if Miscut(name) {
      MiscutBreaks(index, name);
    } else {
      AddAllKeeps(index, name, |Cuts(name)|);
    }
  }

  lemma DelVarKeeps(s: Store, v: string)
    requires WellIndexed(s.index)
    ensures WellIndexed(DelVar(s, v).index)
  {
    CutsAreCuts(v);
    RemoveAllKeeps(s.index - {v}, v, Cuts(v), |Cuts(v)|);
  }

  lemma {:induction false} DelVarsKeeps(s: Store, vs: seq<string>, i: nat)
    requires WellIndexed(s.index) && i <= |vs|
    ensures WellIndexed(DelVars(s, vs, i).index)
  {
    if i > 0 {
      DelVarsKeeps(s, vs, i - 1);
      DelVarKeeps(DelVars(s, vs, i - 1), vs[i - 1]);
    }
  }

  lemma OverwriteKeeps(s: Store, v: string, overrides: set<string>)
    requires WellIndexed(s.index)
    ensures WellIndexed(Overwrite(s, v, overrides).index)
  {
    var s1 := s.(vars := s.vars[v := FlagsOf(s, v) - {APPEND, PREPEND, REMOVE}]);
    if v in s1.index {
      var active := ActiveNames(s1.index[v], overrides);
      DelVarsKeeps(s1, active, |active|);
    }
  }

  /** The only update that breaks the index: an operation queued on a name that is cut at -1. */
  predicate QueuesMiscut(u: Update) {
    u.Set? && KindOf(u.v).Queued? && Miscut(KindOf(u.v).op.base)
  }

  lemma {:induction false} ColonIsFound(name: string, n: nat)
    requires n <= |name| && ':' in name[..n]
    ensures RFind(name, n) >= 0
  {
    if name[n - 1] != ':' {
      assert name[..n] == name[..n - 1] + [name[n - 1]];
      ColonIsFound(name, n - 1);
    }
  }

  lemma {:induction false} KeywordOf(name: string, i: nat)
    requires i <= |name|
    ensures ParseFrom(name, i).Some? ==> ParseFrom(name, i).value.keyword in {APPEND, PREPEND, REMOVE}
    decreases |name| - i
  {
    if i < |name| { KeywordOf(name, i + 1); }
  }

  /** Every update keeps the index meaningful, except those, which always break it. */
  lemma UpdateKeepsIndex(s: Store, u: Update)
    requires WellIndexed(s.index)
    ensures WellIndexed(Apply(s, u).index) <==> !QueuesMiscut(u)
  {
    hide PlainStore.OldSyntax, PlainStore.Indexed, PlainStore.Overwrite;
    hide PlainStore.DelVar, PlainStore.RFind;
    if ':' in u.v {
      assert u.v[..|u.v|] == u.v;
      ColonIsFound(u.v, |u.v|);
    }
    match u
    case Set(v, value, parsing, overrides) =>
      match KindOf(v) {
        case Refused =>
        case Queued(op) =>
          KeywordOf(v, 0);
          IndexedIsWellIndexed(s.index, op.base);
        case Plain =>
          var s1 := s.(vars := s.vars[v := FlagsOf(s, v)]);
          OverwriteKeeps(s1, v, overrides);
          IndexedIsWellIndexed(if parsing then s1.index else Overwrite(s1, v, overrides).index, v);
      }
    case SetF(v, flag, val) => IndexedIsWellIndexed(s.index, v);
    case DelF(v, flag) =>
    case Del(v) => DelVarKeeps(s, v);
  }

  lemma NoOldSyntax(name: string)
    requires '_' !in name
    ensures !OldSyntax(name)
  {
    forall i, part | 0 <= i <= |name| && part in {"_append", "_prepend", "_remove"}
      ensures !StartsWith(name[i..], part)
    {
      if i < |name| { assert name[i..][0] == name[i]; }
    }
  }

  lemma ParsedAtOne(name: string)
    requires name == "a" + APPEND
    ensures ParseOperation(name) == Some(Operation("a", APPEND, None))
  {
    assert name[0..] == name && name[0] == 'a';
    assert name[1..] == APPEND && name[..1] == "a" && name[1..][..|APPEND|] == APPEND && name[1 + |APPEND|..] == "";
    StartDiffers(name[0..], APPEND);
    StartDiffers(name[0..], PREPEND);
    StartDiffers(name[0..], REMOVE);
    hide Colons.StartsWith;
    assert ParseFrom(name, 1) == Some(Operation("a", APPEND, None)) by { StartIs(name[1..], APPEND); }
  }

  lemma StartDiffers(s: string, prefix: string)
    requires s != "" && prefix != "" && s[0] != prefix[0]
    ensures !StartsWith(s, prefix)
  {
    assert |prefix| <= |s| ==> s[..|prefix|][0] == s[0];
  }

  lemma StartIs(s: string, prefix: string)
    requires s == prefix
    ensures StartsWith(s, prefix)
  {
  }

  /** An operation on a lower-case name, as a task would have: this breaks the index. */
  lemma QueuedOnLowerCase()
    ensures QueuesMiscut(Set("a:append", "x", false, {}))
  {
    var name := "a:append";
    assert name == "a" + APPEND;
    NoOldSyntax(name);
    ParsedAtOne(name);
    hide PlainStore.OldSyntax, PlainStore.ParseOperation;
    assert RFind("a", 1) == RFind("a", 0) == -1;
  }

  // ---- renaming a variable ----

  /** `s` with every occurrence of `pat`, from left to right, replaced. */
  function Replaced(s: string, pat: string, put: string): string
    requires pat != ""
    decreases |s|
  {
    if s == "" then ""
    else if StartsWith(s, pat) then put + Replaced(s[|pat|..], pat, put)
    else [s[0]] + Replaced(s[1..], pat, put)
  }

  /** What `renameVar` makes of the entries under `key`, for the index under `newkey`. */
  function RenamedEntries(list: Overrides, key: string, newkey: string): Overrides
    requires key != ""
  {
    seq(|list|, i requires 0 <= i < |list| => (Replaced(list[i].0, key, newkey), list[i].1))
  }

  lemma OccursLater(s: string, pat: string)
    requires s != "" && !StartsWith(s, pat)
    ensures Contains(s, pat) <==> Contains(s[1..], pat)
  {
    assert s[0..] == s;
    forall i | 0 < i <= |s| ensures s[i..] == s[1..][i - 1..] {}
    if Contains(s, pat) {
      var i :| 0 <= i <= |s| && StartsWith(s[i..], pat);
      assert 0 <= i - 1 <= |s[1..]| && StartsWith(s[1..][i - 1..], pat);
    }
    if Contains(s[1..], pat) {
      var i :| 0 <= i <= |s[1..]| && StartsWith(s[1..][i..], pat);
      assert StartsWith(s[i + 1..], pat);
    }
  }

  lemma OccursFirst(s: string, pat: string)
    requires StartsWith(s, pat)
    ensures Contains(s, pat)
  {
    assert s[0..] == s;
  }

  lemma {:induction false} ReplacedLength(s: string, pat: string, put: string)
    requires pat != ""
    ensures |put| >= |pat| ==> |Replaced(s, pat, put)| >= |s|
    ensures |put| <= |pat| ==> |Replaced(s, pat, put)| <= |s|
    ensures |put| > |pat| && Contains(s, pat) ==> |Replaced(s, pat, put)| > |s|
    ensures |put| < |pat| && Contains(s, pat) ==> |Replaced(s, pat, put)| < |s|
    decreases |s|
  {
    hide Contains;
    if s == "" {
      NothingContained(pat);
    } else if StartsWith(s, pat) {
      ReplacedLength(s[|pat|..], pat, put);
    } else {
      OccursLater(s, pat);
      ReplacedLength(s[1..], pat, put);
    }
  }

  lemma NothingContained(pat: string)
    requires pat != ""
    ensures !Contains("", pat)
  {
  }

  /** Replacing leaves a text alone exactly if there is nothing to replace, or nothing to replace it with. */
  lemma {:induction false} ReplacedIff(s: string, pat: string, put: string)
    requires pat != ""
    ensures Replaced(s, pat, put) == s <==> pat == put || !Contains(s, pat)
    decreases |s|
  {
    hide Contains;
    if s == "" {
      NothingContained(pat);
    } else if StartsWith(s, pat) {
      OccursFirst(s, pat);
      var rest := s[|pat|..];
      assert s == pat + rest;
      ReplacedIff(rest, pat, put);
      ReplacedLength(s, pat, put);
      if |pat| == |put| {
        assert Replaced(s, pat, put)[..|put|] == put;
      }
    } else {
      OccursLater(s, pat);
      ReplacedIff(s[1..], pat, put);
      assert s == [s[0]] + s[1..];
    }
  }

  lemma ReplacedAtFront(key: string, newkey: string, tail: string)
    requires key != ""
    ensures Replaced(key + tail, key, newkey) == newkey + Replaced(tail, key, newkey)
  {
    assert (key + tail)[..|key|] == key && (key + tail)[|key|..] == tail;
  }

  lemma SameFront(front: string, a: string, b: string)
    ensures front + a == front + b <==> a == b
  {
    assert (front + a)[|front|..] == a && (front + b)[|front|..] == b;
  }

  lemma RenamedEntry(key: string, newkey: string, e: (string, string))
    requires key != "" && newkey != key && Splits(key, e)
    ensures Splits(newkey, (Replaced(e.0, key, newkey), e.1)) <==> !Contains(":" + e.1, key)
  {
    hide Contains, Replaced;
    var tail := ":" + e.1;
    assert e.0 == key + tail && newkey + ":" + e.1 == newkey + tail;
    ReplacedAtFront(key, newkey, tail);
    SameFront(newkey, Replaced(tail, key, newkey), tail);
    ReplacedIff(tail, key, newkey);
  }

  /**
   `renameVar` replaces the old name everywhere in the names of the overriding variables, but not in the
   overrides: the entries keep their meaning exactly if no override has the old name in it.
   */
  lemma RenamedIsWellIndexed(list: Overrides, key: string, newkey: string)
    requires key != "" && newkey != key && forall e :: e in list ==> Splits(key, e)
    ensures (forall e :: e in RenamedEntries(list, key, newkey) ==> Splits(newkey, e)) <==>
      forall e :: e in list ==> !Contains(":" + e.1, key)
  {
    hide Contains, Replaced, Splits;
    var after := RenamedEntries(list, key, newkey);
    forall i | 0 <= i < |list|
      ensures after[i] in after && list[i] in list
      ensures Splits(newkey, after[i]) <==> !Contains(":" + list[i].1, key)
    {
      RenamedEntry(key, newkey, list[i]);
    }
  }

  /** The entry of "A:xA" under "A", once "A" is renamed to "B": "xA" is not the override of "B:xB". */
  lemma RenamedInOverride(list: Overrides)
    requires list == [("A:xA", "xA")]
    ensures RenamedEntries(list, "A", "B") == [("B:xB", "xA")] && !Splits("B", ("B:xB", "xA"))
  {
    var s := "A:xA";
    assert s[1..] == ":xA" && ":xA"[1..] == "xA" && "xA"[1..] == "A" && "A"[1..] == "";
    assert Replaced("A", "A", "B") == "B";
    assert Replaced("xA", "A", "B") == "xB";
    assert Replaced(":xA", "A", "B") == ":xB";
    assert Replaced(s, "A", "B") == "B:xB";
    assert ("B" + ":" + "xA")[3] == 'A' && "B:xB"[3] == 'B';
  }
}

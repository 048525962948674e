/** Sorting a set of strings, and a list of them. */
module Sorting {

  /** Python's order on strings. */
  predicate Less(a: string, b: string) {
    b != "" && (a == "" || a[0] < b[0] || (a[0] == b[0] && Less(a[1..], b[1..])))
  }

  /** One is a proper start of the other, or the first character in which they differ is less. */
  lemma {:induction false} LessIff(a: string, b: string)
    ensures Less(a, b) <==>
      exists i :: 0 <= i <= |a| && i < |b| && a[..i] == b[..i] && (i == |a| || a[i] < b[i])
  {
    if a != "" && b != "" && a[0] == b[0] {
      LessIff(a[1..], b[1..]);
      if i :| 0 <= i <= |a| && i < |b| && a[..i] == b[..i] && (i == |a| || a[i] < b[i]) {
        assert i > 0;
        assert a[1..][..i - 1] == a[..i][1..] && b[1..][..i - 1] == b[..i][1..];
      }
      var x, y := a[1..], b[1..];
      if i :| 0 <= i <= |x| && i < |y| && x[..i] == y[..i] && (i == |x| || x[i] < y[i]) {
        assert a[..i + 1] == [a[0]] + a[1..][..i] && b[..i + 1] == [b[0]] + b[1..][..i];
      }
    } else if a == "" && b != "" {
      assert a[..0] == b[..0];
    } else if a != "" && b != "" && a[0] < b[0] {
      assert a[..0] == b[..0];
    } else if a != "" && b != "" {
      forall i | 0 < i <= |a| && i < |b| ensures a[..i] != b[..i] { assert a[..i][0] == a[0] && b[..i][0] == b[0]; }
    }
  }

  lemma {:induction false} LessIsTotal(a: string, b: string)
    ensures a == b || Less(a, b) || Less(b, a)
    ensures !(Less(a, b) && (a == b || Less(b, a)))
  {
    if a != "" && b != "" && a[0] == b[0] {
      LessIsTotal(a[1..], b[1..]);
      assert a == [a[0]] + a[1..] && b == [b[0]] + b[1..];
    }
  }

  lemma {:induction false} LessIsTransitive(a: string, b: string, c: string)
    requires Less(a, b) && Less(b, c)
    ensures Less(a, c)
  {
    if a != "" && a[0] == b[0] == c[0] { LessIsTransitive(a[1..], b[1..], c[1..]); }
  }

  ghost predicate Sorted(s: seq<string>) {
    forall i, j :: 0 <= i < j < |s| ==> Less(s[i], s[j])
  }

  function Insert(s: seq<string>, k: string): seq<string> {
    if s == [] then [k] else if Less(k, s[0]) then [k] + s else [s[0]] + Insert(s[1..], k)
  }

  lemma {:induction false} InsertSorts(s: seq<string>, k: string)
    requires Sorted(s) && k !in s
    ensures Sorted(Insert(s, k)) && forall x :: x in Insert(s, k) <==> x == k || x in s
  {
    if s != [] {
      assert s == [s[0]] + s[1..];
      if Less(k, s[0]) {
        forall j | 0 <= j < |s| ensures Less(k, s[j]) {
          if j > 0 { LessIsTransitive(k, s[0], s[j]); }
        }
      } else {
        InsertSorts(s[1..], k);
        LessIsTotal(k, s[0]);
        var t := Insert(s[1..], k);
        forall j | 0 <= j < |t| ensures Less(s[0], t[j]) {
          assert t[j] in t;
          if t[j] != k { var i :| 0 <= i < |s[1..]| && s[1..][i] == t[j]; assert s[i + 1] == t[j]; }
        }
      }
    }
  }

  lemma EmptyOrHas(t: seq<string>)
    ensures t == [] || exists x :: x in t
  {
    if t != [] { assert t[0] in t; }
  }

  /** There is one sorted list of a set: sorting does not depend on how the set iterates. */
  lemma {:induction false} SortedIsUnique(s: seq<string>, t: seq<string>)
    requires Sorted(s) && Sorted(t) && forall x :: x in s <==> x in t
    ensures s == t
    decreases |s|
  {
    if s == [] {
      EmptyOrHas(t);
    } else {
      assert s[0] in t && t[0] in s by { assert s[0] in s; assert t != []; assert t[0] in t; }
      var i :| 0 <= i < |t| && t[i] == s[0];
      var j :| 0 <= j < |s| && s[j] == t[0];
      LessIsTotal(s[0], t[0]);
      assert s[0] == t[0];
      SortedTail(s);
      SortedTail(t);
      SortedIsUnique(s[1..], t[1..]);
    }
  }

  lemma SortedTail(s: seq<string>)
    requires Sorted(s) && s != []
    ensures forall x :: x in s[1..] <==> x in s && x != s[0]
  {
    assert s == [s[0]] + s[1..];
    LessIsTotal(s[0], s[0]);
  }

  method SortKeys(keys: set<string>) returns (s: seq<string>)
    ensures Sorted(s) && forall x :: x in s <==> x in keys
  {
    s := [];
    var todo := keys;
    while todo != {}
      invariant todo <= keys && Sorted(s)
      invariant forall x :: x in s <==> x in keys && x !in todo
      decreases todo
    {
      var k :| k in todo;
      InsertSorts(s, k);
      s := Insert(s, k);
      todo := todo - {k};
    }
  }

  // ---- list.sort() ----

  /** In order; equal strings may follow each other. */
  ghost predicate Ordered(s: seq<string>) {
    forall i, j :: 0 <= i < j < |s| ==> !Less(s[j], s[i])
  }

  lemma InsertFirst(s: seq<string>, k: string)
    requires Ordered(s) && s != [] && Less(k, s[0])
    ensures Ordered([k] + s)
  {
    forall j | 0 <= j < |s| ensures !Less(s[j], k) {
      LessIsTotal(s[0], s[0]);
      if Less(s[j], k) { LessIsTransitive(s[j], k, s[0]); }
    }
  }

  lemma InsertLater(x: string, rest: seq<string>, t: seq<string>, k: string)
    requires Ordered([x] + rest) && Ordered(t) && !Less(k, x) && multiset(t) == multiset(rest) + multiset{k}
    ensures Ordered([x] + t)
  {
    forall j | 0 <= j < |t| ensures !Less(t[j], x) {
      assert t[j] in multiset(t);
      if t[j] != k {
        assert t[j] in rest;
        var i :| 0 <= i < |rest| && rest[i] == t[j];
        var whole := [x] + rest;
        assert whole[0] == x && whole[i + 1] == t[j];
      }
    }
  }

  lemma {:induction false} InsertOrders(s: seq<string>, k: string)
    requires Ordered(s)
    ensures Ordered(Insert(s, k)) && multiset(Insert(s, k)) == multiset(s) + multiset{k}
  {
    if s != [] {
      assert s == [s[0]] + s[1..];
      if Less(k, s[0]) {
        InsertFirst(s, k);
      } else {
        assert Ordered(s[1..]);
        InsertOrders(s[1..], k);
        hide Ordered, Less;
        InsertLater(s[0], s[1..], Insert(s[1..], k), k);
      }
    }
  }

  method SortList(list: seq<string>) returns (s: seq<string>)
    ensures Ordered(s) && multiset(s) == multiset(list)
  {
    s := [];
    for i := 0 to |list|
      invariant Ordered(s) && multiset(s) == multiset(list[..i])
    {
      InsertOrders(s, list[i]);
      s := Insert(s, list[i]);
      assert list[..i + 1] == list[..i] + [list[i]];
    }
    assert list[..|list|] == list;
  }

  lemma FirstIsLeast(s: seq<string>, x: string)
    requires Ordered(s) && x in multiset(s)
    ensures !Less(x, s[0])
  {
    LessIsTotal(x, x);
    var i :| 0 <= i < |s| && s[i] == x;
  }

  lemma TailCounts(s: seq<string>)
    requires s != []
    ensures multiset(s[1..]) == multiset(s) - multiset{s[0]} && s[0] in multiset(s)
  {
    assert s == [s[0]] + s[1..];
  }

  /** Sorting forgets the order in which the list came. */
  lemma {:induction false} OrderedIsUnique(s: seq<string>, t: seq<string>)
    requires Ordered(s) && Ordered(t) && multiset(s) == multiset(t)
    ensures s == t
    decreases |s|
  {
    assert |multiset(s)| == |s| && |multiset(t)| == |t|;
    if s != [] {
      TailCounts(s);
      TailCounts(t);
      FirstIsLeast(s, t[0]);
      FirstIsLeast(t, s[0]);
      LessIsTotal(s[0], t[0]);
      assert Ordered(s[1..]) && Ordered(t[1..]);
      hide Ordered, Less;
      OrderedIsUnique(s[1..], t[1..]);
      assert s == [s[0]] + s[1..] && t == [t[0]] + t[1..];
    }
  }
}

/** Facts about Python lists used by several components. */
module Lists {

  ghost predicate NoDup<T(!new)>(s: seq<T>) {
    forall i, j :: 0 <= i < j < |s| ==> s[i] != s[j]
  }

  function Elems<T>(s: seq<T>): set<T> {
    set x | x in s
  }

  /** The elements of `s` that are not in `d`, in order. */
  function Without<T(==)>(s: seq<T>, d: set<T>): seq<T> {
    if s == [] then [] else (if s[0] in d then [] else [s[0]]) + Without(s[1..], d)
  }

  /** `list.remove`: drops the first occurrence. */
  function RemoveFirst<T(==)>(s: seq<T>, x: T): seq<T> {
    if s == [] then [] else if s[0] == x then s[1..] else [s[0]] + RemoveFirst(s[1..], x)
  }

  lemma {:induction false} WithoutElem<T>(s: seq<T>, d: set<T>, x: T)
    ensures x in Without(s, d) <==> x in s && x !in d
  {
    if s != [] {
      WithoutElem(s[1..], d, x);
      assert s == [s[0]] + s[1..];
    }
  }

  lemma WithoutElems<T(!new)>(s: seq<T>, d: set<T>)
    ensures Elems(Without(s, d)) == Elems(s) - d
  {
    forall x ensures x in Without(s, d) <==> x in s && x !in d { WithoutElem(s, d, x); }
  }

  lemma {:induction false} WithoutTwice<T>(s: seq<T>, d: set<T>, e: set<T>)
    ensures Without(Without(s, d), e) == Without(s, d + e)
  {
    if s != [] {
      WithoutTwice(s[1..], d, e);
      if s[0] !in d {
        assert Without(s, d) == [s[0]] + Without(s[1..], d);
        assert Without(s, d)[1..] == Without(s[1..], d);
      } else {
        assert Without(s, d) == Without(s[1..], d);
      }
    }
  }

  lemma {:induction false} WithoutAbsent<T(!new)>(s: seq<T>, d: set<T>)
    requires forall x :: x in s ==> x !in d
    ensures Without(s, d) == s
  {
    if s != [] {
      assert s == [s[0]] + s[1..];
      WithoutAbsent(s[1..], d);
    }
  }

  lemma {:induction false} WithoutAll<T(!new)>(s: seq<T>, d: set<T>)
    requires forall x :: x in s ==> x in d
    ensures Without(s, d) == []
  {
    if s != [] {
      assert s == [s[0]] + s[1..];
      WithoutAll(s[1..], d);
    }
  }

  lemma {:induction false} WithoutNoDup<T(!new)>(s: seq<T>, d: set<T>)
    requires NoDup(s)
    ensures NoDup(Without(s, d))
  {
    if s != [] {
      WithoutNoDup(s[1..], d);
      WithoutElem(s[1..], d, s[0]);
    }
  }

  /** In a duplicate-free list, removing the first occurrence removes the value. */
  lemma {:induction false} RemoveFirstIsWithout<T(!new)>(s: seq<T>, x: T)
    requires NoDup(s)
    ensures RemoveFirst(s, x) == Without(s, {x})
  {
    if s != [] {
      if s[0] == x {
        WithoutAbsent(s[1..], {x});
      } else {
        RemoveFirstIsWithout(s[1..], x);
      }
    }
  }

  lemma SmallerCard<T>(a: set<T>, b: set<T>)
    requires a <= b
    ensures |a| <= |b|
    ensures a != b ==> |a| < |b|
  {
    assert b == a + (b - a);
  }
}

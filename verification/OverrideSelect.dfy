/** bitbake/lib/bb/data_smart.py, `getVarFlag`: the loop that selects the overriding variable. */
module OverrideSelect {
  import opened Lists
  import opened Colons
  import opened Options
  import opened PlainStore

  predicate EndsWith(s: string, suffix: string) {
    |suffix| <= |s| && s[|s| - |suffix|..] == suffix
  }

  /** `s` without the occurrences of `pat`, found from left to right. */
  function ReplaceAll(s: string, pat: string): string
    requires pat != ""
    decreases |s|
  {
    if s == "" then ""
    else if StartsWith(s, pat) then ReplaceAll(s[|pat|..], pat)
    else [s[0]] + ReplaceAll(s[1..], pat)
  }

  // ---- termination: the total length of the active keys ----

  ghost function TotalLength(keys: set<string>): nat {
    if keys == {} then 0 else var k :| k in keys; |k| + TotalLength(keys - {k})
  }

  lemma {:induction false} TotalLengthMinus(keys: set<string>, k: string)
    requires k in keys
    ensures TotalLength(keys) == |k| + TotalLength(keys - {k})
  {
    var p :| p in keys && TotalLength(keys) == |p| + TotalLength(keys - {p});
    if p != k {
      TotalLengthMinus(keys - {p}, k);
      TotalLengthMinus(keys - {k}, p);
      assert keys - {p} - {k} == keys - {k} - {p};
    }
  }

  /** A key is taken out, and a shorter one comes in or was there already. */
  lemma TotalLengthDrops(keys: set<string>, k: string, shorter: string)
    requires k in keys && |shorter| < |k|
    ensures TotalLength(keys - {k} + {shorter}) < TotalLength(keys)
  {
    TotalLengthMinus(keys, k);
    var rest := keys - {k};
    if shorter in rest {
      assert rest + {shorter} == rest;
    } else {
      TotalLengthMinus(rest + {shorter}, shorter);
      assert rest + {shorter} - {shorter} == rest;
    }
  }

  lemma {:induction false} ReplaceAllShortens(s: string, pat: string)
    requires pat != ""
    ensures |ReplaceAll(s, pat)| <= |s|
    ensures EndsWith(s, pat) ==> |ReplaceAll(s, pat)| < |s|
    decreases |s|
  {
    if s != "" {
      assert s[0..] == s == s[..|s|];
      if StartsWith(s, pat) {
        ReplaceAllShortens(s[|pat|..], pat);
      } else {
        ReplaceAllShortens(s[1..], pat);
        if EndsWith(s, pat) {
          assert s[1..][|s| - 1 - |pat|..] == s[|s| - |pat|..];
        }
      }
    }
  }

  // ---- keys as lists of override names ----

  ghost predicate Names(overrides: seq<string>) {
    forall o :: o in overrides ==> o != "" && NoColon(o)
  }

  /** The parts of OVERRIDES never have a colon, but some may be empty. */
  ghost predicate NoColons(overrides: seq<string>) {
    forall o :: o in overrides ==> NoColon(o)
  }

  /** No override name is a proper prefix of another. */
  ghost predicate PrefixFree(overrides: seq<string>) {
    forall o, p :: o in overrides && p in overrides && StartsWith(p, o) ==> o == p
  }

  ghost predicate Parts(parts: seq<string>, overrides: seq<string>) {
    parts != [] && forall i :: 0 <= i < |parts| ==> parts[i] in overrides
  }

  /** An active key: override names joined by colons. */
  ghost predicate IsKey(a: string, overrides: seq<string>) {
    exists parts :: Parts(parts, overrides) && a == Join(parts)
  }

  lemma DiffersAt(s: string, prefix: string, i: nat)
    requires i < |s| && i < |prefix| && s[i] != prefix[i]
    ensures !StartsWith(s, prefix)
  {
    assert |prefix| <= |s| ==> s[..|prefix|][i] == s[i];
  }

  lemma {:induction false} ReplaceSkips(x: string, t: string, o: string)
    requires NoColon(x)
    ensures ReplaceAll(x + t, ":" + o) == x + ReplaceAll(t, ":" + o)
  {
    var s := x + t;
    if x == "" {
      assert s == t;
    } else {
      assert s[0] == x[0] && s[1..] == x[1..] + t;
      ReplaceSkips(x[1..], t, o);
      DiffersAt(s, ":" + o, 0);
    }
  }

  /** Inside a key, the text `":" + o` starts only where a whole name `o` follows. */
  lemma WholeName(p: string, parts: seq<string>, o: string, overrides: seq<string>)
    requires Names(overrides) && PrefixFree(overrides) && p in overrides && o in overrides
    ensures StartsWith(p + Tail(parts), o) <==> p == o
  {
    var s := p + Tail(parts);
    if |o| > |p| {
      if parts != [] {
        assert s[|p|] == Tail(parts)[0] == ':';
        DiffersAt(s, o, |p|);
      }
    } else {
      assert s[..|o|] == p[..|o|];
      assert p == o ==> p[..|o|] == o;
    }
  }

  lemma ConsTail(p: string, rest: seq<string>)
    ensures Tail([p] + rest) == ":" + (p + Tail(rest))
  {
    assert ([p] + rest)[1..] == rest;
  }

  lemma OneKept(s: string, pat: string)
    requires pat != "" && s != "" && !StartsWith(s, pat)
    ensures ReplaceAll(s, pat) == [s[0]] + ReplaceAll(s[1..], pat)
  {
  }

  lemma ReplaceKeeps(p: string, t: string, o: string)
    requires NoColon(p) && !StartsWith(p + t, o)
    ensures ReplaceAll(":" + (p + t), ":" + o) == (":" + p) + ReplaceAll(t, ":" + o)
  {
    var s, pat, rest := ":" + (p + t), ":" + o, ReplaceAll(t, ":" + o);
    BothColons(p + t, o);
    hide ReplaceAll, StartsWith;
    OneKept(s, pat);
    assert s[0] == ':' && s[1..] == p + t;
    ReplaceSkips(p, t, o);
    assert [':'] + (p + rest) == (":" + p) + rest;
  }

  /** One name of the tail: dropped when it is `o`, kept otherwise. */
  lemma ReplaceOne(p: string, rest: seq<string>, o: string, overrides: seq<string>)
    requires Names(overrides) && PrefixFree(overrides) && p in overrides && o in overrides
    ensures ReplaceAll(":" + (p + Tail(rest)), ":" + o) ==
      (if p == o then "" else ":" + p) + ReplaceAll(Tail(rest), ":" + o)
  {
    WholeName(p, rest, o, overrides);
    hide ReplaceAll, Tail, StartsWith;
    if p == o {
      HeadEaten(o, "", Tail(rest));
      assert ":" + (p + Tail(rest)) == (":" + o) + ("" + Tail(rest));
    } else {
      ReplaceKeeps(p, Tail(rest), o);
    }
  }

  lemma BothColons(s: string, o: string)
    ensures StartsWith(":" + s, ":" + o) <==> StartsWith(s, o)
  {
    var t, pat := ":" + s, ":" + o;
    assert pat[1..] == o && (|o| <= |s| ==> t[..|pat|] == ":" + s[..|o|] && t[..|pat|][1..] == s[..|o|]);
  }

  lemma {:induction false} ReplaceInTail(parts: seq<string>, o: string, overrides: seq<string>)
    requires Names(overrides) && PrefixFree(overrides) && o in overrides
    requires forall i :: 0 <= i < |parts| ==> parts[i] in overrides
    ensures ReplaceAll(Tail(parts), ":" + o) == Tail(Without(parts, {o}))
    decreases |parts|
  {
    if parts != [] {
      var p, rest := parts[0], parts[1..];
      assert parts == [p] + rest;
      ConsTail(p, rest);
      ReplaceOne(p, rest, o, overrides);
      ReplaceInTail(rest, o, overrides);
      var w := Without(rest, {o});
      assert Without(parts, {o}) == if p == o then w else [p] + w;
      ConsTail(p, w);
      assert ":" + (p + Tail(w)) == (":" + p) + Tail(w);
      assert "" + Tail(w) == Tail(w);
    }
  }

  /** Rewriting a key gives a key again. */
  lemma KeyStaysKey(a: string, o: string, overrides: seq<string>)
    requires Names(overrides) && PrefixFree(overrides) && o in overrides && IsKey(a, overrides)
    ensures IsKey(ReplaceAll(a, ":" + o), overrides)
  {
    var parts :| Parts(parts, overrides) && a == Join(parts);
    var p, rest := parts[0], parts[1..];
    ReplaceSkips(p, Tail(rest), o);
    ReplaceInTail(rest, o, overrides);
    var parts' := [p] + Without(rest, {o});
    assert parts'[1..] == Without(rest, {o});
    forall i | 0 <= i < |parts'| ensures parts'[i] in overrides {
      if i > 0 { assert parts'[i] in parts'[1..]; WithoutElem(rest, {o}, parts'[i]); }
    }
    assert Parts(parts', overrides) && ReplaceAll(a, ":" + o) == Join(parts');
  }

  lemma EndsAfter(t: string, o: string)
    ensures EndsWith(t + (":" + o), ":" + o)
  {
  }

  lemma EndsLonger(x: string, t: string, suffix: string)
    requires EndsWith(t, suffix)
    ensures EndsWith(x + t, suffix)
  {
    assert (x + t)[|x| + |t| - |suffix|..] == t[|t| - |suffix|..];
  }

  lemma {:induction false} TailEnds(parts: seq<string>)
    requires parts != []
    ensures EndsWith(Tail(parts), ":" + parts[|parts| - 1])
    decreases |parts|
  {
    if |parts| == 1 {
      assert Tail(parts[1..]) == "" && Tail(parts) == "" + (":" + parts[0]);
      EndsAfter("", parts[0]);
    } else {
      TailEnds(parts[1..]);
      EndsLonger(":" + parts[0], Tail(parts[1..]), ":" + parts[|parts| - 1]);
    }
  }

  /** A pass over the overrides always does something with a key. */
  lemma KeyIsTouched(a: string, overrides: seq<string>)
    requires IsKey(a, overrides)
    ensures exists j :: 0 <= j < |overrides| && (EndsWith(a, ":" + overrides[j]) || a == overrides[j])
  {
    hide EndsWith;
    var parts :| Parts(parts, overrides) && a == Join(parts);
    var o := parts[|parts| - 1];
    var j :| 0 <= j < |overrides| && overrides[j] == o;
    if |parts| == 1 {
      assert a == overrides[j];
    } else {
      TailEnds(parts[1..]);
      EndsLonger(parts[0], Tail(parts[1..]), ":" + o);
    }
  }

  // ---- what rewriting can make of a key ----

  /** Rewriting `k`, any number of times, can give `x`. */
  ghost predicate Derives(k: string, x: string, overrides: seq<string>)
    decreases |k|
  {
    k == x || exists o :: o in overrides && EndsWith(k, ":" + o) && DerivesBy(k, x, o, overrides)
  }

  ghost predicate DerivesBy(k: string, x: string, o: string, overrides: seq<string>)
    requires EndsWith(k, ":" + o)
    decreases |k|, 0
  {
    ReplaceAllShortens(k, ":" + o);
    Derives(ReplaceAll(k, ":" + o), x, overrides)
  }

  lemma {:induction false} DerivesTwice(k: string, x: string, y: string, overrides: seq<string>)
    requires Derives(k, x, overrides) && Derives(x, y, overrides)
    ensures Derives(k, y, overrides)
    decreases |k|
  {
    if k != x {
      var o :| o in overrides && EndsWith(k, ":" + o) && DerivesBy(k, x, o, overrides);
      ReplaceAllShortens(k, ":" + o);
      DerivesTwice(ReplaceAll(k, ":" + o), x, y, overrides);
      assert DerivesBy(k, y, o, overrides);
    }
  }

  lemma DerivesOne(k: string, o: string, overrides: seq<string>)
    requires o in overrides && EndsWith(k, ":" + o)
    ensures Derives(k, ReplaceAll(k, ":" + o), overrides)
  {
    assert DerivesBy(k, ReplaceAll(k, ":" + o), o, overrides);
  }

  /** A key that no rewriting brings down to an override name. */
  ghost predicate NeverMatches(k: string, overrides: seq<string>) {
    forall o :: o in overrides ==> !Derives(k, o, overrides)
  }

  lemma {:induction false} KeyMatches(a: string, overrides: seq<string>)
    requires Names(overrides) && PrefixFree(overrides) && IsKey(a, overrides)
    ensures !NeverMatches(a, overrides)
    decreases |a|
  {
    KeyIsTouched(a, overrides);
    var j :| 0 <= j < |overrides| && (EndsWith(a, ":" + overrides[j]) || a == overrides[j]);
    var o := overrides[j];
    if a != o {
      ReplaceAllShortens(a, ":" + o);
      KeyStaysKey(a, o, overrides);
      KeyMatches(ReplaceAll(a, ":" + o), overrides);
      var p :| p in overrides && Derives(ReplaceAll(a, ":" + o), p, overrides);
      DerivesOne(a, o, overrides);
      DerivesTwice(a, ReplaceAll(a, ":" + o), p, overrides);
    } else {
      assert o in overrides && Derives(a, o, overrides);
    }
  }

  // ---- a key that never matches, for a name that is a proper prefix of another ----

  function Copies(s: string, n: nat): string {
    if n == 0 then "" else s + Copies(s, n - 1)
  }

  lemma {:induction false} CopiesLong(s: string, n: nat)
    requires s != "" && NoColon(s)
    ensures |Copies(s, n)| >= n && NoColon(Copies(s, n))
  {
    if n > 0 { CopiesLong(s, n - 1); }
  }

  function Longest(overrides: seq<string>): (n: nat)
    ensures forall o :: o in overrides ==> |o| <= n
  {
    if overrides == [] then 0
    else
      var n := Longest(overrides[1..]);
      assert forall o :: o in overrides ==> o == overrides[0] || o in overrides[1..];
      if |overrides[0]| > n then |overrides[0]| else n
  }

  /** `n + 1` times `p`, then `o`. */
  function Repeated(p: string, o: string, n: nat): string {
    p + (Copies(":" + p, n) + (":" + o))
  }

  lemma {:induction false} RepeatedTail(p: string, o: string, n: nat) returns (parts: seq<string>)
    ensures Tail(parts) == Copies(":" + p, n) + (":" + o)
    ensures forall i :: 0 <= i < |parts| ==> parts[i] == p || parts[i] == o
  {
    if n == 0 {
      parts := [o];
      assert Tail(parts[1..]) == "";
    } else {
      var rest := RepeatedTail(p, o, n - 1);
      parts := [p] + rest;
      assert parts[1..] == rest;
      assert Copies(":" + p, n) == (":" + p) + Copies(":" + p, n - 1);
      assert Tail(parts) == Copies(":" + p, n) + (":" + o);
    }
  }

  lemma RepeatedIsKey(p: string, o: string, n: nat, overrides: seq<string>)
    requires p in overrides && o in overrides
    ensures IsKey(Repeated(p, o, n), overrides)
  {
    var parts := RepeatedTail(p, o, n);
    assert ([p] + parts)[1..] == parts;
    assert Parts([p] + parts, overrides) && Repeated(p, o, n) == Join([p] + parts);
  }

  lemma HeadEaten(o: string, r: string, rest: string)
    requires NoColon(r)
    ensures ReplaceAll((":" + o) + (r + rest), ":" + o) == r + ReplaceAll(rest, ":" + o)
  {
    var pat, t := ":" + o, r + rest;
    assert (pat + t)[..|pat|] == pat && (pat + t)[|pat|..] == t;
    ReplaceSkips(r, rest, o);
  }

  lemma NextCopy(o: string, r: string, rest: string, tail: string)
    ensures (":" + (o + r) + rest) + tail == (":" + o) + (r + (rest + tail))
  {
  }

  /** Each copy of `":" + o + r` loses its `":" + o`. */
  lemma {:induction false} CopiesEaten(o: string, r: string, n: nat)
    requires NoColon(r)
    ensures ReplaceAll(Copies(":" + (o + r), n) + (":" + o), ":" + o) == Copies(r, n)
  {
    hide ReplaceAll;
    if n == 0 {
      HeadEaten(o, "", "");
      assert "" + (":" + o) == (":" + o) + ("" + "");
      NothingReplaced(":" + o);
    } else {
      NextCopy(o, r, Copies(":" + (o + r), n - 1), ":" + o);
      HeadEaten(o, r, Copies(":" + (o + r), n - 1) + (":" + o));
      CopiesEaten(o, r, n - 1);
    }
  }

  lemma NothingReplaced(pat: string)
    requires pat != ""
    ensures ReplaceAll("", pat) == ""
  {
  }

  lemma RepeatedEaten(p: string, o: string, n: nat)
    requires NoColon(p) && NoColon(o) && StartsWith(p, o)
    ensures ReplaceAll(Repeated(p, o, n), ":" + o) == p + Copies(p[|o|..], n)
  {
    assert p == o + p[|o|..];
    ReplaceSkips(p, Copies(":" + p, n) + (":" + o), o);
    CopiesEaten(o, p[|o|..], n);
  }

  lemma NoSuffix(s: string, o: string)
    requires NoColon(s)
    ensures !EndsWith(s, ":" + o)
  {
    if |o| < |s| { assert s[|s| - |":" + o|..][0] == s[|s| - |":" + o|] != ':'; }
  }

  lemma ColonInside(s: string, o: string, p: string)
    requires EndsWith(s, ":" + o) && EndsWith(s, ":" + p) && |o| < |p|
    ensures !NoColon(p)
  {
    var a, b := ":" + o, ":" + p;
    assert p[|p| - |a|] == b[|b| - |a|] == s[|s| - |a|] == a[0];
  }

  /** A text ends with at most one colon-free name. */
  lemma OneSuffix(s: string, o: string, p: string)
    requires NoColon(o) && NoColon(p) && EndsWith(s, ":" + o) && EndsWith(s, ":" + p)
    ensures o == p
  {
    if |o| < |p| {
      ColonInside(s, o, p);
    } else if |p| < |o| {
      ColonInside(s, p, o);
    } else {
      assert o == (":" + o)[1..] && p == (":" + p)[1..];
    }
  }

  /** A colon-free text that is no name is left alone for ever. */
  lemma MangledNeverMatches(s: string, overrides: seq<string>)
    requires NoColon(s) && s !in overrides
    ensures NeverMatches(s, overrides)
  {
    forall o ensures !EndsWith(s, ":" + o) { NoSuffix(s, o); }
  }

  lemma ProperPrefix(p: string, o: string)
    requires StartsWith(p, o)
    ensures p == o + p[|o|..] && (p != o ==> p[|o|..] != "")
    ensures NoColon(p) ==> NoColon(p[|o|..])
  {
  }

  lemma RepeatedNeverMatches(p: string, o: string, overrides: seq<string>)
    requires NoColons(overrides) && p in overrides && o in overrides && StartsWith(p, o) && p != o
    ensures NeverMatches(Repeated(p, o, Longest(overrides)), overrides)
  {
    var n := Longest(overrides);
    var k := Repeated(p, o, n);
    ProperPrefix(p, o);
    CopiesLong(p[|o|..], n);
    RepeatedEaten(p, o, n);
    MangledNeverMatches(p + Copies(p[|o|..], n), overrides);
    assert k == p + Copies(":" + p, n) + (":" + o);
    OnlyOneRewriting(k, p + Copies(":" + p, n), o, overrides);
  }

  /** A key that ends with the name `o` matches only if rewriting it under `o` gives one that does. */
  lemma OnlyOneRewriting(k: string, t: string, o: string, overrides: seq<string>)
    requires NoColons(overrides) && o in overrides && k == t + (":" + o)
    requires NeverMatches(ReplaceAll(k, ":" + o), overrides)
    ensures NeverMatches(k, overrides)
  {
    EndsAfter(t, o);
    assert k[|t|] == ':';
    forall name | name in overrides ensures !Derives(k, name, overrides) {
      assert NoColon(name);
      forall q | q in overrides && EndsWith(k, ":" + q) ensures !DerivesBy(k, name, q, overrides) {
        OneSuffix(k, o, q);
      }
    }
  }

  function NonEmpty(overrides: seq<string>): seq<string> {
    Without(overrides, {""})
  }

  lemma NonEmptyElem(overrides: seq<string>, o: string)
    ensures o in NonEmpty(overrides) <==> o in overrides && o != ""
  {
    WithoutElem(overrides, {""}, o);
  }

  lemma {:induction false} DerivesMore(k: string, x: string, names: seq<string>, overrides: seq<string>)
    requires Derives(k, x, names) && forall o :: o in names ==> o in overrides
    ensures Derives(k, x, overrides)
    decreases |k|
  {
    if k != x {
      var o :| o in names && EndsWith(k, ":" + o) && DerivesBy(k, x, o, names);
      ReplaceAllShortens(k, ":" + o);
      DerivesMore(ReplaceAll(k, ":" + o), x, names, overrides);
      assert DerivesBy(k, x, o, overrides);
    }
  }

  /** An empty part of OVERRIDES makes no difference to a key made of names that are not empty. */
  lemma NonEmptyMatches(k: string, overrides: seq<string>)
    requires NoColons(overrides) && PrefixFree(NonEmpty(overrides)) && IsKey(k, NonEmpty(overrides))
    ensures !NeverMatches(k, overrides)
  {
    hide Derives, IsKey, NonEmpty, PrefixFree;
    var names := NonEmpty(overrides);
    forall o ensures o in names <==> o in overrides && o != "" { NonEmptyElem(overrides, o); }
    KeyMatches(k, names);
    var o :| o in names && Derives(k, o, names);
    DerivesMore(k, o, names, overrides);
  }

  /**
   Exactly if some override name is a proper prefix of another, some key made of override names can
   never match.
   */
  lemma PrefixFreeIff(overrides: seq<string>)
    requires NoColons(overrides)
    ensures PrefixFree(NonEmpty(overrides)) <==>
      forall k :: IsKey(k, NonEmpty(overrides)) ==> !NeverMatches(k, overrides)
  {
    hide IsKey, NeverMatches, NonEmpty;
    var names := NonEmpty(overrides);
    if PrefixFree(names) {
      forall k | IsKey(k, names) ensures !NeverMatches(k, overrides) { NonEmptyMatches(k, overrides); }
    } else {
      var o, p :| o in names && p in names && StartsWith(p, o) && o != p;
      NonEmptyElem(overrides, o);
      NonEmptyElem(overrides, p);
      RepeatedIsKey(p, o, Longest(overrides), names);
      RepeatedNeverMatches(p, o, overrides);
    }
  }

  // ---- the loop ----

  /** The active keys after the body of the inner loop has rewritten `a`. */
  function Rewritten(active: map<string, string>, a: string, o: string): map<string, string>
    requires a in active
  {
    (active - {a})[ReplaceAll(a, ":" + o) := active[a]]
  }

  lemma RewrittenShrinks(active: map<string, string>, a: string, o: string)
    requires a in active && EndsWith(a, ":" + o)
    ensures TotalLength(Rewritten(active, a, o).Keys) < TotalLength(active.Keys)
    ensures Rewritten(active, a, o).Values <= active.Values
  {
    ReplaceAllShortens(a, ":" + o);
    TotalLengthDrops(active.Keys, a, ReplaceAll(a, ":" + o));
    assert Rewritten(active, a, o).Keys == active.Keys - {a} + {ReplaceAll(a, ":" + o)};
  }

  /** What is known of the keys and the match while the overrides are swept. */
  datatype Choice = Choice(active: map<string, string>, chosen: Option<string>)

  ghost predicate AllKeys(active: map<string, string>, overrides: seq<string>) {
    forall a :: a in active ==> IsKey(a, overrides)
  }

  /** Nothing is lost: values come from `c`, and as long as nothing is chosen, something is active. */
  ghost predicate Follows(c: Choice, c': Choice) {
    && TotalLength(c'.active.Keys) <= TotalLength(c.active.Keys)
    && c'.active.Values <= c.active.Values
    && (c'.chosen == c.chosen || (c'.chosen.Some? && c'.chosen.value in c.active.Values))
    && (c.active != map[] && c'.active == map[] ==> c'.chosen.Some?)
  }

  lemma FollowsTwice(c: Choice, c1: Choice, c2: Choice)
    requires Follows(c, c1) && Follows(c1, c2)
    ensures Follows(c, c2)
  {
  }

  /** One key under one override: the body of the inner loop. */
  function Visit(c: Choice, a: string, o: string): Choice
    requires a in c.active
  {
    if EndsWith(a, ":" + o) then c.(active := Rewritten(c.active, a, o))
    else if a == o then Choice(c.active - {a}, Some(c.active[a]))
    else c
  }

  lemma VisitFollows(c: Choice, a: string, o: string)
    requires a in c.active
    ensures Follows(c, Visit(c, a, o))
    ensures EndsWith(a, ":" + o) ==> TotalLength(Visit(c, a, o).active.Keys) < TotalLength(c.active.Keys)
  {
    if EndsWith(a, ":" + o) {
      RewrittenShrinks(c.active, a, o);
      assert ReplaceAll(a, ":" + o) in Rewritten(c.active, a, o);
    } else if a == o {
      TotalLengthMinus(c.active.Keys, a);
      assert (c.active - {a}).Keys == c.active.Keys - {a};
    }
  }

  /**
   Every key that is active now was made by rewriting one that was active before, with its value;
   every key that was active has left one that is still active, or has come down to an override name,
   and then something has been chosen; and what has been chosen is the value of a key that has.
   */
  ghost predicate Traced(c: Choice, c': Choice, overrides: seq<string>) {
    && (forall b :: b in c'.active ==> exists a :: Origin(c, a, b, c'.active[b], overrides))
    && (forall a :: a in c.active ==> exists x :: Descends(c', a, x, overrides))
    && (c'.chosen == c.chosen ||
        (c'.chosen.Some? && exists a, o :: o in overrides && Origin(c, a, o, c'.chosen.value, overrides)))
  }

  ghost predicate Origin(c: Choice, a: string, b: string, value: string, overrides: seq<string>) {
    a in c.active && c.active[a] == value && Derives(a, b, overrides)
  }

  ghost predicate Descends(c: Choice, a: string, x: string, overrides: seq<string>) {
    Derives(a, x, overrides) && (x in c.active || (x in overrides && c.chosen.Some?))
  }

  lemma TracedNot(c: Choice, overrides: seq<string>)
    ensures Traced(c, c, overrides)
  {
    forall a | a in c.active ensures Origin(c, a, a, c.active[a], overrides) && Descends(c, a, a, overrides) {}
  }

  lemma TracedTwice(c: Choice, c1: Choice, c2: Choice, overrides: seq<string>)
    requires Traced(c, c1, overrides) && Traced(c1, c2, overrides)
    ensures Traced(c, c2, overrides)
  {
    hide Derives;
    forall b, y, value | Origin(c1, b, y, value, overrides) ensures exists a :: Origin(c, a, y, value, overrides) {
      var a :| Origin(c, a, b, c1.active[b], overrides);
      DerivesTwice(a, b, y, overrides);
      assert Origin(c, a, y, value, overrides);
    }
    forall a | a in c.active ensures exists x :: Descends(c2, a, x, overrides) {
      var x :| Descends(c1, a, x, overrides);
      if x in c1.active {
        var y :| Descends(c2, x, y, overrides);
        DerivesTwice(a, x, y, overrides);
        assert Descends(c2, a, y, overrides);
      } else {
        assert Descends(c2, a, x, overrides);
      }
    }
  }

  lemma VisitTraced(c: Choice, a: string, o: string, overrides: seq<string>)
    requires a in c.active && o in overrides
    ensures Traced(c, Visit(c, a, o), overrides)
  {
    var c' := Visit(c, a, o);
    var x := ReplaceAll(a, ":" + o);
    if EndsWith(a, ":" + o) { DerivesOne(a, o, overrides); }
    hide ReplaceAll, EndsWith, DerivesBy;
    forall b | b in c'.active ensures exists k :: Origin(c, k, b, c'.active[b], overrides) {
      assert Origin(c, if EndsWith(a, ":" + o) && b == x then a else b, b, c'.active[b], overrides);
    }
    forall b | b in c.active ensures exists y :: Descends(c', b, y, overrides) {
      assert Descends(c', b, if EndsWith(a, ":" + o) && b == a then x else b, overrides);
    }
    if !EndsWith(a, ":" + o) && a == o { assert Origin(c, a, o, c.active[a], overrides); }
  }

  /** No override says anything about the key. */
  ghost predicate Untouched(a: string, overrides: seq<string>) {
    forall o :: o in overrides ==> a != o && !EndsWith(a, ":" + o)
  }

  /** A key that can be rewritten until no override says anything about it never matches: there is one way to rewrite. */
  lemma {:induction false} StuckNeverMatches(a: string, x: string, overrides: seq<string>, o: string)
    requires NoColons(overrides) && o in overrides && Derives(a, x, overrides) && Untouched(x, overrides)
    ensures !Derives(a, o, overrides)
    decreases |a|
  {
    hide EndsWith, ReplaceAll;
    if a != x {
      var p :| p in overrides && EndsWith(a, ":" + p) && DerivesBy(a, x, p, overrides);
      ReplaceAllShortens(a, ":" + p);
      StuckNeverMatches(ReplaceAll(a, ":" + p), x, overrides, o);
      NoSuffix(o, p);
      forall q | q in overrides && EndsWith(a, ":" + q) ensures !DerivesBy(a, o, q, overrides) {
        OneSuffix(a, p, q);
      }
    }
  }

  /** Per input: everything is consumed iff every active key can match, and something is chosen iff one can. */
  lemma TracedIff(c: Choice, c': Choice, overrides: seq<string>)
    requires Traced(c, c', overrides) && c.chosen == None && NoColons(overrides)
    requires forall a :: a in c'.active ==> Untouched(a, overrides)
    ensures c'.active == map[] <==> forall a :: a in c.active ==> !NeverMatches(a, overrides)
    ensures c'.chosen.Some? <==> exists a :: a in c.active && !NeverMatches(a, overrides)
  {
    TracedNever(c, c', overrides);
    hide Derives, Untouched;
    forall x | x in c'.active ensures exists a :: a in c.active && NeverMatches(a, overrides) {
      var a :| Origin(c, a, x, c'.active[x], overrides);
      forall o | o in overrides ensures !Derives(a, o, overrides) { StuckNeverMatches(a, x, overrides, o); }
      assert a in c.active && NeverMatches(a, overrides);
    }
    forall a | a in c.active && !NeverMatches(a, overrides) ensures c'.chosen.Some? {
      var x :| Descends(c', a, x, overrides);
      var o :| o in overrides && Derives(a, o, overrides);
      if x in c'.active { StuckNeverMatches(a, x, overrides, o); }
    }
  }

  /** A key that never matches leaves something active, and only keys that can match are chosen. */
  lemma TracedNever(c: Choice, c': Choice, overrides: seq<string>)
    requires Traced(c, c', overrides) && c.chosen == None
    ensures (exists a :: a in c.active && NeverMatches(a, overrides)) ==> c'.active != map[]
    ensures c'.chosen.Some? ==>
      exists a :: a in c.active && c.active[a] == c'.chosen.value && !NeverMatches(a, overrides)
  {
    hide Derives;
    forall a | a in c.active && NeverMatches(a, overrides) ensures c'.active != map[] {
      var x :| Descends(c', a, x, overrides);
      assert x in c'.active;
    }
    if c'.chosen.Some? {
      var a, o :| o in overrides && Origin(c, a, o, c'.chosen.value, overrides);
      assert Derives(a, o, overrides);
    }
  }

  /** The inner loop: every active key, for one override. The iteration order is left open. */
  method Sweep(c: Choice, o: string, ghost overrides: seq<string>) returns (c': Choice, mod: bool)
    requires o in overrides
    ensures Follows(c, c')
    ensures mod ==> TotalLength(c'.active.Keys) < TotalLength(c.active.Keys)
    ensures !mod ==> c'.active == c.active - {o} && forall a :: a in c'.active ==> !EndsWith(a, ":" + o)
    ensures !mod ==> c'.chosen == if o in c.active then Some(c.active[o]) else c.chosen
    ensures Names(overrides) && PrefixFree(overrides) && AllKeys(c.active, overrides) ==> AllKeys(c'.active, overrides)
    ensures mod <==> exists a :: a in c.active && EndsWith(a, ":" + o)
    ensures Traced(c, c', overrides)
  {
    hide Traced;
    c', mod := c, false;
    TracedNot(c, overrides);
    var todo := c.active.Keys;
    while todo != {}
      invariant todo <= c.active.Keys && todo <= c'.active.Keys
      invariant Follows(c, c')
      invariant mod ==> TotalLength(c'.active.Keys) < TotalLength(c.active.Keys)
      invariant mod ==> exists a :: a in c.active && EndsWith(a, ":" + o)
      invariant !mod ==> c'.active == c.active - if o in todo then {} else {o}
      invariant !mod ==> forall a :: a in c.active && a !in todo ==> !EndsWith(a, ":" + o)
      invariant !mod ==> c'.chosen == if o in c.active && o !in todo then Some(c.active[o]) else c.chosen
      invariant Names(overrides) && PrefixFree(overrides) && AllKeys(c.active, overrides) ==>
        AllKeys(c'.active, overrides)
      invariant Traced(c, c', overrides)
      decreases todo
    {
      var a :| a in todo;
      VisitFollows(c', a, o);
      VisitTraced(c', a, o, overrides);
      TracedTwice(c, c', Visit(c', a, o), overrides);
      FollowsTwice(c, c', Visit(c', a, o));
      if Names(overrides) && PrefixFree(overrides) && IsKey(a, overrides) {
        KeyStaysKey(a, o, overrides);
      }
      if EndsWith(a, ":" + o) {
        mod := true;
      }
      c' := Visit(c', a, o);
      todo := todo - {a};
    }
  }

  /** Distinct names: the chosen one is the last of OVERRIDES that is active. */
  ghost predicate LatestOf(overrides: seq<string>, n: nat, active: map<string, string>, chosen: Option<string>)
    requires n <= |overrides|
  {
    match chosen
    case None => forall j :: 0 <= j < n ==> overrides[j] !in active
    case Some(r) =>
      exists j :: 0 <= j < n && overrides[j] in active && r == active[overrides[j]] &&
        forall k :: j < k < n ==> overrides[k] !in active
  }

  ghost predicate SingleNames(active: map<string, string>) {
    forall a :: a in active ==> NoColon(a)
  }

  /** What one pass over the overrides `[..n]` has done, if it has rewritten nothing. */
  ghost predicate Quiet(c: Choice, c': Choice, overrides: seq<string>, n: nat)
    requires n <= |overrides|
  {
    && (forall a :: a in c'.active <==> a in c.active && a !in overrides[..n])
    && (forall a :: a in c'.active ==> c'.active[a] == c.active[a])
    && (forall a, j :: a in c'.active && 0 <= j < n ==> !EndsWith(a, ":" + overrides[j]))
    && (NoDup(overrides) && c.chosen == None ==> LatestOf(overrides, n, c.active, c'.chosen))
  }

  lemma QuietStep(c: Choice, c1: Choice, c2: Choice, overrides: seq<string>, n: nat)
    requires n < |overrides| && Quiet(c, c1, overrides, n)
    requires c2.active == c1.active - {overrides[n]}
    requires forall a :: a in c2.active ==> !EndsWith(a, ":" + overrides[n])
    requires c2.chosen == if overrides[n] in c1.active then Some(c1.active[overrides[n]]) else c1.chosen
    ensures Quiet(c, c2, overrides, n + 1)
  {
    assert overrides[..n + 1] == overrides[..n] + [overrides[n]];
    if NoDup(overrides) && c.chosen == None {
      assert overrides[n] !in overrides[..n];
      LatestStep(overrides, n, c.active, c1.chosen, c2.chosen);
    }
  }

  lemma LatestStep(overrides: seq<string>, n: nat, active: map<string, string>, chosen: Option<string>,
      chosen': Option<string>)
    requires n < |overrides| && LatestOf(overrides, n, active, chosen)
    requires chosen' == if overrides[n] in active then Some(active[overrides[n]]) else chosen
    ensures LatestOf(overrides, n + 1, active, chosen')
  {
    if overrides[n] !in active && chosen.Some? {
      var j :| 0 <= j < n && overrides[j] in active && chosen.value == active[overrides[j]] &&
        forall k :: j < k < n ==> overrides[k] !in active;
      assert forall k :: j < k < n + 1 ==> overrides[k] !in active;
    }
  }

  /** One round of the outer loop: all overrides in order. */
  method Pass(c: Choice, overrides: seq<string>) returns (c': Choice, mod: bool)
    ensures Follows(c, c')
    ensures mod ==> TotalLength(c'.active.Keys) < TotalLength(c.active.Keys)
    ensures !mod ==> Quiet(c, c', overrides, |overrides|)
    ensures SingleNames(c.active) ==> !mod
    ensures Names(overrides) && PrefixFree(overrides) && AllKeys(c.active, overrides) ==> AllKeys(c'.active, overrides)
    ensures Traced(c, c', overrides)
  {
    hide Traced, Quiet, Names, PrefixFree, AllKeys, SingleNames;
    c', mod := c, false;
    TracedNot(c, overrides);
    QuietStart(c, overrides);
    for i := 0 to |overrides|
      invariant Follows(c, c')
      invariant mod ==> TotalLength(c'.active.Keys) < TotalLength(c.active.Keys)
      invariant !mod ==> Quiet(c, c', overrides, i)
      invariant SingleNames(c.active) ==> !mod
      invariant Names(overrides) && PrefixFree(overrides) && AllKeys(c.active, overrides) ==>
        AllKeys(c'.active, overrides)
      invariant Traced(c, c', overrides)
    {
      var c1, m := Sweep(c', overrides[i], overrides);
      FollowsTwice(c, c', c1);
      TracedTwice(c, c', c1, overrides);
      if !mod && !m {
        QuietStep(c, c', c1, overrides, i);
      }
      if SingleNames(c.active) {
        SingleNamesStay(c, c', overrides, i);
      }
      mod := mod || m;
      c' := c1;
    }
  }

  lemma QuietStart(c: Choice, overrides: seq<string>)
    ensures Quiet(c, c, overrides, 0)
  {
  }

  lemma SingleNamesStay(c: Choice, c': Choice, overrides: seq<string>, n: nat)
    requires SingleNames(c.active) && n < |overrides| && Quiet(c, c', overrides, n)
    ensures forall a :: a in c'.active ==> !EndsWith(a, ":" + overrides[n])
  {
    forall a | a in c'.active ensures !EndsWith(a, ":" + overrides[n]) {
      var suffix := ":" + overrides[n];
      assert |suffix| <= |a| ==> a[|a| - |suffix|..][0] == a[|a| - |suffix|] != ':';
    }
  }

  /** After a pass that rewrites nothing, a key that is still active cannot exist. */
  lemma QuietConsumes(c: Choice, c': Choice, overrides: seq<string>)
    requires Quiet(c, c', overrides, |overrides|) && AllKeys(c'.active, overrides)
    ensures c'.active == map[]
  {
    forall a | a in c'.active ensures false {
      KeyIsTouched(a, overrides);
    }
  }

  lemma QuietUntouched(c: Choice, c': Choice, overrides: seq<string>)
    requires Quiet(c, c', overrides, |overrides|)
    ensures forall a :: a in c'.active ==> Untouched(a, overrides)
  {
    assert overrides[..|overrides|] == overrides;
  }

  /**
   The loop that goes on as long as a key has been rewritten. It always terminates, and no override
   says anything about the keys that are left. When the override names are colon-free, non-empty and
   none is a proper prefix of another, every active key is consumed, and something is chosen iff
   something was active. Whatever the names are, everything is consumed iff every active key can match,
   something is chosen iff one can, and what is chosen is the value of one that can. Distinct single
   names: the latest of OVERRIDES is chosen.
   */
  method Select(active: map<string, string>, overrides: seq<string>) returns (c: Choice)
    ensures Traced(Choice(active, None), c, overrides)
    ensures forall a :: a in c.active ==> Untouched(a, overrides)
    ensures Names(overrides) && PrefixFree(overrides) && AllKeys(active, overrides) ==>
      c.active == map[] && (c.chosen.Some? <==> active != map[])
    ensures (exists a :: a in active && NeverMatches(a, overrides)) ==> c.active != map[]
    ensures NoColons(overrides) ==>
      (c.active == map[] <==> forall a :: a in active ==> !NeverMatches(a, overrides))
    ensures NoColons(overrides) ==> (c.chosen.Some? <==> exists a :: a in active && !NeverMatches(a, overrides))
    ensures c.chosen.Some? ==>
      exists a :: a in active && active[a] == c.chosen.value && !NeverMatches(a, overrides)
    ensures SingleNames(active) && NoDup(overrides) ==> LatestOf(overrides, |overrides|, active, c.chosen)
  {
    hide Traced, NeverMatches, Untouched;
    c := Choice(active, None);
    ghost var start := c;
    TracedNot(c, overrides);
    var mod := true;
    while mod
      invariant Follows(start, c) && Traced(start, c, overrides)
      invariant Names(overrides) && PrefixFree(overrides) && AllKeys(active, overrides) ==>
        AllKeys(c.active, overrides) && (!mod ==> c.active == map[])
      invariant SingleNames(active) ==> if mod then c == start else Quiet(start, c, overrides, |overrides|)
      invariant !mod ==> forall a :: a in c.active ==> Untouched(a, overrides)
      decreases TotalLength(c.active.Keys), mod
    {
      ghost var before := c;
      c, mod := Pass(c, overrides);
      FollowsTwice(start, before, c);
      TracedTwice(start, before, c, overrides);
      if !mod {
        QuietUntouched(before, c, overrides);
        if AllKeys(c.active, overrides) {
          QuietConsumes(before, c, overrides);
        }
      }
    }
    TracedNever(start, c, overrides);
    if NoColons(overrides) {
      TracedIff(start, c, overrides);
    }
  }

  // ---- from the override index to the keys ----

  lemma ActiveIsKey(o: string, overrides: seq<string>)
    requires Active(o, Elems(overrides))
    ensures IsKey(o, overrides)
  {
    if o in overrides {
      assert Parts([o], overrides) && Join([o]) == o;
    } else {
      JoinSplit(o);
      assert forall i :: 0 <= i < |Split(o)| ==> Split(o)[i] in Split(o);
      assert Parts(Split(o), overrides);
    }
  }

  /** Entry `i` is the last for its key. */
  ghost predicate LastEntry(list: Overrides, n: nat, i: nat)
    requires i < n <= |list|
  {
    forall k :: i < k < n ==> list[k].1 != list[i].1
  }

  /** `active` has the active keys of the first `n` entries, each from its last entry. */
  ghost predicate Entries(list: Overrides, n: nat, overrides: seq<string>, active: map<string, string>)
    requires n <= |list|
  {
    && (forall i :: 0 <= i < n && Active(list[i].1, Elems(overrides)) ==> list[i].1 in active)
    && (forall o :: o in active ==> Active(o, Elems(overrides)))
    && forall o :: o in active ==> exists i :: 0 <= i < n && list[i] == (active[o], o) && LastEntry(list, n, i)
  }

  lemma EntriesStep(list: Overrides, n: nat, overrides: seq<string>, active: map<string, string>)
    requires n < |list| && Entries(list, n, overrides, active)
    ensures Entries(list, n + 1, overrides,
      if Active(list[n].1, Elems(overrides)) then active[list[n].1 := list[n].0] else active)
  {
    hide Active;
    var active' := if Active(list[n].1, Elems(overrides)) then active[list[n].1 := list[n].0] else active;
    forall o | o in active'
      ensures exists i :: 0 <= i < n + 1 && list[i] == (active'[o], o) && LastEntry(list, n + 1, i)
    {
      if o == list[n].1 {
        assert list[n] == (active'[o], o) && LastEntry(list, n + 1, n);
      } else {
        var i :| 0 <= i < n && list[i] == (active[o], o) && LastEntry(list, n, i);
        assert LastEntry(list, n + 1, i);
      }
    }
  }

  /** The keys of the entries of `overridedata[var]` that are active; a later entry wins. */
  method ActiveEntries(list: Overrides, overrides: seq<string>) returns (active: map<string, string>)
    ensures AllKeys(active, overrides) && Entries(list, |list|, overrides, active)
  {
    hide Active;
    active := map[];
    var names := Elems(overrides);
    for i := 0 to |list|
      invariant AllKeys(active, overrides) && Entries(list, i, overrides, active)
    {
      EntriesStep(list, i, overrides, active);
      var (r, o) := list[i];
      if Active(o, names) {
        ActiveIsKey(o, overrides);
        active := active[o := r];
      }
    }
  }

  /** Of the entries for single names, one for the latest name of OVERRIDES that has any, and its last. */
  ghost predicate LatestEntry(list: Overrides, overrides: seq<string>, chosen: Option<string>) {
    match chosen
    case None => forall i :: 0 <= i < |list| ==> list[i].1 !in overrides
    case Some(r) =>
      exists i, j :: 0 <= i < |list| && 0 <= j < |overrides| && list[i] == (r, overrides[j]) && LastEntry(list, |list|, i) &&
        forall k, m :: 0 <= k < |list| && j < m < |overrides| ==> list[k].1 != overrides[m]
  }

  lemma LatestOfEntries(list: Overrides, overrides: seq<string>, active: map<string, string>, chosen: Option<string>)
    requires Entries(list, |list|, overrides, active) && LatestOf(overrides, |overrides|, active, chosen)
    ensures LatestEntry(list, overrides, chosen)
  {
    forall i | 0 <= i < |list| && list[i].1 in overrides ensures list[i].1 in active {
      assert list[i].1 in Elems(overrides) && Active(list[i].1, Elems(overrides));
    }
    if chosen.Some? {
      var j :| 0 <= j < |overrides| && overrides[j] in active && chosen.value == active[overrides[j]] &&
        forall k :: j < k < |overrides| ==> overrides[k] !in active;
      var i :| 0 <= i < |list| && list[i] == (active[overrides[j]], overrides[j]) && LastEntry(list, |list|, i);
      assert list[i] == (chosen.value, overrides[j]);
    }
  }

  ghost predicate CanMatch(k: string, overrides: seq<string>) {
    Active(k, Elems(overrides)) && !NeverMatches(k, overrides)
  }

  /** The whole selection of `getVarFlag`: which variable overrides this one, if any. */
  method Overriding(list: Overrides, overrides: seq<string>) returns (chosen: Option<string>)
    ensures chosen.Some? ==>
      exists i :: 0 <= i < |list| && list[i].0 == chosen.value && CanMatch(list[i].1, overrides)
    ensures Names(overrides) && PrefixFree(overrides) ==>
      (chosen.Some? <==> exists i :: 0 <= i < |list| && Active(list[i].1, Elems(overrides)))
    ensures NoColons(overrides) ==>
      (chosen.Some? <==> exists i :: 0 <= i < |list| && CanMatch(list[i].1, overrides))
    ensures (forall i :: 0 <= i < |list| ==> NoColon(list[i].1)) && NoDup(overrides) ==>
      LatestEntry(list, overrides, chosen)
  {
    hide Active, NeverMatches;
    var active := ActiveEntries(list, overrides);
    var c := Select(active, overrides);
    chosen := c.chosen;
    if chosen.Some? {
      ghost var o :| o in active && active[o] == chosen.value && !NeverMatches(o, overrides);
      ghost var i :| 0 <= i < |list| && list[i] == (active[o], o);
      assert list[i].0 == chosen.value && CanMatch(list[i].1, overrides);
    }
    if (forall i :: 0 <= i < |list| ==> NoColon(list[i].1)) && NoDup(overrides) {
      LatestOfEntries(list, overrides, active, chosen);
    }
  }

  lemma EatenText()
    ensures ReplaceAll("x:ab:a", ":a") == "xb"
  {
    var s := "x:ab:a";
    assert s[1..] == ":ab:a" && ":ab:a"[2..] == "b:a" && "b:a"[1..] == ":a" && ":a"[2..] == "";
    assert ":ab:a"[..2] == ":a" && ":a"[..2] == ":a";
    assert ReplaceAll(":a", ":a") == "";
    DiffersAt("b:a", ":a", 0);
    assert ReplaceAll("b:a", ":a") == "b";
    assert ReplaceAll(":ab:a", ":a") == "b";
    DiffersAt(s, ":a", 0);
  }

  lemma EatenKey()
    ensures IsKey("x:ab:a", ["x", "ab", "a"])
  {
    var parts := ["x", "ab", "a"];
    assert parts[1..] == ["ab", "a"] && ["ab", "a"][1..] == ["a"] && ["a"][1..] == [];
    assert Tail(["a"]) == ":a";
    assert Tail(["ab", "a"]) == ":ab:a";
    assert Parts(parts, ["x", "ab", "a"]) && Join(parts) == "x:ab:a";
  }

  lemma LastDiffers(s: string, o: string)
    requires s != "" && o != "" && s[|s| - 1] != o[|o| - 1]
    ensures !EndsWith(s, ":" + o)
  {
    var pat := ":" + o;
    assert |pat| <= |s| ==> s[|s| - |pat|..][|pat| - 1] == s[|s| - 1];
  }

  lemma TooLong(s: string, o: string)
    requires |s| <= |o|
    ensures !EndsWith(s, ":" + o)
  {
  }

  lemma EatenEnds()
    ensures !EndsWith("x:ab:a", ":" + "x") && !EndsWith("x:ab:a", ":" + "ab") && EndsWith("x:ab:a", ":" + "a")
    ensures !EndsWith("xb", ":" + "x") && !EndsWith("xb", ":" + "ab") && !EndsWith("xb", ":" + "a")
  {
    hide EndsWith;
    LastDiffers("x:ab:a", "x");
    LastDiffers("x:ab:a", "ab");
    EndsAfter("x:ab", "a");
    assert "x:ab" + (":" + "a") == "x:ab:a";
    LastDiffers("xb", "x");
    TooLong("xb", "ab");
    LastDiffers("xb", "a");
  }

  /** What "x:ab:a" can become: under "a", the start of "ab" goes as well. */
  lemma EatenDerives(b: string)
    requires Derives("x:ab:a", b, ["x", "ab", "a"])
    ensures b == "x:ab:a" || b == "xb"
  {
    hide EndsWith, ReplaceAll;
    EatenText();
    EatenEnds();
    var overrides := ["x", "ab", "a"];
    assert ":" + "a" == ":a";
    if b != "x:ab:a" {
      var o :| o in overrides && EndsWith("x:ab:a", ":" + o) && DerivesBy("x:ab:a", b, o, overrides);
      assert o == "a" && Derives("xb", b, overrides);
    }
  }

  lemma EatenNever()
    ensures NeverMatches("x:ab:a", ["x", "ab", "a"]) && !Untouched("x:ab:a", ["x", "ab", "a"])
  {
    EatenEnds();
    hide Derives, EndsWith;
    var overrides := ["x", "ab", "a"];
    forall o | o in overrides ensures !Derives("x:ab:a", o, overrides) { EatenNot(o); }
    assert "a" in overrides && EndsWith("x:ab:a", ":" + "a");
  }

  lemma EatenNot(o: string)
    requires o == "x" || o == "ab" || o == "a"
    ensures !Derives("x:ab:a", o, ["x", "ab", "a"])
  {
    hide Derives;
    if Derives("x:ab:a", o, ["x", "ab", "a"]) { EatenDerives(o); }
  }

  lemma OnlyMangled(overrides: seq<string>, active: map<string, string>, c: Choice, b: string)
    requires overrides == ["x", "ab", "a"] && active == map["x:ab:a" := "V"]
    requires Traced(Choice(active, None), c, overrides) && b in c.active && Untouched(b, overrides)
    ensures b == "xb" && c.active[b] == "V"
  {
    EatenNever();
    hide Derives, Untouched, NeverMatches, Descends;
    var a :| Origin(Choice(active, None), a, b, c.active[b], overrides);
    EatenDerives(b);
  }

  /** OVERRIDES "x:ab:a" and the active key "x:ab:a": "xb" is what stays, and nothing is chosen. */
  method PrefixEaten(overrides: seq<string>, active: map<string, string>) returns (c: Choice)
    requires overrides == ["x", "ab", "a"] && active == map["x:ab:a" := "V"]
    ensures AllKeys(active, overrides)
    ensures c.active == map["xb" := "V"] && c.chosen == None
  {
    hide Derives, NeverMatches, IsKey, Traced, Untouched, LatestOf, Names, PrefixFree;
    EatenKey();
    EatenNever();
    c := Select(active, overrides);
    forall b | b in c.active ensures b == "xb" && c.active[b] == "V" { OnlyMangled(overrides, active, c, b); }
    assert exists b :: b in c.active;
  }

  // ---- the whole selection, when one name is a proper prefix of another ----

  lemma KeyIsActive(k: string, overrides: seq<string>)
    requires NoColons(overrides) && IsKey(k, overrides)
    ensures Active(k, Elems(overrides))
  {
    var parts :| Parts(parts, overrides) && k == Join(parts);
    SplitJoin(parts);
    if |parts| == 1 {
      assert k == parts[0];
    }
  }

  /** A list of overriding variables that is active, and from which nothing is ever chosen. */
  method NeverChosen(overrides: seq<string>, o: string, p: string) returns (list: Overrides, chosen: Option<string>)
    requires NoColons(overrides) && o in overrides && p in overrides && StartsWith(p, o) && p != o
    ensures |list| == 1 && Active(list[0].1, Elems(overrides))
    ensures chosen == None
  {
    hide NeverMatches;
    var k := Repeated(p, o, Longest(overrides));
    RepeatedIsKey(p, o, Longest(overrides), overrides);
    KeyIsActive(k, overrides);
    RepeatedNeverMatches(p, o, overrides);
    list := [("V", k)];
    chosen := Overriding(list, overrides);
  }
}

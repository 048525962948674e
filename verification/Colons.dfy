/** Splitting at colons and joining with them, and prefixes, as several components do. */
module Colons {

  predicate NoColon(s: string) {
    forall i :: 0 <= i < |s| ==> s[i] != ':'
  }

  predicate StartsWith(s: string, prefix: string) {
    |prefix| <= |s| && s[..|prefix|] == prefix
  }

  function Split(s: string): (parts: seq<string>)
    ensures |parts| >= 1
  {
    if s == "" then [""]
    else
      var rest := Split(s[1..]);
      if s[0] == ':' then [""] + rest else [[s[0]] + rest[0]] + rest[1..]
  }

  function Join(parts: seq<string>): string
    requires parts != []
  {
    parts[0] + Tail(parts[1..])
  }

  function Tail(parts: seq<string>): string {
    if parts == [] then "" else ":" + parts[0] + Tail(parts[1..])
  }

  lemma {:induction false} JoinSplit(s: string)
    ensures Join(Split(s)) == s
  {
    if s != "" {
      JoinSplit(s[1..]);
      var rest := Split(s[1..]);
      if s[0] == ':' {
        assert Tail(rest) == ":" + rest[0] + Tail(rest[1..]);
      } else {
        assert ([[s[0]] + rest[0]] + rest[1..])[1..] == rest[1..];
      }
    }
  }

  lemma {:induction false} SplitHasNoColons(s: string, i: nat)
    requires i < |Split(s)|
    ensures NoColon(Split(s)[i])
  {
    if s != "" {
      if s[0] == ':' {
        if i > 0 { SplitHasNoColons(s[1..], i - 1); }
      } else {
        SplitHasNoColons(s[1..], i);
      }
    }
  }

  lemma {:induction false} SplitNoColon(s: string)
    requires NoColon(s)
    ensures Split(s) == [s]
  {
    if s != "" {
      SplitNoColon(s[1..]);
      assert [s[0]] + s[1..] == s;
    }
  }

  lemma {:induction false} SplitAtColon(a: string, b: string)
    requires NoColon(a)
    ensures Split(a + ":" + b) == [a] + Split(b)
  {
    var s := a + ":" + b;
    if a == "" {
      assert s[1..] == b;
    } else {
      SplitAtColon(a[1..], b);
      assert s[1..] == a[1..] + ":" + b;
      assert [a[0]] + a[1..] == a;
    }
  }

  lemma {:induction false} SplitJoin(parts: seq<string>)
    requires parts != [] && forall i :: 0 <= i < |parts| ==> NoColon(parts[i])
    ensures Split(Join(parts)) == parts
  {
    if |parts| == 1 {
      assert Join(parts) == parts[0];
      SplitNoColon(parts[0]);
    } else {
      var rest := parts[1..];
      SplitJoin(rest);
      assert Join(parts) == parts[0] + ":" + Join(rest) by {
        assert Tail(rest) == ":" + rest[0] + Tail(rest[1..]);
      }
      SplitAtColon(parts[0], Join(rest));
    }
  }
}

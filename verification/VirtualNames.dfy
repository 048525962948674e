/**
 bitbake/lib/bb/cache.py, `virtualfn2realfn`, `realfn2virtual` and `variant2virtual`: the names under
 which one recipe file is kept for its variants and multiconfigs, as in `mc:X:virtual:native:/a.bb`.
 */
module VirtualNames {
  import opened Colons

  datatype Parts = Parts(fn: string, cls: string, mc: string)

  /** The number of colons. */
  function CountColons(s: string): (n: nat)
    ensures n == |Split(s)| - 1
  {
    if s == "" then 0 else CountColons(s[1..]) + if s[0] == ':' then 1 else 0
  }

  /** A string with at least two colons, split at the first two. */
  function SplitTwice(s: string): (string, string, string)
    requires CountColons(s) >= 2
  {
    var parts := Split(s);
    (parts[0], parts[1], Join(parts[2..]))
  }

  /** The multiconfig, and the name without it. */
  function TakeMc(virtualfn: string): (string, string) {
    if StartsWith(virtualfn, "mc:") && CountColons(virtualfn) >= 2 then
      var (_, mc, rest) := SplitTwice(virtualfn);
      (mc, rest)
    else ("", virtualfn)
  }

  /** The file name and the class of a name without multiconfig. */
  function TakeClass(virtualfn: string): (string, string) {
    if StartsWith(virtualfn, "virtual:") then
      var elems := Split(virtualfn);
      (elems[|elems| - 1], JoinAll(Middle(elems)))
    else (virtualfn, "")
  }

  function Virtual2Real(virtualfn: string): Parts {
    var (mc, rest) := TakeMc(virtualfn);
    var (fn, cls) := TakeClass(rest);
    Parts(fn, cls, mc)
  }

  /** The parts without the first and the last. */
  function Middle(elems: seq<string>): seq<string> {
    if |elems| < 2 then [] else elems[1..|elems| - 1]
  }

  /** Joining parts with colons, of which there may be none. */
  function JoinAll(elems: seq<string>): string {
    if elems == [] then "" else Join(elems)
  }

  function Real2Virtual(realfn: string, cls: string, mc: string): string {
    var inner := if cls != "" then "virtual:" + cls + ":" + realfn else realfn;
    if mc != "" then "mc:" + mc + ":" + inner else inner
  }

  function Variant2Virtual(realfn: string, variant: string): string {
    if variant == "" then realfn
    else if StartsWith(variant, "mc:") && CountColons(variant) >= 2 then
      var elems := Split(variant);
      if elems[2] != "" then "mc:" + elems[1] + ":virtual:" + Join(elems[2..]) + ":" + realfn
      else "mc:" + elems[1] + ":" + realfn
    else "virtual:" + variant + ":" + realfn
  }

  // ---- splitting what was joined ----

  /** What one more character in front does to the parts. */
  function Prepend(c: char, parts: seq<string>): seq<string>
    requires parts != []
  {
    if c == ':' then [""] + parts else [[c] + parts[0]] + parts[1..]
  }

  lemma PrependJoins(c: char, a: seq<string>, b: seq<string>)
    requires a != []
    ensures Prepend(c, a + b) == Prepend(c, a) + b
  {
  }

  lemma {:induction false} SplitConcat(a: string, b: string)
    ensures Split(a + ":" + b) == Split(a) + Split(b)
  {
    var s := a + ":" + b;
    if a == "" {
      assert s[1..] == b;
    } else {
      assert s[0] == a[0] && s[1..] == a[1..] + ":" + b;
      assert Split(s) == Prepend(a[0], Split(s[1..])) && Split(a) == Prepend(a[0], Split(a[1..]));
      SplitConcat(a[1..], b);
      PrependJoins(a[0], Split(a[1..]), Split(b));
    }
  }

  /** A name that starts with a colon-free word and a colon, split twice. */
  lemma SplitTwiceOf(a: string, b: string, c: string)
    requires NoColon(a) && NoColon(b)
    ensures CountColons(a + ":" + b + ":" + c) >= 2 && SplitTwice(a + ":" + b + ":" + c) == (a, b, c)
  {
    var s := a + ":" + b + ":" + c;
    assert s == a + ":" + (b + ":" + c);
    SplitAtColon(a, b + ":" + c);
    SplitAtColon(b, c);
    assert Split(s) == [a, b] + Split(c);
    assert Split(s)[2..] == Split(c);
    JoinSplit(c);
  }

  lemma PartsOfVirtual(fn: string, cls: string)
    requires NoColon(fn)
    ensures Split("virtual:" + cls + ":" + fn) == ["virtual"] + Split(cls) + [fn]
  {
    assert "virtual:" + cls + ":" + fn == "virtual" + ":" + (cls + ":" + fn);
    SplitAtColon("virtual", cls + ":" + fn);
    SplitConcat(cls, fn);
    SplitNoColon(fn);
  }

  lemma InnerRoundTrip(fn: string, cls: string)
    requires NoColon(fn) && cls != ""
    ensures TakeClass("virtual:" + cls + ":" + fn) == (fn, cls)
  {
    var s := "virtual:" + cls + ":" + fn;
    PartsOfVirtual(fn, cls);
    JoinSplit(cls);
    hide Split;
    var elems := ["virtual"] + Split(cls) + [fn];
    assert elems[|elems| - 1] == fn && Middle(elems) == Split(cls);
    assert s[..8] == "virtual:";
  }

  lemma VirtualIsNotMc(rest: string)
    ensures !StartsWith("virtual:" + rest, "mc:")
  {
    var s := "virtual:" + rest;
    assert s[0] == 'v';
    StartsAlike(s, "mc:");
  }

  lemma StartsAlike(s: string, pat: string)
    requires s != "" && pat != ""
    ensures StartsWith(s, pat) ==> s[0] == pat[0]
  {
    if StartsWith(s, pat) { assert s[..|pat|][0] == s[0]; }
  }

  /** A file name without colons is not taken for a virtual one. */
  lemma PlainIsPlain(fn: string)
    requires NoColon(fn)
    ensures !StartsWith(fn, "virtual:") && !StartsWith(fn, "mc:")
  {
    StartHasColon(fn, "virtual:", 7);
    StartHasColon(fn, "mc:", 2);
  }

  lemma StartHasColon(s: string, pat: string, k: nat)
    requires k < |pat| && pat[k] == ':'
    ensures StartsWith(s, pat) ==> !NoColon(s)
  {
    if StartsWith(s, pat) { assert s[k] == pat[k]; }
  }

  lemma McRoundTrip(mc: string, inner: string)
    requires NoColon(mc)
    ensures TakeMc("mc:" + mc + ":" + inner) == (mc, inner)
  {
    SplitTwiceOf("mc", mc, inner);
    assert "mc:" + mc + ":" + inner == "mc" + ":" + mc + ":" + inner;
    assert ("mc:" + mc + ":" + inner)[..3] == "mc:";
  }

  /** Parsing undoes printing, whatever the class says. */
  lemma RoundTrip(fn: string, cls: string, mc: string)
    requires NoColon(fn) && NoColon(mc)
    ensures Virtual2Real(Real2Virtual(fn, cls, mc)) == Parts(fn, cls, mc)
  {
    PlainIsPlain(fn);
    hide NoColon, Split;
    if cls != "" {
      InnerRoundTrip(fn, cls);
      assert "virtual:" + cls + ":" + fn == "virtual:" + (cls + ":" + fn);
      VirtualIsNotMc(cls + ":" + fn);
    }
    McRoundTrip(mc, if cls != "" then "virtual:" + cls + ":" + fn else fn);
  }

  lemma VariantOf(fn: string, x: string, cls: string)
    requires NoColon(x)
    ensures Variant2Virtual(fn, "mc:" + x + ":" + cls) ==
      if cls != "" && cls[0] != ':' then "mc:" + x + ":virtual:" + cls + ":" + fn else "mc:" + x + ":" + fn
  {
    var variant := "mc:" + x + ":" + cls;
    assert variant == "mc" + ":" + x + ":" + cls == "mc" + ":" + (x + ":" + cls);
    SplitTwiceOf("mc", x, cls);
    assert variant[..3] == "mc:";
    SplitAtColon("mc", x + ":" + cls);
    SplitAtColon(x, cls);
    var elems := Split(variant);
    assert elems == ["mc", x] + Split(cls);
    assert elems[2..] == Split(cls);
    hide CountColons;
    JoinSplit(cls);
    FirstPart(cls);
  }

  /** For a variant `mc:X:cls`, the two printers agree exactly when X is not empty and `cls` starts with no colon. */
  lemma VariantAgrees(fn: string, x: string, cls: string)
    requires NoColon(x)
    ensures Variant2Virtual(fn, "mc:" + x + ":" + cls) == Real2Virtual(fn, cls, x)
        <==> x != "" && (cls == "" || cls[0] != ':')
  {
    VariantOf(fn, x, cls);
    hide Variant2Virtual, NoColon;
    if cls != "" && cls[0] != ':' {
      WithClass(fn, x, cls);
    } else {
      WithoutClass(fn, x, cls);
    }
  }

  /** The variant "mc:x::native": one printer drops the class ":native", the other does not. */
  lemma ColonClassDropped(fn: string, x: string, cls: string)
    requires x == "x" && cls == ":native"
    ensures Variant2Virtual(fn, "mc:" + x + ":" + cls) == "mc:" + x + ":" + fn
    ensures Real2Virtual(fn, cls, x) == "mc:" + x + ":" + ("virtual:" + cls + ":" + fn)
  {
    hide Variant2Virtual, Split;
    VariantOf(fn, x, cls);
  }

  lemma WithClass(fn: string, x: string, cls: string)
    requires cls != ""
    ensures "mc:" + x + ":virtual:" + cls + ":" + fn == Real2Virtual(fn, cls, x) <==> x != ""
  {
    var v, inner := "mc:" + x + ":virtual:" + cls + ":" + fn, "virtual:" + cls + ":" + fn;
    if x == "" {
      assert |v| == |inner| + 4;
    } else {
      assert v == "mc:" + x + ":" + inner;
    }
  }

  lemma WithoutClass(fn: string, x: string, cls: string)
    ensures "mc:" + x + ":" + fn == Real2Virtual(fn, cls, x) <==> x != "" && cls == ""
  {
    var v, inner := "mc:" + x + ":" + fn, if cls != "" then "virtual:" + cls + ":" + fn else fn;
    assert cls != "" ==> |inner| == |cls| + |fn| + 9;
    assert |v| == |x| + |fn| + 4;
  }

  lemma FirstPart(cls: string)
    ensures Split(cls)[0] == "" <==> cls == "" || cls[0] == ':'
  {
  }

  /** Any other variant is a class without a multiconfig. */
  lemma PlainVariantAgrees(fn: string, variant: string)
    requires !(StartsWith(variant, "mc:") && CountColons(variant) >= 2)
    ensures Variant2Virtual(fn, variant) == Real2Virtual(fn, variant, "")
  {
  }
}

/**
 scripts/relocate_sdk.py: the texts that are written into an executable. The prefix is replaced in them
 and they are padded with NULs, or put one after the other with their lengths in a list of their own.
 */
module PrefixText {
  import opened Elf
  import opened Options

  // ---- the new text ----

  predicate StartsWith(s: Bytes, pat: Bytes) {
    |pat| <= |s| && s[..|pat|] == pat
  }

  /** `s` with every occurrence of the marker replaced by the new prefix. */
  function Substitute(s: Bytes, marker: Bytes, prefix: Bytes): Bytes
    requires marker != []
    decreases |s|
  {
    if s == [] then []
    else if StartsWith(s, marker) then prefix + Substitute(s[|marker|..], marker, prefix)
    else [s[0]] + Substitute(s[1..], marker, prefix)
  }

  /** `s` without the NULs at its end. */
  function Strip(s: Bytes): (r: Bytes)
    ensures r <= s
  {
    if s != [] && s[|s| - 1] == 0 then Strip(s[..|s| - 1]) else s
  }

  function Zeros(n: nat): (r: Bytes)
    ensures |r| == n && forall i :: 0 <= i < n ==> r[i] == 0
  {
    seq(n, i => 0)
  }

  function NewText(area: Bytes, marker: Bytes, prefix: Bytes): Bytes
    requires marker != []
  {
    Strip(Substitute(area, marker, prefix))
  }

  /** The text padded with NULs to `size` bytes; it must leave room for at least one. */
  function Padded(text: Bytes, size: nat): (r: Option<Bytes>)
    ensures r.Some? <==> |text| < size
    ensures r.Some? ==> |r.value| == size && text < r.value
  {
    if |text| >= size then None else Some(text + Zeros(size - |text|))
  }

  /** What a C program reads at the start of an area. */
  function CString(area: Bytes): Bytes {
    if area == [] || area[0] == 0 then [] else [area[0]] + CString(area[1..])
  }

  /** A padded text without inner NULs reads back as it was given. */
  lemma {:induction false} PaddedReadsBack(text: Bytes, size: nat)
    requires Padded(text, size).Some? && 0 !in text
    ensures CString(Padded(text, size).value) == text
    decreases |text|
  {
    var area := Padded(text, size).value;
    if text != [] {
      assert text[0] in text && forall x :: x in text[1..] ==> x in text;
      PaddedReadsBack(text[1..], size - 1);
      assert area[1..] == Padded(text[1..], size - 1).value;
      assert text == [text[0]] + text[1..];
    }
  }

  // ---- what replacing the prefix means ----

  predicate Occurs(s: Bytes, marker: Bytes, i: nat) {
    i + |marker| <= |s| && s[i..i + |marker|] == marker
  }

  lemma OccursIff(s: Bytes, marker: Bytes, i: nat)
    requires i <= |s|
    ensures StartsWith(s[i..], marker) <==> Occurs(s, marker, i)
  {
    if |marker| <= |s| - i { assert s[i..][..|marker|] == s[i..i + |marker|]; }
  }

  lemma OccursLater(s: Bytes, marker: Bytes, i: nat)
    requires s != []
    ensures Occurs(s[1..], marker, i) <==> Occurs(s, marker, i + 1)
  {
    if i + |marker| <= |s[1..]| { assert s[1..][i..i + |marker|] == s[i + 1..i + 1 + |marker|]; }
  }

  /** A text without the marker stays as it is. */
  lemma {:induction false} NothingReplaced(s: Bytes, marker: Bytes, prefix: Bytes)
    requires marker != [] && forall i :: !Occurs(s, marker, i)
    ensures Substitute(s, marker, prefix) == s
    decreases |s|
  {
    if s != [] {
      OccursIff(s, marker, 0);
      assert s[0..] == s;
      forall i ensures !Occurs(s[1..], marker, i) { OccursLater(s, marker, i); }
      NothingReplaced(s[1..], marker, prefix);
    }
  }

  /** The first marker is replaced; what is before it stays, and what is behind it is replaced in turn. */
  lemma {:induction false} FirstReplaced(a: Bytes, b: Bytes, marker: Bytes, prefix: Bytes)
    requires marker != [] && forall i :: 0 <= i < |a| ==> !Occurs(a + marker + b, marker, i)
    ensures Substitute(a + marker + b, marker, prefix) == a + prefix + Substitute(b, marker, prefix)
    decreases |a|
  {
    var s := a + marker + b;
    if a == [] {
      assert s == marker + b;
      ReplacedInFront(b, marker, prefix);
    } else {
      assert s[0..] == s && s[0] == a[0] && s[1..] == a[1..] + marker + b;
      OccursIff(s, marker, 0);
      forall i | 0 <= i < |a[1..]| ensures !Occurs(a[1..] + marker + b, marker, i) { OccursLater(s, marker, i); }
      NotInFront(s, marker, prefix);
      hide Substitute, Occurs, StartsWith;
      FirstReplaced(a[1..], b, marker, prefix);
      assert [a[0]] + a[1..] == a;
      Regroup([a[0]], a[1..] + prefix, Substitute(b, marker, prefix));
      Regroup([a[0]], a[1..], prefix);
    }
  }

  lemma ReplacedInFront(b: Bytes, marker: Bytes, prefix: Bytes)
    requires marker != []
    ensures Substitute(marker + b, marker, prefix) == prefix + Substitute(b, marker, prefix)
  {
    var s := marker + b;
    assert s[..|marker|] == marker && s[|marker|..] == b;
  }

  lemma NotInFront(s: Bytes, marker: Bytes, prefix: Bytes)
    requires marker != [] && s != [] && !StartsWith(s, marker)
    ensures Substitute(s, marker, prefix) == [s[0]] + Substitute(s[1..], marker, prefix)
  {
  }

  /** The pieces with `sep` between them. */
  function Glue(pieces: seq<Bytes>, sep: Bytes): Bytes
    requires pieces != []
  {
    if |pieces| == 1 then pieces[0] else pieces[0] + sep + Glue(pieces[1..], sep)
  }

  /** The pieces between the markers: each ends where the marker occurs next, and none is in the last. */
  ghost predicate Between(pieces: seq<Bytes>, marker: Bytes)
    requires pieces != []
  {
    if |pieces| == 1 then forall i :: !Occurs(pieces[0], marker, i)
    else Between(pieces[1..], marker) && forall i :: 0 <= i < |pieces[0]| ==> !Occurs(Glue(pieces, marker), marker, i)
  }

  /** The new text has the prefix between the pieces that had the marker between them. */
  lemma {:induction false} SubstituteGlues(pieces: seq<Bytes>, marker: Bytes, prefix: Bytes)
    requires marker != [] && pieces != [] && Between(pieces, marker)
    ensures Substitute(Glue(pieces, marker), marker, prefix) == Glue(pieces, prefix)
    decreases |pieces|
  {
    if |pieces| == 1 {
      NothingReplaced(pieces[0], marker, prefix);
    } else {
      SubstituteGlues(pieces[1..], marker, prefix);
      assert Glue(pieces, marker) == pieces[0] + marker + Glue(pieces[1..], marker);
      FirstReplaced(pieces[0], Glue(pieces[1..], marker), marker, prefix);
    }
  }

  /** Every text is made of such pieces. */
  lemma {:induction false} PiecesOf(s: Bytes, marker: Bytes) returns (pieces: seq<Bytes>)
    requires marker != []
    ensures pieces != [] && Between(pieces, marker) && Glue(pieces, marker) == s
    decreases |s|
  {
    if at: nat :| Occurs(s, marker, at) {
      var first := FirstOf(s, marker, at);
      var rest := PiecesOf(s[first + |marker|..], marker);
      pieces := [s[..first]] + rest;
      assert pieces[1..] == rest && s == s[..first] + marker + s[first + |marker|..];
      assert Glue(pieces, marker) == s;
    } else {
      pieces := [s];
    }
  }

  lemma {:induction false} FirstOf(s: Bytes, marker: Bytes, at: nat) returns (first: nat)
    requires Occurs(s, marker, at)
    ensures Occurs(s, marker, first) && forall i :: 0 <= i < first ==> !Occurs(s, marker, i)
    decreases at
  {
    if i: nat :| i < at && Occurs(s, marker, i) { first := FirstOf(s, marker, i); } else { first := at; }
  }

  /** NULs behind a text stay behind it. */
  lemma {:induction false} SubstituteZeros(s: Bytes, k: nat, marker: Bytes, prefix: Bytes)
    requires marker != [] && 0 !in marker
    ensures Substitute(s + Zeros(k), marker, prefix) == Substitute(s, marker, prefix) + Zeros(k)
    decreases |s|
  {
    var t := s + Zeros(k);
    SameStart(s, k, marker);
    if s == [] {
      assert t == Zeros(k);
      forall i: nat ensures !Occurs(t, marker, i) {
        if i + |marker| <= |t| { assert t[i..i + |marker|][0] == 0 && marker[0] in marker; }
      }
      NothingReplaced(t, marker, prefix);
    } else if StartsWith(s, marker) {
      assert t[|marker|..] == s[|marker|..] + Zeros(k);
      SubstituteZeros(s[|marker|..], k, marker, prefix);
      Regroup(prefix, Substitute(s[|marker|..], marker, prefix), Zeros(k));
    } else {
      assert t[1..] == s[1..] + Zeros(k);
      SubstituteZeros(s[1..], k, marker, prefix);
      Regroup([s[0]], Substitute(s[1..], marker, prefix), Zeros(k));
    }
  }

  lemma SameStart(s: Bytes, k: nat, marker: Bytes)
    requires marker != [] && 0 !in marker
    ensures StartsWith(s + Zeros(k), marker) <==> StartsWith(s, marker)
  {
    var t, n := s + Zeros(k), |marker|;
    if n <= |s| {
      assert t[..n] == s[..n];
    } else if n <= |t| {
      assert t[..n][n - 1] == 0 && marker[n - 1] in marker;
    }
  }

  lemma {:induction false} StripZeros(text: Bytes, k: nat)
    requires 0 !in text
    ensures Strip(text + Zeros(k)) == text
  {
    var t := text + Zeros(k);
    if k == 0 {
      assert t == text && (text != [] ==> text[|text| - 1] in text);
    } else {
      assert t[..|t| - 1] == text + Zeros(k - 1);
      StripZeros(text, k - 1);
    }
  }

  /**
   A text padded with NULs fits its area again exactly if the new one leaves room for a NUL, and then
   that is what a C program reads there.
   */
  lemma MovedReadsBack(area: Bytes, pieces: seq<Bytes>, k: nat, marker: Bytes, prefix: Bytes)
    requires marker != [] && 0 !in marker && pieces != [] && Between(pieces, marker)
    requires area == Glue(pieces, marker) + Zeros(k) && 0 !in Glue(pieces, prefix)
    ensures var r := Padded(NewText(area, marker, prefix), |area|);
      && (r.Some? <==> |Glue(pieces, prefix)| < |area|)
      && (r.Some? ==> CString(r.value) == Glue(pieces, prefix))
  {
    SubstituteGlues(pieces, marker, prefix);
    SubstituteZeros(Glue(pieces, marker), k, marker, prefix);
    StripZeros(Glue(pieces, prefix), k);
    hide Substitute, Strip, Glue, Between, CString;
    if Padded(NewText(area, marker, prefix), |area|).Some? { PaddedReadsBack(Glue(pieces, prefix), |area|); }
  }

  const SLOT := 4096

  /** The first `n` slots of `.gccrelocprefix`, each with its new text; None if one does not fit. */
  function Slots(area: Bytes, n: nat, marker: Bytes, prefix: Bytes): (r: Option<Bytes>)
    requires marker != [] && n * SLOT <= |area|
    ensures r.Some? ==> |r.value| == n * SLOT
  {
    if n == 0 then Some([]) else
      match Slots(area, n - 1, marker, prefix)
      case None => None
      case Some(before) =>
        match Padded(NewText(area[(n - 1) * SLOT..n * SLOT], marker, prefix), SLOT)
        case None => None
        case Some(slot) => Some(before + slot)
  }

  lemma {:induction false} SlotsStop(area: Bytes, n: nat, m: nat, marker: Bytes, prefix: Bytes)
    requires marker != [] && n <= m && m * SLOT <= |area| && Slots(area, n, marker, prefix).None?
    ensures Slots(area, m, marker, prefix).None?
    decreases m
  {
    if n < m { SlotsStop(area, n, m - 1, marker, prefix); }
  }

  /** All slots fit exactly if each of them does. */
  lemma {:induction false} SlotsFitIff(area: Bytes, n: nat, marker: Bytes, prefix: Bytes)
    requires marker != [] && n * SLOT <= |area|
    ensures Slots(area, n, marker, prefix).None? <==>
      exists k :: 0 <= k < n && |NewText(area[k * SLOT..(k + 1) * SLOT], marker, prefix)| >= SLOT
    decreases n
  {
    hide NewText;
    if n > 0 {
      SlotsFitIff(area, n - 1, marker, prefix);
      if |NewText(area[(n - 1) * SLOT..n * SLOT], marker, prefix)| >= SLOT {
        assert |NewText(area[(n - 1) * SLOT..(n - 1 + 1) * SLOT], marker, prefix)| >= SLOT;
      }
    }
  }

  lemma FirstPart(a: Bytes, b: Bytes, lo: nat, hi: nat)
    requires lo <= hi <= |a|
    ensures (a + b)[lo..hi] == a[lo..hi]
  {
  }

  lemma {:induction false} SlotAt(area: Bytes, n: nat, k: nat, marker: Bytes, prefix: Bytes)
    requires marker != [] && k < n && n * SLOT <= |area| && Slots(area, n, marker, prefix).Some?
    ensures Padded(NewText(area[k * SLOT..(k + 1) * SLOT], marker, prefix), SLOT)
         == Some(Slots(area, n, marker, prefix).value[k * SLOT..(k + 1) * SLOT])
    decreases n
  {
    var before, all := Slots(area, n - 1, marker, prefix).value, Slots(area, n, marker, prefix).value;
    var last := Padded(NewText(area[(n - 1) * SLOT..n * SLOT], marker, prefix), SLOT).value;
    assert all == before + last;
    if k < n - 1 { SlotAt(area, n - 1, k, marker, prefix); }
    hide *;
    assert 0 <= k * SLOT <= (k + 1) * SLOT && (k < n - 1 ==> (k + 1) * SLOT <= (n - 1) * SLOT);
    if k < n - 1 {
      FirstPart(before, last, k * SLOT, (k + 1) * SLOT);
    } else {
      assert all[k * SLOT..(k + 1) * SLOT] == last;
    }
  }

  // ---- the directories of the loader ----

  /** The texts of `.sysdirs`: NUL-terminated, up to the first that is empty. */
  function Paths(area: Bytes): seq<Bytes>
    decreases |area|
  {
    var path := CString(area);
    if path == [] then []
    else if |path| >= |area| then [path]
    else [path] + Paths(area[|path| + 1..])
  }

  /** The new `.sysdirs`, without the padding. */
  function DirsText(paths: seq<Bytes>, marker: Bytes, prefix: Bytes): Bytes
    requires marker != []
  {
    if paths == [] then [] else
      DirsText(paths[..|paths| - 1], marker, prefix) + (Substitute(paths[|paths| - 1], marker, prefix) + [0])
  }

  /** `struct.pack` of an unsigned number of `width` bytes, always little-endian. */
  function Pack(n: nat, width: nat): (b: Bytes)
    ensures |b| == width
  {
    if width == 0 then [] else [n % 256] + Pack(n / 256, width - 1)
  }

  /** The new `.sysdirslen`: the length of each text. */
  function LensText(paths: seq<Bytes>, marker: Bytes, prefix: Bytes, width: nat): Bytes
    requires marker != []
  {
    if paths == [] then [] else
      LensText(paths[..|paths| - 1], marker, prefix, width) +
        Pack(|Substitute(paths[|paths| - 1], marker, prefix)|, width)
  }

  /** Padded to the size of the section; a text that is too long stays as it is. */
  function PaddedDirs(text: Bytes, size: nat): (r: Bytes)
    ensures text <= r && |r| == if |text| < size then size else |text|
  {
    text + Zeros(if |text| < size then size - |text| else 0)
  }

  /** The loop over the texts of `.sysdirs`. */
  method NewDirs(area: Bytes, marker: Bytes, prefix: Bytes, width: nat) returns (dirs: Bytes, lens: Bytes)
    requires marker != []
    ensures dirs == DirsText(Paths(area), marker, prefix) && lens == LensText(Paths(area), marker, prefix, width)
  {
    hide Substitute, Pack, CString;
    dirs, lens := [], [];
    var paths := Paths(area);
    for i := 0 to |paths|
      invariant dirs == DirsText(paths[..i], marker, prefix) && lens == LensText(paths[..i], marker, prefix, width)
    {
      assert paths[..i + 1][..i] == paths[..i];
      var newPath := Substitute(paths[i], marker, prefix);
      dirs := dirs + (newPath + [0]);
      lens := lens + Pack(|newPath|, width);
    }
    assert paths[..|paths|] == paths;
  }

  // ---- what the new directories read back as ----

  function NewPaths(paths: seq<Bytes>, marker: Bytes, prefix: Bytes): (r: seq<Bytes>)
    requires marker != []
    ensures |r| == |paths| && forall i :: 0 <= i < |paths| ==> r[i] == Substitute(paths[i], marker, prefix)
  {
    seq(|paths|, i requires 0 <= i < |paths| => Substitute(paths[i], marker, prefix))
  }

  /** The length of all new texts with their terminators. */
  function Total(paths: seq<Bytes>, marker: Bytes, prefix: Bytes): nat
    requires marker != []
  {
    if paths == [] then 0 else
      Total(paths[..|paths| - 1], marker, prefix) + |Substitute(paths[|paths| - 1], marker, prefix)| + 1
  }

  lemma {:induction false} DirsLength(paths: seq<Bytes>, marker: Bytes, prefix: Bytes, width: nat)
    requires marker != []
    ensures |DirsText(paths, marker, prefix)| == Total(paths, marker, prefix)
    ensures |LensText(paths, marker, prefix, width)| == |paths| * width
    decreases |paths|
  {
    hide Substitute, Pack;
    if paths != [] {
      DirsLength(paths[..|paths| - 1], marker, prefix, width);
      assert |paths| * width == (|paths| - 1) * width + width;
    }
  }

  lemma {:induction false} DirsCons(p: Bytes, rest: seq<Bytes>, marker: Bytes, prefix: Bytes)
    requires marker != []
    ensures DirsText([p] + rest, marker, prefix) == (Substitute(p, marker, prefix) + [0]) + DirsText(rest, marker, prefix)
    decreases |rest|
  {
    hide Substitute;
    var all := [p] + rest;
    if rest == [] {
      assert all[..0] == [] && all[0] == p;
    } else {
      var init, last := rest[..|rest| - 1], rest[|rest| - 1];
      assert all[..|all| - 1] == [p] + init;
      DirsCons(p, init, marker, prefix);
      Regroup(Substitute(p, marker, prefix) + [0], DirsText(init, marker, prefix),
              Substitute(last, marker, prefix) + [0]);
    }
  }

  lemma Regroup(a: Bytes, b: Bytes, c: Bytes)
    ensures (a + b) + c == a + (b + c)
  {
  }

  lemma {:induction false} CStringOf(text: Bytes, rest: Bytes)
    requires 0 !in text
    ensures CString((text + [0]) + rest) == text
  {
    var area := (text + [0]) + rest;
    if text != [] {
      assert text[0] in text && forall x :: x in text[1..] ==> x in text;
      assert area[0] == text[0] && area[1..] == (text[1..] + [0]) + rest;
      CStringOf(text[1..], rest);
      assert [text[0]] + text[1..] == text;
    }
  }

  lemma NextPath(text: Bytes, rest: Bytes)
    requires text != [] && 0 !in text
    ensures Paths((text + [0]) + rest) == [text] + Paths(rest)
  {
    CStringOf(text, rest);
    hide CString;
    var area := (text + [0]) + rest;
    assert area[|text| + 1..] == rest;
  }

  lemma NoPaths(n: nat)
    ensures Paths(Zeros(n)) == []
  {
  }

  lemma {:induction false} SubstituteClean(s: Bytes, marker: Bytes, prefix: Bytes)
    requires marker != [] && 0 !in s && 0 !in prefix && prefix != []
    ensures 0 !in Substitute(s, marker, prefix) && (s != [] ==> Substitute(s, marker, prefix) != [])
    decreases |s|
  {
    if s != [] {
      assert s[0] in s;
      if StartsWith(s, marker) {
        assert forall x :: x in s[|marker|..] ==> x in s;
        SubstituteClean(s[|marker|..], marker, prefix);
      } else {
        assert forall x :: x in s[1..] ==> x in s;
        SubstituteClean(s[1..], marker, prefix);
      }
    }
  }

  lemma {:induction false} CStringClean(area: Bytes)
    ensures 0 !in CString(area) && |CString(area)| <= |area|
  {
    if area != [] && area[0] != 0 { CStringClean(area[1..]); }
  }

  lemma {:induction false} PathsClean(area: Bytes)
    ensures forall p :: p in Paths(area) ==> p != [] && 0 !in p
    decreases |area|
  {
    var path := CString(area);
    CStringClean(area);
    hide CString;
    if path != [] && |path| < |area| { PathsClean(area[|path| + 1..]); }
  }

  lemma PathsStep(p: Bytes, rest: seq<Bytes>, marker: Bytes, prefix: Bytes, n: nat)
    requires marker != [] && 0 !in prefix && prefix != [] && p != [] && 0 !in p
    requires Paths(DirsText(rest, marker, prefix) + Zeros(n)) == NewPaths(rest, marker, prefix)
    ensures Paths(DirsText([p] + rest, marker, prefix) + Zeros(n)) == NewPaths([p] + rest, marker, prefix)
  {
    DirsCons(p, rest, marker, prefix);
    SubstituteClean(p, marker, prefix);
    NewPathsCons(p, rest, marker, prefix);
    hide Substitute, Paths, CString, DirsText, NewPaths, Zeros;
    var head, tail := Substitute(p, marker, prefix), DirsText(rest, marker, prefix);
    Regroup(head + [0], tail, Zeros(n));
    NextPath(head, tail + Zeros(n));
  }

  lemma NewPathsCons(p: Bytes, rest: seq<Bytes>, marker: Bytes, prefix: Bytes)
    requires marker != []
    ensures NewPaths([p] + rest, marker, prefix) == [Substitute(p, marker, prefix)] + NewPaths(rest, marker, prefix)
  {
    hide Substitute;
  }

  /** The new texts read back one by one, each with the prefix replaced. */
  lemma {:induction false} PathsBack(paths: seq<Bytes>, marker: Bytes, prefix: Bytes, n: nat)
    requires marker != [] && 0 !in prefix && prefix != [] && forall p :: p in paths ==> p != [] && 0 !in p
    ensures Paths(DirsText(paths, marker, prefix) + Zeros(n)) == NewPaths(paths, marker, prefix)
    decreases |paths|
  {
    if paths == [] {
      NoPaths(n);
      assert [] + Zeros(n) == Zeros(n);
    } else {
      hide Substitute, Paths, DirsText, NewPaths;
      var p, rest := paths[0], paths[1..];
      assert paths == [p] + rest && p in paths && forall q :: q in rest ==> q in paths;
      PathsBack(rest, marker, prefix, n);
      PathsStep(p, rest, marker, prefix, n);
    }
  }

  /** So do they in the padded text, if it is not longer than its section. */
  lemma PaddedPathsBack(paths: seq<Bytes>, marker: Bytes, prefix: Bytes, size: nat)
    requires marker != [] && 0 !in prefix && prefix != [] && forall p :: p in paths ==> p != [] && 0 !in p
    requires Total(paths, marker, prefix) <= size
    ensures var text := PaddedDirs(DirsText(paths, marker, prefix), size);
      |text| == size && Paths(text) == NewPaths(paths, marker, prefix)
  {
    hide Paths, DirsText, Total, Substitute, NewPaths, CString;
    DirsLength(paths, marker, prefix, 0);
    PathsBack(paths, marker, prefix, size - |DirsText(paths, marker, prefix)|);
  }

  function Power(width: nat): nat { if width == 0 then 1 else 256 * Power(width - 1) }

  /** What the two widths can hold. */
  lemma PowerIs()
    ensures Power(4) == 0x1_0000_0000 && Power(8) == 0x1_0000_0000_0000_0000
  {
    assert Power(1) == 256 && Power(2) == 0x1_0000 && Power(3) == 0x100_0000;
    assert Power(5) == 0x100_0000_0000 && Power(6) == 0x1_0000_0000_0000 && Power(7) == 0x100_0000_0000_0000;
  }

  /** A packed number that fits its width reads back. */
  lemma {:induction false} PackReadsBack(img: Bytes, off: nat, n: nat, width: nat)
    requires off + width <= |img| && img[off..off + width] == Pack(n, width) && n < Power(width)
    ensures Num(img, off, width, true) == n
    decreases width
  {
    if width > 0 {
      assert img[off] == img[off..off + width][0] == n % 256;
      assert img[off + 1..off + width] == img[off..off + width][1..] == Pack(n / 256, width - 1);
      PackReadsBack(img, off + 1, n / 256, width - 1);
    }
  }

  lemma {:induction false} LensAt(paths: seq<Bytes>, marker: Bytes, prefix: Bytes, width: nat, k: nat)
    requires marker != [] && k < |paths|
    ensures k * width + width <= |LensText(paths, marker, prefix, width)|
    ensures LensText(paths, marker, prefix, width)[k * width..k * width + width]
         == Pack(|Substitute(paths[k], marker, prefix)|, width)
    decreases |paths|
  {
    hide Substitute, Pack;
    var init, n := paths[..|paths| - 1], |paths| - 1;
    var before, last := LensText(init, marker, prefix, width), Pack(|Substitute(paths[n], marker, prefix)|, width);
    DirsLength(init, marker, prefix, width);
    if k < n {
      LensAt(init, marker, prefix, width, k);
      FirstPart(before, last, k * width, k * width + width);
    } else {
      assert (before + last)[n * width..n * width + width] == last;
    }
  }
}

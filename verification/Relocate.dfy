/**
 scripts/relocate_sdk.py: the interpreter path, the loader's cache path and GCC's prefixes are
 rewritten inside the bytes of an executable. The file is an array, so it cannot grow or shrink.
 */
module Relocate {
  import opened Elf
  import opened Options
  import opened PrefixText

  // ---- edits ----

  /** Bytes [lo, hi); empty where nothing is to be written. */
  datatype Span = Span(lo: nat, hi: nat)

  predicate Apart(a: Span, b: Span) {
    a.lo >= a.hi || b.lo >= b.hi || a.hi <= b.lo || b.hi <= a.lo
  }

  /** Leave things alone, refuse because the new text is too long, or write. */
  datatype Edit = Keep | TooLong | Put(at: nat, data: Bytes)

  function Patch(img: Bytes, at: nat, data: Bytes): (r: Bytes)
    requires at + |data| <= |img|
    ensures |r| == |img|
  {
    img[..at] + data + img[at + |data|..]
  }

  predicate Within(e: Edit, s: Span, size: nat) {
    e.Put? ==> e.at == s.lo && e.at + |e.data| == s.hi <= size
  }

  function Applied(img: Bytes, e: Edit): (r: Bytes)
    requires e.Put? ==> e.at + |e.data| <= |img|
    ensures |r| == |img|
  {
    if e.Put? then Patch(img, e.at, e.data) else img
  }

  ghost predicate AllWithin(edits: seq<Edit>, spans: seq<Span>, size: nat) {
    |edits| == |spans| && forall i :: 0 <= i < |edits| ==> Within(edits[i], spans[i], size)
  }

  ghost function ApplyAll(img: Bytes, edits: seq<Edit>, spans: seq<Span>, n: nat): (r: Bytes)
    requires AllWithin(edits, spans, |img|) && n <= |edits|
    ensures |r| == |img|
  {
    if n == 0 then img else Applied(ApplyAll(img, edits, spans, n - 1), edits[n - 1])
  }

  ghost predicate Outside(k: nat, spans: seq<Span>, n: nat)
    requires n <= |spans|
  {
    forall i :: 0 <= i < n ==> !(spans[i].lo <= k < spans[i].hi)
  }

  /** Frame: a byte outside all areas stays. */
  lemma {:induction false} OutsideStays(img: Bytes, edits: seq<Edit>, spans: seq<Span>, n: nat, k: nat)
    requires AllWithin(edits, spans, |img|) && n <= |edits| && k < |img| && Outside(k, spans, n)
    ensures ApplyAll(img, edits, spans, n)[k] == img[k]
    decreases n
  {
    if n > 0 { OutsideStays(img, edits, spans, n - 1, k); }
  }

  /** A stretch that no area touches stays. */
  lemma StretchStays(img: Bytes, edits: seq<Edit>, spans: seq<Span>, n: nat, s: Span)
    requires AllWithin(edits, spans, |img|) && n <= |edits| && s.lo <= s.hi <= |img|
    requires forall i :: 0 <= i < n ==> Apart(spans[i], s)
    ensures SameOn(img, ApplyAll(img, edits, spans, n), s.lo, s.hi)
  {
    var r := ApplyAll(img, edits, spans, n);
    forall k | s.lo <= k < s.hi ensures r[k] == img[k] { OutsideStays(img, edits, spans, n, k); }
  }

  ghost predicate AllApart(spans: seq<Span>) {
    forall i, j :: 0 <= i < j < |spans| ==> Apart(spans[i], spans[j])
  }

  /** Each area holds what was written to it. */
  lemma {:induction false} AreaHolds(img: Bytes, edits: seq<Edit>, spans: seq<Span>, n: nat, i: nat)
    requires AllWithin(edits, spans, |img|) && AllApart(spans) && i < n <= |edits| && edits[i].Put?
    ensures ApplyAll(img, edits, spans, n)[spans[i].lo..spans[i].hi] == edits[i].data
    decreases n
  {
    var before := ApplyAll(img, edits, spans, n - 1);
    var after := Applied(before, edits[n - 1]);
    if i < n - 1 {
      AreaHolds(img, edits, spans, n - 1, i);
      assert Apart(spans[i], spans[n - 1]);
      forall k | spans[i].lo <= k < spans[i].hi ensures after[k] == before[k] {}
      assert after[spans[i].lo..spans[i].hi] == before[spans[i].lo..spans[i].hi];
    }
  }

  // ---- what is to be written ----

  /** Index of the first PT_INTERP header from `i` on. */
  function FirstInterp(img: Bytes, h: Header, i: nat): (r: Option<nat>)
    requires TablesFit(h, |img|) && i <= h.phnum
    ensures r.Some? ==> i <= r.value < h.phnum && ReadSegment(img, h, r.value).kind == 3
    ensures r.Some? ==> forall k :: i <= k < r.value ==> ReadSegment(img, h, k).kind != 3
    ensures r.None? ==> forall k :: i <= k < h.phnum ==> ReadSegment(img, h, k).kind != 3
    decreases h.phnum - i
  {
    if i == h.phnum then None else if ReadSegment(img, h, i).kind == 3 then Some(i) else FirstInterp(img, h, i + 1)
  }

  /** "/lib/", "/lib64/", "/lib32/", "/usr/lib32/" and "/usr/lib64/". */
  const SYSTEM_LIBS: seq<Bytes> := [
    [0x2f, 0x6c, 0x69, 0x62, 0x2f],
    [0x2f, 0x6c, 0x69, 0x62, 0x36, 0x34, 0x2f],
    [0x2f, 0x6c, 0x69, 0x62, 0x33, 0x32, 0x2f],
    [0x2f, 0x75, 0x73, 0x72, 0x2f, 0x6c, 0x69, 0x62, 0x33, 0x32, 0x2f],
    [0x2f, 0x75, 0x73, 0x72, 0x2f, 0x6c, 0x69, 0x62, 0x36, 0x34, 0x2f]]

  /** The first 11 bytes of the old interpreter name a system library: not to be relocated. */
  predicate Foreign(fname: Bytes) {
    exists k :: 0 <= k < |SYSTEM_LIBS| && StartsWith(fname, SYSTEM_LIBS[k])
  }

  function Min(a: nat, b: nat): nat { if a < b then a else b }

  function SegmentEdit(img: Bytes, s: Segment, newPath: Bytes): Edit
    requires s.offset <= |img|
  {
    if Foreign(img[s.offset..Min(s.offset + 11, |img|)]) || s.filesz == 0 then Keep
    else match Padded(newPath, s.filesz)
      case None => TooLong
      case Some(data) => Put(s.offset, data)
  }

  predicate InterpFits(img: Bytes, h: Header) {
    TablesFit(h, |img|) &&
    match FirstInterp(img, h, 0)
    case None => true
    case Some(i) => ReadSegment(img, h, i).offset + ReadSegment(img, h, i).filesz <= |img|
  }

  function InterpEdit(img: Bytes, h: Header, newPath: Bytes): Edit
    requires InterpFits(img, h)
  {
    match FirstInterp(img, h, 0)
    case None => Keep
    case Some(i) => SegmentEdit(img, ReadSegment(img, h, i), newPath)
  }

  function InterpSpan(img: Bytes, h: Header): Span
    requires InterpFits(img, h)
  {
    match FirstInterp(img, h, 0)
    case None => Span(0, 0)
    case Some(i) => var s := ReadSegment(img, h, i); Span(s.offset, s.offset + s.filesz)
  }

  /** ".sysdirs" and ".sysdirslen". */
  const SYSDIRS: Bytes := [0x2e, 0x73, 0x79, 0x73, 0x64, 0x69, 0x72, 0x73]
  const SYSDIRSLEN: Bytes := [0x2e, 0x73, 0x79, 0x73, 0x64, 0x69, 0x72, 0x73, 0x6c, 0x65, 0x6e]

  /** ".ldsocache" and ".gccrelocprefix". */
  const LDSOCACHE: Bytes := [0x2e, 0x6c, 0x64, 0x73, 0x6f, 0x63, 0x61, 0x63, 0x68, 0x65]
  const GCCRELOCPREFIX: Bytes := [0x2e, 0x67, 0x63, 0x63, 0x72, 0x65, 0x6c, 0x6f, 0x63, 0x70, 0x72, 0x65, 0x66, 0x69, 0x78]

  /** The part of a section that is rewritten: whole slots only of `.gccrelocprefix`. */
  function SectionSpan(tab: Bytes, s: Section): Span {
    var name := NameAt(tab, s.nameAt);
    if s.kind != 1 then Span(0, 0)
    else if name == LDSOCACHE then Span(s.offset, s.offset + s.size)
    else if name == GCCRELOCPREFIX then Span(s.offset, s.offset + s.size / SLOT * SLOT)
    else Span(0, 0)
  }

  function SectionEdit(img: Bytes, tab: Bytes, s: Section, marker: Bytes, prefix: Bytes): Edit
    requires marker != [] && SectionSpan(tab, s).hi <= |img|
  {
    var name := NameAt(tab, s.nameAt);
    if s.kind != 1 then Keep
    else if name == LDSOCACHE then
      match Padded(NewText(img[s.offset..s.offset + s.size], marker, prefix), s.size)
      case None => TooLong
      case Some(data) => Put(s.offset, data)
    else if name == GCCRELOCPREFIX then
      match Slots(img[s.offset..s.offset + s.size / SLOT * SLOT], s.size / SLOT, marker, prefix)
      case None => TooLong
      case Some(data) => Put(s.offset, data)
    else Keep
  }

  lemma SectionEditWithin(img: Bytes, tab: Bytes, s: Section, marker: Bytes, prefix: Bytes)
    requires marker != [] && SectionSpan(tab, s).hi <= |img|
    ensures Within(SectionEdit(img, tab, s, marker, prefix), SectionSpan(tab, s), |img|)
  {
  }

  /** An edit depends on nothing but the area it rewrites. */
  lemma SameEdit(a: Bytes, b: Bytes, tab: Bytes, s: Section, marker: Bytes, prefix: Bytes)
    requires marker != [] && SectionSpan(tab, s).hi <= |a|
    requires SameOn(a, b, SectionSpan(tab, s).lo, SectionSpan(tab, s).hi)
    ensures SectionEdit(a, tab, s, marker, prefix) == SectionEdit(b, tab, s, marker, prefix)
  {
  }

  // ---- the code ----

  method WriteAt(f: array<byte>, at: nat, data: Bytes)
    requires at + |data| <= f.Length
    modifies f
    ensures f[..] == Patch(old(f[..]), at, data)
  {
    forall i | 0 <= i < |data| { f[at + i] := data[i]; }
  }

  /** The body of the loop of `change_interpreter` for a PT_INTERP segment. */
  method ChangeSegment(f: array<byte>, s: Segment, newPath: Bytes) returns (ok: bool)
    requires s.offset + s.filesz <= f.Length
    modifies f
    ensures var e := SegmentEdit(old(f[..]), s, newPath);
      && (ok <==> !e.TooLong?) && Within(e, Span(s.offset, s.offset + s.filesz), f.Length)
      && f[..] == Applied(old(f[..]), e)
  {
    hide Foreign;
    var fname := f[s.offset..Min(s.offset + 11, f.Length)];
    assert fname == f[..][s.offset..Min(s.offset + 11, |f[..]|)];
    if Foreign(fname) || s.filesz == 0 { return true; }
    if |newPath| >= s.filesz { return false; }
    WriteAt(f, s.offset, newPath + Zeros(s.filesz - |newPath|));
    ok := true;
  }

  /** `change_interpreter`. */
  method ChangeInterpreter(f: array<byte>, h: Header, newPath: Bytes) returns (ok: bool)
    requires InterpFits(f[..], h)
    modifies f
    ensures var e := InterpEdit(old(f[..]), h, newPath);
      && (ok <==> !e.TooLong?) && Within(e, InterpSpan(old(f[..]), h), f.Length)
      && f[..] == Applied(old(f[..]), e)
  {
    hide ReadSegment, SegmentEdit, TablesFit;
    ghost var img := f[..];
    for i := 0 to h.phnum
      invariant f[..] == img && FirstInterp(img, h, 0) == FirstInterp(img, h, i)
    {
      var s := ReadSegment(f[..], h, i);
      if s.kind == 3 {
        ok := ChangeSegment(f, s, newPath);
        return;
      }
    }
    ok := true;
  }

  lemma SlotsSnoc(area: Bytes, n: nat, marker: Bytes, prefix: Bytes, done: Bytes)
    requires marker != [] && (n + 1) * SLOT <= |area| && Slots(area, n, marker, prefix) == Some(done)
    ensures Slots(area, n + 1, marker, prefix) ==
      match Padded(NewText(area[n * SLOT..(n + 1) * SLOT], marker, prefix), SLOT)
      case None => None
      case Some(slot) => Some(done + slot)
  {
  }

  /** One more slot written behind those before it. */
  lemma PatchMore(img: Bytes, at: nat, done: Bytes, slot: Bytes)
    requires at + |done| + |slot| <= |img|
    ensures Patch(Patch(img, at, done), at + |done|, slot) == Patch(img, at, done + slot)
  {
  }

  /** Behind the slots that are done, the area is as it was. */
  lemma SlotUntouched(img: Bytes, at: nat, hi: nat, done: Bytes)
    requires at + |done| + SLOT <= hi <= |img|
    ensures Patch(img, at, done)[at + |done|..at + |done| + SLOT] == img[at..hi][|done|..|done| + SLOT]
  {
    var a, b := Patch(img, at, done)[at + |done|..at + |done| + SLOT], img[at..hi][|done|..|done| + SLOT];
    forall k | 0 <= k < SLOT ensures a[k] == b[k] {
      assert a[k] == Patch(img, at, done)[at + |done| + k] == img[at + |done| + k];
    }
  }

  /** One area is rewritten from its own text: `.ldsocache`, or one slot of `.gccrelocprefix`. */
  method RewriteArea(f: array<byte>, at: nat, size: nat, marker: Bytes, prefix: Bytes) returns (ok: bool)
    requires marker != [] && at + size <= f.Length
    modifies f
    ensures var text := Padded(NewText(old(f[..])[at..at + size], marker, prefix), size);
      && (ok <==> text.Some?) && (ok ==> f[..] == Patch(old(f[..]), at, text.value))
  {
    hide NewText;
    var path := f[at..at + size];
    assert path == f[..][at..at + size];
    var newPath := NewText(path, marker, prefix);
    if |newPath| >= size { return false; }
    newPath := newPath + Zeros(size - |newPath|);
    WriteAt(f, at, newPath);
    ok := true;
  }

  lemma SlotStep(img: Bytes, at: nat, count: nat, n: nat, marker: Bytes, prefix: Bytes, done: Bytes)
    requires marker != [] && n < count && at + count * SLOT <= |img|
    requires Slots(img[at..at + count * SLOT], n, marker, prefix) == Some(done)
    ensures |done| == n * SLOT
    ensures var slot := Padded(NewText(Patch(img, at, done)[at + |done|..at + |done| + SLOT], marker, prefix), SLOT);
      match slot
      case None => Slots(img[at..at + count * SLOT], count, marker, prefix) == None
      case Some(data) =>
        && Slots(img[at..at + count * SLOT], n + 1, marker, prefix) == Some(done + data)
        && Patch(Patch(img, at, done), at + |done|, data) == Patch(img, at, done + data)
  {
    hide NewText;
    var area := img[at..at + count * SLOT];
    SlotUntouched(img, at, at + count * SLOT, done);
    SlotsSnoc(area, n, marker, prefix, done);
    match Padded(NewText(Patch(img, at, done)[at + |done|..at + |done| + SLOT], marker, prefix), SLOT)
    case None => SlotsStop(area, n + 1, count, marker, prefix);
    case Some(data) => PatchMore(img, at, done, data);
  }

  /** The loop over a `.gccrelocprefix` section; a prefix that does not fit ends the program. */
  method RewriteSlots(f: array<byte>, at: nat, size: nat, marker: Bytes, prefix: Bytes) returns (ok: bool)
    requires marker != [] && at + size / SLOT * SLOT <= f.Length
    modifies f
    ensures var slots := Slots(old(f[..])[at..at + size / SLOT * SLOT], size / SLOT, marker, prefix);
      && (ok <==> slots.Some?) && (ok ==> f[..] == Patch(old(f[..]), at, slots.value))
  {
    hide Slots, NewText, Patch, Padded;
    ghost var img, count := f[..], size / SLOT;
    ghost var area, done, n := img[at..at + count * SLOT], [], 0;
    NoSlots(img, at, area, marker, prefix);
    var offset := 0;
    while offset + SLOT <= size
      invariant n <= count && offset == n * SLOT
      invariant Slots(area, n, marker, prefix) == Some(done) && |done| == offset && f[..] == Patch(img, at, done)
      decreases size - offset
    {
      SlotStep(img, at, count, n, marker, prefix, done);
      var fits := RewriteArea(f, at + offset, SLOT, marker, prefix);
      if !fits { return false; }
      ghost var data := Padded(NewText(Patch(img, at, done)[at + |done|..at + |done| + SLOT], marker, prefix), SLOT).value;
      done, n := done + data, n + 1;
      offset := offset + SLOT;
    }
    ok := true;
  }

  lemma NoSlots(img: Bytes, at: nat, area: Bytes, marker: Bytes, prefix: Bytes)
    requires marker != [] && at <= |img|
    ensures Slots(area, 0, marker, prefix) == Some([]) && Patch(img, at, []) == img
  {
  }

  /** The body of the section loop. */
  method ChangeSection(f: array<byte>, tab: Bytes, s: Section, marker: Bytes, prefix: Bytes) returns (ok: bool)
    requires marker != [] && SectionSpan(tab, s).hi <= f.Length
    modifies f
    ensures var e := SectionEdit(old(f[..]), tab, s, marker, prefix);
      && (ok <==> !e.TooLong?) && Within(e, SectionSpan(tab, s), f.Length) && (ok ==> f[..] == Applied(old(f[..]), e))
  {
    hide NewText, Slots, Padded, Patch;
    ok := true;
    var name := NameAt(tab, s.nameAt);
    if s.kind == 1 {
      if name == LDSOCACHE {
        ok := RewriteArea(f, s.offset, s.size, marker, prefix);
      } else if name == GCCRELOCPREFIX {
        ok := RewriteSlots(f, s.offset, s.size, marker, prefix);
      }
    }
  }

  // ---- all sections ----

  predicate TabFits(img: Bytes, h: Header) {
    TablesFit(h, |img|) &&
    var s := ReadSection(img, h, h.shstrndx);
    s.offset + s.size <= |img|
  }

  function TabSpan(img: Bytes, h: Header): Span
    requires TabFits(img, h)
  {
    var s := ReadSection(img, h, h.shstrndx);
    Span(s.offset, s.offset + s.size)
  }

  function Tab(img: Bytes, h: Header): Bytes
    requires TabFits(img, h)
  {
    img[TabSpan(img, h).lo..TabSpan(img, h).hi]
  }

  /** The header of the section names. */
  function NamesSpan(h: Header): Span { Span(ShAt(h, h.shstrndx), ShAt(h, h.shstrndx) + h.shentsize) }

  function TableSpan(h: Header): Span { Span(h.shoff, h.shoff + h.shnum * h.shentsize) }

  function SpanAt(img: Bytes, h: Header, i: nat): Span
    requires TabFits(img, h) && i < h.shnum
  {
    SectionSpan(Tab(img, h), ReadSection(img, h, i))
  }

  /** Every area that is to be rewritten lies in the file. */
  ghost predicate SectionsFit(img: Bytes, h: Header) {
    TabFits(img, h) && forall i :: 0 <= i < h.shnum ==> SpanAt(img, h, i).hi <= |img|
  }

  ghost function SectionSpans(img: Bytes, h: Header): seq<Span>
    requires SectionsFit(img, h)
  {
    seq(h.shnum, i requires 0 <= i < h.shnum => SpanAt(img, h, i))
  }

  ghost function SectionEdits(img: Bytes, h: Header, marker: Bytes, prefix: Bytes): seq<Edit>
    requires marker != [] && SectionsFit(img, h)
  {
    seq(h.shnum, i requires 0 <= i < h.shnum =>
      assert SpanAt(img, h, i).hi <= |img|;
      SectionEdit(img, Tab(img, h), ReadSection(img, h, i), marker, prefix))
  }

  lemma SectionsWithin(img: Bytes, h: Header, marker: Bytes, prefix: Bytes)
    requires marker != [] && SectionsFit(img, h)
    ensures AllWithin(SectionEdits(img, h, marker, prefix), SectionSpans(img, h), |img|)
  {
    forall i | 0 <= i < h.shnum
      ensures Within(SectionEdits(img, h, marker, prefix)[i], SectionSpans(img, h)[i], |img|)
    {
      assert SpanAt(img, h, i).hi <= |img|;
      SectionEditWithin(img, Tab(img, h), ReadSection(img, h, i), marker, prefix);
    }
  }

  /** The areas do not overlap each other or the section headers. */
  ghost predicate SectionsApart(img: Bytes, h: Header)
    requires SectionsFit(img, h)
  {
    AllApart(SectionSpans(img, h)) && forall i :: 0 <= i < h.shnum ==> Apart(SpanAt(img, h, i), TableSpan(h))
  }

  /** The section that the loop reads at `i`, and what it makes of it, are those of the untouched file. */
  lemma SectionTurn(img: Bytes, h: Header, marker: Bytes, prefix: Bytes, i: nat)
    requires marker != [] && SectionsFit(img, h) && SectionsApart(img, h) && i < h.shnum
    requires AllWithin(SectionEdits(img, h, marker, prefix), SectionSpans(img, h), |img|)
    ensures var now := ApplyAll(img, SectionEdits(img, h, marker, prefix), SectionSpans(img, h), i);
      && SpanAt(img, h, i).hi <= |img| && ReadSection(now, h, i) == ReadSection(img, h, i)
      && SectionEdit(now, Tab(img, h), ReadSection(img, h, i), marker, prefix) == SectionEdits(img, h, marker, prefix)[i]
  {
    hide SectionEdit, SectionSpan, ReadSection, ApplyAll, Within;
    var edits, spans := SectionEdits(img, h, marker, prefix), SectionSpans(img, h);
    var now := ApplyAll(img, edits, spans, i);
    forall k | 0 <= k < i ensures Apart(spans[k], TableSpan(h)) && Apart(spans[k], spans[i]) {
      assert spans[k] == SpanAt(img, h, k);
    }
    StretchStays(img, edits, spans, i, TableSpan(h));
    SameSection(img, now, h, i);
    assert SpanAt(img, h, i).hi <= |img|;
    SpanIsSpan(Tab(img, h), ReadSection(img, h, i));
    StretchStays(img, edits, spans, i, spans[i]);
    SameEdit(img, now, Tab(img, h), ReadSection(img, h, i), marker, prefix);
  }

  lemma SpanIsSpan(tab: Bytes, s: Section)
    ensures SectionSpan(tab, s).lo <= SectionSpan(tab, s).hi
  {
  }

  lemma EditCount(img: Bytes, h: Header, marker: Bytes, prefix: Bytes)
    requires marker != [] && SectionsFit(img, h)
    requires AllWithin(SectionEdits(img, h, marker, prefix), SectionSpans(img, h), |img|)
    ensures |SectionEdits(img, h, marker, prefix)| == h.shnum
    ensures ApplyAll(img, SectionEdits(img, h, marker, prefix), SectionSpans(img, h), 0) == img
  {
  }

  lemma ApplyStep(img: Bytes, edits: seq<Edit>, spans: seq<Span>, n: nat)
    requires AllWithin(edits, spans, |img|) && n < |edits|
    ensures edits[n].Put? ==> edits[n].at + |edits[n].data| <= |img|
    ensures ApplyAll(img, edits, spans, n + 1) == Applied(ApplyAll(img, edits, spans, n), edits[n])
  {
  }

  // ---- `.sysdirs` and `.sysdirslen` ----

  predicate IsNamed(img: Bytes, h: Header, i: nat, name: Bytes)
    requires TabFits(img, h) && i < h.shnum
  {
    ReadSection(img, h, i).kind == 1 && NameAt(Tab(img, h), ReadSection(img, h, i).nameAt) == name
  }

  function Named(img: Bytes, h: Header, name: Bytes): (list: seq<bool>)
    requires TabFits(img, h)
    ensures |list| == h.shnum && forall i :: 0 <= i < h.shnum ==> (list[i] <==> IsNamed(img, h, i, name))
  {
    seq(h.shnum, i requires 0 <= i < h.shnum => IsNamed(img, h, i, name))
  }

  function LastTrue(list: seq<bool>, n: nat): (r: Option<nat>)
    requires n <= |list|
    ensures r.Some? ==> r.value < n && list[r.value]
  {
    if n == 0 then None else if list[n - 1] then Some(n - 1) else LastTrue(list, n - 1)
  }

  /** The last of the first `n` sections with that name. */
  function LastNamed(img: Bytes, h: Header, name: Bytes, n: nat): (r: Option<nat>)
    requires TabFits(img, h) && n <= h.shnum
    ensures r.Some? ==> r.value < n && IsNamed(img, h, r.value, name)
  {
    LastTrue(Named(img, h, name), n)
  }

  /** What a read of `size` bytes at `off` covers and answers; it stops at the end of the file. */
  function ReadSpan(total: nat, off: nat, size: nat): (s: Span)
    ensures s.lo <= s.hi <= total
  {
    Span(Min(off, total), Min(off + size, total))
  }

  function ReadAt(img: Bytes, off: nat, size: nat): Bytes {
    img[ReadSpan(|img|, off, size).lo..ReadSpan(|img|, off, size).hi]
  }

  function SectionOf(img: Bytes, h: Header, r: Option<nat>): Option<Section>
    requires TabFits(img, h) && (r.Some? ==> r.value < h.shnum)
  {
    match r
    case None => None
    case Some(i) => Some(ReadSection(img, h, i))
  }

  function DirsOf(img: Bytes, h: Header): Option<Section>
    requires TabFits(img, h)
  {
    SectionOf(img, h, LastNamed(img, h, SYSDIRS, h.shnum))
  }

  function LensOf(img: Bytes, h: Header): Option<Section>
    requires TabFits(img, h)
  {
    SectionOf(img, h, LastNamed(img, h, SYSDIRSLEN, h.shnum))
  }

  /** Without `.sysdirslen` its variable has never been set: the script fails. */
  predicate Crashes(img: Bytes, h: Header)
    requires TabFits(img, h)
  {
    DirsOf(img, h).Some? && LensOf(img, h).None?
  }

  function NumberWidth(h: Header): nat { if h.wide then 8 else 4 }

  function DirsEdit(area: Bytes, dirs: Section, marker: Bytes, prefix: Bytes): Edit
    requires marker != []
  {
    Put(dirs.offset, PaddedDirs(DirsText(Paths(area), marker, prefix), dirs.size))
  }

  function LensEdit(area: Bytes, lens: Section, marker: Bytes, prefix: Bytes, width: nat): Edit
    requires marker != []
  {
    Put(lens.offset, LensText(Paths(area), marker, prefix, width))
  }

  /** What is written after the loop over the sections. */
  function DirsEdits(img: Bytes, h: Header, marker: Bytes, prefix: Bytes): (edits: seq<Edit>)
    requires marker != [] && TabFits(img, h)
    ensures |edits| == 2 && !edits[0].TooLong? && !edits[1].TooLong?
  {
    if DirsOf(img, h).None? || LensOf(img, h).None? then [Keep, Keep] else
      var dirs, lens := DirsOf(img, h).value, LensOf(img, h).value;
      var area := ReadAt(img, dirs.offset, dirs.size);
      [DirsEdit(area, dirs, marker, prefix), LensEdit(area, lens, marker, prefix, NumberWidth(h))]
  }

  function SpanOf(e: Edit): Span {
    if e.Put? then Span(e.at, e.at + |e.data|) else Span(0, 0)
  }

  function DirsSpans(img: Bytes, h: Header, marker: Bytes, prefix: Bytes): (spans: seq<Span>)
    requires marker != [] && TabFits(img, h)
    ensures |spans| == 2
  {
    var edits := DirsEdits(img, h, marker, prefix);
    [SpanOf(edits[0]), SpanOf(edits[1])]
  }

  /** What is written lies in the file, though not always in its section. */
  ghost predicate DirsFit(img: Bytes, h: Header, marker: Bytes, prefix: Bytes)
    requires marker != []
  {
    TabFits(img, h) && forall span :: span in DirsSpans(img, h, marker, prefix) ==> span.hi <= |img|
  }

  function AreaAt(img: Bytes, h: Header, i: nat): Span
    requires TabFits(img, h) && i < h.shnum
  {
    ReadSpan(|img|, ReadSection(img, h, i).offset, ReadSection(img, h, i).size)
  }

  /** Nothing is written into a `.sysdirs` section before it is read. */
  ghost predicate DirsApart(img: Bytes, h: Header, span: Span)
    requires TabFits(img, h)
  {
    forall i :: 0 <= i < h.shnum && IsNamed(img, h, i, SYSDIRS) ==> Apart(span, AreaAt(img, h, i))
  }

  /** All that `change_dl_sysdirs` writes. */
  ghost function DlEdits(img: Bytes, h: Header, marker: Bytes, prefix: Bytes): seq<Edit>
    requires marker != [] && SectionsFit(img, h)
  {
    SectionEdits(img, h, marker, prefix) + DirsEdits(img, h, marker, prefix)
  }

  ghost function DlSpans(img: Bytes, h: Header, marker: Bytes, prefix: Bytes): seq<Span>
    requires marker != [] && SectionsFit(img, h)
  {
    SectionSpans(img, h) + DirsSpans(img, h, marker, prefix)
  }

  lemma DlWithin(img: Bytes, h: Header, marker: Bytes, prefix: Bytes)
    requires marker != [] && SectionsFit(img, h) && DirsFit(img, h, marker, prefix)
    ensures AllWithin(DlEdits(img, h, marker, prefix), DlSpans(img, h, marker, prefix), |img|)
    ensures |DlEdits(img, h, marker, prefix)| == h.shnum + 2
  {
    SectionsWithin(img, h, marker, prefix);
    EditTotal(img, h, marker, prefix);
    hide SectionEdits, SectionSpans;
    var edits, spans := DirsEdits(img, h, marker, prefix), DirsSpans(img, h, marker, prefix);
    hide DirsEdits;
    assert spans[0] in spans && spans[1] in spans;
    WithinBoth(SectionEdits(img, h, marker, prefix), SectionSpans(img, h), edits, spans, |img|);
  }

  lemma EditTotal(img: Bytes, h: Header, marker: Bytes, prefix: Bytes)
    requires marker != [] && SectionsFit(img, h)
    ensures |SectionEdits(img, h, marker, prefix)| == |SectionSpans(img, h)| == h.shnum
  {
  }

  lemma WithinBoth(edits: seq<Edit>, spans: seq<Span>, more: seq<Edit>, moreSpans: seq<Span>, size: nat)
    requires AllWithin(edits, spans, size) && AllWithin(more, moreSpans, size)
    ensures AllWithin(edits + more, spans + moreSpans, size)
  {
  }

  /** The first edits of a longer list. */
  lemma {:induction false} ApplyFirst(img: Bytes, edits: seq<Edit>, spans: seq<Span>, more: seq<Edit>,
      moreSpans: seq<Span>, n: nat)
    requires AllWithin(edits, spans, |img|) && AllWithin(more, moreSpans, |img|) && n <= |edits|
    ensures AllWithin(edits + more, spans + moreSpans, |img|)
    ensures ApplyAll(img, edits + more, spans + moreSpans, n) == ApplyAll(img, edits, spans, n)
    decreases n
  {
    WithinBoth(edits, spans, more, moreSpans, |img|);
    if n > 0 { ApplyFirst(img, edits, spans, more, moreSpans, n - 1); }
  }

  lemma LastStep(img: Bytes, h: Header, name: Bytes, i: nat)
    requires TabFits(img, h) && i < h.shnum
    ensures LastNamed(img, h, name, i + 1) == if IsNamed(img, h, i, name) then Some(i) else LastNamed(img, h, name, i)
  {
    hide IsNamed, TabFits;
  }

  /** A `.sysdirs` section is read as it was. */
  lemma DirsTurn(img: Bytes, h: Header, marker: Bytes, prefix: Bytes, i: nat)
    requires marker != [] && SectionsFit(img, h) && i < h.shnum && IsNamed(img, h, i, SYSDIRS)
    requires forall k :: 0 <= k < h.shnum ==> DirsApart(img, h, SpanAt(img, h, k))
    requires AllWithin(SectionEdits(img, h, marker, prefix), SectionSpans(img, h), |img|)
    ensures var s := ReadSection(img, h, i);
      var now := ApplyAll(img, SectionEdits(img, h, marker, prefix), SectionSpans(img, h), i);
      ReadAt(now, s.offset, s.size) == ReadAt(img, s.offset, s.size)
  {
    hide SectionEdit, SectionSpan, ReadSection, ApplyAll, Within, NameAt;
    var edits, spans := SectionEdits(img, h, marker, prefix), SectionSpans(img, h);
    forall k | 0 <= k < i ensures Apart(spans[k], AreaAt(img, h, i)) {
      assert spans[k] == SpanAt(img, h, k) && DirsApart(img, h, SpanAt(img, h, k));
    }
    StretchStays(img, edits, spans, i, AreaAt(img, h, i));
  }

  /** How `change_dl_sysdirs` ends: the program exits where a section does not fit, or fails by itself. */
  datatype Ending = Changed | Exit | Crash

  /** `change_dl_sysdirs`. */
  method ChangeDlSysdirs(f: array<byte>, h: Header, marker: Bytes, prefix: Bytes) returns (ending: Ending)
    requires marker != [] && SectionsFit(f[..], h) && SectionsApart(f[..], h) && DirsFit(f[..], h, marker, prefix)
    requires forall k :: 0 <= k < h.shnum ==> DirsApart(f[..], h, SpanAt(f[..], h, k))
    modifies f
    ensures AllWithin(DlEdits(old(f[..]), h, marker, prefix), DlSpans(old(f[..]), h, marker, prefix), f.Length)
    ensures ending.Exit? <==> exists i :: 0 <= i < h.shnum && SectionEdits(old(f[..]), h, marker, prefix)[i].TooLong?
    ensures ending.Crash? <==> !ending.Exit? && Crashes(old(f[..]), h)
    ensures ending.Changed? ==>
      var img := old(f[..]);
      f[..] == ApplyAll(img, DlEdits(img, h, marker, prefix), DlSpans(img, h, marker, prefix), h.shnum + 2)
  {
    hide SectionEdit, SectionEdits, SectionSpan, SectionSpans, SectionsApart, Applied, ApplyAll, AllWithin, ReadSection;
    hide NameAt, LastNamed, ReadAt, DirsText, LensText, DirsEdits, DirsSpans, DlEdits, DlSpans, DirsFit;
    ghost var img := f[..];
    ghost var edits, spans := SectionEdits(img, h, marker, prefix), SectionSpans(img, h);
    SectionsWithin(img, h, marker, prefix);
    DlWithin(img, h, marker, prefix);
    EditCount(img, h, marker, prefix);
    var str := ReadSection(f[..], h, h.shstrndx);
    var tab := f[..][str.offset..str.offset + str.size];
    var dirs: Option<Section>, lens: Option<Section>, sysdirs: Bytes := None, None, [];
    NoneNamed(img, h);
    for i := 0 to h.shnum
      invariant AllWithin(edits, spans, |img|) && f[..] == ApplyAll(img, edits, spans, i)
      invariant forall k :: 0 <= k < i ==> !edits[k].TooLong?
      invariant dirs == SectionOf(img, h, LastNamed(img, h, SYSDIRS, i))
      invariant lens == SectionOf(img, h, LastNamed(img, h, SYSDIRSLEN, i))
      invariant dirs.Some? ==> sysdirs == ReadAt(img, dirs.value.offset, dirs.value.size)
    {
      SectionTurn(img, h, marker, prefix, i);
      LastStep(img, h, SYSDIRS, i);
      LastStep(img, h, SYSDIRSLEN, i);
      var s := ReadSection(f[..], h, i);
      if s.kind == 1 && NameAt(tab, s.nameAt) == SYSDIRS {
        DirsTurn(img, h, marker, prefix, i);
        dirs, sysdirs := Some(s), ReadAt(f[..], s.offset, s.size);
      } else if s.kind == 1 && NameAt(tab, s.nameAt) == SYSDIRSLEN {
        lens := Some(s);
      }
      var fits := ChangeSection(f, tab, s, marker, prefix);
      if !fits {
        assert edits[i].TooLong?;
        return Exit;
      }
      ApplyStep(img, edits, spans, i);
    }
    if dirs.Some? && lens.None? { return Crash; }
    DirsLast(img, h, marker, prefix);
    if dirs.Some? {
      var newDirs, newLens := NewDirs(sysdirs, marker, prefix, NumberWidth(h));
      newDirs := PaddedDirs(newDirs, dirs.value.size);
      WriteAt(f, dirs.value.offset, newDirs);
      WriteAt(f, lens.value.offset, newLens);
    }
    ending := Changed;
  }

  lemma NoneNamed(img: Bytes, h: Header)
    requires TabFits(img, h)
    ensures LastNamed(img, h, SYSDIRS, 0) == LastNamed(img, h, SYSDIRSLEN, 0) == None
  {
  }

  /** The two writes after the loop, if there are any. */
  lemma DirsLast(img: Bytes, h: Header, marker: Bytes, prefix: Bytes)
    requires marker != [] && SectionsFit(img, h) && DirsFit(img, h, marker, prefix)
    requires AllWithin(SectionEdits(img, h, marker, prefix), SectionSpans(img, h), |img|)
    requires AllWithin(DlEdits(img, h, marker, prefix), DlSpans(img, h, marker, prefix), |img|)
    requires |DlEdits(img, h, marker, prefix)| == h.shnum + 2
    ensures var r := ApplyAll(img, SectionEdits(img, h, marker, prefix), SectionSpans(img, h), h.shnum);
      var all := ApplyAll(img, DlEdits(img, h, marker, prefix), DlSpans(img, h, marker, prefix), h.shnum + 2);
      && |r| == |img| && |SectionEdits(img, h, marker, prefix)| == h.shnum
      && (DirsOf(img, h).None? ==> all == r)
      && (DirsOf(img, h).Some? && LensOf(img, h).Some? ==>
        var dirs, lens := DirsOf(img, h).value, LensOf(img, h).value;
        var paths := Paths(ReadAt(img, dirs.offset, dirs.size));
        var text := PaddedDirs(DirsText(paths, marker, prefix), dirs.size);
        var numbers := LensText(paths, marker, prefix, NumberWidth(h));
        && dirs.offset + |text| <= |img| && lens.offset + |numbers| <= |img|
        && all == Patch(Patch(r, dirs.offset, text), lens.offset, numbers))
  {
    hide SectionEdit, SectionEdits, SectionSpan, SectionSpans, ReadSection, NameAt, LastNamed, ReadAt, DirsText, LensText;
    EditTotal(img, h, marker, prefix);
    var edits, spans := SectionEdits(img, h, marker, prefix), SectionSpans(img, h);
    var more, moreSpans := DirsEdits(img, h, marker, prefix), DirsSpans(img, h, marker, prefix);
    assert moreSpans[0] in moreSpans && moreSpans[1] in moreSpans;
    assert AllWithin(more, moreSpans, |img|);
    ApplyFirst(img, edits, spans, more, moreSpans, h.shnum);
    ApplyStep(img, edits + more, spans + moreSpans, h.shnum);
    ApplyStep(img, edits + more, spans + moreSpans, h.shnum + 1);
    assert (edits + more)[h.shnum] == more[0] && (edits + more)[h.shnum + 1] == more[1];
  }

  // ---- a whole executable ----

  /** What is written lies in the file, apart from each other, the section headers, and what is read later. */
  ghost predicate Layout(img: Bytes, marker: Bytes, prefix: Bytes)
    requires marker != []
  {
    |img| >= 64 &&
    var h := ParseHeader(img);
    && InterpFits(img, h) && SectionsFit(img, h) && SectionsApart(img, h) && DirsFit(img, h, marker, prefix)
    && (forall k :: 0 <= k < h.shnum ==> DirsApart(img, h, SpanAt(img, h, k)))
    && InterpApart(img, h, InterpSpan(img, h))
    && AllApart([InterpSpan(img, h)] + DlSpans(img, h, marker, prefix))
  }

  /** The interpreter is apart from all that is read after it. */
  ghost predicate InterpApart(img: Bytes, h: Header, span: Span)
    requires SectionsFit(img, h)
  {
    && Apart(span, TableSpan(h)) && Apart(span, NamesSpan(h)) && Apart(span, TabSpan(img, h))
    && DirsApart(img, h, span) && forall i :: 0 <= i < h.shnum ==> Apart(span, SpanAt(img, h, i))
  }

  lemma PatchKeeps(img: Bytes, e: Edit, span: Span, s: Span)
    requires Within(e, span, |img|) && Apart(span, s) && s.lo <= s.hi <= |img|
    ensures SameOn(img, Applied(img, e), s.lo, s.hi)
  {
    var r := Applied(img, e);
    forall k | s.lo <= k < s.hi ensures r[k] == img[k] {}
  }

  /** Two files with the same section headers and names. */
  ghost predicate SameTables(img: Bytes, after: Bytes, h: Header)
    requires SectionsFit(img, h)
  {
    && |after| == |img| && TabFits(after, h) && Tab(after, h) == Tab(img, h)
    && forall i :: 0 <= i < h.shnum ==> ReadSection(after, h, i) == ReadSection(img, h, i)
  }

  lemma HeaderStays(img: Bytes, h: Header, e: Edit, span: Span, i: nat)
    requires TablesFit(h, |img|) && i < h.shnum && Within(e, span, |img|) && Apart(span, TableSpan(h))
    ensures ReadSection(Applied(img, e), h, i) == ReadSection(img, h, i)
  {
    TableInFile(h, |img|);
    hide ReadSection, TablesFit;
    PatchKeeps(img, e, span, TableSpan(h));
    SameSection(img, Applied(img, e), h, i);
  }

  lemma TableInFile(h: Header, size: nat)
    requires TablesFit(h, size)
    ensures TableSpan(h).lo <= TableSpan(h).hi <= size && NamesSpan(h).lo <= NamesSpan(h).hi <= size
  {
  }

  lemma NamesHeaderStays(img: Bytes, h: Header, e: Edit, span: Span)
    requires TablesFit(h, |img|) && Within(e, span, |img|) && Apart(span, NamesSpan(h))
    ensures ReadSection(Applied(img, e), h, h.shstrndx) == ReadSection(img, h, h.shstrndx)
  {
    TableInFile(h, |img|);
    hide ReadSection, TablesFit, ShAt;
    PatchKeeps(img, e, span, NamesSpan(h));
    SameEntry(img, Applied(img, e), h, h.shstrndx);
  }

  lemma TabStays(img: Bytes, h: Header, e: Edit, span: Span)
    requires TabFits(img, h) && Within(e, span, |img|) && Apart(span, TabSpan(img, h))
    requires ReadSection(Applied(img, e), h, h.shstrndx) == ReadSection(img, h, h.shstrndx)
    ensures TabFits(Applied(img, e), h) && Tab(Applied(img, e), h) == Tab(img, h)
  {
    hide ReadSection, Within;
    PatchKeeps(img, e, span, TabSpan(img, h));
    hide Applied;
  }

  lemma TablesStay(img: Bytes, h: Header, e: Edit, span: Span)
    requires SectionsFit(img, h) && Within(e, span, |img|) && InterpApart(img, h, span)
    ensures SameTables(img, Applied(img, e), h)
  {
    assert TabFits(img, h);
    forall i | 0 <= i < h.shnum ensures ReadSection(Applied(img, e), h, i) == ReadSection(img, h, i) {
      HeaderStays(img, h, e, span, i);
    }
    NamesHeaderStays(img, h, e, span);
    TabStays(img, h, e, span);
    hide ReadSection, Within, Applied, Tab, NameAt, SectionSpan;
  }

  lemma SectionsStay(img: Bytes, h: Header, marker: Bytes, prefix: Bytes, e: Edit, span: Span)
    requires marker != [] && SectionsFit(img, h) && SectionsApart(img, h)
    requires Within(e, span, |img|) && InterpApart(img, h, span) && SameTables(img, Applied(img, e), h)
    ensures var after := Applied(img, e);
      && SectionsFit(after, h) && SectionsApart(after, h) && SectionSpans(after, h) == SectionSpans(img, h)
      && SectionEdits(after, h, marker, prefix) == SectionEdits(img, h, marker, prefix)
  {
    var after := Applied(img, e);
    hide SectionEdit, SectionSpan, ReadSection, NameAt, Applied, Within;
    forall i | 0 <= i < h.shnum
      ensures SpanAt(after, h, i) == SpanAt(img, h, i) && SpanAt(img, h, i).hi <= |img|
      ensures SectionEdit(after, Tab(img, h), ReadSection(img, h, i), marker, prefix)
           == SectionEdit(img, Tab(img, h), ReadSection(img, h, i), marker, prefix)
    {
      assert SpanAt(img, h, i).hi <= |img|;
      SpanIsSpan(Tab(img, h), ReadSection(img, h, i));
      PatchKeeps(img, e, span, SpanAt(img, h, i));
      SameEdit(img, after, Tab(img, h), ReadSection(img, h, i), marker, prefix);
    }
    assert SectionSpans(after, h) == SectionSpans(img, h);
    assert SectionEdits(after, h, marker, prefix) == SectionEdits(img, h, marker, prefix);
  }

  lemma SameNamed(img: Bytes, after: Bytes, h: Header, i: nat, name: Bytes)
    requires SectionsFit(img, h) && SameTables(img, after, h) && i < h.shnum
    ensures IsNamed(after, h, i, name) <==> IsNamed(img, h, i, name)
  {
    hide NameAt, SectionsFit, TabFits, Tab;
  }

  lemma SameLast(img: Bytes, after: Bytes, h: Header, name: Bytes)
    requires SectionsFit(img, h) && SameTables(img, after, h)
    ensures LastNamed(after, h, name, h.shnum) == LastNamed(img, h, name, h.shnum)
  {
    forall i | 0 <= i < h.shnum ensures IsNamed(after, h, i, name) <==> IsNamed(img, h, i, name) {
      SameNamed(img, after, h, i, name);
    }
    hide IsNamed, SectionsFit;
    assert Named(after, h, name) == Named(img, h, name);
  }

  lemma ApartStays(img: Bytes, after: Bytes, h: Header, span: Span)
    requires SectionsFit(img, h) && SameTables(img, after, h) && DirsApart(img, h, span)
    ensures DirsApart(after, h, span)
  {
    hide IsNamed, SectionsFit, Apart, ReadSection;
    forall i | 0 <= i < h.shnum && IsNamed(after, h, i, SYSDIRS) ensures Apart(span, AreaAt(after, h, i)) {
      SameNamed(img, after, h, i, SYSDIRS);
      assert ReadSection(after, h, i) == ReadSection(img, h, i);
    }
  }

  lemma SpansStay(img: Bytes, after: Bytes, h: Header)
    requires SectionsFit(img, h) && SameTables(img, after, h)
    ensures forall k :: 0 <= k < h.shnum ==> SpanAt(after, h, k) == SpanAt(img, h, k)
  {
    hide SectionsFit, SectionSpan, ReadSection;
  }

  lemma SameDirs(img: Bytes, after: Bytes, h: Header, marker: Bytes, prefix: Bytes)
    requires marker != [] && SectionsFit(img, h) && SameTables(img, after, h)
    requires DirsOf(after, h) == DirsOf(img, h) && LensOf(after, h) == LensOf(img, h)
    requires DirsOf(img, h).Some? ==>
      var dirs := DirsOf(img, h).value; ReadAt(after, dirs.offset, dirs.size) == ReadAt(img, dirs.offset, dirs.size)
    ensures DirsEdits(after, h, marker, prefix) == DirsEdits(img, h, marker, prefix)
  {
    hide SectionsFit, DirsOf, LensOf, ReadAt, DirsEdit, LensEdit;
  }

  lemma DirsStay(img: Bytes, h: Header, marker: Bytes, prefix: Bytes, e: Edit, span: Span)
    requires marker != [] && SectionsFit(img, h) && DirsFit(img, h, marker, prefix)
    requires forall k :: 0 <= k < h.shnum ==> DirsApart(img, h, SpanAt(img, h, k))
    requires Within(e, span, |img|) && InterpApart(img, h, span) && SameTables(img, Applied(img, e), h)
    ensures var after := Applied(img, e);
      && DirsFit(after, h, marker, prefix) && Crashes(after, h) == Crashes(img, h)
      && (forall k :: 0 <= k < h.shnum ==> DirsApart(after, h, SpanAt(after, h, k)))
      && DirsEdits(after, h, marker, prefix) == DirsEdits(img, h, marker, prefix)
  {
    var after := Applied(img, e);
    hide SectionSpan, ReadSection, Applied, Within, DirsEdit, LensEdit, IsNamed;
    SameLast(img, after, h, SYSDIRS);
    SameLast(img, after, h, SYSDIRSLEN);
    SpansStay(img, after, h);
    forall k | 0 <= k < h.shnum ensures DirsApart(after, h, SpanAt(after, h, k)) {
      ApartStays(img, after, h, SpanAt(img, h, k));
    }
    hide LastNamed, SpanAt;
    if DirsOf(img, h).Some? {
      var i := LastNamed(img, h, SYSDIRS, h.shnum).value;
      PatchKeeps(img, e, span, AreaAt(img, h, i));
    }
    hide DirsApart, InterpApart;
    SameDirs(img, after, h, marker, prefix);
  }

  /** After the interpreter has been changed, the sections are still what they were. */
  lemma InterpFirst(img: Bytes, newPath: Bytes, marker: Bytes, prefix: Bytes, after: Bytes)
    requires marker != [] && Layout(img, marker, prefix)
    requires var h := ParseHeader(img);
      Within(InterpEdit(img, h, newPath), InterpSpan(img, h), |img|) && after == Applied(img, InterpEdit(img, h, newPath))
    ensures var h := ParseHeader(img);
      && SectionsFit(after, h) && SectionsApart(after, h) && SectionSpans(after, h) == SectionSpans(img, h)
      && SectionEdits(after, h, marker, prefix) == SectionEdits(img, h, marker, prefix)
      && DirsFit(after, h, marker, prefix) && Crashes(after, h) == Crashes(img, h)
      && (forall k :: 0 <= k < h.shnum ==> DirsApart(after, h, SpanAt(after, h, k)))
      && DirsEdits(after, h, marker, prefix) == DirsEdits(img, h, marker, prefix)
  {
    var h := ParseHeader(img);
    var e, span := InterpEdit(img, h, newPath), InterpSpan(img, h);
    hide SectionsApart, DirsFit, DirsApart, InterpApart, InterpEdit, InterpSpan, SectionEdits, SectionSpans, DirsEdits;
    hide SectionsFit, SpanAt, Applied, Within, AllApart, DlSpans, ParseHeader, InterpFits, Crashes, SameTables;
    TablesStay(img, h, e, span);
    SectionsStay(img, h, marker, prefix, e, span);
    DirsStay(img, h, marker, prefix, e, span);
  }

  /** All that is written to an executable: the interpreter, section by section, and the directories. */
  ghost function AllEdits(img: Bytes, newPath: Bytes, marker: Bytes, prefix: Bytes): seq<Edit>
    requires marker != [] && Layout(img, marker, prefix)
  {
    [InterpEdit(img, ParseHeader(img), newPath)] + DlEdits(img, ParseHeader(img), marker, prefix)
  }

  ghost function AllSpans(img: Bytes, marker: Bytes, prefix: Bytes): seq<Span>
    requires marker != [] && Layout(img, marker, prefix)
  {
    [InterpSpan(img, ParseHeader(img))] + DlSpans(img, ParseHeader(img), marker, prefix)
  }

  lemma {:induction false} ApplyCons(img: Bytes, e: Edit, span: Span, edits: seq<Edit>, spans: seq<Span>, n: nat)
    requires Within(e, span, |img|) && AllWithin(edits, spans, |img|) && n <= |edits|
    ensures AllWithin([e] + edits, [span] + spans, |img|)
    ensures ApplyAll(Applied(img, e), edits, spans, n) == ApplyAll(img, [e] + edits, [span] + spans, n + 1)
    decreases n
  {
    if n > 0 { ApplyCons(img, e, span, edits, spans, n - 1); }
  }

  /** `errors` is set where the interpreter did not fit; the program exits where a section did not, or fails. */
  datatype Outcome = Skipped | Relocated(errors: bool) | Exited | Crashed

  method RelocateFile(f: array<byte>, newPath: Bytes, marker: Bytes, prefix: Bytes) returns (outcome: Outcome)
    requires marker != [] && (f.Length >= 64 && Arch(f[..]) != 0 ==> Layout(f[..], marker, prefix))
    modifies f
    ensures outcome.Skipped? <==> f.Length < 64 || Arch(old(f[..])) == 0
    ensures outcome.Skipped? ==> f[..] == old(f[..])
    ensures !outcome.Skipped? ==>
      var img := old(f[..]);
      var h, edits := ParseHeader(img), AllEdits(img, newPath, marker, prefix);
      && AllWithin(edits, AllSpans(img, marker, prefix), f.Length)
      && (outcome.Exited? <==> exists i :: 1 <= i < |edits| && edits[i].TooLong?)
      && (outcome.Crashed? <==> !outcome.Exited? && Crashes(img, h))
      && (outcome.Relocated? ==> (outcome.errors <==> edits[0].TooLong?))
      && (outcome.Relocated? ==> f[..] == Final(img, newPath, marker, prefix))
  {
    hide InterpFits, SectionsApart, InterpEdit, InterpSpan, SectionEdits, SectionSpans, SectionsFit, DirsFit, DirsApart;
    hide ParseHeader, Applied, ApplyAll, AllWithin, Within, Crashes, DirsEdits, AllApart, SpanAt, InterpApart;
    ghost var img := f[..];
    if f.Length < 64 { return Skipped; }
    var arch := Arch(f[..]);
    if arch == 0 { return Skipped; }
    var h := ParseHeader(f[..]);
    var ok := ChangeInterpreter(f, h, newPath);
    InterpFirst(img, newPath, marker, prefix, f[..]);
    SameDl(img, f[..], h, marker, prefix);
    var ending := ChangeDlSysdirs(f, h, marker, prefix);
    EditsJoined(img, newPath, marker, prefix);
    ExitedIff(img, newPath, marker, prefix);
    outcome := match ending
      case Changed => Relocated(!ok)
      case Exit => Exited
      case Crash => Crashed;
  }

  lemma SameDl(img: Bytes, after: Bytes, h: Header, marker: Bytes, prefix: Bytes)
    requires marker != [] && SectionsFit(img, h) && SectionsFit(after, h)
    requires SectionSpans(after, h) == SectionSpans(img, h)
    requires SectionEdits(after, h, marker, prefix) == SectionEdits(img, h, marker, prefix)
    requires DirsEdits(after, h, marker, prefix) == DirsEdits(img, h, marker, prefix)
    ensures DlEdits(after, h, marker, prefix) == DlEdits(img, h, marker, prefix)
    ensures DlSpans(after, h, marker, prefix) == DlSpans(img, h, marker, prefix)
  {
    hide SectionEdits, SectionSpans, DirsEdits, SectionsFit;
  }

  lemma EditsJoined(img: Bytes, newPath: Bytes, marker: Bytes, prefix: Bytes)
    requires marker != [] && Layout(img, marker, prefix)
    requires var h := ParseHeader(img);
      && Within(InterpEdit(img, h, newPath), InterpSpan(img, h), |img|)
      && AllWithin(DlEdits(img, h, marker, prefix), DlSpans(img, h, marker, prefix), |img|)
    ensures var h, edits := ParseHeader(img), AllEdits(img, newPath, marker, prefix);
      && |edits| == h.shnum + 3 && edits[0] == InterpEdit(img, h, newPath)
      && AllWithin(edits, AllSpans(img, marker, prefix), |img|)
      && |DlEdits(img, h, marker, prefix)| == h.shnum + 2
      && ApplyAll(Applied(img, InterpEdit(img, h, newPath)), DlEdits(img, h, marker, prefix),
                  DlSpans(img, h, marker, prefix), h.shnum + 2)
         == ApplyAll(img, edits, AllSpans(img, marker, prefix), |edits|)
  {
    var h := ParseHeader(img);
    var edits, spans := DlEdits(img, h, marker, prefix), DlSpans(img, h, marker, prefix);
    hide *;
    AllOf(img, newPath, marker, prefix);
    ApplyCons(img, InterpEdit(img, h, newPath), InterpSpan(img, h), edits, spans, h.shnum + 2);
  }

  lemma AllOf(img: Bytes, newPath: Bytes, marker: Bytes, prefix: Bytes)
    requires marker != [] && Layout(img, marker, prefix)
    ensures var h := ParseHeader(img);
      && InterpFits(img, h) && SectionsFit(img, h)
      && AllEdits(img, newPath, marker, prefix) == [InterpEdit(img, h, newPath)] + DlEdits(img, h, marker, prefix)
      && DlEdits(img, h, marker, prefix) == SectionEdits(img, h, marker, prefix) + DirsEdits(img, h, marker, prefix)
      && AllSpans(img, marker, prefix) == [InterpSpan(img, h)] + DlSpans(img, h, marker, prefix)
      && |SectionEdits(img, h, marker, prefix)| == h.shnum && |DlEdits(img, h, marker, prefix)| == h.shnum + 2
  {
    var h := ParseHeader(img);
    hide ParseHeader, SectionsFit, SectionsApart, InterpFits, InterpEdit, InterpSpan, SectionSpans, DirsFit, DirsApart;
    hide InterpApart, AllApart, DirsEdits;
    EditTotal(img, h, marker, prefix);
    hide SectionEdits;
  }

  /** Some section did not fit exactly if one of all edits but the first did not. */
  lemma ExitedIff(img: Bytes, newPath: Bytes, marker: Bytes, prefix: Bytes)
    requires marker != [] && Layout(img, marker, prefix)
    ensures var edits := AllEdits(img, newPath, marker, prefix);
      (exists i :: 1 <= i < |edits| && edits[i].TooLong?) <==>
        exists i :: 0 <= i < ParseHeader(img).shnum && SectionEdits(img, ParseHeader(img), marker, prefix)[i].TooLong?
  {
    var h := ParseHeader(img);
    var e := InterpEdit(img, h, newPath);
    var edits, more := SectionEdits(img, h, marker, prefix), DirsEdits(img, h, marker, prefix);
    hide *;
    AllOf(img, newPath, marker, prefix);
    SomeTooLong(e, edits, more);
  }

  lemma SomeTooLong(e: Edit, edits: seq<Edit>, more: seq<Edit>)
    requires forall m :: m in more ==> !m.TooLong?
    ensures (exists i :: 1 <= i < |[e] + (edits + more)| && ([e] + (edits + more))[i].TooLong?) <==>
      exists i :: 0 <= i < |edits| && edits[i].TooLong?
  {
    var all := [e] + (edits + more);
    forall i | |edits| < i < |all| ensures !all[i].TooLong? { assert all[i] == more[i - 1 - |edits|]; }
    if i :| 1 <= i < |all| && all[i].TooLong? { assert edits[i - 1].TooLong?; }
    if i :| 0 <= i < |edits| && edits[i].TooLong? { assert all[i + 1].TooLong?; }
  }

  lemma EditsWithin(img: Bytes, newPath: Bytes, marker: Bytes, prefix: Bytes)
    requires marker != [] && Layout(img, marker, prefix)
    ensures AllWithin(AllEdits(img, newPath, marker, prefix), AllSpans(img, marker, prefix), |img|)
  {
    var h := ParseHeader(img);
    InterpWithin(img, h, newPath);
    hide ParseHeader, InterpFits, SectionsApart, InterpEdit, InterpSpan, SectionSpans, SectionEdits, DirsEdits, DirsApart;
    hide InterpApart, AllApart, Within;
    DlWithin(img, h, marker, prefix);
    hide DlEdits, DlSpans, SectionsFit, DirsFit;
    WithinBoth([InterpEdit(img, h, newPath)], [InterpSpan(img, h)], DlEdits(img, h, marker, prefix),
               DlSpans(img, h, marker, prefix), |img|);
  }

  lemma InterpWithin(img: Bytes, h: Header, newPath: Bytes)
    requires InterpFits(img, h)
    ensures Within(InterpEdit(img, h, newPath), InterpSpan(img, h), |img|)
  {
  }

  lemma SpansApart(img: Bytes, marker: Bytes, prefix: Bytes)
    requires marker != [] && Layout(img, marker, prefix)
    ensures AllApart(AllSpans(img, marker, prefix))
  {
    hide ParseHeader, InterpFits, SectionsApart, InterpSpan, SectionSpans, SectionEdits, DirsEdits, DirsApart, AllApart;
    hide InterpApart, SectionsFit, DirsFit, DlSpans;
  }

  /** The file after a successful run, or after one in which only the interpreter did not fit. */
  ghost function Final(img: Bytes, newPath: Bytes, marker: Bytes, prefix: Bytes): (r: Bytes)
    requires marker != [] && Layout(img, marker, prefix)
    ensures |r| == |img|
  {
    EditsWithin(img, newPath, marker, prefix);
    var edits := AllEdits(img, newPath, marker, prefix);
    ApplyAll(img, edits, AllSpans(img, marker, prefix), |edits|)
  }

  /** Bytes outside the rewritten areas stay, whatever was relocated. */
  lemma NothingElseChanges(img: Bytes, newPath: Bytes, marker: Bytes, prefix: Bytes, k: nat)
    requires marker != [] && Layout(img, marker, prefix)
    requires k < |img| && Outside(k, AllSpans(img, marker, prefix), |AllSpans(img, marker, prefix)|)
    ensures Final(img, newPath, marker, prefix)[k] == img[k]
  {
    EditsWithin(img, newPath, marker, prefix);
    var edits, spans := AllEdits(img, newPath, marker, prefix), AllSpans(img, marker, prefix);
    hide Layout, AllEdits, AllSpans, AllWithin;
    OutsideStays(img, edits, spans, |spans|, k);
  }

  lemma AreaOf(img: Bytes, newPath: Bytes, marker: Bytes, prefix: Bytes, n: nat, e: Edit, span: Span)
    requires marker != [] && Layout(img, marker, prefix)
    requires n < |AllEdits(img, newPath, marker, prefix)| && AllEdits(img, newPath, marker, prefix)[n] == e && e.Put?
    requires AllSpans(img, marker, prefix)[n] == span
    ensures span.lo <= span.hi <= |img| && Final(img, newPath, marker, prefix)[span.lo..span.hi] == e.data
  {
    EditsWithin(img, newPath, marker, prefix);
    SpansApart(img, marker, prefix);
    hide Layout, AllEdits, AllSpans;
    assert Within(e, span, |img|);
    var edits := AllEdits(img, newPath, marker, prefix);
    AreaHolds(img, edits, AllSpans(img, marker, prefix), |edits|, n);
  }

  /** The interpreter area reads back as the new path, padded to its old size. */
  lemma InterpReadsBack(img: Bytes, newPath: Bytes, marker: Bytes, prefix: Bytes)
    requires marker != [] && Layout(img, marker, prefix)
    requires InterpEdit(img, ParseHeader(img), newPath).Put? && 0 !in newPath
    ensures var span := InterpSpan(img, ParseHeader(img));
      && span.lo <= span.hi <= |img|
      && Padded(newPath, span.hi - span.lo) == Some(Final(img, newPath, marker, prefix)[span.lo..span.hi])
      && CString(Final(img, newPath, marker, prefix)[span.lo..span.hi]) == newPath
  {
    hide ParseHeader, AllWithin, InterpEdit, InterpSpan, Final;
    var span := InterpSpan(img, ParseHeader(img));
    AreaOf(img, newPath, marker, prefix, 0, InterpEdit(img, ParseHeader(img), newPath), span);
    InterpIsPadded(img, ParseHeader(img), newPath);
    PaddedReadsBack(newPath, span.hi - span.lo);
  }

  lemma InterpIsPadded(img: Bytes, h: Header, newPath: Bytes)
    requires InterpFits(img, h) && InterpEdit(img, h, newPath).Put?
    ensures var span := InterpSpan(img, h);
      span.lo <= span.hi <= |img| && Padded(newPath, span.hi - span.lo) == Some(InterpEdit(img, h, newPath).data)
  {
  }

  /** What was written for section `i`. */
  lemma SectionReadsBack(img: Bytes, newPath: Bytes, marker: Bytes, prefix: Bytes, i: nat)
    requires marker != [] && Layout(img, marker, prefix)
    requires i < ParseHeader(img).shnum
    ensures var h := ParseHeader(img);
      var span := SpanAt(img, h, i);
      span.lo <= span.hi <= |img| &&
      var e := SectionEdit(img, Tab(img, h), ReadSection(img, h, i), marker, prefix);
      && e == SectionEdits(img, h, marker, prefix)[i]
      && (e.Put? ==> Final(img, newPath, marker, prefix)[span.lo..span.hi] == e.data)
  {
    hide ParseHeader, AllWithin, InterpEdit, InterpSpan, Final, SectionEdit, SectionSpan, ReadSection;
    var h := ParseHeader(img);
    assert SpanAt(img, h, i).hi <= |img|;
    var e := SectionEdit(img, Tab(img, h), ReadSection(img, h, i), marker, prefix);
    assert AllEdits(img, newPath, marker, prefix)[i + 1] == e;
    assert AllSpans(img, marker, prefix)[i + 1] == SpanAt(img, h, i);
    SpanIsSpan(Tab(img, h), ReadSection(img, h, i));
    if e.Put? { AreaOf(img, newPath, marker, prefix, i + 1, e, SpanAt(img, h, i)); }
  }

  /** A `.ldsocache` section reads back as its own text with the prefix replaced, padded to its size. */
  lemma CacheReadsBack(img: Bytes, newPath: Bytes, marker: Bytes, prefix: Bytes, i: nat)
    requires marker != [] && Layout(img, marker, prefix)
    requires i < ParseHeader(img).shnum && IsNamed(img, ParseHeader(img), i, LDSOCACHE)
    requires !SectionEdits(img, ParseHeader(img), marker, prefix)[i].TooLong?
    ensures var s := ReadSection(img, ParseHeader(img), i);
      && s.offset + s.size <= |img|
      && Padded(NewText(img[s.offset..s.offset + s.size], marker, prefix), s.size)
         == Some(Final(img, newPath, marker, prefix)[s.offset..s.offset + s.size])
  {
    hide ParseHeader, AllWithin, Final, NewText, ReadSection, SectionEdits, InterpFits, SectionsApart, Apart;
    SectionReadsBack(img, newPath, marker, prefix, i);
  }

  /** So does each whole slot `k` of a `.gccrelocprefix` section. */
  lemma SlotReadsBack(img: Bytes, newPath: Bytes, marker: Bytes, prefix: Bytes, i: nat, k: nat)
    requires marker != [] && Layout(img, marker, prefix)
    requires i < ParseHeader(img).shnum && IsNamed(img, ParseHeader(img), i, GCCRELOCPREFIX)
    requires k < ReadSection(img, ParseHeader(img), i).size / SLOT
    requires !SectionEdits(img, ParseHeader(img), marker, prefix)[i].TooLong?
    ensures var at := ReadSection(img, ParseHeader(img), i).offset + k * SLOT;
      && at + SLOT <= |img|
      && Padded(NewText(img[at..at + SLOT], marker, prefix), SLOT)
         == Some(Final(img, newPath, marker, prefix)[at..at + SLOT])
  {
    hide ParseHeader, AllWithin, Final, NewText, ReadSection, SectionEdits, InterpFits, SectionsApart, Apart;
    SectionReadsBack(img, newPath, marker, prefix, i);
    var s := ReadSection(img, ParseHeader(img), i);
    SlotOfArea(img, Final(img, newPath, marker, prefix), s.offset, s.size / SLOT, k, marker, prefix);
  }

  /** One such section on its own: what is written for it, and what then is read there. */
  lemma CacheArea(img: Bytes, final: Bytes, tab: Bytes, s: Section, pieces: seq<Bytes>, k: nat, marker: Bytes, prefix: Bytes)
    requires s.kind == 1 && NameAt(tab, s.nameAt) == LDSOCACHE && s.offset + s.size <= |img| == |final|
    requires marker != [] && 0 !in marker && pieces != [] && Between(pieces, marker) && 0 !in Glue(pieces, prefix)
    requires img[s.offset..s.offset + s.size] == Glue(pieces, marker) + Zeros(k)
    requires var e := SectionEdit(img, tab, s, marker, prefix); e.Put? ==> final[s.offset..s.offset + s.size] == e.data
    ensures var e := SectionEdit(img, tab, s, marker, prefix);
      && (e.TooLong? <==> |Glue(pieces, prefix)| >= s.size)
      && (!e.TooLong? ==> CString(final[s.offset..s.offset + s.size]) == Glue(pieces, prefix))
  {
    hide CString, Glue, Between, Padded, NewText, NameAt;
    MovedReadsBack(img[s.offset..s.offset + s.size], pieces, k, marker, prefix);
  }

  /**
   The path of the loader's cache moves with the prefix: if the section holds a text with markers,
   padded with NULs, a C program then reads the same text with the prefix in their places. The program
   gives up exactly if that leaves no room for a NUL.
   */
  lemma CacheMoves(img: Bytes, newPath: Bytes, marker: Bytes, prefix: Bytes, i: nat, pieces: seq<Bytes>, k: nat)
    requires marker != [] && 0 !in marker && Layout(img, marker, prefix)
    requires i < ParseHeader(img).shnum && IsNamed(img, ParseHeader(img), i, LDSOCACHE)
    requires pieces != [] && Between(pieces, marker) && 0 !in Glue(pieces, prefix)
    requires var s := ReadSection(img, ParseHeader(img), i);
      s.offset + s.size <= |img| && img[s.offset..s.offset + s.size] == Glue(pieces, marker) + Zeros(k)
    ensures var s, e := ReadSection(img, ParseHeader(img), i), SectionEdits(img, ParseHeader(img), marker, prefix)[i];
      && (e.TooLong? <==> |Glue(pieces, prefix)| >= s.size)
      && (!e.TooLong? ==>
            CString(Final(img, newPath, marker, prefix)[s.offset..s.offset + s.size]) == Glue(pieces, prefix))
  {
    hide ParseHeader, AllWithin, Final, NewText, ReadSection, SectionEdits, InterpFits, SectionsApart, Apart;
    hide CString, Glue, Between, SectionEdit, Zeros, NameAt;
    SectionReadsBack(img, newPath, marker, prefix, i);
    var h := ParseHeader(img);
    CacheArea(img, Final(img, newPath, marker, prefix), Tab(img, h), ReadSection(img, h, i), pieces, k, marker, prefix);
  }

  lemma MovedSlot(img: Bytes, final: Bytes, at: nat, pieces: seq<Bytes>, z: nat, marker: Bytes, prefix: Bytes)
    requires marker != [] && 0 !in marker && pieces != [] && Between(pieces, marker) && 0 !in Glue(pieces, prefix)
    requires at + SLOT <= |img| == |final| && img[at..at + SLOT] == Glue(pieces, marker) + Zeros(z)
    requires Padded(NewText(img[at..at + SLOT], marker, prefix), SLOT) == Some(final[at..at + SLOT])
    ensures CString(final[at..at + SLOT]) == Glue(pieces, prefix)
  {
    MovedReadsBack(img[at..at + SLOT], pieces, z, marker, prefix);
  }

  /** So does the path in each slot of `.gccrelocprefix`. */
  lemma SlotMoves(img: Bytes, newPath: Bytes, marker: Bytes, prefix: Bytes, i: nat, k: nat, pieces: seq<Bytes>, z: nat)
    requires marker != [] && 0 !in marker && Layout(img, marker, prefix)
    requires i < ParseHeader(img).shnum && IsNamed(img, ParseHeader(img), i, GCCRELOCPREFIX)
    requires k < ReadSection(img, ParseHeader(img), i).size / SLOT
    requires !SectionEdits(img, ParseHeader(img), marker, prefix)[i].TooLong?
    requires pieces != [] && Between(pieces, marker) && 0 !in Glue(pieces, prefix)
    requires var at := ReadSection(img, ParseHeader(img), i).offset + k * SLOT;
      at + SLOT <= |img| && img[at..at + SLOT] == Glue(pieces, marker) + Zeros(z)
    ensures var at := ReadSection(img, ParseHeader(img), i).offset + k * SLOT;
      CString(Final(img, newPath, marker, prefix)[at..at + SLOT]) == Glue(pieces, prefix)
  {
    hide ParseHeader, AllWithin, Final, NewText, ReadSection, SectionEdits, InterpFits, SectionsApart, Apart;
    hide CString, Glue, Between, Padded;
    var at := ReadSection(img, ParseHeader(img), i).offset + k * SLOT;
    SlotReadsBack(img, newPath, marker, prefix, i, k);
    MovedSlot(img, Final(img, newPath, marker, prefix), at, pieces, z, marker, prefix);
  }

  /** The program gives up on such a section exactly if the new text of some slot leaves no room for a NUL. */
  lemma SlotsTooLong(img: Bytes, marker: Bytes, prefix: Bytes, i: nat)
    requires marker != [] && Layout(img, marker, prefix)
    requires i < ParseHeader(img).shnum && IsNamed(img, ParseHeader(img), i, GCCRELOCPREFIX)
    ensures var s := ReadSection(img, ParseHeader(img), i);
      && s.offset + s.size / SLOT * SLOT <= |img|
      && (SectionEdits(img, ParseHeader(img), marker, prefix)[i].TooLong? <==>
            exists k :: 0 <= k < s.size / SLOT &&
              |NewText(img[s.offset..s.offset + s.size / SLOT * SLOT][k * SLOT..(k + 1) * SLOT], marker, prefix)| >= SLOT)
  {
    hide ParseHeader, AllWithin, Final, NewText, ReadSection, SectionEdits, InterpFits, SectionsApart, Apart;
    SectionReadsBack(img, [], marker, prefix, i);
    var s := ReadSection(img, ParseHeader(img), i);
    SlotsFitIff(img[s.offset..s.offset + s.size / SLOT * SLOT], s.size / SLOT, marker, prefix);
  }

  lemma SlotOfArea(img: Bytes, after: Bytes, at: nat, n: nat, k: nat, marker: Bytes, prefix: Bytes)
    requires marker != [] && at + n * SLOT <= |img| == |after| && k < n
    requires Slots(img[at..at + n * SLOT], n, marker, prefix) == Some(after[at..at + n * SLOT])
    ensures Padded(NewText(img[at + k * SLOT..at + k * SLOT + SLOT], marker, prefix), SLOT)
         == Some(after[at + k * SLOT..at + k * SLOT + SLOT])
  {
    hide NewText;
    var a, b := img[at..at + n * SLOT], after[at..at + n * SLOT];
    SlotAt(a, n, k, marker, prefix);
    SliceOfSlice(img, at, at + n * SLOT, k * SLOT, (k + 1) * SLOT);
    SliceOfSlice(after, at, at + n * SLOT, k * SLOT, (k + 1) * SLOT);
    assert at + (k + 1) * SLOT == at + k * SLOT + SLOT;
  }

  lemma SliceOfSlice(s: Bytes, lo: nat, hi: nat, a: nat, b: nat)
    requires lo <= hi <= |s| && a <= b <= hi - lo
    ensures s[lo..hi][a..b] == s[lo + a..lo + b]
  {
    var x, y := s[lo..hi][a..b], s[lo + a..lo + b];
    forall i | 0 <= i < b - a ensures x[i] == y[i] { assert x[i] == s[lo..hi][a + i] == s[lo + a + i]; }
  }

  /** `.sysdirs` is written beyond its end exactly if the new texts are too long, `.sysdirslen` if they are too many. */
  lemma DirsOverflow(img: Bytes, h: Header, marker: Bytes, prefix: Bytes)
    requires marker != [] && TabFits(img, h) && DirsOf(img, h).Some? && LensOf(img, h).Some?
    ensures var dirs, lens := DirsOf(img, h).value, LensOf(img, h).value;
      var spans := DirsSpans(img, h, marker, prefix);
      var paths := Paths(ReadAt(img, dirs.offset, dirs.size));
      && (spans[0].hi > dirs.offset + dirs.size <==> Total(paths, marker, prefix) > dirs.size)
      && (spans[1].hi > lens.offset + lens.size <==> |paths| * NumberWidth(h) > lens.size)
  {
    var dirs := DirsOf(img, h).value;
    DirsLength(Paths(ReadAt(img, dirs.offset, dirs.size)), marker, prefix, NumberWidth(h));
    hide Paths, Total, LensText, DirsText, ReadAt, TabFits;
  }

  lemma DirsIndex(img: Bytes, h: Header, newPath: Bytes, marker: Bytes, prefix: Bytes, j: nat)
    requires marker != [] && Layout(img, marker, prefix) && h == ParseHeader(img) && TabFits(img, h) && j < 2
    ensures var edits, spans := AllEdits(img, newPath, marker, prefix), AllSpans(img, marker, prefix);
      && |edits| == |spans| == h.shnum + 3
      && edits[h.shnum + 1 + j] == DirsEdits(img, h, marker, prefix)[j]
      && spans[h.shnum + 1 + j] == DirsSpans(img, h, marker, prefix)[j]
  {
    AllOf(img, newPath, marker, prefix);
    EditTotal(img, h, marker, prefix);
    hide ParseHeader, Layout, SectionEdits, SectionSpans, DirsEdits, DirsSpans, InterpEdit, InterpSpan;
    hide AllEdits, AllSpans, TabFits, SectionsFit, InterpFits;
  }

  lemma DirsWritten(img: Bytes, h: Header, newPath: Bytes, marker: Bytes, prefix: Bytes, j: nat)
    requires marker != [] && Layout(img, marker, prefix) && h == ParseHeader(img) && TabFits(img, h) && j < 2
    requires DirsEdits(img, h, marker, prefix)[j].Put?
    ensures var e := DirsEdits(img, h, marker, prefix)[j];
      && e.at + |e.data| <= |img| && Final(img, newPath, marker, prefix)[e.at..e.at + |e.data|] == e.data
  {
    hide ParseHeader, Layout, Final, DirsEdits, AllEdits, AllSpans, TabFits;
    DirsIndex(img, h, newPath, marker, prefix, j);
    var e, span := DirsEdits(img, h, marker, prefix)[j], DirsSpans(img, h, marker, prefix)[j];
    AreaOf(img, newPath, marker, prefix, h.shnum + 1 + j, e, span);
  }

  /** The directories of a file are these. */
  ghost predicate DirsAre(final: Bytes, dirs: Section, paths: seq<Bytes>) {
    Paths(ReadAt(final, dirs.offset, dirs.size)) == paths
  }

  /** And these are their lengths, but for those that are too large for a number. */
  ghost predicate LensAre(final: Bytes, lens: Section, width: nat, paths: seq<Bytes>) {
    forall k :: 0 <= k < |paths| && |paths[k]| < Power(width) ==>
      LengthIs(final, lens.offset + k * width, width, |paths[k]|)
  }

  ghost predicate LengthIs(final: Bytes, at: nat, width: nat, n: nat) {
    at + width <= |final| && Num(final, at, width, true) == n
  }

  lemma DirsOfText(area: Bytes, final: Bytes, dirs: Section, marker: Bytes, prefix: Bytes)
    requires marker != [] && 0 !in prefix && prefix != [] && Total(Paths(area), marker, prefix) <= dirs.size
    requires var text := PaddedDirs(DirsText(Paths(area), marker, prefix), dirs.size);
      dirs.offset + |text| <= |final| && final[dirs.offset..dirs.offset + |text|] == text
    ensures DirsAre(final, dirs, NewPaths(Paths(area), marker, prefix))
  {
    hide Paths, DirsText, Total, Substitute, NewPaths, CString;
    var paths := Paths(area);
    PathsClean(area);
    var text := PaddedDirs(DirsText(paths, marker, prefix), dirs.size);
    assert |text| == dirs.size && Paths(text) == NewPaths(paths, marker, prefix) by {
      PaddedPathsBack(paths, marker, prefix, dirs.size);
    }
    hide PaddedDirs;
    AreaRead(final, dirs.offset, text);
  }

  lemma AreaRead(final: Bytes, at: nat, text: Bytes)
    requires at + |text| <= |final| && final[at..at + |text|] == text
    ensures ReadAt(final, at, |text|) == text
  {
  }

  lemma LensOfText(paths: seq<Bytes>, final: Bytes, lens: Section, width: nat, marker: Bytes, prefix: Bytes)
    requires marker != []
    requires var numbers := LensText(paths, marker, prefix, width);
      lens.offset + |numbers| <= |final| && final[lens.offset..lens.offset + |numbers|] == numbers
    ensures LensAre(final, lens, width, NewPaths(paths, marker, prefix))
  {
    hide LensText, Power, NewPaths, LengthIs;
    var after := NewPaths(paths, marker, prefix);
    forall k | 0 <= k < |after| && |after[k]| < Power(width)
      ensures LengthIs(final, lens.offset + k * width, width, |after[k]|)
    {
      LensBack(paths, final, lens.offset, width, marker, prefix, k);
    }
  }

  lemma LensBack(paths: seq<Bytes>, final: Bytes, at: nat, width: nat, marker: Bytes, prefix: Bytes, k: nat)
    requires marker != [] && k < |paths| && |NewPaths(paths, marker, prefix)[k]| < Power(width)
    requires var numbers := LensText(paths, marker, prefix, width);
      at + |numbers| <= |final| && final[at..at + |numbers|] == numbers
    ensures LengthIs(final, at + k * width, width, |NewPaths(paths, marker, prefix)[k]|)
  {
    hide LensText, Substitute, Pack, Power, Num, NewPaths;
    LensAt(paths, marker, prefix, width, k);
    var numbers, lo := LensText(paths, marker, prefix, width), k * width;
    SliceOfSlice(final, at, at + |numbers|, lo, lo + width);
    PackReadsBack(final, at + lo, |NewPaths(paths, marker, prefix)[k]|, width);
  }

  lemma DirsEditsAre(img: Bytes, h: Header, marker: Bytes, prefix: Bytes)
    requires marker != [] && TabFits(img, h) && DirsOf(img, h).Some? && LensOf(img, h).Some?
    ensures var dirs, lens := DirsOf(img, h).value, LensOf(img, h).value;
      var area := ReadAt(img, dirs.offset, dirs.size);
      DirsEdits(img, h, marker, prefix) ==
        [DirsEdit(area, dirs, marker, prefix), LensEdit(area, lens, marker, prefix, NumberWidth(h))]
  {
    hide DirsOf, LensOf, TabFits, ReadAt;
  }

  /** Where they fit, `.sysdirs` reads back as the old texts with the prefix replaced; `.sysdirslen` as their lengths. */
  lemma DirsReadBack(img: Bytes, h: Header, newPath: Bytes, marker: Bytes, prefix: Bytes)
    requires marker != [] && Layout(img, marker, prefix) && 0 !in prefix && prefix != []
    requires h == ParseHeader(img) && TabFits(img, h) && DirsOf(img, h).Some? && LensOf(img, h).Some?
    ensures var dirs, lens := DirsOf(img, h).value, LensOf(img, h).value;
      var paths, final := Paths(ReadAt(img, dirs.offset, dirs.size)), Final(img, newPath, marker, prefix);
      && (Total(paths, marker, prefix) <= dirs.size ==> DirsAre(final, dirs, NewPaths(paths, marker, prefix)))
      && LensAre(final, lens, NumberWidth(h), NewPaths(paths, marker, prefix))
  {
    hide ParseHeader, Layout, Final, DirsOf, LensOf, Paths, DirsText, LensText, TabFits, DirsEdits;
    hide DirsAre, LensAre, ReadAt, PaddedDirs, NewPaths, Total;
    var dirs, lens := DirsOf(img, h).value, LensOf(img, h).value;
    var area := ReadAt(img, dirs.offset, dirs.size);
    DirsEditsAre(img, h, marker, prefix);
    DirsWritten(img, h, newPath, marker, prefix, 0);
    DirsWritten(img, h, newPath, marker, prefix, 1);
    var paths, final := Paths(area), Final(img, newPath, marker, prefix);
    if Total(paths, marker, prefix) <= dirs.size {
      DirsOfText(area, final, dirs, marker, prefix);
    }
    LensOfText(paths, final, lens, NumberWidth(h), marker, prefix);
  }

  /** The script fails by itself exactly if there is a `.sysdirs` section and no `.sysdirslen`. */
  lemma CrashesIff(img: Bytes, h: Header)
    requires TabFits(img, h)
    ensures var some := exists i :: 0 <= i < h.shnum && IsNamed(img, h, i, SYSDIRS);
      var none := forall i :: 0 <= i < h.shnum ==> !IsNamed(img, h, i, SYSDIRSLEN);
      Crashes(img, h) <==> some && none
  {
    hide IsNamed, TabFits;
    LastIff(Named(img, h, SYSDIRS), h.shnum);
    LastIff(Named(img, h, SYSDIRSLEN), h.shnum);
  }

  lemma {:induction false} LastIff(list: seq<bool>, n: nat)
    requires n <= |list|
    ensures LastTrue(list, n).Some? <==> exists i :: 0 <= i < n && list[i]
  {
    if n > 0 { LastIff(list, n - 1); }
  }
}

/**
 What scripts/relocate_sdk.py looks for and what it then writes, told without the functions that compute it:
 the formats of `struct.unpack`, the names as texts, and the cases of each edit.
 */
module RelocateLaws {
  import opened Elf
  import opened Options
  import opened PrefixText
  import opened Relocate

  // ---- the formats ----

  /** The size of a field in a format with a byte order: nothing is aligned. */
  function FieldWidth(c: char): nat {
    match c
    case 'H' => 2
    case 'Q' => 8
    case _ => 4
  }

  function FieldAt(format: string, k: nat): nat
    requires k <= |format|
  {
    if k == 0 then 0 else FieldAt(format, k - 1) + FieldWidth(format[k - 1])
  }

  /** `struct.unpack(format, img[at:])[k]`. */
  function Unpack(img: Bytes, at: nat, format: string, k: nat, little: bool): nat
    requires k < |format| && at + FieldAt(format, k) + FieldWidth(format[k]) <= |img|
  {
    Num(img, at + FieldAt(format, k), FieldWidth(format[k]), little)
  }

  /** Where the fields of the file header are, behind the 16 bytes of its identification. */
  lemma HeaderFields()
    ensures var f := "HHIQQQIHHHHHH";
      && FieldAt(f, 4) == 16 && FieldAt(f, 5) == 24 && FieldAt(f, 8) == 38 && FieldAt(f, 9) == 40
      && FieldAt(f, 10) == 42 && FieldAt(f, 11) == 44 && FieldAt(f, 12) == 46
    ensures var f := "HHILLLIHHHHHH";
      && FieldAt(f, 4) == 12 && FieldAt(f, 5) == 16 && FieldAt(f, 8) == 26 && FieldAt(f, 9) == 28
      && FieldAt(f, 10) == 30 && FieldAt(f, 11) == 32 && FieldAt(f, 12) == 34
  {
  }

  /** The file header is what the formats make of it, in the byte order of its sixth byte. */
  lemma HeaderIsUnpacked(img: Bytes)
    requires |img| >= 64
    ensures var h := ParseHeader(img);
      && (h.little <==> img[5] == 1) && (h.wide <==> !(img[0] == 0x7f && img[4] == 1))
      && var f := if h.wide then "HHIQQQIHHHHHH" else "HHILLLIHHHHHH";
         && FieldAt(f, 4) + FieldWidth(f[4]) <= 48 && FieldAt(f, 5) + FieldWidth(f[5]) <= 48
         && FieldAt(f, 12) + FieldWidth(f[12]) <= 48 && FieldAt(f, 11) + FieldWidth(f[11]) <= 48
         && FieldAt(f, 10) + FieldWidth(f[10]) <= 48 && FieldAt(f, 9) + FieldWidth(f[9]) <= 48
         && FieldAt(f, 8) + FieldWidth(f[8]) <= 48
         && h.phoff == Unpack(img, 16, f, 4, h.little) && h.shoff == Unpack(img, 16, f, 5, h.little)
         && h.phentsize == Unpack(img, 16, f, 8, h.little) && h.phnum == Unpack(img, 16, f, 9, h.little)
         && h.shentsize == Unpack(img, 16, f, 10, h.little) && h.shnum == Unpack(img, 16, f, 11, h.little)
         && h.shstrndx == Unpack(img, 16, f, 12, h.little)
  {
    HeaderFields();
    hide Num, FieldAt;
  }

  /** The classes that are relocated. */
  lemma ArchIff(img: Bytes)
    requires |img| >= 16
    ensures Arch(img) == 32 <==> img[0] == 0x7f && img[4] == 1
    ensures Arch(img) == 64 <==> img[0] == 0x7f && img[4] == 2
    ensures Arch(img) in {0, 32, 64}
  {
  }

  lemma EntryFields()
    ensures FieldAt("IIQQQQQQ", 0) == 0 && FieldAt("IIQQQQQQ", 2) == 8 && FieldAt("IIQQQQQQ", 5) == 32
    ensures FieldAt("IIIIIIII", 0) == 0 && FieldAt("IIIIIIII", 1) == 4 && FieldAt("IIIIIIII", 4) == 16
    ensures FieldAt("IIQQQQIIQQ", 1) == 4 && FieldAt("IIQQQQIIQQ", 4) == 24 && FieldAt("IIQQQQIIQQ", 5) == 32
    ensures FieldAt("IIIIIIIIII", 1) == 4 && FieldAt("IIIIIIIIII", 4) == 16 && FieldAt("IIIIIIIIII", 5) == 20
    ensures FieldAt("IIQQQQIIQQ", 0) == 0 && FieldAt("IIIIIIIIII", 0) == 0
  {
  }

  /** A program header: type, offset and size in the file. */
  lemma SegmentIsUnpacked(img: Bytes, h: Header, i: nat)
    requires TablesFit(h, |img|) && i < h.phnum
    ensures var at, s := h.phoff + i * h.phentsize, ReadSegment(img, h, i);
      && at + h.phentsize <= |img|
      && var f := if h.wide then "IIQQQQQQ" else "IIIIIIII";
         var offset, size := if h.wide then 2 else 1, if h.wide then 5 else 4;
         && FieldAt(f, 0) + FieldWidth(f[0]) <= h.phentsize && FieldAt(f, offset) + FieldWidth(f[offset]) <= h.phentsize
         && FieldAt(f, size) + FieldWidth(f[size]) <= h.phentsize
         && s.kind == Unpack(img, at, f, 0, h.little) && s.offset == Unpack(img, at, f, offset, h.little)
         && s.filesz == Unpack(img, at, f, size, h.little)
  {
    EntryFits(h, |img|, i);
    EntryFields();
    hide Num, FieldAt;
  }

  /** A section header: name, type, offset and size. */
  lemma SectionIsUnpacked(img: Bytes, h: Header, i: nat)
    requires TablesFit(h, |img|) && IsEntry(h, i)
    ensures var at, s := h.shoff + i * h.shentsize, ReadSection(img, h, i);
      && at + h.shentsize <= |img|
      && var f := if h.wide then "IIQQQQIIQQ" else "IIIIIIIIII";
         && FieldAt(f, 0) + FieldWidth(f[0]) <= h.shentsize && FieldAt(f, 1) + FieldWidth(f[1]) <= h.shentsize
         && FieldAt(f, 4) + FieldWidth(f[4]) <= h.shentsize && FieldAt(f, 5) + FieldWidth(f[5]) <= h.shentsize
         && s.nameAt == Unpack(img, at, f, 0, h.little) && s.kind == Unpack(img, at, f, 1, h.little)
         && s.offset == Unpack(img, at, f, 4, h.little) && s.size == Unpack(img, at, f, 5, h.little)
  {
    hide Num, FieldAt;
    EntryFits(h, |img|, i);
    EntryFields();
    if h.wide {
      assert ReadSection(img, h, i).size == Unpack(img, h.shoff + i * h.shentsize, "IIQQQQIIQQ", 5, h.little);
    } else {
      assert ReadSection(img, h, i).size == Unpack(img, h.shoff + i * h.shentsize, "IIIIIIIIII", 5, h.little);
    }
  }

  lemma FormatSizes()
    ensures FieldAt("IIQQQQQQ", 8) == 56 && FieldAt("IIIIIIII", 8) == 32
  {
  }

  lemma OtherFormatSizes()
    ensures FieldAt("IIQQQQIIQQ", 10) == 64 && FieldAt("IIIIIIIIII", 10) == 40
  {
  }

  /** The tables can be read exactly if their entries have the sizes of the formats and they lie in the file. */
  lemma TablesFitIff(h: Header, size: nat)
    ensures TablesFit(h, size) <==>
      && (h.phnum == 0 ||
          (h.phentsize == FieldAt(if h.wide then "IIQQQQQQ" else "IIIIIIII", 8) && size >= h.phoff + h.phnum * h.phentsize))
      && h.shentsize == FieldAt(if h.wide then "IIQQQQIIQQ" else "IIIIIIIIII", 10)
      && size >= h.shoff + h.shnum * h.shentsize && size >= h.shoff + (h.shstrndx + 1) * h.shentsize
  {
    FormatSizes();
    OtherFormatSizes();
    hide FieldAt;
    assert h.shoff + (h.shstrndx + 1) * h.shentsize == ShAt(h, h.shstrndx) + h.shentsize;
  }

  /** Two areas are apart exactly if no byte is in both. */
  lemma ApartIff(a: Span, b: Span)
    ensures Apart(a, b) <==> forall k: nat :: !(Inside(a, k) && Inside(b, k))
  {
    if !Apart(a, b) {
      var k := if a.lo < b.lo then b.lo else a.lo;
      assert Inside(a, k) && Inside(b, k);
    }
  }

  predicate Inside(s: Span, k: nat) { s.lo <= k < s.hi }

  // ---- numbers and names ----

  function Reversed(s: Bytes): (r: Bytes)
    ensures |r| == |s| && forall i :: 0 <= i < |s| ==> r[i] == s[|s| - 1 - i]
  {
    if s == [] then [] else Reversed(s[1..]) + [s[0]]
  }

  /** The bytes of a number the other way round, in the other byte order, are the same number. */
  lemma {:induction false} NumReversed(s: Bytes, off: nat, n: nat)
    requires off + n <= |s|
    ensures Num(s, off, n, false) == Num(Reversed(s), |s| - off - n, n, true)
    decreases n
  {
    hide Reversed;
    if n > 0 {
      assert Reversed(s)[|s| - off - n] == s[off + n - 1];
      NumReversed(s, off, n - 1);
    }
  }

  lemma {:induction false} FirstNul(tab: Bytes, a: nat, end: nat)
    requires a <= end < |tab| && tab[end] == 0 && forall i :: a <= i < end ==> tab[i] != 0
    ensures FindNul(tab, a) == end
    decreases end - a
  {
    if a < end { FirstNul(tab, a + 1, end); }
  }

  /** A name in the string table is the bytes from its place up to the next NUL. */
  lemma NameRead(before: Bytes, name: Bytes, after: Bytes)
    requires 0 !in name
    ensures NameAt(before + name + [0] + after, |before|) == name
  {
    var tab, a, end := before + name + [0] + after, |before|, |before| + |name|;
    forall i | a <= i < end ensures tab[i] != 0 { assert tab[i] == name[i - a] && name[i - a] in name; }
    FirstNul(tab, a, end);
    assert tab[a..end] == name;
  }

  lemma {:induction false} NoNulFound(tab: Bytes, a: nat)
    requires forall i :: a <= i < |tab| ==> tab[i] != 0
    ensures FindNul(tab, a) == -1
    decreases |tab| - a
  {
    if a < |tab| { NoNulFound(tab, a + 1); }
  }

  /** Without a NUL behind it the last byte of the table is lost, since the search answers -1. */
  lemma UnterminatedName(before: Bytes, name: Bytes, last: byte)
    requires 0 !in name && last != 0
    ensures NameAt(before + name + [last], |before|) == name
    ensures NameAt(before, |before|) == []
  {
    var tab, a := before + name + [last], |before|;
    forall i | a <= i < |tab| ensures tab[i] != 0 { assert i < a + |name| ==> tab[i] == name[i - a] && name[i - a] in name; }
    NoNulFound(tab, a);
    NoNulFound(before, a);
    assert tab[a..|tab| - 1] == name;
  }

  /** A text in the source code as bytes. */
  function Ascii(text: string): (b: Bytes)
    ensures |b| == |text| && forall i :: 0 <= i < |text| ==> b[i] as int == text[i] as int % 256
  {
    seq(|text|, i requires 0 <= i < |text| => text[i] as int % 256)
  }

  /** The names of the sections. */
  lemma SectionNames()
    ensures SYSDIRS == Ascii(".sysdirs") && SYSDIRSLEN == Ascii(".sysdirslen")
    ensures LDSOCACHE == Ascii(".ldsocache") && GCCRELOCPREFIX == Ascii(".gccrelocprefix")
  {
  }

  /** The directories of the system's own loaders. */
  lemma LibNames(k: nat)
    requires k < 5
    ensures |SYSTEM_LIBS| == 5
    ensures SYSTEM_LIBS[k] == Ascii(["/lib/", "/lib64/", "/lib32/", "/usr/lib32/", "/usr/lib64/"][k])
  {
    match k
    case 0 => assert SYSTEM_LIBS[0] == Ascii("/lib/");
    case 1 => assert SYSTEM_LIBS[1] == Ascii("/lib64/");
    case 2 => assert SYSTEM_LIBS[2] == Ascii("/lib32/");
    case 3 => assert SYSTEM_LIBS[3] == Ascii("/usr/lib32/");
    case _ => assert SYSTEM_LIBS[4] == Ascii("/usr/lib64/");
  }

  // ---- the cases of the edits ----

  /** The path of a loader that belongs to the system. */
  ghost predicate SystemPath(fname: Bytes) {
    exists lib, rest :: lib in ["/lib/", "/lib64/", "/lib32/", "/usr/lib32/", "/usr/lib64/"] && fname == Ascii(lib) + rest
  }

  lemma StartIff(s: Bytes, pat: Bytes)
    ensures StartsWith(s, pat) <==> exists rest :: s == pat + rest
  {
    if StartsWith(s, pat) { assert s == pat + s[|pat|..]; }
    if rest :| s == pat + rest { assert s[..|pat|] == pat; }
  }

  lemma ForeignIff(fname: Bytes)
    ensures Foreign(fname) <==> SystemPath(fname)
  {
    hide PrefixText.StartsWith, Ascii;
    var libs := ["/lib/", "/lib64/", "/lib32/", "/usr/lib32/", "/usr/lib64/"];
    forall k | 0 <= k < 5
      ensures SYSTEM_LIBS[k] == Ascii(libs[k]) && libs[k] in libs
      ensures StartsWith(fname, SYSTEM_LIBS[k]) <==> exists rest :: fname == SYSTEM_LIBS[k] + rest
    {
      LibNames(k);
      StartIff(fname, SYSTEM_LIBS[k]);
    }
    if SystemPath(fname) {
      var lib, rest :| lib in libs && fname == Ascii(lib) + rest;
      var k :| 0 <= k < |libs| && libs[k] == lib;
      assert fname == SYSTEM_LIBS[k] + rest;
    }
  }

  /** The segment `i` is the first that names an interpreter. */
  ghost predicate IsInterp(img: Bytes, h: Header, i: nat)
    requires TablesFit(h, |img|)
  {
    i < h.phnum && ReadSegment(img, h, i).kind == 3 && forall k :: 0 <= k < i ==> ReadSegment(img, h, k).kind != 3
  }

  /**
   Nothing is done without an interpreter, with an empty one or with one of the system; otherwise the new
   path is refused exactly if it leaves no room for a NUL, and else written at the place of the old one.
   */
  lemma InterpCases(img: Bytes, h: Header, newPath: Bytes)
    requires InterpFits(img, h)
    ensures (forall i :: 0 <= i < h.phnum ==> ReadSegment(img, h, i).kind != 3) ==> InterpEdit(img, h, newPath) == Keep
    ensures forall i: nat :: IsInterp(img, h, i) ==>
      var s := ReadSegment(img, h, i);
      && s.offset + s.filesz <= |img|
      && var e := InterpEdit(img, h, newPath);
         && (e == Keep <==> SystemPath(img[s.offset..Min(s.offset + 11, |img|)]) || s.filesz == 0)
         && (e.TooLong? ==> |newPath| >= s.filesz)
         && (e.Put? ==> |newPath| < s.filesz && e.at == s.offset && e.data == newPath + Zeros(s.filesz - |newPath|))
  {
    hide ReadSegment, SystemPath, Foreign;
    forall i: nat | IsInterp(img, h, i) ensures FirstInterp(img, h, 0) == Some(i) {}
    if FirstInterp(img, h, 0).Some? { SegmentCases(img, ReadSegment(img, h, FirstInterp(img, h, 0).value), newPath); }
    hide FirstInterp, SegmentEdit, Min;
  }

  /** The interpreter lies in the file, and its area is all that is written for it. */
  lemma InterpAreaIs(img: Bytes, h: Header)
    ensures InterpFits(img, h) <==>
      && TablesFit(h, |img|)
      && forall i: nat :: IsInterp(img, h, i) ==> |img| >= ReadSegment(img, h, i).offset + ReadSegment(img, h, i).filesz
    ensures InterpFits(img, h) ==>
      && ((forall i: nat :: !IsInterp(img, h, i)) ==> forall k: nat :: !Inside(InterpSpan(img, h), k))
      && forall i: nat :: IsInterp(img, h, i) ==>
           var s := ReadSegment(img, h, i); InterpSpan(img, h) == Span(s.offset, s.offset + s.filesz)
  {
    hide ReadSegment;
    if TablesFit(h, |img|) {
      forall i: nat | IsInterp(img, h, i) ensures FirstInterp(img, h, 0) == Some(i) {}
      var r := FirstInterp(img, h, 0);
      if r.Some? { assert IsInterp(img, h, r.value); }
      hide FirstInterp;
    }
  }

  lemma SegmentCases(img: Bytes, s: Segment, newPath: Bytes)
    requires s.offset + s.filesz <= |img|
    ensures var e := SegmentEdit(img, s, newPath);
      && (e == Keep <==> SystemPath(img[s.offset..Min(s.offset + 11, |img|)]) || s.filesz == 0)
      && (e.TooLong? ==> |newPath| >= s.filesz)
      && (e.Put? ==> |newPath| < s.filesz && e.at == s.offset && e.data == newPath + Zeros(s.filesz - |newPath|))
  {
    hide SystemPath, Foreign;
    ForeignIff(img[s.offset..Min(s.offset + 11, |img|)]);
  }

  /** The string table that is read is the section that the header names. */
  lemma TabIs(img: Bytes, h: Header)
    ensures TabFits(img, h) <==>
      && TablesFit(h, |img|)
      && |img| >= ReadSection(img, h, h.shstrndx).offset + ReadSection(img, h, h.shstrndx).size
    ensures TabFits(img, h) ==>
      var s := ReadSection(img, h, h.shstrndx); Tab(img, h) == img[s.offset..s.offset + s.size]
  {
    hide ReadSection;
  }

  /** A section is rewritten only if it has data of the program and one of the two names, and then within its bounds. */
  lemma SectionAreaIs(img: Bytes, tab: Bytes, s: Section, marker: Bytes, prefix: Bytes, k: nat)
    requires marker != [] && SectionSpan(tab, s).hi <= |img|
    ensures var name := NameAt(tab, s.nameAt);
      && (Inside(SectionSpan(tab, s), k) <==>
            && s.kind == 1 && k >= s.offset
            && (|| (name == Ascii(".ldsocache") && k < s.offset + s.size)
                || (name == Ascii(".gccrelocprefix") && k < s.offset + s.size - s.size % 4096)))
      && (s.kind != 1 || name !in [Ascii(".ldsocache"), Ascii(".gccrelocprefix")] ==>
            SectionEdit(img, tab, s, marker, prefix) == Keep)
  {
    SectionNames();
    hide Ascii, NameAt, Slots, Padded, NewText;
    assert s.size / SLOT * SLOT == s.size - s.size % 4096;
  }

  /** The lengths of the directories are `L` or `Q`, and what is written for an edit is where its data is. */
  lemma DirsFormat(h: Header, e: Edit, k: nat)
    ensures NumberWidth(h) == FieldWidth(if h.wide then 'Q' else 'L')
    ensures Inside(SpanOf(e), k) <==> e.Put? && k >= e.at && k - e.at < |e.data|
  {
  }
}

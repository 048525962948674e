/**
 What scripts/relocate_sdk.py reads from an ELF file: the file header, the program headers and the
 section headers, in both classes and both byte orders (System V gABI, chapters 4 and 5).
 */
module Elf {

  type byte = x: int | 0 <= x < 256
  type Bytes = seq<byte>

  /** `get_arch` and `parse_elf_header`: `wide` is the 64-bit class. */
  datatype Header = Header(
    little: bool, wide: bool, phoff: nat, shoff: nat,
    phentsize: nat, phnum: nat, shentsize: nat, shnum: nat, shstrndx: nat)

  /** An unsigned number of `n` bytes, as `struct.unpack` reads it. */
  function Num(img: Bytes, off: nat, n: nat, little: bool): (r: nat)
    requires off + n <= |img|
    decreases n
  {
    if n == 0 then 0
    else if little then img[off] + 256 * Num(img, off + 1, n - 1, little)
    else Num(img, off, n - 1, little) * 256 + img[off + n - 1]
  }

  /** 0 for a file that is left alone. The second half of the magic number is never looked at. */
  function Arch(img: Bytes): (bits: nat)
    requires |img| >= 16
  {
    if img[0] != 0x7f || img[4] == 0 then 0 else if img[4] == 1 then 32 else if img[4] == 2 then 64 else 0
  }

  function ParseHeader(img: Bytes): Header
    requires |img| >= 64
  {
    var little, wide := img[5] == 1, Arch(img) != 32;
    if wide then
      Header(little, wide, Num(img, 32, 8, little), Num(img, 40, 8, little), Num(img, 54, 2, little),
             Num(img, 56, 2, little), Num(img, 58, 2, little), Num(img, 60, 2, little), Num(img, 62, 2, little))
    else
      Header(little, wide, Num(img, 28, 4, little), Num(img, 32, 4, little), Num(img, 42, 2, little),
             Num(img, 44, 2, little), Num(img, 46, 2, little), Num(img, 48, 2, little), Num(img, 50, 2, little))
  }

  /**
   What the formats of `struct.unpack` demand: the program headers there are, the section headers, and
   the header of the section names, which is read even if there are no sections.
   */
  predicate TablesFit(h: Header, size: nat) {
    && (h.phnum > 0 ==> h.phentsize == (if h.wide then 56 else 32) && h.phoff + h.phnum * h.phentsize <= size)
    && h.shentsize == (if h.wide then 64 else 40) && h.shoff + h.shnum * h.shentsize <= size
    && ShAt(h, h.shstrndx) + h.shentsize <= size
  }

  /** A section header that is read. */
  predicate IsEntry(h: Header, i: nat) { i < h.shnum || i == h.shstrndx }

  datatype Segment = Segment(kind: nat, offset: nat, filesz: nat)

  function PhAt(h: Header, i: nat): nat { h.phoff + i * h.phentsize }

  function ShAt(h: Header, i: nat): nat { h.shoff + i * h.shentsize }

  lemma EntryFits(h: Header, size: nat, i: nat)
    requires TablesFit(h, size)
    ensures i < h.phnum ==> PhAt(h, i) + h.phentsize <= h.phoff + h.phnum * h.phentsize <= size
    ensures i < h.shnum ==> ShAt(h, i) + h.shentsize <= h.shoff + h.shnum * h.shentsize <= size
    ensures IsEntry(h, i) ==> ShAt(h, i) + h.shentsize <= size
  {
    if i < h.phnum { Scaled(i + 1, h.phnum, h.phentsize); }
    if i < h.shnum { Scaled(i + 1, h.shnum, h.shentsize); }
  }

  lemma Scaled(a: nat, b: nat, k: nat)
    requires a <= b
    ensures a * k <= b * k
  {
  }

  function ReadSegment(img: Bytes, h: Header, i: nat): Segment
    requires TablesFit(h, |img|) && i < h.phnum
  {
    EntryFits(h, |img|, i);
    var at := PhAt(h, i);
    if h.wide then Segment(Num(img, at, 4, h.little), Num(img, at + 8, 8, h.little), Num(img, at + 32, 8, h.little))
    else Segment(Num(img, at, 4, h.little), Num(img, at + 4, 4, h.little), Num(img, at + 16, 4, h.little))
  }

  datatype Section = Section(nameAt: nat, kind: nat, offset: nat, size: nat)

  function ReadSection(img: Bytes, h: Header, i: nat): Section
    requires TablesFit(h, |img|) && IsEntry(h, i)
  {
    EntryFits(h, |img|, i);
    var at := ShAt(h, i);
    if h.wide then
      Section(Num(img, at, 4, h.little), Num(img, at + 4, 4, h.little),
              Num(img, at + 24, 8, h.little), Num(img, at + 32, 8, h.little))
    else
      Section(Num(img, at, 4, h.little), Num(img, at + 4, 4, h.little),
              Num(img, at + 16, 4, h.little), Num(img, at + 20, 4, h.little))
  }

  /** Where the first NUL from `a` on is, or -1. */
  function FindNul(tab: Bytes, a: nat): (r: int)
    ensures r == -1 || a <= r < |tab|
    decreases |tab| - a
  {
    if a >= |tab| then -1 else if tab[a] == 0 then a else FindNul(tab, a + 1)
  }

  /** The name that starts at `a`; without a NUL it ends before the last byte of the table. */
  function NameAt(tab: Bytes, a: nat): Bytes {
    var end := FindNul(tab, a);
    if end >= 0 then tab[a..end] else if a < |tab| then tab[a..|tab| - 1] else []
  }

  // ---- reading depends on nothing but the bytes read ----

  predicate SameOn(a: Bytes, b: Bytes, lo: nat, hi: nat) {
    |a| == |b| && lo <= hi <= |a| && a[lo..hi] == b[lo..hi]
  }

  lemma SameByte(a: Bytes, b: Bytes, lo: nat, hi: nat, k: nat)
    requires SameOn(a, b, lo, hi) && lo <= k < hi
    ensures a[k] == b[k]
  {
    assert a[lo..hi][k - lo] == b[lo..hi][k - lo];
  }

  lemma {:induction false} SameNum(a: Bytes, b: Bytes, lo: nat, hi: nat, off: nat, n: nat, little: bool)
    requires SameOn(a, b, lo, hi) && lo <= off && off + n <= hi
    ensures Num(a, off, n, little) == Num(b, off, n, little)
    decreases n
  {
    if n > 0 {
      if little {
        SameByte(a, b, lo, hi, off);
        SameNum(a, b, lo, hi, off + 1, n - 1, little);
      } else {
        SameByte(a, b, lo, hi, off + n - 1);
        SameNum(a, b, lo, hi, off, n - 1, little);
      }
    }
  }

  lemma SameEntry(a: Bytes, b: Bytes, h: Header, i: nat)
    requires TablesFit(h, |a|) && IsEntry(h, i) && SameOn(a, b, ShAt(h, i), ShAt(h, i) + h.shentsize)
    ensures ReadSection(a, h, i) == ReadSection(b, h, i)
  {
    var lo, hi := ShAt(h, i), ShAt(h, i) + h.shentsize;
    SameNum(a, b, lo, hi, lo, 4, h.little);
    SameNum(a, b, lo, hi, lo + 4, 4, h.little);
    if h.wide {
      SameNum(a, b, lo, hi, lo + 24, 8, h.little);
      SameNum(a, b, lo, hi, lo + 32, 8, h.little);
    } else {
      SameNum(a, b, lo, hi, lo + 16, 4, h.little);
      SameNum(a, b, lo, hi, lo + 20, 4, h.little);
    }
  }

  lemma SameSection(a: Bytes, b: Bytes, h: Header, i: nat)
    requires TablesFit(h, |a|) && i < h.shnum && SameOn(a, b, h.shoff, h.shoff + h.shnum * h.shentsize)
    ensures ReadSection(a, h, i) == ReadSection(b, h, i)
  {
    EntryFits(h, |a|, i);
    var lo, hi, at := h.shoff, h.shoff + h.shnum * h.shentsize, ShAt(h, i);
    forall k | at <= k < at + h.shentsize ensures a[k] == b[k] { SameByte(a, b, lo, hi, k); }
    SameEntry(a, b, h, i);
  }
}

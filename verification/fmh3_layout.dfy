/**
  Where the fontmap writer puts things.  After a 32-byte header comes the array of
  font pointers, padded to 16 bytes; then one 32-byte slot per font record; then
  the glyph arrays, each padded to 16 bytes.  Glyph counts stand for the fonts
  themselves, since the layout depends on nothing else.
 */
module Fmh3Layout {

  import opened Align
  import Bytes

  /** Offset of the font pointer array (`_fonts_pointers_min_offset`). */
  const FontsPointersMinOffset: nat := 32

  /** `_fonts_header_pointers_size`: four bytes per font, padded to 16. */
  function FontsHeaderPointersSize(n: nat): (r: nat)
    ensures r % 16 == 0 && 4 * n <= r < 4 * n + 16
  {
    Align16(4 * n)
  }

  /** `_fonts_header_size`: a 32-byte slot per font for its 28-byte record. */
  function FontsHeaderSize(n: nat): nat {
    32 * n
  }

  /** `_char_array_size`: eight bytes per glyph, padded to 16. */
  function CharArraySize(n: nat): (r: nat)
    ensures r % 16 == 0 && 8 * n <= r < 8 * n + 16
  {
    Align16(8 * n)
  }

  /** Where the font records of an `n`-font map start. */
  function FontsStart(n: nat): nat {
    FontsPointersMinOffset + FontsHeaderPointersSize(n)
  }

  /** Where the glyph arrays of an `n`-font map start. */
  function CharArraysStart(n: nat): nat {
    FontsStart(n) + FontsHeaderSize(n)
  }

  /** Closed form of the `i`-th font record's offset. */
  function FontPointer(n: nat, i: nat): nat {
    FontsStart(n) + 32 * i
  }

  /** The padded sizes of the first `i` glyph arrays. */
  function ArraysBefore(counts: seq<nat>, i: nat): nat
    requires i <= |counts|
  {
    if i == 0 then 0 else ArraysBefore(counts, i - 1) + CharArraySize(counts[i - 1])
  }

  /** Closed form of the `i`-th glyph array's offset, for fonts with `counts` glyphs. */
  function CharPointer(counts: seq<nat>, i: nat): nat
    requires i <= |counts|
  {
    CharArraysStart(|counts|) + ArraysBefore(counts, i)
  }

  /** `_set_font_pointers`: a running position, one slot per font. */
  method SetFontPointers(n: nat) returns (pointers: seq<nat>)
    ensures |pointers| == n
    ensures forall i :: 0 <= i < n ==> pointers[i] == FontPointer(n, i)
  {
    var pos := FontsPointersMinOffset + FontsHeaderPointersSize(n);
    pointers := [];
    while |pointers| < n
      invariant |pointers| <= n
      invariant pos == FontPointer(n, |pointers|)
      invariant forall i :: 0 <= i < |pointers| ==> pointers[i] == FontPointer(n, i)
    {
      pointers := pointers + [pos];
      pos := pos + 32;
    }
  }

  /** `_set_char_pointers`: a running position, advanced by each font's padded glyph array. */
  method SetCharPointers(counts: seq<nat>) returns (pointers: seq<nat>)
    ensures |pointers| == |counts|
    ensures forall i :: 0 <= i < |counts| ==> pointers[i] == CharPointer(counts, i)
  {
    var n := |counts|;
    var pos := FontsPointersMinOffset + FontsHeaderPointersSize(n) + FontsHeaderSize(n);
    pointers := [];
    while |pointers| < n
      invariant |pointers| <= n
      invariant pos == CharPointer(counts, |pointers|)
      invariant forall i :: 0 <= i < |pointers| ==> pointers[i] == CharPointer(counts, i)
    {
      pointers := pointers + [pos];
      pos := pos + CharArraySize(counts[|pointers| - 1]);
    }
  }

  lemma SumMultiple16(a: nat, b: nat)
    requires a % 16 == 0 && b % 16 == 0
    ensures (a + b) % 16 == 0
  {
    var qa, qb := a / 16, b / 16;
    assert a == 16 * qa && b == 16 * qb;
    Bytes.DivModUnique(a + b, 16, qa + qb, 0);
  }

  lemma Multiple16(k: nat)
    ensures (16 * k) % 16 == 0
  {
    Bytes.DivModUnique(16 * k, 16, k, 0);
  }

  /**
    Font records are 16-aligned, lie after the pointer array and before the glyph
    arrays, and each has its own 32-byte slot.
   */
  lemma FontPointerPlaced(n: nat, i: nat)
    requires i < n
    ensures FontPointer(n, i) % 16 == 0
    ensures FontsPointersMinOffset + 4 * n <= FontPointer(n, i)
    ensures FontPointer(n, i) + 32 <= CharArraysStart(n)
  {
    Multiple16(2);
    Multiple16(2 * i);
    SumMultiple16(32, FontsHeaderPointersSize(n));
    SumMultiple16(FontsStart(n), 16 * (2 * i));
  }

  lemma {:induction false} ArraysBeforeAligned(counts: seq<nat>, i: nat)
    requires i <= |counts|
    ensures ArraysBefore(counts, i) % 16 == 0
  {
    if i > 0 {
      ArraysBeforeAligned(counts, i - 1);
      SumMultiple16(ArraysBefore(counts, i - 1), CharArraySize(counts[i - 1]));
    }
  }

  /** Glyph arrays are 16-aligned. */
  lemma CharPointerAligned(counts: seq<nat>, i: nat)
    requires i <= |counts|
    ensures CharPointer(counts, i) % 16 == 0
  {
    var n := |counts|;
    ArraysBeforeAligned(counts, i);
    Multiple16(2);
    Multiple16(2 * n);
    SumMultiple16(32, FontsHeaderPointersSize(n));
    SumMultiple16(FontsStart(n), 16 * (2 * n));
    SumMultiple16(CharArraysStart(n), ArraysBefore(counts, i));
  }

  lemma {:induction false} ArraysBeforeGrows(counts: seq<nat>, i: nat, j: nat)
    requires i < j <= |counts|
    ensures ArraysBefore(counts, i) + 8 * counts[i] <= ArraysBefore(counts, j)
    decreases j
  {
    if j > i + 1 {
      ArraysBeforeGrows(counts, i, j - 1);
    }
  }

  /** The glyph array of font `i` ends before that of any later font begins. */
  lemma CharArraysDisjoint(counts: seq<nat>, i: nat, j: nat)
    requires i < j <= |counts|
    ensures CharPointer(counts, i) + 8 * counts[i] <= CharPointer(counts, j)
  {
    ArraysBeforeGrows(counts, i, j);
  }

  /** A map of one font puts its record at 48 and its glyphs at 80. */
  lemma OneFontOffsets(count: nat)
    ensures FontPointer(1, 0) == 48
    ensures CharPointer([count], 0) == 80
  {
    assert FontsHeaderPointersSize(1) == 16;
  }
}

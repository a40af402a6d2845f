/**
  What the fontmap reader recovers.  `Laid` describes a stream in which a list of
  fonts is laid out the way the reader looks for it; the reader returns exactly
  those fonts from any such stream, and `to_bytes` produces one.
 */
module Fmh3Proofs {

  import opened Wrappers
  import opened Bytes
  import opened Windows
  import opened Fmh3Formats
  import opened Fmh3Layout
  import opened Fmh3

  // ---------------------------------------------------------------------------
  // Streams laid out for the reader
  // ---------------------------------------------------------------------------

  /** The record a reader finds for `f` when its glyph array is at `charPointer`. */
  function Placed(f: Font, charPointer: nat): FontRecord {
    FontRecord(f.header, |f.chars|, charPointer)
  }

  /** Signature, padding, `fonts_count` and `fonts_pointers_offset` in width `w`. */
  function Fmh3Header(w: AddressWidth, count: nat, fpo: nat): (r: Bytes)
    requires count < w.Limit() && fpo < w.Limit()
    ensures |r| == 8 + 2 * w.Size()
  {
    Fmh3Signature + Zeros(4) + EncodeAddress(count, w) + EncodeAddress(fpo, w)
  }

  /**
    Font `i` where the reader looks for it: its pointer word in the array at
    `fpo` from `base`, its record at the pointer from `base`, its glyphs at the record's
    `chars_pointer` from `base`.
   */
  predicate FontLaid(s: Bytes, base: nat, w: AddressWidth, fpo: nat,
                     fonts: seq<Font>, pointers: seq<nat>, charPointers: seq<nat>, i: nat)
    requires i < |fonts| && |pointers| == |fonts| && |charPointers| == |fonts|
  {
    && pointers[i] < w.Limit()
    && RecordFits(Placed(fonts[i], charPointers[i]))
    && |fonts[i].chars| >= 1 && GlyphsFit(fonts[i].chars)
    && Holds(s, base + fpo + w.Offset(i), EncodeAddress(pointers[i], w))
    && Holds(s, base + pointers[i], FontRecordBytes(Placed(fonts[i], charPointers[i])))
    && Holds(s, base + charPointers[i], GlyphsBytes(fonts[i].chars))
  }

  /** A non-empty list of fonts laid out at `base` with the pointer array at `fpo` from it. */
  predicate Laid(s: Bytes, base: nat, w: AddressWidth, fpo: nat,
                 fonts: seq<Font>, pointers: seq<nat>, charPointers: seq<nat>)
  {
    && |pointers| == |fonts| && |charPointers| == |fonts|
    && 1 <= |fonts| < w.Limit() && fpo < w.Limit()
    && Holds(s, base, Fmh3Header(w, |fonts|, fpo))
    && AllLaid(s, base, w, fpo, fonts, pointers, charPointers)
  }

  /** Every font is laid out. */
  predicate AllLaid(s: Bytes, base: nat, w: AddressWidth, fpo: nat,
                    fonts: seq<Font>, pointers: seq<nat>, charPointers: seq<nat>)
    requires |pointers| == |fonts| && |charPointers| == |fonts|
  {
    forall i :: 0 <= i < |fonts| ==> FontLaid(s, base, w, fpo, fonts, pointers, charPointers, i)
  }

  /** What the reader returns for such a stream, before `_parsed_to_dict`. */
  function Parsed(fonts: seq<Font>, pointers: seq<nat>, charPointers: seq<nat>): (r: seq<ParsedFont>)
    requires |pointers| == |fonts| && |charPointers| == |fonts|
    ensures |r| == |fonts|
  {
    seq(|fonts|, i requires 0 <= i < |fonts| =>
      ParsedFont(pointers[i], Placed(fonts[i], charPointers[i]), fonts[i].chars))
  }

  // ---------------------------------------------------------------------------
  // The reader on such streams
  // ---------------------------------------------------------------------------

  /** A placed glyph array of `count - index` glyphs is read back from `index` on. */
  lemma {:induction false} ParseGlyphsOf(s: Bytes, pos: nat, gs: seq<Glyph>, count: nat, index: nat)
    requires GlyphsFit(gs) && |gs| >= 1 && count == index + |gs|
    requires Holds(s, pos, GlyphsBytes(gs))
    ensures ParseGlyphs(s, pos, count, index) == Success(gs)
    decreases |gs|
  {
    var rest := gs[1..];
    assert GlyphsFit(rest) by {
      assert forall k :: 0 <= k < |rest| ==> rest[k] == gs[k + 1];
    }
    var head := GlyphBytes(gs[0]);
    HoldsSplit(s, pos, head, GlyphsBytes(rest), pos + 8);
    ReadFieldOf(s, pos, 8, head);
    GlyphRoundTrip(gs[0]);
    if |gs| > 1 {
      ParseGlyphsOf(s, pos + 8, rest, count, index + 1);
    } else {
      assert [gs[0]] == gs;
    }
    assert [gs[0]] + rest == gs;
  }

  /** A placed record and its placed glyph array are read back. */
  lemma ParseFontAtOf(s: Bytes, base: nat, pointer: nat, record: FontRecord, chars: seq<Glyph>)
    requires RecordFits(record) && record.charsCount == |chars| && |chars| >= 1 && GlyphsFit(chars)
    requires Holds(s, base + pointer, FontRecordBytes(record))
    requires Holds(s, base + record.charsPointer, GlyphsBytes(chars))
    ensures ParseFontAt(s, base, pointer) == Success(ParsedFont(pointer, record, chars))
  {
    ReadFieldOf(s, base + pointer, 28, FontRecordBytes(record));
    FontRecordRoundTrip(record);
    ParseGlyphsOf(s, base + record.charsPointer, chars, record.charsCount, 0);
    ParseFontAtIs(s, base, pointer, FontRecordBytes(record), record, chars);
  }

  /** `ParseFontAt` from its three steps: the record's bytes, their decoding and the glyphs. */
  lemma ParseFontAtIs(s: Bytes, base: nat, pointer: nat, w: Bytes, record: FontRecord, chars: seq<Glyph>)
    requires ReadField(s, base + pointer, 28) == Success(w) && |w| == 28 && DecodeFontRecord(w) == record
    requires ParseGlyphs(s, base + record.charsPointer, record.charsCount, 0) == Success(chars)
    ensures ParseFontAt(s, base, pointer) == Success(ParsedFont(pointer, record, chars))
  {
  }

  /** The pointer word and the font it leads to, for one laid-out font. */
  lemma ParseFontOf(s: Bytes, base: nat, w: AddressWidth, fpo: nat,
                    fonts: seq<Font>, pointers: seq<nat>, charPointers: seq<nat>, pos: nat, index: nat)
    requires |pointers| == |fonts| && |charPointers| == |fonts| && index < |fonts|
    requires AllLaid(s, base, w, fpo, fonts, pointers, charPointers)
    requires pos == base + fpo + w.Offset(index)
    ensures pointers[index] < w.Limit()
    ensures ReadField(s, pos, w.Size()) == Success(EncodeAddress(pointers[index], w))
    ensures ParseFontAt(s, base, pointers[index]) == Success(Parsed(fonts, pointers, charPointers)[index])
  {
    assert FontLaid(s, base, w, fpo, fonts, pointers, charPointers, index);
    ReadFieldOf(s, pos, w.Size(), EncodeAddress(pointers[index], w));
    ParseFontAtOf(s, base, pointers[index], Placed(fonts[index], charPointers[index]), fonts[index].chars);
  }

  lemma SliceCons<T>(q: seq<T>, i: nat)
    requires i < |q|
    ensures q[i..] == [q[i]] + q[i + 1..]
  {
  }

  lemma NextOffset(w: AddressWidth, pos: nat, at: nat, index: nat)
    requires pos == at + w.Offset(index)
    ensures pos + w.Size() == at + w.Offset(index + 1)
  {
  }

  /** One step of the `fonts` array: a font, then the rest of the array. */
  lemma ParseFontsStep(s: Bytes, base: nat, w: AddressWidth, count: nat, pos: nat, index: nat,
                       pointer: nat, font: ParsedFont, rest: seq<ParsedFont>)
    requires pointer < w.Limit() && ReadField(s, pos, w.Size()) == Success(EncodeAddress(pointer, w))
    requires ParseFontAt(s, base, pointer) == Success(font)
    requires index < count - 1 ==> ParseFonts(s, base, w, count, pos + w.Size(), index + 1) == Success(rest)
    requires index >= count - 1 ==> rest == []
    ensures ParseFonts(s, base, w, count, pos, index) == Success([font] + rest)
  {
    assert [font] + [] == [font];
  }

  lemma {:induction false} ParseFontsOf(s: Bytes, base: nat, w: AddressWidth, fpo: nat,
                                        fonts: seq<Font>, pointers: seq<nat>, charPointers: seq<nat>,
                                        pos: nat, index: nat)
    requires |pointers| == |fonts| && |charPointers| == |fonts| && index < |fonts|
    requires AllLaid(s, base, w, fpo, fonts, pointers, charPointers)
    requires pos == base + fpo + w.Offset(index)
    ensures ParseFonts(s, base, w, |fonts|, pos, index) == Success(Parsed(fonts, pointers, charPointers)[index..])
    decreases |fonts| - index, 1
  {
    if index < |fonts| - 1 {
      ParseFontsCons(s, base, w, fpo, fonts, pointers, charPointers, pos, index);
    } else {
      ParseFontsLast(s, base, w, fpo, fonts, pointers, charPointers, pos, index);
    }
  }

  /** The last font of the array, read through its pointer word. */
  lemma ParseFontsLast(s: Bytes, base: nat, w: AddressWidth, fpo: nat,
                       fonts: seq<Font>, pointers: seq<nat>, charPointers: seq<nat>, pos: nat, index: nat)
    requires |pointers| == |fonts| && |charPointers| == |fonts| && index == |fonts| - 1
    requires AllLaid(s, base, w, fpo, fonts, pointers, charPointers)
    requires pos == base + fpo + w.Offset(index)
    ensures ParseFonts(s, base, w, |fonts|, pos, index) == Success(Parsed(fonts, pointers, charPointers)[index..])
  {
    var parsed := Parsed(fonts, pointers, charPointers);
    SliceCons(parsed, index);
    ParseFontOf(s, base, w, fpo, fonts, pointers, charPointers, pos, index);
    ParseFontsStep(s, base, w, |fonts|, pos, index, pointers[index], parsed[index], []);
  }

  /** A font read through its pointer word, then the rest of the array. */
  lemma {:induction false} ParseFontsCons(s: Bytes, base: nat, w: AddressWidth, fpo: nat,
                                          fonts: seq<Font>, pointers: seq<nat>, charPointers: seq<nat>,
                                          pos: nat, index: nat)
    requires |pointers| == |fonts| && |charPointers| == |fonts| && index < |fonts| - 1
    requires AllLaid(s, base, w, fpo, fonts, pointers, charPointers)
    requires pos == base + fpo + w.Offset(index)
    ensures ParseFonts(s, base, w, |fonts|, pos, index) == Success(Parsed(fonts, pointers, charPointers)[index..])
    decreases |fonts| - index, 0
  {
    var parsed := Parsed(fonts, pointers, charPointers);
    NextOffset(w, pos, base + fpo, index);
    ParseFontsOf(s, base, w, fpo, fonts, pointers, charPointers, pos + w.Size(), index + 1);
    SliceCons(parsed, index);
    ParseFontOf(s, base, w, fpo, fonts, pointers, charPointers, pos, index);
    ParseFontsStep(s, base, w, |fonts|, pos, index, pointers[index], parsed[index], parsed[index + 1..]);
  }

  /**
    From a stream laid out at `base`, the 32-bit or 64-bit reader returns the
    fonts with their pointers, every pointer taken from `base`.
   */
  lemma ParseFmh3Of(s: Bytes, base: nat, w: AddressWidth, fpo: nat,
                    fonts: seq<Font>, pointers: seq<nat>, charPointers: seq<nat>)
    requires Laid(s, base, w, fpo, fonts, pointers, charPointers)
    ensures ParseFmh3(s, base, w) == Success(Parsed(fonts, pointers, charPointers))
  {
    HeaderFieldsOf(s, base, w, |fonts|, fpo);
    ParseFontsAll(s, base, w, fpo, fonts, pointers, charPointers);
    ParseFmh3Step(s, base, w, |fonts|, fpo);
  }

  /** The whole `fonts` array, from the start of the pointer array. */
  lemma ParseFontsAll(s: Bytes, base: nat, w: AddressWidth, fpo: nat,
                      fonts: seq<Font>, pointers: seq<nat>, charPointers: seq<nat>)
    requires |pointers| == |fonts| && |charPointers| == |fonts| && 1 <= |fonts|
    requires AllLaid(s, base, w, fpo, fonts, pointers, charPointers)
    ensures ParseFonts(s, base, w, |fonts|, base + fpo, 0) == Success(Parsed(fonts, pointers, charPointers))
  {
    var parsed := Parsed(fonts, pointers, charPointers);
    ParseFontsOf(s, base, w, fpo, fonts, pointers, charPointers, base + fpo, 0);
    assert parsed[0..] == parsed;
  }

  /** The fields of a placed FMH3 header read back. */
  lemma HeaderFieldsOf(s: Bytes, base: nat, w: AddressWidth, n: nat, fpo: nat)
    requires n < w.Limit() && fpo < w.Limit()
    requires Holds(s, base, Fmh3Header(w, n, fpo))
    ensures ReadConst(s, base, Fmh3Signature).Success?
    ensures ReadField(s, base + 4, 4).Success?
    ensures ReadField(s, base + 8, w.Size()).Success?
    ensures ReadField(s, base + 8 + w.Size(), w.Size()).Success?
    ensures AddressAt(s, base + 8, w) == n && AddressAt(s, base + 8 + w.Size(), w) == fpo
  {
    var count, offset := EncodeAddress(n, w), EncodeAddress(fpo, w);
    HoldsSplit(s, base, Fmh3Signature + Zeros(4) + count, offset, base + 8 + w.Size());
    HoldsSplit(s, base, Fmh3Signature + Zeros(4), count, base + 8);
    HoldsSplit(s, base, Fmh3Signature, Zeros(4), base + 4);
    ReadFieldOf(s, base + 4, 4, Zeros(4));
    ReadFieldOf(s, base + 8, w.Size(), count);
    ReadFieldOf(s, base + 8 + w.Size(), w.Size(), offset);
    AddressAtOf(s, base + 8, w, n);
    AddressAtOf(s, base + 8 + w.Size(), w, fpo);
  }

  /** Past its header, the FMH3 structure is its `fonts` array. */
  lemma ParseFmh3Step(s: Bytes, base: nat, w: AddressWidth, n: nat, fpo: nat)
    requires ReadConst(s, base, Fmh3Signature).Success? && ReadField(s, base + 4, 4).Success?
    requires ReadField(s, base + 8, w.Size()).Success?
    requires ReadField(s, base + 8 + w.Size(), w.Size()).Success?
    requires AddressAt(s, base + 8, w) == n && AddressAt(s, base + 8 + w.Size(), w) == fpo
    ensures ParseFmh3(s, base, w) == ParseFonts(s, base, w, n, base + fpo, 0)
  {
  }

  /** `_parsed_to_dict` gives back the fonts, fields and glyphs in order. */
  lemma ParsedToDictOf(fonts: seq<Font>, pointers: seq<nat>, charPointers: seq<nat>)
    requires |pointers| == |fonts| && |charPointers| == |fonts|
    ensures ParsedToDict(Parsed(fonts, pointers, charPointers)) == fonts
  {
    var r := ParsedToDict(Parsed(fonts, pointers, charPointers));
    assert forall i :: 0 <= i < |fonts| ==> r[i] == fonts[i];
  }

  // ---------------------------------------------------------------------------
  // What `to_bytes` writes is laid out for the reader
  // ---------------------------------------------------------------------------

  lemma {:induction false} GlyphArrayAt(fonts: seq<Font>, k: nat, i: nat)
    requires i < k <= |fonts| && forall j :: 0 <= j < k ==> GlyphsFit(fonts[j].chars)
    ensures Holds(GlyphArrays(fonts, k), ArraysBefore(Counts(fonts), i), GlyphsBytes(fonts[i].chars))
    decreases k
  {
    if i == k - 1 {
      GlyphArrayLast(fonts, k, i);
    } else {
      GlyphArrayAt(fonts, k - 1, i);
      GlyphArrayKept(fonts, k, ArraysBefore(Counts(fonts), i), GlyphsBytes(fonts[i].chars));
    }
  }

  /** The last of the first `k` glyph arrays starts after the padded arrays before it. */
  lemma GlyphArrayLast(fonts: seq<Font>, k: nat, i: nat)
    requires i == k - 1 && 1 <= k <= |fonts| && forall j :: 0 <= j < k ==> GlyphsFit(fonts[j].chars)
    ensures Holds(GlyphArrays(fonts, k), ArraysBefore(Counts(fonts), i), GlyphsBytes(fonts[i].chars))
  {
    var c := |fonts[i].chars|;
    var glyphs := GlyphsBytes(fonts[i].chars);
    var at := ArraysBefore(Counts(fonts), i);
    HoldsWhole(glyphs);
    HoldsRight(GlyphArrays(fonts, k - 1), glyphs, 0, glyphs, at);
    HoldsLeft(GlyphArrays(fonts, k - 1) + glyphs, Zeros(CharArraySize(c) - 8 * c), at, glyphs);
  }

  /** Appending the `k`-th padded glyph array keeps what the first `k - 1` hold. */
  lemma GlyphArrayKept(fonts: seq<Font>, k: nat, at: nat, x: Bytes)
    requires 1 <= k <= |fonts| && forall j :: 0 <= j < k ==> GlyphsFit(fonts[j].chars)
    requires Holds(GlyphArrays(fonts, k - 1), at, x)
    ensures Holds(GlyphArrays(fonts, k), at, x)
  {
    var c := |fonts[k - 1].chars|;
    var glyphs := GlyphsBytes(fonts[k - 1].chars);
    HoldsLeft(GlyphArrays(fonts, k - 1), glyphs, at, x);
    HoldsLeft(GlyphArrays(fonts, k - 1) + glyphs, Zeros(CharArraySize(c) - 8 * c), at, x);
  }

  /** Every glyph array ends by the end of the written stream. */
  lemma GlyphsEndInImage(fonts: seq<Font>, i: nat)
    requires 1 <= |fonts| && i < |fonts|
    ensures CharPointer(Counts(fonts), i) + 8 * |fonts[i].chars| <= ImageEnd(fonts)
  {
    if i < |fonts| - 1 {
      CharArraysDisjoint(Counts(fonts), i, |fonts| - 1);
    }
  }

  /** What lies in the padded layout before the end of the last glyph array lies in the image. */
  lemma WholeToImage(fonts: seq<Font>, at: nat, c: Bytes)
    requires Encodable(fonts) && Holds(Whole(fonts), at, c) && at + |c| <= ImageEnd(fonts)
    ensures Holds(Image(fonts), at, c)
  {
    HoldsPrefix(Whole(fonts), ImageEnd(fonts), at, c);
  }

  /**
    The four parts of the padded layout under names of their own, so that a
    placement proof sees a concatenation and not the definitions of its parts.
   */
  predicate PartsOf(fonts: seq<Font>, a: Bytes, b: Bytes, c: Bytes, d: Bytes)
    requires Encodable(fonts)
  {
    EncodableParts(fonts);
    && a == Prefix(|fonts|) && b == PointerArea(|fonts|)
    && c == RecordSlots(Records(fonts)) && d == GlyphArrays(fonts, |fonts|)
  }

  lemma WholeParts(fonts: seq<Font>) returns (a: Bytes, b: Bytes, c: Bytes, d: Bytes)
    requires Encodable(fonts)
    ensures PartsOf(fonts, a, b, c, d) && Whole(fonts) == a + b + c + d
    ensures |a| == FontsPointersMinOffset && |a| + |b| == FontsStart(|fonts|)
    ensures |a| + |b| + |c| == CharArraysStart(|fonts|)
  {
    EncodableParts(fonts);
    a, b, c, d := Prefix(|fonts|), PointerArea(|fonts|), RecordSlots(Records(fonts)), GlyphArrays(fonts, |fonts|);
  }

  lemma HeaderInPrefix(n: nat)
    requires IsU32(n)
    ensures Holds(Prefix(n), 0, Fmh3Header(Narrow, n, FontsPointersMinOffset))
  {
    HoldsWhole(Prefix(n));
    HoldsSplit(Prefix(n), 0, Fmh3Header(Narrow, n, FontsPointersMinOffset), Zeros(16), 16);
  }

  lemma PointerInArea(fonts: seq<Font>, i: nat, a: Bytes, b: Bytes, c: Bytes, d: Bytes)
    requires Encodable(fonts) && i < |fonts| && PartsOf(fonts, a, b, c, d)
    ensures IsU32(FontPointer(|fonts|, i))
    ensures Holds(b, 4 * i, U32LE(FontPointer(|fonts|, i)))
  {
    var n := |fonts|;
    EncodableParts(fonts);
    JoinAt(PointerWords(n), n, 4, i, 4 * i);
    HoldsLeft(Join(PointerWords(n), n), Zeros(FontsHeaderPointersSize(n) - 4 * n), 4 * i, U32LE(FontPointer(n, i)));
  }

  lemma RecordInSlots(fonts: seq<Font>, i: nat, a: Bytes, b: Bytes, c: Bytes, d: Bytes)
    requires Encodable(fonts) && i < |fonts| && PartsOf(fonts, a, b, c, d)
    ensures RecordFits(RecordOf(fonts, i))
    ensures Holds(c, 32 * i, FontRecordBytes(RecordOf(fonts, i)))
  {
    var records := Records(fonts);
    EncodableParts(fonts);
    JoinAt(Slots(records), |records|, 32, i, 32 * i);
    HoldsSplit(RecordSlots(records), 32 * i, FontRecordBytes(records[i]), Zeros(4), 32 * i + 28);
  }

  lemma GlyphsInArrays(fonts: seq<Font>, i: nat, a: Bytes, b: Bytes, c: Bytes, d: Bytes)
    requires Encodable(fonts) && i < |fonts| && PartsOf(fonts, a, b, c, d)
    ensures GlyphsFit(fonts[i].chars)
    ensures Holds(d, ArraysBefore(Counts(fonts), i), GlyphsBytes(fonts[i].chars))
  {
    EncodableParts(fonts);
    GlyphArrayAt(fonts, |fonts|, i);
  }

  lemma HeaderInWhole(fonts: seq<Font>)
    requires Encodable(fonts)
    ensures Holds(Whole(fonts), 0, Fmh3Header(Narrow, |fonts|, FontsPointersMinOffset))
  {
    var a, b, c, d := WholeParts(fonts);
    HeaderInPrefix(|fonts|);
    HoldsInFirst(a, b, c, d, 0, Fmh3Header(Narrow, |fonts|, FontsPointersMinOffset));
  }

  /** Font `i`'s pointer word and where it lies in the padded layout. */
  lemma PointerInWhole(fonts: seq<Font>, i: nat) returns (at: nat, word: Bytes)
    requires Encodable(fonts) && i < |fonts|
    ensures IsU32(FontPointer(|fonts|, i))
    ensures at == FontsPointersMinOffset + 4 * i && word == U32LE(FontPointer(|fonts|, i))
    ensures Holds(Whole(fonts), at, word)
  {
    var a, b, c, d := WholeParts(fonts);
    PointerInArea(fonts, i, a, b, c, d);
    at, word := FontsPointersMinOffset + 4 * i, U32LE(FontPointer(|fonts|, i));
    HoldsInSecond(a, b, c, d, 4 * i, word, at);
  }

  lemma RecordInWhole(fonts: seq<Font>, i: nat)
    requires Encodable(fonts) && i < |fonts|
    ensures RecordFits(RecordOf(fonts, i))
    ensures Holds(Whole(fonts), FontPointer(|fonts|, i), FontRecordBytes(RecordOf(fonts, i)))
  {
    var a, b, c, d := WholeParts(fonts);
    RecordInSlots(fonts, i, a, b, c, d);
    HoldsInThird(a, b, c, d, 32 * i, FontRecordBytes(RecordOf(fonts, i)), FontPointer(|fonts|, i));
  }

  lemma GlyphsInWhole(fonts: seq<Font>, i: nat)
    requires Encodable(fonts) && i < |fonts|
    ensures GlyphsFit(fonts[i].chars)
    ensures Holds(Whole(fonts), CharPointer(Counts(fonts), i), GlyphsBytes(fonts[i].chars))
  {
    var a, b, c, d := WholeParts(fonts);
    GlyphsInArrays(fonts, i, a, b, c, d);
    HoldsInFourth(a, b, c, d, ArraysBefore(Counts(fonts), i), GlyphsBytes(fonts[i].chars), CharPointer(Counts(fonts), i));
  }

  /** The first glyph array starts after every pointer word and record slot. */
  lemma HeaderBeforeGlyphs(fonts: seq<Font>)
    requires 1 <= |fonts|
    ensures CharArraysStart(|fonts|) <= ImageEnd(fonts)
  {
    GlyphsEndInImage(fonts, 0);
  }

  lemma HeaderEndsInImage(fonts: seq<Font>)
    requires Encodable(fonts)
    ensures 0 + |Fmh3Header(Narrow, |fonts|, FontsPointersMinOffset)| <= ImageEnd(fonts)
  {
    HeaderBeforeGlyphs(fonts);
  }

  lemma PointerEndsInImage(fonts: seq<Font>, i: nat)
    requires Encodable(fonts) && i < |fonts|
    ensures IsU32(FontPointer(|fonts|, i))
    ensures FontsPointersMinOffset + 4 * i + |U32LE(FontPointer(|fonts|, i))| <= ImageEnd(fonts)
  {
    assert FontEncodable(fonts, i);
    HeaderBeforeGlyphs(fonts);
  }

  lemma RecordEndsInImage(fonts: seq<Font>, i: nat)
    requires Encodable(fonts) && i < |fonts|
    ensures RecordFits(RecordOf(fonts, i))
    ensures FontPointer(|fonts|, i) + |FontRecordBytes(RecordOf(fonts, i))| <= ImageEnd(fonts)
  {
    assert FontEncodable(fonts, i);
    FontPointerPlaced(|fonts|, i);
    HeaderBeforeGlyphs(fonts);
  }

  lemma GlyphsEndInImageOf(fonts: seq<Font>, i: nat)
    requires Encodable(fonts) && i < |fonts|
    ensures GlyphsFit(fonts[i].chars)
    ensures CharPointer(Counts(fonts), i) + |GlyphsBytes(fonts[i].chars)| <= ImageEnd(fonts)
  {
    assert FontEncodable(fonts, i);
    GlyphsEndInImage(fonts, i);
  }

  /** The header `to_bytes` writes: the signature, the font count and the pointer array's offset. */
  lemma HeaderInImage(fonts: seq<Font>)
    requires Encodable(fonts)
    ensures Holds(Image(fonts), 0, Fmh3Header(Narrow, |fonts|, FontsPointersMinOffset))
  {
    HeaderInWhole(fonts);
    HeaderEndsInImage(fonts);
    WholeToImage(fonts, 0, Fmh3Header(Narrow, |fonts|, FontsPointersMinOffset));
  }

  lemma PointerInImage(fonts: seq<Font>, i: nat)
    requires Encodable(fonts) && i < |fonts|
    ensures IsU32(FontPointer(|fonts|, i))
    ensures Holds(Image(fonts), FontsPointersMinOffset + 4 * i, U32LE(FontPointer(|fonts|, i)))
  {
    var at, word := PointerInWhole(fonts, i);
    PointerEndsInImage(fonts, i);
    WholeToImage(fonts, at, word);
  }

  lemma RecordInImage(fonts: seq<Font>, i: nat)
    requires Encodable(fonts) && i < |fonts|
    ensures RecordFits(RecordOf(fonts, i))
    ensures Holds(Image(fonts), FontPointer(|fonts|, i), FontRecordBytes(RecordOf(fonts, i)))
  {
    RecordInWhole(fonts, i);
    RecordEndsInImage(fonts, i);
    WholeToImage(fonts, FontPointer(|fonts|, i), FontRecordBytes(RecordOf(fonts, i)));
  }

  lemma GlyphsInImage(fonts: seq<Font>, i: nat)
    requires Encodable(fonts) && i < |fonts|
    ensures GlyphsFit(fonts[i].chars)
    ensures Holds(Image(fonts), CharPointer(Counts(fonts), i), GlyphsBytes(fonts[i].chars))
  {
    GlyphsInWhole(fonts, i);
    GlyphsEndInImageOf(fonts, i);
    WholeToImage(fonts, CharPointer(Counts(fonts), i), GlyphsBytes(fonts[i].chars));
  }

  /** Font `i`'s pointer word, record and glyph array, at the offsets the writer assigns in `image`. */
  predicate FontInImage(image: Bytes, fonts: seq<Font>, i: nat)
    requires i < |fonts|
  {
    && IsU32(FontPointer(|fonts|, i)) && RecordFits(RecordOf(fonts, i))
    && |fonts[i].chars| >= 1 && GlyphsFit(fonts[i].chars)
    && Holds(image, FontsPointersMinOffset + 4 * i, U32LE(FontPointer(|fonts|, i)))
    && Holds(image, FontPointer(|fonts|, i), FontRecordBytes(RecordOf(fonts, i)))
    && Holds(image, CharPointer(Counts(fonts), i), GlyphsBytes(fonts[i].chars))
  }

  lemma FontInImageOf(fonts: seq<Font>, i: nat)
    requires Encodable(fonts) && i < |fonts|
    ensures FontInImage(Image(fonts), fonts, i)
  {
    assert FontEncodable(fonts, i);
    PointerInImage(fonts, i);
    RecordInImage(fonts, i);
    GlyphsInImage(fonts, i);
  }

  /** A font placed in an image placed at `base` is where the reader looks. */
  lemma FontLaidAt(s: Bytes, base: nat, image: Bytes, fonts: seq<Font>, i: nat)
    requires i < |fonts| && Holds(s, base, image) && FontInImage(image, fonts, i)
    ensures FontLaid(s, base, Narrow, FontsPointersMinOffset, fonts, FontPointers(|fonts|), CharPointers(fonts), i)
  {
    var n := |fonts|;
    var record := RecordOf(fonts, i);
    var charPointer := CharPointer(Counts(fonts), i);
    assert Placed(fonts[i], CharPointers(fonts)[i]) == record;
    HoldsWithin(s, base, image, FontsPointersMinOffset + 4 * i, U32LE(FontPointer(n, i)), base + FontsPointersMinOffset + Narrow.Offset(i));
    HoldsWithin(s, base, image, FontPointer(n, i), FontRecordBytes(record), base + FontPointer(n, i));
    HoldsWithin(s, base, image, charPointer, GlyphsBytes(fonts[i].chars), base + charPointer);
  }

  /** What `to_bytes` writes, placed at `base`, is laid out for the 32-bit reader. */
  lemma ImageLaid(s: Bytes, base: nat, fonts: seq<Font>)
    requires Encodable(fonts) && Holds(s, base, Image(fonts))
    ensures Laid(s, base, Narrow, FontsPointersMinOffset, fonts, FontPointers(|fonts|), CharPointers(fonts))
  {
    var n := |fonts|;
    EncodableParts(fonts);
    var header := Fmh3Header(Narrow, n, FontsPointersMinOffset);
    HeaderInImage(fonts);
    HoldsWithin(s, base, Image(fonts), 0, header, base);
    forall i | 0 <= i < n
      ensures FontLaid(s, base, Narrow, FontsPointersMinOffset, fonts, FontPointers(n), CharPointers(fonts), i)
    {
      FontInImageOf(fonts, i);
      FontLaidAt(s, base, Image(fonts), fonts, i);
    }
  }

  // ---------------------------------------------------------------------------
  // Round trips
  // ---------------------------------------------------------------------------

  /** A stream the 32-bit reader accepts at offset 0 is decoded by it. */
  lemma FromBytesFmh3(s: Bytes)
    requires ParseFmh3(s, 0, Narrow).Success?
    ensures FromBytes(s) == Success(ParsedToDict(ParseFmh3(s, 0, Narrow).value))
  {
    assert ReadUpTo(s, 0, 4) == Fmh3Signature;
  }

  /** A stream the `FONM` reader accepts is decoded by it. */
  lemma FromBytesFonm(s: Bytes)
    requires ParseFonm(s).Success?
    ensures FromBytes(s) == Success(ParsedToDict(ParseFonm(s).value))
  {
    assert ReadUpTo(s, 0, 4) == FonmSignature;
  }

  /**
    `from_bytes(to_bytes(fonts))` returns the fonts: same fields, same glyphs, same
    order, for every list `to_bytes` accepts.
   */
  lemma ToBytesFromBytes(fonts: seq<Font>)
    requires Encodable(fonts)
    ensures ToBytes(fonts).Success?
    ensures FromBytes(ToBytes(fonts).value) == Success(fonts)
  {
    var s := Image(fonts);
    var n := |fonts|;
    assert ParseFmh3(s, 0, Narrow) == Success(Parsed(fonts, FontPointers(n), CharPointers(fonts))) by {
      HoldsWhole(s);
      ImageLaid(s, 0, fonts);
      ParseFmh3Of(s, 0, Narrow, 32, fonts, FontPointers(n), CharPointers(fonts));
    }
    FromBytesFmh3(s);
    ParsedToDictOf(fonts, FontPointers(n), CharPointers(fonts));
  }

  /**
    The reader takes every pointer from the `FMH3` signature: the written map,
    embedded anywhere in a larger stream, reads back with the same pointers.
   */
  lemma EmbeddedImageParses(before: Bytes, fonts: seq<Font>, after: Bytes)
    requires Encodable(fonts)
    ensures ParseFmh3(before + Image(fonts) + after, |before|, Narrow)
            == Success(Parsed(fonts, FontPointers(|fonts|), CharPointers(fonts)))
  {
    var image := Image(fonts);
    var s := before + image + after;
    HoldsWhole(image);
    HoldsRight(before, image, 0, image, |before|);
    HoldsLeft(before + image, after, |before|, image);
    ImageLaid(s, |before|, fonts);
    ParseFmh3Of(s, |before|, Narrow, 32, fonts, FontPointers(|fonts|), CharPointers(fonts));
  }

  /**
    A `FONM` file whose `fmh3_pointer` leads to a laid-out 64-bit fontmap reads
    back as its fonts.
   */
  lemma FonmFromBytes(s: Bytes, fpo: nat, fonts: seq<Font>, pointers: seq<nat>, charPointers: seq<nat>)
    requires 24 <= |s| && Holds(s, 0, FonmSignature)
    requires Laid(s, U32At(s, 8), Wide, fpo, fonts, pointers, charPointers)
    ensures FromBytes(s) == Success(fonts)
  {
    var parsed := Parsed(fonts, pointers, charPointers);
    assert ParseFonm(s) == Success(parsed) by {
      ParseFmh3Of(s, U32At(s, 8), Wide, fpo, fonts, pointers, charPointers);
      FonmStep(s);
    }
    FromBytesFonm(s);
    ParsedToDictOf(fonts, pointers, charPointers);
  }

  /** Past its 24-byte header, the `FONM` container is the 64-bit fontmap at `fmh3_pointer`. */
  lemma FonmStep(s: Bytes)
    requires 24 <= |s| && Holds(s, 0, FonmSignature)
    ensures ParseFonm(s) == ParseFmh3(s, U32At(s, 8), Wide)
  {
  }

  /**
    The `FONM` header of the layout descriptions and the one the decoder uses
    find the same fontmap: where the former parses, the latter returns its fonts.
   */
  lemma FonmReadersAgree(s: Bytes)
    requires ParseFonmSection(s, 0).Success?
    ensures ParseFonm(s) == Success(ParseFonmSection(s, 0).value.fonts)
  {
  }

  // ---------------------------------------------------------------------------
  // What `to_bytes` refuses
  // ---------------------------------------------------------------------------

  /** An empty list raises RepeatError: RepeatUntil cannot build zero fonts. */
  lemma NoFontsRefused()
    ensures ToBytes([]) == Failure(RepeatError)
  {
  }

  /** A first font without glyphs raises RepeatError once its record fields are written. */
  lemma NoGlyphsRefused(fonts: seq<Font>)
    requires 1 <= |fonts| && IsU32(|fonts|)
    requires IsU32(FontPointer(|fonts|, 0)) && RecordFits(RecordOf(fonts, 0)) && |fonts[0].chars| == 0
    ensures ToBytes(fonts) == Failure(RepeatError)
  {
  }

  /** A glyph field too wide for its byte raises FormatFieldError. */
  lemma WideGlyphRefused(fonts: seq<Font>, k: nat)
    requires 1 <= |fonts| && IsU32(|fonts|)
    requires IsU32(FontPointer(|fonts|, 0)) && RecordFits(RecordOf(fonts, 0))
    requires k < |fonts[0].chars| && !GlyphFits(fonts[0].chars[k])
    ensures ToBytes(fonts) == Failure(FormatFieldError)
  {
  }
}

/**
  The fontmap codec: `to_bytes` lays a list of fonts out as a 32-bit `FMH3`
  structure, and `from_bytes` reads an `FMH3` file, or the 64-bit fontmap inside
  a `FONM` file, back into a list of fonts.
 */
module Fmh3 {

  import opened Wrappers
  import opened Bytes
  import opened Windows
  import opened Fmh3Formats
  import opened Fmh3Layout

  // ---------------------------------------------------------------------------
  // Building
  // ---------------------------------------------------------------------------

  /** The glyph count of each font (the `chars_count` the writer stores). */
  function Counts(fonts: seq<Font>): (c: seq<nat>)
    ensures |c| == |fonts|
    ensures forall i :: 0 <= i < |fonts| ==> c[i] == |fonts[i].chars|
  {
    seq(|fonts|, i requires 0 <= i < |fonts| => |fonts[i].chars|)
  }

  /** The record the writer stores for font `i`: its header, glyph count and glyph pointer. */
  function RecordOf(fonts: seq<Font>, i: nat): FontRecord
    requires i < |fonts|
  {
    FontRecord(fonts[i].header, |fonts[i].chars|, CharPointer(Counts(fonts), i))
  }

  predicate GlyphsFit(gs: seq<Glyph>) {
    forall k :: 0 <= k < |gs| ==> GlyphFits(gs[k])
  }

  /** Font `i` builds: its pointer and record fit their fields and it has glyphs, all of which fit. */
  predicate FontEncodable(fonts: seq<Font>, i: nat)
    requires i < |fonts|
  {
    IsU32(FontPointer(|fonts|, i)) && RecordFits(RecordOf(fonts, i))
    && |fonts[i].chars| >= 1 && GlyphsFit(fonts[i].chars)
  }

  /** A list of fonts `to_bytes` accepts. */
  predicate Encodable(fonts: seq<Font>) {
    && 1 <= |fonts| && IsU32(|fonts|)
    && forall i :: 0 <= i < |fonts| ==> FontEncodable(fonts, i)
  }

  /**
    What building font `i` raises, in the order construct builds it: the pointer
    and record fields first, then the glyph list, which RepeatUntil refuses when
    empty.
   */
  function FontBuildError(fonts: seq<Font>, i: nat): (e: Option<FontmapError>)
    requires i < |fonts|
    ensures e.None? <==> FontEncodable(fonts, i)
    ensures e.Some? ==> e.value == RepeatError || e.value == FormatFieldError
  {
    if !(IsU32(FontPointer(|fonts|, i)) && RecordFits(RecordOf(fonts, i))) then Some(FormatFieldError)
    else if |fonts[i].chars| == 0 then Some(RepeatError)
    else if !GlyphsFit(fonts[i].chars) then Some(FormatFieldError)
    else None
  }

  /** The first error among fonts `i..`. */
  function FontsBuildError(fonts: seq<Font>, i: nat): (e: Option<FontmapError>)
    requires i <= |fonts|
    ensures e.Some? ==> e.value == RepeatError || e.value == FormatFieldError
    decreases |fonts| - i
  {
    if i == |fonts| then None
    else if FontBuildError(fonts, i).Some? then FontBuildError(fonts, i)
    else FontsBuildError(fonts, i + 1)
  }

  /** What `_fmh3_format.build` raises: `fonts_count` first, then the fonts in order. */
  function BuildError(fonts: seq<Font>): (e: Option<FontmapError>)
    ensures e.Some? ==> e.value == RepeatError || e.value == FormatFieldError
  {
    if !IsU32(|fonts|) then Some(FormatFieldError)
    else if |fonts| == 0 then Some(RepeatError)
    else FontsBuildError(fonts, 0)
  }

  lemma {:induction false} FontsBuildErrorNone(fonts: seq<Font>, i: nat)
    requires i <= |fonts|
    ensures FontsBuildError(fonts, i).None? <==> forall j :: i <= j < |fonts| ==> FontEncodable(fonts, j)
    decreases |fonts| - i
  {
    if i < |fonts| {
      FontsBuildErrorNone(fonts, i + 1);
      assert (forall j :: i <= j < |fonts| ==> FontEncodable(fonts, j))
             <==> FontEncodable(fonts, i) && forall j :: i + 1 <= j < |fonts| ==> FontEncodable(fonts, j);
    }
  }

  /** Building raises nothing exactly for the fonts `to_bytes` accepts. */
  lemma BuildErrorNone(fonts: seq<Font>)
    ensures BuildError(fonts).None? <==> Encodable(fonts)
  {
    if 1 <= |fonts| && IsU32(|fonts|) {
      FontsBuildErrorNone(fonts, 0);
    }
  }

  /** The parts of an accepted list each building function needs. */
  lemma EncodableParts(fonts: seq<Font>)
    requires Encodable(fonts)
    ensures forall i :: 0 <= i < |fonts| ==> IsU32(FontPointer(|fonts|, i))
    ensures forall i :: 0 <= i < |fonts| ==> RecordFits(RecordOf(fonts, i))
    ensures forall i :: 0 <= i < |fonts| ==> GlyphsFit(fonts[i].chars) && |fonts[i].chars| >= 1
  {
    forall i | 0 <= i < |fonts|
      ensures IsU32(FontPointer(|fonts|, i)) && RecordFits(RecordOf(fonts, i))
      ensures GlyphsFit(fonts[i].chars) && |fonts[i].chars| >= 1
    {
      assert FontEncodable(fonts, i);
    }
  }

  /** The 16-byte header, then zeros up to the pointer array at offset 32. */
  function Prefix(n: nat): (r: Bytes)
    requires IsU32(n)
    ensures |r| == FontsPointersMinOffset
  {
    Fmh3Signature + Zeros(4) + U32LE(n) + U32LE(FontsPointersMinOffset) + Zeros(16)
  }

  /** The font pointers of an `n`-font map, one 4-byte word each. */
  function PointerWords(n: nat): (r: seq<Bytes>)
    requires forall i :: 0 <= i < n ==> IsU32(FontPointer(n, i))
    ensures |r| == n
    ensures forall i :: 0 <= i < n ==> IsU32(FontPointer(n, i)) && r[i] == U32LE(FontPointer(n, i)) && |r[i]| == 4
  {
    seq(n, i requires 0 <= i < n && IsU32(FontPointer(n, i)) => U32LE(FontPointer(n, i)))
  }

  /** The pointer array, zero-padded to `_fonts_header_pointers_size`. */
  function PointerArea(n: nat): (r: Bytes)
    requires forall i :: 0 <= i < n ==> IsU32(FontPointer(n, i))
    ensures |r| == FontsHeaderPointersSize(n)
  {
    JoinLength(PointerWords(n), n, 4);
    Join(PointerWords(n), n) + Zeros(FontsHeaderPointersSize(n) - 4 * n)
  }

  /** The records the writer fills in, one per font. */
  function Records(fonts: seq<Font>): (r: seq<FontRecord>)
    ensures |r| == |fonts| && forall i :: 0 <= i < |fonts| ==> r[i] == RecordOf(fonts, i)
  {
    seq(|fonts|, i requires 0 <= i < |fonts| => RecordOf(fonts, i))
  }

  /** Each record in its 32-byte slot: the 28 record bytes, then 4 bytes of padding. */
  function Slots(records: seq<FontRecord>): (r: seq<Bytes>)
    requires forall i :: 0 <= i < |records| ==> RecordFits(records[i])
    ensures |r| == |records|
    ensures forall i :: 0 <= i < |records| ==> r[i] == FontRecordBytes(records[i]) + Zeros(4) && |r[i]| == 32
  {
    seq(|records|, i requires 0 <= i < |records| && RecordFits(records[i]) => FontRecordBytes(records[i]) + Zeros(4))
  }

  /** The record slots, one after another. */
  function RecordSlots(records: seq<FontRecord>): (r: Bytes)
    requires forall i :: 0 <= i < |records| ==> RecordFits(records[i])
    ensures |r| == FontsHeaderSize(|records|)
  {
    JoinLength(Slots(records), |records|, 32);
    Join(Slots(records), |records|)
  }

  /** A glyph array: the records one after another. */
  function GlyphsBytes(gs: seq<Glyph>): (r: Bytes)
    requires GlyphsFit(gs)
    ensures |r| == 8 * |gs|
  {
    if |gs| == 0 then [] else GlyphBytes(gs[0]) + GlyphsBytes(gs[1..])
  }

  /** The first `k` glyph arrays, each zero-padded to `_char_array_size`. */
  function GlyphArrays(fonts: seq<Font>, k: nat): (r: Bytes)
    requires k <= |fonts| && forall i :: 0 <= i < k ==> GlyphsFit(fonts[i].chars)
    ensures |r| == ArraysBefore(Counts(fonts), k)
  {
    if k == 0 then []
    else
      var c := |fonts[k - 1].chars|;
      GlyphArrays(fonts, k - 1) + GlyphsBytes(fonts[k - 1].chars) + Zeros(CharArraySize(c) - 8 * c)
  }

  /** Where the written stream ends: after the last glyph array, which is not padded. */
  function ImageEnd(fonts: seq<Font>): (e: nat)
    requires |fonts| >= 1
    ensures e <= CharPointer(Counts(fonts), |fonts|)
  {
    var n := |fonts|;
    CharPointer(Counts(fonts), n - 1) + 8 * |fonts[n - 1].chars|
  }

  /** Header, pointer array, record slots and every glyph array, padded. */
  function Whole(fonts: seq<Font>): (r: Bytes)
    requires Encodable(fonts)
    ensures |r| == CharPointer(Counts(fonts), |fonts|)
  {
    var n := |fonts|;
    EncodableParts(fonts);
    Prefix(n) + PointerArea(n) + RecordSlots(Records(fonts)) + GlyphArrays(fonts, n)
  }

  /**
    The bytes `_fmh3_format.build` leaves in its stream.  Each `Pointer` seeks
    and writes; the in-memory stream fills what was skipped over with zeros, and
    it ends where the last write, the last glyph array, ends.
   */
  function Image(fonts: seq<Font>): (r: Bytes)
    requires Encodable(fonts)
    ensures |r| == ImageEnd(fonts)
  {
    Whole(fonts)[..ImageEnd(fonts)]
  }

  /** The font record offsets `_set_font_pointers` assigns. */
  function FontPointers(n: nat): (r: seq<nat>)
    ensures |r| == n && forall i :: 0 <= i < n ==> r[i] == FontPointer(n, i)
  {
    seq(n, i requires 0 <= i < n => FontPointer(n, i))
  }

  /** The glyph array offsets `_set_char_pointers` assigns. */
  function CharPointers(fonts: seq<Font>): (r: seq<nat>)
    ensures |r| == |fonts| && forall i :: 0 <= i < |fonts| ==> r[i] == CharPointer(Counts(fonts), i)
  {
    seq(|fonts|, i requires 0 <= i < |fonts| => CharPointer(Counts(fonts), i))
  }

  /** `to_bytes`: the image, or the exception building raises first. */
  function ToBytes(fonts: seq<Font>): (r: Result<Bytes, FontmapError>)
    ensures r.Success? <==> Encodable(fonts)
    ensures r.Failure? ==> r.error == RepeatError || r.error == FormatFieldError
  {
    BuildErrorNone(fonts);
    match BuildError(fonts)
    case Some(e) => Failure(e)
    case None => Success(Image(fonts))
  }

  // ---------------------------------------------------------------------------
  // Reading
  // ---------------------------------------------------------------------------

  /** `_parsed_to_dict`: each font's fields and glyphs, without `chars_count` and `chars_pointer`. */
  function ParsedToDict(parsed: seq<ParsedFont>): (fonts: seq<Font>)
    ensures |fonts| == |parsed|
    ensures forall i :: 0 <= i < |parsed| ==> fonts[i].header == parsed[i].record.header && fonts[i].chars == parsed[i].chars
  {
    seq(|parsed|, i requires 0 <= i < |parsed| => Font(parsed[i].record.header, parsed[i].chars))
  }

  /**
    The `_fonm_format` the decoder uses: `data_size`, `fmh3_pointer`, an unknown
    64-bit word and `fmh3_size`, then the 64-bit fontmap at `fmh3_pointer`.
   */
  function ParseFonm(s: Bytes): (r: Result<seq<ParsedFont>, FontmapError>)
    ensures r.Success? ==> 24 <= |s| && Holds(s, 0, FonmSignature)
    ensures r.Success? ==> ParseFmh3(s, U32At(s, 8), Wide) == r
  {
    var signature :- ReadConst(s, 0, FonmSignature);
    var dataSize :- ReadField(s, 4, 4);
    var fmh3Pointer :- ReadField(s, 8, 4);
    var unknown :- ReadField(s, 12, 8);
    var fmh3Size :- ReadField(s, 20, 4);
    ParseFmh3(s, U32At(s, 8), Wide)
  }

  /**
    `from_bytes`: the first four bytes decoded as ASCII pick the reader; a magic
    other than `FMH3` or `FONM` raises UnsupportedFileException.
   */
  function FromBytes(s: Bytes): (r: Result<seq<Font>, FontmapError>)
    ensures (r.Failure? && r.error == UnicodeDecodeError) <==> exists i :: 0 <= i < |s| && i < 4 && s[i] >= 128
    ensures (r.Failure? && r.error.UnsupportedFile?)
            <==> AsciiText(ReadUpTo(s, 0, 4)).Some? && ReadUpTo(s, 0, 4) != Fmh3Signature
                 && ReadUpTo(s, 0, 4) != FonmSignature
    ensures r.Failure? && r.error.UnsupportedFile? ==> r.error.magic == AsciiText(ReadUpTo(s, 0, 4)).value
  {
    var head := ReadUpTo(s, 0, 4);
    match AsciiText(head)
    case None => Failure(UnicodeDecodeError)
    case Some(magic) =>
      if head == Fmh3Signature then
        var parsed :- ParseFmh3(s, 0, Narrow);
        Success(ParsedToDict(parsed))
      else if head == FonmSignature then
        var parsed :- ParseFonm(s);
        Success(ParsedToDict(parsed))
      else Failure(UnsupportedFile(magic))
  }
}

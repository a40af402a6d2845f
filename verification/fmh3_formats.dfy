/**
  The fontmap layouts: the `FMH3` structure in its 32-bit and 64-bit forms, its
  28-byte font records and 8-byte glyph records, the `FONM`, `POF1` and `EOFC`
  section headers of the newer layout descriptions, and the `_fmh3_types` table.
  Every integer is little-endian.  Parsing follows construct: each field is read
  in order, a short read fails with `StreamError`, a constant that does not match
  fails with `ConstError`, and pointers are offsets from the `FMH3` signature.
 */
module Fmh3Formats {

  import opened Wrappers
  import opened Bytes
  import opened Windows

  const Fmh3Signature: Bytes := [0x46, 0x4D, 0x48, 0x33]  // "FMH3"
  const FonmSignature: Bytes := [0x46, 0x4F, 0x4E, 0x4D]  // "FONM"
  const Pof1Signature: Bytes := [0x50, 0x4F, 0x46, 0x31]  // "POF1"
  const EofcSignature: Bytes := [0x45, 0x4F, 0x46, 0x43]  // "EOFC"
  /** The constant `flags` word of every section header. */
  const SectionFlags: Bytes := [0x00, 0x00, 0x00, 0x10]

  /** The exceptions the codec can raise. */
  datatype FontmapError =
    | StreamError          // a read ran past the end of the stream
    | ConstError           // a signature or constant field did not match
    | RepeatError          // a RepeatUntil was given an empty list to build
    | FormatFieldError     // a value does not fit its integer field
    | UnicodeDecodeError   // the magic is not ASCII
    | UnsupportedFile(magic: string)

  // ---------------------------------------------------------------------------
  // Records
  // ---------------------------------------------------------------------------

  /** One glyph entry, with the keys the decoder hands back. */
  datatype Glyph = Glyph(codepoint: nat, halfwidth: bool, texCol: nat, texRow: nat, glyphX: nat, glyphWidth: nat)

  /** The per-font values other than the glyph list. */
  datatype FontHeader = FontHeader(
    id: nat,
    advanceWidth: nat, lineHeight: nat, boxWidth: nat, boxHeight: nat,
    layoutParam1: nat, layoutParam2Numerator: nat, layoutParam2Denominator: nat,
    otherParams: nat, texSizeChars: nat)

  /** A font as the codec's callers see it. */
  datatype Font = Font(header: FontHeader, chars: seq<Glyph>)

  /** The 28-byte font record: the header plus where its glyph array is and how long. */
  datatype FontRecord = FontRecord(header: FontHeader, charsCount: nat, charsPointer: nat)

  /** One parsed element of the `fonts` array, before `_parsed_to_dict` drops the bookkeeping. */
  datatype ParsedFont = ParsedFont(pointer: nat, record: FontRecord, chars: seq<Glyph>)

  predicate IsByte(n: nat) {
    n < 0x100
  }

  predicate IsU32(n: nat) {
    n < 0x1_0000_0000
  }

  predicate GlyphFits(g: Glyph) {
    g.codepoint < 0x1_0000 && IsByte(g.texCol) && IsByte(g.texRow) && IsByte(g.glyphX) && IsByte(g.glyphWidth)
  }

  /**
    The glyph record: u16 codepoint, the `halfwidth` Flag (written as 1 or 0), one
    pad byte, then column, row, x offset and width, one byte each.
   */
  function GlyphBytes(g: Glyph): (r: Bytes)
    requires GlyphFits(g)
    ensures |r| == 8
  {
    U16LE(g.codepoint) + [if g.halfwidth then 1 else 0, 0, g.texCol, g.texRow, g.glyphX, g.glyphWidth]
  }

  /** Parsing a glyph record: a Flag is true for any non-zero byte, the pad byte is skipped. */
  function DecodeGlyph(w: Bytes): (g: Glyph)
    requires |w| == 8
    ensures GlyphFits(g)
  {
    Glyph(U16At(w, 0), w[2] != 0, w[4], w[5], w[6], w[7])
  }

  lemma GlyphRoundTrip(g: Glyph)
    requires GlyphFits(g)
    ensures DecodeGlyph(GlyphBytes(g)) == g
  {
    U16AtSlice(GlyphBytes(g), 0);
    assert GlyphBytes(g)[0..2] == U16LE(g.codepoint);
  }

  /** A record whose flag byte is 0 or 1 and whose pad byte is 0 is rebuilt exactly from its parse. */
  lemma GlyphBytesOfDecode(w: Bytes)
    requires |w| == 8 && w[2] <= 1 && w[3] == 0
    ensures GlyphBytes(DecodeGlyph(w)) == w
  {
    U16AtSlice(w, 0);
    U16LEOfDecode(w[0..2]);
    assert w == w[0..2] + w[2..];
  }

  predicate HeaderFits(h: FontHeader) {
    && IsU32(h.id)
    && IsByte(h.advanceWidth) && IsByte(h.lineHeight) && IsByte(h.boxWidth) && IsByte(h.boxHeight)
    && IsByte(h.layoutParam1) && IsByte(h.layoutParam2Numerator) && IsByte(h.layoutParam2Denominator)
    && IsU32(h.otherParams) && IsU32(h.texSizeChars)
  }

  predicate RecordFits(r: FontRecord) {
    HeaderFits(r.header) && IsU32(r.charsCount) && IsU32(r.charsPointer)
  }

  /** The seven metric and layout bytes and the pad byte at offsets 4..11 of a font record. */
  function MetricBytes(h: FontHeader): (r: Bytes)
    requires HeaderFits(h)
    ensures |r| == 8
  {
    [h.advanceWidth, h.lineHeight, h.boxWidth, h.boxHeight,
     h.layoutParam1, h.layoutParam2Numerator, h.layoutParam2Denominator, 0]
  }

  /**
    The font record: u32 id, seven bytes, one pad byte, then u32 `other_params?`,
    `tex_size_chars`, `chars_count` and `chars_pointer`.
   */
  function FontRecordBytes(r: FontRecord): (b: Bytes)
    requires RecordFits(r)
    ensures |b| == 28
  {
    U32LE(r.header.id) + MetricBytes(r.header) + U32LE(r.header.otherParams)
    + U32LE(r.header.texSizeChars) + U32LE(r.charsCount) + U32LE(r.charsPointer)
  }

  function DecodeFontRecord(w: Bytes): (r: FontRecord)
    requires |w| == 28
    ensures RecordFits(r)
  {
    FontRecord(
      FontHeader(U32At(w, 0), w[4], w[5], w[6], w[7], w[8], w[9], w[10], U32At(w, 12), U32At(w, 16)),
      U32At(w, 20), U32At(w, 24))
  }

  lemma FontRecordRoundTrip(r: FontRecord)
    requires RecordFits(r)
    ensures DecodeFontRecord(FontRecordBytes(r)) == r
  {
    var b := FontRecordBytes(r);
    U32AtSlice(b, 0);
    U32AtSlice(b, 12);
    U32AtSlice(b, 16);
    U32AtSlice(b, 20);
    U32AtSlice(b, 24);
    assert b[0..4] == U32LE(r.header.id);
    assert b[12..16] == U32LE(r.header.otherParams);
    assert b[16..20] == U32LE(r.header.texSizeChars);
    assert b[20..24] == U32LE(r.charsCount);
    assert b[24..28] == U32LE(r.charsPointer);
  }

  /** A record whose pad byte is 0 is rebuilt exactly from its parse. */
  lemma FontRecordBytesOfDecode(w: Bytes)
    requires |w| == 28 && w[11] == 0
    ensures FontRecordBytes(DecodeFontRecord(w)) == w
  {
    var r := DecodeFontRecord(w);
    WordOfDecode(w, 0);
    WordOfDecode(w, 12);
    WordOfDecode(w, 16);
    WordOfDecode(w, 20);
    WordOfDecode(w, 24);
    assert MetricBytes(r.header) == w[4..12];
    assert w == w[0..4] + w[4..12] + w[12..16] + w[16..20] + w[20..24] + w[24..28];
  }

  lemma WordOfDecode(w: Bytes, k: nat)
    requires k + 4 <= |w|
    ensures U32LE(U32At(w, k)) == w[k..k + 4]
  {
    U32AtSlice(w, k);
    U32LEOfDecode(w[k..k + 4]);
  }

  // ---------------------------------------------------------------------------
  // Address widths and the `_fmh3_types` table
  // ---------------------------------------------------------------------------

  /** `fonts_count`, `fonts_pointers_offset` and the font pointers: 4 bytes in `_fmh3_format`, 8 in `_fmh3_int64_format`. */
  datatype AddressWidth = Narrow | Wide {

    function Size(): nat {
      if Narrow? then 4 else 8
    }

    function Limit(): nat {
      if Narrow? then 0x1_0000_0000 else 0x1_0000_0000_0000_0000
    }

    /** Offset of the `i`-th font pointer from the start of the pointer array. */
    function Offset(i: nat): nat {
      if Narrow? then 4 * i else 8 * i
    }
  }

  function DecodeAddress(b: Bytes, w: AddressWidth): (n: nat)
    requires |b| == w.Size()
    ensures n < w.Limit()
  {
    if w.Narrow? then DecodeU32LE(b) else DecodeU64LE(b)
  }

  function EncodeAddress(n: nat, w: AddressWidth): (r: Bytes)
    requires n < w.Limit()
    ensures |r| == w.Size() && DecodeAddress(r, w) == n
  {
    if w.Narrow? then U32LE(n) else U64LE(n)
  }

  /** The address of width `w` stored at offset `k` of `s`, read in place. */
  function AddressAt(s: Bytes, k: nat, w: AddressWidth): (n: nat)
    requires k + w.Size() <= |s|
    ensures n < w.Limit()
  {
    if w.Narrow? then U32At(s, k) else U32At(s, k) + 0x1_0000_0000 * U32At(s, k + 4)
  }

  lemma AddressAtSlice(s: Bytes, k: nat, w: AddressWidth)
    requires k + w.Size() <= |s|
    ensures AddressAt(s, k, w) == DecodeAddress(s[k..k + w.Size()], w)
  {
    U32AtSlice(s, k);
    if w.Wide? {
      U32AtSlice(s, k + 4);
      assert s[k..k + 8][..4] == s[k..k + 4] && s[k..k + 8][4..] == s[k + 4..k + 8];
    }
  }

  /** An encoded address reads back in place. */
  lemma AddressAtOf(s: Bytes, k: nat, w: AddressWidth, n: nat)
    requires n < w.Limit() && Holds(s, k, EncodeAddress(n, w))
    ensures AddressAt(s, k, w) == n
  {
    AddressAtSlice(s, k, w);
  }

  datatype Fmh3Type = FMH3 | FONM

  datatype TypeInfo = TypeInfo(remarks: string, addressSize: nat, nestFmh3Data: bool)

  function Info(t: Fmh3Type): TypeInfo {
    match t
    case FMH3 => TypeInfo("unencapsulated FT fontmap", 4, false)
    case FONM => TypeInfo("X fontmap in FONM container", 8, true)
  }

  /**
    The layout of the fontmap a file of type `t` holds: its pointer fields are
    `address_size` bytes wide, and the nested one is the 64-bit layout.
   */
  function InnerWidth(t: Fmh3Type): (w: AddressWidth)
    ensures w.Size() == Info(t).addressSize
    ensures w.Wide? <==> Info(t).nestFmh3Data
  {
    if Info(t).addressSize == 4 then Narrow else Wide
  }

  // ---------------------------------------------------------------------------
  // Field reads
  // ---------------------------------------------------------------------------

  /** Reading a field of `n` bytes at `pos`: a short read raises StreamError. */
  function ReadField(s: Bytes, pos: nat, n: nat): (r: Result<Bytes, FontmapError>)
    requires n > 0
    ensures r.Success? <==> pos + n <= |s|
    ensures r.Success? ==> r.value == s[pos..pos + n]
    ensures r.Failure? ==> r.error == StreamError
  {
    match Read(s, pos, n)
    case Some(b) => Success(b)
    case None => Failure(StreamError)
  }

  /** A field placed at `pos` is what a read there returns. */
  lemma ReadFieldOf(s: Bytes, pos: nat, n: nat, b: Bytes)
    requires Holds(s, pos, b) && n == |b| && n > 0
    ensures ReadField(s, pos, n) == Success(b)
  {
  }

  /** A `Const` field: read, then compared with the constant. */
  function ReadConst(s: Bytes, pos: nat, c: Bytes): (r: Result<(), FontmapError>)
    requires |c| > 0
    ensures r.Success? <==> Holds(s, pos, c)
    ensures r.Failure? ==> r.error == (if pos + |c| <= |s| then ConstError else StreamError)
  {
    var b :- ReadField(s, pos, |c|);
    if b == c then Success(()) else Failure(ConstError)
  }

  // ---------------------------------------------------------------------------
  // The FMH3 structure
  // ---------------------------------------------------------------------------

  /** How many elements `RepeatUntil(_index >= count - 1)` reads when started at `index`. */
  function Repeats(count: nat, index: nat): nat {
    if index >= count - 1 then 1 else count - index
  }

  /**
    The glyph array at `pos`: records are read one after another until the one
    with index `count - 1`, so one record is read even when `count` is 0.
   */
  function ParseGlyphs(s: Bytes, pos: nat, count: nat, index: nat): (r: Result<seq<Glyph>, FontmapError>)
    ensures r.Success? ==> |r.value| == Repeats(count, index)
    ensures r.Failure? ==> r.error == StreamError
    decreases |s| - pos
  {
    var w :- ReadField(s, pos, 8);
    var g := DecodeGlyph(w);
    if index >= count - 1 then Success([g])
    else
      var rest :- ParseGlyphs(s, pos + 8, count, index + 1);
      Success([g] + rest)
  }

  /** The font record at `pointer` from `base`, then its glyph array at `chars_pointer` from `base`. */
  function ParseFontAt(s: Bytes, base: nat, pointer: nat): (r: Result<ParsedFont, FontmapError>)
    ensures r.Success? ==> r.value.pointer == pointer && base + pointer + 28 <= |s|
    ensures r.Success? ==> r.value.record == DecodeFontRecord(s[base + pointer..base + pointer + 28])
    ensures r.Success? ==> |r.value.chars| == Repeats(r.value.record.charsCount, 0)
    ensures r.Failure? ==> r.error == StreamError
  {
    var w :- ReadField(s, base + pointer, 28);
    var record := DecodeFontRecord(w);
    var chars :- ParseGlyphs(s, base + record.charsPointer, record.charsCount, 0);
    Success(ParsedFont(pointer, record, chars))
  }

  /** The `fonts` array at `pos`: each element is a pointer word followed, through it, by a font. */
  function ParseFonts(s: Bytes, base: nat, w: AddressWidth, count: nat, pos: nat, index: nat)
    : (r: Result<seq<ParsedFont>, FontmapError>)
    ensures r.Success? ==> |r.value| == Repeats(count, index)
    ensures r.Failure? ==> r.error == StreamError
    decreases |s| - pos
  {
    var word :- ReadField(s, pos, w.Size());
    var font :- ParseFontAt(s, base, DecodeAddress(word, w));
    if index >= count - 1 then Success([font])
    else
      var rest :- ParseFonts(s, base, w, count, pos + w.Size(), index + 1);
      Success([font] + rest)
  }

  /**
    `_fmh3_format` (narrow) or `_fmh3_int64_format` (wide) parsed at offset `base`,
    the `pointer_offset` that every pointer in it is relative to.
   */
  function ParseFmh3(s: Bytes, base: nat, w: AddressWidth): (r: Result<seq<ParsedFont>, FontmapError>)
    ensures r.Success? ==> Holds(s, base, Fmh3Signature) && base + 8 + 2 * w.Size() <= |s|
    ensures r.Failure? ==> r.error == StreamError || r.error == ConstError
  {
    var signature :- ReadConst(s, base, Fmh3Signature);
    var padding :- ReadField(s, base + 4, 4);
    var count :- ReadField(s, base + 8, w.Size());
    var offset :- ReadField(s, base + 8 + w.Size(), w.Size());
    ParseFonts(s, base, w, AddressAt(s, base + 8, w), base + AddressAt(s, base + 8 + w.Size(), w), 0)
  }

  /** The reader returns `fonts_count` fonts, and one when the count is 0 (RepeatUntil reads at least one). */
  lemma ParseFmh3Count(s: Bytes, base: nat, w: AddressWidth)
    requires ParseFmh3(s, base, w).Success?
    ensures base + 8 + w.Size() <= |s|
    ensures var count := DecodeAddress(s[base + 8..base + 8 + w.Size()], w);
            |ParseFmh3(s, base, w).value| == if count == 0 then 1 else count
  {
    AddressAtSlice(s, base + 8, w);
  }

  // ---------------------------------------------------------------------------
  // Section headers of the newer layout descriptions
  // ---------------------------------------------------------------------------

  /** A `FONM` section: its sizes, where its data is, and the 64-bit fontmap found there. */
  datatype FonmSection = FonmSection(sectionSize: nat, dataPointer: nat, dataSize: nat, fonts: seq<ParsedFont>)

  /**
    `_fonm_format` of the layout descriptions, parsed at `base`: the flags and depth
    are constants, and the data is a 64-bit fontmap at `data_pointer` from `base`.
    Its `extra_sections` exist only when building, so parsing never reads them.
   */
  function ParseFonmSection(s: Bytes, base: nat): (r: Result<FonmSection, FontmapError>)
    ensures r.Success? ==> Holds(s, base, FonmSignature) && Holds(s, base + 12, SectionFlags)
                           && Holds(s, base + 16, U32LE(0)) && base + 24 <= |s|
    ensures r.Success? ==> r.value.dataPointer == U32At(s, base + 8)
                           && ParseFmh3(s, base + r.value.dataPointer, Wide) == Success(r.value.fonts)
  {
    var signature :- ReadConst(s, base, FonmSignature);
    var sectionSize :- ReadField(s, base + 4, 4);
    var dataPointer :- ReadField(s, base + 8, 4);
    var flags :- ReadConst(s, base + 12, SectionFlags);
    var depth :- ReadConst(s, base + 16, U32LE(0));
    var dataSize :- ReadField(s, base + 20, 4);
    var fonts :- ParseFmh3(s, base + U32At(s, base + 8), Wide);
    Success(FonmSection(U32At(s, base + 4), U32At(s, base + 8), U32At(s, base + 20), fonts))
  }

  /** A `POF1` section: its size field and its payload (`data_size` is the payload's length). */
  datatype Pof1 = Pof1(sectionSize: nat, data: Bytes)

  predicate Pof1Fits(p: Pof1) {
    IsU32(p.sectionSize) && IsU32(|p.data|)
  }

  /** `_pof1_struct` built: a 32-byte header with `data_pointer` 32 and `depth` 0, then the payload. */
  function Pof1Bytes(p: Pof1): (r: Bytes)
    requires Pof1Fits(p)
    ensures |r| == 32 + |p.data|
  {
    Pof1Signature + U32LE(p.sectionSize) + U32LE(32) + SectionFlags + U32LE(0)
    + U32LE(|p.data|) + Zeros(8) + p.data
  }

  /** `_pof1_struct` parsed at `base`: the payload is the `data_size` bytes at offset 32. */
  function ParsePof1(s: Bytes, base: nat): (r: Result<Pof1, FontmapError>)
    ensures r.Success? ==> base + 32 <= |s| && |r.value.data| == DecodeU32LE(s[base + 20..base + 24])
    ensures r.Success? ==> Holds(s, base + 8, U32LE(32)) && Holds(s, base + 16, U32LE(0))
    ensures r.Success? ==> Holds(s, base + 32, r.value.data)
  {
    var signature :- ReadConst(s, base, Pof1Signature);
    var sectionSize :- ReadField(s, base + 4, 4);
    var dataPointer :- ReadConst(s, base + 8, U32LE(32));
    var flags :- ReadConst(s, base + 12, SectionFlags);
    var depth :- ReadConst(s, base + 16, U32LE(0));
    var dataSize :- ReadField(s, base + 20, 4);
    var padding :- ReadField(s, base + 24, 8);
    match Read(s, base + 32, DecodeU32LE(dataSize))
    case None => Failure(StreamError)
    case Some(data) => Success(Pof1(DecodeU32LE(sectionSize), data))
  }

  /** A built `POF1` section parses back to itself, wherever it is placed. */
  lemma Pof1RoundTrip(s: Bytes, base: nat, p: Pof1)
    requires Pof1Fits(p) && Holds(s, base, Pof1Bytes(p))
    ensures ParsePof1(s, base) == Success(p)
  {
    var h0 := Pof1Signature + U32LE(p.sectionSize) + U32LE(32) + SectionFlags + U32LE(0);
    var h1 := h0 + U32LE(|p.data|);
    HoldsSplit(s, base, h1 + Zeros(8), p.data, base + 32);
    HoldsSplit(s, base, h1, Zeros(8), base + 24);
    HoldsSplit(s, base, h0, U32LE(|p.data|), base + 20);
    HoldsSplit(s, base, Pof1Signature + U32LE(p.sectionSize) + U32LE(32) + SectionFlags, U32LE(0), base + 16);
    HoldsSplit(s, base, Pof1Signature + U32LE(p.sectionSize) + U32LE(32), SectionFlags, base + 12);
    HoldsSplit(s, base, Pof1Signature + U32LE(p.sectionSize), U32LE(32), base + 8);
    HoldsSplit(s, base, Pof1Signature, U32LE(p.sectionSize), base + 4);
    U32LEOfDecode(s[base + 4..base + 8]);
  }

  /** `_eofc_struct`: a fixed 32-byte block whose sizes are 0 and whose `data_pointer` is 32. */
  function EofcBytes(): (r: Bytes)
    ensures |r| == 32 && r[..4] == EofcSignature && r[12..16] == SectionFlags && r[24..] == Zeros(8)
    ensures DecodeU32LE(r[4..8]) == 0 && DecodeU32LE(r[8..12]) == 32
    ensures DecodeU32LE(r[16..20]) == 0 && DecodeU32LE(r[20..24]) == 0
  {
    var r := EofcSignature + U32LE(0) + U32LE(32) + SectionFlags + U32LE(0) + U32LE(0) + Zeros(8);
    assert r[4..8] == U32LE(0) && r[8..12] == U32LE(32) && r[16..20] == U32LE(0) && r[20..24] == U32LE(0);
    r
  }

  /** `_eofc_struct` parsed at `base`: six constant words, then eight bytes of padding. */
  function ParseEofc(s: Bytes, base: nat): (r: Result<(), FontmapError>)
    ensures r.Success? ==> base + 32 <= |s|
  {
    var signature :- ReadConst(s, base, EofcSignature);
    var sectionSize :- ReadConst(s, base + 4, U32LE(0));
    var dataPointer :- ReadConst(s, base + 8, U32LE(32));
    var flags :- ReadConst(s, base + 12, SectionFlags);
    var depth :- ReadConst(s, base + 16, U32LE(0));
    var dataSize :- ReadConst(s, base + 20, U32LE(0));
    var padding :- ReadField(s, base + 24, 8);
    Success(())
  }

  /** Only a stream holding the six constant words of an `EOFC` block at `base` parses as one. */
  lemma EofcOnly(s: Bytes, base: nat)
    requires ParseEofc(s, base).Success?
    ensures Holds(s, base, EofcBytes()[..24])
  {
    var c := U32LE(0);
    assert EofcBytes()[..24] == EofcSignature + c + U32LE(32) + SectionFlags + c + c;
    HoldsJoin(s, base, EofcSignature, base + 4, c);
    HoldsJoin(s, base, EofcSignature + c, base + 8, U32LE(32));
    HoldsJoin(s, base, EofcSignature + c + U32LE(32), base + 12, SectionFlags);
    HoldsJoin(s, base, EofcSignature + c + U32LE(32) + SectionFlags, base + 16, c);
    HoldsJoin(s, base, EofcSignature + c + U32LE(32) + SectionFlags + c, base + 20, c);
  }

  /** A placed `EOFC` block parses. */
  lemma EofcParses(s: Bytes, base: nat)
    requires Holds(s, base, EofcBytes())
    ensures ParseEofc(s, base).Success?
  {
    var c := U32LE(0);
    var e := EofcBytes();
    assert e == EofcSignature + c + U32LE(32) + SectionFlags + c + c + Zeros(8);
    HoldsSplit(s, base, EofcSignature + c + U32LE(32) + SectionFlags + c + c, Zeros(8), base + 24);
    HoldsSplit(s, base, EofcSignature + c + U32LE(32) + SectionFlags + c, c, base + 20);
    HoldsSplit(s, base, EofcSignature + c + U32LE(32) + SectionFlags, c, base + 16);
    HoldsSplit(s, base, EofcSignature + c + U32LE(32), SectionFlags, base + 12);
    HoldsSplit(s, base, EofcSignature + c, U32LE(32), base + 8);
    HoldsSplit(s, base, EofcSignature, c, base + 4);
  }
}

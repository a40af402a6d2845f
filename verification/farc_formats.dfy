/**
  The four archive ("farc") variants: the registry of their capabilities and the
  byte layout of their headers and entry tables.  All integers are big-endian.
 */
module FarcFormats {

  import opened Wrappers
  import opened Bytes
  import opened Align

  datatype FarcType = FArc | FArC | FARC | FARC_FT

  datatype Encryption = DT | FT

  /** One registry row. */
  datatype TypeInfo = TypeInfo(
    compressionSupport: bool,
    compressionForced: bool,
    fixedHeaderSize: nat,
    filesHeaderFieldsSize: nat,
    hasFlags: bool,
    hasPerFileFlags: bool,
    encryptionType: Option<Encryption>,
    writeSupport: bool)

  /** The registry, `_farc_types`. */
  function Info(t: FarcType): (info: TypeInfo)
    ensures info.compressionForced ==> info.compressionSupport
    ensures info.hasPerFileFlags ==> info.hasFlags
    ensures info.encryptionType.Some? <==> info.hasFlags
    ensures info.encryptionType == Some(FT) <==> info.hasPerFileFlags
    ensures info.writeSupport <==> !info.hasPerFileFlags
  {
    match t
    case FArc => TypeInfo(false, false, 4, 8, false, false, None, true)
    case FArC => TypeInfo(true, true, 4, 12, false, false, None, true)
    case FARC => TypeInfo(true, false, 20, 12, true, false, Some(DT), true)
    case FARC_FT => TypeInfo(true, false, 24, 16, true, true, Some(FT), false)
  }

  /** The registry's `remarks` text for each type. */
  function Remarks(t: FarcType): string {
    match t
    case FArc => "basic farc format"
    case FArC => "farc with compression support"
    case FARC => "farc with encryption and compression support (DT/F/X)"
    case FARC_FT => "farc with encryption and compression support (FT)"
  }

  /** The key a type is registered under. */
  function TypeName(t: FarcType): string {
    match t
    case FArc => "FArc"
    case FArC => "FArC"
    case FARC => "FARC"
    case FARC_FT => "FARC_FT"
  }

  /** `name in _farc_types`, resolving the name to its type. */
  function LookupType(name: string): (r: Option<FarcType>)
    ensures r.Some? ==> TypeName(r.value) == name
    ensures r.None? ==> forall t :: TypeName(t) != name
  {
    if name == "FArc" then Some(FArc)
    else if name == "FArC" then Some(FArC)
    else if name == "FARC" then Some(FARC)
    else if name == "FARC_FT" then Some(FARC_FT)
    else None
  }

  /** Every type's name resolves to that type. */
  lemma LookupTypeName(t: FarcType)
    ensures LookupType(TypeName(t)) == Some(t)
  {
    match t
    case FArc =>
    case FArC => assert TypeName(t)[3] != "FArc"[3];
    case FARC => assert TypeName(t)[2] != "FArc"[2] && TypeName(t)[2] != "FArC"[2];
    case FARC_FT => assert |TypeName(t)| == 7;
  }

  /** The `Const` signature each struct starts with; both FARC variants share one. */
  function Signature(t: FarcType): (sig: Bytes)
    ensures |sig| == 4
  {
    match t
    case FArc => [0x46, 0x41, 0x72, 0x63]
    case FArC => [0x46, 0x41, 0x72, 0x43]
    case FARC | FARC_FT => [0x46, 0x41, 0x52, 0x43]
  }

  /** The exceptions the archive code raises, directly or through construct and zlib. */
  datatype FarcError =
    | UnsupportedFarcType(typeName: string)  // UnsupportedFarcTypeException
    | StreamError                            // a read past the end of the stream
    | ConstError                             // a Const field holding another value
    | FieldOverflow                          // an integer too wide for its field when building
    | LengthMismatch                         // a Bytes field given data of another length when building
    | RepeatError                            // RepeatUntil given a list that never meets its predicate
    | AsciiDecodeError                       // a magic that is not ASCII
    | DecompressionError                     // zlib.error
    | NameError                              // _decrypt_FT_farc uses names its module never imports
    | IndexError                             // indexing the empty result of a read past the end

  // ---------------------------------------------------------------------------
  // Flag words: 29 padding bits, encrypted, compressed, 1 padding bit
  // ---------------------------------------------------------------------------

  datatype Flags = Flags(encrypted: bool, compressed: bool)

  function FlagsWord(f: Flags): (w: Bytes)
    ensures |w| == 4
  {
    U32BE((if f.encrypted then 4 else 0) + (if f.compressed then 2 else 0))
  }

  /**
    Reading the flag word at `pos`: bit 2 of the 32-bit word is `encrypted`, bit 1
    `compressed`, the rest are ignored.
   */
  function ParseFlags(s: Bytes, pos: nat): Flags
    requires pos + 4 <= |s|
  {
    Flags(Bit(s[pos + 3], 2), Bit(s[pos + 3], 1))
  }

  /** The flags are bits 2 and 1 of the whole 32-bit word, not just of its last byte. */
  lemma ParseFlagsBits(s: Bytes, pos: nat)
    requires pos + 4 <= |s|
    ensures ParseFlags(s, pos).encrypted <==> Bit(ReadU32BE(s, pos), 2)
    ensures ParseFlags(s, pos).compressed <==> Bit(ReadU32BE(s, pos), 1)
  {
    LowBitsOfWord((s[pos + 2] as int) + 0x100 * ((s[pos + 1] as int) + 0x100 * (s[pos] as int)), s[pos + 3]);
  }

  lemma LowBitsOfWord(high: nat, b: Byte)
    ensures Bit(256 * high + b, 1) <==> Bit(b, 1)
    ensures Bit(256 * high + b, 2) <==> Bit(b, 2)
  {
    var n := 256 * high + b;
    DivModUnique(n, 2, 128 * high + b / 2, b % 2);
    DivModUnique(n / 2, 2, 64 * high + b / 2 / 2, b / 2 % 2);
    DivModUnique(n / 2 / 2, 2, 32 * high + b / 2 / 2 / 2, b / 2 / 2 % 2);
  }

  lemma ParseFlagsWord(f: Flags)
    ensures ParseFlags(FlagsWord(f), 0) == f
  {
  }

  /** A flag word stored at `pos` reads back there. */
  lemma ParseFlagsOf(s: Bytes, pos: nat, f: Flags)
    requires pos + 4 <= |s| && s[pos..pos + 4] == FlagsWord(f)
    ensures ParseFlags(s, pos) == f
  {
    assert s[pos + 3] == FlagsWord(f)[3];
    ParseFlagsWord(f);
  }

  // ---------------------------------------------------------------------------
  // Fixed header fields (after `signature` and `header_size`)
  // ---------------------------------------------------------------------------

  /** The header fields between `header_size` and the entry table. */
  datatype FixedHeader = FixedHeader(flags: Flags, alignment: int, format: int, entryCount: int)

  /** The fixed fields as a type's struct writes them. */
  function FixedHeaderBytes(t: FarcType, h: FixedHeader): (r: Bytes)
    requires InS32(h.alignment) && (t == FARC_FT ==> InS32(h.entryCount))
    ensures |r| == Info(t).fixedHeaderSize
  {
    var alignment := EncodeS32BE(h.alignment);
    if t == FArc || t == FArC then alignment
    else
      FlagsWord(h.flags) + Zeros(4) + alignment + EncodeS32BE(FormatConst(t))
      + (if t == FARC_FT then EncodeS32BE(h.entryCount) else []) + Zeros(4)
  }

  /** The format word each FARC struct insists on. */
  function FormatConst(t: FarcType): int {
    if t == FARC_FT then 1 else 0
  }

  /** What parsing recovers of a header: types without a field read it as a default. */
  function Normalize(t: FarcType, h: FixedHeader): FixedHeader {
    match t
    case FArc | FArC => FixedHeader(Flags(false, false), h.alignment, 0, 0)
    case FARC => FixedHeader(h.flags, h.alignment, 0, 0)
    case FARC_FT => FixedHeader(h.flags, h.alignment, 1, h.entryCount)
  }

  /** Parsing the fixed fields of a stream whose struct starts at offset 0, field by field. */
  function ParseFixedHeader(t: FarcType, s: Bytes): (r: Result<FixedHeader, FarcError>)
    ensures r.Success? ==> 8 + Info(t).fixedHeaderSize <= |s|
    ensures r.Success? && t in {FARC, FARC_FT} ==> r.value.format == FormatConst(t)
  {
    match t
    case FArc | FArC =>
      if |s| < 12 then Failure(StreamError)
      else Success(FixedHeader(Flags(false, false), ReadS32BE(s, 8), 0, 0))
    case FARC =>
      if |s| < 24 then Failure(StreamError)
      else if ReadS32BE(s, 20) != 0 then Failure(ConstError)
      else if |s| < 28 then Failure(StreamError)
      else Success(FixedHeader(ParseFlags(s, 8), ReadS32BE(s, 16), 0, 0))
    case FARC_FT =>
      if |s| < 24 then Failure(StreamError)
      else if ReadS32BE(s, 20) != 1 then Failure(ConstError)
      else if |s| < 32 then Failure(StreamError)
      else Success(FixedHeader(ParseFlags(s, 8), ReadS32BE(s, 16), 1, ReadS32BE(s, 24)))
  }

  lemma FixedHeaderRoundTrip(t: FarcType, h: FixedHeader, s: Bytes)
    requires InS32(h.alignment) && (t == FARC_FT ==> InS32(h.entryCount))
    requires 8 + Info(t).fixedHeaderSize <= |s|
    requires s[8..8 + Info(t).fixedHeaderSize] == FixedHeaderBytes(t, h)
    ensures ParseFixedHeader(t, s) == Success(Normalize(t, h))
  {
    match t
    case FArc | FArC =>
      ReadS32BEOf(s, 8, h.alignment);
    case FARC =>
      FarcHeaderWords(s, h);
      ReadS32BEOf(s, 16, h.alignment);
      ReadS32BEOf(s, 20, 0);
      ParseFlagsOf(s, 8, h.flags);
    case FARC_FT =>
      FtHeaderWords(s, h);
      ReadS32BEOf(s, 16, h.alignment);
      ReadS32BEOf(s, 20, 1);
      ReadS32BEOf(s, 24, h.entryCount);
      ParseFlagsOf(s, 8, h.flags);
  }

  /** The words of a FARC fixed header, sliced back out of a stream holding it at offset 8. */
  lemma FarcHeaderWords(s: Bytes, h: FixedHeader)
    requires InS32(h.alignment) && 28 <= |s| && s[8..28] == FixedHeaderBytes(FARC, h)
    ensures s[8..12] == FlagsWord(h.flags)
    ensures s[16..20] == EncodeS32BE(h.alignment)
    ensures s[20..24] == EncodeS32BE(0)
  {
    var b := FixedHeaderBytes(FARC, h);
    SubSlice(s, 8, b, 0, 4);
    SubSlice(s, 8, b, 8, 12);
    SubSlice(s, 8, b, 12, 16);
    assert b[0..4] == FlagsWord(h.flags);
    assert b[8..12] == EncodeS32BE(h.alignment);
    assert b[12..16] == EncodeS32BE(0);
  }

  /** The words of a FARC_FT fixed header, sliced back out of a stream holding it at offset 8. */
  lemma FtHeaderWords(s: Bytes, h: FixedHeader)
    requires InS32(h.alignment) && InS32(h.entryCount)
    requires 32 <= |s| && s[8..32] == FixedHeaderBytes(FARC_FT, h)
    ensures s[8..12] == FlagsWord(h.flags)
    ensures s[16..20] == EncodeS32BE(h.alignment)
    ensures s[20..24] == EncodeS32BE(1)
    ensures s[24..28] == EncodeS32BE(h.entryCount)
  {
    var b := FixedHeaderBytes(FARC_FT, h);
    var head := FlagsWord(h.flags) + Zeros(4) + EncodeS32BE(h.alignment) + EncodeS32BE(1);
    assert b == head + EncodeS32BE(h.entryCount) + Zeros(4);
    SubSlice(s, 8, b, 0, 4);
    SubSlice(s, 8, b, 8, 12);
    SubSlice(s, 8, b, 12, 16);
    SubSlice(s, 8, b, 16, 20);
    assert b[0..4] == head[0..4] == FlagsWord(h.flags);
    assert b[8..12] == head[8..12] == EncodeS32BE(h.alignment);
    assert b[12..16] == head[12..16] == EncodeS32BE(1);
    assert b[16..20] == EncodeS32BE(h.entryCount);
  }

  // ---------------------------------------------------------------------------
  // Entry-table records
  // ---------------------------------------------------------------------------

  /** The integer fields of one entry-table record; FArc's single `size` is read into both sizes. */
  datatype EntryFields = EntryFields(pointer: nat, compressedSize: nat, uncompressedSize: nat, flags: Flags)

  predicate FieldsFit(e: EntryFields) {
    e.pointer < 0x1_0000_0000 && e.compressedSize < 0x1_0000_0000 && e.uncompressedSize < 0x1_0000_0000
  }

  /** The record's fields after the name, as the type's struct writes them. */
  function EntryFieldsBytes(t: FarcType, e: EntryFields): (r: Bytes)
    requires FieldsFit(e)
    ensures |r| == Info(t).filesHeaderFieldsSize
  {
    var sizes := if t == FArc then U32BE(e.uncompressedSize)
                 else U32BE(e.compressedSize) + U32BE(e.uncompressedSize);
    U32BE(e.pointer) + sizes + (if t == FARC_FT then FlagsWord(e.flags) else [])
  }

  /** What parsing recovers of a record's fields. */
  function NormalizeFields(t: FarcType, e: EntryFields): EntryFields {
    match t
    case FArc => EntryFields(e.pointer, e.uncompressedSize, e.uncompressedSize, Flags(false, false))
    case FArC => e.(flags := Flags(false, false))
    case FARC => e.(flags := Flags(false, false))
    case FARC_FT => e
  }

  function ParseEntryFields(t: FarcType, s: Bytes, pos: nat): (r: Result<EntryFields, FarcError>)
    ensures r.Success? <==> pos + Info(t).filesHeaderFieldsSize <= |s|
  {
    if |s| < pos + Info(t).filesHeaderFieldsSize then Failure(StreamError)
    else
      var pointer := ReadU32BE(s, pos);
      var second := ReadU32BE(s, pos + 4);
      match t
      case FArc => Success(EntryFields(pointer, second, second, Flags(false, false)))
      case FArC => Success(EntryFields(pointer, second, ReadU32BE(s, pos + 8), Flags(false, false)))
      case FARC => Success(EntryFields(pointer, second, ReadU32BE(s, pos + 8), Flags(false, false)))
      case FARC_FT =>
        Success(EntryFields(pointer, second, ReadU32BE(s, pos + 8), ParseFlags(s, pos + 12)))
  }

  /** A 32-bit word written inside `b`, with `b` stored at `pos`, reads back from the stream. */
  lemma WordAt(s: Bytes, pos: nat, b: Bytes, k: nat, n: nat)
    requires pos + |b| <= |s| && s[pos..pos + |b|] == b
    requires n < 0x1_0000_0000 && k + 4 <= |b| && b[k..k + 4] == U32BE(n)
    ensures ReadU32BE(s, pos + k) == n
  {
    SubSlice(s, pos, b, k, k + 4);
    ReadWithin(s, pos + k, U32BE(n));
  }

  lemma EntryFieldsRoundTrip(t: FarcType, e: EntryFields, s: Bytes, pos: nat)
    requires FieldsFit(e)
    requires pos + Info(t).filesHeaderFieldsSize <= |s|
    requires s[pos..pos + Info(t).filesHeaderFieldsSize] == EntryFieldsBytes(t, e)
    ensures ParseEntryFields(t, s, pos) == Success(NormalizeFields(t, e))
  {
    var b := EntryFieldsBytes(t, e);
    WordAt(s, pos, b, 0, e.pointer);
    if t == FArc {
      assert b == U32BE(e.pointer) + U32BE(e.uncompressedSize);
      WordAt(s, pos, b, 4, e.uncompressedSize);
    } else {
      SizesAt(t, e, s, pos);
      if t == FARC_FT {
        FlagsAt(e, s, pos);
      }
    }
  }

  /** The two size words of a three- or four-word record. */
  lemma SizesAt(t: FarcType, e: EntryFields, s: Bytes, pos: nat)
    requires t != FArc && FieldsFit(e)
    requires pos + Info(t).filesHeaderFieldsSize <= |s|
    requires s[pos..pos + Info(t).filesHeaderFieldsSize] == EntryFieldsBytes(t, e)
    ensures ReadU32BE(s, pos + 4) == e.compressedSize
    ensures ReadU32BE(s, pos + 8) == e.uncompressedSize
  {
    var b := EntryFieldsBytes(t, e);
    var head := U32BE(e.pointer) + U32BE(e.compressedSize) + U32BE(e.uncompressedSize);
    assert b[..12] == head;
    assert head[4..8] == U32BE(e.compressedSize);
    assert head[8..12] == U32BE(e.uncompressedSize);
    WordAt(s, pos, b, 4, e.compressedSize);
    WordAt(s, pos, b, 8, e.uncompressedSize);
  }

  lemma FlagsAt(e: EntryFields, s: Bytes, pos: nat)
    requires FieldsFit(e)
    requires pos + 16 <= |s|
    requires s[pos..pos + 16] == EntryFieldsBytes(FARC_FT, e)
    ensures ParseFlags(s, pos + 12) == e.flags
  {
    var b := EntryFieldsBytes(FARC_FT, e);
    SubSlice(s, pos, b, 12, 16);
    assert b[12..16] == FlagsWord(e.flags);
    ParseFlagsOf(s, pos + 12, e.flags);
  }

  // ---------------------------------------------------------------------------
  // How many bytes an entry's data covers
  // ---------------------------------------------------------------------------

  /** `compressed_size`, rounded up to the AES block size when the data is encrypted. */
  function PaddedSize(size: nat, encrypted: bool): (r: nat)
    ensures encrypted ==> r == RoundUp(size, 16)
    ensures !encrypted ==> r == size
  {
    if size % 16 != 0 && encrypted then size + 16 - size % 16 else size
  }

  /**
    The length of an entry's `data` field: FArc's `size`, FArC's `compressed_size`,
    FARC's size padded when the container is encrypted, and FARC_FT's size padded when
    the entry is encrypted but clamped to the end of the stream (`file_end`).
   */
  function DataSpan(t: FarcType, e: EntryFields, containerEncrypted: bool, streamEnd: nat): (n: int)
    ensures t == FARC ==> n == PaddedSize(e.compressedSize, containerEncrypted)
    ensures t == FARC_FT ==> n <= streamEnd - e.pointer
    ensures t == FARC_FT && e.pointer + PaddedSize(e.compressedSize, e.flags.encrypted) <= streamEnd
            ==> n == PaddedSize(e.compressedSize, e.flags.encrypted)
    ensures t != FARC_FT ==> n >= 0
  {
    match t
    case FArc => e.uncompressedSize
    case FArC => e.compressedSize
    case FARC => PaddedSize(e.compressedSize, containerEncrypted)
    case FARC_FT =>
      var padded := PaddedSize(e.compressedSize, e.flags.encrypted);
      if streamEnd - e.pointer < padded then streamEnd - e.pointer else padded
  }

  lemma DataSpanNormalized(t: FarcType, e: EntryFields, containerEncrypted: bool, streamEnd: nat)
    ensures DataSpan(t, NormalizeFields(t, e), containerEncrypted, streamEnd)
            == DataSpan(t, e, containerEncrypted, streamEnd)
  {
  }

  // ---------------------------------------------------------------------------
  // Parsing the entry table
  // ---------------------------------------------------------------------------

  /** One parsed record with the data its pointer designates. */
  datatype RawEntry = RawEntry(name: Bytes, fields: EntryFields, data: Bytes)

  /** Position of the first NUL at or after `pos`: where a CString ends. */
  function FindNul(s: Bytes, pos: nat): (r: Option<nat>)
    ensures r.Some? ==> pos <= r.value < |s| && s[r.value] == 0
    decreases |s| - pos
  {
    if pos >= |s| then None
    else if s[pos] == 0 then Some(pos)
    else FindNul(s, pos + 1)
  }

  /** The NUL found is the first one at or after `pos`; none is found only when there is none. */
  lemma {:induction false} FindNulFirst(s: Bytes, pos: nat)
    ensures var r := FindNul(s, pos);
            && (r.Some? ==> forall k :: pos <= k < r.value ==> s[k] != 0)
            && (r.None? ==> forall k :: pos <= k < |s| ==> s[k] != 0)
    decreases |s| - pos
  {
    if pos < |s| && s[pos] != 0 {
      FindNulFirst(s, pos + 1);
    }
  }

  /**
    Where the table cursor stands after a record whose fields end at `fieldsEnd`.
    As written, FARC_FT's `file_end` field seeks the stream to its end and the data
    `Pointer` returns there, so the cursor jumps to the end of the stream; the
    corrected rule leaves it after the record.
   */
  datatype CursorRule = AsWritten | Corrected

  function CursorAfter(rule: CursorRule, t: FarcType, s: Bytes, fieldsEnd: nat): nat {
    if rule == AsWritten && t == FARC_FT then |s| else fieldsEnd
  }

  /** RepeatUntil's predicate: `tell() - 7 > header_size`, or FARC_FT's `len(lst) >= entry_count`. */
  predicate TableDone(t: FarcType, headerSize: nat, entryCount: int, cursor: nat, count: nat) {
    cursor - 7 > headerSize || (t == FARC_FT && count >= entryCount)
  }

  /** Bytes one record occupies in the table. */
  function RecordSize(t: FarcType, name: Bytes): nat {
    |name| + 1 + Info(t).filesHeaderFieldsSize
  }

  /** Bytes a table of records with these names occupies. */
  function TableSize(t: FarcType, names: seq<Bytes>): (n: nat)
    ensures |names| > 0 ==> n >= RecordSize(t, names[0])
  {
    if |names| == 0 then 0 else RecordSize(t, names[0]) + TableSize(t, names[1..])
  }

  lemma {:induction false} TableSizeAppend(t: FarcType, a: seq<Bytes>, b: seq<Bytes>)
    ensures TableSize(t, a + b) == TableSize(t, a) + TableSize(t, b)
  {
    if |a| > 0 {
      assert (a + b)[0] == a[0];
      assert (a + b)[1..] == a[1..] + b;
      TableSizeAppend(t, a[1..], b);
    } else {
      assert a + b == b;
    }
  }

  function RawNames(es: seq<RawEntry>): (r: seq<Bytes>)
    ensures |r| == |es|
  {
    if |es| == 0 then [] else [es[0].name] + RawNames(es[1..])
  }

  /**
    RepeatUntil's stopping pattern over records `es` read from `cursor` (with `count`
    records before them): the predicate fails after every record but the last and
    holds after the last, the cursor standing right after each record.
   */
  predicate StopsAtLast(t: FarcType, headerSize: nat, entryCount: int, cursor: nat, count: nat,
                        es: seq<RawEntry>) {
    && |es| >= 1
    && TableDone(t, headerSize, entryCount, cursor + TableSize(t, RawNames(es)), count + |es|)
    && forall k :: 0 < k < |es| ==>
         !TableDone(t, headerSize, entryCount, cursor + TableSize(t, RawNames(es[..k])), count + k)
  }

  /** One record at `cursor`: its CString name, its fields and its data; `end` is where its fields end. */
  function ParseRecord(t: FarcType, s: Bytes, h: FixedHeader, cursor: nat): (r: Result<(RawEntry, nat), FarcError>)
    ensures r.Success? ==> r.value.1 == cursor + RecordSize(t, r.value.0.name) <= |s|
    ensures r.Success? ==> r.value.0.name == s[cursor..r.value.1 - 1 - Info(t).filesHeaderFieldsSize]
  {
    match FindNul(s, cursor)
    case None => Failure(StreamError)
    case Some(nul) =>
      var fields :- ParseEntryFields(t, s, nul + 1);
      match Read(s, fields.pointer, DataSpan(t, fields, h.flags.encrypted, |s|))
      case None => Failure(StreamError)
      case Some(data) =>
        Success((RawEntry(s[cursor..nul], fields, data), nul + 1 + Info(t).filesHeaderFieldsSize))
  }

  /**
    The entry table from `cursor` on: record after record until RepeatUntil's
    predicate holds.  At least one record is always read.
   */
  function ParseEntries(rule: CursorRule, t: FarcType, s: Bytes, headerSize: nat, h: FixedHeader,
                        cursor: nat, count: nat): (r: Result<seq<RawEntry>, FarcError>)
    ensures r.Success? ==> |r.value| >= 1
    decreases |s| - cursor
  {
    var (e, end) :- ParseRecord(t, s, h, cursor);
    var next := CursorAfter(rule, t, s, end);
    if TableDone(t, headerSize, h.entryCount, next, count + 1) then
      Success([e])
    else
      var rest :- ParseEntries(rule, t, s, headerSize, h, next, count + 1);
      Success([e] + rest)
  }

  /**
    With the cursor after each record, the table parse reads records until the first
    one after which RepeatUntil's predicate holds, and stops there.
   */
  lemma ParseEntriesStops(t: FarcType, s: Bytes, headerSize: nat, h: FixedHeader, cursor: nat, count: nat)
    ensures var r := ParseEntries(Corrected, t, s, headerSize, h, cursor, count);
            r.Success? ==> StopsAtLast(t, headerSize, h.entryCount, cursor, count, r.value)
  {
    var r := ParseEntries(Corrected, t, s, headerSize, h, cursor, count);
    if r.Success? {
      ParseEntriesStopEach(t, s, headerSize, h, cursor, count);
      StopsEachLast(t, headerSize, h.entryCount, cursor, count, r.value);
    }
  }

  /** RepeatUntil's stopping pattern record by record: the predicate fails after each record but the last. */
  predicate StopsEach(t: FarcType, headerSize: nat, entryCount: int, cursor: nat, count: nat, es: seq<RawEntry>)
    decreases |es|
  {
    && |es| >= 1
    && var end := cursor + RecordSize(t, es[0].name);
       if |es| == 1 then TableDone(t, headerSize, entryCount, end, count + 1)
       else !TableDone(t, headerSize, entryCount, end, count + 1)
            && StopsEach(t, headerSize, entryCount, end, count + 1, es[1..])
  }

  /** The record-by-record pattern is the prefix-sum pattern. */
  lemma {:induction false} StopsEachLast(t: FarcType, headerSize: nat, entryCount: int, cursor: nat, count: nat,
                                         es: seq<RawEntry>)
    requires StopsEach(t, headerSize, entryCount, cursor, count, es)
    ensures StopsAtLast(t, headerSize, entryCount, cursor, count, es)
    decreases |es|
  {
    var e, end := es[0], cursor + RecordSize(t, es[0].name);
    if |es| == 1 {
      ParseEntriesLast(t, e, cursor);
    } else {
      StopsEachLast(t, headerSize, entryCount, end, count + 1, es[1..]);
      assert es == [e] + es[1..];
      StopsAtLastCons(t, headerSize, entryCount, cursor, count, e, end, es[1..]);
    }
  }

  /** The table parse follows the record-by-record pattern. */
  lemma {:induction false} ParseEntriesStopEach(t: FarcType, s: Bytes, headerSize: nat, h: FixedHeader,
                                                cursor: nat, count: nat)
    ensures var r := ParseEntries(Corrected, t, s, headerSize, h, cursor, count);
            r.Success? ==> StopsEach(t, headerSize, h.entryCount, cursor, count, r.value)
    decreases |s| - cursor
  {
    var r := ParseEntries(Corrected, t, s, headerSize, h, cursor, count);
    if r.Success? {
      var e, end := ParseEntriesShape(t, s, headerSize, h, cursor, count);
      if !TableDone(t, headerSize, h.entryCount, end, count + 1) {
        ParseEntriesStopEach(t, s, headerSize, h, end, count + 1);
        StopsEachCons(t, headerSize, h.entryCount, cursor, count, e, end,
                      ParseEntries(Corrected, t, s, headerSize, h, end, count + 1).value);
      }
    }
  }

  lemma StopsEachCons(t: FarcType, headerSize: nat, entryCount: int, cursor: nat, count: nat,
                      e: RawEntry, end: nat, rest: seq<RawEntry>)
    requires end == cursor + RecordSize(t, e.name)
    requires !TableDone(t, headerSize, entryCount, end, count + 1)
    requires StopsEach(t, headerSize, entryCount, end, count + 1, rest)
    ensures StopsEach(t, headerSize, entryCount, cursor, count, [e] + rest)
  {
    assert ([e] + rest)[1..] == rest;
  }

  /** A successful table parse is its first record `e` followed, unless the predicate held, by the rest. */
  lemma ParseEntriesShape(t: FarcType, s: Bytes, headerSize: nat, h: FixedHeader, cursor: nat, count: nat)
    returns (e: RawEntry, end: nat)
    requires ParseEntries(Corrected, t, s, headerSize, h, cursor, count).Success?
    ensures end == cursor + RecordSize(t, e.name)
    ensures var r := ParseEntries(Corrected, t, s, headerSize, h, cursor, count).value;
            if TableDone(t, headerSize, h.entryCount, end, count + 1) then r == [e]
            else ParseEntries(Corrected, t, s, headerSize, h, end, count + 1).Success?
                 && r == [e] + ParseEntries(Corrected, t, s, headerSize, h, end, count + 1).value
  {
    e, end := ParseRecord(t, s, h, cursor).value.0, ParseRecord(t, s, h, cursor).value.1;
  }

  lemma ParseEntriesLast(t: FarcType, e: RawEntry, cursor: nat)
    ensures cursor + TableSize(t, RawNames([e])) == cursor + RecordSize(t, e.name)
  {
    assert RawNames([e]) == [e.name];
    assert RawNames([e])[1..] == [];
  }

  /** Records after the first keep the stopping pattern once the first record is put in front. */
  lemma StopsAtLastCons(t: FarcType, headerSize: nat, entryCount: int,
                        cursor: nat, count: nat, e: RawEntry, end: nat, rest: seq<RawEntry>)
    requires end == cursor + RecordSize(t, e.name) && |rest| >= 1
    requires !TableDone(t, headerSize, entryCount, end, count + 1)
    requires StopsAtLast(t, headerSize, entryCount, end, count + 1, rest)
    ensures StopsAtLast(t, headerSize, entryCount, cursor, count, [e] + rest)
  {
    var all := [e] + rest;
    PrefixTableSize(t, e, rest, |all|);
    forall k | 0 < k < |all|
      ensures !TableDone(t, headerSize, entryCount, cursor + TableSize(t, RawNames(all[..k])), count + k)
    {
      PrefixTableSize(t, e, rest, k);
    }
  }

  /** The first `k` records of `[e] + rest` take `e`'s record and the first `k - 1` of `rest`. */
  lemma PrefixTableSize(t: FarcType, e: RawEntry, rest: seq<RawEntry>, k: nat)
    requires 0 < k <= |rest| + 1
    ensures TableSize(t, RawNames(([e] + rest)[..k])) == RecordSize(t, e.name) + TableSize(t, RawNames(rest[..k - 1]))
  {
    var all := [e] + rest;
    assert all[..k] == [e] + rest[..k - 1];
    assert RawNames(all[..k])[1..] == RawNames(rest[..k - 1]);
  }

  /**
    As written, a FARC_FT table whose stream extends past the header stops after its
    first record, whatever `entry_count` says: the cursor already stands at the end.
   */
  lemma AsWrittenFtReadsOneRecord(s: Bytes, headerSize: nat, h: FixedHeader, cursor: nat, count: nat)
    requires |s| > headerSize + 7
    ensures var r := ParseEntries(AsWritten, FARC_FT, s, headerSize, h, cursor, count);
            r.Success? ==> |r.value| == 1
  {
  }

  /** Outside FARC_FT the two cursor rules read the same table. */
  lemma {:induction false} CursorRulesAgreeEntries(t: FarcType, s: Bytes, headerSize: nat, h: FixedHeader,
                                                   cursor: nat, count: nat)
    requires t != FARC_FT
    ensures ParseEntries(AsWritten, t, s, headerSize, h, cursor, count)
            == ParseEntries(Corrected, t, s, headerSize, h, cursor, count)
    decreases |s| - cursor
  {
    var r := ParseRecord(t, s, h, cursor);
    if r.Success? {
      var end := r.value.1;
      if !TableDone(t, headerSize, h.entryCount, end, count + 1) {
        CursorRulesAgreeEntries(t, s, headerSize, h, end, count + 1);
      }
    }
  }

  /** Outside FARC_FT the two cursor rules parse a stream alike. */
  lemma CursorRulesAgree(t: FarcType, s: Bytes)
    requires t != FARC_FT
    ensures ParseStruct(AsWritten, t, s) == ParseStruct(Corrected, t, s)
  {
    if |s| >= 8 && s[..4] == Signature(t) && ParseFixedHeader(t, s).Success? {
      CursorRulesAgreeEntries(t, s, ReadU32BE(s, 4), ParseFixedHeader(t, s).value, 8 + Info(t).fixedHeaderSize, 0);
    }
  }

  // ---------------------------------------------------------------------------
  // Writing the entry table and the data
  // ---------------------------------------------------------------------------

  /** A record as handed to the struct builder: its name, its integer fields and its stored data. */
  datatype BuildEntry = BuildEntry(name: Bytes, fields: EntryFields, data: Bytes)

  function Names(es: seq<BuildEntry>): (r: seq<Bytes>)
    ensures |r| == |es|
  {
    if |es| == 0 then [] else [es[0].name] + Names(es[1..])
  }

  /** Every entry's fields fit their slots. */
  predicate AllFit(es: seq<BuildEntry>)
    decreases |es|
  {
    |es| == 0 || (FieldsFit(es[0].fields) && AllFit(es[1..]))
  }

  predicate NulFree(name: Bytes) {
    forall k :: 0 <= k < |name| ==> name[k] != 0
  }

  /** The records one after another: name, NUL terminator, fields. */
  function TableBytes(t: FarcType, es: seq<BuildEntry>): Bytes
    requires AllFit(es)
  {
    if |es| == 0 then [] else es[0].name + [0] + EntryFieldsBytes(t, es[0].fields) + TableBytes(t, es[1..])
  }

  /** The table is as long as the header size counts for its records. */
  lemma {:induction false} TableBytesLength(t: FarcType, es: seq<BuildEntry>)
    requires AllFit(es)
    ensures |TableBytes(t, es)| == TableSize(t, Names(es))
  {
    if |es| > 0 {
      assert Names(es)[1..] == Names(es[1..]);
      TableBytesLength(t, es[1..]);
    }
  }

  /** Each entry's data starts at or after `start` and after the previous entry's data. */
  predicate LaidOut(start: int, es: seq<BuildEntry>)
    decreases |es|
  {
    |es| == 0 || (start <= es[0].fields.pointer && LaidOut(es[0].fields.pointer + |es[0].data|, es[1..]))
  }

  /** The stream from `start` on after every entry's data is written at its pointer, gaps zero-filled. */
  function DataRegion(start: nat, es: seq<BuildEntry>): (r: Bytes)
    requires LaidOut(start, es)
    decreases |es|
  {
    if |es| == 0 then []
    else
      var p := es[0].fields.pointer;
      Zeros(p - start) + es[0].data + DataRegion(p + |es[0].data|, es[1..])
  }

  /** `e`'s data lies in `region`, a stretch of the stream starting at `start`, at its pointer. */
  predicate HoldsAt(region: Bytes, start: int, e: BuildEntry) {
    && start <= e.fields.pointer
    && e.fields.pointer + |e.data| <= start + |region|
    && region[e.fields.pointer - start..e.fields.pointer - start + |e.data|] == e.data
  }

  /** Every entry's data can be read back from the region at its pointer. */
  lemma {:induction false} DataRegionHolds(start: nat, es: seq<BuildEntry>, i: nat)
    requires LaidOut(start, es) && i < |es|
    ensures HoldsAt(DataRegion(start, es), start, es[i])
    decreases |es|
  {
    var next := es[0].fields.pointer + |es[0].data|;
    DataRegionCons(start, es);
    if i > 0 {
      var e := es[i];
      DataRegionHolds(next, es[1..], i - 1);
      assert es[1..][i - 1] == e;
      ShiftWindow(DataRegion(start, es), start, DataRegion(next, es[1..]), next, e);
    }
  }

  /** Data held in a suffix of a region is held in the region. */
  lemma ShiftWindow(r: Bytes, start: int, rest: Bytes, next: int, e: BuildEntry)
    requires start <= next && next - start + |rest| == |r| && r[next - start..] == rest
    requires HoldsAt(rest, next, e)
    ensures HoldsAt(r, start, e)
  {
    var off := next - start;
    var x := e.fields.pointer - next;
    assert r[off..off + |rest|] == rest;
    SubSlice(r, off, rest, x, x + |e.data|);
  }

  /** The region opens with the first entry's data at its pointer, then the region of the rest. */
  lemma DataRegionCons(start: nat, es: seq<BuildEntry>)
    requires LaidOut(start, es) && 0 < |es|
    ensures var next := es[0].fields.pointer + |es[0].data|;
            var r := DataRegion(start, es);
            && start <= next
            && start + |r| == next + |DataRegion(next, es[1..])|
            && r[next - start..] == DataRegion(next, es[1..])
            && HoldsAt(r, start, es[0])
  {
    var p := es[0].fields.pointer;
    var d := es[0].data;
    ConcatParts(Zeros(p - start), d, DataRegion(p + |d|, es[1..]));
  }

  /**
    Writing each record's `data` field: `Bytes(span)` refuses data of another length,
    and every integer field must fit its 32-bit slot.  The first failing entry decides.
   */
  function CheckEntries(t: FarcType, containerEncrypted: bool, es: seq<BuildEntry>): (r: Result<(), FarcError>)
    ensures r.Success? <==> AllFit(es) && forall i :: 0 <= i < |es| ==>
              |es[i].data| == DataSpan(t, es[i].fields, containerEncrypted, 0)
  {
    if |es| == 0 then Success(())
    else if !FieldsFit(es[0].fields) then Failure(FieldOverflow)
    else if |es[0].data| != DataSpan(t, es[0].fields, containerEncrypted, 0) then Failure(LengthMismatch)
    else
      var r := CheckEntries(t, containerEncrypted, es[1..]);
      assert forall i :: 1 <= i < |es| ==> es[1..][i - 1] == es[i];
      r
  }

  /**
    RepeatUntil writing the table stops when `tell() - 7 > header_size`; with
    `header_size` counting every record's bytes that happens exactly after the last record.
   */
  lemma BuildStopsAtLastEntry(t: FarcType, names: seq<Bytes>, k: nat)
    requires k < |names|
    ensures var headerSize := Info(t).fixedHeaderSize + TableSize(t, names);
            var cursor := 8 + Info(t).fixedHeaderSize + TableSize(t, names[..k + 1]);
            cursor - 7 > headerSize <==> k == |names| - 1
  {
    assert names == names[..k + 1] + names[k + 1..];
    TableSizeAppend(t, names[..k + 1], names[k + 1..]);
  }

  /** Header size of a struct whose records carry these names. */
  function HeaderSize(t: FarcType, names: seq<Bytes>): (n: nat)
    ensures n >= Info(t).fixedHeaderSize
  {
    Info(t).fixedHeaderSize + TableSize(t, names)
  }

  /** Five byte strings laid end to end, each recoverable by slicing at the running lengths. */
  function Join5(a: Bytes, b: Bytes, c: Bytes, d: Bytes, e: Bytes): (s: Bytes)
    ensures |s| == |a| + |b| + |c| + |d| + |e|
    ensures s[..|a|] == a
    ensures s[|a|..|a| + |b|] == b
    ensures s[|a| + |b|..|a| + |b| + |c|] == c
    ensures s[|a| + |b| + |c|..|a| + |b| + |c| + |d|] == d
    ensures s[|a| + |b| + |c| + |d|..] == e
  {
    a + b + c + d + e
  }

  /** The bytes of a struct: header, fixed fields, records, then the data region. */
  function StructImage(t: FarcType, h: FixedHeader, es: seq<BuildEntry>): (image: Bytes)
    requires t != FARC_FT && AllFit(es) && InS32(h.alignment)
    requires HeaderSize(t, Names(es)) < 0x1_0000_0000
    requires LaidOut(8 + HeaderSize(t, Names(es)), es)
    ensures var headerSize := HeaderSize(t, Names(es));
            var fixedEnd := 8 + Info(t).fixedHeaderSize;
            && |image| >= 8 + headerSize
            && image[..4] == Signature(t)
            && image[4..8] == U32BE(headerSize)
            && image[8..fixedEnd] == FixedHeaderBytes(t, h)
            && image[fixedEnd..8 + headerSize] == TableBytes(t, es)
            && image[8 + headerSize..] == DataRegion(8 + headerSize, es)
  {
    TableBytesLength(t, es);
    var headerSize := HeaderSize(t, Names(es));
    Assemble(t, h, headerSize, TableBytes(t, es), DataRegion(8 + headerSize, es))
  }

  /** Header, `header_size`, fixed fields, a table that ends where the header size says, then the data region. */
  function Assemble(t: FarcType, h: FixedHeader, headerSize: nat, table: Bytes, region: Bytes): (image: Bytes)
    requires t != FARC_FT && InS32(h.alignment) && headerSize < 0x1_0000_0000
    requires Info(t).fixedHeaderSize + |table| == headerSize
    ensures var fixedEnd := 8 + Info(t).fixedHeaderSize;
            && |image| >= 8 + headerSize
            && image[..4] == Signature(t)
            && image[4..8] == U32BE(headerSize)
            && image[8..fixedEnd] == FixedHeaderBytes(t, h)
            && image[fixedEnd..8 + headerSize] == table
            && image[8 + headerSize..] == region
  {
    var sig, size, fixed := Signature(t), U32BE(headerSize), FixedHeaderBytes(t, h);
    Join5Slices(sig, size, fixed, table, region, 8 + Info(t).fixedHeaderSize, 8 + headerSize);
    Join5(sig, size, fixed, table, region)
  }

  /** `Join5` read back at the offsets of a struct: four bytes, four bytes, the fixed fields, the table, the rest. */
  lemma Join5Slices(sig: Bytes, size: Bytes, fixed: Bytes, table: Bytes, region: Bytes, fixedEnd: nat, dataStart: nat)
    requires |sig| == 4 && |size| == 4 && 8 + |fixed| == fixedEnd && fixedEnd + |table| == dataStart
    ensures var image := Join5(sig, size, fixed, table, region);
            && |image| >= dataStart
            && image[..4] == sig && image[4..8] == size && image[8..fixedEnd] == fixed
            && image[fixedEnd..dataStart] == table && image[dataStart..] == region
  {
  }

  /**
    Building a writable struct: signature, `header_size`, the fixed fields, every
    record and every entry's data at its pointer.  An empty list fails as RepeatUntil
    does; a field too large for its slot or data of the wrong length fails as construct does.
   */
  function BuildStruct(t: FarcType, h: FixedHeader, es: seq<BuildEntry>): (r: Result<Bytes, FarcError>)
    requires t != FARC_FT
    requires LaidOut(8 + HeaderSize(t, Names(es)), es)
    ensures r.Success? <==> (|es| >= 1 && HeaderSize(t, Names(es)) < 0x1_0000_0000 && InS32(h.alignment)
                             && CheckEntries(t, h.flags.encrypted, es).Success?)
    ensures r.Success? ==> |r.value| >= 8 && r.value[..4] == Signature(t)
                           && ReadU32BE(r.value, 4) == HeaderSize(t, Names(es))
    ensures r.Success? ==> AllFit(es) && r.value == StructImage(t, h, es)
  {
    var headerSize := HeaderSize(t, Names(es));
    if headerSize >= 0x1_0000_0000 || !InS32(h.alignment) then Failure(FieldOverflow)
    else if |es| == 0 then Failure(RepeatError)
    else
      var _ :- CheckEntries(t, h.flags.encrypted, es);
      var image := StructImage(t, h, es);
      ReadWithin(image, 4, U32BE(headerSize));
      ReadU32BEOf(headerSize);
      Success(image)
  }

  // ---------------------------------------------------------------------------
  // The whole struct
  // ---------------------------------------------------------------------------

  /** What a struct parse yields: `header_size`, the fixed fields and the records. */
  datatype ParsedStruct = ParsedStruct(headerSize: nat, header: FixedHeader, entries: seq<RawEntry>)

  /** Parsing a stream (struct at offset 0) as type `t`: signature, `header_size`, fixed fields, table. */
  function ParseStruct(rule: CursorRule, t: FarcType, s: Bytes): (r: Result<ParsedStruct, FarcError>)
    ensures r.Success? ==> 8 <= |s| && s[..4] == Signature(t) && r.value.headerSize == ReadU32BE(s, 4)
    ensures r.Success? ==> |r.value.entries| >= 1
  {
    if |s| < 4 then Failure(StreamError)
    else if s[..4] != Signature(t) then Failure(ConstError)
    else if |s| < 8 then Failure(StreamError)
    else
      var headerSize := ReadU32BE(s, 4);
      var h :- ParseFixedHeader(t, s);
      var es :- ParseEntries(rule, t, s, headerSize, h, 8 + Info(t).fixedHeaderSize, 0);
      Success(ParsedStruct(headerSize, h, es))
  }

  /** The records a parse recovers from the records a build was given. */
  function Raw(t: FarcType, es: seq<BuildEntry>): (r: seq<RawEntry>)
    ensures |r| == |es|
  {
    if |es| == 0 then []
    else [RawEntry(es[0].name, NormalizeFields(t, es[0].fields), es[0].data)] + Raw(t, es[1..])
  }
}

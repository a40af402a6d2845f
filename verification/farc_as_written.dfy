/**
  The archive writer as it stands: `header_size` and the first data pointer
  count each name in characters (`FarcHeaderSize`), RepeatUntil writes records
  until its test holds, and every write goes through `BytesIO`, which zero-fills
  a gap and ignores an empty write.  With ASCII names it writes what the writer
  in `Farc` writes; with fourteen `é` it loses a file.
 */
module FarcAsWritten {

  import opened Wrappers
  import opened Bytes
  import opened Primitives
  import opened FarcFormats
  import opened FarcHeaderSize
  import opened Farc
  import opened FarcProofs
  import opened Align

  // ---------------------------------------------------------------------------
  // The writer as it stands
  // ---------------------------------------------------------------------------

  /**
    `BytesIO.write` at `pos`: a stream shorter than `pos` is first zero-filled up
    to it, the bytes then replace what stands there, and an empty write changes
    nothing at all.
   */
  function WriteAt(s: Bytes, pos: nat, b: Bytes): (r: Bytes)
    ensures |b| == 0 ==> r == s
    ensures |b| > 0 ==> |r| == (if pos + |b| < |s| then |s| else pos + |b|)
  {
    if |b| == 0 then s
    else
      var n := if pos + |b| < |s| then |s| else pos + |b|;
      seq(n, k => if pos <= k < pos + |b| then b[k - pos] else if 0 <= k < |s| then s[k] else 0)
  }

  /**
    A non-empty write reads back at its position, leaves the bytes outside it as
    they were, and fills any gap past the old end with zeros.
   */
  lemma WriteAtReads(s: Bytes, pos: nat, b: Bytes)
    requires |b| > 0
    ensures var r := WriteAt(s, pos, b);
            && r[pos..pos + |b|] == b
            && (forall k :: 0 <= k < |s| && (k < pos || pos + |b| <= k) ==> r[k] == s[k])
            && (forall k :: |s| <= k < pos ==> r[k] == 0)
  {
  }

  /** Writing at the end of a stream appends. */
  lemma WriteAtEnd(s: Bytes, b: Bytes)
    requires |b| > 0
    ensures WriteAt(s, |s|, b) == s + b
  {
    WriteAtPast(s, |s|, b);
    assert Zeros(0) == [];
  }

  /**
    RepeatUntil building the table from `cursor`, one record at a time: the name,
    its NUL and the fields at the cursor, the data at its pointer, then the test
    `tell() - 7 > header_size` on the cursor after the record.  A field too large
    for its slot or data of the wrong length fails as construct does; running out
    of records before the test holds fails as RepeatError.
   */
  function BuildRecords(t: FarcType, encrypted: bool, headerSize: nat, entryCount: int, s: Bytes, cursor: nat,
                        count: nat, es: seq<BuildEntry>): (r: Result<Bytes, FarcError>)
    requires t != FARC_FT
    decreases |es|
  {
    if |es| == 0 then Failure(RepeatError)
    else if !FieldsFit(es[0].fields) then Failure(FieldOverflow)
    else if |es[0].data| != DataSpan(t, es[0].fields, encrypted, 0) then Failure(LengthMismatch)
    else
      var record := es[0].name + [0] + EntryFieldsBytes(t, es[0].fields);
      var written := WriteAt(WriteAt(s, cursor, record), es[0].fields.pointer, es[0].data);
      var next := cursor + |record|;
      if TableDone(t, headerSize, entryCount, next, count + 1) then Success(written)
      else BuildRecords(t, encrypted, headerSize, entryCount, written, next, count + 1, es[1..])
  }

  /** The struct builder given the `header_size` to store: header, fixed fields, then the table as built. */
  function BuildStructWith(t: FarcType, h: FixedHeader, headerSize: nat, es: seq<BuildEntry>)
    : (r: Result<Bytes, FarcError>)
    requires t != FARC_FT
  {
    if headerSize >= 0x1_0000_0000 || !InS32(h.alignment) then Failure(FieldOverflow)
    else
      var fixed := Signature(t) + U32BE(headerSize) + FixedHeaderBytes(t, h);
      BuildRecords(t, h.flags.encrypted, headerSize, h.entryCount, fixed, 8 + Info(t).fixedHeaderSize, 0, es)
  }

  /**
    `to_stream` as it stands for a writable type: the pointers start after the
    `header_size` that counts names in characters, and that count is stored.
   */
  function WriteStructAsWritten(p: Primitives, t: FarcType, container: Flags, files: seq<InputFile>,
                                alignment: nat): (r: Result<Bytes, FarcError>)
    requires t != FARC_FT && alignment >= 1
  {
    var headerSize := HeaderSizeAsWritten(t, FileNames(files));
    var es := Layout(p, t, container, files, 8 + headerSize, alignment);
    BuildStructWith(t, HeaderOf(container, files, alignment), headerSize, es)
  }

  /** `to_bytes` as it stands: the type checks of `Farc.ToBytes`, then the character-counting writer. */
  function ToBytesAsWritten(p: Primitives, cryptoInstalled: bool, a: Archive, alignment: nat)
    : (r: Result<Bytes, FarcError>)
    requires alignment >= 1
  {
    var _ :- CheckFarcType(a.farcType, cryptoInstalled);
    var t := LookupType(a.farcType).value;
    if !Info(t).writeSupport then Failure(UnsupportedFarcType(a.farcType))
    else WriteStructAsWritten(p, t, ContainerFlags(t, a.flags), a.files, alignment)
  }

  /** A name of 28 UTF-8 bytes and 14 characters with no NUL in it, such as fourteen `é`. */
  predicate FourteenCharName(name: Bytes) {
    |name| == 28 && CodePoints(name) == 14 && NulFree(name)
  }

  lemma {:induction false} EAcutesNulFree(k: nat)
    ensures NulFree(EAcutes(k))
  {
    if k > 0 {
      EAcutesNulFree(k - 1);
      assert EAcutes(k) == EAcutes(k - 1) + EAcute();
    }
  }

  /** Fourteen `é` make such a name. */
  lemma EAcutesFourteen()
    ensures FourteenCharName(EAcutes(14))
  {
    EAcutesNulFree(14);
  }

  /** A two-file archive: `name` holding `A`, then `a` holding `B`. */
  function DropArchive(name: Bytes): Archive {
    Archive("FARC", [InputFile(name, [0x41], None), InputFile([0x61], [0x42], None)], None)
  }

  /** The fixed fields the archive is written with: no flags, alignment 1, two files. */
  function DropHeader(): FixedHeader {
    FixedHeader(Flags(false, false), 1, 0, 2)
  }

  /** The first record: the name, NUL, then pointer 69 and both sizes 1. */
  function DropEntry(name: Bytes): BuildEntry {
    BuildEntry(name, EntryFields(69, 1, 1, Flags(false, false)), [0x41])
  }

  /** The signature, `header_size` 61 and the 20 fixed header bytes. */
  function DropFixed(): (r: Bytes)
    ensures |r| == 28
  {
    Signature(FARC) + U32BE(61) + FixedHeaderBytes(FARC, DropHeader())
  }

  /** The first record as the table holds it: the name, NUL, then its 12 field bytes. */
  function DropRecord(name: Bytes): (r: Bytes)
    ensures |r| == |name| + 13
  {
    name + [0] + EntryFieldsBytes(FARC, DropEntry(name).fields)
  }

  /** The bytes written: the fixed part, the first record and its data. */
  function DropImage(name: Bytes): Bytes {
    DropFixed() + DropRecord(name) + [0x41]
  }

  /** The `header_size` as written: 20 fixed bytes, then 14 + 1 + 12 and 1 + 1 + 12. */
  lemma DropHeaderSize(name: Bytes)
    requires FourteenCharName(name)
    ensures FileNames(DropArchive(name).files) == [name, [0x61]]
    ensures HeaderSizeAsWritten(FARC, FileNames(DropArchive(name).files)) == 61
  {
    var letter: Bytes := [0x61];
    var names := [name, letter];
    assert CodePoints(letter) == 1 by {
      assert letter[..0] == [];
    }
    assert names[1..] == [letter];
    assert TableSizeAsWritten(FARC, [letter]) == 14 by {
      assert [letter][1..] == [];
    }
  }

  /** Laid out from 69, the first file is stored raw at 69. */
  lemma DropLayout(p: Primitives, name: Bytes)
    ensures var es := Layout(p, FARC, Flags(false, false), DropArchive(name).files, 69, 1);
            |es| == 2 && es[0] == DropEntry(name)
  {
    var f := DropArchive(name).files[0];
    var c := Compress(p, FARC, ResolveFlags(f.flags, Flags(false, false)), f.data);
    assert c == Stage([0x41], Flags(false, false));
  }

  /** The builder writes the first record and its data, then its test holds: 69 - 7 > 61. */
  lemma DropBuild(name: Bytes, es: seq<BuildEntry>)
    requires |name| == 28 && |es| == 2 && es[0] == DropEntry(name)
    ensures BuildStructWith(FARC, DropHeader(), 61, es) == Success(DropImage(name))
  {
    var fixed, record := DropFixed(), DropRecord(name);
    WriteAtEnd(fixed, record);
    WriteAtEnd(fixed + record, [0x41]);
    assert PaddedSize(1, false) == 1;
    assert BuildRecords(FARC, false, 61, 2, fixed, 28, 0, es) == Success(fixed + record + [0x41]);
  }

  /** The to-bytes half: the character-counting writer produces the 70-byte image. */
  lemma DropWritten(p: Primitives, name: Bytes)
    requires FourteenCharName(name)
    ensures ToBytesAsWritten(p, true, DropArchive(name), 1) == Success(DropImage(name))
  {
    var a := DropArchive(name);
    LookupTypeName(FARC);
    assert ContainerFlags(FARC, a.flags) == Flags(false, false);
    DropHeaderSize(name);
    assert HeaderOf(Flags(false, false), a.files, 1) == DropHeader();
    DropLayout(p, name);
    DropBuild(name, Layout(p, FARC, Flags(false, false), a.files, 69, 1));
  }

  /** A struct of one record has that record's size in its header. */
  lemma OneNameHeaderSize(t: FarcType, name: Bytes)
    ensures HeaderSize(t, [name]) == Info(t).fixedHeaderSize + RecordSize(t, name)
  {
    assert [name][1..] == [];
    assert TableSize(t, [name]) == RecordSize(t, name) + TableSize(t, []);
  }

  /** The first file alone: a 61-byte header, its data right after it. */
  lemma DropEntryAlone(name: Bytes)
    requires |name| == 28
    ensures var one := [DropEntry(name)];
            && HeaderSize(FARC, Names(one)) == 61
            && LaidOut(69, one)
            && TableBytes(FARC, one) == name + [0] + EntryFieldsBytes(FARC, DropEntry(name).fields)
            && DataRegion(69, one) == [0x41]
            && CheckEntries(FARC, false, one).Success?
  {
    var one := [DropEntry(name)];
    assert one[1..] == [];
    assert Names(one) == [name];
    OneNameHeaderSize(FARC, name);
    assert Zeros(0) == [];
    assert PaddedSize(1, false) == 1;
  }

  /** The image is exactly the struct holding the first file alone. */
  lemma DropImageAlone(name: Bytes)
    requires |name| == 28
    ensures && HeaderSize(FARC, Names([DropEntry(name)])) == 61
            && LaidOut(69, [DropEntry(name)])
            && BuildStruct(FARC, DropHeader(), [DropEntry(name)]) == Success(DropImage(name))
  {
    DropEntryAlone(name);
    var one := [DropEntry(name)];
    var parts := Join5(Signature(FARC), U32BE(61), FixedHeaderBytes(FARC, DropHeader()), DropRecord(name), [0x41]);
    assert StructImage(FARC, DropHeader(), one) == parts;
  }

  /** The dictionary of the struct holding the first file alone. */
  lemma DropDecode(p: Primitives, name: Bytes)
    ensures ParsedToDict(p, FARC, ParsedStruct(61, Normalize(FARC, DropHeader()), Raw(FARC, [DropEntry(name)])))
            == Success(Decoded("FARC", [(name, [0x41])], Some(Flags(false, false))))
  {
    var e := DropEntry(name);
    var raw := RawEntry(name, NormalizeFields(FARC, e.fields), [0x41]);
    assert Raw(FARC, [e]) == [raw];
    assert DecodeEntry(p, FARC, Flags(false, false), raw) == Success([0x41]);
    assert Put([], name, [0x41]) == [(name, [0x41])];
    assert DecodeEntries(p, FARC, Flags(false, false), [raw][1..], [(name, [0x41])]) == Success([(name, [0x41])]);
  }

  /** The from-bytes half: the 70-byte image reads back as the first file alone. */
  lemma DropRead(p: Primitives, name: Bytes)
    requires FourteenCharName(name)
    ensures FromBytes(p, true, DropImage(name)) == Success(Decoded("FARC", [(name, [0x41])], Some(Flags(false, false))))
  {
    var e := DropEntry(name);
    DropImageAlone(name);
    assert forall i :: 0 <= i < |[e]| ==> NulFree([e][i].name);
    BuiltStructReads(p, true, FARC, DropHeader(), [e], DropImage(name));
    DropDecode(p, name);
  }

  /** The image stores `header_size` 61. */
  lemma DropImageHeaderSize(name: Bytes)
    ensures ReadU32BE(DropImage(name), 4) == 61
  {
    var image := DropImage(name);
    var fixed := DropFixed();
    assert image[..28] == fixed;
    assert fixed[4..8] == U32BE(61);
    assert image[4..8] == U32BE(61);
    ReadWithin(image, 4, U32BE(61));
    ReadU32BEOf(61);
  }

  /**
    Written as the code stands and read back, the two-file archive comes back with
    its first file only: `header_size` 61 makes the builder stop after the first
    record, and the reader stops at the same place.  The writer in `Farc` keeps both.
   */
  lemma AsWrittenDropsSecondFile(p: Primitives, name: Bytes)
    requires FourteenCharName(name)
    ensures ToBytesAsWritten(p, true, DropArchive(name), 1) == Success(DropImage(name))
    ensures ReadU32BE(DropImage(name), 4) == 61
    ensures FromBytes(p, true, DropImage(name)) == Success(Decoded("FARC", [(name, [0x41])], Some(Flags(false, false))))
  {
    DropWritten(p, name);
    DropRead(p, name);
    DropImageHeaderSize(name);
  }

  // ---------------------------------------------------------------------------
  // Where the two writers agree
  // ---------------------------------------------------------------------------

  /** Every entry's stored bytes are non-empty, so each data write reaches the stream. */
  predicate StoredNonEmpty(es: seq<BuildEntry>) {
    forall i :: 0 <= i < |es| ==> |es[i].data| > 0
  }

  /** Every entry's stored bytes are non-empty and as long as its fields say, entry by entry. */
  predicate Ready(t: FarcType, encrypted: bool, es: seq<BuildEntry>)
    decreases |es|
  {
    |es| == 0 || (0 < |es[0].data| == DataSpan(t, es[0].fields, encrypted, 0) && Ready(t, encrypted, es[1..]))
  }

  lemma {:induction false} ReadyOfChecks(t: FarcType, encrypted: bool, es: seq<BuildEntry>)
    requires CheckEntries(t, encrypted, es).Success? && StoredNonEmpty(es)
    ensures AllFit(es) && Ready(t, encrypted, es)
    decreases |es|
  {
    if |es| > 0 {
      CheckEntriesFirst(t, encrypted, es);
      assert |es[0].data| > 0;
      assert forall i :: 0 <= i < |es[1..]| ==> es[1..][i] == es[i + 1];
      ReadyOfChecks(t, encrypted, es[1..]);
    }
  }

  lemma ZerosSplit(a: nat, b: nat)
    ensures Zeros(a + b) == Zeros(a) + Zeros(b)
  {
    ZerosAreZero(a + b);
    ZerosAreZero(a);
    ZerosAreZero(b);
    var l, r := Zeros(a + b), Zeros(a) + Zeros(b);
    assert forall k :: 0 <= k < a + b ==> l[k] == r[k];
  }

  /** Writing at or past the end zero-fills up to the position, then appends. */
  lemma WriteAtPast(s: Bytes, pos: nat, b: Bytes)
    requires |s| <= pos && |b| > 0
    ensures WriteAt(s, pos, b) == s + Zeros(pos - |s|) + b
  {
    var r, want := WriteAt(s, pos, b), s + Zeros(pos - |s|) + b;
    ZerosAreZero(pos - |s|);
    assert |r| == |want|;
    forall k | 0 <= k < |r|
      ensures r[k] == want[k]
    {
    }
  }

  /** Writing into a zero-filled stretch replaces the zeros it covers and nothing else. */
  lemma WriteAtZeros(head: Bytes, m: nat, region: Bytes, b: Bytes)
    requires 0 < |b| <= m
    ensures WriteAt(head + Zeros(m) + region, |head|, b) == head + b + Zeros(m - |b|) + region
  {
    var s := head + Zeros(m) + region;
    var r := WriteAt(s, |head|, b);
    var want := head + b + Zeros(m - |b|) + region;
    ZerosAreZero(m);
    ZerosAreZero(m - |b|);
    assert |r| == |want|;
    forall k | 0 <= k < |r|
      ensures r[k] == want[k]
    {
    }
  }

  /**
    With `header_size` counting the table exactly, RepeatUntil checks every entry
    before it stops, so the builder fails exactly where the struct check does.
   */
  lemma {:induction false} BuildRecordsChecks(t: FarcType, encrypted: bool, headerSize: nat, entryCount: int,
                                              s: Bytes, cursor: nat, count: nat, es: seq<BuildEntry>)
    requires t != FARC_FT && |es| >= 1
    requires cursor + TableSize(t, Names(es)) == 8 + headerSize
    requires CheckEntries(t, encrypted, es).Failure?
    ensures BuildRecords(t, encrypted, headerSize, entryCount, s, cursor, count, es)
            == Failure(CheckEntries(t, encrypted, es).error)
    decreases |es|
  {
    if FieldsFit(es[0].fields) && |es[0].data| == DataSpan(t, es[0].fields, encrypted, 0) {
      var written, next := PassesFirst(t, encrypted, headerSize, entryCount, s, cursor, count, es);
      BuildRecordsChecks(t, encrypted, headerSize, entryCount, written, next, count + 1, es[1..]);
    } else {
      FailsHere(t, encrypted, headerSize, entryCount, s, cursor, count, es);
    }
  }

  /** A first entry that fails the checks: the builder fails with the error the struct check reports. */
  lemma FailsHere(t: FarcType, encrypted: bool, headerSize: nat, entryCount: int, s: Bytes, cursor: nat,
                  count: nat, es: seq<BuildEntry>)
    requires t != FARC_FT && |es| >= 1
    requires !(FieldsFit(es[0].fields) && |es[0].data| == DataSpan(t, es[0].fields, encrypted, 0))
    ensures CheckEntries(t, encrypted, es).Failure?
    ensures BuildRecords(t, encrypted, headerSize, entryCount, s, cursor, count, es)
            == Failure(CheckEntries(t, encrypted, es).error)
  {
  }

  /** One step of the builder past a first entry that passes the checks in a table that fails them. */
  lemma PassesFirst(t: FarcType, encrypted: bool, headerSize: nat, entryCount: int, s: Bytes, cursor: nat,
                    count: nat, es: seq<BuildEntry>) returns (written: Bytes, next: nat)
    requires t != FARC_FT && |es| >= 1
    requires cursor + TableSize(t, Names(es)) == 8 + headerSize
    requires CheckEntries(t, encrypted, es).Failure?
    requires FieldsFit(es[0].fields) && |es[0].data| == DataSpan(t, es[0].fields, encrypted, 0)
    ensures |es| >= 2
    ensures next + TableSize(t, Names(es[1..])) == 8 + headerSize
    ensures CheckEntries(t, encrypted, es[1..]) == CheckEntries(t, encrypted, es)
    ensures BuildRecords(t, encrypted, headerSize, entryCount, s, cursor, count, es)
            == BuildRecords(t, encrypted, headerSize, entryCount, written, next, count + 1, es[1..])
  {
    var record := es[0].name + [0] + EntryFieldsBytes(t, es[0].fields);
    written := WriteAt(WriteAt(s, cursor, record), es[0].fields.pointer, es[0].data);
    next := cursor + |record|;
    FailsLater(t, encrypted, headerSize, entryCount, cursor, count, es, record);
    BuildRecordsGoesOn(t, encrypted, headerSize, entryCount, s, cursor, count, es, record, written, next);
  }

  /**
    A first entry that passes the checks in a table that fails them: the failure
    lies in the rest, which is non-empty, so RepeatUntil goes on past this record.
   */
  lemma FailsLater(t: FarcType, encrypted: bool, headerSize: nat, entryCount: int, cursor: nat, count: nat,
                   es: seq<BuildEntry>, record: Bytes)
    requires t != FARC_FT && |es| >= 1
    requires cursor + TableSize(t, Names(es)) == 8 + headerSize
    requires CheckEntries(t, encrypted, es).Failure?
    requires FieldsFit(es[0].fields) && |es[0].data| == DataSpan(t, es[0].fields, encrypted, 0)
    requires record == es[0].name + [0] + EntryFieldsBytes(t, es[0].fields)
    ensures |es| >= 2
    ensures cursor + |record| + TableSize(t, Names(es[1..])) == 8 + headerSize
    ensures CheckEntries(t, encrypted, es[1..]) == CheckEntries(t, encrypted, es)
    ensures !TableDone(t, headerSize, entryCount, cursor + |record|, count + 1)
  {
    assert Names(es)[1..] == Names(es[1..]);
  }

  /** A step of the builder after which RepeatUntil's test holds: the builder stops with the stream written. */
  lemma BuildRecordsStops(t: FarcType, encrypted: bool, headerSize: nat, entryCount: int, s: Bytes, cursor: nat,
                          count: nat, es: seq<BuildEntry>, record: Bytes, written: Bytes, next: nat)
    requires t != FARC_FT && |es| >= 1
    requires FieldsFit(es[0].fields) && |es[0].data| == DataSpan(t, es[0].fields, encrypted, 0)
    requires record == es[0].name + [0] + EntryFieldsBytes(t, es[0].fields) && next == cursor + |record|
    requires written == WriteAt(WriteAt(s, cursor, record), es[0].fields.pointer, es[0].data)
    requires TableDone(t, headerSize, entryCount, next, count + 1)
    ensures BuildRecords(t, encrypted, headerSize, entryCount, s, cursor, count, es) == Success(written)
  {
  }

  /** A step of the builder after which RepeatUntil's test fails: the builder goes on from the next cursor. */
  lemma BuildRecordsGoesOn(t: FarcType, encrypted: bool, headerSize: nat, entryCount: int, s: Bytes, cursor: nat,
                           count: nat, es: seq<BuildEntry>, record: Bytes, written: Bytes, next: nat)
    requires t != FARC_FT && |es| >= 1
    requires FieldsFit(es[0].fields) && |es[0].data| == DataSpan(t, es[0].fields, encrypted, 0)
    requires record == es[0].name + [0] + EntryFieldsBytes(t, es[0].fields) && next == cursor + |record|
    requires written == WriteAt(WriteAt(s, cursor, record), es[0].fields.pointer, es[0].data)
    requires !TableDone(t, headerSize, entryCount, next, count + 1)
    ensures BuildRecords(t, encrypted, headerSize, entryCount, s, cursor, count, es)
            == BuildRecords(t, encrypted, headerSize, entryCount, written, next, count + 1, es[1..])
  {
  }

  /** A table that passes the checks has a first entry that passes them, and a rest that does. */
  lemma CheckEntriesFirst(t: FarcType, encrypted: bool, es: seq<BuildEntry>)
    requires |es| >= 1 && CheckEntries(t, encrypted, es).Success?
    ensures FieldsFit(es[0].fields) && |es[0].data| == DataSpan(t, es[0].fields, encrypted, 0)
    ensures CheckEntries(t, encrypted, es[1..]).Success?
  {
  }

  /** The first table record and data-region piece split off, as the builder writes them. */
  lemma SplitFirst(t: FarcType, start: nat, es: seq<BuildEntry>, record: Bytes)
    requires |es| >= 1 && AllFit(es) && LaidOut(start, es)
    requires record == es[0].name + [0] + EntryFieldsBytes(t, es[0].fields)
    ensures TableBytes(t, es) == record + TableBytes(t, es[1..])
    ensures start <= es[0].fields.pointer
    ensures DataRegion(start, es)
            == Zeros(es[0].fields.pointer - start) + es[0].data + DataRegion(es[0].fields.pointer + |es[0].data|, es[1..])
    ensures TableSize(t, Names(es)) == |record| + TableSize(t, Names(es[1..]))
  {
    assert Names(es)[1..] == Names(es[1..]);
    assert forall i :: 0 <= i < |es[1..]| ==> es[1..][i] == es[i + 1];
  }

  /** Regrouping the pieces of a stream: records before data, each piece in its place. */
  lemma Regroup(head: Bytes, record: Bytes, table: Bytes, region: Bytes, gap: Bytes, data: Bytes, later: Bytes)
    ensures (head + record) + table + (region + gap + data) + later
            == head + (record + table) + region + (gap + data + later)
  {
  }

  /**
    A record written into the zeros before the data start, then data written past
    the end: the stream becomes the longer head, fewer zeros, and the longer region.
   */
  lemma ExactWrite(head: Bytes, m: nat, region: Bytes, record: Bytes, pointer: nat, data: Bytes, written: Bytes)
    requires 0 < |record| <= m && |head| + m + |region| <= pointer && |data| > 0
    requires written == (head + record) + Zeros(m - |record|) + (region + Zeros(pointer - (|head| + m + |region|)) + data)
    ensures WriteAt(WriteAt(head + Zeros(m) + region, |head|, record), pointer, data) == written
  {
    var r := WriteAt(WriteAt(head + Zeros(m) + region, |head|, record), pointer, data);
    ZerosAreZero(m);
    ZerosAreZero(m - |record|);
    ZerosAreZero(pointer - (|head| + m + |region|));
    assert |r| == |written|;
    forall k | 0 <= k < |r|
      ensures r[k] == written[k]
    {
    }
  }

  /**
    With `header_size` counting the table exactly, the builder's remaining records
    land in the zeros before the data start and each entry's data after the data
    written so far, so the stream ends up as the table followed by the data region.
   */
  lemma {:induction false} BuildRecordsExact(t: FarcType, encrypted: bool, headerSize: nat, entryCount: int,
                                             head: Bytes, region: Bytes, count: nat, es: seq<BuildEntry>)
    requires t != FARC_FT && |es| >= 1
    requires |head| + TableSize(t, Names(es)) == 8 + headerSize
    requires LaidOut(8 + headerSize + |region|, es) && AllFit(es) && Ready(t, encrypted, es)
    ensures BuildRecords(t, encrypted, headerSize, entryCount,
                         head + Zeros(8 + headerSize - |head|) + region, |head|, count, es)
            == Success(head + TableBytes(t, es) + region + DataRegion(8 + headerSize + |region|, es))
    decreases |es|, 1
  {
    if |es| == 1 {
      LastRecordExact(t, encrypted, headerSize, entryCount, head, region, count, es);
    } else {
      NextRecordExact(t, encrypted, headerSize, entryCount, head, region, count, es);
    }
  }

  /** `BuildRecordsExact` for the last record: RepeatUntil's test holds right after it. */
  lemma LastRecordExact(t: FarcType, encrypted: bool, headerSize: nat, entryCount: int,
                        head: Bytes, region: Bytes, count: nat, es: seq<BuildEntry>)
    requires t != FARC_FT && |es| == 1
    requires |head| + TableSize(t, Names(es)) == 8 + headerSize
    requires LaidOut(8 + headerSize + |region|, es) && AllFit(es) && Ready(t, encrypted, es)
    ensures BuildRecords(t, encrypted, headerSize, entryCount,
                         head + Zeros(8 + headerSize - |head|) + region, |head|, count, es)
            == Success(head + TableBytes(t, es) + region + DataRegion(8 + headerSize + |region|, es))
  {
    var e := es[0];
    var record := e.name + [0] + EntryFieldsBytes(t, e.fields);
    var head' := head + record;
    var region' := region + Zeros(e.fields.pointer - (8 + headerSize + |region|)) + e.data;
    var written := head' + Zeros(8 + headerSize - |head'|) + region';
    assert TableSize(t, Names(es)) == |record|;
    ExactWrite(head, 8 + headerSize - |head|, region, record, e.fields.pointer, e.data, written);
    BuildRecordsStops(t, encrypted, headerSize, entryCount, head + Zeros(8 + headerSize - |head|) + region,
                      |head|, count, es, record, written, |head'|);
    NextRecordImage(t, headerSize, head, region, es, record, head', region');
    assert Zeros(8 + headerSize - |head'|) == [];
    assert TableBytes(t, es[1..]) == [] && DataRegion(8 + headerSize + |region'|, es[1..]) == [];
    assert written == head' + [] + region' + [];
  }

  /** `BuildRecordsExact` with records still to come: RepeatUntil goes on from the next cursor. */
  lemma {:induction false} NextRecordExact(t: FarcType, encrypted: bool, headerSize: nat, entryCount: int,
                                           head: Bytes, region: Bytes, count: nat, es: seq<BuildEntry>)
    requires t != FARC_FT && |es| >= 2
    requires |head| + TableSize(t, Names(es)) == 8 + headerSize
    requires LaidOut(8 + headerSize + |region|, es) && AllFit(es) && Ready(t, encrypted, es)
    ensures BuildRecords(t, encrypted, headerSize, entryCount,
                         head + Zeros(8 + headerSize - |head|) + region, |head|, count, es)
            == Success(head + TableBytes(t, es) + region + DataRegion(8 + headerSize + |region|, es))
    decreases |es|, 0
  {
    var e := es[0];
    var record := e.name + [0] + EntryFieldsBytes(t, e.fields);
    var head' := head + record;
    var region' := region + Zeros(e.fields.pointer - (8 + headerSize + |region|)) + e.data;
    NextRecordRest(t, encrypted, headerSize, head, region, es, record, head', region');
    NextRecordStep(t, encrypted, headerSize, entryCount, head, region, count, es, record, head', region');
    NextRecordImage(t, headerSize, head, region, es, record, head', region');
    BuildRecordsExact(t, encrypted, headerSize, entryCount, head', region', count + 1, es[1..]);
  }

  /** After the first record, the rest of the table satisfies what `BuildRecordsExact` needs. */
  lemma NextRecordRest(t: FarcType, encrypted: bool, headerSize: nat,
                       head: Bytes, region: Bytes, es: seq<BuildEntry>, record: Bytes, head': Bytes, region': Bytes)
    requires |es| >= 2
    requires |head| + TableSize(t, Names(es)) == 8 + headerSize
    requires LaidOut(8 + headerSize + |region|, es) && AllFit(es) && Ready(t, encrypted, es)
    requires record == es[0].name + [0] + EntryFieldsBytes(t, es[0].fields) && head' == head + record
    requires region' == region + Zeros(es[0].fields.pointer - (8 + headerSize + |region|)) + es[0].data
    ensures FieldsFit(es[0].fields) && 0 < |es[0].data| == DataSpan(t, es[0].fields, encrypted, 0)
    ensures |head'| < 8 + headerSize && 8 + headerSize + |region| <= es[0].fields.pointer
    ensures |head'| + TableSize(t, Names(es[1..])) == 8 + headerSize
    ensures LaidOut(8 + headerSize + |region'|, es[1..]) && AllFit(es[1..]) && Ready(t, encrypted, es[1..])
  {
    SplitFirst(t, 8 + headerSize + |region|, es, record);
    assert Names(es[1..])[0] == es[1].name;
  }

  /** The builder's first step leaves the stream in the shape `BuildRecordsExact` starts from. */
  lemma NextRecordStep(t: FarcType, encrypted: bool, headerSize: nat, entryCount: int, head: Bytes, region: Bytes,
                       count: nat, es: seq<BuildEntry>, record: Bytes, head': Bytes, region': Bytes)
    requires t != FARC_FT && |es| >= 1
    requires FieldsFit(es[0].fields) && 0 < |es[0].data| == DataSpan(t, es[0].fields, encrypted, 0)
    requires 8 + headerSize + |region| <= es[0].fields.pointer
    requires record == es[0].name + [0] + EntryFieldsBytes(t, es[0].fields) && head' == head + record
    requires region' == region + Zeros(es[0].fields.pointer - (8 + headerSize + |region|)) + es[0].data
    requires |head'| < 8 + headerSize
    ensures BuildRecords(t, encrypted, headerSize, entryCount,
                         head + Zeros(8 + headerSize - |head|) + region, |head|, count, es)
            == BuildRecords(t, encrypted, headerSize, entryCount,
                            head' + Zeros(8 + headerSize - |head'|) + region', |head'|, count + 1, es[1..])
  {
    var written := head' + Zeros(8 + headerSize - |head'|) + region';
    ExactWrite(head, 8 + headerSize - |head|, region, record, es[0].fields.pointer, es[0].data, written);
    BuildRecordsGoesOn(t, encrypted, headerSize, entryCount, head + Zeros(8 + headerSize - |head|) + region,
                       |head|, count, es, record, written, |head'|);
  }

  /** The image after the first record regroups as the first record's pieces and the rest's image. */
  lemma NextRecordImage(t: FarcType, headerSize: nat, head: Bytes, region: Bytes, es: seq<BuildEntry>,
                        record: Bytes, head': Bytes, region': Bytes)
    requires |es| >= 1 && AllFit(es) && LaidOut(8 + headerSize + |region|, es)
    requires record == es[0].name + [0] + EntryFieldsBytes(t, es[0].fields) && head' == head + record
    requires region' == region + Zeros(es[0].fields.pointer - (8 + headerSize + |region|)) + es[0].data
    ensures LaidOut(8 + headerSize + |region'|, es[1..])
    ensures head + TableBytes(t, es) + region + DataRegion(8 + headerSize + |region|, es)
            == head' + TableBytes(t, es[1..]) + region' + DataRegion(8 + headerSize + |region'|, es[1..])
  {
    var e := es[0];
    SplitFirst(t, 8 + headerSize + |region|, es, record);
    var gap := Zeros(e.fields.pointer - (8 + headerSize + |region|));
    assert 8 + headerSize + |region'| == e.fields.pointer + |e.data|;
    var tableRest := TableBytes(t, es[1..]);
    var later := DataRegion(e.fields.pointer + |e.data|, es[1..]);
    Regroup(head, record, tableRest, region, gap, e.data, later);
  }

  lemma Assoc4(x: Bytes, a: Bytes, b: Bytes, c: Bytes)
    ensures x + a + b + c == x + (a + b + c)
  {
  }


  /**
    Given the `header_size` that counts every record's bytes, the builder as it
    stands writes exactly the struct image, and fails exactly as the struct
    builder does, whenever every entry's stored bytes are non-empty.
   */
  lemma BuildStructWithExact(t: FarcType, h: FixedHeader, es: seq<BuildEntry>)
    requires t != FARC_FT
    requires LaidOut(8 + HeaderSize(t, Names(es)), es) && StoredNonEmpty(es)
    ensures BuildStructWith(t, h, HeaderSize(t, Names(es)), es) == BuildStruct(t, h, es)
  {
    var headerSize := HeaderSize(t, Names(es));
    if headerSize < 0x1_0000_0000 && InS32(h.alignment) && |es| >= 1 {
      var fixed := Signature(t) + U32BE(headerSize) + FixedHeaderBytes(t, h);
      var cursor := 8 + Info(t).fixedHeaderSize;
      if CheckEntries(t, h.flags.encrypted, es).Failure? {
        BuildRecordsChecks(t, h.flags.encrypted, headerSize, h.entryCount, fixed, cursor, 0, es);
      } else {
        ReadyOfChecks(t, h.flags.encrypted, es);
        BuildStructWithImage(t, h, es);
      }
    }
  }

  /** The success half of `BuildStructWithExact`: the stream built is the struct image. */
  lemma BuildStructWithImage(t: FarcType, h: FixedHeader, es: seq<BuildEntry>)
    requires t != FARC_FT && |es| >= 1
    requires LaidOut(8 + HeaderSize(t, Names(es)), es) && AllFit(es) && Ready(t, h.flags.encrypted, es)
    requires HeaderSize(t, Names(es)) < 0x1_0000_0000 && InS32(h.alignment)
    ensures BuildStructWith(t, h, HeaderSize(t, Names(es)), es) == Success(StructImage(t, h, es))
  {
    var headerSize := HeaderSize(t, Names(es));
    var fixed := Signature(t) + U32BE(headerSize) + FixedHeaderBytes(t, h);
    StructStart(t, h, es, fixed);
    StructImageStart(t, h, es, fixed);
    FirstRecords(t, h.flags.encrypted, headerSize, h.entryCount, es, fixed);
  }

  /** The struct builder starts from the fixed part, with the cursor at its end. */
  lemma StructStart(t: FarcType, h: FixedHeader, es: seq<BuildEntry>, fixed: Bytes)
    requires t != FARC_FT && InS32(h.alignment) && HeaderSize(t, Names(es)) < 0x1_0000_0000
    requires fixed == Signature(t) + U32BE(HeaderSize(t, Names(es))) + FixedHeaderBytes(t, h)
    ensures |fixed| + TableSize(t, Names(es)) == 8 + HeaderSize(t, Names(es))
    ensures BuildStructWith(t, h, HeaderSize(t, Names(es)), es)
            == BuildRecords(t, h.flags.encrypted, HeaderSize(t, Names(es)), h.entryCount, fixed, |fixed|, 0, es)
  {
  }

  /** The struct image continues the fixed part with the table and the data region. */
  lemma StructImageStart(t: FarcType, h: FixedHeader, es: seq<BuildEntry>, fixed: Bytes)
    requires t != FARC_FT && AllFit(es) && InS32(h.alignment)
    requires HeaderSize(t, Names(es)) < 0x1_0000_0000 && LaidOut(8 + HeaderSize(t, Names(es)), es)
    requires fixed == Signature(t) + U32BE(HeaderSize(t, Names(es))) + FixedHeaderBytes(t, h)
    ensures StructImage(t, h, es) == fixed + TableBytes(t, es) + DataRegion(8 + HeaderSize(t, Names(es)), es)
  {
  }

  /**
    From the fixed part, the builder writes the whole table and every entry's data
    at its pointer: the first record lands as it would in a stream already
    zero-filled up to the data start, and the rest follows `BuildRecordsExact`.
   */
  lemma FirstRecords(t: FarcType, encrypted: bool, headerSize: nat, entryCount: int, es: seq<BuildEntry>,
                     fixed: Bytes)
    requires t != FARC_FT && |es| >= 1
    requires |fixed| + TableSize(t, Names(es)) == 8 + headerSize
    requires LaidOut(8 + headerSize, es) && AllFit(es) && Ready(t, encrypted, es)
    ensures BuildRecords(t, encrypted, headerSize, entryCount, fixed, |fixed|, 0, es)
            == Success(fixed + TableBytes(t, es) + DataRegion(8 + headerSize, es))
  {
    var none: Bytes := [];
    FirstRecordsStart(t, encrypted, headerSize, entryCount, es, fixed, none);
    FirstRecordsFilled(t, encrypted, headerSize, entryCount, es, fixed, none);
  }

  /** `BuildRecordsExact` from the fixed part zero-filled up to the data start, with no data written yet. */
  lemma FirstRecordsFilled(t: FarcType, encrypted: bool, headerSize: nat, entryCount: int, es: seq<BuildEntry>,
                           fixed: Bytes, none: Bytes)
    requires t != FARC_FT && |es| >= 1 && none == []
    requires |fixed| + TableSize(t, Names(es)) == 8 + headerSize
    requires LaidOut(8 + headerSize, es) && AllFit(es) && Ready(t, encrypted, es)
    ensures BuildRecords(t, encrypted, headerSize, entryCount, fixed + Zeros(8 + headerSize - |fixed|) + none,
                         |fixed|, 0, es)
            == Success(fixed + TableBytes(t, es) + DataRegion(8 + headerSize, es))
  {
    BuildRecordsExact(t, encrypted, headerSize, entryCount, fixed, none, 0, es);
    var table := fixed + TableBytes(t, es);
    assert table + none == table;
    assert DataRegion(8 + headerSize + |none|, es) == DataRegion(8 + headerSize, es);
  }

  /** The builder run on the fixed part behaves as on the fixed part zero-filled up to the data start. */
  lemma FirstRecordsStart(t: FarcType, encrypted: bool, headerSize: nat, entryCount: int, es: seq<BuildEntry>,
                          fixed: Bytes, none: Bytes)
    requires t != FARC_FT && |es| >= 1 && none == []
    requires |fixed| + TableSize(t, Names(es)) == 8 + headerSize
    requires LaidOut(8 + headerSize, es) && AllFit(es) && Ready(t, encrypted, es)
    ensures BuildRecords(t, encrypted, headerSize, entryCount, fixed, |fixed|, 0, es)
            == BuildRecords(t, encrypted, headerSize, entryCount, fixed + Zeros(8 + headerSize - |fixed|) + none,
                            |fixed|, 0, es)
  {
    var e := es[0];
    var record := e.name + [0] + EntryFieldsBytes(t, e.fields);
    FirstFits(t, encrypted, headerSize, es, fixed, record);
    StartFilled(t, encrypted, headerSize, entryCount, es, fixed, 8 + headerSize - |fixed|, none, record);
  }

  /** A first record and data that fit: the builder ignores zeros filled in before them. */
  lemma StartFilled(t: FarcType, encrypted: bool, headerSize: nat, entryCount: int, es: seq<BuildEntry>,
                    fixed: Bytes, m: nat, none: Bytes, record: Bytes)
    requires t != FARC_FT && |es| >= 1 && none == []
    requires FieldsFit(es[0].fields) && |es[0].data| > 0
    requires record == es[0].name + [0] + EntryFieldsBytes(t, es[0].fields)
    requires 0 < |record| <= m && |fixed| + m <= es[0].fields.pointer
    ensures BuildRecords(t, encrypted, headerSize, entryCount, fixed, |fixed|, 0, es)
            == BuildRecords(t, encrypted, headerSize, entryCount, fixed + Zeros(m) + none, |fixed|, 0, es)
  {
    StartWrites(fixed, m, none, record, es[0].fields.pointer, es[0].data);
    BuildRecordsSameStart(t, encrypted, headerSize, entryCount, fixed, fixed + Zeros(m) + none, |fixed|, 0, es, record);
  }

  /** The first record fits between the fixed part and the data start, and its data lies past the data start. */
  lemma FirstFits(t: FarcType, encrypted: bool, headerSize: nat, es: seq<BuildEntry>, fixed: Bytes, record: Bytes)
    requires |es| >= 1 && |fixed| + TableSize(t, Names(es)) == 8 + headerSize
    requires LaidOut(8 + headerSize, es) && AllFit(es) && Ready(t, encrypted, es)
    requires record == es[0].name + [0] + EntryFieldsBytes(t, es[0].fields)
    ensures FieldsFit(es[0].fields) && |es[0].data| > 0
    ensures 0 < |record| <= 8 + headerSize - |fixed| && 8 + headerSize <= es[0].fields.pointer
  {
    assert Names(es)[0] == es[0].name;
  }

  /** A record then data past the data start: writing them to the fixed part or to it zero-filled gives one stream. */
  lemma StartWrites(fixed: Bytes, m: nat, none: Bytes, record: Bytes, pointer: nat, data: Bytes)
    requires |data| > 0 && 0 < |record| <= m && |fixed| + m <= pointer && none == []
    ensures WriteAt(WriteAt(fixed, |fixed|, record), pointer, data)
            == WriteAt(WriteAt(fixed + Zeros(m) + none, |fixed|, record), pointer, data)
  {
    var l := WriteAt(WriteAt(fixed, |fixed|, record), pointer, data);
    var r := WriteAt(WriteAt(fixed + Zeros(m) + none, |fixed|, record), pointer, data);
    ZerosAreZero(m);
    assert |l| == |r|;
    forall k | 0 <= k < |l|
      ensures l[k] == r[k]
    {
    }
  }

  /** The builder reads its stream only through the first record's two writes. */
  lemma BuildRecordsSameStart(t: FarcType, encrypted: bool, headerSize: nat, entryCount: int, s1: Bytes, s2: Bytes,
                              cursor: nat, count: nat, es: seq<BuildEntry>, record: Bytes)
    requires t != FARC_FT && |es| >= 1 && FieldsFit(es[0].fields)
    requires record == es[0].name + [0] + EntryFieldsBytes(t, es[0].fields)
    requires WriteAt(WriteAt(s1, cursor, record), es[0].fields.pointer, es[0].data)
             == WriteAt(WriteAt(s2, cursor, record), es[0].fields.pointer, es[0].data)
    ensures BuildRecords(t, encrypted, headerSize, entryCount, s1, cursor, count, es)
            == BuildRecords(t, encrypted, headerSize, entryCount, s2, cursor, count, es)
  {
  }

  /**
    With ASCII names, and every stored file non-empty, the writer as it stands
    writes exactly what the writer in `Farc` writes.
   */
  lemma AsciiWriteStructAgrees(p: Primitives, t: FarcType, container: Flags, files: seq<InputFile>, alignment: nat)
    requires t != FARC_FT && alignment >= 1
    requires forall i :: 0 <= i < |files| ==> AsciiName(files[i].name)
    requires StoredNonEmpty(Layout(p, t, container, files, 8 + HeaderSize(t, FileNames(files)), alignment))
    ensures WriteStructAsWritten(p, t, container, files, alignment) == WriteStruct(p, t, container, files, alignment)
  {
    AsciiFilesAgree(t, files);
    var headerSize := HeaderSize(t, FileNames(files));
    var h := HeaderOf(container, files, alignment);
    var es := Layout(p, t, container, files, 8 + headerSize, alignment);
    LayoutFacts(p, t, container, files, alignment, headerSize, es);
    WritersAgreeOn(p, t, container, files, alignment, headerSize, h, es);
  }

  /** The two writers agree once the layout, the header and the `header_size` they share are named. */
  lemma WritersAgreeOn(p: Primitives, t: FarcType, container: Flags, files: seq<InputFile>, alignment: nat,
                       headerSize: nat, h: FixedHeader, es: seq<BuildEntry>)
    requires t != FARC_FT && alignment >= 1
    requires headerSize == HeaderSizeAsWritten(t, FileNames(files)) == HeaderSize(t, Names(es))
    requires h == HeaderOf(container, files, alignment)
    requires es == Layout(p, t, container, files, 8 + headerSize, alignment)
    requires Names(es) == FileNames(files)
    requires LaidOut(8 + HeaderSize(t, Names(es)), es) && StoredNonEmpty(es)
    ensures WriteStructAsWritten(p, t, container, files, alignment) == WriteStruct(p, t, container, files, alignment)
  {
    WriteStructBuilds(p, t, container, files, alignment, headerSize, h, es);
    BuildStructWithExact(t, h, es);
    AsWrittenVia(p, t, container, files, alignment, headerSize, h, es);
  }

  /** ASCII file names give the same `header_size` counted either way. */
  lemma AsciiFilesAgree(t: FarcType, files: seq<InputFile>)
    requires forall i :: 0 <= i < |files| ==> AsciiName(files[i].name)
    ensures HeaderSizeAsWritten(t, FileNames(files)) == HeaderSize(t, FileNames(files))
  {
    var names := FileNames(files);
    assert forall i :: 0 <= i < |names| ==> AsciiName(names[i]);
    AsciiNamesAgree(t, names);
  }

  /** `WriteStructAsWritten` unfolded once, on the layout after the stored `header_size`. */
  lemma AsWrittenVia(p: Primitives, t: FarcType, container: Flags, files: seq<InputFile>, alignment: nat,
                     headerSize: nat, h: FixedHeader, es: seq<BuildEntry>)
    requires t != FARC_FT && alignment >= 1
    requires headerSize == HeaderSizeAsWritten(t, FileNames(files))
    requires h == HeaderOf(container, files, alignment)
    requires es == Layout(p, t, container, files, 8 + headerSize, alignment)
    ensures WriteStructAsWritten(p, t, container, files, alignment) == BuildStructWith(t, h, headerSize, es)
  {
  }

  /** The files of `a` as the writer lays them out, when its type is known and writable. */
  function Prepared(p: Primitives, a: Archive, alignment: nat): seq<BuildEntry>
    requires alignment >= 1
  {
    match LookupType(a.farcType)
    case Some(t) =>
      if t == FARC_FT then []
      else Layout(p, t, ContainerFlags(t, a.flags), a.files, 8 + HeaderSize(t, FileNames(a.files)), alignment)
    case None => []
  }

  /**
    `to_bytes` as it stands agrees with `Farc.ToBytes` on archives with ASCII
    names whose files are all stored non-empty, so the round trip carries over.
   */
  lemma AsciiToBytesAgrees(p: Primitives, cryptoInstalled: bool, a: Archive, alignment: nat)
    requires alignment >= 1
    requires forall i :: 0 <= i < |a.files| ==> AsciiName(a.files[i].name)
    requires StoredNonEmpty(Prepared(p, a, alignment))
    ensures ToBytesAsWritten(p, cryptoInstalled, a, alignment) == ToBytes(p, cryptoInstalled, a, alignment)
  {
    if CheckFarcType(a.farcType, cryptoInstalled).Success? && Info(LookupType(a.farcType).value).writeSupport {
      WrittenAgree(p, cryptoInstalled, a, alignment);
    } else {
      RefusedAgree(p, cryptoInstalled, a, alignment);
    }
  }

  /** A type that fails the checks or cannot be written is refused the same way by both versions. */
  lemma RefusedAgree(p: Primitives, cryptoInstalled: bool, a: Archive, alignment: nat)
    requires alignment >= 1
    requires !(CheckFarcType(a.farcType, cryptoInstalled).Success? && Info(LookupType(a.farcType).value).writeSupport)
    ensures ToBytesAsWritten(p, cryptoInstalled, a, alignment) == ToBytes(p, cryptoInstalled, a, alignment)
  {
  }

  /** A type that passes the checks and can be written: the two writers agree under the ASCII conditions. */
  lemma WrittenAgree(p: Primitives, cryptoInstalled: bool, a: Archive, alignment: nat)
    requires alignment >= 1
    requires CheckFarcType(a.farcType, cryptoInstalled).Success? && Info(LookupType(a.farcType).value).writeSupport
    requires forall i :: 0 <= i < |a.files| ==> AsciiName(a.files[i].name)
    requires StoredNonEmpty(Prepared(p, a, alignment))
    ensures ToBytesAsWritten(p, cryptoInstalled, a, alignment) == ToBytes(p, cryptoInstalled, a, alignment)
  {
    var t := LookupType(a.farcType).value;
    var container := ContainerFlags(t, a.flags);
    ToBytesVia(p, cryptoInstalled, a, alignment, t, container);
    WrittenAgreeWith(p, cryptoInstalled, a, alignment, t, container);
  }

  /** `WrittenAgree` with the type and the container flags named. */
  lemma WrittenAgreeWith(p: Primitives, cryptoInstalled: bool, a: Archive, alignment: nat, t: FarcType, container: Flags)
    requires alignment >= 1 && t != FARC_FT
    requires forall i :: 0 <= i < |a.files| ==> AsciiName(a.files[i].name)
    requires StoredNonEmpty(Layout(p, t, container, a.files, 8 + HeaderSize(t, FileNames(a.files)), alignment))
    requires ToBytesAsWritten(p, cryptoInstalled, a, alignment) == WriteStructAsWritten(p, t, container, a.files, alignment)
    requires ToBytes(p, cryptoInstalled, a, alignment) == WriteStruct(p, t, container, a.files, alignment)
    ensures ToBytesAsWritten(p, cryptoInstalled, a, alignment) == ToBytes(p, cryptoInstalled, a, alignment)
  {
    AsciiWriteStructAgrees(p, t, container, a.files, alignment);
  }

  /** Both `to_bytes` versions for a type that passes the checks and can be written, unfolded once. */
  lemma ToBytesVia(p: Primitives, cryptoInstalled: bool, a: Archive, alignment: nat, t: FarcType, container: Flags)
    requires alignment >= 1
    requires CheckFarcType(a.farcType, cryptoInstalled).Success? && LookupType(a.farcType) == Some(t)
    requires Info(t).writeSupport && container == ContainerFlags(t, a.flags)
    requires StoredNonEmpty(Prepared(p, a, alignment))
    ensures t != FARC_FT
    ensures StoredNonEmpty(Layout(p, t, container, a.files, 8 + HeaderSize(t, FileNames(a.files)), alignment))
    ensures ToBytesAsWritten(p, cryptoInstalled, a, alignment) == WriteStructAsWritten(p, t, container, a.files, alignment)
    ensures ToBytes(p, cryptoInstalled, a, alignment) == WriteStruct(p, t, container, a.files, alignment)
  {
  }

  /**
    Reading back what `to_bytes` as it stands wrote, for ASCII names and files
    stored non-empty: the type name, every file in order, and the container flags,
    as `FarcProofs.ToBytesFromBytes` states for the model's writer.
   */
  lemma AsWrittenToBytesFromBytes(p: Primitives, cryptoInstalled: bool, a: Archive, alignment: nat)
    requires Lawful(p) && alignment >= 1
    requires ToBytesAsWritten(p, cryptoInstalled, a, alignment).Success?
    requires forall i :: 0 <= i < |a.files| ==> AsciiName(a.files[i].name)
    requires StoredNonEmpty(Prepared(p, a, alignment))
    requires DistinctNames(a.files) && forall i :: 0 <= i < |a.files| ==> NulFree(a.files[i].name)
    requires var t := LookupType(a.farcType).value;
             forall i :: 0 <= i < |a.files| ==>
               Recoverable(t, ContainerFlags(t, a.flags), ResolveFlags(a.files[i].flags, ContainerFlags(t, a.flags)))
    requires a.farcType == "FARC" && ContainerFlags(FARC, a.flags).encrypted ==> IsPowerOfTwo(alignment)
    ensures FromBytes(p, cryptoInstalled, ToBytesAsWritten(p, cryptoInstalled, a, alignment).value)
            == Success(Expected(p, LookupType(a.farcType).value, a))
  {
    AsciiToBytesAgrees(p, cryptoInstalled, a, alignment);
    ToBytesFromBytes(p, cryptoInstalled, a, alignment);
  }
}

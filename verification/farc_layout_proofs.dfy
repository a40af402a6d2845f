/**
  Round-trip proofs for the archive struct layouts: a table and data written by the
  builder parse back record by record.
 */
module FarcLayoutProofs {
  import opened Wrappers
  import opened Bytes
  import opened FarcFormats

  /** A NUL-free name followed by a NUL is one CString. */
  lemma {:induction false} FindNulAfterName(s: Bytes, cursor: nat, name: Bytes)
    requires cursor + |name| < |s| && s[cursor..cursor + |name|] == name && s[cursor + |name|] == 0
    requires NulFree(name)
    ensures FindNul(s, cursor) == Some(cursor + |name|)
    decreases |name|
  {
    if |name| > 0 {
      assert s[cursor] == name[0];
      assert s[cursor + 1..cursor + 1 + |name[1..]|] == name[1..];
      FindNulAfterName(s, cursor + 1, name[1..]);
    }
  }

  /** A NUL-free name written at `cursor` with a NUL after it ends at that NUL; what follows reads back. */
  lemma NameAt(s: Bytes, cursor: nat, name: Bytes, rest: Bytes)
    requires NulFree(name)
    requires cursor + |name| + 1 + |rest| <= |s|
    requires s[cursor..cursor + |name| + 1 + |rest|] == name + [0] + rest
    ensures s[cursor..cursor + |name|] == name
    ensures FindNul(s, cursor) == Some(cursor + |name|)
    ensures s[cursor + |name| + 1..cursor + |name| + 1 + |rest|] == rest
  {
    var rec := name + [0] + rest;
    ConcatParts(name, [0], rest);
    SubSlice(s, cursor, rec, 0, |name|);
    SubSlice(s, cursor, rec, |name| + 1, |rec|);
    assert s[cursor + |name|] == rec[|name|];
    FindNulAfterName(s, cursor, name);
  }

  /** A record whose name, fields and data each read back parses to them. */
  lemma ParseRecordFromParts(t: FarcType, s: Bytes, h: FixedHeader, cursor: nat, nul: nat,
                             fields: EntryFields, data: Bytes)
    requires FindNul(s, cursor) == Some(nul)
    requires ParseEntryFields(t, s, nul + 1) == Success(fields)
    requires Read(s, fields.pointer, DataSpan(t, fields, h.flags.encrypted, |s|)) == Some(data)
    ensures ParseRecord(t, s, h, cursor)
            == Success((RawEntry(s[cursor..nul], fields, data), nul + 1 + Info(t).filesHeaderFieldsSize))
  {
  }

  /** The name and fields of a record written at `cursor` read back. */
  lemma RecordFieldsAt(t: FarcType, s: Bytes, cursor: nat, e: BuildEntry)
    requires FieldsFit(e.fields) && NulFree(e.name)
    requires cursor + RecordSize(t, e.name) <= |s|
    requires s[cursor..cursor + RecordSize(t, e.name)] == e.name + [0] + EntryFieldsBytes(t, e.fields)
    ensures FindNul(s, cursor) == Some(cursor + |e.name|)
    ensures s[cursor..cursor + |e.name|] == e.name
    ensures ParseEntryFields(t, s, cursor + |e.name| + 1) == Success(NormalizeFields(t, e.fields))
  {
    NameAt(s, cursor, e.name, EntryFieldsBytes(t, e.fields));
    EntryFieldsRoundTrip(t, e.fields, s, cursor + |e.name| + 1);
  }

  /** One record written at `cursor`, with its data readable at its pointer, parses back. */
  lemma ParseRecordAt(t: FarcType, s: Bytes, h: FixedHeader, cursor: nat, e: BuildEntry)
    requires FieldsFit(e.fields) && NulFree(e.name)
    requires cursor + RecordSize(t, e.name) <= |s|
    requires s[cursor..cursor + RecordSize(t, e.name)] == e.name + [0] + EntryFieldsBytes(t, e.fields)
    requires Read(s, e.fields.pointer, DataSpan(t, e.fields, h.flags.encrypted, |s|)) == Some(e.data)
    ensures ParseRecord(t, s, h, cursor)
            == Success((RawEntry(e.name, NormalizeFields(t, e.fields), e.data), cursor + RecordSize(t, e.name)))
  {
    RecordFieldsAt(t, s, cursor, e);
    DataSpanNormalized(t, e.fields, h.flags.encrypted, |s|);
    ParseRecordFromParts(t, s, h, cursor, cursor + |e.name|, NormalizeFields(t, e.fields), e.data);
  }

  /** One record of the table sits at `cursor`, and its data is readable at its pointer. */
  predicate RecordAt(t: FarcType, s: Bytes, h: FixedHeader, cursor: nat, e: BuildEntry) {
    && FieldsFit(e.fields) && NulFree(e.name)
    && cursor + RecordSize(t, e.name) <= |s|
    && s[cursor..cursor + RecordSize(t, e.name)] == e.name + [0] + EntryFieldsBytes(t, e.fields)
    && Read(s, e.fields.pointer, DataSpan(t, e.fields, h.flags.encrypted, |s|)) == Some(e.data)
  }

  /** The records `es` one after another from `cursor` on. */
  predicate RecordsAt(t: FarcType, s: Bytes, h: FixedHeader, cursor: nat, es: seq<BuildEntry>)
    decreases |es|
  {
    |es| == 0 || (RecordAt(t, s, h, cursor, es[0]) && RecordsAt(t, s, h, cursor + RecordSize(t, es[0].name), es[1..]))
  }

  /** Bytes the records `es` occupy in the table. */
  function EntriesSize(t: FarcType, es: seq<BuildEntry>): (n: nat)
    ensures |es| > 0 ==> n >= RecordSize(t, es[0].name)
    decreases |es|
  {
    if |es| == 0 then 0 else RecordSize(t, es[0].name) + EntriesSize(t, es[1..])
  }

  lemma {:induction false} EntriesSizeNames(t: FarcType, es: seq<BuildEntry>)
    ensures EntriesSize(t, es) == TableSize(t, Names(es))
    decreases |es|
  {
    if |es| > 0 {
      assert Names(es)[1..] == Names(es[1..]);
      EntriesSizeNames(t, es[1..]);
    }
  }

  /** A table written by `TableBytes` at `cursor`, with every entry's data readable, holds its records there. */
  lemma {:induction false} TableBytesRecords(t: FarcType, s: Bytes, h: FixedHeader, cursor: nat, es: seq<BuildEntry>)
    requires AllFit(es) && (forall i :: 0 <= i < |es| ==> NulFree(es[i].name))
    requires cursor + |TableBytes(t, es)| <= |s| && s[cursor..cursor + |TableBytes(t, es)|] == TableBytes(t, es)
    requires forall i :: 0 <= i < |es| ==>
               Read(s, es[i].fields.pointer, DataSpan(t, es[i].fields, h.flags.encrypted, |s|)) == Some(es[i].data)
    ensures RecordsAt(t, s, h, cursor, es)
    decreases |es|
  {
    if |es| > 0 {
      var size := RecordSize(t, es[0].name);
      TableBytesFirst(t, s, h, cursor, es);
      forall i | 0 <= i < |es| - 1
        ensures NulFree(es[1..][i].name)
        ensures Read(s, es[1..][i].fields.pointer, DataSpan(t, es[1..][i].fields, h.flags.encrypted, |s|))
                == Some(es[1..][i].data)
      {
        assert es[1..][i] == es[i + 1];
      }
      TableBytesRecords(t, s, h, cursor + size, es[1..]);
    }
  }

  /** A table written at `cursor` holds its first record there and the table of the rest after it. */
  lemma TableBytesSplit(t: FarcType, s: Bytes, cursor: nat, es: seq<BuildEntry>)
    requires |es| > 0 && AllFit(es)
    requires cursor + |TableBytes(t, es)| <= |s| && s[cursor..cursor + |TableBytes(t, es)|] == TableBytes(t, es)
    ensures var size := RecordSize(t, es[0].name);
            && cursor + size <= |s|
            && s[cursor..cursor + size] == es[0].name + [0] + EntryFieldsBytes(t, es[0].fields)
            && s[cursor + size..cursor + |TableBytes(t, es)|] == TableBytes(t, es[1..])
  {
    var rec := es[0].name + [0] + EntryFieldsBytes(t, es[0].fields);
    assert TableBytes(t, es) == rec + TableBytes(t, es[1..]);
    SplitAt(s, cursor, TableBytes(t, es), |rec|, rec, TableBytes(t, es[1..]));
  }

  /** The first record of a table written at `cursor`, and the table of the rest after it. */
  lemma TableBytesFirst(t: FarcType, s: Bytes, h: FixedHeader, cursor: nat, es: seq<BuildEntry>)
    requires |es| > 0 && AllFit(es) && NulFree(es[0].name)
    requires cursor + |TableBytes(t, es)| <= |s| && s[cursor..cursor + |TableBytes(t, es)|] == TableBytes(t, es)
    requires Read(s, es[0].fields.pointer, DataSpan(t, es[0].fields, h.flags.encrypted, |s|)) == Some(es[0].data)
    ensures RecordAt(t, s, h, cursor, es[0])
    ensures var next := cursor + RecordSize(t, es[0].name);
            next + |TableBytes(t, es[1..])| <= |s| && s[next..next + |TableBytes(t, es[1..])|] == TableBytes(t, es[1..])
  {
    TableBytesSplit(t, s, cursor, es);
  }

  /**
    Records `es` are at `cursor` and end exactly at `8 + header_size`; `count`
    records came before them.
   */
  predicate TableInStream(t: FarcType, s: Bytes, headerSize: nat, h: FixedHeader,
                          es: seq<BuildEntry>, cursor: nat, count: nat) {
    && |es| >= 1 && RecordsAt(t, s, h, cursor, es)
    && cursor + EntriesSize(t, es) == 8 + headerSize
    && (t == FARC_FT ==> count + |es| <= h.entryCount)
  }

  /** The first record of a table in the stream parses back. */
  lemma FirstRecordParses(t: FarcType, s: Bytes, h: FixedHeader, e: BuildEntry, cursor: nat)
    requires RecordAt(t, s, h, cursor, e)
    ensures ParseRecord(t, s, h, cursor)
            == Success((RawEntry(e.name, NormalizeFields(t, e.fields), e.data), cursor + RecordSize(t, e.name)))
  {
    ParseRecordAt(t, s, h, cursor, e);
  }

  /** One unfolding of the table parse when the first record ends it. */
  lemma ParseEntriesLastStep(t: FarcType, s: Bytes, headerSize: nat, h: FixedHeader, cursor: nat, count: nat,
                             raw: RawEntry, next: nat)
    requires ParseRecord(t, s, h, cursor) == Success((raw, next))
    requires TableDone(t, headerSize, h.entryCount, next, count + 1)
    ensures ParseEntries(Corrected, t, s, headerSize, h, cursor, count) == Success([raw])
  {
  }

  /** One unfolding of the table parse when more records follow the first. */
  lemma ParseEntriesConsStep(t: FarcType, s: Bytes, headerSize: nat, h: FixedHeader, cursor: nat, count: nat,
                             raw: RawEntry, next: nat, rest: seq<RawEntry>)
    requires ParseRecord(t, s, h, cursor) == Success((raw, next))
    requires !TableDone(t, headerSize, h.entryCount, next, count + 1)
    requires ParseEntries(Corrected, t, s, headerSize, h, next, count + 1) == Success(rest)
    ensures ParseEntries(Corrected, t, s, headerSize, h, cursor, count) == Success([raw] + rest)
  {
  }

  /**
    A table laid out at `cursor`, ending at `8 + header_size`, with each entry's data
    at its pointer, parses back to exactly those records under the corrected cursor
    rule, for every type.
   */
  lemma {:induction false} ParseTableRoundTrip(t: FarcType, s: Bytes, headerSize: nat, h: FixedHeader,
                                               es: seq<BuildEntry>, cursor: nat, count: nat)
    requires TableInStream(t, s, headerSize, h, es, cursor, count)
    ensures ParseEntries(Corrected, t, s, headerSize, h, cursor, count) == Success(Raw(t, es))
    decreases |es|
  {
    var e := es[0];
    var next := cursor + RecordSize(t, e.name);
    var raw := RawEntry(e.name, NormalizeFields(t, e.fields), e.data);
    FirstRecordParses(t, s, h, e, cursor);
    if |es| == 1 {
      assert EntriesSize(t, es[1..]) == 0 && Raw(t, es[1..]) == [];
      assert TableDone(t, headerSize, h.entryCount, next, count + 1);
      ParseEntriesLastStep(t, s, headerSize, h, cursor, count, raw, next);
      assert Raw(t, es) == [raw] + [] == [raw];
    } else {
      assert !TableDone(t, headerSize, h.entryCount, next, count + 1);
      assert TableInStream(t, s, headerSize, h, es[1..], next, count + 1);
      ParseTableRoundTrip(t, s, headerSize, h, es[1..], next, count + 1);
      ParseEntriesConsStep(t, s, headerSize, h, cursor, count, raw, next, Raw(t, es[1..]));
    }
  }

  /** For the written types the data span does not depend on where the stream ends. */
  lemma DataSpanWritable(t: FarcType, e: EntryFields, containerEncrypted: bool, streamEnd: nat)
    requires t != FARC_FT
    ensures DataSpan(t, e, containerEncrypted, streamEnd) == DataSpan(t, e, containerEncrypted, 0)
  {
  }

  /** With a data region stored at `start`, every entry's data reads back at its pointer. */
  lemma RegionRead(image: Bytes, start: nat, es: seq<BuildEntry>, i: nat)
    requires LaidOut(start, es) && i < |es|
    requires start <= |image| && image[start..] == DataRegion(start, es)
    ensures Read(image, es[i].fields.pointer, |es[i].data|) == Some(es[i].data)
  {
    var region := DataRegion(start, es);
    DataRegionHolds(start, es, i);
    var p := es[i].fields.pointer;
    assert image[start..start + |region|] == region;
    SubSlice(image, start, region, p - start, p - start + |es[i].data|);
  }

  /** Every entry's data sits at its pointer in the built image. */
  lemma BuiltDataReadable(t: FarcType, h: FixedHeader, es: seq<BuildEntry>, i: nat)
    requires t != FARC_FT && AllFit(es) && InS32(h.alignment)
    requires HeaderSize(t, Names(es)) < 0x1_0000_0000
    requires LaidOut(8 + HeaderSize(t, Names(es)), es)
    requires CheckEntries(t, h.flags.encrypted, es).Success?
    requires i < |es|
    ensures var image := StructImage(t, h, es);
            Read(image, es[i].fields.pointer, DataSpan(t, es[i].fields, h.flags.encrypted, |image|))
            == Some(es[i].data)
  {
    var image := StructImage(t, h, es);
    RegionRead(image, 8 + HeaderSize(t, Names(es)), es, i);
    DataSpanWritable(t, es[i].fields, h.flags.encrypted, |image|);
  }

  /** A struct whose header, fixed fields and table each parse back parses to them. */
  lemma ParseStructFromParts(t: FarcType, s: Bytes, headerSize: nat, h: FixedHeader, es: seq<RawEntry>)
    requires 8 <= |s| && s[..4] == Signature(t) && ReadU32BE(s, 4) == headerSize
    requires ParseFixedHeader(t, s) == Success(h)
    requires ParseEntries(Corrected, t, s, headerSize, h, 8 + Info(t).fixedHeaderSize, 0) == Success(es)
    ensures ParseStruct(Corrected, t, s) == Success(ParsedStruct(headerSize, h, es))
  {
  }

  /** The parse sees each entry's data whichever header flags it normalises to. */
  lemma BuiltDataReadableAll(t: FarcType, h: FixedHeader, es: seq<BuildEntry>)
    requires t != FARC_FT && AllFit(es) && InS32(h.alignment)
    requires HeaderSize(t, Names(es)) < 0x1_0000_0000
    requires LaidOut(8 + HeaderSize(t, Names(es)), es)
    requires CheckEntries(t, h.flags.encrypted, es).Success?
    ensures var image := StructImage(t, h, es);
            forall i :: 0 <= i < |es| ==>
              Read(image, es[i].fields.pointer, DataSpan(t, es[i].fields, Normalize(t, h).flags.encrypted, |image|))
              == Some(es[i].data)
  {
    var image := StructImage(t, h, es);
    forall i | 0 <= i < |es|
      ensures Read(image, es[i].fields.pointer, DataSpan(t, es[i].fields, Normalize(t, h).flags.encrypted, |image|))
              == Some(es[i].data)
    {
      BuiltDataReadable(t, h, es, i);
      DataSpanWritable(t, es[i].fields, h.flags.encrypted, |image|);
      DataSpanWritable(t, es[i].fields, Normalize(t, h).flags.encrypted, |image|);
    }
  }

  /** The table of a struct image holds every record, with its data readable, up to `8 + header_size`. */
  lemma StructImageTable(t: FarcType, h: FixedHeader, es: seq<BuildEntry>)
    requires t != FARC_FT && |es| >= 1 && AllFit(es) && InS32(h.alignment)
    requires HeaderSize(t, Names(es)) < 0x1_0000_0000
    requires LaidOut(8 + HeaderSize(t, Names(es)), es)
    requires CheckEntries(t, h.flags.encrypted, es).Success?
    requires forall i :: 0 <= i < |es| ==> NulFree(es[i].name)
    ensures TableInStream(t, StructImage(t, h, es), HeaderSize(t, Names(es)), Normalize(t, h), es,
                          8 + Info(t).fixedHeaderSize, 0)
  {
    var image := StructImage(t, h, es);
    BuiltDataReadableAll(t, h, es);
    var cursor := 8 + Info(t).fixedHeaderSize;
    EntriesSizeNames(t, es);
    TableBytesLength(t, es);
    assert image[cursor..cursor + |TableBytes(t, es)|] == TableBytes(t, es);
    TableBytesRecords(t, image, Normalize(t, h), cursor, es);
  }

  /** The image of a struct parses back to its header size, fixed fields and records. */
  lemma StructImageRoundTrip(t: FarcType, h: FixedHeader, es: seq<BuildEntry>)
    requires t != FARC_FT && |es| >= 1 && AllFit(es) && InS32(h.alignment)
    requires HeaderSize(t, Names(es)) < 0x1_0000_0000
    requires LaidOut(8 + HeaderSize(t, Names(es)), es)
    requires CheckEntries(t, h.flags.encrypted, es).Success?
    requires forall i :: 0 <= i < |es| ==> NulFree(es[i].name)
    ensures ParseStruct(Corrected, t, StructImage(t, h, es))
            == Success(ParsedStruct(HeaderSize(t, Names(es)), Normalize(t, h), Raw(t, es)))
  {
    StructImageHeader(t, h, es);
    StructImageEntries(t, h, es);
    ParseStructFromParts(t, StructImage(t, h, es), HeaderSize(t, Names(es)), Normalize(t, h), Raw(t, es));
  }

  /** The magic, `header_size` and fixed fields of the image read back. */
  lemma StructImageHeader(t: FarcType, h: FixedHeader, es: seq<BuildEntry>)
    requires t != FARC_FT && AllFit(es) && InS32(h.alignment)
    requires HeaderSize(t, Names(es)) < 0x1_0000_0000
    requires LaidOut(8 + HeaderSize(t, Names(es)), es)
    ensures var image := StructImage(t, h, es);
            && 8 <= |image| && image[..4] == Signature(t) && ReadU32BE(image, 4) == HeaderSize(t, Names(es))
            && ParseFixedHeader(t, image) == Success(Normalize(t, h))
  {
    FixedHeaderRoundTrip(t, h, StructImage(t, h, es));
  }

  /** The record table of the image parses back to the entries, in order. */
  lemma StructImageEntries(t: FarcType, h: FixedHeader, es: seq<BuildEntry>)
    requires t != FARC_FT && |es| >= 1 && AllFit(es) && InS32(h.alignment)
    requires HeaderSize(t, Names(es)) < 0x1_0000_0000
    requires LaidOut(8 + HeaderSize(t, Names(es)), es)
    requires CheckEntries(t, h.flags.encrypted, es).Success?
    requires forall i :: 0 <= i < |es| ==> NulFree(es[i].name)
    ensures ParseEntries(Corrected, t, StructImage(t, h, es), HeaderSize(t, Names(es)), Normalize(t, h),
                         8 + Info(t).fixedHeaderSize, 0) == Success(Raw(t, es))
  {
    StructImageTable(t, h, es);
    ParseTableRoundTrip(t, StructImage(t, h, es), HeaderSize(t, Names(es)), Normalize(t, h), es,
                        8 + Info(t).fixedHeaderSize, 0);
  }

  /**
    Parsing what `BuildStruct` wrote gives back `header_size`, the fixed fields as the
    type stores them and every record with its data, in order.
   */
  lemma BuildParseRoundTrip(t: FarcType, h: FixedHeader, es: seq<BuildEntry>)
    requires t != FARC_FT
    requires LaidOut(8 + HeaderSize(t, Names(es)), es)
    requires forall i :: 0 <= i < |es| ==> NulFree(es[i].name)
    requires BuildStruct(t, h, es).Success?
    ensures ParseStruct(Corrected, t, BuildStruct(t, h, es).value)
            == Success(ParsedStruct(HeaderSize(t, Names(es)), Normalize(t, h), Raw(t, es)))
  {
    StructImageRoundTrip(t, h, es);
  }
}

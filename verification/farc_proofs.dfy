/**
  What reading back a written archive yields.  Every name comes back in order; the
  data comes back as given, except that FARC data stored encrypted but not
  compressed keeps the zero padding it was encrypted with, since the reader never
  strips it.
 */
module FarcProofs {

  import opened Wrappers
  import opened Bytes
  import opened Align
  import opened Primitives
  import opened FarcFormats
  import opened FarcFtHelpers
  import opened FarcLayoutProofs
  import opened Farc

  /**
    A file whose flags the reader can undo: under a forced-compression type it is
    compressed, it is compressed only if the container says so, and it is encrypted
    whenever the container's encryption applies.
   */
  predicate Recoverable(t: FarcType, container: Flags, flags: Flags) {
    && (Info(t).compressionSupport ==> (Info(t).compressionForced ==> flags.compressed)
                                       && (flags.compressed ==> container.compressed))
    && (container.encrypted && Info(t).encryptionType.Some? ==> flags.encrypted)
  }

  /** The data the reader returns for a file written with these flags. */
  function ExpectedData(p: Primitives, t: FarcType, container: Flags, flags: Flags, data: Bytes): Bytes {
    if t == FARC && container.encrypted && !(flags.compressed && |p.gzip(data)| < |data|) then Pad16(data)
    else data
  }

  function ExpectedFiles(p: Primitives, t: FarcType, container: Flags, files: seq<InputFile>): (d: Dict)
    ensures Keys(d) == FileNames(files)
  {
    if |files| == 0 then []
    else
      [(files[0].name, ExpectedData(p, t, container, ResolveFlags(files[0].flags, container), files[0].data))]
      + ExpectedFiles(p, t, container, files[1..])
  }

  /** The dictionary the reader returns for an archive of type `t`. */
  function Expected(p: Primitives, t: FarcType, a: Archive): Decoded {
    var container := ContainerFlags(t, a.flags);
    Decoded(a.farcType, ExpectedFiles(p, t, container, a.files),
            if Info(t).hasFlags then Some(container) else None)
  }

  /** Decompression of a whole gzip stream, with nothing after it. */
  lemma GunzipGzip(p: Primitives, x: Bytes)
    requires Lawful(p)
    ensures p.gunzip(p.gzip(x)) == Some(x)
  {
    assert p.gzip(x) + [] == p.gzip(x);
  }

  /** Decrypting a padded, encrypted block sequence gives back the padded data. */
  lemma DecryptPadded(p: Primitives, x: Bytes)
    requires Lawful(p)
    ensures p.aesEcbDecrypt(DtKey(), p.aesEcbEncrypt(DtKey(), Pad16(x))) == Pad16(x)
  {
  }

  /** Decompression ignores the zero padding after a gzip stream. */
  lemma GunzipPadded(p: Primitives, x: Bytes)
    requires Lawful(p)
    ensures p.gunzip(Pad16(p.gzip(x))) == Some(x)
  {
    var gz := p.gzip(x);
    var pad := Pad16(gz);
    assert pad == gz + pad[|gz|..];
  }

  /**
    The compression stage can be undone: a file it leaves flagged compressed
    decompresses to the data, any other file is stored as the data.  Unless the
    type forces compression, the stored bytes are never longer than the data.
   */
  lemma CompressRecovers(p: Primitives, t: FarcType, flags: Flags, data: Bytes)
    requires Lawful(p)
    ensures var r := Compress(p, t, flags, data);
            && (Info(t).compressionSupport && r.flags.compressed ==> p.gunzip(r.data) == Some(data))
            && (!(Info(t).compressionSupport && r.flags.compressed) ==> r.data == data)
            && (!Info(t).compressionForced ==> |r.data| <= |data|)
  {
    GunzipGzip(p, data);
  }

  /**
    The encryption stage can be undone: under the DT scheme, decrypting with the
    fixed key gives the data followed by zeros up to a multiple of 16, and the
    stored bytes are that long; a file the stage leaves alone is stored as the data.
   */
  lemma EncryptRecovers(p: Primitives, t: FarcType, container: Flags, flags: Flags, data: Bytes)
    requires Lawful(p)
    ensures var r := Encrypt(p, t, container, flags, data);
            && (container.encrypted && Info(t).encryptionType == Some(DT) && flags.encrypted
                ==> && p.aesEcbDecrypt(DtKey(), r)[..|data|] == data
                    && |p.aesEcbDecrypt(DtKey(), r)| == |r| == RoundUp(|data|, 16))
            && (!(container.encrypted && Info(t).encryptionType.Some? && flags.encrypted) ==> r == data)
  {
    DecryptPadded(p, data);
  }

  /**
    A file's own flags dictionary decides whether the reader, which knows only the
    container's flags, can recover it: it must not ask for compression the
    container lacks, refuse compression the type forces, or opt out of the
    container's encryption.
   */
  lemma ResolvedRecoverable(t: FarcType, d: Option<FlagsDict>, fd: FlagsDict)
    ensures var c := ContainerFlags(t, d);
            Recoverable(t, c, ResolveFlags(Some(fd), c))
            <==> && (Info(t).compressionSupport && fd.compressed == Some(true) ==> c.compressed)
                 && (Info(t).compressionForced ==> fd.compressed != Some(false))
                 && (c.encrypted && Info(t).encryptionType.Some? ==> fd.encrypted != Some(false))
  {
  }

  /** A file without a flags dictionary of its own can always be recovered. */
  lemma UnflaggedRecoverable(t: FarcType, d: Option<FlagsDict>)
    ensures Recoverable(t, ContainerFlags(t, d), ResolveFlags(None, ContainerFlags(t, d)))
  {
  }

  /** One written record decodes to the expected data. */
  lemma DecodeOne(p: Primitives, t: FarcType, container: Flags, dc: Flags, f: InputFile, pointer: nat)
    requires Lawful(p) && t != FARC_FT
    requires Info(t).hasFlags ==> dc == container
    requires Recoverable(t, container, ResolveFlags(f.flags, container))
    ensures var e := EntryOf(p, t, container, f, pointer);
            DecodeEntry(p, t, dc, RawEntry(e.name, NormalizeFields(t, e.fields), e.data))
            == Success(ExpectedData(p, t, container, ResolveFlags(f.flags, container), f.data))
  {
    var fl := ResolveFlags(f.flags, container);
    var c := Compress(p, t, fl, f.data);
    match t
    case FArc =>
    case FArC =>
      GunzipGzip(p, f.data);
    case FARC =>
      if c.flags.compressed {
        if container.encrypted {
          DecryptPadded(p, c.data);
          GunzipPadded(p, f.data);
        } else {
          GunzipGzip(p, f.data);
        }
      } else if container.encrypted {
        DecryptPadded(p, c.data);
      }
  }

  /** The `i`-th raw record is the `i`-th built record with its fields as the parse normalises them. */
  lemma {:induction false} RawAt(t: FarcType, es: seq<BuildEntry>, i: nat)
    requires i < |es|
    ensures Raw(t, es)[i] == RawEntry(es[i].name, NormalizeFields(t, es[i].fields), es[i].data)
  {
    if i > 0 {
      assert Raw(t, es)[i] == Raw(t, es[1..])[i - 1];
      RawAt(t, es[1..], i - 1);
    }
  }

  /** The `i`-th laid-out record is the `i`-th file prepared for its pointer. */
  lemma {:induction false} LayoutAt(p: Primitives, t: FarcType, container: Flags, files: seq<InputFile>,
                                    pos: nat, alignment: nat, i: nat)
    requires alignment >= 1 && i < |files|
    ensures var es := Layout(p, t, container, files, pos, alignment);
            es[i] == EntryOf(p, t, container, files[i], es[i].fields.pointer)
    decreases i
  {
    if i > 0 {
      var es := Layout(p, t, container, files, pos, alignment);
      var e := es[0];
      var rest := Layout(p, t, container, files[1..], e.fields.pointer + |e.data|, alignment);
      assert es[i] == rest[i - 1];
      LayoutAt(p, t, container, files[1..], e.fields.pointer + |e.data|, alignment, i - 1);
    }
  }

  /** After storing the first file's data, no later file's name is in the dictionary yet. */
  lemma FreshAfterFirst(acc: Dict, files: seq<InputFile>, data: Bytes)
    requires |files| >= 1 && DistinctNames(files)
    requires forall i :: 0 <= i < |files| ==> Lookup(acc, files[i].name).None?
    ensures forall i :: 0 <= i < |files| - 1 ==> Lookup(acc + [(files[0].name, data)], files[1..][i].name).None?
  {
    forall i | 0 <= i < |files| - 1
      ensures Lookup(acc + [(files[0].name, data)], files[1..][i].name).None?
    {
      assert files[1..][i] == files[i + 1];
      LookupAppend(acc, files[0].name, data, files[i + 1].name);
    }
  }

  /** The `i`-th record has the `i`-th file's name and decodes to that file's expected data. */
  predicate DecodesTo(p: Primitives, t: FarcType, dc: Flags, container: Flags,
                      raws: seq<RawEntry>, files: seq<InputFile>, i: nat)
    requires i < |raws| && i < |files|
  {
    && raws[i].name == files[i].name
    && DecodeEntry(p, t, dc, raws[i])
       == Success(ExpectedData(p, t, container, ResolveFlags(files[i].flags, container), files[i].data))
  }

  /** Decoding a first record whose name is new appends it to the dictionary. */
  lemma DecodeEntriesFirst(p: Primitives, t: FarcType, dc: Flags, raws: seq<RawEntry>, acc: Dict, data: Bytes)
    requires |raws| >= 1 && DistinctKeys(acc) && Lookup(acc, raws[0].name).None?
    requires DecodeEntry(p, t, dc, raws[0]) == Success(data)
    ensures DistinctKeys(acc + [(raws[0].name, data)])
    ensures DecodeEntries(p, t, dc, raws, acc) == DecodeEntries(p, t, dc, raws[1..], acc + [(raws[0].name, data)])
  {
    assert Put(acc, raws[0].name, data) == acc + [(raws[0].name, data)];
  }

  /** What holds of every record and file holds of the ones after the first. */
  lemma DecodesToRest(p: Primitives, t: FarcType, dc: Flags, container: Flags,
                      raws: seq<RawEntry>, files: seq<InputFile>)
    requires |raws| == |files| >= 1
    requires forall i :: 0 <= i < |raws| ==> DecodesTo(p, t, dc, container, raws, files, i)
    ensures forall i :: 0 <= i < |raws| - 1 ==> DecodesTo(p, t, dc, container, raws[1..], files[1..], i)
  {
    forall i | 0 <= i < |raws| - 1
      ensures DecodesTo(p, t, dc, container, raws[1..], files[1..], i)
    {
      assert DecodesTo(p, t, dc, container, raws, files, i + 1);
      assert raws[1..][i] == raws[i + 1] && files[1..][i] == files[i + 1];
    }
  }

  /** The dictionary so far followed by the first file's item and the rest's items. */
  lemma ExpectedFilesCons(p: Primitives, t: FarcType, container: Flags, files: seq<InputFile>, acc: Dict)
    requires |files| >= 1
    ensures var f := files[0];
            var item := (f.name, ExpectedData(p, t, container, ResolveFlags(f.flags, container), f.data));
            (acc + [item]) + ExpectedFiles(p, t, container, files[1..]) == acc + ExpectedFiles(p, t, container, files)
  {
  }

  /**
    Records whose names are the files' names and whose data decodes to each file's
    expected data are stored, in order, after what the dictionary held.
   */
  lemma {:induction false} DecodeEntriesInOrder(p: Primitives, t: FarcType, dc: Flags, container: Flags,
                                                raws: seq<RawEntry>, files: seq<InputFile>, acc: Dict)
    requires |raws| == |files|
    requires forall i :: 0 <= i < |raws| ==> DecodesTo(p, t, dc, container, raws, files, i)
    requires DistinctNames(files) && DistinctKeys(acc)
    requires forall i :: 0 <= i < |files| ==> Lookup(acc, files[i].name).None?
    ensures DecodeEntries(p, t, dc, raws, acc) == Success(acc + ExpectedFiles(p, t, container, files))
    decreases |raws|
  {
    if |raws| == 0 {
      assert acc + [] == acc;
    } else {
      var f := files[0];
      var data := ExpectedData(p, t, container, ResolveFlags(f.flags, container), f.data);
      assert DecodesTo(p, t, dc, container, raws, files, 0);
      DecodeEntriesFirst(p, t, dc, raws, acc, data);
      FreshAfterFirst(acc, files, data);
      DecodesToRest(p, t, dc, container, raws, files);
      DecodeEntriesInOrder(p, t, dc, container, raws[1..], files[1..], acc + [(f.name, data)]);
      ExpectedFilesCons(p, t, container, files, acc);
    }
  }

  /** The records of a layout decode, in order, to the expected files. */
  lemma DecodeLayout(p: Primitives, t: FarcType, container: Flags, dc: Flags,
                     files: seq<InputFile>, pos: nat, alignment: nat)
    requires Lawful(p) && t != FARC_FT && alignment >= 1
    requires Info(t).hasFlags ==> dc == container
    requires forall i :: 0 <= i < |files| ==> Recoverable(t, container, ResolveFlags(files[i].flags, container))
    requires DistinctNames(files)
    ensures DecodeEntries(p, t, dc, Raw(t, Layout(p, t, container, files, pos, alignment)), [])
            == Success(ExpectedFiles(p, t, container, files))
  {
    var es := Layout(p, t, container, files, pos, alignment);
    var raws := Raw(t, es);
    forall i | 0 <= i < |files|
      ensures DecodesTo(p, t, dc, container, raws, files, i)
    {
      RawAt(t, es, i);
      LayoutAt(p, t, container, files, pos, alignment, i);
      DecodeOne(p, t, container, dc, files[i], es[i].fields.pointer);
    }
    DecodeEntriesInOrder(p, t, dc, container, raws, files, []);
    assert [] + ExpectedFiles(p, t, container, files) == ExpectedFiles(p, t, container, files);
  }

  /** A written image is not taken for an FT archive: its magic differs, or it is a DT header the heuristic accepts. */
  lemma WrittenIsNotFt(t: FarcType, h: FixedHeader, es: seq<BuildEntry>)
    requires t != FARC_FT && LaidOut(8 + HeaderSize(t, Names(es)), es)
    requires BuildStruct(t, h, es).Success?
    requires t == FARC && h.flags.encrypted ==> h.alignment >= 1 && IsPowerOfTwo(h.alignment)
    ensures IsFtFarc(BuildStruct(t, h, es).value) == Success(false)
  {
    var image := BuildStruct(t, h, es).value;
    if t == FARC {
      assert DtHeaderAt(image, h);
      if h.flags.encrypted {
        PowerOfTwoAlignedIsDt(image, h);
      } else {
        DtHeaderClassified(image, h);
      }
    } else {
      assert ReadUpTo(image, 0, 4) == Signature(t) == Ascii(SignatureText(t));
      AsciiTextOfAscii(SignatureText(t));
    }
  }

  /** A stream whose magic names a supported type the heuristic does not take for FT is parsed as that type. */
  lemma FromBytesOf(p: Primitives, cryptoInstalled: bool, b: Bytes, t: FarcType, ps: ParsedStruct)
    requires t != FARC_FT
    requires AsciiText(ReadUpTo(b, 0, 4)) == Some(TypeName(t))
    requires CheckFarcType(TypeName(t), cryptoInstalled).Success?
    requires IsFtFarc(b) == Success(false)
    requires ParseStruct(Corrected, t, b) == Success(ps)
    ensures FromBytes(p, cryptoInstalled, b) == ParsedToDict(p, t, ps)
  {
    LookupTypeName(t);
    CursorRulesAgree(t, b);
  }

  /** The magic of a built image decodes to the type's name. */
  lemma BuiltMagic(t: FarcType, image: Bytes)
    requires t != FARC_FT && |image| >= 8 && image[..4] == Signature(t)
    ensures AsciiText(ReadUpTo(image, 0, 4)) == Some(TypeName(t))
  {
    assert ReadUpTo(image, 0, 4) == Signature(t) == Ascii(SignatureText(t));
    AsciiTextOfAscii(SignatureText(t));
  }

  /** A built struct is read back as its own type and parses to its records. */
  lemma BuiltStructReads(p: Primitives, cryptoInstalled: bool, t: FarcType, h: FixedHeader, es: seq<BuildEntry>,
                         image: Bytes)
    requires t != FARC_FT && LaidOut(8 + HeaderSize(t, Names(es)), es)
    requires BuildStruct(t, h, es) == Success(image)
    requires forall i :: 0 <= i < |es| ==> NulFree(es[i].name)
    requires CheckFarcType(TypeName(t), cryptoInstalled).Success?
    requires t == FARC && h.flags.encrypted ==> h.alignment >= 1 && IsPowerOfTwo(h.alignment)
    ensures FromBytes(p, cryptoInstalled, image)
            == ParsedToDict(p, t, ParsedStruct(HeaderSize(t, Names(es)), Normalize(t, h), Raw(t, es)))
  {
    BuiltMagic(t, image);
    WrittenIsNotFt(t, h, es);
    BuildParseRoundTrip(t, h, es);
    FromBytesOf(p, cryptoInstalled, image, t, ParsedStruct(HeaderSize(t, Names(es)), Normalize(t, h), Raw(t, es)));
  }

  /**
    Reading back a struct written for a known writable type: the type name, every
    file in order with its expected data, and the container flags of FARC.
   */
  lemma WriteStructReadsBack(p: Primitives, cryptoInstalled: bool, t: FarcType, container: Flags,
                             files: seq<InputFile>, alignment: nat)
    requires Lawful(p) && t != FARC_FT && alignment >= 1
    requires WriteStruct(p, t, container, files, alignment).Success?
    requires CheckFarcType(TypeName(t), cryptoInstalled).Success?
    requires DistinctNames(files) && forall i :: 0 <= i < |files| ==> NulFree(files[i].name)
    requires forall i :: 0 <= i < |files| ==> Recoverable(t, container, ResolveFlags(files[i].flags, container))
    requires t == FARC && container.encrypted ==> IsPowerOfTwo(alignment)
    ensures FromBytes(p, cryptoInstalled, WriteStruct(p, t, container, files, alignment).value)
            == Success(Decoded(TypeName(t), ExpectedFiles(p, t, container, files),
                               if Info(t).hasFlags then Some(container) else None))
  {
    var headerSize := HeaderSize(t, FileNames(files));
    var start := 8 + headerSize;
    var h := HeaderOf(container, files, alignment);
    var es := Layout(p, t, container, files, start, alignment);
    var image := WriteStruct(p, t, container, files, alignment).value;
    LayoutFacts(p, t, container, files, alignment, headerSize, es);
    WriteStructBuilds(p, t, container, files, alignment, headerSize, h, es);
    NamesNulFree(files, es);
    BuiltLayoutReadsBack(p, cryptoInstalled, t, container, files, alignment, start, h, es, image);
  }

  /** `WriteStructReadsBack` once the struct builder's success on the layout is known. */
  lemma BuiltLayoutReadsBack(p: Primitives, cryptoInstalled: bool, t: FarcType, container: Flags,
                             files: seq<InputFile>, alignment: nat, start: nat, h: FixedHeader,
                             es: seq<BuildEntry>, image: Bytes)
    requires Lawful(p) && t != FARC_FT && alignment >= 1
    requires h == HeaderOf(container, files, alignment) && es == Layout(p, t, container, files, start, alignment)
    requires LaidOut(8 + HeaderSize(t, Names(es)), es) && BuildStruct(t, h, es) == Success(image)
    requires forall i :: 0 <= i < |es| ==> NulFree(es[i].name)
    requires CheckFarcType(TypeName(t), cryptoInstalled).Success?
    requires DistinctNames(files)
    requires forall i :: 0 <= i < |files| ==> Recoverable(t, container, ResolveFlags(files[i].flags, container))
    requires t == FARC && container.encrypted ==> IsPowerOfTwo(alignment)
    ensures FromBytes(p, cryptoInstalled, image)
            == Success(Decoded(TypeName(t), ExpectedFiles(p, t, container, files),
                               if Info(t).hasFlags then Some(container) else None))
  {
    BuiltStructReads(p, cryptoInstalled, t, h, es, image);
    DecodeLayout(p, t, container, Normalize(t, h).flags, files, start, alignment);
  }

  /** Entries that carry the files' names carry names without NUL when the files' names have none. */
  lemma {:induction false} NamesNulFree(files: seq<InputFile>, es: seq<BuildEntry>)
    requires Names(es) == FileNames(files)
    requires forall i :: 0 <= i < |files| ==> NulFree(files[i].name)
    ensures forall i :: 0 <= i < |es| ==> NulFree(es[i].name)
    decreases |es|
  {
    if |es| > 0 {
      assert Names(es)[0] == es[0].name;
      assert Names(es)[1..] == Names(es[1..]);
      NamesNulFree(files[1..], es[1..]);
      assert forall i :: 1 <= i < |es| ==> es[i] == es[1..][i - 1];
    }
  }

  /**
    Reading back what `to_bytes` wrote: the type name, every file in order with its
    data (padded where it was encrypted uncompressed), and the container flags of
    FARC.  The files' flags must be ones the reader can undo, and an encrypted FARC
    must be aligned to a power of two, or the FT heuristic claims it.
   */
  lemma ToBytesFromBytes(p: Primitives, cryptoInstalled: bool, a: Archive, alignment: nat)
    requires Lawful(p) && alignment >= 1
    requires ToBytes(p, cryptoInstalled, a, alignment).Success?
    requires DistinctNames(a.files) && forall i :: 0 <= i < |a.files| ==> NulFree(a.files[i].name)
    requires var t := LookupType(a.farcType).value;
             forall i :: 0 <= i < |a.files| ==>
               Recoverable(t, ContainerFlags(t, a.flags), ResolveFlags(a.files[i].flags, ContainerFlags(t, a.flags)))
    requires a.farcType == "FARC" && ContainerFlags(FARC, a.flags).encrypted ==> IsPowerOfTwo(alignment)
    ensures FromBytes(p, cryptoInstalled, ToBytes(p, cryptoInstalled, a, alignment).value)
            == Success(Expected(p, LookupType(a.farcType).value, a))
  {
    var t := LookupType(a.farcType).value;
    WriteStructReadsBack(p, cryptoInstalled, t, ContainerFlags(t, a.flags), a.files, alignment);
  }
}

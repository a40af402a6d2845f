/**
  The archive reader and writer: turning a `files` dictionary into archive bytes
  (flag defaults, compression, DT encryption, pointer layout, struct build) and
  archive bytes back into a dictionary (type check, FT detection, struct parse,
  decryption and decompression).
 */
module Farc {

  import opened Wrappers
  import opened Bytes
  import opened Align
  import opened Primitives
  import opened FarcFormats
  import opened FarcFtHelpers

  // ---------------------------------------------------------------------------
  // The dictionaries the caller hands over
  // ---------------------------------------------------------------------------

  /** A `flags` dictionary: a key is absent (`None`) or holds a value tested for truth. */
  datatype FlagsDict = FlagsDict(encrypted: Option<bool>, compressed: Option<bool>)

  /** `d.get(key)` tested for truth: an absent key reads as `None`, which is false. */
  predicate Truthy(v: Option<bool>) {
    v == Some(true)
  }

  /** One entry of the `files` dictionary: its name as UTF-8 bytes, its data and its optional flags. */
  datatype InputFile = InputFile(name: Bytes, data: Bytes, flags: Option<FlagsDict>)

  /** The dictionary `to_bytes` accepts. */
  datatype Archive = Archive(farcType: string, files: seq<InputFile>, flags: Option<FlagsDict>)

  /** Dictionary keys are distinct. */
  predicate DistinctNames(files: seq<InputFile>) {
    forall i, j :: 0 <= i < j < |files| ==> files[i].name != files[j].name
  }

  function FileNames(files: seq<InputFile>): (r: seq<Bytes>)
    ensures |r| == |files|
    ensures forall i :: 0 <= i < |files| ==> r[i] == files[i].name
  {
    if |files| == 0 then [] else [files[0].name] + FileNames(files[1..])
  }

  // ---------------------------------------------------------------------------
  // Type check
  // ---------------------------------------------------------------------------

  /**
    `check_farc_type`: the type's remarks, or UnsupportedFarcTypeException for a
    name the registry lacks or for an encrypting type without the crypto module.
   */
  function CheckFarcType(name: string, cryptoInstalled: bool): (r: Result<string, FarcError>)
    ensures r.Success? <==> LookupType(name).Some?
                            && (Info(LookupType(name).value).encryptionType.Some? ==> cryptoInstalled)
    ensures r.Success? ==> r.value == Remarks(LookupType(name).value)
    ensures r.Failure? ==> r.error == UnsupportedFarcType(name)
  {
    match LookupType(name)
    case None => Failure(UnsupportedFarcType(name))
    case Some(t) =>
      if Info(t).encryptionType.Some? && !cryptoInstalled then Failure(UnsupportedFarcType(name))
      else Success(Remarks(t))
  }

  // ---------------------------------------------------------------------------
  // Preparing the files
  // ---------------------------------------------------------------------------

  /**
    The container flags `to_stream` writes: not encrypted and compressed exactly when
    the type forces compression, unless the type has a flags word and the archive
    carries a `flags` dictionary, whose values then replace both.
   */
  function ContainerFlags(t: FarcType, flags: Option<FlagsDict>): (f: Flags)
    ensures !Info(t).hasFlags || flags.None? ==> f == Flags(false, Info(t).compressionForced)
    ensures Info(t).hasFlags && flags.Some?
            ==> f == Flags(Truthy(flags.value.encrypted), Truthy(flags.value.compressed))
    ensures f.encrypted ==> Info(t).encryptionType.Some?
    ensures f.compressed ==> Info(t).compressionSupport
    ensures Info(t).compressionForced ==> f.compressed
  {
    if Info(t).hasFlags && flags.Some? then
      Flags(Truthy(flags.value.encrypted), Truthy(flags.value.compressed))
    else Flags(false, Info(t).compressionForced)
  }

  /** A file's own flag when its dictionary has the key, the container's otherwise. */
  function ResolveFlags(flags: Option<FlagsDict>, container: Flags): (f: Flags)
    ensures flags.None? ==> f == container
    ensures flags.Some? && flags.value.encrypted.Some? ==> f.encrypted == flags.value.encrypted.value
    ensures flags.Some? && flags.value.compressed.Some? ==> f.compressed == flags.value.compressed.value
    ensures flags.Some? && flags.value.encrypted.None? ==> f.encrypted == container.encrypted
    ensures flags.Some? && flags.value.compressed.None? ==> f.compressed == container.compressed
  {
    match flags
    case None => container
    case Some(d) =>
      Flags(d.encrypted.GetOr(container.encrypted), d.compressed.GetOr(container.compressed))
  }

  /** A file's stored bytes and flags after one preparation stage. */
  datatype Stage = Stage(data: Bytes, flags: Flags)

  /**
    `_compress_files` for one file: a file flagged compressed keeps its gzip stream
    when the type forces compression or the stream is shorter than the data, and
    otherwise stays raw with its flag cleared.
   */
  function Compress(p: Primitives, t: FarcType, flags: Flags, data: Bytes): (r: Stage)
    ensures !flags.compressed || !Info(t).compressionSupport ==> r == Stage(data, flags)
    ensures r.flags.encrypted == flags.encrypted
    ensures r.data == if Info(t).compressionSupport && r.flags.compressed then p.gzip(data) else data
    ensures flags.compressed && Info(t).compressionSupport
            ==> (r.flags.compressed <==> Info(t).compressionForced || |p.gzip(data)| < |data|)
  {
    if Info(t).compressionSupport && flags.compressed then
      var gz := p.gzip(data);
      if Info(t).compressionForced || |gz| < |data| then Stage(gz, flags.(compressed := true))
      else Stage(data, flags.(compressed := false))
    else Stage(data, flags)
  }

  /** `data` followed by zero bytes up to the next multiple of 16. */
  function Pad16(data: Bytes): (r: Bytes)
    ensures |r| == RoundUp(|data|, 16) && |r| % 16 == 0
    ensures r[..|data|] == data
    ensures forall k :: |data| <= k < |r| ==> r[k] == 0
  {
    ZerosAreZero(RoundUp(|data|, 16) - |data|);
    data + Zeros(RoundUp(|data|, 16) - |data|)
  }

  /**
    `_encrypt_files` for one file: when the container is encrypted and the type has an
    encryption scheme, a file flagged encrypted is zero-padded to the AES block size
    and, for the DT scheme, encrypted under the fixed key.
   */
  function Encrypt(p: Primitives, t: FarcType, container: Flags, flags: Flags, data: Bytes): (r: Bytes)
    ensures !(container.encrypted && Info(t).encryptionType.Some? && flags.encrypted) ==> r == data
    ensures container.encrypted && Info(t).encryptionType == Some(DT) && flags.encrypted
            ==> r == p.aesEcbEncrypt(DtKey(), Pad16(data))
  {
    if container.encrypted && Info(t).encryptionType.Some? && flags.encrypted then
      var padded := Pad16(data);
      if Info(t).encryptionType == Some(DT) then p.aesEcbEncrypt(DtKey(), padded) else padded
    else data
  }

  /**
    The record the builder receives for one file placed at `pointer`: the sizes
    before and after compression, the flags after compression and the stored
    bytes.  FArc stores the data as given and records only its length.
   */
  function EntryOf(p: Primitives, t: FarcType, container: Flags, f: InputFile, pointer: nat): (e: BuildEntry)
    ensures e.name == f.name && e.fields.pointer == pointer
    ensures e.fields.uncompressedSize == |f.data|
    ensures !Info(t).compressionSupport ==> e.data == f.data && e.fields.compressedSize == |f.data|
  {
    var c := Compress(p, t, ResolveFlags(f.flags, container), f.data);
    if Info(t).compressionSupport then
      BuildEntry(f.name, EntryFields(pointer, |c.data|, |f.data|, c.flags), Encrypt(p, t, container, c.flags, c.data))
    else BuildEntry(f.name, EntryFields(pointer, |f.data|, |f.data|, c.flags), f.data)
  }

  /**
    `_set_files_pointers` fused with the per-file preparation: each file's data
    starts at the first multiple of `alignment` at or after the end of the previous
    one, the first at or after `pos`.
   */
  function Layout(p: Primitives, t: FarcType, container: Flags, files: seq<InputFile>, pos: nat, alignment: nat)
    : (es: seq<BuildEntry>)
    requires alignment >= 1
    ensures |es| == |files|
    decreases |files|
  {
    if |files| == 0 then []
    else
      var e := EntryOf(p, t, container, files[0], RoundUp(pos, alignment));
      [e] + Layout(p, t, container, files[1..], e.fields.pointer + |e.data|, alignment)
  }

  /** Every data pointer is a multiple of the alignment, and the gap before it is shorter than the alignment. */
  lemma {:induction false} LayoutAligned(p: Primitives, t: FarcType, container: Flags, files: seq<InputFile>,
                                         pos: nat, alignment: nat)
    requires alignment >= 1
    ensures var es := Layout(p, t, container, files, pos, alignment);
            && LaidOut(pos, es)
            && (forall i :: 0 <= i < |es| ==> es[i].fields.pointer % alignment == 0)
            && (|es| > 0 ==> es[0].fields.pointer < pos + alignment)
            && (forall i :: 0 < i < |es| ==>
                  es[i].fields.pointer < es[i - 1].fields.pointer + |es[i - 1].data| + alignment)
    decreases |files|
  {
    if |files| > 0 {
      var es := Layout(p, t, container, files, pos, alignment);
      var e := es[0];
      var rest := Layout(p, t, container, files[1..], e.fields.pointer + |e.data|, alignment);
      assert es == [e] + rest;
      assert es[1..] == rest;
      LayoutAligned(p, t, container, files[1..], e.fields.pointer + |e.data|, alignment);
      assert forall i :: 1 <= i < |es| ==> es[i] == rest[i - 1];
    }
  }

  lemma {:induction false} LayoutNames(p: Primitives, t: FarcType, container: Flags, files: seq<InputFile>,
                                       pos: nat, alignment: nat)
    requires alignment >= 1
    ensures var es := Layout(p, t, container, files, pos, alignment);
            && Names(es) == FileNames(files)
            && forall i :: 0 <= i < |es| ==> es[i].name == files[i].name
    decreases |files|
  {
    if |files| > 0 {
      var es := Layout(p, t, container, files, pos, alignment);
      var e := es[0];
      var rest := Layout(p, t, container, files[1..], e.fields.pointer + |e.data|, alignment);
      LayoutNames(p, t, container, files[1..], e.fields.pointer + |e.data|, alignment);
      assert es[1..] == rest;
      assert forall i :: 1 <= i < |es| ==> es[i] == rest[i - 1];
    }
  }

  // ---------------------------------------------------------------------------
  // Writing
  // ---------------------------------------------------------------------------

  /** The layout keeps the file names and is laid out after the header, the two facts the writers need. */
  lemma LayoutFacts(p: Primitives, t: FarcType, container: Flags, files: seq<InputFile>, alignment: nat,
                    headerSize: nat, es: seq<BuildEntry>)
    requires alignment >= 1
    requires headerSize == HeaderSize(t, FileNames(files))
    requires es == Layout(p, t, container, files, 8 + headerSize, alignment)
    ensures Names(es) == FileNames(files)
    ensures LaidOut(8 + HeaderSize(t, Names(es)), es)
  {
    LayoutNames(p, t, container, files, 8 + headerSize, alignment);
    LayoutAligned(p, t, container, files, 8 + headerSize, alignment);
  }

  /** The fixed fields `to_stream` hands the builder. */
  function HeaderOf(container: Flags, files: seq<InputFile>, alignment: int): FixedHeader {
    FixedHeader(container, alignment, 0, |files|)
  }

  /**
    `to_stream` once the type is known to be writable: prepare the files, lay their
    data out after the header and build the struct.  `header_size` counts each name
    by its encoded length.
   */
  function WriteStruct(p: Primitives, t: FarcType, container: Flags, files: seq<InputFile>, alignment: nat)
    : (r: Result<Bytes, FarcError>)
    requires t != FARC_FT && alignment >= 1
    ensures var es := Layout(p, t, container, files, 8 + HeaderSize(t, FileNames(files)), alignment);
            && LaidOut(8 + HeaderSize(t, Names(es)), es)
            && r == BuildStruct(t, HeaderOf(container, files, alignment), es)
    ensures r.Success? ==> |files| >= 1 && |r.value| >= 8 && r.value[..4] == Signature(t)
  {
    var start := 8 + HeaderSize(t, FileNames(files));
    var es := Layout(p, t, container, files, start, alignment);
    LayoutNames(p, t, container, files, start, alignment);
    LayoutAligned(p, t, container, files, start, alignment);
    BuildStruct(t, HeaderOf(container, files, alignment), es)
  }

  /** `WriteStruct` through its contract, for its layout and header named. */
  lemma WriteStructBuilds(p: Primitives, t: FarcType, container: Flags, files: seq<InputFile>, alignment: nat,
                           headerSize: nat, h: FixedHeader, es: seq<BuildEntry>)
    requires t != FARC_FT && alignment >= 1
    requires headerSize == HeaderSize(t, FileNames(files))
    requires h == HeaderOf(container, files, alignment)
    requires es == Layout(p, t, container, files, 8 + headerSize, alignment)
    requires LaidOut(8 + HeaderSize(t, Names(es)), es)
    ensures WriteStruct(p, t, container, files, alignment) == BuildStruct(t, h, es)
  {
  }

  /** `to_bytes`: check the type, refuse types without write support, then write the struct. */
  function ToBytes(p: Primitives, cryptoInstalled: bool, a: Archive, alignment: nat): (r: Result<Bytes, FarcError>)
    requires alignment >= 1
    ensures LookupType(a.farcType).None? ==> r == Failure(UnsupportedFarcType(a.farcType))
    ensures LookupType(a.farcType) == Some(FARC_FT) ==> r.Failure?
    ensures r.Success? ==> && CheckFarcType(a.farcType, cryptoInstalled).Success?
                           && LookupType(a.farcType).value != FARC_FT
                           && var t := LookupType(a.farcType).value;
                              r == WriteStruct(p, t, ContainerFlags(t, a.flags), a.files, alignment)
  {
    var _ :- CheckFarcType(a.farcType, cryptoInstalled);
    var t := LookupType(a.farcType).value;
    if !Info(t).writeSupport then Failure(UnsupportedFarcType(a.farcType))
    else WriteStruct(p, t, ContainerFlags(t, a.flags), a.files, alignment)
  }

  // ---------------------------------------------------------------------------
  // Reading
  // ---------------------------------------------------------------------------

  /** `zlib.decompress`, failing as zlib.error does. */
  function Gunzip(p: Primitives, data: Bytes): (r: Result<Bytes, FarcError>)
    ensures r.Success? <==> p.gunzip(data).Some?
    ensures r.Success? ==> r.value == p.gunzip(data).value
    ensures r.Failure? ==> r.error == DecompressionError
  {
    match p.gunzip(data)
    case None => Failure(DecompressionError)
    case Some(d) => Success(d)
  }

  /**
    One record's data as `_parsed_to_dict` returns it.  Types with flags use the
    container's (FARC) or the record's (FARC_FT) flags: DT-encrypted data is
    decrypted, compressed data is decompressed when compression is forced or the
    two sizes differ.  FArC decompresses on the same size test; FArc returns the data.
   */
  function DecodeEntry(p: Primitives, t: FarcType, container: Flags, e: RawEntry): (r: Result<Bytes, FarcError>)
    ensures !Info(t).compressionSupport ==> r == Success(e.data)
    ensures r.Failure? ==> r.error == DecompressionError
  {
    if Info(t).hasFlags then
      var flags := if Info(t).hasPerFileFlags then e.fields.flags else container;
      var data := if flags.encrypted && Info(t).encryptionType == Some(DT)
                  then p.aesEcbDecrypt(DtKey(), e.data) else e.data;
      if flags.compressed
         && (Info(t).compressionForced || e.fields.uncompressedSize != e.fields.compressedSize)
      then Gunzip(p, data)
      else Success(data)
    else if Info(t).compressionSupport then
      if Info(t).compressionForced || e.fields.uncompressedSize != e.fields.compressedSize
      then Gunzip(p, e.data)
      else Success(e.data)
    else Success(e.data)
  }

  /** A dictionary as its items in insertion order. */
  type Dict = seq<(Bytes, Bytes)>

  function Keys(d: Dict): (r: seq<Bytes>)
    ensures |r| == |d|
    ensures forall i :: 0 <= i < |d| ==> r[i] == d[i].0
  {
    if |d| == 0 then [] else [d[0].0] + Keys(d[1..])
  }

  predicate DistinctKeys(d: Dict) {
    forall i, j :: 0 <= i < j < |d| ==> d[i].0 != d[j].0
  }

  /** The value a dictionary holds for `key`. */
  function Lookup(d: Dict, key: Bytes): (r: Option<Bytes>)
    ensures r.None? <==> forall i :: 0 <= i < |d| ==> d[i].0 != key
    ensures r.Some? ==> exists i :: 0 <= i < |d| && d[i] == (key, r.value)
  {
    if |d| == 0 then None
    else if d[0].0 == key then Some(d[0].1)
    else
      var r := Lookup(d[1..], key);
      assert forall i :: 1 <= i < |d| ==> d[1..][i - 1] == d[i];
      r
  }

  /**
    `d[key] = value`: a new key goes last, an existing key keeps its place and takes
    the new value.
   */
  function Put(d: Dict, key: Bytes, value: Bytes): (r: Dict)
    requires DistinctKeys(d)
    ensures DistinctKeys(r)
    ensures Lookup(r, key) == Some(value)
    ensures forall k :: k != key ==> Lookup(r, k) == Lookup(d, k)
    ensures Lookup(d, key).None? ==> r == d + [(key, value)]
    ensures Lookup(d, key).Some? ==> Keys(r) == Keys(d)
  {
    if Lookup(d, key).None? then
      var r := d + [(key, value)];
      assert forall k :: k != key ==> Lookup(r, k) == Lookup(d, k) by {
        forall k | k != key ensures Lookup(r, k) == Lookup(d, k) {
          LookupAppend(d, key, value, k);
        }
      }
      LookupAppend(d, key, value, key);
      r
    else
      var i := IndexOf(d, key);
      var r := d[i := (key, value)];
      assert Keys(r) == Keys(d);
      LookupUnique(r, i);
      assert forall k :: k != key ==> Lookup(r, k) == Lookup(d, k) by {
        forall k | k != key ensures Lookup(r, k) == Lookup(d, k) {
          LookupReplace(d, i, value, k);
        }
      }
      r
  }

  function IndexOf(d: Dict, key: Bytes): (i: nat)
    requires Lookup(d, key).Some?
    ensures i < |d| && d[i].0 == key
  {
    if d[0].0 == key then 0 else 1 + IndexOf(d[1..], key)
  }

  lemma {:induction false} LookupAppend(d: Dict, key: Bytes, value: Bytes, k: Bytes)
    requires Lookup(d, key).None?
    ensures Lookup(d + [(key, value)], k) == if k == key then Some(value) else Lookup(d, k)
  {
    if |d| > 0 {
      assert (d + [(key, value)])[1..] == d[1..] + [(key, value)];
      LookupAppend(d[1..], key, value, k);
    }
  }

  /** In a dictionary with distinct keys, the item at `i` is what its key looks up. */
  lemma {:induction false} LookupUnique(d: Dict, i: nat)
    requires DistinctKeys(d) && i < |d|
    ensures Lookup(d, d[i].0) == Some(d[i].1)
  {
    if i > 0 {
      assert d[1..][i - 1] == d[i];
      LookupUnique(d[1..], i - 1);
    }
  }

  lemma {:induction false} LookupReplace(d: Dict, i: nat, value: Bytes, k: Bytes)
    requires i < |d| && k != d[i].0
    ensures Lookup(d[i := (d[i].0, value)], k) == Lookup(d, k)
  {
    if i > 0 && d[0].0 != k {
      assert d[i := (d[i].0, value)][1..] == d[1..][i - 1 := (d[i].0, value)];
      LookupReplace(d[1..], i - 1, value, k);
    }
  }

  /** `_parsed_to_dict`'s loop: each record decoded and stored under its name, in order. */
  function DecodeEntries(p: Primitives, t: FarcType, container: Flags, es: seq<RawEntry>, acc: Dict)
    : (r: Result<Dict, FarcError>)
    requires DistinctKeys(acc)
    ensures r.Success? ==> DistinctKeys(r.value)
    decreases |es|
  {
    if |es| == 0 then Success(acc)
    else
      var data :- DecodeEntry(p, t, container, es[0]);
      DecodeEntries(p, t, container, es[1..], Put(acc, es[0].name, data))
  }

  /** The text a type's signature decodes to. */
  function SignatureText(t: FarcType): (s: string)
    ensures IsAscii(s) && Ascii(s) == Signature(t)
    ensures t != FARC_FT ==> s == TypeName(t)
  {
    if t == FARC_FT then "FARC" else TypeName(t)
  }

  /** The dictionary `from_bytes` returns: type name, files in order, and the container flags of flagged types. */
  datatype Decoded = Decoded(farcType: string, files: Dict, flags: Option<Flags>)

  function ParsedToDict(p: Primitives, t: FarcType, ps: ParsedStruct): (r: Result<Decoded, FarcError>)
    ensures r.Success? ==> r.value.farcType == SignatureText(t) && DistinctKeys(r.value.files)
    ensures r.Success? ==> (r.value.flags.Some? <==> Info(t).hasFlags)
  {
    var files :- DecodeEntries(p, t, ps.header.flags, ps.entries, []);
    Success(Decoded(SignatureText(t), files, if Info(t).hasFlags then Some(ps.header.flags) else None))
  }

  /**
    `from_bytes`: the magic must name a supported type; a `FARC` stream the heuristic
    takes for FT is read with the FT struct after the (failing) header decryption.
    The table is read as the struct is written: an FT record leaves the cursor at
    the end of the stream, so an FT table longer than `header_size + 7` bytes
    yields one file.  The other types read alike under either cursor rule.
   */
  function FromBytes(p: Primitives, cryptoInstalled: bool, b: Bytes): (r: Result<Decoded, FarcError>)
    ensures |b| >= 4 && AsciiText(b[..4]).Some? && LookupType(AsciiText(b[..4]).value).None?
            ==> r == Failure(UnsupportedFarcType(AsciiText(b[..4]).value))
    ensures r.Success? ==> |b| >= 8 && IsAscii(r.value.farcType) && b[..4] == Ascii(r.value.farcType)
  {
    match AsciiText(ReadUpTo(b, 0, 4))
    case None => Failure(AsciiDecodeError)
    case Some(magic) =>
      var _ :- CheckFarcType(magic, cryptoInstalled);
      var ft :- IsFtFarc(b);
      var t := if ft then FARC_FT else LookupType(magic).value;
      var s :- if ft then DecryptFtFarc(b) else Success(b);
      var ps :- ParseStruct(AsWritten, t, s);
      ParsedToDict(p, t, ps)
  }
}

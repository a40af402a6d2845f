/**
  Telling FT-style FARC archives apart from DT-style ones.  Both start with the
  signature `FARC`; the FT variant is recognised by a heuristic on the header
  words at offsets 8 (flags), 16 (alignment) and 20 (format).  Every probe reads
  the stream at absolute offsets and leaves its position where it was.
 */
module FarcFtHelpers {

  import opened Wrappers
  import opened Bytes
  import opened Align
  import opened FarcFormats

  /** `format[:3] != b'\x00\x00\x00'`: true also when fewer than three bytes were read. */
  predicate HeadNonzero(format: Bytes) {
    |format| < 3 || format[0] != 0 || format[1] != 0 || format[2] != 0
  }

  /**
    Whether the header is FT-encrypted: the `encrypted` flag (bit 2 of byte 11) is
    set, and the alignment word does not have exactly one bit set or the format
    word's three high bytes are not all zero.  A stream too short to hold byte 11
    fails as indexing an empty read does.
   */
  function NeedsFtDecryption(s: Bytes): (r: Result<bool, FarcError>)
    ensures r.Success? <==> |s| >= 12
    ensures r.Success? && r.value ==> Bit(s[11], 2)
  {
    if |s| < 12 then Failure(IndexError)
    else
      var encrypted := Bit(s[11], 2);
      var alignmentBits := PopCountBytes(ReadUpTo(s, 16, 4));
      var format := ReadUpTo(s, 20, 4);
      Success(encrypted && (alignmentBits != 1 || HeadNonzero(format)))
  }

  /**
    Whether the stream holds an FT archive: its magic is `FARC` and either its
    header needs FT decryption or its format word is 1.  A magic that is not
    ASCII fails to decode.
   */
  function IsFtFarc(s: Bytes): (r: Result<bool, FarcError>)
    ensures r.Success? && r.value ==> |s| >= 12 && s[..4] == Signature(FARC)
    ensures |s| >= 12 && s[..4] == Signature(FARC) ==> r.Success?
  {
    match AsciiText(ReadUpTo(s, 0, 4))
    case None => Failure(AsciiDecodeError)
    case Some(magic) =>
      if magic != "FARC" then Success(false)
      else
        MagicIsFarc(s, magic);
        var needs :- NeedsFtDecryption(s);
        if needs then Success(true)
        else Success(ReadUpTo(s, 20, 4) == [0, 0, 0, 1])
  }

  /** A stream whose first bytes decode to the text `FARC` begins with the FARC signature. */
  lemma MagicIsFarc(s: Bytes, magic: string)
    requires AsciiText(ReadUpTo(s, 0, 4)) == Some(magic) && magic == "FARC"
    ensures |s| >= 4 && s[..4] == Signature(FARC)
  {
    var w := ReadUpTo(s, 0, 4);
    assert |w| == 4;
    assert forall i :: 0 <= i < 4 ==> s[i] == magic[i] as int;
  }

  /**
    The decrypted copy of an FT stream.  A stream that is not FT, or whose header
    is not encrypted, comes back unchanged; the decryption itself refers to names
    its module never imports and so always fails.
   */
  function DecryptFtFarc(s: Bytes): (r: Result<Bytes, FarcError>)
    ensures r.Success? ==> r.value == s
    ensures r == Failure(NameError) <==> IsFtFarc(s) == Success(true) && NeedsFtDecryption(s) == Success(true)
  {
    var ft :- IsFtFarc(s);
    if ft && NeedsFtDecryption(s) == Success(true) then Failure(NameError) else Success(s)
  }

  // ---------------------------------------------------------------------------
  // The heuristic in terms of header fields
  // ---------------------------------------------------------------------------

  /**
    On a stream holding the whole fixed header, the test reads: the parsed
    `encrypted` flag, and an alignment that is not a single bit or a format word
    of 256 or more.
   */
  lemma NeedsFtDecryptionFields(s: Bytes)
    requires |s| >= 24
    ensures NeedsFtDecryption(s)
            == Success(ParseFlags(s, 8).encrypted
                       && (PopCount(ReadU32BE(s, 16)) != 1 || s[20..23] != [0, 0, 0]))
  {
    assert ReadUpTo(s, 16, 4) == s[16..20];
    PopCountWord(s[16..20]);
    ReadWithin(s, 16, s[16..20]);
  }

  /**
    The classification of a stream that starts with `FARC` and holds the fixed
    header: FT when its format word is 1, or when `encrypted` is set and the
    alignment is not a single bit or the format is 256 or more.
   */
  lemma IsFtFarcFields(s: Bytes)
    requires |s| >= 24 && s[..4] == Signature(FARC)
    ensures IsFtFarc(s)
            == Success(s[20..24] == [0, 0, 0, 1]
                       || (ParseFlags(s, 8).encrypted
                           && (PopCount(ReadU32BE(s, 16)) != 1 || s[20..23] != [0, 0, 0])))
  {
    assert ReadUpTo(s, 0, 4) == Signature(FARC) == Ascii("FARC");
    AsciiTextOfAscii("FARC");
    NeedsFtDecryptionFields(s);
  }

  /** A stream whose FARC header was written by the DT struct. */
  predicate DtHeaderAt(s: Bytes, h: FixedHeader) {
    && InS32(h.alignment)
    && |s| >= 8 + Info(FARC).fixedHeaderSize
    && s[..4] == Signature(FARC)
    && s[8..8 + Info(FARC).fixedHeaderSize] == FixedHeaderBytes(FARC, h)
  }

  /** A stream whose FARC header was written by the FT struct. */
  predicate FtHeaderAt(s: Bytes, h: FixedHeader) {
    && InS32(h.alignment) && InS32(h.entryCount)
    && |s| >= 8 + Info(FARC_FT).fixedHeaderSize
    && s[..4] == Signature(FARC)
    && s[8..8 + Info(FARC_FT).fixedHeaderSize] == FixedHeaderBytes(FARC_FT, h)
  }

  /**
    A DT header is taken for FT exactly when it is encrypted and its alignment's
    32-bit pattern does not have exactly one bit set: an unencrypted archive, or
    one aligned to a power of two, is read as DT; an encrypted one with alignment
    0 or 3 is read as FT.
   */
  lemma DtHeaderClassified(s: Bytes, h: FixedHeader)
    requires DtHeaderAt(s, h)
    ensures IsFtFarc(s) == Success(h.flags.encrypted && PopCount(Unsigned32(h.alignment)) != 1)
  {
    FarcHeaderWords(s, h);
    assert EncodeS32BE(0) == [0, 0, 0, 0];
    assert s[20..23] == s[20..24][..3] == [0, 0, 0];
    ParseFlagsOf(s, 8, h.flags);
    ReadWithin(s, 16, EncodeS32BE(h.alignment));
    IsFtFarcFields(s);
  }

  /** Hence an archive aligned to a power of two is never mistaken for FT. */
  lemma PowerOfTwoAlignedIsDt(s: Bytes, h: FixedHeader)
    requires DtHeaderAt(s, h) && h.alignment >= 1 && IsPowerOfTwo(h.alignment)
    ensures IsFtFarc(s) == Success(false)
    ensures DecryptFtFarc(s) == Success(s)
  {
    DtHeaderClassified(s, h);
    PowerOfTwoPopCount(h.alignment);
  }

  /** An FT header (format word 1) is always recognised, and decrypting it fails exactly when it needs decryption. */
  lemma FtHeaderClassified(s: Bytes, h: FixedHeader)
    requires FtHeaderAt(s, h)
    ensures IsFtFarc(s) == Success(true)
    ensures NeedsFtDecryption(s) == Success(h.flags.encrypted && PopCount(Unsigned32(h.alignment)) != 1)
    ensures DecryptFtFarc(s).Success? <==> !h.flags.encrypted || PopCount(Unsigned32(h.alignment)) == 1
  {
    FtHeaderWords(s, h);
    assert EncodeS32BE(1) == [0, 0, 0, 1];
    assert s[20..23] == s[20..24][..3] == [0, 0, 0];
    ParseFlagsOf(s, 8, h.flags);
    ReadWithin(s, 16, EncodeS32BE(h.alignment));
    IsFtFarcFields(s);
    NeedsFtDecryptionFields(s);
  }
}

/**
  Loading a file that may or may not sit inside an archive: decode the stream as
  an archive and keep the requested names in request order, or, when the magic
  names no supported type, hand back the stream itself with no name.
 */
module FarcLoadHelper {

  import opened Wrappers
  import opened Bytes
  import opened Primitives
  import opened FarcFormats
  import opened Farc
  import opened FarcProofs
  import opened Align

  /** One `(filename, bytes)` tuple of the result; the fallback has no filename. */
  datatype Loaded = Loaded(name: Option<Bytes>, data: Bytes)

  /** The requested names present in the archive, in request order, each with its data. */
  function Select(files: Dict, filenames: seq<Bytes>): (r: seq<Loaded>)
    ensures |r| <= |filenames|
    ensures forall k :: 0 <= k < |r| ==> r[k].name.Some? && Lookup(files, r[k].name.value) == Some(r[k].data)
    decreases |filenames|
  {
    if |filenames| == 0 then []
    else
      var rest := Select(files, filenames[1..]);
      match Lookup(files, filenames[0])
      case None => rest
      case Some(data) => [Loaded(Some(filenames[0]), data)] + rest
  }

  /** Selecting for a concatenation of requests selects for each part in turn. */
  lemma {:induction false} SelectAppend(files: Dict, a: seq<Bytes>, b: seq<Bytes>)
    ensures Select(files, a + b) == Select(files, a) + Select(files, b)
    decreases |a|
  {
    if |a| > 0 {
      assert (a + b)[0] == a[0];
      assert (a + b)[1..] == a[1..] + b;
      SelectAppend(files, a[1..], b);
    } else {
      assert a + b == b;
    }
  }

  /** A single request yields its file when the archive holds it and nothing otherwise. */
  lemma SelectOne(files: Dict, name: Bytes)
    ensures Select(files, [name]) == match Lookup(files, name)
                                     case None => []
                                     case Some(data) => [Loaded(Some(name), data)]
  {
    assert [name][1..] == [];
  }

  /** Every requested name the archive holds is in the result, with its data. */
  lemma {:induction false} SelectComplete(files: Dict, filenames: seq<Bytes>, i: nat)
    requires i < |filenames| && Lookup(files, filenames[i]).Some?
    ensures Loaded(Some(filenames[i]), Lookup(files, filenames[i]).value) in Select(files, filenames)
    decreases i
  {
    if i > 0 {
      SelectComplete(files, filenames[1..], i - 1);
    }
  }

  /** Only requested names appear in the result. */
  lemma {:induction false} SelectRequested(files: Dict, filenames: seq<Bytes>, k: nat)
    requires k < |Select(files, filenames)|
    ensures Select(files, filenames)[k].name.value in filenames
    decreases |filenames|
  {
    var rest := Select(files, filenames[1..]);
    if Lookup(files, filenames[0]).Some? {
      if k > 0 {
        SelectRequested(files, filenames[1..], k - 1);
      }
    } else {
      SelectRequested(files, filenames[1..], k);
    }
  }

  /**
    `farc_load_helper` as written: `from_stream` reads the four magic bytes before
    `check_farc_type` raises, and the handler's `s.read()` returns what follows them.
    Any other failure propagates.
   */
  function LoadAsWritten(p: Primitives, cryptoInstalled: bool, s: Bytes, filenames: seq<Bytes>)
    : (r: Result<seq<Loaded>, FarcError>)
    ensures FromBytes(p, cryptoInstalled, s).Failure? && FromBytes(p, cryptoInstalled, s).error.UnsupportedFarcType?
            ==> r.Success? && |r.value| == 1 && r.value[0].name.None? && ReadUpTo(s, 0, 4) + r.value[0].data == s
    ensures r.Failure? ==> FromBytes(p, cryptoInstalled, s).Failure? && !FromBytes(p, cryptoInstalled, s).error.UnsupportedFarcType?
    ensures FromBytes(p, cryptoInstalled, s).Success? ==> r == Success(Select(FromBytes(p, cryptoInstalled, s).value.files, filenames))
  {
    match FromBytes(p, cryptoInstalled, s)
    case Failure(UnsupportedFarcType(_)) =>
      var consumed := if |s| < 4 then |s| else 4;
      assert ReadUpTo(s, 0, 4) == s[..consumed];
      Success([Loaded(None, s[consumed..])])
    case Failure(e) => Failure(e)
    case Success(d) => Success(Select(d.files, filenames))
  }

  /** `farc_load_helper` as its documentation describes it: the fallback returns the original bytes. */
  function Load(p: Primitives, cryptoInstalled: bool, s: Bytes, filenames: seq<Bytes>)
    : (r: Result<seq<Loaded>, FarcError>)
    ensures FromBytes(p, cryptoInstalled, s).Failure? && FromBytes(p, cryptoInstalled, s).error.UnsupportedFarcType?
            ==> r == Success([Loaded(None, s)])
    ensures r.Failure? ==> FromBytes(p, cryptoInstalled, s).Failure? && !FromBytes(p, cryptoInstalled, s).error.UnsupportedFarcType?
    ensures FromBytes(p, cryptoInstalled, s).Success? ==> r == Success(Select(FromBytes(p, cryptoInstalled, s).value.files, filenames))
  {
    match FromBytes(p, cryptoInstalled, s)
    case Failure(UnsupportedFarcType(_)) => Success([Loaded(None, s)])
    case Failure(e) => Failure(e)
    case Success(d) => Success(Select(d.files, filenames))
  }

  /** A stream whose magic names no supported type: the as-written fallback loses its first four bytes. */
  lemma AsWrittenDropsMagic(p: Primitives, cryptoInstalled: bool, filenames: seq<Bytes>)
    ensures var s: Bytes := [0x41, 0x42, 0x43, 0x44, 0x78];
            && Load(p, cryptoInstalled, s, filenames) == Success([Loaded(None, s)])
            && LoadAsWritten(p, cryptoInstalled, s, filenames) == Success([Loaded(None, [0x78])])
  {
    var s: Bytes := [0x41, 0x42, 0x43, 0x44, 0x78];
    assert ReadUpTo(s, 0, 4) == [0x41, 0x42, 0x43, 0x44];
    var magic := AsciiText(ReadUpTo(s, 0, 4));
    assert magic.Some? && magic.value[0] == 'A';
    assert magic.value[0] != "FArc"[0] && magic.value[0] != "FARC_FT"[0];
    assert LookupType(magic.value).None?;
  }

  /** On every stream but the fallback's, the helper as written and as documented agree. */
  lemma AsWrittenAgreesOtherwise(p: Primitives, cryptoInstalled: bool, s: Bytes, filenames: seq<Bytes>)
    requires !(FromBytes(p, cryptoInstalled, s).Failure? && FromBytes(p, cryptoInstalled, s).error.UnsupportedFarcType?)
    ensures LoadAsWritten(p, cryptoInstalled, s, filenames) == Load(p, cryptoInstalled, s, filenames)
  {
  }

  /**
    Loading from what `to_bytes` wrote yields the requested files the archive holds,
    in request order, each with the data the reader recovers.
   */
  lemma LoadWritten(p: Primitives, cryptoInstalled: bool, a: Archive, alignment: nat, filenames: seq<Bytes>)
    requires Lawful(p) && alignment >= 1
    requires ToBytes(p, cryptoInstalled, a, alignment).Success?
    requires DistinctNames(a.files) && forall i :: 0 <= i < |a.files| ==> NulFree(a.files[i].name)
    requires var t := LookupType(a.farcType).value;
             forall i :: 0 <= i < |a.files| ==>
               Recoverable(t, ContainerFlags(t, a.flags), ResolveFlags(a.files[i].flags, ContainerFlags(t, a.flags)))
    requires a.farcType == "FARC" && ContainerFlags(FARC, a.flags).encrypted ==> IsPowerOfTwo(alignment)
    ensures Load(p, cryptoInstalled, ToBytes(p, cryptoInstalled, a, alignment).value, filenames)
            == Success(Select(Expected(p, LookupType(a.farcType).value, a).files, filenames))
  {
    ToBytesFromBytes(p, cryptoInstalled, a, alignment);
  }
}

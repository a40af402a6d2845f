/**
  `header_size` as the archive writer computes it: `len(fname)` counts the
  characters of each name, while the table stores each name as UTF-8 bytes.  The
  two agree for ASCII names only; for any other name the written `header_size`
  is smaller than the table it describes, and RepeatUntil, writing or reading,
  can stop before the last record.  The writer in `Farc` counts bytes instead;
  `FarcAsWritten` holds the writer as it stands.
 */
module FarcHeaderSize {

  import opened Bytes
  import opened FarcFormats

  /**
    Characters of a UTF-8 encoded name, which is what Python's `len` counts on the
    decoded string: every byte except the continuation bytes `0x80..0xBF`.
   */
  function CodePoints(name: Bytes): (n: nat)
    ensures n <= |name|
  {
    if |name| == 0 then 0
    else CodePoints(name[..|name| - 1]) + (if 0x80 <= name[|name| - 1] < 0xC0 then 0 else 1)
  }

  /** `_files_header_size_calc`: one record per name, the name counted in characters. */
  function TableSizeAsWritten(t: FarcType, names: seq<Bytes>): nat {
    if |names| == 0 then 0
    else CodePoints(names[0]) + 1 + Info(t).filesHeaderFieldsSize + TableSizeAsWritten(t, names[1..])
  }

  /** The `header_size` the writer stores: the fixed fields and the table, names counted in characters. */
  function HeaderSizeAsWritten(t: FarcType, names: seq<Bytes>): nat {
    Info(t).fixedHeaderSize + TableSizeAsWritten(t, names)
  }

  predicate AsciiName(name: Bytes) {
    forall i :: 0 <= i < |name| ==> name[i] < 0x80
  }

  /** An ASCII name has as many characters as bytes. */
  lemma {:induction false} CodePointsAscii(name: Bytes)
    requires AsciiName(name)
    ensures CodePoints(name) == |name|
  {
    if |name| > 0 {
      CodePointsAscii(name[..|name| - 1]);
    }
  }

  /** A name has as many characters as bytes only when none of its bytes is a continuation byte. */
  lemma {:induction false} CodePointsExact(name: Bytes)
    ensures CodePoints(name) == |name| <==> forall i :: 0 <= i < |name| ==> !(0x80 <= name[i] < 0xC0)
  {
    if |name| > 0 {
      var init := name[..|name| - 1];
      CodePointsExact(init);
      assert forall i :: 0 <= i < |init| ==> init[i] == name[i];
    }
  }

  /** With ASCII names the written `header_size` is the byte size of the header. */
  lemma {:induction false} AsciiNamesAgree(t: FarcType, names: seq<Bytes>)
    requires forall i :: 0 <= i < |names| ==> AsciiName(names[i])
    ensures HeaderSizeAsWritten(t, names) == HeaderSize(t, names)
  {
    TableSizeAsciiAgree(t, names);
  }

  lemma {:induction false} TableSizeAsciiAgree(t: FarcType, names: seq<Bytes>)
    requires forall i :: 0 <= i < |names| ==> AsciiName(names[i])
    ensures TableSizeAsWritten(t, names) == TableSize(t, names)
  {
    if |names| > 0 {
      CodePointsAscii(names[0]);
      assert forall i :: 0 <= i < |names[1..]| ==> names[1..][i] == names[i + 1];
      TableSizeAsciiAgree(t, names[1..]);
    }
  }

  /** The written `header_size` never exceeds the bytes of the header it heads. */
  lemma {:induction false} AsWrittenNeverOver(t: FarcType, names: seq<Bytes>)
    ensures HeaderSizeAsWritten(t, names) <= HeaderSize(t, names)
  {
    TableSizeNeverOver(t, names);
  }

  lemma {:induction false} TableSizeNeverOver(t: FarcType, names: seq<Bytes>)
    ensures TableSizeAsWritten(t, names) <= TableSize(t, names)
  {
    if |names| > 0 {
      TableSizeNeverOver(t, names[1..]);
    }
  }

  /** The UTF-8 bytes of `é`. */
  function EAcute(): (b: Bytes)
    ensures |b| == 2 && CodePoints(b) == 1
  {
    [0xC3, 0xA9]
  }

  /** A FARC archive holding one file named `é` gets `header_size` 34 for a 35-byte header. */
  lemma NonAsciiNameUndercounts()
    ensures HeaderSizeAsWritten(FARC, [EAcute()]) == 34
    ensures HeaderSize(FARC, [EAcute()]) == 35
  {
    assert |[EAcute()][1..]| == 0;
  }

  /** `é` written `k` times: `2k` bytes, `k` characters. */
  function EAcutes(k: nat): (b: Bytes)
    ensures |b| == 2 * k && CodePoints(b) == k
  {
    if k == 0 then []
    else
      var b := EAcutes(k - 1) + EAcute();
      assert b[..|b| - 1] == EAcutes(k - 1) + [0xC3];
      assert (EAcutes(k - 1) + [0xC3])[..2 * k - 2] == EAcutes(k - 1);
      b
  }

  /**
    Two files, fourteen `é` then `a`: with the written `header_size` the reader's
    predicate already holds after the first record, so the second file is not read;
    with the header's byte size it holds only after the second.
   */
  lemma AsWrittenStopsEarly()
    ensures var names := [EAcutes(14), [0x61]];
            var afterFirst := 8 + Info(FARC).fixedHeaderSize + RecordSize(FARC, names[0]);
            && TableDone(FARC, HeaderSizeAsWritten(FARC, names), 0, afterFirst, 1)
            && !TableDone(FARC, HeaderSize(FARC, names), 0, afterFirst, 1)
  {
    var a: Bytes := [0x61];
    var names: seq<Bytes> := [EAcutes(14), a];
    assert |names[1..][1..]| == 0;
    assert CodePoints(a) == 1 by {
      assert a[..0] == [];
    }
  }
}

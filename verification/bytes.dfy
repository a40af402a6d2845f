/**
  Byte strings and the fixed-width integer encodings used by both containers:
  big-endian words in the archive format and little-endian words in the fontmap.
 */
module Bytes {

  import opened Wrappers

  type Byte = b: int | 0 <= b < 256
  type Bytes = seq<Byte>

  function Zeros(n: nat): (z: Bytes)
    ensures |z| == n
  {
    if n == 0 then [] else Zeros(n - 1) + [0]
  }

  lemma {:induction false} ZerosAreZero(n: nat)
    ensures forall i :: 0 <= i < n ==> Zeros(n)[i] == 0
  {
    if n > 0 {
      ZerosAreZero(n - 1);
      assert forall i :: 0 <= i < n - 1 ==> Zeros(n)[i] == Zeros(n - 1)[i];
    }
  }

  function Pow2(k: nat): (p: nat)
    ensures p >= 1
  {
    if k == 0 then 1 else 2 * Pow2(k - 1)
  }

  /** A window of a slice is a slice of the whole. */
  lemma SubSlice(s: Bytes, off: nat, b: Bytes, i: nat, j: nat)
    requires off + |b| <= |s| && s[off..off + |b|] == b && i <= j <= |b|
    ensures s[off + i..off + j] == b[i..j]
  {
    assert forall k :: i <= k < j ==> b[k] == s[off + k];
  }

  /** A string held at `off` whose first `size` bytes are `head` holds `head` there and `rest` after it. */
  lemma SplitAt(s: Bytes, off: nat, b: Bytes, size: nat, head: Bytes, rest: Bytes)
    requires off + |b| <= |s| && s[off..off + |b|] == b
    requires size <= |b| && b[..size] == head && b[size..] == rest
    ensures s[off..off + size] == head
    ensures s[off + size..off + |b|] == rest
  {
    SubSlice(s, off, b, 0, size);
    SubSlice(s, off, b, size, |b|);
  }

  /** The three parts of a concatenation can be sliced back out of it. */
  lemma ConcatParts(a: Bytes, b: Bytes, c: Bytes)
    ensures (a + b + c)[..|a|] == a
    ensures (a + b + c)[|a|..|a| + |b|] == b
    ensures (a + b + c)[|a| + |b|..] == c
  {
  }

  // ---------------------------------------------------------------------------
  // Fixed-width unsigned integers (construct's Int16ul, Int32ul, Int64ul, Int32ub)
  // ---------------------------------------------------------------------------

  /** A 16-bit little-endian word. */
  function DecodeU16LE(w: Bytes): (n: nat)
    requires |w| == 2
    ensures n < 0x1_0000
  {
    (w[0] as int) + 0x100 * (w[1] as int)
  }

  function U16LE(n: nat): (r: Bytes)
    requires n < 0x1_0000
    ensures |r| == 2 && DecodeU16LE(r) == n
  {
    [n % 0x100, n / 0x100]
  }

  lemma U16LEOfDecode(w: Bytes)
    requires |w| == 2
    ensures U16LE(DecodeU16LE(w)) == w
  {
    DivModUnique(DecodeU16LE(w), 0x100, w[1], w[0]);
  }

  /** A 32-bit little-endian word. */
  function DecodeU32LE(w: Bytes): (n: nat)
    requires |w| == 4
    ensures n < 0x1_0000_0000
  {
    (w[0] as int) + 0x100 * ((w[1] as int) + 0x100 * ((w[2] as int) + 0x100 * (w[3] as int)))
  }

  function U32LE(n: nat): (r: Bytes)
    requires n < 0x1_0000_0000
    ensures |r| == 4 && DecodeU32LE(r) == n
  {
    var q1 := n / 0x100;
    var q2 := q1 / 0x100;
    [n % 0x100, q1 % 0x100, q2 % 0x100, q2 / 0x100]
  }

  lemma U32LEOfDecode(w: Bytes)
    requires |w| == 4
    ensures U32LE(DecodeU32LE(w)) == w
  {
    var n := DecodeU32LE(w);
    var q1 := (w[1] as int) + 0x100 * ((w[2] as int) + 0x100 * (w[3] as int));
    var q2 := (w[2] as int) + 0x100 * (w[3] as int);
    DivModUnique(n, 0x100, q1, w[0]);
    DivModUnique(q1, 0x100, q2, w[1]);
    DivModUnique(q2, 0x100, w[3], w[2]);
  }

  /** A 64-bit little-endian word: its low and its high 32-bit halves. */
  /** The little-endian 16-bit word at offset `k` of `s`, read in place. */
  function U16At(s: Bytes, k: nat): (n: nat)
    requires k + 2 <= |s|
    ensures n < 0x1_0000
  {
    (s[k] as int) + 0x100 * (s[k + 1] as int)
  }

  lemma U16AtSlice(s: Bytes, k: nat)
    requires k + 2 <= |s|
    ensures U16At(s, k) == DecodeU16LE(s[k..k + 2])
  {
  }

  /** The little-endian 32-bit word at offset `k` of `s`, read in place. */
  function U32At(s: Bytes, k: nat): (n: nat)
    requires k + 4 <= |s|
    ensures n < 0x1_0000_0000
  {
    (s[k] as int) + 0x100 * ((s[k + 1] as int) + 0x100 * ((s[k + 2] as int) + 0x100 * (s[k + 3] as int)))
  }

  lemma U32AtSlice(s: Bytes, k: nat)
    requires k + 4 <= |s|
    ensures U32At(s, k) == DecodeU32LE(s[k..k + 4])
  {
  }

  function DecodeU64LE(w: Bytes): (n: nat)
    requires |w| == 8
    ensures n < 0x1_0000_0000_0000_0000
  {
    DecodeU32LE(w[..4]) + 0x1_0000_0000 * DecodeU32LE(w[4..])
  }

  function U64LE(n: nat): (r: Bytes)
    requires n < 0x1_0000_0000_0000_0000
    ensures |r| == 8 && DecodeU64LE(r) == n
  {
    var low, high := U32LE(n % 0x1_0000_0000), U32LE(n / 0x1_0000_0000);
    assert (low + high)[..4] == low && (low + high)[4..] == high;
    low + high
  }

  lemma U64LEOfDecode(w: Bytes)
    requires |w| == 8
    ensures U64LE(DecodeU64LE(w)) == w
  {
    var low, high := DecodeU32LE(w[..4]), DecodeU32LE(w[4..]);
    DivModUnique(DecodeU64LE(w), 0x1_0000_0000, high, low);
    U32LEOfDecode(w[..4]);
    U32LEOfDecode(w[4..]);
    assert w == w[..4] + w[4..];
  }

  /** The 32-bit big-endian word stored at `pos`. */
  function ReadU32BE(s: Bytes, pos: nat): (n: nat)
    requires pos + 4 <= |s|
    ensures n < 0x1_0000_0000
  {
    (s[pos + 3] as int) + 0x100 * ((s[pos + 2] as int) + 0x100 * ((s[pos + 1] as int) + 0x100 * (s[pos] as int)))
  }

  function U32BE(n: nat): (r: Bytes)
    requires n < 0x1_0000_0000
    ensures |r| == 4
  {
    var q1 := n / 0x100;
    var q2 := q1 / 0x100;
    [q2 / 0x100, q2 % 0x100, q1 % 0x100, n % 0x100]
  }

  /** Reading back a written word gives the number written. */
  lemma ReadU32BEOf(n: nat)
    requires n < 0x1_0000_0000
    ensures ReadU32BE(U32BE(n), 0) == n
  {
  }

  lemma U32BEOfRead(w: Bytes)
    requires |w| == 4
    ensures U32BE(ReadU32BE(w, 0)) == w
  {
    var n := ReadU32BE(w, 0);
    var q1 := (w[2] as int) + 0x100 * ((w[1] as int) + 0x100 * (w[0] as int));
    var q2 := (w[1] as int) + 0x100 * (w[0] as int);
    DivModUnique(n, 0x100, q1, w[3]);
    DivModUnique(q1, 0x100, q2, w[2]);
    DivModUnique(q2, 0x100, w[0], w[1]);
  }

  /** A word read at `pos` is the word stored in the four bytes there. */
  lemma ReadWithin(s: Bytes, pos: nat, w: Bytes)
    requires pos + 4 <= |s| && s[pos..pos + 4] == w
    ensures ReadU32BE(s, pos) == ReadU32BE(w, 0)
  {
    assert s[pos] == w[0] && s[pos + 1] == w[1] && s[pos + 2] == w[2] && s[pos + 3] == w[3];
  }

  // ---------------------------------------------------------------------------
  // Signed 32-bit big-endian (construct's Int32sb), two's complement
  // ---------------------------------------------------------------------------

  predicate InS32(i: int) {
    -0x8000_0000 <= i < 0x8000_0000
  }

  /** The 32-bit two's-complement pattern of a signed value, read as an unsigned number. */
  function Unsigned32(i: int): (u: nat)
    requires InS32(i)
    ensures u < 0x1_0000_0000 && (u == i || u == i + 0x1_0000_0000)
    ensures u < 0x8000_0000 <==> i >= 0
  {
    if i < 0 then i + 0x1_0000_0000 else i
  }

  /** A signed word is stored as its two's-complement pattern. */
  function EncodeS32BE(i: int): (r: Bytes)
    requires InS32(i)
    ensures |r| == 4
  {
    U32BE(Unsigned32(i))
  }

  /** The signed 32-bit big-endian word stored at `pos`. */
  function ReadS32BE(s: Bytes, pos: nat): (i: int)
    requires pos + 4 <= |s|
    ensures InS32(i)
  {
    var u := ReadU32BE(s, pos);
    if u >= 0x8000_0000 then u - 0x1_0000_0000 else u
  }

  /** A signed word stored at `pos` reads back there. */
  lemma ReadS32BEOf(s: Bytes, pos: nat, i: int)
    requires InS32(i) && pos + 4 <= |s| && s[pos..pos + 4] == EncodeS32BE(i)
    ensures ReadS32BE(s, pos) == i
  {
    ReadWithin(s, pos, EncodeS32BE(i));
    ReadU32BEOf(Unsigned32(i));
  }

  // ---------------------------------------------------------------------------
  // Bits and population counts
  // ---------------------------------------------------------------------------

  /** Bit `k` (value 2^k) of `n`. */
  predicate Bit(n: nat, k: nat)
    decreases k
  {
    if k == 0 then n % 2 == 1 else Bit(n / 2, k - 1)
  }

  /** Number of set bits of `n` (Python's `bin(n).count('1')`). */
  function PopCount(n: nat): nat {
    if n == 0 then 0 else n % 2 + PopCount(n / 2)
  }

  /** Sum of the bytes' population counts. */
  function PopCountBytes(s: Bytes): nat {
    if |s| == 0 then 0 else PopCountBytes(s[..|s| - 1]) + PopCount(s[|s| - 1])
  }

  /** Below the lowest bit `b` sits `y`: the bits of `n` are `b` and those of `y`. */
  lemma PopCountShift(n: nat, b: nat, y: nat)
    requires b < 2 && n == b + 2 * y
    ensures PopCount(n) == b + PopCount(y)
  {
    if n != 0 {
      assert n % 2 == b && n / 2 == y;
    }
  }

  lemma DivModUnique(n: nat, d: nat, q: nat, r: nat)
    requires d > 0 && r < d && n == d * q + r
    ensures n / d == q && n % d == r
  {
    var q', r' := n / d, n % d;
    assert d * (q - q') == r' - r;
    MulSmallIsZero(d, q - q');
  }

  lemma MulSmallIsZero(d: nat, x: int)
    requires d > 0
    ensures -(d as int) < d * x < d ==> x == 0
  {
    if x >= 1 {
      assert d * x == d * (x - 1) + d;
    } else if x <= -1 {
      assert d * x == d * (x + 1) - d;
    }
  }

  /** `q` shifted left by `k` bits, written without multiplication. */
  function Shl(q: nat, k: nat): nat {
    if k == 0 then q else 2 * Shl(q, k - 1)
  }

  /** A block of `k` low bits `r` under a high part `q`: the bits of both are counted. */
  lemma {:induction false} PopCountBlock(n: nat, q: nat, r: nat, k: nat)
    requires r < Pow2(k) && n == Shl(q, k) + r
    ensures PopCount(n) == PopCount(q) + PopCount(r)
  {
    if k > 0 {
      var h := r / 2;
      PopCountBlock(Shl(q, k - 1) + h, q, h, k - 1);
      PopCountShift(n, r % 2, Shl(q, k - 1) + h);
      PopCountShift(r, r % 2, h);
    }
  }

  lemma ShlByte(q: nat)
    ensures Shl(q, 8) == 0x100 * q
  {
    assert Shl(q, 1) == 2 * q;
    assert Shl(q, 2) == 4 * q;
    assert Shl(q, 3) == 8 * q;
    assert Shl(q, 4) == 16 * q;
    assert Shl(q, 5) == 32 * q;
    assert Shl(q, 6) == 64 * q;
    assert Shl(q, 7) == 128 * q;
  }

  /** Appending a byte below a number adds that byte's bits. */
  lemma PopCountByte(n: nat, q: nat, b: Byte)
    requires n == 0x100 * q + b
    ensures PopCount(n) == PopCount(q) + PopCount(b)
  {
    assert Pow2(8) == 0x100;
    ShlByte(q);
    PopCountBlock(n, q, b, 8);
  }

  /** The byte-wise population count of a big-endian word is that of its value. */
  lemma PopCountWord(w: Bytes)
    requires |w| == 4
    ensures PopCountBytes(w) == PopCount(ReadU32BE(w, 0))
  {
    PopCountBytesOfWord(w);
    PopCountOfWord(w);
  }

  lemma PopCountBytesOfWord(w: Bytes)
    requires |w| == 4
    ensures PopCountBytes(w) == PopCount(w[0]) + PopCount(w[1]) + PopCount(w[2]) + PopCount(w[3])
  {
    var a, b, c := w[..1], w[..2], w[..3];
    assert w[..4] == w && c[..2] == b && b[..1] == a && a[..0] == [];
    assert PopCountBytes(a) == PopCount(w[0]);
    assert PopCountBytes(b) == PopCountBytes(a) + PopCount(w[1]);
    assert PopCountBytes(c) == PopCountBytes(b) + PopCount(w[2]);
    assert PopCountBytes(w) == PopCountBytes(c) + PopCount(w[3]);
  }

  lemma PopCountOfWord(w: Bytes)
    requires |w| == 4
    ensures PopCount(ReadU32BE(w, 0)) == PopCount(w[0]) + PopCount(w[1]) + PopCount(w[2]) + PopCount(w[3])
  {
    var x2: nat := 0x100 * (w[0] as nat) + w[1];
    var x3: nat := 0x100 * x2 + w[2];
    PopCountByte(x2, w[0] as nat, w[1]);
    PopCountByte(x3, x2, w[2]);
    PopCountByte(ReadU32BE(w, 0), x3, w[3]);
  }

  // ---------------------------------------------------------------------------
  // Text and stream reads
  // ---------------------------------------------------------------------------

  predicate IsAscii(s: string) {
    forall i :: 0 <= i < |s| ==> s[i] < 128 as char
  }

  /** The bytes of an ASCII string. */
  function Ascii(s: string): (r: Bytes)
    requires IsAscii(s)
    ensures |r| == |s|
  {
    if |s| == 0 then [] else [s[0] as int] + Ascii(s[1..])
  }

  /** The string an ASCII byte sequence decodes to (Python's `bytes.decode('ascii')`). */
  function AsciiText(b: Bytes): (r: Option<string>)
    ensures r.Some? <==> forall i :: 0 <= i < |b| ==> b[i] < 128
    ensures r.Some? ==> |r.value| == |b| && forall i :: 0 <= i < |b| ==> r.value[i] as int == b[i]
  {
    if |b| == 0 then Some("")
    else if b[0] >= 128 then None
    else match AsciiText(b[1..])
      case None => None
      case Some(rest) => Some([b[0] as char] + rest)
  }

  lemma {:induction false} AsciiTextOfAscii(s: string)
    requires IsAscii(s)
    ensures AsciiText(Ascii(s)) == Some(s)
  {
    if |s| > 0 {
      var b := Ascii(s);
      assert b[1..] == Ascii(s[1..]);
      AsciiTextOfAscii(s[1..]);
      assert (b[0] as char) == s[0];
      assert [s[0]] + s[1..] == s;
    }
  }

  /**
    Python's `seek(pos)` then `read(n)` on an in-memory stream: at most `n` bytes,
    fewer when the stream ends first, none when `pos` is past the end.
   */
  function ReadUpTo(s: Bytes, pos: nat, n: nat): (r: Bytes)
    ensures |r| == if pos + n <= |s| then n else if pos <= |s| then |s| - pos else 0
    ensures forall k :: 0 <= k < |r| ==> r[k] == s[pos + k]
  {
    if pos + n <= |s| then s[pos..pos + n]
    else if pos <= |s| then s[pos..]
    else []
  }

  /**
    Reading `n` bytes at absolute offset `pos` of an in-memory stream, as construct
    does after seeking: a negative length or a short read fails, an empty read never does.
   */
  function Read(s: Bytes, pos: nat, n: int): (r: Option<Bytes>)
    ensures r.Some? <==> n == 0 || (n > 0 && pos + n <= |s|)
    ensures r.Some? ==> |r.value| == n
    ensures r.Some? && n > 0 ==> r.value == s[pos..pos + n]
  {
    if n == 0 then Some([])
    else if n < 0 || pos + n > |s| then None
    else Some(s[pos..pos + n])
  }
}

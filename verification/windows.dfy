/**
  Byte strings placed at an offset of a larger stream, the way construct's
  `Pointer` places a sub-structure, and how such placements compose.
 */
module Windows {

  import opened Wrappers
  import opened Bytes

  /** `b` occupies the bytes of `s` from offset `pos` on. */
  predicate Holds(s: Bytes, pos: nat, b: Bytes) {
    pos + |b| <= |s| && s[pos..pos + |b|] == b
  }

  /** A string placed at the front of a concatenation stays where it was. */
  lemma HoldsLeft(a: Bytes, b: Bytes, pos: nat, c: Bytes)
    requires Holds(a, pos, c)
    ensures Holds(a + b, pos, c)
  {
    assert (a + b)[pos..pos + |c|] == a[pos..pos + |c|];
  }

  /** A string placed in the back of a concatenation moves by the length of the front. */
  lemma HoldsRight(a: Bytes, b: Bytes, pos: nat, c: Bytes, at: nat)
    requires Holds(b, pos, c) && at == |a| + pos
    ensures Holds(a + b, at, c)
  {
    assert (a + b)[at..at + |c|] == b[pos..pos + |c|];
  }

  /** A placement inside a placed string is a placement in the whole stream. */
  lemma HoldsWithin(s: Bytes, pos: nat, b: Bytes, off: nat, c: Bytes, at: nat)
    requires Holds(s, pos, b) && Holds(b, off, c) && at == pos + off
    ensures Holds(s, at, c)
  {
    SubSlice(s, pos, b, off, off + |c|);
  }

  /** Cutting the stream after a placed string keeps it. */
  lemma HoldsPrefix(s: Bytes, len: nat, pos: nat, c: Bytes)
    requires len <= |s| && pos + |c| <= len && Holds(s, pos, c)
    ensures Holds(s[..len], pos, c)
  {
    assert s[..len][pos..pos + |c|] == s[pos..pos + |c|];
  }

  /** Both halves of a placed concatenation are placed, one after the other. */
  lemma HoldsSplit(s: Bytes, pos: nat, a: Bytes, b: Bytes, at: nat)
    requires Holds(s, pos, a + b) && at == pos + |a|
    ensures Holds(s, pos, a) && Holds(s, at, b)
  {
    SubSlice(s, pos, a + b, 0, |a|);
    SubSlice(s, pos, a + b, |a|, |a| + |b|);
    assert (a + b)[..|a|] == a && (a + b)[|a|..] == b;
  }

  /** Two strings placed one after the other are their concatenation placed. */
  lemma HoldsJoin(s: Bytes, pos: nat, a: Bytes, at: nat, b: Bytes)
    requires Holds(s, pos, a) && Holds(s, at, b) && at == pos + |a|
    ensures Holds(s, pos, a + b)
  {
    assert s[pos..at + |b|] == s[pos..at] + s[at..at + |b|];
  }

  /** A string placed in one of four consecutive parts is placed in their concatenation. */
  lemma HoldsInFirst(a: Bytes, b: Bytes, c: Bytes, d: Bytes, pos: nat, x: Bytes)
    requires Holds(a, pos, x)
    ensures Holds(a + b + c + d, pos, x)
  {
    HoldsLeft(a, b, pos, x);
    HoldsLeft(a + b, c, pos, x);
    HoldsLeft(a + b + c, d, pos, x);
  }

  lemma HoldsInSecond(a: Bytes, b: Bytes, c: Bytes, d: Bytes, pos: nat, x: Bytes, at: nat)
    requires Holds(b, pos, x) && at == |a| + pos
    ensures Holds(a + b + c + d, at, x)
  {
    HoldsRight(a, b, pos, x, at);
    HoldsLeft(a + b, c, at, x);
    HoldsLeft(a + b + c, d, at, x);
  }

  lemma HoldsInThird(a: Bytes, b: Bytes, c: Bytes, d: Bytes, pos: nat, x: Bytes, at: nat)
    requires Holds(c, pos, x) && at == |a| + |b| + pos
    ensures Holds(a + b + c + d, at, x)
  {
    HoldsRight(a + b, c, pos, x, at);
    HoldsLeft(a + b + c, d, at, x);
  }

  lemma HoldsInFourth(a: Bytes, b: Bytes, c: Bytes, d: Bytes, pos: nat, x: Bytes, at: nat)
    requires Holds(d, pos, x) && at == |a| + |b| + |c| + pos
    ensures Holds(a + b + c + d, at, x)
  {
    HoldsRight(a + b + c, d, pos, x, at);
  }

  /** The first `k` blocks, one after another. */
  function Join(blocks: seq<Bytes>, k: nat): Bytes
    requires k <= |blocks|
  {
    if k == 0 then [] else Join(blocks, k - 1) + blocks[k - 1]
  }

  lemma {:induction false} JoinLength(blocks: seq<Bytes>, k: nat, size: nat)
    requires k <= |blocks| && forall j :: 0 <= j < k ==> |blocks[j]| == size
    ensures |Join(blocks, k)| == size * k
  {
    if k > 0 {
      JoinLength(blocks, k - 1, size);
    }
  }

  /** In a join of equal-sized blocks, block `i` starts at `size * i`. */
  lemma {:induction false} JoinAt(blocks: seq<Bytes>, k: nat, size: nat, i: nat, at: nat)
    requires i < k <= |blocks| && forall j :: 0 <= j < k ==> |blocks[j]| == size
    requires at == size * i
    ensures Holds(Join(blocks, k), at, blocks[i])
  {
    if i == k - 1 {
      JoinLength(blocks, k - 1, size);
      HoldsWhole(blocks[i]);
      HoldsRight(Join(blocks, k - 1), blocks[i], 0, blocks[i], at);
    } else {
      JoinAt(blocks, k - 1, size, i, at);
      HoldsLeft(Join(blocks, k - 1), blocks[k - 1], at, blocks[i]);
    }
  }

  /** A whole stream is placed at its own start. */
  lemma HoldsWhole(s: Bytes)
    ensures Holds(s, 0, s)
  {
    assert s[0..|s|] == s;
  }
}

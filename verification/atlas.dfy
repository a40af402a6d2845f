/**
  The integer arithmetic of the font-atlas generator: which characters make it
  into the charlist, how large a texture the glyph boxes need, which grid cell
  each character gets, and where inside its cell a glyph is drawn.  Glyph widths
  come from the font rasteriser and appear here as a parameter.
 */
module Atlas {

  import Bytes
  import Align

  /** A width and a height in pixels. */
  datatype Dims = Dims(w: nat, h: nat)

  /** The largest code point kept in the charlist: the end of the Basic Multilingual Plane. */
  const MaxCodepoint: nat := 0xFFFF

  // ---------------------------------------------------------------- charlist

  /** The charlist loop: each code point of the text, in order, when it lies in the BMP. */
  function BmpOnly(text: seq<nat>): (r: seq<nat>)
    ensures |r| <= |text|
  {
    if |text| == 0 then []
    else BmpOnly(text[..|text| - 1]) + Kept(text[|text| - 1])
  }

  /** What one character contributes to the charlist. */
  function Kept(c: nat): seq<nat> {
    if c <= MaxCodepoint then [c] else []
  }

  /** Filtering a concatenation filters each part, so the charlist keeps the text's order. */
  lemma {:induction false} BmpOnlyAppend(a: seq<nat>, b: seq<nat>)
    ensures BmpOnly(a + b) == BmpOnly(a) + BmpOnly(b)
    decreases |b|
  {
    if |b| == 0 {
      assert a + b == a;
    } else {
      var front := b[..|b| - 1];
      assert (a + b)[..|a + b| - 1] == a + front;
      assert (a + b)[|a + b| - 1] == b[|b| - 1];
      BmpOnlyAppend(a, front);
    }
  }

  /** A code point is in the charlist exactly when it is in the text and in the BMP. */
  lemma {:induction false} BmpOnlyMembers(text: seq<nat>)
    ensures forall c :: c in BmpOnly(text) <==> c in text && c <= MaxCodepoint
    decreases |text|
  {
    if |text| > 0 {
      var front := text[..|text| - 1];
      BmpOnlyMembers(front);
      assert text == front + [text[|text| - 1]];
    }
  }

  /** The charlist is the text itself exactly when the text has no character beyond the BMP. */
  lemma BmpOnlyIdentity(text: seq<nat>)
    ensures BmpOnly(text) == text <==> forall i :: 0 <= i < |text| ==> text[i] <= MaxCodepoint
  {
    BmpOnlyMembers(text);
    if forall i :: 0 <= i < |text| ==> text[i] <= MaxCodepoint {
      BmpOnlyKeepsAll(text);
    }
  }

  lemma {:induction false} BmpOnlyKeepsAll(text: seq<nat>)
    requires forall i :: 0 <= i < |text| ==> text[i] <= MaxCodepoint
    ensures BmpOnly(text) == text
    decreases |text|
  {
    if |text| > 0 {
      var front := text[..|text| - 1];
      BmpOnlyKeepsAll(front);
      assert text == front + [text[|text| - 1]];
    }
  }

  // ---------------------------------------------------------------- texture size

  /** How many glyph boxes fit side by side in a texture row. */
  function CharsPerRow(tex: Dims, box: Dims): nat
    requires box.w >= 1
  {
    tex.w / box.w
  }

  /** The number of rows `ceil(a / b)`: the least `q` with `b * q >= a`. */
  function CeilDiv(a: nat, b: nat): (q: nat)
    requires b >= 1
    ensures a <= b * q
    ensures q == 0 || b * (q - 1) < a
  {
    var q := (a + b - 1) / b;
    Bytes.DivModUnique(a + b - 1, b, q, (a + b - 1) % b);
    q
  }

  /** `fits_in_tex`: some box fits in a row, and the rows the characters need fit in the height. */
  predicate FitsInTex(tex: Dims, box: Dims, n: nat)
    requires box.w >= 1
  {
    var perRow := CharsPerRow(tex, box);
    perRow != 0 && tex.h >= CeilDiv(n, perRow) * box.h
  }

  /** The glyph box of the `k`-th character, in row-major order, lies inside the texture. */
  predicate CellInside(tex: Dims, box: Dims, perRow: nat, k: nat)
    requires perRow >= 1
  {
    (k % perRow + 1) * box.w <= tex.w && (k / perRow + 1) * box.h <= tex.h
  }

  lemma MulLe(c: nat, a: nat, b: nat)
    requires a <= b
    ensures c * a <= c * b
  {
  }

  /** Rounding a quotient up takes exactly the last index's row plus one. */
  lemma CeilDivLast(n: nat, b: nat)
    requires b >= 1 && n >= 1
    ensures CeilDiv(n, b) == (n - 1) / b + 1
  {
    var rows := CeilDiv(n, b);
    assert rows >= 1;
    var m := rows - 1;
    var below := b * m;
    MulNext(below, m, b);
    Bytes.DivModUnique(n - 1, b, m, n - 1 - below);
  }

  /**
    A texture fits the characters exactly when every character's box, placed
    row-major `perRow` to a row, lies inside it.
   */
  lemma FitsIffCellsInside(tex: Dims, box: Dims, n: nat)
    requires box.w >= 1
    ensures FitsInTex(tex, box, n) <==>
      CharsPerRow(tex, box) >= 1 && forall k :: 0 <= k < n ==> CellInside(tex, box, CharsPerRow(tex, box), k)
  {
    var perRow := CharsPerRow(tex, box);
    if perRow >= 1 {
      Bytes.DivModUnique(tex.w, box.w, perRow, tex.w % box.w);
      if FitsInTex(tex, box, n) {
        forall k | 0 <= k < n
          ensures CellInside(tex, box, perRow, k)
        {
          CellInsideOf(tex, box, n, perRow, k);
        }
      } else if n >= 1 {
        CeilDivLast(n, perRow);
        assert !CellInside(tex, box, perRow, n - 1);
      }
    }
  }

  lemma CellInsideOf(tex: Dims, box: Dims, n: nat, perRow: nat, k: nat)
    requires box.w >= 1 && perRow == CharsPerRow(tex, box) >= 1 && k < n
    requires perRow * box.w <= tex.w
    requires tex.h >= CeilDiv(n, perRow) * box.h
    ensures CellInside(tex, box, perRow, k)
  {
    var row, col := k / perRow, k % perRow;
    Bytes.DivModUnique(k, perRow, row, col);
    var rows := CeilDiv(n, perRow);
    if rows < row + 1 {
      MulLe(perRow, rows, row);
    }
    MulLe(box.h, row + 1, rows);
    MulLe(box.w, col + 1, perRow);
  }

  /** The `k`-th size the growth loop tries: (1,1), (2,1), (2,2), (4,2), (4,4), ... */
  function Candidate(k: nat): (t: Dims)
    ensures t.w == t.h || t.w == 2 * t.h
    ensures t.w >= 1 && t.h >= 1
  {
    Dims(Bytes.Pow2((k + 1) / 2), Bytes.Pow2(k / 2))
  }

  /** One turn of the growth loop: a wide texture doubles its height, any other its width. */
  function Grow(t: Dims): Dims {
    if t.w > t.h then Dims(t.w, 2 * t.h) else Dims(2 * t.w, t.h)
  }

  /** The growth loop walks through the candidates in order. */
  lemma GrowStep(k: nat)
    ensures Grow(Candidate(k)) == Candidate(k + 1)
  {
    var m := k / 2;
    if k % 2 == 0 {
      assert (k + 1) / 2 == m && (k + 2) / 2 == m + 1;
    } else {
      assert (k + 1) / 2 == m + 1 && (k + 2) / 2 == m + 1;
    }
  }

  /** Every size the loop tries is a power of two on both sides. */
  lemma {:induction false} CandidatePowersOfTwo(k: nat)
    ensures Align.IsPowerOfTwo(Candidate(k).w) && Align.IsPowerOfTwo(Candidate(k).h)
  {
    Pow2IsPowerOfTwo((k + 1) / 2);
    Pow2IsPowerOfTwo(k / 2);
  }

  lemma {:induction false} Pow2IsPowerOfTwo(k: nat)
    ensures Align.IsPowerOfTwo(Bytes.Pow2(k))
  {
    if k > 0 {
      Pow2IsPowerOfTwo(k - 1);
      var p := Bytes.Pow2(k - 1);
      assert (2 * p) / 2 == p && (2 * p) % 2 == 0;
    }
  }

  /** A texture at least `bound` pixels on both sides fits, for a large enough `bound`. */
  lemma LargeFits(tex: Dims, box: Dims, n: nat, bound: nat)
    requires box.w >= 1 && bound >= box.w * (n + 1) && bound >= box.h
    requires tex.w >= bound && tex.h >= bound
    ensures FitsInTex(tex, box, n)
  {
    var perRow := CharsPerRow(tex, box);
    Bytes.DivModUnique(tex.w, box.w, perRow, tex.w % box.w);
    if perRow < n + 1 {
      MulLe(box.w, perRow + 1, n + 1);
    }
    var rows := CeilDiv(n, perRow);
    if rows > 1 {
      MulLe(perRow, 1, rows - 1);
    }
    MulLe(box.h, rows, 1);
  }

  /** A size past which every texture fits. */
  function GrowthBound(box: Dims, n: nat): (bound: nat)
    ensures bound >= box.w * (n + 1) && bound >= box.h
  {
    box.w * (n + 1) + box.h
  }

  /**
    One turn of the growth loop from a candidate that does not fit yet: the next
    candidate stays within twice the bound, and the texture grows.
   */
  lemma GrowWithin(tex: Dims, steps: nat, box: Dims, n: nat, bound: nat)
    requires box.w >= 1 && bound == GrowthBound(box, n)
    requires tex == Candidate(steps) && !FitsInTex(tex, box, n)
    ensures Grow(tex) == Candidate(steps + 1)
    ensures Grow(tex).w <= 2 * bound && Grow(tex).h <= 2 * bound
    ensures Grow(tex).w + Grow(tex).h > tex.w + tex.h
  {
    if tex.h >= bound {
      LargeFits(tex, box, n, bound);
    }
    GrowStep(steps);
  }

  /**
    The texture-growth loop: starting from 1x1, grow until the characters fit.
    The result is the first candidate that fits.
   */
  method TextureSize(box: Dims, n: nat) returns (tex: Dims, steps: nat)
    requires box.w >= 1
    ensures tex == Candidate(steps) && FitsInTex(tex, box, n)
    ensures forall j :: 0 <= j < steps ==> !FitsInTex(Candidate(j), box, n)
  {
    ghost var bound := GrowthBound(box, n);
    tex, steps := Dims(1, 1), 0;
    while !FitsInTex(tex, box, n)
      invariant tex == Candidate(steps)
      invariant forall j :: 0 <= j < steps ==> !FitsInTex(Candidate(j), box, n)
      invariant tex.w <= 2 * bound + 1 && tex.h <= 2 * bound + 1
      decreases 4 * bound + 2 - tex.w - tex.h
    {
      GrowWithin(tex, steps, box, n, bound);
      tex, steps := Grow(tex), steps + 1;
    }
  }

  // ---------------------------------------------------------------- glyph placement

  /** `max_halfwidth_width`: half the box width, rounded up. */
  function MaxHalfwidthWidth(boxW: nat): (m: nat)
    ensures boxW <= 2 * m <= boxW + 1
  {
    (boxW + 1) / 2
  }

  /** Where a glyph sits in its cell: whether it is half-width, and its left offset. */
  datatype Placement = Placement(halfwidth: bool, glyphX: int)

  /** The width a glyph is centred in: half the box for a half-width glyph, else the box. */
  function Slot(halfwidth: bool, boxW: nat): nat {
    if halfwidth then MaxHalfwidthWidth(boxW) else boxW
  }

  /**
    A glyph of measured `width` is half-width when it is no wider than half the
    box, rounded up, and is centred in its slot, any odd pixel going right.
    Python's `//` rounds down, and so does Dafny's `/` for the divisor 2.
   */
  function Place(width: nat, boxW: nat): (p: Placement)
    ensures p.halfwidth <==> 2 * width <= boxW + 1
    ensures 2 * p.glyphX <= Slot(p.halfwidth, boxW) - width <= 2 * p.glyphX + 1
    ensures width <= Slot(p.halfwidth, boxW) ==> 0 <= p.glyphX && p.glyphX + width <= Slot(p.halfwidth, boxW)
    ensures Slot(p.halfwidth, boxW) <= boxW
  {
    var half := MaxHalfwidthWidth(boxW);
    if width <= half then Placement(true, (half - width) / 2)
    else Placement(false, (boxW - width) / 2)
  }

  // ---------------------------------------------------------------- the atlas

  /** One entry of the generated font's `chars`. */
  datatype OutChar = OutChar(codepoint: nat, halfwidth: bool, texCol: nat, texRow: nat, glyphX: int, glyphWidth: nat)

  /** The generated font description. */
  datatype OutFont = OutFont(
    id: nat,
    advanceWidth: int,
    lineHeight: int,
    boxWidth: nat,
    boxHeight: nat,
    layoutParam1: nat,
    layoutParam2Numerator: nat,
    layoutParam2Denominator: nat,
    otherParams: nat,
    texSizeChars: nat,
    chars: seq<OutChar>)

  /** Where the rasteriser's pen goes for a glyph: left edge of its ink, and baseline. */
  datatype Pen = Pen(x: int, y: int)

  /** The record of the `k`-th character: row-major cell, placement from its width. */
  function CharRecord(c: nat, width: nat, k: nat, perRow: nat, boxW: nat): OutChar
    requires perRow >= 1
  {
    var p := Place(width, boxW);
    OutChar(c, p.halfwidth, k % perRow, k / perRow, p.glyphX, width)
  }

  /** The pen of the `k`-th character: its cell's corner, moved by the glyph offset. */
  function PenOf(width: nat, k: nat, perRow: nat, box: Dims, ascent: int): Pen
    requires perRow >= 1
  {
    Pen((k % perRow) * box.w + Place(width, box.w).glyphX, ascent + (k / perRow) * box.h)
  }

  /** Moving to the next character steps one column right, or wraps to the next row. */
  lemma NextCell(k: nat, perRow: nat, col: nat, row: nat)
    requires perRow >= 1 && col == k % perRow && row == k / perRow
    ensures col + 1 >= perRow ==> (k + 1) % perRow == 0 && (k + 1) / perRow == row + 1
    ensures col + 1 < perRow ==> (k + 1) % perRow == col + 1 && (k + 1) / perRow == row
  {
    Bytes.DivModUnique(k, perRow, row, col);
    if col + 1 >= perRow {
      Bytes.DivModUnique(k + 1, perRow, row + 1, 0);
    } else {
      Bytes.DivModUnique(k + 1, perRow, row, col + 1);
    }
  }

  lemma MulNext(x: int, c: nat, b: nat)
    requires x == c * b
    ensures x + b == (c + 1) * b
  {
  }

  /**
    The generator: filter the text to the charlist, grow the texture until the
    glyph boxes fit, then walk the characters row by row, recording each one's
    cell and placement and where its pen goes.  `measure` is the rasteriser's
    advance width of a character, `ascent` the first font's ascent.
   */
  method Generate(text: seq<nat>, measure: nat -> nat, box: Dims, advance: (int, int), ascent: int)
    returns (tex: Dims, steps: nat, font: OutFont, pens: seq<Pen>)
    requires box.w >= 1
    ensures tex == Candidate(steps) && FitsInTex(tex, box, |BmpOnly(text)|)
    ensures forall j :: 0 <= j < steps ==> !FitsInTex(Candidate(j), box, |BmpOnly(text)|)
    ensures font.texSizeChars == CharsPerRow(tex, box) >= 1
    ensures font.boxWidth == box.w && font.boxHeight == box.h
    ensures font.advanceWidth == advance.0 && font.lineHeight == advance.1
    ensures |font.chars| == |BmpOnly(text)| == |pens|
    ensures forall k :: 0 <= k < |font.chars| ==>
      font.chars[k] == CharRecord(BmpOnly(text)[k], measure(BmpOnly(text)[k]), k, font.texSizeChars, box.w)
    ensures forall k :: 0 <= k < |pens| ==>
      pens[k] == PenOf(measure(BmpOnly(text)[k]), k, font.texSizeChars, box, ascent)
    ensures forall k :: 0 <= k < |font.chars| ==>
      font.chars[k].codepoint <= MaxCodepoint && CellInside(tex, box, font.texSizeChars, k)
  {
    var charlist := BmpOnly(text);
    tex, steps := TextureSize(box, |charlist|);
    var perRow := tex.w / box.w;
    FitsIffCellsInside(tex, box, |charlist|);
    BmpOnlyMembers(text);

    var chars: seq<OutChar> := [];
    pens := [];
    var col, row := 0, 0;
    var x, y := 0, ascent;
    for i := 0 to |charlist|
      invariant |chars| == i && |pens| == i
      invariant col == i % perRow && row == i / perRow
      invariant x == col * box.w
      invariant y == ascent + row * box.h
      invariant forall k :: 0 <= k < i ==>
        chars[k] == CharRecord(charlist[k], measure(charlist[k]), k, perRow, box.w)
      invariant forall k :: 0 <= k < i ==>
        pens[k] == PenOf(measure(charlist[k]), k, perRow, box, ascent)
    {
      var width := measure(charlist[i]);
      var p := Place(width, box.w);
      chars := chars + [OutChar(charlist[i], p.halfwidth, col, row, p.glyphX, width)];
      pens := pens + [Pen(x + p.glyphX, y)];
      NextCell(i, perRow, col, row);
      MulNext(x, col, box.w);
      MulNext(y - ascent, row, box.h);
      col, x := col + 1, x + box.w;
      if col >= perRow {
        col, row := 0, row + 1;
        x, y := 0, y + box.h;
      }
    }
    font := OutFont(0, advance.0, advance.1, box.w, box.h, 3, 1, 2, 0, perRow, chars);
    forall k | 0 <= k < |chars|
      ensures chars[k].codepoint <= MaxCodepoint
    {
      assert chars[k].codepoint == charlist[k] && charlist[k] in charlist;
    }
  }
}

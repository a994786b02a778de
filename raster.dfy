/** The in-place raster transforms of Convert00.cpp. Pixel data is the
    bitmap's byte buffer: `height` rows of RowSize(width) bytes each, every
    row holding `width` pixels of three bytes (blue, green, red) followed by
    padding up to a multiple of four bytes. */
module Raster {

  /** An unsigned 8-bit value (uint8_t). */
  type Uint8 = x: int | 0 <= x < 256

  // ---------------------------------------------------------------------
  // Row layout

  /** C++ division of int operands by a positive divisor: it truncates
      toward zero, where Dafny's `/` rounds down. The quotient is the
      multiple count nearest zero, and the remainder a - q * b takes the
      sign of the dividend and is smaller than the divisor in size. */
  function CDiv(a: int, b: int): (q: int)
    requires b > 0
    ensures a >= 0 ==> 0 <= q && q * b <= a < (q + 1) * b
    ensures a < 0 ==> q <= 0 && (q - 1) * b < a <= q * b
    ensures a >= 0 ==> 0 <= a - q * b < b
    ensures a < 0 ==> -b < a - q * b <= 0
  {
    if a >= 0 then
      PosQuotient(a, b, a / b);
      a / b
    else
      NegQuotient(a, b, -((-a) / b));
      -((-a) / b)
  }

  /** Dafny's division of a natural number: the quotient counts the whole
      multiples of b in a. */
  lemma FloorDivision(a: nat, b: int)
    requires b > 0
    ensures (a / b) * b <= a < (a / b + 1) * b
  {
    var q, m := a / b, a % b;
    assert a == q * b + m && 0 <= m < b;
    assert (q + 1) * b == q * b + b;
  }

  /** The truncated quotient of a negative dividend. */
  lemma NegQuotient(a: int, b: int, q: int)
    requires b > 0 && a < 0 && q == -((-a) / b)
    ensures q <= 0 && (q - 1) * b < a <= q * b
    ensures -b < a - q * b <= 0
  {
    var d := (-a) / b;
    FloorDivision(-a, b);
    assert q * b == -(d * b);
    assert (q - 1) * b == -((d + 1) * b);
  }

  /** The truncated quotient of a non-negative dividend. */
  lemma PosQuotient(a: int, b: int, q: int)
    requires b > 0 && a >= 0 && q == a / b
    ensures 0 <= q && q * b <= a < (q + 1) * b
    ensures 0 <= a - q * b < b
  {
    FloorDivision(a, b);
  }

  /** rowSize = ((width * 3 + 3) / 4) * 4 (Convert00.cpp:37, 52, 64, 140). */
  function RowSize(width: int): int {
    CDiv(width * 3 + 3, 4) * 4
  }

  /** For a non-negative width the row size is the least multiple of four
      that holds 3 * width bytes. */
  lemma RowSizePadding(width: int)
    requires width >= 0
    ensures RowSize(width) % 4 == 0
    ensures 3 * width <= RowSize(width) < 3 * width + 4
  {
    var q := CDiv(width * 3 + 3, 4);
    assert q * 4 <= width * 3 + 3 < (q + 1) * 4;
    assert RowSize(width) == q * 4;
  }

  lemma RowSizeLeast(width: int, m: int)
    requires width >= 0 && m % 4 == 0 && 3 * width <= m
    ensures RowSize(width) <= m
  {
    RowSizePadding(width);
    var n := width * 3 + 3;
    assert RowSize(width) == 4 * (n / 4);
    assert m == 4 * (m / 4);
  }

  /** A negative width gives no positive row size, so every loop over a
      row's bytes is empty. */
  lemma RowSizeNegative(width: int)
    requires width < 0
    ensures RowSize(width) <= 0
  {
    var n := width * 3 + 3;
    if n >= 0 {
      assert n < 4;
      assert n / 4 == 0;
    } else {
      assert -n / 4 >= 0;
    }
  }

  // ---------------------------------------------------------------------
  // Arithmetic on row and offset

  /** The sign of k * rs for a positive rs, proved by counting up or down
      one row at a time. */
  lemma {:induction false} MulAtLeast(k: int, rs: int)
    requires rs > 0
    ensures k >= 0 ==> k * rs >= 0
    ensures k >= 1 ==> k * rs >= rs
    ensures k <= 0 ==> k * rs <= 0
    ensures k <= -1 ==> k * rs <= -rs
    decreases if k >= 0 then k else -k
  {
    if k > 0 {
      MulAtLeast(k - 1, rs);
      assert k * rs == (k - 1) * rs + rs;
    } else if k < 0 {
      MulAtLeast(k + 1, rs);
      assert k * rs == (k + 1) * rs - rs;
    }
  }

  /** Byte y * rs + o lies in row y at offset o. */
  lemma RowOffset(rs: int, y: int, o: int)
    requires rs > 0 && 0 <= o < rs
    ensures (y * rs + o) / rs == y && (y * rs + o) % rs == o
  {
    var p := y * rs + o;
    var q, r := p / rs, p % rs;
    assert (q - y) * rs == o - r;
    MulAtLeast(q - y, rs);
  }

  /** Byte o of row y lies before row h when y does. */
  lemma RowBelow(rs: int, h: int, y: int, o: int)
    requires rs > 0 && 0 <= y < h && 0 <= o < rs
    ensures 0 <= y * rs + o < rs * h
  {
    MulAtLeast(y, rs);
    MulAtLeast(h - y, rs);
    assert (h - y) * rs == rs * h - y * rs;
  }

  /** The bytes of rows 0 .. h-1 are exactly those below rs * h. */
  lemma RowRange(rs: int, h: int, p: int)
    requires rs > 0 && 0 <= p
    ensures 0 <= p / rs
    ensures p < rs * h <==> p / rs < h
  {
    var y, o := p / rs, p % rs;
    assert p == y * rs + o && 0 <= o < rs;
    MulAtLeast(y, rs);
    MulAtLeast(h - y, rs);
    assert rs * h - p == (h - y) * rs - o;
  }

  /** std::swap of two bytes of the buffer. */
  method Swap(a: array<Uint8>, i: int, j: int)
    requires 0 <= i < a.Length && 0 <= j < a.Length
    modifies a
    ensures a[..] == old(a[..])[i := old(a[j])][j := old(a[i])]
  {
    a[i], a[j] := a[j], a[i];
  }

  // ---------------------------------------------------------------------
  // flipVertically (Convert00.cpp:51-60)

  /** The byte that trades places with byte p when the rows are mirrored:
      same offset, row height-1-y instead of y. */
  function MirrorRow(rs: int, height: int, p: int): (q: int)
    requires rs > 0 && 0 <= p < rs * height
    ensures 0 <= q < rs * height
    ensures q / rs == height - 1 - p / rs && q % rs == p % rs
  {
    RowRange(rs, height, p);
    RowOffset(rs, height - 1 - p / rs, p % rs);
    RowRange(rs, height, (height - 1 - p / rs) * rs + p % rs);
    (height - 1 - p / rs) * rs + p % rs
  }

  /** The buffer with its rows in reverse order; bytes past the last row are
      kept. */
  ghost function FlippedVertically(data: seq<Uint8>, width: int, height: int): (r: seq<Uint8>)
    requires RowSize(width) * height <= |data|
    ensures |r| == |data|
  {
    var rs := RowSize(width);
    seq(|data|, (p: int) requires 0 <= p < |data| =>
      if rs > 0 && p < rs * height then data[MirrorRow(rs, height, p)] else data[p])
  }

  /** Byte p has already been exchanged when the loops stand at row y and
      offset x. */
  ghost predicate RowDone(rs: int, height: int, y: int, x: int, p: int) {
    rs > 0 && 0 <= p < rs * height &&
    (p / rs < y || p / rs > height - 1 - y || ((p / rs == y || p / rs == height - 1 - y) && p % rs < x))
  }

  /** Advancing the offset by one adds the two bytes just exchanged. */
  lemma RowDoneStep(rs: int, height: int, y: int, x: int, p: int)
    requires rs > 0 && 0 <= y < height / 2 && 0 <= x < rs
    ensures RowDone(rs, height, y, x + 1, p) <==>
      RowDone(rs, height, y, x, p) || p == y * rs + x || p == (height - 1 - y) * rs + x
  {
    RowBelow(rs, height, y, x);
    RowBelow(rs, height, height - 1 - y, x);
    if 0 <= p {
      SamePlace(rs, p, y, x);
      SamePlace(rs, p, height - 1 - y, x);
    }
  }

  /** Byte p is byte o of row y exactly when its row is y and its offset o. */
  lemma SamePlace(rs: int, p: int, y: int, o: int)
    requires rs > 0 && 0 <= o < rs
    ensures p == y * rs + o <==> p / rs == y && p % rs == o
  {
    RowOffset(rs, y, o);
    assert p == (p / rs) * rs + p % rs;
  }

  /** The pair of row indices p and MirrorRow(p) for the bytes exchanged at
      row y, offset x. */
  lemma MirrorRowPair(rs: int, height: int, y: int, x: int)
    requires rs > 0 && 0 <= y < height / 2 && 0 <= x < rs
    ensures 0 <= y * rs + x < (height - 1 - y) * rs + x < rs * height
    ensures MirrorRow(rs, height, y * rs + x) == (height - 1 - y) * rs + x
    ensures MirrorRow(rs, height, (height - 1 - y) * rs + x) == y * rs + x
  {
    var top, bottom := y * rs + x, (height - 1 - y) * rs + x;
    RowBelow(rs, height, y, x);
    RowBelow(rs, height, height - 1 - y, x);
    assert top < bottom by {
      MulAtLeast(height - 1 - y - y, rs);
      assert bottom - top == (height - 1 - y - y) * rs;
    }
    assert MirrorRow(rs, height, top) == bottom by {
      RowOffset(rs, y, x);
    }
    assert MirrorRow(rs, height, bottom) == top by {
      RowOffset(rs, height - 1 - y, x);
    }
  }

  /** The two bytes about to be exchanged at row y, offset x are untouched. */
  lemma RowPairPending(rs: int, height: int, y: int, x: int)
    requires rs > 0 && 0 <= y < height / 2 && 0 <= x < rs
    ensures !RowDone(rs, height, y, x, y * rs + x) && !RowDone(rs, height, y, x, (height - 1 - y) * rs + x)
  {
    RowOffset(rs, y, x);
    RowOffset(rs, height - 1 - y, x);
  }

  /** A finished pair of rows is the same as the next pair not yet begun. */
  lemma RowDoneNext(rs: int, height: int, y: int, p: int)
    requires rs > 0
    ensures RowDone(rs, height, y, rs, p) <==> RowDone(rs, height, y + 1, 0, p)
  {
    if 0 <= p {
      assert p % rs < rs;
    }
  }

  /** Once the loops have passed the upper half, every byte either has been
      exchanged or lies in the middle row, which is its own mirror. */
  lemma FlipVerticallyDone(rs: int, height: int, p: int)
    requires rs > 0 && 0 <= p < rs * height
    ensures RowDone(rs, height, height / 2, 0, p) || MirrorRow(rs, height, p) == p
  {
    var q := MirrorRow(rs, height, p);
    assert p == rs * (p / rs) + p % rs;
    assert q == rs * (q / rs) + q % rs;
  }

  /** The loop state of FlipVertically: the bytes already exchanged hold
      their mirror's original value, the others their own. */
  ghost predicate FlipVerticallyState(a: seq<Uint8>, data: seq<Uint8>, rs: int, height: int, y: int, x: int)
    requires |a| == |data| && (rs > 0 ==> rs * height <= |data|)
  {
    forall p :: 0 <= p < |a| ==>
      a[p] == if RowDone(rs, height, y, x, p) then data[MirrorRow(rs, height, p)] else data[p]
  }

  lemma FlipVerticallyStep(a: seq<Uint8>, data: seq<Uint8>, rs: int, height: int, y: int, x: int,
                           top: int, bottom: int)
    requires |a| == |data| && rs > 0 && rs * height <= |data|
    requires 0 <= y < height / 2 && 0 <= x < rs
    requires top == y * rs + x && bottom == (height - 1 - y) * rs + x
    requires FlipVerticallyState(a, data, rs, height, y, x)
    ensures 0 <= top < bottom < |a|
    ensures FlipVerticallyState(a[top := a[bottom]][bottom := a[top]], data, rs, height, y, x + 1)
  {
    MirrorRowPair(rs, height, y, x);
    var b := a[top := a[bottom]][bottom := a[top]];
    forall p | 0 <= p < |b|
      ensures b[p] == if RowDone(rs, height, y, x + 1, p) then data[MirrorRow(rs, height, p)] else data[p]
    {
      FlipVerticallyStepAt(a, data, rs, height, y, x, top, bottom, p);
    }
  }

  lemma FlipVerticallyStepAt(a: seq<Uint8>, data: seq<Uint8>, rs: int, height: int, y: int, x: int,
                             top: int, bottom: int, p: int)
    requires |a| == |data| && rs > 0 && rs * height <= |data|
    requires 0 <= y < height / 2 && 0 <= x < rs && 0 <= p < |a|
    requires top == y * rs + x && bottom == (height - 1 - y) * rs + x
    requires FlipVerticallyState(a, data, rs, height, y, x)
    ensures 0 <= top < bottom < |a|
    ensures var b := a[top := a[bottom]][bottom := a[top]];
      b[p] == if RowDone(rs, height, y, x + 1, p) then data[MirrorRow(rs, height, p)] else data[p]
  {
    MirrorRowPair(rs, height, y, x);
    RowPairPending(rs, height, y, x);
    RowDoneStep(rs, height, y, x, p);
  }

  lemma FlipVerticallyNext(a: seq<Uint8>, data: seq<Uint8>, rs: int, height: int, y: int)
    requires |a| == |data| && rs > 0 && rs * height <= |data|
    requires FlipVerticallyState(a, data, rs, height, y, rs)
    ensures FlipVerticallyState(a, data, rs, height, y + 1, 0)
  {
    forall p | 0 <= p < |a|
      ensures a[p] == if RowDone(rs, height, y + 1, 0, p) then data[MirrorRow(rs, height, p)] else data[p]
    {
      RowDoneNext(rs, height, y, p);
    }
  }

  /** Without a positive row size no byte is ever exchanged. */
  lemma FlipVerticallyNoRows(a: seq<Uint8>, data: seq<Uint8>, rs: int, height: int, y: int, y': int)
    requires |a| == |data| && rs <= 0
    requires FlipVerticallyState(a, data, rs, height, y, 0)
    ensures FlipVerticallyState(a, data, rs, height, y', 0)
  {
    forall p | 0 <= p < |a|
      ensures !RowDone(rs, height, y', 0, p) && a[p] == data[p]
    {
      assert !RowDone(rs, height, y, 0, p);
    }
  }

  /** Before the first exchange every byte is its own. */
  lemma FlipVerticallyStart(data: seq<Uint8>, rs: int, height: int)
    requires height >= 0 && (rs > 0 ==> rs * height <= |data|)
    ensures FlipVerticallyState(data, data, rs, height, 0, 0)
  {
    forall p | 0 <= p < |data|
      ensures !RowDone(rs, height, 0, 0, p)
    {
      if rs > 0 {
        RowRange(rs, height, p);
      }
    }
  }

  lemma FlipVerticallyFinish(a: seq<Uint8>, data: seq<Uint8>, width: int, height: int)
    requires |a| == |data| && height >= 0 && RowSize(width) * height <= |data|
    requires FlipVerticallyState(a, data, RowSize(width), height, height / 2, 0)
    ensures a == FlippedVertically(data, width, height)
  {
    var rs := RowSize(width);
    forall p | 0 <= p < |a|
      ensures a[p] == FlippedVertically(data, width, height)[p]
    {
      if rs > 0 && p < rs * height {
        FlipVerticallyDone(rs, height, p);
      }
    }
  }

  /** Reverses the order of the rows in place. */
  method FlipVertically(pixelData: array<Uint8>, width: int, height: int)
    requires height >= 0
    requires RowSize(width) * height <= pixelData.Length
    modifies pixelData
    ensures pixelData[..] == FlippedVertically(old(pixelData[..]), width, height)
  {
    ghost var data := pixelData[..];
    var rowSize := RowSize(width);
    FlipVerticallyStart(data, rowSize, height);
    var y := 0;
    while y < height / 2
      invariant 0 <= y <= height / 2
      invariant FlipVerticallyState(pixelData[..], data, rowSize, height, y, 0)
    {
      SwapRows(pixelData, rowSize, height, y, data);
      y := y + 1;
    }
    FlipVerticallyFinish(pixelData[..], data, width, height);
  }

  /** One pass of the outer loop of flipVertically: row y trades its bytes
      with row height-1-y, one offset at a time. */
  method SwapRows(pixelData: array<Uint8>, rowSize: int, height: int, y: int, ghost data: seq<Uint8>)
    requires 0 <= y < height / 2
    requires pixelData.Length == |data| && (rowSize > 0 ==> rowSize * height <= |data|)
    requires FlipVerticallyState(pixelData[..], data, rowSize, height, y, 0)
    modifies pixelData
    ensures FlipVerticallyState(pixelData[..], data, rowSize, height, y + 1, 0)
  {
    var topIdx := y * rowSize;
    var bottomIdx := (height - 1 - y) * rowSize;
    var x := 0;
    while x < rowSize
      invariant 0 <= x && (rowSize > 0 ==> x <= rowSize)
      invariant FlipVerticallyState(pixelData[..], data, rowSize, height, y, x)
    {
      ghost var a := pixelData[..];
      var top, bottom := topIdx + x, bottomIdx + x;
      FlipVerticallyStep(a, data, rowSize, height, y, x, top, bottom);
      Swap(pixelData, top, bottom);
      assert pixelData[..] == a[top := a[bottom]][bottom := a[top]];
      x := x + 1;
    }
    if rowSize > 0 {
      FlipVerticallyNext(pixelData[..], data, rowSize, height, y);
    } else {
      FlipVerticallyNoRows(pixelData[..], data, rowSize, height, y, y + 1);
    }
  }

  /** Reversing the rows twice gives back the buffer. */
  lemma FlipVerticallyTwice(data: seq<Uint8>, width: int, height: int)
    requires height >= 0 && RowSize(width) * height <= |data|
    ensures FlippedVertically(FlippedVertically(data, width, height), width, height) == data
  {
    var rs := RowSize(width);
    var f := FlippedVertically(data, width, height);
    forall p | 0 <= p < |data|
      ensures FlippedVertically(f, width, height)[p] == data[p]
    {
      if rs > 0 && p < rs * height {
        MirrorRowTwice(rs, height, p);
      }
    }
  }

  /** Mirroring a row index twice gives it back. */
  lemma MirrorRowTwice(rs: int, height: int, p: int)
    requires rs > 0 && 0 <= p < rs * height
    ensures MirrorRow(rs, height, MirrorRow(rs, height, p)) == p
  {
    var q := MirrorRow(rs, height, p);
    var q' := MirrorRow(rs, height, q);
    assert p == rs * (p / rs) + p % rs;
    assert q' == rs * (q' / rs) + q' % rs;
  }

  /** Byte o of row y lands at byte o of row height-1-y. */
  lemma FlippedVerticallyMoves(data: seq<Uint8>, width: int, height: int, y: int, o: int)
    requires height >= 0 && RowSize(width) * height <= |data|
    requires 0 <= y < height && 0 <= o < RowSize(width)
    ensures 0 <= y * RowSize(width) + o < RowSize(width) * height
    ensures 0 <= (height - 1 - y) * RowSize(width) + o < RowSize(width) * height
    ensures FlippedVertically(data, width, height)[(height - 1 - y) * RowSize(width) + o]
         == data[y * RowSize(width) + o]
  {
    var rs := RowSize(width);
    var s, t := y * rs + o, (height - 1 - y) * rs + o;
    assert 0 <= s < rs * height by { RowBelow(rs, height, y, o); }
    assert 0 <= t < rs * height by { RowBelow(rs, height, height - 1 - y, o); }
    assert MirrorRow(rs, height, t) == s by { RowOffset(rs, height - 1 - y, o); }
  }

  /** With an odd number of rows the middle row stays where it is. */
  lemma FlippedVerticallyMiddleRow(data: seq<Uint8>, width: int, height: int, o: int)
    requires height >= 0 && height % 2 == 1 && RowSize(width) * height <= |data|
    requires 0 <= o < RowSize(width)
    ensures 0 <= (height / 2) * RowSize(width) + o < |data|
    ensures FlippedVertically(data, width, height)[(height / 2) * RowSize(width) + o]
         == data[(height / 2) * RowSize(width) + o]
  {
    FlippedVerticallyMoves(data, width, height, height / 2, o);
    assert height - 1 - height / 2 == height / 2;
  }

  /** Bytes past the last row are left alone. */
  lemma FlippedVerticallyTail(data: seq<Uint8>, width: int, height: int, p: int)
    requires height >= 0 && 0 <= p < |data| && RowSize(width) * height <= p
    ensures FlippedVertically(data, width, height)[p] == data[p]
  {
  }

  // ---------------------------------------------------------------------
  // flipHorizontally (Convert00.cpp:63-74)

  /** Byte p is one of the 3 * width pixel bytes of a row, not padding and
      not past the last row. */
  ghost predicate PixelByte(rs: int, width: int, height: int, p: int) {
    width > 0 && 0 <= p < rs * height && rs > 0 && p % rs < 3 * width
  }

  /** Byte y * rs + 3 * x + i is channel i of pixel x in row y. */
  lemma PixelOffset(rs: int, width: int, y: int, x: int, i: int)
    requires 3 * width <= rs && 0 <= x < width && 0 <= i < 3
    ensures (y * rs + 3 * x + i) / rs == y && (y * rs + 3 * x + i) % rs == 3 * x + i
    ensures (3 * x + i) / 3 == x && (3 * x + i) % 3 == i
  {
    RowOffset(rs, y, 3 * x + i);
  }

  /** The byte that trades places with pixel byte p when a row's pixels are
      mirrored: same row and channel, pixel width-1-x instead of x. */
  function MirrorColumn(rs: int, width: int, height: int, p: int): (q: int)
    requires 3 * width <= rs && PixelByte(rs, width, height, p)
    ensures PixelByte(rs, width, height, q)
    ensures q / rs == p / rs && (q % rs) / 3 == width - 1 - (p % rs) / 3 && (q % rs) % 3 == (p % rs) % 3
  {
    var y, o := p / rs, p % rs;
    var c, i := o / 3, o % 3;
    assert 0 <= o < 3 * width;
    assert 0 <= c < width && 0 <= i < 3;
    PixelOffset(rs, width, y, width - 1 - c, i);
    RowRange(rs, height, p);
    RowBelow(rs, height, y, 3 * (width - 1 - c) + i);
    y * rs + 3 * (width - 1 - c) + i
  }

  /** The buffer with the pixels of every row in reverse order, each pixel's
      three bytes kept in order; padding and bytes past the last row are
      kept. */
  ghost function FlippedHorizontally(data: seq<Uint8>, width: int, height: int): (r: seq<Uint8>)
    requires RowSize(width) * height <= |data|
    ensures |r| == |data|
  {
    var rs := RowSize(width);
    seq(|data|, (p: int) requires 0 <= p < |data| =>
      if PixelByte(rs, width, height, p) then
        RowSizePadding(width); data[MirrorColumn(rs, width, height, p)]
      else data[p])
  }

  /** Pixel byte p has already been exchanged when the loops stand at row y,
      pixel x, channel i. */
  ghost predicate ColumnDone(rs: int, width: int, height: int, y: int, x: int, i: int, p: int) {
    PixelByte(rs, width, height, p) &&
    var row, col, ch := p / rs, (p % rs) / 3, (p % rs) % 3;
    row < y ||
    (row == y && (col < x || col > width - 1 - x || ((col == x || col == width - 1 - x) && ch < i)))
  }

  /** The loop state of FlipHorizontally. */
  ghost predicate FlipHorizontallyState(a: seq<Uint8>, data: seq<Uint8>, rs: int, width: int, height: int,
                                        y: int, x: int, i: int)
    requires |a| == |data| && 3 * width <= rs && (rs > 0 ==> rs * height <= |data|)
  {
    forall p :: 0 <= p < |a| ==>
      a[p] == if ColumnDone(rs, width, height, y, x, i, p) then data[MirrorColumn(rs, width, height, p)] else data[p]
  }

  lemma FlipHorizontallyStart(data: seq<Uint8>, rs: int, width: int, height: int)
    requires 3 * width <= rs && (rs > 0 ==> rs * height <= |data|)
    ensures FlipHorizontallyState(data, data, rs, width, height, 0, 0, 0)
  {
    forall p | 0 <= p < |data|
      ensures !ColumnDone(rs, width, height, 0, 0, 0, p)
    {
      if rs > 0 {
        RowRange(rs, height, p);
      }
    }
  }

  /** The two bytes exchanged at row y, pixel x, channel i are each other's
      mirror. */
  lemma MirrorColumnPair(rs: int, width: int, height: int, y: int, x: int, i: int)
    requires 3 * width <= rs && 0 <= y < height && 0 <= x < width / 2 && 0 <= i < 3
    ensures PixelByte(rs, width, height, y * rs + 3 * x + i)
    ensures PixelByte(rs, width, height, y * rs + 3 * (width - 1 - x) + i)
    ensures y * rs + 3 * x + i < y * rs + 3 * (width - 1 - x) + i
    ensures !ColumnDone(rs, width, height, y, x, i, y * rs + 3 * x + i)
    ensures !ColumnDone(rs, width, height, y, x, i, y * rs + 3 * (width - 1 - x) + i)
    ensures MirrorColumn(rs, width, height, y * rs + 3 * x + i) == y * rs + 3 * (width - 1 - x) + i
    ensures MirrorColumn(rs, width, height, y * rs + 3 * (width - 1 - x) + i) == y * rs + 3 * x + i
  {
    PixelOffset(rs, width, y, x, i);
    PixelOffset(rs, width, y, width - 1 - x, i);
    RowBelow(rs, height, y, 3 * x + i);
    RowBelow(rs, height, y, 3 * (width - 1 - x) + i);
  }

  lemma ColumnDoneStep(rs: int, width: int, height: int, y: int, x: int, i: int, p: int)
    requires 3 * width <= rs && 0 <= y < height && 0 <= x < width / 2 && 0 <= i < 3
    ensures ColumnDone(rs, width, height, y, x, i + 1, p) <==>
      ColumnDone(rs, width, height, y, x, i, p) ||
      p == y * rs + 3 * x + i || p == y * rs + 3 * (width - 1 - x) + i
  {
    var left, right := y * rs + 3 * x + i, y * rs + 3 * (width - 1 - x) + i;
    MirrorColumnPair(rs, width, height, y, x, i);
    if PixelByte(rs, width, height, p) {
      var row, col, ch := p / rs, (p % rs) / 3, (p % rs) % 3;
      PixelSplit(rs, p);
      assert p == left <==> row == y && col == x && ch == i by {
        PixelOffset(rs, width, y, x, i);
      }
      assert p == right <==> row == y && col == width - 1 - x && ch == i by {
        PixelOffset(rs, width, y, width - 1 - x, i);
      }
    }
  }

  /** A byte is its row, pixel and channel put back together. */
  lemma PixelSplit(rs: int, p: int)
    requires rs > 0
    ensures p == (p / rs) * rs + 3 * ((p % rs) / 3) + (p % rs) % 3
  {
    var o := p % rs;
    assert p == (p / rs) * rs + o;
    assert o == 3 * (o / 3) + o % 3;
  }

  lemma FlipHorizontallyStep(a: seq<Uint8>, data: seq<Uint8>, rs: int, width: int, height: int,
                             y: int, x: int, i: int, left: int, right: int)
    requires |a| == |data| && 3 * width <= rs && rs * height <= |data|
    requires 0 <= y < height && 0 <= x < width / 2 && 0 <= i < 3
    requires left == y * rs + 3 * x + i && right == y * rs + 3 * (width - 1 - x) + i
    requires FlipHorizontallyState(a, data, rs, width, height, y, x, i)
    ensures 0 <= left < right < |a|
    ensures FlipHorizontallyState(a[left := a[right]][right := a[left]], data, rs, width, height, y, x, i + 1)
  {
    MirrorColumnPair(rs, width, height, y, x, i);
    var b := a[left := a[right]][right := a[left]];
    forall p | 0 <= p < |b|
      ensures b[p] == if ColumnDone(rs, width, height, y, x, i + 1, p) then data[MirrorColumn(rs, width, height, p)] else data[p]
    {
      FlipHorizontallyStepAt(a, data, rs, width, height, y, x, i, left, right, p);
    }
  }

  lemma FlipHorizontallyStepAt(a: seq<Uint8>, data: seq<Uint8>, rs: int, width: int, height: int,
                               y: int, x: int, i: int, left: int, right: int, p: int)
    requires |a| == |data| && 3 * width <= rs && rs * height <= |data|
    requires 0 <= y < height && 0 <= x < width / 2 && 0 <= i < 3 && 0 <= p < |a|
    requires left == y * rs + 3 * x + i && right == y * rs + 3 * (width - 1 - x) + i
    requires FlipHorizontallyState(a, data, rs, width, height, y, x, i)
    ensures 0 <= left < right < |a|
    ensures var b := a[left := a[right]][right := a[left]];
      b[p] == if ColumnDone(rs, width, height, y, x, i + 1, p) then data[MirrorColumn(rs, width, height, p)] else data[p]
  {
    MirrorColumnPair(rs, width, height, y, x, i);
    ColumnDoneStep(rs, width, height, y, x, i, p);
  }

  /** Three channels exchanged finish pixel x. */
  lemma FlipHorizontallyNextPixel(a: seq<Uint8>, data: seq<Uint8>, rs: int, width: int, height: int, y: int, x: int)
    requires |a| == |data| && 3 * width <= rs && (rs > 0 ==> rs * height <= |data|)
    requires FlipHorizontallyState(a, data, rs, width, height, y, x, 3)
    ensures FlipHorizontallyState(a, data, rs, width, height, y, x + 1, 0)
  {
    forall p | 0 <= p < |a|
      ensures ColumnDone(rs, width, height, y, x, 3, p) <==> ColumnDone(rs, width, height, y, x + 1, 0, p)
    {
    }
  }

  /** At the end of a row its untouched pixel bytes, if any, are those of
      the middle pixel, each its own mirror. */
  lemma FlipHorizontallyNextRow(a: seq<Uint8>, data: seq<Uint8>, rs: int, width: int, height: int, y: int)
    requires |a| == |data| && 3 * width <= rs && (rs > 0 ==> rs * height <= |data|)
    requires FlipHorizontallyState(a, data, rs, width, height, y, width / 2, 0)
    ensures FlipHorizontallyState(a, data, rs, width, height, y + 1, 0, 0)
  {
    forall p | 0 <= p < |a|
      ensures a[p] == if ColumnDone(rs, width, height, y + 1, 0, 0, p) then data[MirrorColumn(rs, width, height, p)] else data[p]
    {
      if ColumnDone(rs, width, height, y + 1, 0, 0, p) && !ColumnDone(rs, width, height, y, width / 2, 0, p) {
        MiddleColumn(rs, width, height, y, p);
      }
    }
  }

  /** A pixel byte of row y that the loop over the first width / 2 pixels
      leaves untouched belongs to the middle pixel, its own mirror. */
  lemma MiddleColumn(rs: int, width: int, height: int, y: int, p: int)
    requires 3 * width <= rs
    requires ColumnDone(rs, width, height, y + 1, 0, 0, p) && !ColumnDone(rs, width, height, y, width / 2, 0, p)
    ensures MirrorColumn(rs, width, height, p) == p
  {
    var q := MirrorColumn(rs, width, height, p);
    var o, o' := p % rs, q % rs;
    assert o / 3 == width - 1 - o / 3;
    assert o' == o by {
      assert o == 3 * (o / 3) + o % 3;
      assert o' == 3 * (o' / 3) + o' % 3;
    }
    assert p == (p / rs) * rs + o && q == (q / rs) * rs + o';
  }

  lemma FlipHorizontallyFinish(a: seq<Uint8>, data: seq<Uint8>, width: int, height: int)
    requires |a| == |data| && height >= 0 && RowSize(width) * height <= |data|
    requires 3 * width <= RowSize(width)
    requires FlipHorizontallyState(a, data, RowSize(width), width, height, height, 0, 0)
    ensures a == FlippedHorizontally(data, width, height)
  {
    var rs := RowSize(width);
    forall p | 0 <= p < |a|
      ensures a[p] == FlippedHorizontally(data, width, height)[p]
    {
      if PixelByte(rs, width, height, p) {
        RowRange(rs, height, p);
      }
    }
  }

  /** Reverses the order of the pixels of every row in place. */
  method FlipHorizontally(pixelData: array<Uint8>, width: int, height: int)
    requires height >= 0
    requires RowSize(width) * height <= pixelData.Length
    modifies pixelData
    ensures pixelData[..] == FlippedHorizontally(old(pixelData[..]), width, height)
  {
    ghost var data := pixelData[..];
    var rowSize := RowSize(width);
    if width >= 0 {
      RowSizePadding(width);
    } else {
      RowSizeNegative(width);
    }
    FlipHorizontallyStart(data, rowSize, width, height);
    var y := 0;
    while y < height
      invariant 0 <= y <= height
      invariant FlipHorizontallyState(pixelData[..], data, rowSize, width, height, y, 0, 0)
    {
      ReverseRow(pixelData, rowSize, width, height, y, data);
      y := y + 1;
    }
    FlipHorizontallyFinish(pixelData[..], data, width, height);
  }

  /** One pass of the outer loop of flipHorizontally: pixel x of row y
      trades places with pixel width-1-x, for x below width / 2. */
  method ReverseRow(pixelData: array<Uint8>, rowSize: int, width: int, height: int, y: int,
                    ghost data: seq<Uint8>)
    requires 0 <= y < height && 3 * width <= rowSize
    requires pixelData.Length == |data| && (rowSize > 0 ==> rowSize * height <= |data|)
    requires FlipHorizontallyState(pixelData[..], data, rowSize, width, height, y, 0, 0)
    modifies pixelData
    ensures FlipHorizontallyState(pixelData[..], data, rowSize, width, height, y + 1, 0, 0)
  {
    var x := 0;
    while x < width / 2
      invariant 0 <= x && (width > 0 ==> x <= width / 2)
      invariant FlipHorizontallyState(pixelData[..], data, rowSize, width, height, y, x, 0)
    {
      SwapPixels(pixelData, rowSize, width, height, y, x, data);
      x := x + 1;
    }
    FlipHorizontallyNextRow(pixelData[..], data, rowSize, width, height, y);
  }

  /** The innermost loop of flipHorizontally: the three bytes of pixel x
      of row y and of pixel width-1-x trade places. */
  method SwapPixels(pixelData: array<Uint8>, rowSize: int, width: int, height: int, y: int, x: int,
                    ghost data: seq<Uint8>)
    requires 0 <= y < height && 0 <= x < width / 2 && 3 * width <= rowSize
    requires pixelData.Length == |data| && rowSize * height <= |data|
    requires FlipHorizontallyState(pixelData[..], data, rowSize, width, height, y, x, 0)
    modifies pixelData
    ensures FlipHorizontallyState(pixelData[..], data, rowSize, width, height, y, x + 1, 0)
  {
    var leftIdx := y * rowSize + x * 3;
    var rightIdx := y * rowSize + (width - 1 - x) * 3;
    var i := 0;
    while i < 3
      invariant 0 <= i <= 3
      invariant FlipHorizontallyState(pixelData[..], data, rowSize, width, height, y, x, i)
    {
      ghost var a := pixelData[..];
      var left, right := leftIdx + i, rightIdx + i;
      FlipHorizontallyStep(a, data, rowSize, width, height, y, x, i, left, right);
      Swap(pixelData, left, right);
      assert pixelData[..] == a[left := a[right]][right := a[left]];
      i := i + 1;
    }
    FlipHorizontallyNextPixel(pixelData[..], data, rowSize, width, height, y, x);
  }

  lemma MirrorColumnTwice(rs: int, width: int, height: int, p: int)
    requires 3 * width <= rs && PixelByte(rs, width, height, p)
    ensures MirrorColumn(rs, width, height, MirrorColumn(rs, width, height, p)) == p
  {
    var q := MirrorColumn(rs, width, height, p);
    var q' := MirrorColumn(rs, width, height, q);
    PixelSplit(rs, p);
    PixelSplit(rs, q');
    assert q' / rs == p / rs;
    assert (q' % rs) / 3 == (p % rs) / 3;
    assert (q' % rs) % 3 == (p % rs) % 3;
  }

  /** Mirroring the pixels twice gives back the buffer. */
  lemma FlipHorizontallyTwice(data: seq<Uint8>, width: int, height: int)
    requires height >= 0 && RowSize(width) * height <= |data|
    ensures FlippedHorizontally(FlippedHorizontally(data, width, height), width, height) == data
  {
    var rs := RowSize(width);
    var f := FlippedHorizontally(data, width, height);
    forall p | 0 <= p < |data|
      ensures FlippedHorizontally(f, width, height)[p] == data[p]
    {
      if PixelByte(rs, width, height, p) {
        RowSizePadding(width);
        MirrorColumnTwice(rs, width, height, p);
      }
    }
  }

  /** Channel i of pixel x in row y lands at channel i of pixel width-1-x
      of the same row. */
  lemma FlippedHorizontallyMoves(data: seq<Uint8>, width: int, height: int, y: int, x: int, i: int)
    requires height >= 0 && RowSize(width) * height <= |data|
    requires 0 <= y < height && 0 <= x < width && 0 <= i < 3
    ensures 0 <= y * RowSize(width) + 3 * x + i < |data|
    ensures 0 <= y * RowSize(width) + 3 * (width - 1 - x) + i < |data|
    ensures FlippedHorizontally(data, width, height)[y * RowSize(width) + 3 * (width - 1 - x) + i]
         == data[y * RowSize(width) + 3 * x + i]
  {
    var rs := RowSize(width);
    assert 3 * width <= rs by { RowSizePadding(width); }
    var l, r := y * rs + 3 * x + i, y * rs + 3 * (width - 1 - x) + i;
    assert 0 <= l < rs * height by { RowBelow(rs, height, y, 3 * x + i); }
    assert 0 <= r < rs * height by { RowBelow(rs, height, y, 3 * (width - 1 - x) + i); }
    assert PixelByte(rs, width, height, r) && MirrorColumn(rs, width, height, r) == l by {
      PixelOffset(rs, width, y, width - 1 - x, i);
    }
    assert FlippedHorizontally(data, width, height)[r] == data[MirrorColumn(rs, width, height, r)];
  }

  /** The padding bytes at the end of every row are left alone. */
  lemma FlippedHorizontallyKeepsPadding(data: seq<Uint8>, width: int, height: int, y: int, o: int)
    requires height >= 0 && RowSize(width) * height <= |data|
    requires 0 <= y < height && 0 <= o && 3 * width <= o < RowSize(width)
    ensures 0 <= y * RowSize(width) + o < |data|
    ensures FlippedHorizontally(data, width, height)[y * RowSize(width) + o] == data[y * RowSize(width) + o]
  {
    var rs := RowSize(width);
    RowOffset(rs, y, o);
    RowBelow(rs, height, y, o);
  }

  // ---------------------------------------------------------------------
  // convertToGrayscale (Convert00.cpp:36-48)

  /** std::round((r + g + b) / 3.0) for 8-bit r, g, b: the integer nearest
      the mean, within a third of it (a mean never ends in one half). */
  function Gray(b: Uint8, g: Uint8, r: Uint8): (v: Uint8)
    ensures 3 * v - 1 <= r + g + b <= 3 * v + 1
  {
    (r + g + b + 1) / 3
  }

  /** A grey pixel keeps its value. */
  lemma GrayOfGray(v: Uint8)
    ensures Gray(v, v, v) == v
  {
  }

  /** The first (blue) byte of the pixel that pixel byte p belongs to. */
  function PixelStart(rs: int, width: int, height: int, p: int): (s: int)
    requires 3 * width <= rs && PixelByte(rs, width, height, p)
    ensures 0 <= s && s + 2 < rs * height && s <= p <= s + 2
  {
    var y, o := p / rs, p % rs;
    var c := o / 3;
    assert 0 <= o < 3 * width && 0 <= c < width;
    assert p == y * rs + o;
    RowRange(rs, height, p);
    RowBelow(rs, height, y, 3 * c + 2);
    y * rs + 3 * c
  }

  /** Byte p after conversion: the grey value of its pixel, or the byte
      itself when it is padding or past the last row. */
  ghost function GrayAt(data: seq<Uint8>, width: int, height: int, p: int): Uint8
    requires RowSize(width) * height <= |data| && 0 <= p < |data|
  {
    var rs := RowSize(width);
    if PixelByte(rs, width, height, p) then
      RowSizePadding(width);
      var s := PixelStart(rs, width, height, p);
      Gray(data[s], data[s + 1], data[s + 2])
    else data[p]
  }

  /** The buffer with each pixel's three bytes replaced by its grey value;
      padding and bytes past the last row are kept. */
  ghost function Grayscaled(data: seq<Uint8>, width: int, height: int): (r: seq<Uint8>)
    requires RowSize(width) * height <= |data|
    ensures |r| == |data|
  {
    seq(|data|, (p: int) requires 0 <= p < |data| => GrayAt(data, width, height, p))
  }

  /** Channel i of pixel x in row y is a pixel byte whose pixel starts at
      channel 0. */
  lemma PixelStartOf(rs: int, width: int, height: int, y: int, x: int, i: int)
    requires 3 * width <= rs && 0 <= y < height && 0 <= x < width && 0 <= i < 3
    ensures PixelByte(rs, width, height, y * rs + 3 * x + i)
    ensures PixelStart(rs, width, height, y * rs + 3 * x + i) == y * rs + 3 * x
  {
    PixelOffset(rs, width, y, x, i);
    RowBelow(rs, height, y, 3 * x + i);
  }

  /** Channel i of pixel x in row y turns into the grey value of that pixel. */
  lemma GrayAtPixel(data: seq<Uint8>, width: int, height: int, y: int, x: int, i: int)
    requires height >= 0 && RowSize(width) * height <= |data|
    requires 0 <= y < height && 0 <= x < width && 0 <= i < 3
    ensures 0 <= y * RowSize(width) + 3 * x && y * RowSize(width) + 3 * x + 2 < |data|
    ensures var idx := y * RowSize(width) + 3 * x;
      GrayAt(data, width, height, idx + i) == Gray(data[idx], data[idx + 1], data[idx + 2])
  {
    RowSizePadding(width);
    PixelStartOf(RowSize(width), width, height, y, x, i);
    RowBelow(RowSize(width), height, y, 3 * x + 2);
  }

  /** Pixel byte p has already been made grey when the loops stand at row y,
      pixel x. */
  ghost predicate GrayDone(rs: int, width: int, height: int, y: int, x: int, p: int) {
    PixelByte(rs, width, height, p) && (p / rs < y || (p / rs == y && (p % rs) / 3 < x))
  }

  /** The loop state of ConvertToGrayscale. */
  ghost predicate GrayscaleState(a: seq<Uint8>, data: seq<Uint8>, width: int, height: int, y: int, x: int)
    requires |a| == |data| && RowSize(width) * height <= |data|
  {
    forall p :: 0 <= p < |a| ==>
      a[p] == if GrayDone(RowSize(width), width, height, y, x, p) then GrayAt(data, width, height, p) else data[p]
  }

  lemma GrayscaleStart(data: seq<Uint8>, width: int, height: int)
    requires height >= 0 && RowSize(width) * height <= |data|
    ensures GrayscaleState(data, data, width, height, 0, 0)
  {
    var rs := RowSize(width);
    forall p | 0 <= p < |data|
      ensures !GrayDone(rs, width, height, 0, 0, p)
    {
      if rs > 0 {
        RowRange(rs, height, p);
      }
    }
  }

  lemma GrayDoneStep(rs: int, width: int, height: int, y: int, x: int, p: int)
    requires 3 * width <= rs && 0 <= y < height && 0 <= x < width
    ensures GrayDone(rs, width, height, y, x + 1, p) <==>
      GrayDone(rs, width, height, y, x, p) || y * rs + 3 * x <= p < y * rs + 3 * x + 3
  {
    PixelOffset(rs, width, y, x, 0);
    PixelOffset(rs, width, y, x, 1);
    PixelOffset(rs, width, y, x, 2);
    RowBelow(rs, height, y, 3 * x + 2);
    if 0 <= p && rs > 0 {
      RowRange(rs, height, p);
      var o := p % rs;
      assert p == (p / rs) * rs + o;
    }
  }

  /** The bytes of pixel x in row y are not yet grey. */
  lemma GrayPending(rs: int, width: int, height: int, y: int, x: int, i: int, p: int)
    requires 3 * width <= rs && 0 <= y < height && 0 <= x < width && 0 <= i < 3
    requires p == y * rs + 3 * x + i
    ensures !GrayDone(rs, width, height, y, x, p)
  {
    PixelOffset(rs, width, y, x, i);
  }

  lemma GrayscaleStepAt(a: seq<Uint8>, data: seq<Uint8>, width: int, height: int, y: int, x: int, v: Uint8, p: int)
    requires |a| == |data| && height >= 0 && RowSize(width) * height <= |data|
    requires 0 <= y < height && 0 <= x < width
    requires 0 <= y * RowSize(width) + 3 * x && y * RowSize(width) + 3 * x + 2 < |a|
    requires GrayscaleState(a, data, width, height, y, x)
    requires var idx := y * RowSize(width) + 3 * x; v == Gray(data[idx], data[idx + 1], data[idx + 2])
    requires 0 <= p < |a|
    ensures var idx := y * RowSize(width) + 3 * x;
      var b := a[idx + 2 := v][idx + 1 := v][idx := v];
      b[p] == if GrayDone(RowSize(width), width, height, y, x + 1, p) then GrayAt(data, width, height, p) else data[p]
  {
    var rs := RowSize(width);
    RowSizePadding(width);
    var idx := y * rs + 3 * x;
    GrayDoneStep(rs, width, height, y, x, p);
    if idx <= p < idx + 3 {
      GrayAtPixel(data, width, height, y, x, p - idx);
    }
  }

  lemma GrayscaleStep(a: seq<Uint8>, data: seq<Uint8>, width: int, height: int, y: int, x: int, idx: int)
    requires |a| == |data| && height >= 0 && RowSize(width) * height <= |data|
    requires 0 <= y < height && 0 <= x < width
    requires idx == y * RowSize(width) + 3 * x
    requires GrayscaleState(a, data, width, height, y, x)
    ensures 0 <= idx && idx + 2 < |a|
    ensures var v := Gray(a[idx], a[idx + 1], a[idx + 2]);
      GrayscaleState(a[idx + 2 := v][idx + 1 := v][idx := v], data, width, height, y, x + 1)
  {
    var rs := RowSize(width);
    assert 3 * width <= rs by { RowSizePadding(width); }
    assert idx + 2 < rs * height by { RowBelow(rs, height, y, 3 * x + 2); }
    GrayPending(rs, width, height, y, x, 0, idx);
    GrayPending(rs, width, height, y, x, 1, idx + 1);
    GrayPending(rs, width, height, y, x, 2, idx + 2);
    var v := Gray(a[idx], a[idx + 1], a[idx + 2]);
    assert v == Gray(data[idx], data[idx + 1], data[idx + 2]);
    var b := a[idx + 2 := v][idx + 1 := v][idx := v];
    forall p | 0 <= p < |b|
      ensures b[p] == if GrayDone(rs, width, height, y, x + 1, p) then GrayAt(data, width, height, p) else data[p]
    {
      GrayscaleStepAt(a, data, width, height, y, x, v, p);
    }
  }

  lemma GrayscaleNextRow(a: seq<Uint8>, data: seq<Uint8>, width: int, height: int, y: int, x: int)
    requires |a| == |data| && height >= 0 && RowSize(width) * height <= |data|
    requires x == if width > 0 then width else 0
    requires GrayscaleState(a, data, width, height, y, x)
    ensures GrayscaleState(a, data, width, height, y + 1, 0)
  {
    var rs := RowSize(width);
    forall p | 0 <= p < |a|
      ensures GrayDone(rs, width, height, y, x, p) <==> GrayDone(rs, width, height, y + 1, 0, p)
    {
    }
  }

  lemma GrayscaleFinish(a: seq<Uint8>, data: seq<Uint8>, width: int, height: int)
    requires |a| == |data| && height >= 0 && RowSize(width) * height <= |data|
    requires GrayscaleState(a, data, width, height, height, 0)
    ensures a == Grayscaled(data, width, height)
  {
    var rs := RowSize(width);
    forall p | 0 <= p < |a|
      ensures a[p] == Grayscaled(data, width, height)[p]
    {
      if PixelByte(rs, width, height, p) {
        RowRange(rs, height, p);
      }
    }
  }

  /** The body of the inner loop of Convert00.cpp:40-45: the pixel at idx
      becomes grey, its three bytes set by one chained assignment. */
  method GrayPixel(a: array<Uint8>, idx: int)
    requires 0 <= idx && idx + 2 < a.Length
    modifies a
    ensures var v := Gray(old(a[idx]), old(a[idx + 1]), old(a[idx + 2]));
      a[..] == old(a[..])[idx + 2 := v][idx + 1 := v][idx := v]
  {
    var r := a[idx + 2];
    var g := a[idx + 1];
    var b := a[idx];
    var gray := Gray(b, g, r);
    a[idx] := gray;
    a[idx + 1] := gray;
    a[idx + 2] := gray;
  }

  /** Replaces every pixel by its grey value in place. */
  method ConvertToGrayscale(pixelData: array<Uint8>, width: int, height: int)
    requires height >= 0
    requires RowSize(width) * height <= pixelData.Length
    modifies pixelData
    ensures pixelData[..] == Grayscaled(old(pixelData[..]), width, height)
  {
    ghost var data := pixelData[..];
    var rowSize := RowSize(width);
    GrayscaleStart(data, width, height);
    var y := 0;
    while y < height
      invariant 0 <= y <= height
      invariant GrayscaleState(pixelData[..], data, width, height, y, 0)
    {
      GrayRow(pixelData, rowSize, width, height, y, data);
      y := y + 1;
    }
    GrayscaleFinish(pixelData[..], data, width, height);
  }

  /** One pass of the outer loop of convertToGrayscale: every pixel of row
      y becomes grey. */
  method GrayRow(pixelData: array<Uint8>, rowSize: int, width: int, height: int, y: int,
                 ghost data: seq<Uint8>)
    requires 0 <= y < height && rowSize == RowSize(width)
    requires pixelData.Length == |data| && RowSize(width) * height <= |data|
    requires GrayscaleState(pixelData[..], data, width, height, y, 0)
    modifies pixelData
    ensures GrayscaleState(pixelData[..], data, width, height, y + 1, 0)
  {
    var x := 0;
    while x < width
      invariant 0 <= x <= if width > 0 then width else 0
      invariant GrayscaleState(pixelData[..], data, width, height, y, x)
    {
      var idx := y * rowSize + x * 3;
      ghost var a := pixelData[..];
      GrayscaleStep(a, data, width, height, y, x, idx);
      ghost var v := Gray(a[idx], a[idx + 1], a[idx + 2]);
      GrayPixel(pixelData, idx);
      assert pixelData[..] == a[idx + 2 := v][idx + 1 := v][idx := v];
      x := x + 1;
    }
    GrayscaleNextRow(pixelData[..], data, width, height, y, x);
  }

  /** Every channel of pixel x in row y becomes the pixel's grey value, the
      integer nearest the mean of its three original bytes. */
  lemma GrayscaledPixel(data: seq<Uint8>, width: int, height: int, y: int, x: int, i: int)
    requires height >= 0 && RowSize(width) * height <= |data|
    requires 0 <= y < height && 0 <= x < width && 0 <= i < 3
    ensures 0 <= y * RowSize(width) + 3 * x && y * RowSize(width) + 3 * x + 2 < |data|
    ensures var idx := y * RowSize(width) + 3 * x;
      Grayscaled(data, width, height)[idx + i] == Gray(data[idx], data[idx + 1], data[idx + 2])
  {
    GrayAtPixel(data, width, height, y, x, i);
  }

  /** Every pixel byte is channel i of pixel x in some row y. */
  lemma PixelCoordinates(rs: int, width: int, height: int, p: int) returns (y: int, x: int, i: int)
    requires 3 * width <= rs && PixelByte(rs, width, height, p)
    ensures 0 <= y < height && 0 <= x < width && 0 <= i < 3 && p == y * rs + 3 * x + i
  {
    RowRange(rs, height, p);
    var o := p % rs;
    y, x, i := p / rs, o / 3, o % 3;
    assert p == y * rs + o;
  }

  /** Converting a second time changes nothing. */
  lemma GrayscaleTwice(data: seq<Uint8>, width: int, height: int)
    requires height >= 0 && RowSize(width) * height <= |data|
    ensures Grayscaled(Grayscaled(data, width, height), width, height) == Grayscaled(data, width, height)
  {
    var rs := RowSize(width);
    var g := Grayscaled(data, width, height);
    forall p | 0 <= p < |data|
      ensures GrayAt(g, width, height, p) == g[p]
    {
      if PixelByte(rs, width, height, p) {
        RowSizePadding(width);
        var y, x, i := PixelCoordinates(rs, width, height, p);
        GrayscaleTwiceAt(data, width, height, y, x, i);
      }
    }
  }

  lemma GrayscaleTwiceAt(data: seq<Uint8>, width: int, height: int, y: int, x: int, i: int)
    requires height >= 0 && RowSize(width) * height <= |data|
    requires 0 <= y < height && 0 <= x < width && 0 <= i < 3
    ensures 0 <= y * RowSize(width) + 3 * x + i < |data|
    ensures var g := Grayscaled(data, width, height);
      GrayAt(g, width, height, y * RowSize(width) + 3 * x + i) == g[y * RowSize(width) + 3 * x + i]
  {
    var g := Grayscaled(data, width, height);
    var idx := y * RowSize(width) + 3 * x;
    GrayscaledPixel(data, width, height, y, x, 0);
    GrayscaledPixel(data, width, height, y, x, 1);
    GrayscaledPixel(data, width, height, y, x, 2);
    GrayscaledPixel(data, width, height, y, x, i);
    GrayAtPixel(g, width, height, y, x, i);
    assert idx == idx + 0;
    GrayOfGray(g[idx]);
  }

  /** The padding bytes at the end of every row are left alone. */
  lemma GrayscaledKeepsPadding(data: seq<Uint8>, width: int, height: int, y: int, o: int)
    requires height >= 0 && RowSize(width) * height <= |data|
    requires 0 <= y < height && 0 <= o && 3 * width <= o < RowSize(width)
    ensures 0 <= y * RowSize(width) + o < |data|
    ensures Grayscaled(data, width, height)[y * RowSize(width) + o] == data[y * RowSize(width) + o]
  {
    var rs := RowSize(width);
    RowOffset(rs, y, o);
    RowBelow(rs, height, y, o);
  }
}

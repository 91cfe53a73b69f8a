/**
 The fixed-point bilinear resize of an NV12 frame (camera/NV12_resize.c, camera/inc/NV12_resize.h):
 which pixels are read, what is written where, and how far the result is a bilinear image.
 */
module Nv12Resize {
  import opened Bytes
  import opened Wrappers

  // --- The weight table ---

  const B_WEIGHTS: seq<seq<seq<nat>>> := [
    [[64, 0, 0, 0], [56, 0, 0, 8], [48, 0, 0, 16], [40, 0, 0, 24],
     [32, 0, 0, 32], [24, 0, 0, 40], [16, 0, 0, 48], [8, 0, 0, 56]],
    [[56, 8, 0, 0], [49, 7, 1, 7], [42, 6, 2, 14], [35, 5, 3, 21],
     [28, 4, 4, 28], [21, 3, 5, 35], [14, 2, 6, 42], [7, 1, 7, 49]],
    [[48, 16, 0, 0], [42, 14, 2, 6], [36, 12, 4, 12], [30, 10, 6, 18],
     [24, 8, 8, 24], [18, 6, 10, 30], [12, 4, 12, 36], [6, 2, 14, 42]],
    [[40, 24, 0, 0], [35, 21, 3, 5], [30, 18, 6, 10], [25, 15, 9, 15],
     [20, 12, 12, 20], [15, 9, 15, 25], [10, 6, 18, 30], [5, 3, 21, 35]],
    [[32, 32, 0, 0], [28, 28, 4, 4], [24, 24, 8, 8], [20, 20, 12, 12],
     [16, 16, 16, 16], [12, 12, 20, 20], [8, 8, 24, 24], [4, 4, 28, 28]],
    [[24, 40, 0, 0], [21, 35, 5, 3], [18, 30, 10, 6], [15, 25, 15, 9],
     [12, 20, 20, 12], [9, 15, 25, 15], [6, 10, 30, 18], [3, 5, 35, 21]],
    [[16, 48, 0, 0], [14, 42, 6, 2], [12, 36, 12, 4], [10, 30, 18, 6],
     [8, 24, 24, 8], [6, 18, 30, 10], [4, 12, 36, 12], [2, 6, 42, 14]],
    [[8, 56, 0, 0], [7, 49, 7, 1], [6, 42, 14, 2], [5, 35, 21, 3],
     [4, 28, 28, 4], [3, 21, 35, 5], [2, 14, 42, 6], [1, 7, 49, 7]]]

  type Eighth = k: int | 0 <= k < 8

  /** The row of the table, in its own order: upper left, upper right, lower right, lower left. */
  function Row(xf: Eighth, yf: Eighth): (row: seq<nat>)
    ensures row == [(8 - xf) * (8 - yf), xf * (8 - yf), xf * yf, (8 - xf) * yf]
  {
    B_WEIGHTS[xf][yf]
  }

  // --- One output pixel ---

  /** The table's blend of four neighbours; the sum of the weights is 64. */
  function Blend(xf: Eighth, yf: Eighth, p11: Byte, p12: Byte, p21: Byte, p22: Byte): (p: int) {
    var row := Row(xf, yf);
    (row[0] * p11 + row[1] * p12 + row[3] * p21 + row[2] * p22) / 64
  }

  function Min(a: int, b: int): int { if a <= b then a else b }
  function Max(a: int, b: int): int { if a <= b then b else a }

  /** A step of `f` eighths from `a` to `b`, in eighths. */
  function Lerp(f: Eighth, a: int, b: int): int {
    (8 - f) * a + f * b
  }

  lemma LerpStaysBetween(f: Eighth, a: int, b: int)
    ensures 8 * Min(a, b) <= Lerp(f, a, b) <= 8 * Max(a, b)
  {
    if a <= b {
      assert Lerp(f, a, b) == 8 * a + f * (b - a) == 8 * b - (8 - f) * (b - a);
    } else {
      assert Lerp(f, a, b) == 8 * b + (8 - f) * (a - b) == 8 * a - f * (a - b);
    }
  }

  lemma LerpIsMonotone(f: Eighth, a: int, b: int, c: int, d: int)
    requires a <= c && b <= d
    ensures Lerp(f, a, b) <= Lerp(f, c, d)
  {
    assert Lerp(f, c, d) == Lerp(f, a, b) + (8 - f) * (c - a) + f * (d - b);
  }

  /** The table interpolates along both rows and then between them, and rounds down once. */
  lemma BlendIsBilinear(xf: Eighth, yf: Eighth, p11: Byte, p12: Byte, p21: Byte, p22: Byte)
    ensures Blend(xf, yf, p11, p12, p21, p22) == Lerp(yf, Lerp(xf, p11, p12), Lerp(xf, p21, p22)) / 64
  {
    ProductsRegroup(8 - xf, xf, 8 - yf, yf, p11, p12, p21, p22);
  }

  lemma ProductsRegroup(a: int, b: int, c: int, d: int, p11: int, p12: int, p21: int, p22: int)
    ensures a * c * p11 + b * c * p12 + a * d * p21 + b * d * p22
         == c * (a * p11 + b * p12) + d * (a * p21 + b * p22)
  {
    assert a * c * p11 == c * (a * p11) && b * c * p12 == c * (b * p12);
    assert a * d * p21 == d * (a * p21) && b * d * p22 == d * (b * p22);
  }

  /** A blended byte lies between the darkest and the brightest of its neighbours. */
  lemma BlendStaysBetween(xf: Eighth, yf: Eighth, p11: Byte, p12: Byte, p21: Byte, p22: Byte)
    ensures Min(Min(p11, p12), Min(p21, p22)) <= Blend(xf, yf, p11, p12, p21, p22)
         <= Max(Max(p11, p12), Max(p21, p22))
  {
    BlendIsBilinear(xf, yf, p11, p12, p21, p22);
    LerpStaysBetween(xf, p11, p12);
    LerpStaysBetween(xf, p21, p22);
    LerpStaysBetween(yf, Lerp(xf, p11, p12), Lerp(xf, p21, p22));
  }

  /** Brighter neighbours never give a darker byte. */
  lemma BlendIsMonotone(xf: Eighth, yf: Eighth, p11: Byte, p12: Byte, p21: Byte, p22: Byte,
                        q11: Byte, q12: Byte, q21: Byte, q22: Byte)
    requires p11 <= q11 && p12 <= q12 && p21 <= q21 && p22 <= q22
    ensures Blend(xf, yf, p11, p12, p21, p22) <= Blend(xf, yf, q11, q12, q21, q22)
  {
    BlendIsBilinear(xf, yf, p11, p12, p21, p22);
    BlendIsBilinear(xf, yf, q11, q12, q21, q22);
    LerpIsMonotone(xf, p11, p12, q11, q12);
    LerpIsMonotone(xf, p21, p22, q21, q22);
    LerpIsMonotone(yf, Lerp(xf, p11, p12), Lerp(xf, p21, p22), Lerp(xf, q11, q12), Lerp(xf, q21, q22));
  }

  // --- Positions ---

  /** The distance of neighbouring output pixels in the input, in 512ths of a pixel. */
  function Factor(input: nat, output: nat): nat
    requires 0 < input && 0 < output
  {
    (input - 1) * 512 / output
  }

  lemma FactorBounds(input: nat, output: nat)
    requires 0 < input && 0 < output
    ensures Factor(input, output) * output <= (input - 1) * 512 < (Factor(input, output) + 1) * output
  {
    DivisionBounds((input - 1) * 512, output);
  }

  lemma DivisionBounds(n: nat, d: nat)
    requires 0 < d
    ensures n / d * d <= n < (n / d + 1) * d
  {
    assert n == n / d * d + n % d;
  }

  function Coarse(i: nat, f: nat): nat {
    i * f / 512
  }

  function Fine(i: nat, f: nat): Eighth {
    i * f / 64 % 8
  }

  /** The input position of output index `i`, rounded down to an eighth of a pixel. */
  lemma PositionInEighths(i: nat, f: nat)
    ensures 8 * Coarse(i, f) + Fine(i, f) == i * f / 64
  {
    assert i * f / 512 == i * f / 64 / 8;
  }

  lemma CoarseIsMonotone(i: nat, j: nat, f: nat)
    requires i <= j
    ensures i * f <= j * f && Coarse(i, f) <= Coarse(j, f)
  {
    assert j * f == i * f + (j - i) * f;
  }

  /** Along one axis, the pixel at each of the first `count` positions and the next one are among `limit` pixels. */
  ghost predicate StaysInside(f: nat, count: nat, limit: nat) {
    forall i :: 0 <= i < count ==> Coarse(i, f) + 2 <= limit
  }

  lemma LastDecides(f: nat, count: nat, limit: nat)
    requires 0 < count
    ensures StaysInside(f, count, limit) <==> Coarse(count - 1, f) + 2 <= limit
  {
    forall i | 0 <= i < count ensures Coarse(i, f) <= Coarse(count - 1, f) {
      CoarseIsMonotone(i, count - 1, f);
    }
  }

  /** Luma reads stay inside the picture, for any output size, exactly if the picture is two pixels wide. */
  lemma LumaStaysInside(input: nat, output: nat)
    requires 0 < input && 0 < output
    ensures StaysInside(Factor(input, output), output, input) <==> 2 <= input
  {
    var f := Factor(input, output);
    FactorBounds(input, output);
    LastDecides(f, output, input);
    assert (output - 1) * f == f * output - f;
    if f == 0 {
      assert (output - 1) * f == 0;
    }
  }

  /**
   What an axis must satisfy for chroma reads: they use the factor of the full-size picture, rounded down, on half
   as many pixels.
   */
  predicate ChromaFits(input: nat, output: nat)
    requires 0 < input && 0 < output
  {
    (input - 1) * 512 % output + (2 + output % 2) * Factor(input, output) > 512 * (1 + input % 2)
  }

  /** Chroma reads stay inside the half-size plane exactly under that condition, for any sizes. */
  lemma ChromaStaysInside(input: nat, output: nat)
    requires 2 <= input && 0 < output
    ensures StaysInside(Factor(input, output), output / 2, input / 2) <==> ChromaFits(input, output)
  {
    var f, width := Factor(input, output), (input - 1) * 512;
    assert width == f * output + width % output;
    if 2 <= output {
      LastDecides(f, output / 2, input / 2);
      LastChroma(output, f);
    } else {
      assert f == width;
    }
  }

  lemma LastChroma(output: nat, f: nat)
    requires 2 <= output
    ensures 2 * ((output / 2 - 1) * f) == f * output - (2 + output % 2) * f
  {
    assert 2 * (output / 2 - 1) == output - (2 + output % 2);
    assert 2 * ((output / 2 - 1) * f) == 2 * (output / 2 - 1) * f;
    assert (output - (2 + output % 2)) * f == output * f - (2 + output % 2) * f;
  }

  /** The smallest output size that makes chroma reads leave the half-size plane. */
  function ChromaLimit(input: nat): nat
    requires 2 <= input
  {
    if input % 2 == 0 then 2 * (input - 1) else input - 1
  }

  lemma ChromaLimitIsFirstMisfit(input: nat, output: nat)
    requires 2 <= input && 0 < output <= ChromaLimit(input)
    ensures ChromaFits(input, output) <==> output < ChromaLimit(input)
  {
    var f, half := Factor(input, output), input / 2;
    FactorBounds(input, output);
    ChromaStaysInside(input, output);
    if 2 <= output {
      LastDecides(f, output / 2, half);
      if output < ChromaLimit(input) {
        LastChromaIsInside(input, output, f);
      } else if input % 2 == 0 {
        UniqueQuotient((input - 1) * 512, output, f, 256);
        assert Coarse(output / 2 - 1, f) == half - 1;
      } else {
        UniqueQuotient((input - 1) * 512, output, f, 512);
        assert Coarse(output / 2 - 1, f) == half - 1;
      }
    }
  }

  /** Beyond the first misfit some sizes fit again: the factor is rounded down by more than the half-size plane lacks. */
  lemma SomeLargerSizeFits()
    ensures ChromaLimit(4) == 6 && !ChromaFits(4, 6) && ChromaFits(4, 7) && !ChromaFits(4, 8)
    ensures StaysInside(Factor(4, 7), 3, 2) && !StaysInside(Factor(4, 8), 4, 2)
  {
    ChromaStaysInside(4, 7);
    ChromaStaysInside(4, 8);
  }

  lemma UniqueQuotient(n: nat, d: nat, q: nat, r: nat)
    requires 0 < d && q * d <= n < (q + 1) * d && n == r * d
    ensures q == r
  {
    MultiplyKeepsOrder(q + 1, r, d);
    MultiplyKeepsOrder(r + 1, q, d);
  }

  lemma MultiplyKeepsOrder(a: int, b: int, d: nat)
    ensures a <= b ==> a * d <= b * d
  {
    if a <= b {
      assert b * d == a * d + (b - a) * d;
    }
  }

  lemma LastChromaIsInside(input: nat, output: nat, f: nat)
    requires 2 <= input && 2 <= output < ChromaLimit(input) && f * output <= (input - 1) * 512
    ensures Coarse(output / 2 - 1, f) + 2 <= input / 2
  {
    var last, span := output / 2 - 1, input / 2 - 1;
    if 512 * span <= last * f {
      assert 1024 * span <= (output - 2) * f by {
        assert 2 * last * f == 2 * (last * f);
        MultiplyKeepsOrder(2 * last, output - 2, f);
      }
      StepsFit(output, f, input - 1, span, input - 1 - 2 * span);
      assert false;
    }
  }

  /** If all but two of the `n` steps of size `f` cover `2 * span` pixels, all `n` cover proportionally more. */
  lemma StepsFit(n: nat, f: nat, width: nat, span: nat, rest: nat)
    requires 2 <= n && f * n <= width * 512 && 1024 * span <= (n - 2) * f
    requires width == 2 * span + rest
    ensures 2 * width <= n * rest
    ensures rest == 1 ==> 2 * width <= n
    ensures rest == 2 ==> width <= n
  {
    MultiplyKeepsOrder(1024 * span, (n - 2) * f, n);
    MultiplyKeepsOrder(f * n, width * 512, n - 2);
    assert (n - 2) * f * n == f * n * (n - 2);
    assert 1024 * span * n == 1024 * (n * span);
    assert width * 512 * (n - 2) == 512 * (n * width) - 1024 * width;
    assert n * width == 2 * (n * span) + n * rest;
  }

  /** Even at the same size every position but the first falls short of its own pixel: such a resize is not a copy. */
  lemma SameSizeIsNotACopy(size: nat, i: nat)
    requires 0 < size
    ensures Coarse(i, Factor(size, size)) == i <==> i == 0
  {
    FactorBounds(size, size);
    var f := Factor(size, size);
    assert f < 512 by {
      MultiplyKeepsOrder(512, f, size);
    }
    if 0 < i {
      assert i * 512 == i * f + i * (512 - f);
    }
  }

  // --- A whole plane ---

  /** Where samples are taken: a byte array read from an origin, with a distance between rows and between samples. */
  datatype Plane = Plane(bytes: seq<Byte>, origin: nat, stride: nat, step: nat) {
    function Index(x: nat, y: nat): nat {
      origin + y * stride + x * step
    }

    /** Outside the array nothing is known of the byte; no resize reads there. */
    function At(x: nat, y: nat): Byte {
      if Index(x, y) < |bytes| then bytes[Index(x, y)] else 0
    }

    /** All reads for `rows` rows of `cols` pixels are in the array, and no 32-bit product wraps. */
    predicate Holds(fx: nat, fy: nat, rows: nat, cols: nat) {
      && 0 < rows && 0 < cols
      && (rows - 1) * fy < 0x200_0000 && (cols - 1) * fx < 0x200_0000
      && Index(Coarse(cols - 1, fx) + 1, Coarse(rows - 1, fy) + 1) < |bytes|
    }
  }

  function Resampled(p: Plane, fx: nat, fy: nat, row: nat, col: nat): (b: Byte) {
    var x, y := Coarse(col, fx), Coarse(row, fy);
    BlendStaysBetween(Fine(col, fx), Fine(row, fy), p.At(x, y), p.At(x + 1, y), p.At(x, y + 1), p.At(x + 1, y + 1));
    Blend(Fine(col, fx), Fine(row, fy), p.At(x, y), p.At(x + 1, y), p.At(x, y + 1), p.At(x + 1, y + 1))
  }

  ghost predicate HasByte(bytes: seq<Byte>, k: int, value: int) {
    0 <= k < |bytes| && bytes[k] == value
  }

  /** On a linear brightness ramp the result is the ramp at the output pixel's position, rounded down once. */
  lemma RampIsSampledExactly(p: Plane, a: int, b: int, c: int, fx: nat, fy: nat, row: nat, col: nat)
    requires forall x: nat, y: nat :: x <= col * fx / 512 + 1 && y <= row * fy / 512 + 1 ==>
               HasByte(p.bytes, p.origin + y * p.stride + x * p.step, a * x + b * y + c)
    ensures Resampled(p, fx, fy, row, col) == (a * (col * fx / 64) + b * (row * fy / 64) + 8 * c) / 8
  {
    var x, y := Coarse(col, fx), Coarse(row, fy);
    PositionInEighths(col, fx);
    PositionInEighths(row, fy);
    forall x: nat, y: nat | x <= Coarse(col, fx) + 1 && y <= Coarse(row, fy) + 1
      ensures p.At(x, y) == a * x + b * y + c
    {
      assert HasByte(p.bytes, p.origin + y * p.stride + x * p.step, a * x + b * y + c);
    }
    RampIsBlended(a, b, c, x, y, Fine(col, fx), Fine(row, fy),
                  p.At(x, y), p.At(x + 1, y), p.At(x, y + 1), p.At(x + 1, y + 1));
  }

  lemma RampIsBlended(a: int, b: int, c: int, x: nat, y: nat, xf: Eighth, yf: Eighth,
                      p11: Byte, p12: Byte, p21: Byte, p22: Byte)
    requires p11 == a * x + b * y + c && p12 == a * (x + 1) + b * y + c
    requires p21 == a * x + b * (y + 1) + c && p22 == a * (x + 1) + b * (y + 1) + c
    ensures Blend(xf, yf, p11, p12, p21, p22) == (a * (8 * x + xf) + b * (8 * y + yf) + 8 * c) / 8
  {
    RampNeighbours(a, b, c, x, y, xf, yf);
    BlendIsBilinear(xf, yf, p11, p12, p21, p22);
    RampInEighths(a, b, p11, xf, yf);
  }

  lemma RampNeighbours(a: int, b: int, c: int, x: int, y: int, xf: int, yf: int)
    ensures a * (x + 1) == a * x + a && b * (y + 1) == b * y + b
    ensures a * (8 * x + xf) + b * (8 * y + yf) + 8 * c == 8 * (a * x + b * y + c) + a * xf + b * yf
  {
    assert a * (8 * x + xf) == 8 * (a * x) + a * xf;
    assert b * (8 * y + yf) == 8 * (b * y) + b * yf;
  }

  lemma RampInEighths(a: int, b: int, corner: int, xf: Eighth, yf: Eighth)
    ensures Lerp(yf, Lerp(xf, corner, corner + a), Lerp(xf, corner + b, corner + b + a)) / 64
         == (8 * corner + a * xf + b * yf) / 8
  {
    assert Lerp(xf, corner, corner + a) == 8 * corner + a * xf;
    assert Lerp(xf, corner + b, corner + b + a) == 8 * corner + a * xf + 8 * b;
    var low := 8 * corner + a * xf;
    assert Lerp(yf, low, low + 8 * b) == 8 * low + 8 * (b * yf);
  }

  /** A plane of one colour stays that colour. */
  lemma ConstantStaysConstant(p: Plane, v: Byte, fx: nat, fy: nat, row: nat, col: nat)
    requires forall x: nat, y: nat :: x <= Coarse(col, fx) + 1 && y <= Coarse(row, fy) + 1 ==> p.At(x, y) == v
    ensures Resampled(p, fx, fy, row, col) == v
  {
    var x, y := Coarse(col, fx), Coarse(row, fy);
    assert p.At(x, y) == v && p.At(x + 1, y) == v && p.At(x, y + 1) == v && p.At(x + 1, y + 1) == v;
    BlendStaysBetween(Fine(col, fx), Fine(row, fy), v, v, v, v);
  }

  // --- The loops ---

  ghost function Tabulate<T>(n: nat, f: nat -> T): seq<T> {
    if n == 0 then [] else Tabulate(n - 1, f) + [f(n - 1)]
  }

  lemma {:induction false} TabulateAt<T>(n: nat, f: nat -> T, i: nat)
    ensures |Tabulate(n, f)| == n
    ensures i < n ==> Tabulate(n, f)[i] == f(i)
  {
    if n != 0 {
      TabulateAt(n - 1, f, i);
    }
  }

  /** The rows of bytes that the loops produce. */
  type Picture = seq<seq<Byte>>

  ghost function LumaRow(p: Plane, fx: nat, fy: nat, row: nat, cols: nat): seq<Byte> {
    Tabulate(cols, col => Resampled(p, fx, fy, row, col))
  }

  ghost function LumaPicture(p: Plane, fx: nat, fy: nat, rows: nat, cols: nat): Picture {
    Tabulate(rows, row => LumaRow(p, fx, fy, row, cols))
  }

  /** Blue and red alternate. */
  ghost function Interleaved(u: Plane, v: Plane, fx: nat, fy: nat, row: nat, i: nat): Byte {
    Resampled(if i % 2 == 0 then u else v, fx, fy, row, i / 2)
  }

  ghost function ChromaRow(u: Plane, v: Plane, fx: nat, fy: nat, row: nat, cols: nat): seq<Byte> {
    Tabulate(2 * cols, i => Interleaved(u, v, fx, fy, row, i))
  }

  ghost function ChromaPicture(u: Plane, v: Plane, fx: nat, fy: nat, rows: nat, cols: nat): Picture {
    Tabulate(rows, row => ChromaRow(u, v, fx, fy, row, cols))
  }

  /** One byte of the picture. */
  lemma LumaRowAt(p: Plane, fx: nat, fy: nat, row: nat, cols: nat, col: nat)
    ensures |LumaRow(p, fx, fy, row, cols)| == cols
    ensures col < cols ==> LumaRow(p, fx, fy, row, cols)[col] == Resampled(p, fx, fy, row, col)
  {
    TabulateAt(cols, col => Resampled(p, fx, fy, row, col), col);
  }

  lemma LumaPictureAt(p: Plane, fx: nat, fy: nat, rows: nat, cols: nat, row: nat)
    ensures |LumaPicture(p, fx, fy, rows, cols)| == rows
    ensures row < rows ==> LumaPicture(p, fx, fy, rows, cols)[row] == LumaRow(p, fx, fy, row, cols)
  {
    TabulateAt(rows, row => LumaRow(p, fx, fy, row, cols), row);
  }

  lemma ChromaByteAt(u: Plane, v: Plane, fx: nat, fy: nat, row: nat, cols: nat, i: nat)
    ensures |ChromaRow(u, v, fx, fy, row, cols)| == 2 * cols
    ensures i < 2 * cols ==> ChromaRow(u, v, fx, fy, row, cols)[i] == Interleaved(u, v, fx, fy, row, i)
  {
    TabulateAt(2 * cols, i => Interleaved(u, v, fx, fy, row, i), i);
  }

  /** One pair of colour bytes of the picture. */
  lemma ChromaRowAt(u: Plane, v: Plane, fx: nat, fy: nat, row: nat, cols: nat, col: nat)
    ensures |ChromaRow(u, v, fx, fy, row, cols)| == 2 * cols
    ensures col < cols ==> ChromaRow(u, v, fx, fy, row, cols)[2 * col] == Resampled(u, fx, fy, row, col)
    ensures col < cols ==> ChromaRow(u, v, fx, fy, row, cols)[2 * col + 1] == Resampled(v, fx, fy, row, col)
  {
    ChromaByteAt(u, v, fx, fy, row, cols, 2 * col);
    ChromaByteAt(u, v, fx, fy, row, cols, 2 * col + 1);
    assert 2 * col / 2 == col && (2 * col + 1) / 2 == col;
  }

  lemma ChromaPictureAt(u: Plane, v: Plane, fx: nat, fy: nat, rows: nat, cols: nat, row: nat)
    ensures |ChromaPicture(u, v, fx, fy, rows, cols)| == rows
    ensures row < rows ==> ChromaPicture(u, v, fx, fy, rows, cols)[row] == ChromaRow(u, v, fx, fy, row, cols)
  {
    TabulateAt(rows, row => ChromaRow(u, v, fx, fy, row, cols), row);
  }

  /** The output bytes of `rows` rows of `width` bytes. */
  datatype Area = Area(base: nat, advance: nat, rows: nat, width: nat) {
    function Address(row: nat, i: nat): nat {
      base + row * advance + i
    }

    ghost predicate Contains(k: nat) {
      exists row: nat, i: nat :: row < rows && i < width && Address(row, i) == k
    }

    /** Rows do not overlap and the last one ends inside an array of the given length. */
    predicate Fits(length: nat) {
      width <= advance && (rows == 0 || base + (rows - 1) * advance + width <= length)
    }
  }

  ghost predicate Fills(picture: Picture, a: Area) {
    |picture| == a.rows && forall row :: 0 <= row < a.rows ==> |picture[row]| == a.width
  }

  /** Every byte of the area before byte `col` of row `row` is that of the picture, and all other bytes are as before. */
  ghost predicate PaintedUpTo(after: seq<Byte>, before: seq<Byte>, a: Area, picture: Picture, row: nat, col: nat)
    requires Fills(picture, a)
  {
    && |after| == |before|
    && (forall r: nat, i: nat :: r < a.rows && i < a.width && (r < row || (r == row && i < col))
          ==> a.Address(r, i) < |after| && after[a.Address(r, i)] == picture[r][i])
    && (forall k :: 0 <= k < |after| && after[k] != before[k] ==> a.Contains(k))
  }

  /** The area shows the picture and nothing else has changed. */
  ghost predicate Painted(after: seq<Byte>, before: seq<Byte>, a: Area, picture: Picture) {
    Fills(picture, a) && PaintedUpTo(after, before, a, picture, a.rows, 0)
  }

  /** Row by row, `cols` bytes from `base` on hold the samples of a plane. */
  ghost predicate ShowsPixels(bytes: seq<Byte>, base: nat, advance: nat, p: Plane, fx: nat, fy: nat, rows: nat, cols: nat) {
    forall row: nat, col: nat :: row < rows && col < cols ==>
      HasByte(bytes, base + row * advance + col, Resampled(p, fx, fy, row, col))
  }

  /** Row by row, `pairs` pairs of bytes from `base` on hold the samples of two planes in turn. */
  ghost predicate ShowsPairs(bytes: seq<Byte>, base: nat, advance: nat, u: Plane, v: Plane, fx: nat, fy: nat,
                             rows: nat, pairs: nat) {
    forall row: nat, col: nat :: row < rows && col < pairs ==>
      && HasByte(bytes, base + row * advance + 2 * col, Resampled(u, fx, fy, row, col))
      && HasByte(bytes, base + row * advance + 2 * col + 1, Resampled(v, fx, fy, row, col))
  }

  /** Bytes that belong to no row of `width` bytes are as before. */
  ghost predicate NothingElse(after: seq<Byte>, before: seq<Byte>, base: nat, advance: nat, rows: nat, width: nat) {
    && |after| == |before|
    && forall k :: 0 <= k < |after| && after[k] != before[k] ==> Area(base, advance, rows, width).Contains(k)
  }

  lemma PixelsOfPainted(after: seq<Byte>, before: seq<Byte>, a: Area, p: Plane, fx: nat, fy: nat)
    requires Painted(after, before, a, LumaPicture(p, fx, fy, a.rows, a.width))
    ensures ShowsPixels(after, a.base, a.advance, p, fx, fy, a.rows, a.width)
    ensures NothingElse(after, before, a.base, a.advance, a.rows, a.width)
  {
    forall row: nat, col: nat | row < a.rows && col < a.width
      ensures HasByte(after, a.base + row * a.advance + col, Resampled(p, fx, fy, row, col))
    {
      LumaPictureAt(p, fx, fy, a.rows, a.width, row);
      LumaRowAt(p, fx, fy, row, a.width, col);
      assert a.Address(row, col) == a.base + row * a.advance + col;
    }
  }

  lemma PairsOfPainted(after: seq<Byte>, before: seq<Byte>, a: Area, u: Plane, v: Plane, fx: nat, fy: nat)
    requires a.width % 2 == 0 && Painted(after, before, a, ChromaPicture(u, v, fx, fy, a.rows, a.width / 2))
    ensures ShowsPairs(after, a.base, a.advance, u, v, fx, fy, a.rows, a.width / 2)
    ensures NothingElse(after, before, a.base, a.advance, a.rows, a.width)
  {
    var pairs := a.width / 2;
    var picture := ChromaPicture(u, v, fx, fy, a.rows, pairs);
    forall row: nat, col: nat | row < a.rows && col < pairs
      ensures HasByte(after, a.base + row * a.advance + 2 * col, Resampled(u, fx, fy, row, col))
      ensures HasByte(after, a.base + row * a.advance + 2 * col + 1, Resampled(v, fx, fy, row, col))
    {
      ChromaPictureAt(u, v, fx, fy, a.rows, pairs, row);
      ChromaRowAt(u, v, fx, fy, row, pairs, col);
      PaintedAt(after, before, a, picture, row, 2 * col);
      PaintedAt(after, before, a, picture, row, 2 * col + 1);
    }
  }

  lemma PaintedAt(after: seq<Byte>, before: seq<Byte>, a: Area, picture: Picture, row: nat, i: nat)
    requires Painted(after, before, a, picture) && row < a.rows && i < a.width
    ensures HasByte(after, a.base + row * a.advance + i, picture[row][i])
  {
    assert a.Address(row, i) == a.base + row * a.advance + i;
  }

  lemma AddressesIncrease(a: Area, r: nat, i: nat, row: nat, col: nat)
    requires i < a.width <= a.advance && (r < row || (r == row && i < col))
    ensures a.Address(r, i) < a.Address(row, col)
  {
    MultiplyKeepsOrder(r + 1, row, a.advance);
  }

  lemma AreaEndsInside(a: Area, length: nat, row: nat, col: nat)
    requires a.Fits(length) && row < a.rows && col < a.width
    ensures a.Address(row, col) < length
  {
    MultiplyKeepsOrder(row, a.rows - 1, a.advance);
  }

  /** Writing the next byte. */
  lemma NextIsPainted(after: seq<Byte>, before: seq<Byte>, a: Area, picture: Picture, row: nat, col: nat, k: nat)
    requires Fills(picture, a) && PaintedUpTo(after, before, a, picture, row, col)
    requires a.Fits(|after|) && row < a.rows && col < a.width && k == a.Address(row, col)
    ensures k < |after|
    ensures PaintedUpTo(after[k := picture[row][col]], before, a, picture, row, col + 1)
  {
    AreaEndsInside(a, |after|, row, col);
    forall r: nat, i: nat | i < a.width && (r < row || (r == row && i < col))
      ensures a.Address(r, i) < k
    {
      AddressesIncrease(a, r, i, row, col);
    }
    assert a.Contains(k);
  }

  /** The position as the code computes it: the product in 32 bits, the whole pixels in 16. */
  function Coarse16(i: nat, f: nat): nat {
    i * f % 0x1_0000_0000 / 512 % 0x1_0000
  }

  function Fine16(i: nat, f: nat): Eighth {
    i * f % 0x1_0000_0000 / 64 % 8
  }

  /** Nothing wraps. */
  lemma PositionIsExact(i: nat, count: nat, f: nat)
    requires i < count && (count - 1) * f < 0x200_0000
    ensures Coarse16(i, f) == Coarse(i, f) <= Coarse(count - 1, f) && Fine16(i, f) == Fine(i, f)
  {
    CoarseIsMonotone(i, count - 1, f);
  }

  /** The four bytes that an output pixel of a plane is computed from are inside the array. */
  lemma ReadsAreInside(p: Plane, fx: nat, fy: nat, rows: nat, cols: nat, row: nat, col: nat, k: nat)
    requires p.Holds(fx, fy, rows, cols) && row < rows && col < cols
    requires k == p.Index(Coarse16(col, fx), Coarse16(row, fy))
    ensures Coarse16(col, fx) == Coarse(col, fx) && Coarse16(row, fy) == Coarse(row, fy)
    ensures Fine16(col, fx) == Fine(col, fx) && Fine16(row, fy) == Fine(row, fy)
    ensures k + p.stride + p.step < |p.bytes|
  {
    var x, y := Coarse(col, fx), Coarse(row, fy);
    PositionIsExact(col, cols, fx);
    PositionIsExact(row, rows, fy);
    MultiplyKeepsOrder(y + 1, Coarse(rows - 1, fy) + 1, p.stride);
    MultiplyKeepsOrder(x + 1, Coarse(cols - 1, fx) + 1, p.step);
    NeighboursInPlane(p, x, y);
  }

  /** Blending those four bytes gives the output pixel. */
  lemma PixelFromBytes(p: Plane, fx: nat, fy: nat, row: nat, col: nat, k: nat, xf: Eighth, yf: Eighth,
                       in11: Byte, in12: Byte, in21: Byte, in22: Byte)
    requires k == p.Index(Coarse(col, fx), Coarse(row, fy)) && k + p.stride + p.step < |p.bytes|
    requires xf == Fine(col, fx) && yf == Fine(row, fy)
    requires in11 == p.bytes[k] && in12 == p.bytes[k + p.step]
    requires in21 == p.bytes[k + p.stride] && in22 == p.bytes[k + p.stride + p.step]
    ensures Resampled(p, fx, fy, row, col) == Blend(xf, yf, in11, in12, in21, in22)
  {
    NeighboursInPlane(p, Coarse(col, fx), Coarse(row, fy));
  }

  lemma NeighboursInPlane(p: Plane, x: nat, y: nat)
    ensures p.Index(x + 1, y) == p.Index(x, y) + p.step && p.Index(x, y + 1) == p.Index(x, y) + p.stride
    ensures p.Index(x + 1, y + 1) == p.Index(x, y) + p.stride + p.step
  {
  }

  /** The four products are added up in 16 bits, which they never exceed. */
  method BlendBytes(xf: Eighth, yf: Eighth, in11: Byte, in12: Byte, in21: Byte, in22: Byte) returns (b: Byte)
    ensures b == Blend(xf, yf, in11, in12, in21, in22)
  {
    BlendStaysBetween(xf, yf, in11, in12, in21, in22);
    WeightsSumTo64(xf, yf);
    var w := Row(xf, yf);
    PartialSumsFit(w[0], w[1], w[3], w[2], in11, in12, in21, in22);
    b := Accumulate(w[0] * in11, w[1] * in12, w[3] * in21, w[2] * in22);
  }

  method Accumulate(a: nat, b: nat, c: nat, d: nat) returns (sum: int)
    requires a + b + c + d < 0x1_0000
    ensures sum == (a + b + c + d) / 64 % 256
  {
    var accum := a % 0x1_0000;
    accum := (accum + b) % 0x1_0000;
    accum := (accum + c) % 0x1_0000;
    accum := (accum + d) % 0x1_0000;
    sum := accum / 64 % 256;
  }

  lemma WeightsSumTo64(xf: Eighth, yf: Eighth)
    ensures var w := Row(xf, yf); w[0] + w[1] + w[3] + w[2] == 64
  {
    assert (8 - xf) * (8 - yf) + xf * (8 - yf) == 8 * (8 - yf);
    assert xf * yf + (8 - xf) * yf == 8 * yf;
  }

  lemma PartialSumsFit(w0: nat, w1: nat, w2: nat, w3: nat, in11: Byte, in12: Byte, in21: Byte, in22: Byte)
    requires w0 + w1 + w2 + w3 == 64
    ensures 0 <= w0 * in11 && 0 <= w1 * in12 && 0 <= w2 * in21 && 0 <= w3 * in22
    ensures w0 * in11 + w1 * in12 + w2 * in21 + w3 * in22 <= 64 * 255
  {
    ProductFits(w0, in11);
    ProductFits(w1, in12);
    ProductFits(w2, in21);
    ProductFits(w3, in22);
  }

  lemma ProductFits(w: nat, b: Byte)
    ensures 0 <= w * b <= 255 * w
  {
  }

  lemma NextRow(a: Area, row: nat)
    requires a.width <= a.advance
    ensures a.Address(row, a.width) + (a.advance - a.width) == a.Address(row + 1, 0)
  {
  }

  /** Before the first row nothing is painted. */
  lemma NothingIsPainted(before: seq<Byte>, a: Area, picture: Picture)
    requires Fills(picture, a)
    ensures PaintedUpTo(before, before, a, picture, 0, 0) && a.Address(0, 0) == a.base
  {
  }

  /** The end of a row is the start of the next one. */
  lemma RowIsPainted(after: seq<Byte>, before: seq<Byte>, a: Area, picture: Picture, row: nat)
    requires Fills(picture, a) && a.width <= a.advance && PaintedUpTo(after, before, a, picture, row, a.width)
    ensures PaintedUpTo(after, before, a, picture, row + 1, 0)
    ensures a.Address(row, a.width) + (a.advance - a.width) == a.Address(row + 1, 0)
  {
    NextRow(a, row);
  }

  /** The bytes at two places of a row and the row below it, blended. */
  method BlendAt(ghost p: Plane, ghost fx: nat, ghost fy: nat, ghost rows: nat, ghost cols: nat, ghost row: nat, ghost col: nat,
                 src: array<Byte>, ptr1: nat, ptr2: nat, step: nat, xf: Eighth, yf: Eighth)
    returns (b: Byte)
    requires p.bytes == src[..] && p.step == step && p.Holds(fx, fy, rows, cols) && row < rows && col < cols
    requires ptr1 == p.Index(Coarse16(col, fx), Coarse16(row, fy)) && ptr2 == ptr1 + p.stride
    requires xf == Fine16(col, fx) && yf == Fine16(row, fy)
    ensures b == Resampled(p, fx, fy, row, col)
  {
    ReadsAreInside(p, fx, fy, rows, cols, row, col, ptr1);
    var in11, in12, in21, in22 := src[ptr1], src[ptr1 + step], src[ptr2], src[ptr2 + step];
    PixelFromBytes(p, fx, fy, row, col, ptr1, xf, yf, in11, in12, in21, in22);
    b := BlendBytes(xf, yf, in11, in12, in21, in22);
  }

  lemma LumaFills(p: Plane, fx: nat, fy: nat, a: Area)
    ensures Fills(LumaPicture(p, fx, fy, a.rows, a.width), a)
  {
    LumaPictureAt(p, fx, fy, a.rows, a.width, 0);
    forall row | 0 <= row < a.rows ensures |LumaPicture(p, fx, fy, a.rows, a.width)[row]| == a.width {
      LumaPictureAt(p, fx, fy, a.rows, a.width, row);
      LumaRowAt(p, fx, fy, row, a.width, 0);
    }
  }

  lemma ChromaFills(u: Plane, v: Plane, fx: nat, fy: nat, a: Area)
    requires a.width % 2 == 0
    ensures Fills(ChromaPicture(u, v, fx, fy, a.rows, a.width / 2), a)
  {
    ChromaPictureAt(u, v, fx, fy, a.rows, a.width / 2, 0);
    forall row | 0 <= row < a.rows ensures |ChromaPicture(u, v, fx, fy, a.rows, a.width / 2)[row]| == a.width {
      ChromaPictureAt(u, v, fx, fy, a.rows, a.width / 2, row);
      ChromaRowAt(u, v, fx, fy, row, a.width / 2, 0);
    }
  }

  /** The inner luma loop. */
  method ResizeLumaRow(src: array<Byte>, row1: nat, row2: nat, yf: Eighth, fx: nat, dst: array<Byte>, start: nat, a: Area,
                       row: nat, ghost p: Plane, ghost fy: nat, ghost before: seq<Byte>, ghost picture: Picture)
    returns (ptr8: nat)
    requires src != dst && row < a.rows && Fills(picture, a) && a.Fits(dst.Length)
    requires p.bytes == src[..] && p.step == 1 && (0 < a.width ==> p.Holds(fx, fy, a.rows, a.width))
    requires picture[row] == LumaRow(p, fx, fy, row, a.width) && start == a.Address(row, 0)
    requires row1 == p.Index(0, Coarse16(row, fy)) && row2 == row1 + p.stride && yf == Fine16(row, fy)
    requires PaintedUpTo(dst[..], before, a, picture, row, 0)
    modifies dst
    ensures ptr8 == a.Address(row, a.width) && PaintedUpTo(dst[..], before, a, picture, row, a.width)
  {
    ptr8 := start;
    var col := 0;
    while col < a.width
      invariant col <= a.width && ptr8 == a.Address(row, col) && src[..] == p.bytes
      invariant PaintedUpTo(dst[..], before, a, picture, row, col)
    {
      var x, xf := Coarse16(col, fx), Fine16(col, fx);
      var b := BlendAt(p, fx, fy, a.rows, a.width, row, col, src, row1 + x, row2 + x, 1, xf, yf);
      LumaRowAt(p, fx, fy, row, a.width, col);
      ghost var painted := dst[..];
      NextIsPainted(painted, before, a, picture, row, col, ptr8);
      dst[ptr8] := b;
      assert dst[..] == painted[ptr8 := b];
      ptr8, col := ptr8 + 1, col + 1;
    }
  }

  /** Every luma byte of the area is the bilinear sample of the input, and nothing else is written. */
  method ResizeLuma(src: array<Byte>, origin: nat, stride: nat, fx: nat, fy: nat, dst: array<Byte>, a: Area)
    requires src != dst && a.Fits(dst.Length)
    requires 0 < a.rows && 0 < a.width ==> Plane(src[..], origin, stride, 1).Holds(fx, fy, a.rows, a.width)
    modifies dst
    ensures ShowsPixels(dst[..], a.base, a.advance, Plane(old(src[..]), origin, stride, 1), fx, fy, a.rows, a.width)
    ensures NothingElse(dst[..], old(dst[..]), a.base, a.advance, a.rows, a.width)
  {
    ghost var p, before := Plane(src[..], origin, stride, 1), dst[..];
    ghost var picture := LumaPicture(p, fx, fy, a.rows, a.width);
    LumaFills(p, fx, fy, a);
    NothingIsPainted(before, a, picture);
    var ptr8, row := a.base, 0;
    var gap: nat := a.advance - a.width;
    while row < a.rows
      invariant row <= a.rows && ptr8 == a.Address(row, 0) && src[..] == p.bytes
      invariant PaintedUpTo(dst[..], before, a, picture, row, 0)
    {
      var y, yf := Coarse16(row, fy), Fine16(row, fy);
      var row1 := origin + y * stride;
      var row2 := row1 + stride;
      LumaPictureAt(p, fx, fy, a.rows, a.width, row);
      ptr8 := ResizeLumaRow(src, row1, row2, yf, fx, dst, ptr8, a, row, p, fy, before, picture);
      RowIsPainted(dst[..], before, a, picture, row);
      ptr8 := ptr8 + gap;
      row := row + 1;
    }
    PixelsOfPainted(dst[..], before, a, p, fx, fy);
  }

  /** The inner loop of both colours, blue first; neighbours are two bytes apart. */
  method ResizeChromaRow(src: array<Byte>, cbr1: nat, cbr2: nat, crr1: nat, crr2: nat, yf: Eighth, fx: nat,
                         dst: array<Byte>, start: nat, a: Area, row: nat,
                         ghost u: Plane, ghost v: Plane, ghost fy: nat, ghost before: seq<Byte>, ghost picture: Picture)
    returns (ptr8Cb: nat, ptr8Cr: nat)
    requires src != dst && row < a.rows && Fills(picture, a) && a.Fits(dst.Length) && a.width % 2 == 0
    requires u.bytes == v.bytes == src[..] && u.step == v.step == 2
    requires 0 < a.width ==> u.Holds(fx, fy, a.rows, a.width / 2) && v.Holds(fx, fy, a.rows, a.width / 2)
    requires picture[row] == ChromaRow(u, v, fx, fy, row, a.width / 2) && start == a.Address(row, 0)
    requires cbr1 == u.Index(0, Coarse16(row, fy)) && cbr2 == cbr1 + u.stride && yf == Fine16(row, fy)
    requires crr1 == v.Index(0, Coarse16(row, fy)) && crr2 == crr1 + v.stride
    requires PaintedUpTo(dst[..], before, a, picture, row, 0)
    modifies dst
    ensures ptr8Cb == a.Address(row, a.width) == ptr8Cr - 1 && PaintedUpTo(dst[..], before, a, picture, row, a.width)
  {
    ptr8Cb, ptr8Cr := start, start + 1;
    var col := 0;
    while col < a.width / 2
      invariant col <= a.width / 2 && ptr8Cb == a.Address(row, 2 * col) == ptr8Cr - 1 && src[..] == u.bytes
      invariant PaintedUpTo(dst[..], before, a, picture, row, 2 * col)
    {
      var x, xf := Coarse16(col, fx), Fine16(col, fx);
      var cb := BlendAt(u, fx, fy, a.rows, a.width / 2, row, col, src, cbr1 + x * 2, cbr2 + x * 2, 2, xf, yf);
      var cr := BlendAt(v, fx, fy, a.rows, a.width / 2, row, col, src, crr1 + x * 2, crr2 + x * 2, 2, xf, yf);
      ChromaRowAt(u, v, fx, fy, row, a.width / 2, col);
      ghost var painted := dst[..];
      NextIsPainted(painted, before, a, picture, row, 2 * col, ptr8Cb);
      dst[ptr8Cb] := cb;
      ghost var blue := dst[..];
      assert blue == painted[ptr8Cb := cb];
      NextIsPainted(blue, before, a, picture, row, 2 * col + 1, ptr8Cr);
      dst[ptr8Cr] := cr;
      assert dst[..] == blue[ptr8Cr := cr];
      ptr8Cb, ptr8Cr, col := ptr8Cb + 2, ptr8Cr + 2, col + 1;
    }
  }

  /** Every pair of colour bytes of the area holds the bilinear samples of the two colours, and nothing else is written. */
  method ResizeChroma(src: array<Byte>, origin: nat, stride: nat, fx: nat, fy: nat, dst: array<Byte>, a: Area)
    requires src != dst && a.Fits(dst.Length) && a.width % 2 == 0
    requires 0 < a.rows && 0 < a.width ==> Plane(src[..], origin, stride, 2).Holds(fx, fy, a.rows, a.width / 2)
                                           && Plane(src[..], origin + 1, stride, 2).Holds(fx, fy, a.rows, a.width / 2)
    modifies dst
    ensures ShowsPairs(dst[..], a.base, a.advance, Plane(old(src[..]), origin, stride, 2),
                       Plane(old(src[..]), origin + 1, stride, 2), fx, fy, a.rows, a.width / 2)
    ensures NothingElse(dst[..], old(dst[..]), a.base, a.advance, a.rows, a.width)
  {
    ghost var u, v := Plane(src[..], origin, stride, 2), Plane(src[..], origin + 1, stride, 2);
    ghost var picture, before := ChromaPicture(u, v, fx, fy, a.rows, a.width / 2), dst[..];
    ChromaFills(u, v, fx, fy, a);
    NothingIsPainted(before, a, picture);
    var ptr8Cb, ptr8Cr, row := a.base, a.base + 1, 0;
    var gap: nat := a.advance - a.width;
    while row < a.rows
      invariant row <= a.rows && ptr8Cb == a.Address(row, 0) == ptr8Cr - 1 && src[..] == u.bytes
      invariant PaintedUpTo(dst[..], before, a, picture, row, 0)
    {
      var y, yf := Coarse16(row, fy), Fine16(row, fy);
      var cbr1 := origin + y * stride;
      var cbr2 := cbr1 + stride;
      ChromaPictureAt(u, v, fx, fy, a.rows, a.width / 2, row);
      ptr8Cb, ptr8Cr := ResizeChromaRow(src, cbr1, cbr2, cbr1 + 1, cbr2 + 1, yf, fx, dst, ptr8Cb, a, row,
                                        u, v, fy, before, picture);
      RowIsPainted(dst[..], before, a, picture, row);
      ptr8Cb, ptr8Cr := ptr8Cb + gap, ptr8Cr + gap;
      row := row + 1;
    }
    PairsOfPainted(dst[..], before, a, u, v, fx, fy);
  }

  // --- The frame ---

  datatype Format = NoFormat | Rgb565 | Rgb888 | YCbCr420Lp | YCbCr | YCbCr420FramePk

  datatype ConvImage = ConvImage(uWidth: int, uHeight: int, uStride: int, eFormat: Format,
                                 imgPtr: array?<Byte>, clrPtr: array<Byte>, uOffset: nat)

  datatype Rect = Rect(x: nat, y: nat, width: nat, height: nat)

  /** The rectangle to fill: all of the output picture unless one is given. */
  function Target(o: ConvImage, cropout: Option<Rect>): Rect
    requires 0 <= o.uWidth && 0 <= o.uHeight
  {
    match cropout
    case Some(rect) => rect
    case None => Rect(0, 0, o.uWidth, o.uHeight)
  }

  /** The input picture's dimensions are kept in 16 bits. */
  function Low16(n: int): nat {
    n % 0x1_0000
  }

  predicate ValidInput(i: ConvImage, o: ConvImage) {
    i.imgPtr != null && o.imgPtr != null && 1 <= Low16(i.uWidth) && 1 <= Low16(i.uHeight) && 1 <= i.uStride
  }

  predicate Supported(i: ConvImage, o: ConvImage) {
    i.eFormat == YCbCr420Lp && o.eFormat == YCbCr420Lp
  }

  function LumaArea(o: ConvImage, rect: Rect): Area
    requires 0 <= o.uWidth && 0 <= o.uStride
  {
    Area(rect.x + rect.y * o.uWidth, o.uStride, rect.height, rect.width)
  }

  /** The pointers move by whole pairs, but the end of a row is reached as if all `width` bytes had been passed. */
  function ChromaArea(o: ConvImage, rect: Rect): Area
    requires 0 <= o.uWidth && rect.width <= o.uStride
  {
    Area(rect.x + rect.y * o.uWidth, o.uStride - rect.width % 2, rect.height / 2, rect.width / 2 * 2)
  }

  lemma ChromaAreaIsHalf(o: ConvImage, rect: Rect)
    requires 0 <= o.uWidth && rect.width <= o.uStride
    ensures var a := ChromaArea(o, rect);
            && a.width % 2 == 0 && a.width / 2 == rect.width / 2
            && (0 < a.rows && 0 < a.width ==> 2 <= rect.width && 2 <= rect.height)
  {
  }

  ghost predicate LumaHolds(i: ConvImage, rect: Rect, p: Plane)
    requires ValidInput(i, i) && 0 < rect.width && 0 < rect.height
  {
    p.Holds(Factor(Low16(i.uWidth), rect.width), Factor(Low16(i.uHeight), rect.height), rect.height, rect.width)
  }

  ghost predicate ChromaHolds(i: ConvImage, rect: Rect, p: Plane)
    requires ValidInput(i, i) && 0 < rect.width && 0 < rect.height
  {
    2 <= rect.width && 2 <= rect.height
    ==> p.Holds(Factor(Low16(i.uWidth), rect.width), Factor(Low16(i.uHeight), rect.height), rect.height / 2, rect.width / 2)
  }

  function LumaPlane(i: ConvImage, bytes: seq<Byte>): Plane
    requires 0 <= i.uStride
  {
    Plane(bytes, i.uOffset, i.uStride, 1)
  }

  function ChromaPlane(i: ConvImage, bytes: seq<Byte>, channel: nat): Plane
    requires 0 <= i.uStride
  {
    Plane(bytes, i.uOffset / 2 + channel, i.uStride, 2)
  }

  /** What callers must provide: arrays that do not overlap and are long enough for all reads and writes. */
  ghost predicate Backed(i: ConvImage, o: ConvImage, rect: Rect)
    requires ValidInput(i, o) && 0 < rect.width && 0 < rect.height && 0 <= o.uWidth
    reads i.imgPtr, i.clrPtr
  {
    && i.imgPtr != o.imgPtr && i.imgPtr != o.clrPtr && i.clrPtr != o.imgPtr && i.clrPtr != o.clrPtr && o.imgPtr != o.clrPtr
    && rect.width <= o.uStride
    && LumaArea(o, rect).Fits(o.imgPtr.Length) && ChromaArea(o, rect).Fits(o.clrPtr.Length)
    && LumaHolds(i, rect, LumaPlane(i, i.imgPtr[..]))
    && ChromaHolds(i, rect, ChromaPlane(i, i.clrPtr[..], 0)) && ChromaHolds(i, rect, ChromaPlane(i, i.clrPtr[..], 1))
  }

  /** Paints both planes inside a rectangle. */
  method ResizePlanes(i: ConvImage, o: ConvImage, rect: Rect)
    requires ValidInput(i, o) && 0 <= o.uWidth && 0 < rect.width && 0 < rect.height && Backed(i, o, rect)
    modifies o.imgPtr, o.clrPtr
    ensures ShowsPixels(o.imgPtr[..], rect.x + rect.y * o.uWidth, o.uStride,
                        Plane(old(i.imgPtr[..]), i.uOffset, i.uStride, 1),
                        Factor(Low16(i.uWidth), rect.width), Factor(Low16(i.uHeight), rect.height), rect.height, rect.width)
    ensures ShowsPairs(o.clrPtr[..], rect.x + rect.y * o.uWidth, o.uStride - rect.width % 2,
                       Plane(old(i.clrPtr[..]), i.uOffset / 2, i.uStride, 2),
                       Plane(old(i.clrPtr[..]), i.uOffset / 2 + 1, i.uStride, 2),
                       Factor(Low16(i.uWidth), rect.width), Factor(Low16(i.uHeight), rect.height),
                       rect.height / 2, rect.width / 2)
    ensures NothingElse(o.imgPtr[..], old(o.imgPtr[..]), rect.x + rect.y * o.uWidth, o.uStride, rect.height, rect.width)
    ensures NothingElse(o.clrPtr[..], old(o.clrPtr[..]), rect.x + rect.y * o.uWidth, o.uStride - rect.width % 2,
                        rect.height / 2, 2 * (rect.width / 2))
  {
    var fx, fy := Factor(Low16(i.uWidth), rect.width), Factor(Low16(i.uHeight), rect.height);
    ChromaAreaIsHalf(o, rect);
    ResizeLuma(i.imgPtr, i.uOffset, i.uStride, fx, fy, o.imgPtr, LumaArea(o, rect));
    ResizeChroma(i.clrPtr, i.uOffset / 2, i.uStride, fx, fy, o.clrPtr, ChromaArea(o, rect));
  }

  /**
   Refuses missing planes, empty inputs and other formats without writing; otherwise paints both planes. The
   target's dimensions divide, and fit the 16-bit loop counters. Without a rectangle all of the output is painted,
   and a given one from its corner on.
   */
  method ResizeFrame(i: ConvImage, o: ConvImage, cropout: Option<Rect>) returns (ok: bool)
    requires 0 <= o.uWidth && 0 <= o.uHeight
    requires ValidInput(i, o) ==> 0 < Target(o, cropout).width < 0x1_0000 && 0 < Target(o, cropout).height < 0x1_0000
    requires ValidInput(i, o) && Supported(i, o) ==> Backed(i, o, Target(o, cropout))
    modifies o.imgPtr, o.clrPtr
    ensures ok <==> && i.imgPtr != null && o.imgPtr != null && i.eFormat == YCbCr420Lp == o.eFormat
                    && 1 <= i.uWidth % 0x1_0000 && 1 <= i.uHeight % 0x1_0000 && 1 <= i.uStride
    ensures ok && cropout.None? ==>
              ShowsPixels(o.imgPtr[..], 0, o.uStride, Plane(old(i.imgPtr[..]), i.uOffset, i.uStride, 1),
                          Factor(i.uWidth % 0x1_0000, o.uWidth), Factor(i.uHeight % 0x1_0000, o.uHeight),
                          o.uHeight, o.uWidth)
    ensures ok && cropout.None? ==>
              ShowsPairs(o.clrPtr[..], 0, o.uStride - o.uWidth % 2,
                         Plane(old(i.clrPtr[..]), i.uOffset / 2, i.uStride, 2),
                         Plane(old(i.clrPtr[..]), i.uOffset / 2 + 1, i.uStride, 2),
                         Factor(i.uWidth % 0x1_0000, o.uWidth), Factor(i.uHeight % 0x1_0000, o.uHeight),
                         o.uHeight / 2, o.uWidth / 2)
    ensures ok && cropout.None? ==>
              && NothingElse(o.imgPtr[..], old(o.imgPtr[..]), 0, o.uStride, o.uHeight, o.uWidth)
              && NothingElse(o.clrPtr[..], old(o.clrPtr[..]), 0, o.uStride - o.uWidth % 2, o.uHeight / 2, 2 * (o.uWidth / 2))
    ensures ok && cropout.Some? ==> var r := cropout.value;
              ShowsPixels(o.imgPtr[..], r.x + r.y * o.uWidth, o.uStride, Plane(old(i.imgPtr[..]), i.uOffset, i.uStride, 1),
                          Factor(i.uWidth % 0x1_0000, r.width), Factor(i.uHeight % 0x1_0000, r.height), r.height, r.width)
    ensures ok && cropout.Some? ==> var r := cropout.value;
              ShowsPairs(o.clrPtr[..], r.x + r.y * o.uWidth, o.uStride - r.width % 2,
                         Plane(old(i.clrPtr[..]), i.uOffset / 2, i.uStride, 2),
                         Plane(old(i.clrPtr[..]), i.uOffset / 2 + 1, i.uStride, 2),
                         Factor(i.uWidth % 0x1_0000, r.width), Factor(i.uHeight % 0x1_0000, r.height),
                         r.height / 2, r.width / 2)
    ensures ok && cropout.Some? ==> var r := cropout.value;
              && NothingElse(o.imgPtr[..], old(o.imgPtr[..]), r.x + r.y * o.uWidth, o.uStride, r.height, r.width)
              && NothingElse(o.clrPtr[..], old(o.clrPtr[..]), r.x + r.y * o.uWidth, o.uStride - r.width % 2,
                             r.height / 2, 2 * (r.width / 2))
    ensures !ok ==> o.clrPtr[..] == old(o.clrPtr[..]) && (o.imgPtr != null ==> o.imgPtr[..] == old(o.imgPtr[..]))
  {
    if i.imgPtr == null || o.imgPtr == null {
      return false;
    }
    var idx, idy := Low16(i.uWidth), Low16(i.uHeight);
    if idx < 1 || idy < 1 || i.uStride < 1 {
      return false;
    }
    if i.eFormat != YCbCr420Lp || o.eFormat != YCbCr420Lp {
      return false;
    }
    ResizePlanes(i, o, Target(o, cropout));
    ok := true;
  }

  /** Colour rows keep the distance of the output's rows exactly if the target is an even number of pixels wide. */
  lemma ChromaRowsStayAligned(o: ConvImage, rect: Rect, row: nat)
    requires 0 <= o.uWidth && rect.width <= o.uStride && 0 < row
    ensures ChromaArea(o, rect).Address(row, 0) == rect.x + rect.y * o.uWidth + row * o.uStride <==> rect.width % 2 == 0
  {
    if rect.width % 2 == 1 {
      assert row * (o.uStride - 1) == row * o.uStride - row;
    }
  }

  /**
   An input of at least 2 by 2 pixels whose planes are just as large as its size says backs every read, for
   every output size on the luma plane and every size that fits on the chroma plane.
   */
  lemma ExactPlanesHoldAllReads(i: ConvImage, rect: Rect, luma: seq<Byte>, chroma: seq<Byte>)
    requires ValidInput(i, i) && 2 <= Low16(i.uWidth) && 2 <= Low16(i.uHeight)
    requires 0 < rect.width && 0 < rect.height
    requires 2 <= rect.width && 2 <= rect.height ==>
               ChromaFits(Low16(i.uWidth), rect.width) && ChromaFits(Low16(i.uHeight), rect.height)
    requires |luma| == i.uOffset + (Low16(i.uHeight) - 1) * i.uStride + Low16(i.uWidth)
    requires |chroma| == i.uOffset / 2 + (Low16(i.uHeight) / 2 - 1) * i.uStride + Low16(i.uWidth) / 2 * 2
    ensures LumaHolds(i, rect, LumaPlane(i, luma))
    ensures ChromaHolds(i, rect, ChromaPlane(i, chroma, 0)) && ChromaHolds(i, rect, ChromaPlane(i, chroma, 1))
  {
    var idx, idy, w, h := Low16(i.uWidth), Low16(i.uHeight), rect.width, rect.height;
    var fx, fy := Factor(idx, w), Factor(idy, h);
    LumaStaysInside(idx, w);
    LumaStaysInside(idy, h);
    ProductsFit(idx, w);
    ProductsFit(idy, h);
    PlaneHolds(LumaPlane(i, luma), fx, fy, h, w, idx, idy);
    if 2 <= w && 2 <= h {
      ChromaStaysInside(idx, w);
      ChromaStaysInside(idy, h);
      CoarseIsMonotone(w / 2 - 1, w - 1, fx);
      CoarseIsMonotone(h / 2 - 1, h - 1, fy);
      PlaneHolds(ChromaPlane(i, chroma, 0), fx, fy, h / 2, w / 2, idx / 2, idy / 2);
      PlaneHolds(ChromaPlane(i, chroma, 1), fx, fy, h / 2, w / 2, idx / 2, idy / 2);
    }
  }

  lemma ProductsFit(input: nat, output: nat)
    requires 0 < input <= 0x1_0000 && 0 < output
    ensures (output - 1) * Factor(input, output) < 0x200_0000
  {
    FactorBounds(input, output);
    MultiplyKeepsOrder(output - 1, output, Factor(input, output));
  }

  lemma PlaneHolds(p: Plane, fx: nat, fy: nat, rows: nat, cols: nat, width: nat, height: nat)
    requires 0 < rows && 0 < cols && 0 < width && 0 < height
    requires StaysInside(fx, cols, width) && StaysInside(fy, rows, height)
    requires (rows - 1) * fy < 0x200_0000 && (cols - 1) * fx < 0x200_0000
    requires p.Index(width - 1, height - 1) < |p.bytes|
    ensures p.Holds(fx, fy, rows, cols)
  {
    var x, y := Coarse(cols - 1, fx) + 1, Coarse(rows - 1, fy) + 1;
    MultiplyKeepsOrder(y, height - 1, p.stride);
    MultiplyKeepsOrder(x, width - 1, p.step);
  }
}

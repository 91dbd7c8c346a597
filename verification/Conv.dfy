/**
 The integer convolution oracle: a quantized SAME convolution over row-major buffers that
 skips the taps falling outside the image.
 */
module Conv {
  /** Height, width and channels of the input; the batch dimension is not looked at. */
  datatype Layer = Layer(
    input: seq<int>, inputH: nat, inputW: nat, inputC: nat,
    weights: seq<int>, kernelH: nat, kernelW: nat,
    bias: seq<int>, outputH: nat, outputW: nat, outputC: nat,
    strideH: int, strideW: int,
    inputZero: int, weightZero: int, outputZero: int, fusedRelu: bool)
  {
    /** The buffers hold what their shapes say. */
    predicate Consistent() {
      && |input| >= inputH * inputW * inputC
      && |weights| >= outputC * kernelH * kernelW * inputC
      && |bias| >= outputC
    }

    function PadH(): nat {
      Max((outputH - 1) * strideH + kernelH - inputH, 0)
    }

    function PadW(): nat {
      Max((outputW - 1) * strideW + kernelW - inputW, 0)
    }

    function PadTop(): nat {
      PadH() / 2
    }

    function PadLeft(): nat {
      PadW() / 2
    }
  }

  function Max(a: int, b: int): (m: int)
  {
    if a > b then a else b
  }

  // -- the reference: a plain convolution over the padded image ------------

  /** The image with `PadTop` rows and `PadLeft` columns of the input zero point before it, and more after it. */
  function Padded(l: Layer, y: int, x: int, c: nat): int
    requires l.Consistent() && c < l.inputC
  {
    var iy, ix := y - l.PadTop(), x - l.PadLeft();
    if 0 <= iy < l.inputH && 0 <= ix < l.inputW then
      l.input[InputIndex(l, iy, ix, c)]
    else
      l.inputZero
  }

  function Weight(l: Layer, oc: nat, ky: nat, kx: nat, c: nat): int
    requires l.Consistent() && oc < l.outputC && ky < l.kernelH && kx < l.kernelW && c < l.inputC
  {
    l.weights[WeightIndex(l, oc, ky, kx, c)]
  }

  /** Channels below n of one tap. */
  function TapSum(l: Layer, y: int, x: int, oc: nat, ky: nat, kx: nat, n: nat): int
    requires l.Consistent() && oc < l.outputC && ky < l.kernelH && kx < l.kernelW && n <= l.inputC
  {
    if n == 0 then 0
    else TapSum(l, y, x, oc, ky, kx, n - 1)
         + (Padded(l, y + ky, x + kx, n - 1) - l.inputZero) * (Weight(l, oc, ky, kx, n - 1) - l.weightZero)
  }

  /** Columns below n of one kernel row. */
  function RowSum(l: Layer, y: int, x: int, oc: nat, ky: nat, n: nat): int
    requires l.Consistent() && oc < l.outputC && ky < l.kernelH && n <= l.kernelW
  {
    if n == 0 then 0 else RowSum(l, y, x, oc, ky, n - 1) + TapSum(l, y, x, oc, ky, n - 1, l.inputC)
  }

  /** Kernel rows below n, the window's corner at (y, x) of the padded image. */
  function WindowSum(l: Layer, y: int, x: int, oc: nat, n: nat): int
    requires l.Consistent() && oc < l.outputC && n <= l.kernelH
  {
    if n == 0 then 0 else WindowSum(l, y, x, oc, n - 1) + RowSum(l, y, x, oc, n - 1, l.kernelW)
  }

  /** One output element: every tap of the window, bias, scaling, activation. */
  function Element(l: Layer, requantize: int -> int, oy: nat, ox: nat, oc: nat): int
    requires l.Consistent() && oc < l.outputC
  {
    var value := requantize(l.bias[oc] + WindowSum(l, oy * l.strideH, ox * l.strideW, oc, l.kernelH));
    if l.fusedRelu then Max(value, l.outputZero) else value
  }

  /** The padding is enough: with nonnegative strides no window leaves the padded image. */
  lemma WindowsFit(l: Layer, oy: nat, ky: nat)
    requires l.strideH >= 0 && oy < l.outputH && ky < l.kernelH
    ensures 0 <= oy * l.strideH + ky < l.inputH + l.PadH()
  {
    assert oy * l.strideH <= (l.outputH - 1) * l.strideH;
  }

  // -- indices -----------------------------------------------------------

  lemma Digit(hi: nat, lo: nat, m: nat, n: nat)
    requires hi < n && lo < m
    ensures hi * m + lo < n * m
  {
    assert (hi + 1) * m <= n * m;
  }

  function InputIndex(l: Layer, iy: nat, ix: nat, c: nat): (k: nat)
    requires l.Consistent() && iy < l.inputH && ix < l.inputW && c < l.inputC
    ensures k < |l.input|
  {
    Digit(iy, ix, l.inputW, l.inputH);
    Digit(iy * l.inputW + ix, c, l.inputC, l.inputH * l.inputW);
    (iy * l.inputW + ix) * l.inputC + c
  }

  function WeightIndex(l: Layer, oc: nat, ky: nat, kx: nat, c: nat): (k: nat)
    requires l.Consistent() && oc < l.outputC && ky < l.kernelH && kx < l.kernelW && c < l.inputC
    ensures k < |l.weights|
  {
    Digit(oc, ky, l.kernelH, l.outputC);
    Digit(oc * l.kernelH + ky, kx, l.kernelW, l.outputC * l.kernelH);
    Digit((oc * l.kernelH + ky) * l.kernelW + kx, c, l.inputC, l.outputC * l.kernelH * l.kernelW);
    ((oc * l.kernelH + ky) * l.kernelW + kx) * l.inputC + c
  }

  /** Also good for the position just past a row or a pixel. */
  function OutputIndex(l: Layer, oy: nat, ox: nat, oc: nat): nat {
    (oy * l.outputW + ox) * l.outputC + oc
  }

  predicate InOutput(l: Layer, oy: nat, ox: nat, oc: nat) {
    oy < l.outputH && ox < l.outputW && oc < l.outputC
  }

  lemma OutputInBounds(l: Layer, oy: nat, ox: nat, oc: nat)
    requires InOutput(l, oy, ox, oc)
    ensures OutputIndex(l, oy, ox, oc) < l.outputH * l.outputW * l.outputC
  {
    Digit(oy, ox, l.outputW, l.outputH);
    Digit(oy * l.outputW + ox, oc, l.outputC, l.outputH * l.outputW);
  }

  lemma DigitsUnique(a: nat, b: nat, c: nat, d: nat, m: nat)
    requires b < m && d < m && a * m + b == c * m + d
    ensures a == c && b == d
  {
    if a < c { Digit(a, b, m, c); }
    if c < a { Digit(c, d, m, a); }
  }

  lemma SamePixel(y: nat, x: nat, c: nat, y': nat, x': nat, c': nat, w: nat, d: nat, p: nat, p': nat)
    requires x < w && x' < w && c < d && c' < d && p == y * w + x && p' == y' * w + x'
    requires p * d + c == p' * d + c'
    ensures y == y' && x == x' && c == c'
  {
    assert p == p' && c == c' by { DigitsUnique(p, c, p', c', d); }
    DigitsUnique(y, x, y', x', w);
  }

  /** No two output elements share a slot. */
  lemma OutputInjective(l: Layer, y: nat, x: nat, c: nat, y': nat, x': nat, c': nat)
    requires InOutput(l, y, x, c) && InOutput(l, y', x', c')
    requires OutputIndex(l, y, x, c) == OutputIndex(l, y', x', c')
    ensures y == y' && x == x' && c == c'
  {
    SamePixel(y, x, c, y', x', c', l.outputW, l.outputC, y * l.outputW + x, y' * l.outputW + x');
  }

  lemma NextPixel(l: Layer, oy: nat, ox: nat)
    ensures OutputIndex(l, oy, ox, l.outputC) == OutputIndex(l, oy, ox + 1, 0)
    ensures OutputIndex(l, oy, l.outputW, 0) == OutputIndex(l, oy + 1, 0, 0)
  {
  }

  // -- skipping is padding --------------------------------------------------

  /** A tap outside the image adds nothing: the padding value is the zero point. */
  lemma {:induction false} OutsideTapIsZero(l: Layer, y: int, x: int, oc: nat, ky: nat, kx: nat, n: nat)
    requires l.Consistent() && oc < l.outputC && ky < l.kernelH && kx < l.kernelW && n <= l.inputC
    requires !(0 <= y + ky - l.PadTop() < l.inputH && 0 <= x + kx - l.PadLeft() < l.inputW)
    ensures TapSum(l, y, x, oc, ky, kx, n) == 0
  {
    if n > 0 {
      OutsideTapIsZero(l, y, x, oc, ky, kx, n - 1);
    }
  }

  lemma {:induction false} OutsideRowIsZero(l: Layer, y: int, x: int, oc: nat, ky: nat, n: nat)
    requires l.Consistent() && oc < l.outputC && ky < l.kernelH && n <= l.kernelW
    requires !(0 <= y + ky - l.PadTop() < l.inputH)
    ensures RowSum(l, y, x, oc, ky, n) == 0
  {
    if n > 0 {
      OutsideRowIsZero(l, y, x, oc, ky, n - 1);
      OutsideTapIsZero(l, y, x, oc, ky, n - 1, l.inputC);
    }
  }

  // -- the same sum, tap by tap ------------------------------------------------

  /** What is padded goes half before the image and half after it, an odd row or column after it. */
  lemma PaddingIsSplit(l: Layer)
    ensures l.PadH() >= 0 && l.PadH() >= (l.outputH - 1) * l.strideH + l.kernelH - l.inputH
    ensures l.PadH() == 0 || l.PadH() == (l.outputH - 1) * l.strideH + l.kernelH - l.inputH
    ensures 2 * l.PadTop() <= l.PadH() <= 2 * l.PadTop() + 1
    ensures l.PadW() >= 0 && l.PadW() >= (l.outputW - 1) * l.strideW + l.kernelW - l.inputW
    ensures l.PadW() == 0 || l.PadW() == (l.outputW - 1) * l.strideW + l.kernelW - l.inputW
    ensures 2 * l.PadLeft() <= l.PadW() <= 2 * l.PadLeft() + 1
  {
  }

  /** The buffers are row-major: the last coordinate moves by one, each other by all that lies inside it. */
  lemma IndicesAreRowMajor(l: Layer)
    requires l.Consistent()
    ensures forall y: nat, x: nat, c: nat | y < l.inputH && x < l.inputW && c < l.inputC ::
              InputIndex(l, y, x, c) == y * (l.inputW * l.inputC) + x * l.inputC + c
    ensures forall o: nat, y: nat, x: nat, c: nat | o < l.outputC && y < l.kernelH && x < l.kernelW && c < l.inputC ::
              WeightIndex(l, o, y, x, c)
              == o * (l.kernelH * l.kernelW * l.inputC) + y * (l.kernelW * l.inputC) + x * l.inputC + c
    ensures forall y: nat, x: nat, c: nat | InOutput(l, y, x, c) ::
              OutputIndex(l, y, x, c) == y * (l.outputW * l.outputC) + x * l.outputC + c
  {
    forall o: nat, y: nat, x: nat, c: nat | o < l.outputC && y < l.kernelH && x < l.kernelW && c < l.inputC
      ensures WeightIndex(l, o, y, x, c)
           == o * (l.kernelH * l.kernelW * l.inputC) + y * (l.kernelW * l.inputC) + x * l.inputC + c
    {
      FourDigits(o, y, x, c, l.kernelH, l.kernelW, l.inputC);
    }
  }

  lemma FourDigits(o: nat, y: nat, x: nat, c: nat, h: nat, w: nat, d: nat)
    ensures ((o * h + y) * w + x) * d + c == o * (h * w * d) + y * (w * d) + x * d + c
  {
    assert (o * h + y) * w == o * h * w + y * w;
    assert (o * h * w + y * w + x) * d == o * h * w * d + y * w * d + x * d;
  }

  /** How many taps a window has. */
  function Taps(l: Layer): nat {
    l.kernelH * l.kernelW * l.inputC
  }

  lemma Quotient(q: nat, r: nat, d: nat)
    requires r < d
    ensures (q * d + r) / d == q && (q * d + r) % d == r
  {
    DigitsUnique((q * d + r) / d, (q * d + r) % d, q, r, d);
  }

  lemma Positive(a: nat, b: nat)
    requires a * b > 0
    ensures a > 0 && b > 0
  {
  }

  lemma Euclid(m: nat, d: nat)
    requires d > 0
    ensures m == m / d * d + m % d && 0 <= m / d && 0 <= m % d < d
  {
  }

  /** The coordinates of tap m, by its digits. */
  lemma TapDigits(m: nat, h: nat, w: nat, d: nat)
    requires m < h * w * d
    ensures d > 0 && w > 0 && 0 <= m / d / w < h && 0 <= m / d % w < w && 0 <= m % d < d
  {
    Positive(h * w, d);
    Positive(h, w);
    Euclid(m, d);
    Euclid(m / d, w);
    if m / d / w >= h {
      TapLimit(m / d, m % d, m / d / w, m / d % w, h, w, d);
    }
  }

  lemma TapLimit(q: nat, c: nat, ky: nat, kx: nat, h: nat, w: nat, d: nat)
    requires q == ky * w + kx && ky >= h
    ensures q * d + c >= h * w * d
  {
    assert ky * w >= h * w;
    assert q * d >= (h * w) * d;
  }

  /** Tap (ky, kx, n) or the end of a pixel's taps. */
  lemma TapBound(ky: nat, kx: nat, n: nat, h: nat, w: nat, d: nat)
    requires ky < h && kx < w && n <= d
    ensures (ky * w + kx) * d + n <= h * w * d
  {
    Digit(ky, kx, w, h);
    assert (ky * w + kx + 1) * d <= (h * w) * d;
  }

  lemma RowBound(ky: nat, h: nat, w: nat, d: nat)
    requires ky < h
    ensures ky * w * d <= h * w * d
  {
    assert ky * w <= h * w;
  }

  lemma RowStep(ky: nat, n: nat, w: nat, d: nat)
    ensures (ky * w + n) * d == ky * w * d + n * d
  {
  }

  /**
   Tap m of an element's window, the taps counted row by row, column by column, channel by channel: the
   product of input and weight, zero points taken off, or nothing outside the image.
   */
  function TapAt(l: Layer, oy: nat, ox: nat, oc: nat, m: nat): int
    requires l.Consistent() && oc < l.outputC && m < Taps(l)
  {
    TapDigits(m, l.kernelH, l.kernelW, l.inputC);
    Tap(l, oy * l.strideH, ox * l.strideW, oc, m / l.inputC / l.kernelW, m / l.inputC % l.kernelW, m % l.inputC)
  }

  /** Tap (ky, kx, c) of the window whose corner is at (y, x), before the padding is taken off. */
  function Tap(l: Layer, y: int, x: int, oc: nat, ky: nat, kx: nat, c: nat): int
    requires l.Consistent() && oc < l.outputC && ky < l.kernelH && kx < l.kernelW && c < l.inputC
  {
    var moreH, moreW := (l.outputH - 1) * l.strideH + l.kernelH - l.inputH,
                        (l.outputW - 1) * l.strideW + l.kernelW - l.inputW;
    var iy := y + ky - if moreH > 0 then moreH / 2 else 0;
    var ix := x + kx - if moreW > 0 then moreW / 2 else 0;
    if 0 <= iy < l.inputH && 0 <= ix < l.inputW then
      (l.input[InputIndex(l, iy, ix, c)] - l.inputZero) * (l.weights[WeightIndex(l, oc, ky, kx, c)] - l.weightZero)
    else 0
  }

  /** The first m taps. */
  function SumOfTaps(l: Layer, oy: nat, ox: nat, oc: nat, m: nat): int
    requires l.Consistent() && oc < l.outputC && m <= Taps(l)
  {
    if m == 0 then 0 else SumOfTaps(l, oy, ox, oc, m - 1) + TapAt(l, oy, ox, oc, m - 1)
  }

  /** The tap at (ky, kx, c). */
  lemma TapIsThere(l: Layer, oy: nat, ox: nat, oc: nat, ky: nat, kx: nat, c: nat, m: nat)
    requires l.Consistent() && oc < l.outputC && ky < l.kernelH && kx < l.kernelW && c < l.inputC
    requires m == (ky * l.kernelW + kx) * l.inputC + c && m < Taps(l)
    ensures TapAt(l, oy, ox, oc, m) == Tap(l, oy * l.strideH, ox * l.strideW, oc, ky, kx, c)
  {
    Quotient(ky * l.kernelW + kx, c, l.inputC);
    Quotient(ky, kx, l.kernelW);
  }

  lemma PadIs(l: Layer)
    ensures var moreH, moreW := (l.outputH - 1) * l.strideH + l.kernelH - l.inputH,
                                (l.outputW - 1) * l.strideW + l.kernelW - l.inputW;
            && l.PadTop() == (if moreH > 0 then moreH / 2 else 0)
            && l.PadLeft() == if moreW > 0 then moreW / 2 else 0
  {
  }

  lemma TapIsPadded(l: Layer, y: int, x: int, oc: nat, ky: nat, kx: nat, c: nat)
    requires l.Consistent() && oc < l.outputC && ky < l.kernelH && kx < l.kernelW && c < l.inputC
    ensures Tap(l, y, x, oc, ky, kx, c)
         == (Padded(l, y + ky, x + kx, c) - l.inputZero) * (Weight(l, oc, ky, kx, c) - l.weightZero)
  {
    PadIs(l);
    if !(0 <= y + ky - l.PadTop() < l.inputH && 0 <= x + kx - l.PadLeft() < l.inputW) {
      assert Padded(l, y + ky, x + kx, c) - l.inputZero == 0;
      assert Tap(l, y, x, oc, ky, kx, c) == 0;
    }
  }

  lemma {:induction false} TapsOfPixel(l: Layer, oy: nat, ox: nat, oc: nat, ky: nat, kx: nat, n: nat, m: nat)
    requires l.Consistent() && oc < l.outputC && ky < l.kernelH && kx < l.kernelW && n <= l.inputC
    requires m == (ky * l.kernelW + kx) * l.inputC && m + l.inputC <= Taps(l)
    ensures SumOfTaps(l, oy, ox, oc, m + n)
         == SumOfTaps(l, oy, ox, oc, m) + TapSum(l, oy * l.strideH, ox * l.strideW, oc, ky, kx, n)
  {
    if n > 0 {
      TapsOfPixel(l, oy, ox, oc, ky, kx, n - 1, m);
      TapIsThere(l, oy, ox, oc, ky, kx, n - 1, m + n - 1);
      TapIsPadded(l, oy * l.strideH, ox * l.strideW, oc, ky, kx, n - 1);
    }
  }

  /** Where the taps of pixel n - 1 of a row begin and end. */
  lemma PixelInRow(ky: nat, n: nat, h: nat, w: nat, d: nat, m: nat, p: nat)
    requires ky < h && 0 < n <= w && m == ky * w * d && p == m + n * d
    ensures p - d == (ky * w + (n - 1)) * d && p - d == m + (n - 1) * d && p <= h * w * d
  {
    RowStep(ky, n - 1, w, d);
    RowStep(n - 1, 1, 1, d);
    TapBound(ky, n - 1, d, h, w, d);
  }

  lemma {:induction false} TapsOfRow(l: Layer, oy: nat, ox: nat, oc: nat, ky: nat, n: nat, m: nat, p: nat)
    requires l.Consistent() && oc < l.outputC && ky < l.kernelH && n <= l.kernelW
    requires m == ky * l.kernelW * l.inputC && p == m + n * l.inputC
    ensures p <= Taps(l)
    ensures SumOfTaps(l, oy, ox, oc, p)
         == SumOfTaps(l, oy, ox, oc, m) + RowSum(l, oy * l.strideH, ox * l.strideW, oc, ky, n)
  {
    if n == 0 {
      RowBound(ky, l.kernelH, l.kernelW, l.inputC);
    } else {
      PixelInRow(ky, n, l.kernelH, l.kernelW, l.inputC, m, p);
      TapsOfRow(l, oy, ox, oc, ky, n - 1, m, p - l.inputC);
      TapsOfPixel(l, oy, ox, oc, ky, n - 1, l.inputC, p - l.inputC);
    }
  }

  lemma {:induction false} TapsOfWindow(l: Layer, oy: nat, ox: nat, oc: nat, n: nat, p: nat)
    requires l.Consistent() && oc < l.outputC && n <= l.kernelH && p == n * l.kernelW * l.inputC
    ensures p <= Taps(l)
    ensures SumOfTaps(l, oy, ox, oc, p) == WindowSum(l, oy * l.strideH, ox * l.strideW, oc, n)
  {
    if n > 0 {
      var q := (n - 1) * l.kernelW * l.inputC;
      RowStep(n - 1, l.kernelW, l.kernelW, l.inputC);
      RowStep(n - 1, 1, 1, l.kernelW);
      TapsOfWindow(l, oy, ox, oc, n - 1, q);
      TapsOfRow(l, oy, ox, oc, n - 1, l.kernelW, q, p);
    }
  }

  /** An element in terms of its taps: bias and all taps, scaled, and not below the zero point after a ReLU. */
  lemma ElementIsSumOfTaps(l: Layer, requantize: int -> int, oy: nat, ox: nat, oc: nat)
    requires l.Consistent() && oc < l.outputC
    ensures var value := requantize(l.bias[oc] + SumOfTaps(l, oy, ox, oc, Taps(l)));
            Element(l, requantize, oy, ox, oc) == if l.fusedRelu && value < l.outputZero then l.outputZero else value
  {
    TapsOfWindow(l, oy, ox, oc, l.kernelH, Taps(l));
  }

  // -- the loops -------------------------------------------------------------

  /** The innermost loop, over the channels of a tap inside the image. */
  method AddTap(l: Layer, y: int, x: int, oc: nat, ky: nat, kx: nat, before: int) returns (accumulator: int)
    requires l.Consistent() && oc < l.outputC && ky < l.kernelH && kx < l.kernelW
    requires 0 <= y + ky - l.PadTop() < l.inputH && 0 <= x + kx - l.PadLeft() < l.inputW
    ensures accumulator == before + TapSum(l, y, x, oc, ky, kx, l.inputC)
  {
    var iy, ix := y + ky - l.PadTop(), x + kx - l.PadLeft();
    accumulator := before;
    for ic := 0 to l.inputC
      invariant accumulator == before + TapSum(l, y, x, oc, ky, kx, ic)
    {
      accumulator := accumulator
        + (l.input[InputIndex(l, iy, ix, ic)] - l.inputZero)
          * (l.weights[WeightIndex(l, oc, ky, kx, ic)] - l.weightZero);
    }
  }

  /** The loop over one kernel row, skipping the columns outside the image. */
  method AddRow(l: Layer, y: int, x: int, oc: nat, ky: nat, before: int) returns (accumulator: int)
    requires l.Consistent() && oc < l.outputC && ky < l.kernelH
    requires 0 <= y + ky - l.PadTop() < l.inputH
    ensures accumulator == before + RowSum(l, y, x, oc, ky, l.kernelW)
  {
    accumulator := before;
    for kx := 0 to l.kernelW
      invariant accumulator == before + RowSum(l, y, x, oc, ky, kx)
    {
      if 0 <= x + kx - l.PadLeft() < l.inputW {
        accumulator := AddTap(l, y, x, oc, ky, kx, accumulator);
      } else {
        OutsideTapIsZero(l, y, x, oc, ky, kx, l.inputC);
      }
    }
  }

  /** The loop over the kernel rows, skipping those outside the image. */
  method Accumulate(l: Layer, y: int, x: int, oc: nat) returns (accumulator: int)
    requires l.Consistent() && oc < l.outputC
    ensures accumulator == l.bias[oc] + WindowSum(l, y, x, oc, l.kernelH)
  {
    accumulator := l.bias[oc];
    for ky := 0 to l.kernelH
      invariant accumulator == l.bias[oc] + WindowSum(l, y, x, oc, ky)
    {
      if 0 <= y + ky - l.PadTop() < l.inputH {
        accumulator := AddRow(l, y, x, oc, ky, accumulator);
      } else {
        OutsideRowIsZero(l, y, x, oc, ky, l.kernelW);
      }
    }
  }

  /**
   Slot (y, x, c) of the output holds its bias and all taps of its window, scaled, and after a ReLU at least the zero
   point.
   */
  ghost predicate Means(l: Layer, requantize: int -> int, output: seq<int>, y: nat, x: nat, c: nat)
    requires l.Consistent() && InOutput(l, y, x, c) && |output| == l.outputH * l.outputW * l.outputC
  {
    OutputInBounds(l, y, x, c);
    var value := requantize(l.bias[c] + SumOfTaps(l, y, x, c, l.kernelH * l.kernelW * l.inputC));
    output[(y * l.outputW + x) * l.outputC + c] == if l.fusedRelu && value < l.outputZero then l.outputZero else value
  }

  lemma HoldsIsMeans(l: Layer, requantize: int -> int, output: seq<int>, y: nat, x: nat, c: nat)
    requires l.Consistent() && InOutput(l, y, x, c) && |output| == l.outputH * l.outputW * l.outputC
    requires HoldsAt(l, requantize, output, y, x, c)
    ensures Means(l, requantize, output, y, x, c)
  {
    ElementIsSumOfTaps(l, requantize, y, x, c);
  }

  /** Slots below n hold their elements. */
  ghost predicate FilledTo(l: Layer, requantize: int -> int, output: seq<int>, n: nat)
    requires l.Consistent()
  {
    && |output| == l.outputH * l.outputW * l.outputC
    && forall y: nat, x: nat, c: nat | InOutput(l, y, x, c) && OutputIndex(l, y, x, c) < n ::
         HoldsAt(l, requantize, output, y, x, c)
  }

  ghost predicate HoldsAt(l: Layer, requantize: int -> int, output: seq<int>, y: nat, x: nat, c: nat)
    requires l.Consistent() && InOutput(l, y, x, c) && |output| == l.outputH * l.outputW * l.outputC
  {
    OutputInBounds(l, y, x, c);
    output[OutputIndex(l, y, x, c)] == Element(l, requantize, y, x, c)
  }

  lemma FillOne(l: Layer, requantize: int -> int, output: seq<int>, oy: nat, ox: nat, oc: nat, value: int)
    requires l.Consistent() && InOutput(l, oy, ox, oc) && value == Element(l, requantize, oy, ox, oc)
    requires FilledTo(l, requantize, output, OutputIndex(l, oy, ox, oc)) && OutputIndex(l, oy, ox, oc) < |output|
    ensures FilledTo(l, requantize, output[OutputIndex(l, oy, ox, oc) := value], OutputIndex(l, oy, ox, oc + 1))
  {
    var here := OutputIndex(l, oy, ox, oc);
    forall y: nat, x: nat, c: nat | InOutput(l, y, x, c) && OutputIndex(l, y, x, c) < here + 1
      ensures HoldsAt(l, requantize, output[here := value], y, x, c)
    {
      if OutputIndex(l, y, x, c) == here {
        OutputInjective(l, y, x, c, oy, ox, oc);
      } else {
        assert HoldsAt(l, requantize, output, y, x, c);
      }
    }
  }

  /** The loop over the channels of one output pixel. */
  method ConvolvePixel(l: Layer, requantize: int -> int, output: array<int>, oy: nat, ox: nat)
    requires l.Consistent() && oy < l.outputH && ox < l.outputW
    requires FilledTo(l, requantize, output[..], OutputIndex(l, oy, ox, 0))
    modifies output
    ensures FilledTo(l, requantize, output[..], OutputIndex(l, oy, ox + 1, 0))
  {
    for oc := 0 to l.outputC
      invariant FilledTo(l, requantize, output[..], OutputIndex(l, oy, ox, oc))
    {
      var accumulator := Accumulate(l, oy * l.strideH, ox * l.strideW, oc);
      var value := requantize(accumulator);
      if l.fusedRelu { value := Max(value, l.outputZero); }
      OutputInBounds(l, oy, ox, oc);
      FillOne(l, requantize, output[..], oy, ox, oc, value);
      ghost var next := output[..][OutputIndex(l, oy, ox, oc) := value];
      output[OutputIndex(l, oy, ox, oc)] := value;
      assert output[..] == next;
    }
    NextPixel(l, oy, ox);
  }

  /** `conv2d_int8_same` on shapes that fit: every output element is the full sum over the padded image. */
  method Convolve(l: Layer, requantize: int -> int) returns (output: array<int>)
    requires l.Consistent()
    ensures output.Length == l.outputH * l.outputW * l.outputC
    ensures forall y: nat, x: nat, c: nat | InOutput(l, y, x, c) :: HoldsAt(l, requantize, output[..], y, x, c)
  {
    output := new int[l.outputH * l.outputW * l.outputC](_ => 0);
    for oy := 0 to l.outputH
      invariant FilledTo(l, requantize, output[..], OutputIndex(l, oy, 0, 0))
    {
      for ox := 0 to l.outputW
        invariant FilledTo(l, requantize, output[..], OutputIndex(l, oy, ox, 0))
      {
        ConvolvePixel(l, requantize, output, oy, ox);
      }
      NextPixel(l, oy, l.outputW);
    }
    forall y: nat, x: nat, c: nat | InOutput(l, y, x, c)
      ensures HoldsAt(l, requantize, output[..], y, x, c)
    {
      OutputInBounds(l, y, x, c);
    }
  }

  /** What the caller passes: flat buffers with their shape lists. */
  datatype Tensors = Tensors(
    input: seq<int>, inputShape: seq<nat>, weights: seq<int>, weightShape: seq<nat>, bias: seq<int>,
    outputShape: seq<nat>,
    strideH: int, strideW: int, inputZero: int, weightZero: int, outputZero: int, fusedRelu: bool)
  {
    predicate FourDimensional() {
      |inputShape| == 4 && |weightShape| == 4 && |outputShape| == 4
    }

    predicate ChannelsMatch()
      requires FourDimensional()
    {
      inputShape[3] == weightShape[3] && outputShape[3] == weightShape[0]
    }

    /** NHWC input and output, OHWI weights. */
    function AsLayer(): Layer
      requires FourDimensional()
    {
      Layer(input, inputShape[1], inputShape[2], inputShape[3], weights, weightShape[1], weightShape[2],
            bias, outputShape[1], outputShape[2], outputShape[3],
            strideH, strideW, inputZero, weightZero, outputZero, fusedRelu)
    }
  }

  datatype Outcome = Computed(values: seq<int>) | NotFourDimensional | ChannelMismatch

  /** `conv2d_int8_same` with its shape checks. */
  method Conv2dInt8Same(t: Tensors, requantize: int -> int) returns (r: Outcome)
    requires t.FourDimensional() && t.ChannelsMatch() ==> t.AsLayer().Consistent()
    ensures r.NotFourDimensional? <==> !t.FourDimensional()
    ensures r.ChannelMismatch? <==>
              && t.FourDimensional()
              && (t.inputShape[3] != t.weightShape[3] || t.outputShape[3] != t.weightShape[0])
    ensures r.Computed? ==>
              (var l := t.AsLayer();
               && |r.values| == l.outputH * l.outputW * l.outputC
               && forall y: nat, x: nat, c: nat | InOutput(l, y, x, c) ::
                    HoldsAt(l, requantize, r.values, y, x, c) && Means(l, requantize, r.values, y, x, c))
  {
    if !t.FourDimensional() { return NotFourDimensional; }
    if !t.ChannelsMatch() { return ChannelMismatch; }
    var output := Convolve(t.AsLayer(), requantize);
    r := Computed(output[..]);
    var l := t.AsLayer();
    forall y: nat, x: nat, c: nat | InOutput(l, y, x, c) ensures Means(l, requantize, r.values, y, x, c) {
      assert HoldsAt(l, requantize, r.values, y, x, c);
      HoldsIsMeans(l, requantize, r.values, y, x, c);
    }
  }
}

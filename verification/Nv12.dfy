/** BGRA to NV12 conversion for the Windows encoder: BT.601 limited range in fixed point. */
module Nv12 {
  import opened Bytes

  // ---------------------------------------------------------------------------------------------
  // One pixel
  // ---------------------------------------------------------------------------------------------

  /** `/` floors here, as the source's arithmetic right shift does. */
  function LumaSum(r: Byte, g: Byte, b: Byte): int {
    (66 * r as int + 129 * g as int + 25 * b as int + 128) / 256 + 16
  }

  function CbSum(r: Byte, g: Byte, b: Byte): int {
    (-38 * r as int - 74 * g as int + 112 * b as int + 128) / 256 + 128
  }

  function CrSum(r: Byte, g: Byte, b: Byte): int {
    (112 * r as int - 94 * g as int - 18 * b as int + 128) / 256 + 128
  }

  function Clamp(v: int): Byte {
    if v < 0 then 0 else if v > 255 then 255 else v
  }

  /** Limited range: the clamps never act. */
  lemma LimitedRange(r: Byte, g: Byte, b: Byte)
    ensures 16 <= LumaSum(r, g, b) <= 235 && Clamp(LumaSum(r, g, b)) == LumaSum(r, g, b)
    ensures 16 <= CbSum(r, g, b) <= 240 && Clamp(CbSum(r, g, b)) == CbSum(r, g, b)
    ensures 16 <= CrSum(r, g, b) <= 240 && Clamp(CrSum(r, g, b)) == CrSum(r, g, b)
  {
  }

  ghost predicate Within1(v: int, exact: real) {
    -1.0 < v as real - exact < 1.0
  }

  /** The luma formula the source states. */
  lemma LumaMatchesStatedFormula(r: Byte, g: Byte, b: Byte)
    ensures Within1(LumaSum(r, g, b),
                    0.257 * r as real + 0.504 * g as real + 0.098 * b as real + 16.0)
  {
  }

  /** E'Y of section 2.5.1 of ITU-R BT.601-7, on 8-bit components. */
  ghost function Luminance(r: Byte, g: Byte, b: Byte): real {
    0.299 * r as real + 0.587 * g as real + 0.114 * b as real
  }

  /** The quantised signals of section 2.5.3 of ITU-R BT.601-7, before rounding. */
  lemma MatchesBt601(r: Byte, g: Byte, b: Byte)
    ensures Within1(LumaSum(r, g, b), 16.0 + Luminance(r, g, b) * 219.0 / 255.0)
    ensures Within1(CbSum(r, g, b),
                    128.0 + (b as real - Luminance(r, g, b)) / 1.772 * 224.0 / 255.0)
    ensures Within1(CrSum(r, g, b),
                    128.0 + (r as real - Luminance(r, g, b)) / 1.402 * 224.0 / 255.0)
  {
  }

  /** Each is the fixed-point value rounded to the nearest integer, a half upwards. */
  lemma RoundsToNearest(r: Byte, g: Byte, b: Byte)
    ensures -128 < 256 * (LumaSum(r, g, b) - 16) - (66 * r as int + 129 * g as int + 25 * b as int)
            <= 128
    ensures -128 < 256 * (CbSum(r, g, b) - 128) - (112 * b as int - 38 * r as int - 74 * g as int)
            <= 128
    ensures -128 < 256 * (CrSum(r, g, b) - 128) - (112 * r as int - 94 * g as int - 18 * b as int)
            <= 128
  {
  }

  lemma GreyHasNoChroma(v: Byte)
    ensures CbSum(v, v, v) == 128 && CrSum(v, v, v) == 128
  {
  }

  // ---------------------------------------------------------------------------------------------
  // The planes
  // ---------------------------------------------------------------------------------------------

  lemma {:induction false} MulMonotone(a: nat, b: nat, w: nat)
    ensures a <= b ==> a * w <= b * w
  {
    if w == 0 {
    } else {
      MulMonotone(a, b, w - 1);
      assert a * w == a * (w - 1) + a && b * w == b * (w - 1) + b;
    }
  }

  lemma PixelInside(w: nat, h: nat, x: nat, y: nat)
    requires x < w && y < h
    ensures y * w + x < w * h
    ensures (y + 1) * w <= w * h
  {
    MulMonotone(y + 1, h, w);
    assert (y + 1) * w == y * w + w;
  }

  /** Component `c` (0 blue, 1 green, 2 red) of the pixel at column `x` of row `y`. */
  function Component(src: seq<Byte>, w: nat, h: nat, x: nat, y: nat, c: nat): Byte
    requires |src| >= w * h * 4 && x < w && y < h && c < 4
  {
    PixelInside(w, h, x, y);
    src[(y * w + x) * 4 + c]
  }

  /** The sum of a component over the first `n` pixels of a 2x2 block. */
  function BlockSum(src: seq<Byte>, w: nat, h: nat, x: nat, y: nat, c: nat, n: nat): (s: nat)
    requires |src| >= w * h * 4 && x + 1 < w && y + 1 < h && c < 4 && n <= 4
    ensures s <= 255 * n
  {
    if n == 0 then 0
    else
      BlockSum(src, w, h, x, y, c, n - 1)
      + Component(src, w, h, x + (n - 1) % 2, y + (n - 1) / 2, c) as int
  }

  function Average(src: seq<Byte>, w: nat, h: nat, x: nat, y: nat, c: nat): Byte
    requires |src| >= w * h * 4 && x + 1 < w && y + 1 < h && c < 4
  {
    BlockSum(src, w, h, x, y, c, 4) / 4
  }

  function LumaAt(src: seq<Byte>, w: nat, h: nat, x: nat, y: nat): Byte
    requires |src| >= w * h * 4 && x < w && y < h
  {
    Clamp(LumaSum(Component(src, w, h, x, y, 2), Component(src, w, h, x, y, 1),
                  Component(src, w, h, x, y, 0)))
  }

  /** Cb or Cr of the 2x2 block whose corner is (x, y). */
  function ChromaAt(src: seq<Byte>, w: nat, h: nat, x: nat, y: nat, cr: bool): Byte
    requires |src| >= w * h * 4 && x + 1 < w && y + 1 < h
  {
    var r := Average(src, w, h, x, y, 2);
    var g := Average(src, w, h, x, y, 1);
    var b := Average(src, w, h, x, y, 0);
    Clamp(if cr then CrSum(r, g, b) else CbSum(r, g, b))
  }

  ghost predicate Grey(src: seq<Byte>, w: nat, h: nat, x: nat, y: nat)
    requires |src| >= w * h * 4 && x < w && y < h
  {
    Component(src, w, h, x, y, 0) == Component(src, w, h, x, y, 1) == Component(src, w, h, x, y, 2)
  }

  ghost predicate GreyBlock(src: seq<Byte>, w: nat, h: nat, x: nat, y: nat)
    requires |src| >= w * h * 4 && x + 1 < w && y + 1 < h
  {
    && Grey(src, w, h, x, y) && Grey(src, w, h, x + 1, y)
    && Grey(src, w, h, x, y + 1) && Grey(src, w, h, x + 1, y + 1)
  }

  /** A block of grey pixels, whatever their shades, has chroma 128. */
  lemma GreyBlockHasNoChroma(src: seq<Byte>, w: nat, h: nat, x: nat, y: nat, cr: bool)
    requires |src| >= w * h * 4 && x + 1 < w && y + 1 < h && GreyBlock(src, w, h, x, y)
    ensures ChromaAt(src, w, h, x, y, cr) == 128
  {
    hide Component;
    GreySums(src, w, h, x, y, 4);
    GreyHasNoChroma(Average(src, w, h, x, y, 0));
  }

  lemma {:induction false} GreySums(src: seq<Byte>, w: nat, h: nat, x: nat, y: nat, n: nat)
    requires |src| >= w * h * 4 && x + 1 < w && y + 1 < h && n <= 4 && GreyBlock(src, w, h, x, y)
    ensures BlockSum(src, w, h, x, y, 0, n) == BlockSum(src, w, h, x, y, 1, n)
            == BlockSum(src, w, h, x, y, 2, n)
  {
    hide Component;
    if n == 0 {
    } else {
      GreySums(src, w, h, x, y, n - 1);
      assert Grey(src, w, h, x + (n - 1) % 2, y + (n - 1) / 2);
    }
  }

  // ---------------------------------------------------------------------------------------------
  // Every output byte has exactly one place it comes from
  // ---------------------------------------------------------------------------------------------

  datatype Sample =
    | Luma(x: nat, y: nat)
    | Chroma(x: nat, y: nat, cr: bool)   // of the block with corner (x, y)

  ghost predicate InFrame(w: nat, h: nat, s: Sample) {
    match s
    case Luma(x, y) => x < w && y < h
    case Chroma(x, y, _) => x + 1 < w && y + 1 < h && x % 2 == 0 && y % 2 == 0
  }

  /** Where the source writes a sample. */
  function IndexOf(w: nat, h: nat, s: Sample): nat {
    match s
    case Luma(x, y) => y * w + x
    case Chroma(x, y, cr) => w * h + y / 2 * w + x + if cr then 1 else 0
  }

  /** Which sample output byte `k` holds. */
  function SampleAt(w: nat, h: nat, k: nat): Sample
    requires w > 0
  {
    if k < w * h then Luma(k % w, k / w)
    else
      var j := k - w * h;
      Chroma(j % w - j % w % 2, 2 * (j / w), j % w % 2 == 1)
  }

  lemma RowColumn(w: nat, row: nat, column: nat)
    requires column < w
    ensures (row * w + column) / w == row && (row * w + column) % w == column
  {
    var k := row * w + column;
    var q := k / w;
    assert k == q * w + k % w;
    MulMonotone(q + 1, row, w);
    MulMonotone(row + 1, q, w);
    assert (q + 1) * w == q * w + w && (row + 1) * w == row * w + w;
  }

  lemma HalfRows(w: nat, h: nat)
    requires w % 2 == 0 && h % 2 == 0
    ensures h / 2 * w == w * h / 2
  {
    var m := h / 2;
    assert h == 2 * m;
    assert w * h == 2 * (m * w);
  }

  /** Indices of samples in the frame are in bounds and name the sample. */
  lemma SampleHasItsOwnByte(w: nat, h: nat, s: Sample)
    requires w % 2 == 0 && h % 2 == 0 && InFrame(w, h, s)
    ensures IndexOf(w, h, s) < w * h + w * h / 2
    ensures SampleAt(w, h, IndexOf(w, h, s)) == s
  {
    match s {
      case Luma(x, y) =>
        PixelInside(w, h, x, y);
        RowColumn(w, y, x);
      case Chroma(x, y, cr) =>
        var column := x + if cr then 1 else 0;
        HalfRows(w, h);
        PixelInside(w, h / 2, column, y / 2);
        RowColumn(w, y / 2, column);
        assert IndexOf(w, h, s) - w * h == y / 2 * w + column;
    }
  }

  /** Every output byte is some sample of the frame, so each is written exactly once. */
  lemma ByteHasItsOwnSample(w: nat, h: nat, k: nat)
    requires w % 2 == 0 && h % 2 == 0 && k < w * h + w * h / 2
    ensures w > 0 && InFrame(w, h, SampleAt(w, h, k)) && IndexOf(w, h, SampleAt(w, h, k)) == k
  {
    assert w == 0 ==> w * h == 0;
    if k < w * h {
      RowBelow(w, h, k);
    } else {
      var j := k - w * h;
      HalfRows(w, h);
      RowBelow(w, h / 2, j);
      EvenColumn(w, j % w);
      var row := j / w;
      assert 2 * row / 2 == row && 2 * row + 1 < h;
    }
  }

  lemma EvenColumn(w: nat, column: nat)
    requires w % 2 == 0 && column < w
    ensures (column - column % 2) % 2 == 0 && column - column % 2 + 1 < w
  {
  }

  lemma RowBelow(w: nat, h: nat, k: nat)
    requires w > 0 && k < w * h
    ensures k / w < h && k / w * w + k % w == k
  {
    var q := k / w;
    assert k == q * w + k % w;
    MulMonotone(h, q, w);
  }

  function ValueAt(src: seq<Byte>, w: nat, h: nat, s: Sample): Byte
    requires |src| >= w * h * 4 && InFrame(w, h, s)
  {
    match s
    case Luma(x, y) => LumaAt(src, w, h, x, y)
    case Chroma(x, y, cr) => ChromaAt(src, w, h, x, y, cr)
  }

  /** Output byte `k` as a function of the pixels. */
  function Nv12Byte(src: seq<Byte>, w: nat, h: nat, k: nat): Byte
    requires w % 2 == 0 && h % 2 == 0 && |src| >= w * h * 4 && k < w * h + w * h / 2
  {
    ByteHasItsOwnSample(w, h, k);
    ValueAt(src, w, h, SampleAt(w, h, k))
  }

  lemma WrittenByte(src: seq<Byte>, w: nat, h: nat, s: Sample)
    requires w % 2 == 0 && h % 2 == 0 && |src| >= w * h * 4 && InFrame(w, h, s)
    ensures IndexOf(w, h, s) < w * h + w * h / 2
    ensures Nv12Byte(src, w, h, IndexOf(w, h, s)) == ValueAt(src, w, h, s)
  {
    hide ValueAt, IndexOf, SampleAt, InFrame;
    SampleHasItsOwnByte(w, h, s);
  }

  // ---------------------------------------------------------------------------------------------
  // The loops
  // ---------------------------------------------------------------------------------------------

  /** The first `n` output bytes are converted, the rest untouched. */
  ghost predicate Converted(src: seq<Byte>, w: nat, h: nat, dst: seq<Byte>, was: seq<Byte>, n: nat)
    requires w % 2 == 0 && h % 2 == 0 && |src| >= w * h * 4
  {
    && n <= w * h + w * h / 2 <= |dst| == |was|
    && (forall k :: 0 <= k < n ==> dst[k] == Nv12Byte(src, w, h, k))
    && (forall k :: n <= k < |dst| ==> dst[k] == was[k])
  }

  lemma ConvertNext(src: seq<Byte>, w: nat, h: nat, dst: seq<Byte>, was: seq<Byte>, n: nat, v: Byte)
    requires w % 2 == 0 && h % 2 == 0 && |src| >= w * h * 4
    requires Converted(src, w, h, dst, was, n) && n < w * h + w * h / 2
    requires v == Nv12Byte(src, w, h, n)
    ensures Converted(src, w, h, dst[n := v], was, n + 1)
  {
    hide Nv12Byte;
  }

  lemma BlockSumNext(src: seq<Byte>, w: nat, h: nat, x: nat, y: nat, c: nat, dx: nat, dy: nat)
    requires |src| >= w * h * 4 && x + 1 < w && y + 1 < h && c < 3 && dx < 2 && dy < 2
    ensures (y + dy) * w + (x + dx) < w * h
    ensures BlockSum(src, w, h, x, y, c, 2 * dy + dx + 1)
            == BlockSum(src, w, h, x, y, c, 2 * dy + dx)
               + src[((y + dy) * w + (x + dx)) * 4 + c] as int
  {
    PixelInside(w, h, x + dx, y + dy);
    assert (2 * dy + dx) / 2 == dy && (2 * dy + dx) % 2 == dx;
  }

  method AverageBlock(src: seq<Byte>, w: nat, h: nat, x: nat, y: nat)
    returns (r: Byte, g: Byte, b: Byte)
    requires |src| >= w * h * 4 && x + 1 < w && y + 1 < h
    ensures r == Average(src, w, h, x, y, 2)
    ensures g == Average(src, w, h, x, y, 1)
    ensures b == Average(src, w, h, x, y, 0)
  {
    hide Component;
    var sumR: nat, sumG: nat, sumB: nat := 0, 0, 0;
    for dy := 0 to 2
      invariant sumR == BlockSum(src, w, h, x, y, 2, 2 * dy)
      invariant sumG == BlockSum(src, w, h, x, y, 1, 2 * dy)
      invariant sumB == BlockSum(src, w, h, x, y, 0, 2 * dy)
    {
      for dx := 0 to 2
        invariant sumR == BlockSum(src, w, h, x, y, 2, 2 * dy + dx)
        invariant sumG == BlockSum(src, w, h, x, y, 1, 2 * dy + dx)
        invariant sumB == BlockSum(src, w, h, x, y, 0, 2 * dy + dx)
      {
        BlockSumNext(src, w, h, x, y, 0, dx, dy);
        BlockSumNext(src, w, h, x, y, 1, dx, dy);
        BlockSumNext(src, w, h, x, y, 2, dx, dy);
        var i := ((y + dy) * w + (x + dx)) * 4;
        sumB := sumB + src[i];
        sumG := sumG + src[i + 1];
        sumR := sumR + src[i + 2];
      }
    }
    r, g, b := sumR / 4, sumG / 4, sumB / 4;
  }

  method LumaPlane(src: seq<Byte>, w: nat, h: nat, dst: array<Byte>)
    requires w % 2 == 0 && h % 2 == 0
    requires |src| >= w * h * 4 && dst.Length >= w * h + w * h / 2
    modifies dst
    ensures Converted(src, w, h, dst[..], old(dst[..]), w * h)
  {
    hide Converted, LumaSum, Nv12Byte;
    ghost var was := dst[..];
    NothingConverted(src, w, h, dst[..]);
    for y := 0 to h
      invariant Converted(src, w, h, dst[..], was, y * w)
    {
      for x := 0 to w
        invariant Converted(src, w, h, dst[..], was, y * w + x)
      {
        PixelInside(w, h, x, y);
        WrittenByte(src, w, h, Luma(x, y));
        var i := y * w * 4 + x * 4;
        assert i == (y * w + x) * 4;
        var b := src[i];
        var g := src[i + 1];
        var r := src[i + 2];
        var v := Clamp(LumaSum(r, g, b));
        ghost var before := dst[..];
        ConvertNext(src, w, h, before, was, y * w + x, v);
        dst[y * w + x] := v;
        assert dst[..] == before[y * w + x := v];
      }
      assert y * w + w == (y + 1) * w;
    }
    assert h * w == w * h;
  }

  lemma NothingConverted(src: seq<Byte>, w: nat, h: nat, dst: seq<Byte>)
    requires w % 2 == 0 && h % 2 == 0 && |src| >= w * h * 4 && |dst| >= w * h + w * h / 2
    ensures Converted(src, w, h, dst, dst, 0)
  {
  }

  /** The two bytes of a block, side by side. */
  lemma ChromaBytes(src: seq<Byte>, w: nat, h: nat, x: nat, y: nat)
    requires w % 2 == 0 && h % 2 == 0 && |src| >= w * h * 4
    requires x < w && y < h && x % 2 == 0 && y % 2 == 0
    ensures x + 1 < w && y + 1 < h
    ensures w * h + y / 2 * w + x + 1 < w * h + w * h / 2
    ensures Nv12Byte(src, w, h, w * h + y / 2 * w + x) == ChromaAt(src, w, h, x, y, false)
    ensures Nv12Byte(src, w, h, w * h + y / 2 * w + x + 1) == ChromaAt(src, w, h, x, y, true)
  {
    hide Nv12Byte, ChromaAt;
    WrittenByte(src, w, h, Chroma(x, y, false));
    WrittenByte(src, w, h, Chroma(x, y, true));
  }

  lemma ChromaOfAverages(src: seq<Byte>, w: nat, h: nat, x: nat, y: nat, r: Byte, g: Byte, b: Byte)
    requires |src| >= w * h * 4 && x + 1 < w && y + 1 < h
    requires r == Average(src, w, h, x, y, 2) && g == Average(src, w, h, x, y, 1)
    requires b == Average(src, w, h, x, y, 0)
    ensures ChromaAt(src, w, h, x, y, false) == Clamp(CbSum(r, g, b))
    ensures ChromaAt(src, w, h, x, y, true) == Clamp(CrSum(r, g, b))
  {
    hide Average, CbSum, CrSum, Clamp;
  }

  lemma NextBlockRow(w: nat, y: nat)
    requires y % 2 == 0
    ensures y / 2 * w + w == (y + 2) / 2 * w
  {
    assert (y + 2) / 2 == y / 2 + 1;
  }

  method ChromaPlane(src: seq<Byte>, w: nat, h: nat, dst: array<Byte>, ghost was: seq<Byte>)
    requires w % 2 == 0 && h % 2 == 0
    requires |src| >= w * h * 4 && dst.Length >= w * h + w * h / 2
    requires Converted(src, w, h, dst[..], was, w * h)
    modifies dst
    ensures Converted(src, w, h, dst[..], was, w * h + w * h / 2)
  {
    hide Converted, CbSum, CrSum, Nv12Byte, Average, ChromaAt, Clamp;
    HalfRows(w, h);
    var uvOff := w * h;
    var y := 0;
    while y < h
      invariant y % 2 == 0 && y <= h
      invariant Converted(src, w, h, dst[..], was, uvOff + y / 2 * w)
    {
      var x := 0;
      while x < w
        invariant x % 2 == 0 && x <= w
        invariant Converted(src, w, h, dst[..], was, uvOff + y / 2 * w + x)
      {
        ChromaBytes(src, w, h, x, y);
        var r, g, b := AverageBlock(src, w, h, x, y);
        ChromaOfAverages(src, w, h, x, y, r, g, b);
        var u, v := Clamp(CbSum(r, g, b)), Clamp(CrSum(r, g, b));
        var dstIdx := uvOff + y / 2 * w + x;
        ConvertNext(src, w, h, dst[..], was, dstIdx, u);
        ghost var step: seq<Byte> := dst[..][dstIdx := u];
        dst[dstIdx] := u;
        assert dst[..] == step;
        ConvertNext(src, w, h, step, was, dstIdx + 1, v);
        dst[dstIdx + 1] := v;
        assert dst[..] == step[dstIdx + 1 := v];
        x := x + 2;
      }
      NextBlockRow(w, y);
      y := y + 2;
    }
  }

  // ---------------------------------------------------------------------------------------------
  // What the output bytes are, from the bytes of the pixels
  // ---------------------------------------------------------------------------------------------

  /** The luma byte of a pixel is within 1 of the stated formula of its blue, green and red bytes,
      which lie in that order. */
  ghost predicate LumaRight(src: seq<Byte>, w: nat, h: nat, dst: seq<Byte>, x: nat, y: nat)
    requires |src| >= w * h * 4 && |dst| >= w * h && x < w && y < h
  {
    PixelInside(w, h, x, y);
    var i := (y * w + x) * 4;
    Within1(dst[y * w + x],
            0.257 * src[i + 2] as real + 0.504 * src[i + 1] as real + 0.098 * src[i] as real + 16.0)
  }

  function Quarter(a: Byte, b: Byte, c: Byte, d: Byte): Byte {
    (a as int + b as int + c as int + d as int) / 4
  }

  lemma BlockInside(w: nat, h: nat, x: nat, y: nat)
    requires w % 2 == 0 && h % 2 == 0 && x < w && y < h && x % 2 == 0 && y % 2 == 0
    ensures w * h + y / 2 * w + x + 1 < w * h + w * h / 2
    ensures (y * w + x) * 4 + 4 <= (y * w + x + 1) * 4 < w * h * 4 - 3
    ensures ((y + 1) * w + x) * 4 + 4 <= ((y + 1) * w + x + 1) * 4 < w * h * 4 - 3
  {
    HalfRows(w, h);
    PixelInside(w, h / 2, x + 1, y / 2);
    PixelInside(w, h, x + 1, y);
    PixelInside(w, h, x + 1, y + 1);
  }

  /** The chroma bytes of a block, Cb first, are within 1 of section 2.5.3 of ITU-R BT.601-7 for
      the averages of its four pixels. */
  ghost predicate ChromaRight(src: seq<Byte>, w: nat, h: nat, dst: seq<Byte>, x: nat, y: nat)
    requires |src| >= w * h * 4 && |dst| >= w * h + w * h / 2 && w % 2 == 0 && h % 2 == 0
    requires x < w && y < h && x % 2 == 0 && y % 2 == 0
  {
    BlockInside(w, h, x, y);
    var (i, j) := ((y * w + x) * 4, (y * w + x + 1) * 4);
    var (k, l) := (((y + 1) * w + x) * 4, ((y + 1) * w + x + 1) * 4);
    var b := Quarter(src[i], src[j], src[k], src[l]);
    var g := Quarter(src[i + 1], src[j + 1], src[k + 1], src[l + 1]);
    var r := Quarter(src[i + 2], src[j + 2], src[k + 2], src[l + 2]);
    var luminance := 0.299 * r as real + 0.587 * g as real + 0.114 * b as real;
    var at := w * h + y / 2 * w + x;
    && Within1(dst[at], 128.0 + (b as real - luminance) / 1.772 * 224.0 / 255.0)
    && Within1(dst[at + 1], 128.0 + (r as real - luminance) / 1.402 * 224.0 / 255.0)
  }

  lemma LumaIsRight(src: seq<Byte>, w: nat, h: nat, dst: seq<Byte>, x: nat, y: nat)
    requires w % 2 == 0 && h % 2 == 0 && |src| >= w * h * 4 && |dst| >= w * h + w * h / 2
    requires forall k :: 0 <= k < w * h + w * h / 2 ==> dst[k] == Nv12Byte(src, w, h, k)
    requires x < w && y < h
    ensures LumaRight(src, w, h, dst, x, y)
  {
    hide Nv12Byte, LumaSum, Within1;
    PixelInside(w, h, x, y);
    WrittenByte(src, w, h, Luma(x, y));
    var i := (y * w + x) * 4;
    LimitedRange(src[i + 2], src[i + 1], src[i]);
    LumaMatchesStatedFormula(src[i + 2], src[i + 1], src[i]);
  }

  lemma AverageIsQuarter(src: seq<Byte>, w: nat, h: nat, x: nat, y: nat, c: nat)
    requires |src| >= w * h * 4 && x + 1 < w && y + 1 < h && c < 3
    ensures 0 <= (y * w + x) * 4 + c < (y * w + x + 1) * 4 + c < |src|
    ensures 0 <= ((y + 1) * w + x) * 4 + c < ((y + 1) * w + x + 1) * 4 + c < |src|
    ensures Average(src, w, h, x, y, c)
            == Quarter(src[(y * w + x) * 4 + c], src[(y * w + x + 1) * 4 + c],
                       src[((y + 1) * w + x) * 4 + c], src[((y + 1) * w + x + 1) * 4 + c])
  {
    hide BlockSum, Component;
    BlockSumStart(src, w, h, x, y, c);
    BlockSumNext(src, w, h, x, y, c, 0, 0);
    BlockSumNext(src, w, h, x, y, c, 1, 0);
    BlockSumNext(src, w, h, x, y, c, 0, 1);
    BlockSumNext(src, w, h, x, y, c, 1, 1);
  }

  lemma BlockSumStart(src: seq<Byte>, w: nat, h: nat, x: nat, y: nat, c: nat)
    requires |src| >= w * h * 4 && x + 1 < w && y + 1 < h && c < 4
    ensures BlockSum(src, w, h, x, y, c, 0) == 0
  {
  }

  lemma ChromaIsRight(src: seq<Byte>, w: nat, h: nat, dst: seq<Byte>, x: nat, y: nat)
    requires w % 2 == 0 && h % 2 == 0 && |src| >= w * h * 4 && |dst| >= w * h + w * h / 2
    requires forall k :: 0 <= k < w * h + w * h / 2 ==> dst[k] == Nv12Byte(src, w, h, k)
    requires x < w && y < h && x % 2 == 0 && y % 2 == 0
    ensures ChromaRight(src, w, h, dst, x, y)
  {
    hide Nv12Byte, CbSum, CrSum, Within1, Average, Quarter;
    BlockInside(w, h, x, y);
    ChromaBytes(src, w, h, x, y);
    AverageIsQuarter(src, w, h, x, y, 0);
    AverageIsQuarter(src, w, h, x, y, 1);
    AverageIsQuarter(src, w, h, x, y, 2);
    var r, g, b := Average(src, w, h, x, y, 2), Average(src, w, h, x, y, 1),
                   Average(src, w, h, x, y, 0);
    LimitedRange(r, g, b);
    MatchesBt601(r, g, b);
  }

  /** BGRA to NV12: every byte of both planes from its own pixel or block, nothing beyond them. */
  method BgraToNv12(src: seq<Byte>, w: nat, h: nat, dst: array<Byte>)
    requires w % 2 == 0 && h % 2 == 0
    requires |src| >= w * h * 4 && dst.Length >= w * h + w * h / 2
    modifies dst
    ensures forall k :: 0 <= k < w * h + w * h / 2 ==> dst[k] == Nv12Byte(src, w, h, k)
    ensures forall k :: w * h + w * h / 2 <= k < dst.Length ==> dst[k] == old(dst[k])
    ensures forall x: nat, y: nat :: x < w && y < h ==> LumaRight(src, w, h, dst[..], x, y)
    ensures forall x: nat, y: nat :: x < w && y < h && x % 2 == 0 && y % 2 == 0 ==>
              ChromaRight(src, w, h, dst[..], x, y)
  {
    hide Nv12Byte, LumaRight, ChromaRight;
    ghost var was := dst[..];
    LumaPlane(src, w, h, dst);
    ChromaPlane(src, w, h, dst, was);
    assert forall k :: 0 <= k < dst.Length ==> dst[k] == dst[..][k];
    forall x: nat, y: nat | x < w && y < h ensures LumaRight(src, w, h, dst[..], x, y) {
      LumaIsRight(src, w, h, dst[..], x, y);
    }
    forall x: nat, y: nat | x < w && y < h && x % 2 == 0 && y % 2 == 0
      ensures ChromaRight(src, w, h, dst[..], x, y)
    {
      ChromaIsRight(src, w, h, dst[..], x, y);
    }
  }

  // ---------------------------------------------------------------------------------------------
  // Dimensions
  // ---------------------------------------------------------------------------------------------

  /** `(d + 1) & !1` on 32 bits. */
  function RoundUpEven(d: nat): nat
    requires d < 0x1_0000_0000
  {
    (d + 1) % 0x1_0000_0000 / 2 * 2
  }

  /** A side is rounded up to an even number exactly when it is not the largest of all, which a
      release build wraps to 0. */
  lemma RoundUpEvenIsLeastEven(d: nat)
    requires d < 0x1_0000_0000
    ensures RoundUpEven(d) % 2 == 0
    ensures d <= RoundUpEven(d) <= d + 1 <==> d != 0xFFFF_FFFF
    ensures d == 0xFFFF_FFFF ==> RoundUpEven(d) == 0
    ensures RoundUpEven(d) == d <==> d % 2 == 0
  {
  }

  /** The size check of `submit_frame` on an encoder configured for frames of `fw` by `fh`, given
      such a frame tightly packed. */
  predicate Accepted(fw: nat, fh: nat, got: nat)
    requires fw < 0x1_0000_0000 && fh < 0x1_0000_0000
  {
    got >= RoundUpEven(fw) * RoundUpEven(fh) * 4
  }

  /** A packed frame of the size configured for is accepted exactly when both its sides are even,
      or one is 0 or wraps: the encoder rounds an odd side up and then finds the frame too small. */
  lemma PackedFrameAcceptedExactly(fw: nat, fh: nat)
    requires fw < 0x1_0000_0000 && fh < 0x1_0000_0000
    ensures Accepted(fw, fh, fw * fh * 4) <==>
            (fw % 2 == 0 && fh % 2 == 0) || fw in {0, 0xFFFF_FFFF} || fh in {0, 0xFFFF_FFFF}
  {
    hide RoundUpEven;
    RoundUpEvenIsLeastEven(fw);
    RoundUpEvenIsLeastEven(fh);
    if fw !in {0, 0xFFFF_FFFF} && fh !in {0, 0xFFFF_FFFF} {
      SmallerProduct(fw, fh, RoundUpEven(fw), RoundUpEven(fh));
    }
  }

  lemma SmallerProduct(a: nat, b: nat, c: nat, d: nat)
    requires 0 < a <= c && 0 < b <= d
    ensures a * b <= c * d
    ensures a * b == c * d ==> a == c && b == d
  {
    MulMonotone(a, c, b);
    MulMonotone(a + 1, c, b);
    MulMonotone(b, d, c);
    MulMonotone(b + 1, d, c);
    assert (a + 1) * b == a * b + b && (b + 1) * c == b * c + c;
  }
}

/** The row rasterizer `_raw_row` (rasterprynt.py): one image column becomes a
    stripe of bytes, eight vertically stacked dots per byte, most significant bit
    first. */
module Raster {
  import opened Bytes

  /** A pixel sample: a single grey level (PIL modes such as `L` or `1`) or an
      RGB triple. */
  datatype Pixel = Gray(level: int) | Rgb(r: int, g: int, b: int)

  /** A pixel at or below this luminance is printed. */
  const Threshold: int := 230

  /** Whether a pixel is dark enough to print: its luminance, the grey level or
      the mean of the three channels, is at most `Threshold`. The mean is
      compared without division: `(r + g + b) / 3 <= 230` exactly when
      `r + g + b <= 690`. */
  predicate Printed(p: Pixel)
  {
    match p
    case Gray(v) => v <= Threshold
    case Rgb(r, g, b) => r + g + b <= 3 * Threshold
  }

  /** The image as the rasterizer sees it: its size and a total pixel accessor
      (what `img.load()` returns). */
  datatype Image = Image(width: nat, height: nat, pixel: (nat, nat) -> Pixel)

  /** Whether the dot at column `x` and image row `y` is printed: the position
      lies inside the image and its pixel is dark. */
  predicate Dot(img: Image, x: nat, y: int)
  {
    x < img.width && 0 <= y < img.height && Printed(img.pixel(x, y as nat))
  }

  /** Bit `n` (0 = least significant) of a byte. */
  predicate BitOf(b: byte, n: nat)
    requires n < 8
  {
    Bit8(b as bv8, n)
  }

  predicate Bit8(b: bv8, n: nat)
    requires n < 8
  {
    b & Mask(7 - n) != 0
  }

  /** The image row that bit `bitIndex` of stripe byte `stripeIdx` shows. */
  function RowOf(stripeIdx: nat, bitIndex: nat, yOffset: int): int
  {
    stripeIdx * 8 + bitIndex - yOffset
  }

  /** `1 << (7 - k)`, the bit the `k`-th dot of a byte sets. */
  function Mask(k: nat): (m: bv8)
    requires k < 8
    ensures m == (1 as bv8) << (7 - k)
  {
    match k
    case 0 => 0x80 case 1 => 0x40 case 2 => 0x20 case 3 => 0x10
    case 4 => 0x08 case 5 => 0x04 case 6 => 0x02 case _ => 0x01
  }

  /** The eight dots one stripe byte covers, top to bottom. */
  function Dots(img: Image, x: nat, yOffset: int, stripeIdx: nat): (d: seq<bool>)
    ensures |d| == 8
    ensures forall j :: 0 <= j < 8 ==> d[j] == Dot(img, x, RowOf(stripeIdx, j, yOffset))
  {
    seq(8, (j: nat) => Dot(img, x, RowOf(stripeIdx, j, yOffset)))
  }

  /** The inner loop of `_raw_row` after its first `k` iterations: for each
      printed dot `j` it sets `bits |= 1 << (7 - j)`, that is `bits |= Mask(j)`. */
  function PackDots(dots: seq<bool>, k: nat): bv8
    requires |dots| == 8 && k <= 8
  {
    if k == 0 then 0
    else
      var bits := PackDots(dots, k - 1);
      if dots[k - 1] then bits | Mask(k - 1) else bits
  }

  /** Reading back the bits the inner loop packed gives the dots. */
  lemma PackDotsBits(dots: seq<bool>)
    requires |dots| == 8
    ensures forall j :: 0 <= j < 8 ==> (Bit8(PackDots(dots, 8), 7 - j) <==> dots[j])
  {
    forall j | 0 <= j < 8
      ensures Bit8(PackDots(dots, 8), 7 - j) <==> dots[j]
    {
      PackDotsBit(dots, 8, j);
    }
  }

  /** After `k` iterations, dot `j`'s bit is set exactly when `j < k` and the
      dot prints. */
  lemma {:induction false} PackDotsBit(dots: seq<bool>, k: nat, j: nat)
    requires |dots| == 8 && k <= 8 && j < 8
    ensures Bit8(PackDots(dots, k), 7 - j) <==> j < k && dots[j]
  {
    if k > 0 {
      PackDotsBit(dots, k - 1, j);
      MaskOr(PackDots(dots, k - 1), k - 1, j);
    }
  }

  /** Setting the bit of dot `m` leaves the bits of the other dots alone. */
  lemma MaskOr(b: bv8, m: nat, j: nat)
    requires m < 8 && j < 8
    ensures (b | Mask(m)) & Mask(j) != 0 <==> b & Mask(j) != 0 || m == j
  {
    match j
    case 0 => case 1 => case 2 => case 3 => case 4 => case 5 => case 6 => case 7 =>
  }

  lemma ByteRoundTrip(b: bv8)
    ensures (b as int) as bv8 == b
  {
  }

  /** One byte of `_raw_row`: bit `7 - j` is set exactly when dot `j` prints. */
  function StripeByte(img: Image, x: nat, yOffset: int, stripeIdx: nat): (b: byte)
    ensures forall j :: 0 <= j < 8 ==>
              (BitOf(b, 7 - j) <==> Dot(img, x, RowOf(stripeIdx, j, yOffset)))
  {
    var bits := PackDots(Dots(img, x, yOffset, stripeIdx), 8);
    PackDotsBits(Dots(img, x, yOffset, stripeIdx));
    ByteRoundTrip(bits);
    bits as int
  }

  /** `b''.join(_raw_row(img, img_bytes, stripe_count, x, y_offset))`: exactly
      `stripeCount` bytes, and bit `7 - j` of byte `i` is set exactly when image
      row `8 * i + j - yOffset` of column `x` exists and is dark. */
  function RawRow(img: Image, stripeCount: nat, x: nat, yOffset: int): (r: Bytes)
    ensures |r| == stripeCount
    ensures forall i, j :: 0 <= i < stripeCount && 0 <= j < 8 ==>
              (BitOf(r[i], 7 - j) <==> Dot(img, x, RowOf(i, j, yOffset)))
  {
    seq(stripeCount, (i: nat) => StripeByte(img, x, yOffset, i))
  }

  lemma ByteOfNoBits(b: byte)
    requires forall n :: 0 <= n < 8 ==> !BitOf(b, n)
    ensures b == 0
  {
    assert !BitOf(b, 0) && !BitOf(b, 1) && !BitOf(b, 2) && !BitOf(b, 3);
    assert !BitOf(b, 4) && !BitOf(b, 5) && !BitOf(b, 6) && !BitOf(b, 7);
  }

  /** An image with no dark pixel rasterizes to an all-zero stripe, whatever the
      column and offset. */
  lemma LightImageBlankRow(img: Image, stripeCount: nat, x: nat, yOffset: int)
    requires forall px: nat, py: nat :: !Printed(img.pixel(px, py))
    ensures RawRow(img, stripeCount, x, yOffset) == Zeros(stripeCount)
  {
    var r := RawRow(img, stripeCount, x, yOffset);
    forall i | 0 <= i < stripeCount
      ensures r[i] == 0
    {
      forall n | 0 <= n < 8
        ensures !BitOf(r[i], n)
      {
        assert BitOf(r[i], 7 - (7 - n)) <==> Dot(img, x, RowOf(i, 7 - n, yOffset));
      }
      ByteOfNoBits(r[i]);
    }
  }

  /** For an image that is dark everywhere, a dot prints exactly where the
      image covers it: the column exists and the row lies in `0..height`. */
  lemma DarkImageCoverage(img: Image, stripeCount: nat, x: nat, yOffset: int, i: nat, j: nat)
    requires forall px: nat, py: nat :: Printed(img.pixel(px, py))
    requires i < stripeCount && j < 8
    ensures BitOf(RawRow(img, stripeCount, x, yOffset)[i], 7 - j)
        <==> x < img.width && 0 <= 8 * i + j - yOffset < img.height
  {
    var y := RowOf(i, j, yOffset);
    if x < img.width && 0 <= y < img.height {
      assert Printed(img.pixel(x, y as nat));
    }
  }
}

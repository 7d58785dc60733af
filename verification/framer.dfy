/** The job framing of `render` and `cat` (rasterprynt.py): the command
    envelope around a sequence of images, each image one page of raster
    lines, one line per image column. */
module Framer {
  import opened Wrappers
  import opened Bytes
  import PackBits
  import Raster
  import Profile

  /** `ESC @`: initialize. */
  const Init: Bytes := [0x1b, 0x40]
  /** `ESC i a 1`: switch to raster mode. */
  const RasterMode: Bytes := [0x1b, 0x69, 0x61, 0x01]
  /** `ESC i M 0`: mode settings, no auto cut. */
  const NoAutoCut: Bytes := [0x1b, 0x69, 0x4d, 0x00]
  /** `ESC i d 0 0`: zero feed margin. */
  const ZeroMargin: Bytes := [0x1b, 0x69, 0x64, 0x00, 0x00]
  /** The print-information command head: `ESC i z`, the flags
      `PI_RECOVER | PI_QUALITY`, and media type, width and length unset. */
  const InfoHead: Bytes := [0x1b, 0x69, 0x7a, 0xc0, 0x00, 0x00, 0x00]
  /** Form feed between pages. */
  const PageBreak: byte := 0x0c
  /** `Control-Z`: print the job. */
  const PrintCommand: byte := 0x1a
  /** `'G'`: the raster-graphics transfer command heading every line. */
  const RowMarker: byte := 0x47
  /** `'M'`: the compression-mode select command. */
  const ModeMarker: byte := 0x4d
  /** The raster number is a 32-bit little-endian field. */
  const RasterLimit: nat := 0x1_0000_0000

  /** The four set-up commands every job starts with, as `render` yields them
      and as bytes. */
  const SetUp: seq<Bytes> := [Init, RasterMode, NoAutoCut, ZeroMargin]
  const Preamble: Bytes := Init + RasterMode + NoAutoCut + ZeroMargin

  /** The print-information command for a page of `rasterNumber` lines;
      the starting-page byte reads 0 for a first page and 1 otherwise. */
  function PrintInfo(rasterNumber: nat, first: bool): (r: Bytes)
    requires rasterNumber < RasterLimit
    ensures |r| == 13 && r[..7] == InfoHead && r[12] == 0
    ensures U32(r[7], r[8], r[9], r[10]) == rasterNumber
    ensures r[11] == (if first then 0 else 1)
  {
    InfoHead + LE32(rasterNumber) + [if first then 0 else 1, 0x00]
  }

  /** `M 2` selects TIFF (PackBits) line compression, `M 0` none. */
  function CompressionMode(tiff: bool): (r: Bytes)
    ensures |r| == 2 && r[0] == ModeMarker
    ensures r[1] == 2 <==> tiff
    ensures r[1] == 0 <==> !tiff
  {
    [ModeMarker, if tiff then 0x02 else 0x00]
  }

  /** What is sent for one raster line: the PackBits form in TIFF mode, the
      bytes themselves otherwise. */
  function Payload(row: Bytes, tiff: bool): (p: Bytes)
    requires |row| <= 128
    ensures !tiff ==> p == row
    ensures |p| <= 2 * |row|
  {
    if tiff then PackBits.CompressedRow(row) else row
  }

  /** Either way the printer recovers the line from what is sent. */
  lemma PayloadDecodes(row: Bytes, tiff: bool)
    requires |row| <= 128
    ensures tiff ==> PackBits.Decode(Payload(row, tiff)) == Some(row)
  {
  }

  /** The header of a raster-line command: `G` and the payload length. */
  function RowHeader(payload: Bytes): (r: Bytes)
    requires |payload| < 0x1_0000
    ensures |r| == 3 && r[0] == RowMarker && U16(r[1], r[2]) == |payload|
  {
    [RowMarker] + LE16(|payload|)
  }

  /** The full command for one raster line. */
  function RowFrame(row: Bytes, tiff: bool): (r: Bytes)
    requires |row| <= 128
  {
    RowHeader(Payload(row, tiff)) + Payload(row, tiff)
  }

  /** `_empty_row`: the command for a blank raster line of `stripeCount`
      bytes. It is exactly the line command the column loop would send for an
      all-zero stripe, and in TIFF mode it is the five bytes
      `G 02 00 (1 - stripeCount) 00`, a single run. */
  function EmptyRow(stripeCount: nat, tiff: bool): (r: Bytes)
    requires 1 <= stripeCount <= 128
    ensures r == RowFrame(Zeros(stripeCount), tiff)
    ensures tiff ==> r == [RowMarker, 2, 0, SignedByte(1 - stripeCount), 0]
    ensures !tiff ==> |r| == 3 + stripeCount
  {
    if tiff then
      PackBits.ZeroRowCompression(stripeCount);
      var compressed := PackBits.Serialize(PackBits.CompressTiff(Zeros(stripeCount)));
      [RowMarker] + LE16(|compressed|) + compressed
    else
      [RowMarker] + LE16(stripeCount) + Zeros(stripeCount)
  }

  /** The stripe offset of an image: its rows are drawn at the bottom of the
      stripe, `stripeSize - height` dots down. */
  function Offset(img: Raster.Image, stripeSize: nat): int
  {
    stripeSize - img.height
  }

  /** The raster lines the column loop computes, one per column:
      `_raw_row` of column `x` at the image's offset. */
  function ImageRows(img: Raster.Image, stripeCount: nat, stripeSize: nat): (rows: seq<Bytes>)
    ensures |rows| == img.width
    ensures forall x :: 0 <= x < |rows| ==> |rows[x]| == stripeCount
  {
    seq(img.width, (x: nat) => Raster.RawRow(img, stripeCount, x, Offset(img, stripeSize)))
  }

  /** Every line fits one PackBits literal. */
  predicate ShortRows(rows: seq<Bytes>)
  {
    forall i :: 0 <= i < |rows| ==> |rows[i]| <= 128
  }

  /** The chunks the column loop yields for `rows`: a header chunk and a
      payload chunk per line. */
  function LineChunks(rows: seq<Bytes>, tiff: bool): (r: seq<Bytes>)
    requires ShortRows(rows)
    ensures |r| == 2 * |rows|
  {
    if |rows| == 0 then []
    else
      var p := Payload(rows[0], tiff);
      [RowHeader(p), p] + LineChunks(rows[1..], tiff)
  }

  /** The chunks of one loop iteration after the page break: print
      information, compression mode, the top margin as one chunk, the column
      lines, and the bottom margin, which repeats `top` blank lines as well. */
  function ImageChunks(rows: seq<Bytes>, rasterNumber: nat, first: bool, stripeCount: nat, top: nat, tiff: bool): seq<Bytes>
    requires rasterNumber < RasterLimit && 1 <= stripeCount <= 128 && ShortRows(rows)
  {
    [PrintInfo(rasterNumber, first), CompressionMode(tiff), RepeatBytes(EmptyRow(stripeCount, tiff), top)]
    + LineChunks(rows, tiff)
    + [RepeatBytes(EmptyRow(stripeCount, tiff), top)]
  }

  /** Why a job cannot be rendered: `struct.pack('<I', ...)` rejects a
      raster number of 2^32 or more. */
  datatype RenderError = RasterNumberTooLarge(rasterNumber: nat)

  /** The raster number of an image: its width plus both margins. */
  function RasterNumber(img: Raster.Image, top: nat, bottom: nat): nat
  {
    img.width + top + bottom
  }

  /** The chunks of the image loop for `images`; `first` is the loop's flag
      on entry. The flag is cleared before the print-information command reads
      it, so every page is announced as a non-first page. The bottom margin
      repeats `top` blank lines, as the loop does. */
  function RenderImages(images: seq<Raster.Image>, first: bool, stripeCount: nat, stripeSize: nat,
                        top: nat, bottom: nat, tiff: bool): (r: Result<seq<Bytes>, RenderError>)
    requires 1 <= stripeCount <= 128
    decreases |images|
  {
    if |images| == 0 then Success([])
    else
      var img := images[0];
      var separator: seq<Bytes> := if first then [] else [[PageBreak]];
      var first' := false;
      var rasterNumber := RasterNumber(img, top, bottom);
      if rasterNumber >= RasterLimit then Failure(RasterNumberTooLarge(rasterNumber))
      else
        match RenderImages(images[1..], first', stripeCount, stripeSize, top, bottom, tiff)
        case Failure(e) => Failure(e)
        case Success(rest) =>
          var rows := ImageRows(img, stripeCount, stripeSize);
          Success(separator + ImageChunks(rows, rasterNumber, first', stripeCount, top, tiff) + rest)
  }

  /** `render`: the chunks of a print job for `images` on printer `model`
      (`None` when no model is known), with `top` and `bottom` margins in dots
      and line compression on or off. */
  function Render(images: seq<Raster.Image>, model: Option<string>, top: nat, bottom: nat, tiff: bool)
    : Result<seq<Bytes>, RenderError>
  {
    var stripeSize := Profile.StripeSize(model);
    var stripeCount := Profile.StripeCount(model);
    match RenderImages(images, true, stripeCount, stripeSize, top, bottom, tiff)
    case Failure(e) => Failure(e)
    case Success(body) => Success(SetUp + body + [[PrintCommand]])
  }

  /** `cat`: the whole job as one byte string. */
  function Cat(images: seq<Raster.Image>, model: Option<string>, top: nat, bottom: nat, tiff: bool)
    : Result<Bytes, RenderError>
  {
    match Render(images, model, top, bottom, tiff)
    case Failure(e) => Failure(e)
    case Success(chunks) => Success(Flatten(chunks))
  }

  // The job as a flat byte string, stated line by line rather than chunk by
  // chunk.

  /** The line commands for `rows`, one after another. */
  function Frames(rows: seq<Bytes>, tiff: bool): Bytes
    requires ShortRows(rows)
  {
    if |rows| == 0 then [] else RowFrame(rows[0], tiff) + Frames(rows[1..], tiff)
  }

  /** `n` blank lines of `stripeCount` bytes. */
  function BlankRows(stripeCount: nat, n: nat): (rows: seq<Bytes>)
    ensures |rows| == n
    ensures forall i :: 0 <= i < n ==> rows[i] == Zeros(stripeCount)
  {
    seq(n, _ => Zeros(stripeCount))
  }

  /** The lines of one page: `top` blank lines, `rows`, and again `top`
      blank lines. */
  function Margined(rows: seq<Bytes>, stripeCount: nat, top: nat): seq<Bytes>
  {
    BlankRows(stripeCount, top) + rows + BlankRows(stripeCount, top)
  }

  /** The bytes of one page: print information, compression mode and the
      line commands of the margined lines. */
  function PageBlock(rows: seq<Bytes>, rasterNumber: nat, stripeCount: nat, top: nat, tiff: bool): Bytes
    requires rasterNumber < RasterLimit && stripeCount <= 128 && ShortRows(rows)
  {
    MarginedShort(rows, stripeCount, top);
    PrintInfo(rasterNumber, false) + CompressionMode(tiff) + Frames(Margined(rows, stripeCount, top), tiff)
  }

  lemma MarginedShort(rows: seq<Bytes>, stripeCount: nat, top: nat)
    requires stripeCount <= 128 && ShortRows(rows)
    ensures ShortRows(Margined(rows, stripeCount, top))
  {
  }

  /** The page blocks, a page break before each one unless `first`. */
  function JoinPages(blocks: seq<Bytes>, first: bool): Bytes
  {
    if |blocks| == 0 then []
    else (if first then [] else [PageBreak]) + blocks[0] + JoinPages(blocks[1..], false)
  }

  /** Whether every image's raster number fits its 32-bit field. */
  predicate Printable(images: seq<Raster.Image>, top: nat, bottom: nat)
  {
    forall i :: 0 <= i < |images| ==> RasterNumber(images[i], top, bottom) < RasterLimit
  }

  /** The pages of a printable job. */
  function Pages(images: seq<Raster.Image>, stripeCount: nat, stripeSize: nat, top: nat, bottom: nat, tiff: bool): (r: seq<Bytes>)
    requires stripeCount <= 128
    requires Printable(images, top, bottom)
    ensures |r| == |images|
  {
    if |images| == 0 then []
    else
      [PageBlock(ImageRows(images[0], stripeCount, stripeSize), RasterNumber(images[0], top, bottom), stripeCount, top, tiff)]
      + Pages(images[1..], stripeCount, stripeSize, top, bottom, tiff)
  }

  /** A page has `2 * top + width` lines of `stripeCount` bytes each: blank
      margins at both ends, the image's columns in order in between. */
  lemma PageLayout(img: Raster.Image, stripeCount: nat, stripeSize: nat, top: nat)
    ensures |Margined(ImageRows(img, stripeCount, stripeSize), stripeCount, top)| == 2 * top + img.width
    ensures forall i :: 0 <= i < 2 * top + img.width ==>
              |Margined(ImageRows(img, stripeCount, stripeSize), stripeCount, top)[i]| == stripeCount
    ensures forall i :: 0 <= i < top ==>
              Margined(ImageRows(img, stripeCount, stripeSize), stripeCount, top)[i] == Zeros(stripeCount)
    ensures forall i :: top <= i < top + img.width ==>
              Margined(ImageRows(img, stripeCount, stripeSize), stripeCount, top)[i]
              == Raster.RawRow(img, stripeCount, i - top, stripeSize - img.height)
    ensures forall i :: top + img.width <= i < 2 * top + img.width ==>
              Margined(ImageRows(img, stripeCount, stripeSize), stripeCount, top)[i] == Zeros(stripeCount)
  {
  }

  lemma {:induction false} FramesAppend(a: seq<Bytes>, b: seq<Bytes>, tiff: bool)
    requires ShortRows(a) && ShortRows(b)
    ensures ShortRows(a + b)
    ensures Frames(a + b, tiff) == Frames(a, tiff) + Frames(b, tiff)
    decreases |a|
  {
    assert ShortRows(a + b) by {
      forall i | 0 <= i < |a + b|
        ensures |(a + b)[i]| <= 128
      {
        if i >= |a| { assert (a + b)[i] == b[i - |a|]; }
      }
    }
    if |a| == 0 {
      assert a + b == b;
    } else {
      calc {
        Frames(a + b, tiff);
        { assert (a + b)[0] == a[0] && (a + b)[1..] == a[1..] + b; }
        RowFrame(a[0], tiff) + Frames(a[1..] + b, tiff);
        { FramesAppend(a[1..], b, tiff); }
        RowFrame(a[0], tiff) + (Frames(a[1..], tiff) + Frames(b, tiff));
        { Associate3(RowFrame(a[0], tiff), Frames(a[1..], tiff), Frames(b, tiff)); }
        Frames(a, tiff) + Frames(b, tiff);
      }
    }
  }

  /** The repeated `_empty_row` of a margin is the line commands of `n` blank
      lines. */
  lemma {:induction false} MarginFrames(stripeCount: nat, n: nat, tiff: bool)
    requires 1 <= stripeCount <= 128
    ensures ShortRows(BlankRows(stripeCount, n))
    ensures RepeatBytes(EmptyRow(stripeCount, tiff), n) == Frames(BlankRows(stripeCount, n), tiff)
  {
    if n > 0 {
      MarginFrames(stripeCount, n - 1, tiff);
      assert BlankRows(stripeCount, n)[1..] == BlankRows(stripeCount, n - 1);
    }
  }

  /** The column loop yields the line commands of its lines. */
  lemma {:induction false} LineFrames(rows: seq<Bytes>, tiff: bool)
    requires ShortRows(rows)
    ensures Flatten(LineChunks(rows, tiff)) == Frames(rows, tiff)
    decreases |rows|
  {
    if |rows| > 0 {
      var p := Payload(rows[0], tiff);
      var tail := LineChunks(rows[1..], tiff);
      calc {
        Flatten(LineChunks(rows, tiff));
        Flatten([RowHeader(p), p] + tail);
        { assert [RowHeader(p), p] + tail == [RowHeader(p)] + ([p] + tail);
          FlattenCons(RowHeader(p), [p] + tail);
          FlattenCons(p, tail); }
        RowHeader(p) + (p + Flatten(tail));
        { LineFrames(rows[1..], tiff);
          Associate3(RowHeader(p), p, Frames(rows[1..], tiff)); }
        RowHeader(p) + p + Frames(rows[1..], tiff);
        Frames(rows, tiff);
      }
    }
  }

  /** The chunks of one loop iteration flatten to its page block. */
  lemma ImageBytes(rows: seq<Bytes>, rasterNumber: nat, stripeCount: nat, top: nat, tiff: bool)
    requires rasterNumber < RasterLimit && 1 <= stripeCount <= 128 && ShortRows(rows)
    ensures Flatten(ImageChunks(rows, rasterNumber, false, stripeCount, top, tiff))
         == PageBlock(rows, rasterNumber, stripeCount, top, tiff)
  {
    var info := PrintInfo(rasterNumber, false);
    var mode := CompressionMode(tiff);
    var margin := RepeatBytes(EmptyRow(stripeCount, tiff), top);
    var lines := LineChunks(rows, tiff);
    var blank := BlankRows(stripeCount, top);
    var frames := Frames(rows, tiff);
    ImageChunksBytes(rows, rasterNumber, stripeCount, top, tiff);
    MarginedFrames(rows, stripeCount, top, tiff);
    Associate(info + mode, margin, frames, margin);
  }

  lemma ImageChunksBytes(rows: seq<Bytes>, rasterNumber: nat, stripeCount: nat, top: nat, tiff: bool)
    requires rasterNumber < RasterLimit && 1 <= stripeCount <= 128 && ShortRows(rows)
    ensures Flatten(ImageChunks(rows, rasterNumber, false, stripeCount, top, tiff))
         == PrintInfo(rasterNumber, false) + CompressionMode(tiff) + RepeatBytes(EmptyRow(stripeCount, tiff), top)
            + Frames(rows, tiff) + RepeatBytes(EmptyRow(stripeCount, tiff), top)
  {
    var margin := RepeatBytes(EmptyRow(stripeCount, tiff), top);
    var head := [PrintInfo(rasterNumber, false), CompressionMode(tiff), margin];
    LineFrames(rows, tiff);
    FlattenAround(head, LineChunks(rows, tiff), margin);
    FlattenThree(PrintInfo(rasterNumber, false), CompressionMode(tiff), margin);
  }

  lemma FlattenAround(head: seq<Bytes>, middle: seq<Bytes>, last: Bytes)
    ensures Flatten(head + middle + [last]) == Flatten(head) + Flatten(middle) + last
  {
    FlattenAppend(head + middle, [last]);
    FlattenAppend(head, middle);
    FlattenOne(last);
  }

  /** The margined lines' commands: the repeated `_empty_row` on both sides
      of the column lines. */
  lemma MarginedFrames(rows: seq<Bytes>, stripeCount: nat, top: nat, tiff: bool)
    requires 1 <= stripeCount <= 128 && ShortRows(rows)
    ensures ShortRows(Margined(rows, stripeCount, top))
    ensures Frames(Margined(rows, stripeCount, top), tiff)
         == RepeatBytes(EmptyRow(stripeCount, tiff), top) + Frames(rows, tiff)
            + RepeatBytes(EmptyRow(stripeCount, tiff), top)
  {
    var blank := BlankRows(stripeCount, top);
    MarginFrames(stripeCount, top, tiff);
    FramesAppend(blank, rows, tiff);
    FramesAppend(blank + rows, blank, tiff);
  }

  /** The image loop succeeds exactly when every raster number fits, and then
      its chunks flatten to the page blocks joined by page breaks. */
  lemma {:induction false} RenderImagesBytes(images: seq<Raster.Image>, first: bool, stripeCount: nat, stripeSize: nat,
                                             top: nat, bottom: nat, tiff: bool)
    requires 1 <= stripeCount <= 128
    requires Printable(images, top, bottom)
    ensures RenderImages(images, first, stripeCount, stripeSize, top, bottom, tiff).Success?
    ensures Flatten(RenderImages(images, first, stripeCount, stripeSize, top, bottom, tiff).value)
         == JoinPages(Pages(images, stripeCount, stripeSize, top, bottom, tiff), first)
    decreases |images|
  {
    if |images| > 0 {
      var img := images[0];
      RenderImagesBytes(images[1..], false, stripeCount, stripeSize, top, bottom, tiff);
      var rest := RenderImages(images[1..], false, stripeCount, stripeSize, top, bottom, tiff).value;
      var separator: seq<Bytes> := if first then [] else [[PageBreak]];
      var rows := ImageRows(img, stripeCount, stripeSize);
      var page := ImageChunks(rows, RasterNumber(img, top, bottom), false, stripeCount, top, tiff);
      RenderImagesStep(images, first, stripeCount, stripeSize, top, bottom, tiff);
      PagesStep(images, stripeCount, stripeSize, top, bottom, tiff);
      FlattenAround3(separator, page, rest);
      ImageBytes(rows, RasterNumber(img, top, bottom), stripeCount, top, tiff);
      if !first {
        FlattenOne([PageBreak]);
      }
    }
  }

  lemma FlattenAround3(a: seq<Bytes>, b: seq<Bytes>, c: seq<Bytes>)
    ensures Flatten(a + b + c) == Flatten(a) + Flatten(b) + Flatten(c)
  {
    FlattenAppend(a + b, c);
    FlattenAppend(a, b);
  }

  /** One turn of the image loop, when the rest of the images render. */
  lemma RenderImagesStep(images: seq<Raster.Image>, first: bool, stripeCount: nat, stripeSize: nat,
                         top: nat, bottom: nat, tiff: bool)
    requires 1 <= stripeCount <= 128 && |images| > 0
    requires RasterNumber(images[0], top, bottom) < RasterLimit
    requires RenderImages(images[1..], false, stripeCount, stripeSize, top, bottom, tiff).Success?
    ensures RenderImages(images, first, stripeCount, stripeSize, top, bottom, tiff)
         == Success((if first then [] else [[PageBreak]])
                    + ImageChunks(ImageRows(images[0], stripeCount, stripeSize),
                                  RasterNumber(images[0], top, bottom), false, stripeCount, top, tiff)
                    + RenderImages(images[1..], false, stripeCount, stripeSize, top, bottom, tiff).value)
  {
  }

  lemma PagesStep(images: seq<Raster.Image>, stripeCount: nat, stripeSize: nat, top: nat, bottom: nat, tiff: bool)
    requires stripeCount <= 128 && |images| > 0
    requires Printable(images, top, bottom)
    ensures Printable(images[1..], top, bottom)
    ensures Pages(images, stripeCount, stripeSize, top, bottom, tiff)[0]
         == PageBlock(ImageRows(images[0], stripeCount, stripeSize), RasterNumber(images[0], top, bottom),
                      stripeCount, top, tiff)
    ensures Pages(images, stripeCount, stripeSize, top, bottom, tiff)[1..]
         == Pages(images[1..], stripeCount, stripeSize, top, bottom, tiff)
  {
    assert Printable(images[1..], top, bottom) by {
      forall k | 0 <= k < |images| - 1
        ensures RasterNumber(images[1..][k], top, bottom) < RasterLimit
      {
        assert images[1..][k] == images[k + 1];
      }
    }
  }

  /** `render` fails exactly when some image's raster number does not fit
      32 bits, and it reports the first such image's. */
  lemma {:induction false} RenderImagesFails(images: seq<Raster.Image>, first: bool, stripeCount: nat, stripeSize: nat,
                                             top: nat, bottom: nat, tiff: bool)
    requires 1 <= stripeCount <= 128
    ensures RenderImages(images, first, stripeCount, stripeSize, top, bottom, tiff).Failure?
        <==> !Printable(images, top, bottom)
    ensures RenderImages(images, first, stripeCount, stripeSize, top, bottom, tiff).Failure? ==>
              exists i :: 0 <= i < |images| && Printable(images[..i], top, bottom)
                          && RenderImages(images, first, stripeCount, stripeSize, top, bottom, tiff).error
                             == RasterNumberTooLarge(RasterNumber(images[i], top, bottom))
                          && RasterNumber(images[i], top, bottom) >= RasterLimit
    decreases |images|
  {
    if |images| > 0 {
      RenderImagesFails(images[1..], false, stripeCount, stripeSize, top, bottom, tiff);
      var r := RenderImages(images, first, stripeCount, stripeSize, top, bottom, tiff);
      if RasterNumber(images[0], top, bottom) >= RasterLimit {
        assert Printable(images[..0], top, bottom);
      } else {
        if r.Failure? {
          var i :| 0 <= i < |images[1..]| && Printable(images[1..][..i], top, bottom)
                   && r.error == RasterNumberTooLarge(RasterNumber(images[1..][i], top, bottom))
                   && RasterNumber(images[1..][i], top, bottom) >= RasterLimit;
          assert images[..i + 1] == [images[0]] + images[1..][..i];
          assert Printable(images[..i + 1], top, bottom);
        }
        assert Printable(images, top, bottom) <==> Printable(images[1..], top, bottom) by {
          if Printable(images[1..], top, bottom) {
            forall k | 0 <= k < |images|
              ensures RasterNumber(images[k], top, bottom) < RasterLimit
            {
              if k > 0 { assert images[k] == images[1..][k - 1]; }
            }
          }
        }
      }
    }
  }

  /** `cat` on a printable job: the set-up commands, the pages separated by
      form feeds, and the print command, nothing else. */
  lemma CatLayout(images: seq<Raster.Image>, model: Option<string>, top: nat, bottom: nat, tiff: bool)
    requires Printable(images, top, bottom)
    ensures Cat(images, model, top, bottom, tiff)
         == Success(Preamble
                    + JoinPages(Pages(images, Profile.StripeCount(model), Profile.StripeSize(model), top, bottom, tiff), true)
                    + [PrintCommand])
  {
    var sc, ss := Profile.StripeCount(model), Profile.StripeSize(model);
    RenderImagesBytes(images, true, sc, ss, top, bottom, tiff);
    var body := RenderImages(images, true, sc, ss, top, bottom, tiff).value;
    FlattenAround(SetUp, body, [PrintCommand]);
    SetUpBytes();
  }

  /** The set-up chunks are the preamble. */
  lemma SetUpBytes()
    ensures Flatten(SetUp) == Preamble
  {
    FlattenCons(Init, [RasterMode, NoAutoCut, ZeroMargin]);
    FlattenCons(RasterMode, [NoAutoCut, ZeroMargin]);
    FlattenCons(NoAutoCut, [ZeroMargin]);
    FlattenOne(ZeroMargin);
    assert SetUp == [Init] + [RasterMode, NoAutoCut, ZeroMargin];
    assert [RasterMode, NoAutoCut, ZeroMargin] == [RasterMode] + [NoAutoCut, ZeroMargin];
    assert [NoAutoCut, ZeroMargin] == [NoAutoCut] + [ZeroMargin];
  }

  /** `cat` fails exactly when some image's raster number does not fit. */
  lemma CatFails(images: seq<Raster.Image>, model: Option<string>, top: nat, bottom: nat, tiff: bool)
    ensures Cat(images, model, top, bottom, tiff).Failure? <==> !Printable(images, top, bottom)
  {
    RenderImagesFails(images, true, Profile.StripeCount(model), Profile.StripeSize(model), top, bottom, tiff);
  }
}

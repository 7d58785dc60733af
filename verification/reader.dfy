/** A printer-side reading of a job: parses the byte stream `cat` produces
    back into pages of raster lines. Its lemmas show that whatever `render`
    emits reads back as the intended pages. */
module JobReader {
  import opened Wrappers
  import opened Bytes
  import PackBits
  import Raster
  import Profile
  import opened Framer

  /** A page as the printer sees it: the announced raster number, the
      starting-page byte, the compression mode and the decoded lines. */
  datatype Page = Page(rasterNumber: nat, startingPage: byte, tiff: bool, rows: seq<Bytes>)

  /** Reads line commands (`G`, a little-endian length, the payload) until a
      byte other than `G`, decoding each payload when `tiff` is set; returns
      the lines and what follows them. */
  function ReadFrames(s: Bytes, tiff: bool): (r: Option<(seq<Bytes>, Bytes)>)
    ensures r.Some? ==> |r.value.1| <= |s|
    decreases |s|
  {
    if |s| == 0 || s[0] != RowMarker then Some(([], s))
    else if |s| < 3 then None
    else
      var n := U16(s[1], s[2]);
      if |s| < 3 + n then None
      else
        var payload := s[3..3 + n];
        var line := if tiff then PackBits.Decode(payload) else Some(payload);
        match line
        case None => None
        case Some(row) =>
          match ReadFrames(s[3 + n..], tiff)
          case None => None
          case Some((rows, rest)) => Some(([row] + rows, rest))
  }

  /** Reads one page: the print-information command, the compression mode
      and the line commands. */
  function ReadPage(s: Bytes): (r: Option<(Page, Bytes)>)
    ensures r.Some? ==> |r.value.1| < |s|
  {
    if |s| < 15 || s[..7] != InfoHead || s[12] != 0 || s[13] != ModeMarker || (s[14] != 0 && s[14] != 2) then None
    else
      var tiff := s[14] == 2;
      match ReadFrames(s[15..], tiff)
      case None => None
      case Some((rows, rest)) => Some((Page(U32(s[7], s[8], s[9], s[10]), s[11], tiff, rows), rest))
  }

  /** Reads pages separated by form feeds up to the closing print command. */
  function ReadPages(s: Bytes): (r: Option<seq<Page>>)
    decreases |s|
  {
    match ReadPage(s)
    case None => None
    case Some((page, rest)) =>
      if rest == [PrintCommand] then Some([page])
      else if |rest| > 0 && rest[0] == PageBreak then
        match ReadPages(rest[1..])
        case None => None
        case Some(pages) => Some([page] + pages)
      else None
  }

  /** Reads a whole job: the set-up commands, the pages and the print
      command. */
  function ReadJob(s: Bytes): Option<seq<Page>>
  {
    if |s| < |Preamble| || s[..|Preamble|] != Preamble then None
    else
      var body := s[|Preamble|..];
      if body == [PrintCommand] then Some([]) else ReadPages(body)
  }

  /** The pages a job of `images` is meant to print: each announces its
      raster number (width plus both margins) and the starting-page byte 1,
      and carries the margined column lines. */
  function JobPages(images: seq<Raster.Image>, stripeCount: nat, stripeSize: nat, top: nat, bottom: nat, tiff: bool)
    : (r: seq<Page>)
    ensures |r| == |images|
  {
    if |images| == 0 then []
    else
      [Page(RasterNumber(images[0], top, bottom), 1, tiff,
            Margined(ImageRows(images[0], stripeCount, stripeSize), stripeCount, top))]
      + JobPages(images[1..], stripeCount, stripeSize, top, bottom, tiff)
  }

  /** One line command reads back as its line, ahead of whatever follows. */
  lemma ReadFrameStep(p: Bytes, row: Bytes, tiff: bool, tail: Bytes)
    requires |p| < 0x1_0000
    requires if tiff then PackBits.Decode(p) == Some(row) else p == row
    ensures ReadFrames(RowHeader(p) + p + tail, tiff)
         == match ReadFrames(tail, tiff)
            case None => None
            case Some((rows, rest)) => Some(([row] + rows, rest))
  {
    var s := RowHeader(p) + p + tail;
    assert s[0] == RowMarker && U16(s[1], s[2]) == |p|;
    assert s[3..3 + |p|] == p;
    assert s[3 + |p|..] == tail;
  }

  /** Line commands read back as the lines they carry. */
  lemma {:induction false} ReadFramesBack(rows: seq<Bytes>, tiff: bool, rest: Bytes)
    requires ShortRows(rows)
    requires |rest| == 0 || rest[0] != RowMarker
    ensures ReadFrames(Frames(rows, tiff) + rest, tiff) == Some((rows, rest))
    decreases |rows|
  {
    if |rows| == 0 {
      assert Frames(rows, tiff) + rest == rest;
    } else {
      var p := Payload(rows[0], tiff);
      var tail := Frames(rows[1..], tiff) + rest;
      calc {
        ReadFrames(Frames(rows, tiff) + rest, tiff);
        { assert Frames(rows, tiff) + rest == RowHeader(p) + p + tail; }
        ReadFrames(RowHeader(p) + p + tail, tiff);
        { PayloadDecodes(rows[0], tiff);
          ReadFrameStep(p, rows[0], tiff, tail);
          ReadFramesBack(rows[1..], tiff, rest); }
        Some(([rows[0]] + rows[1..], rest));
        { assert [rows[0]] + rows[1..] == rows; }
        Some((rows, rest));
      }
    }
  }

  /** A page's head reads back as its raster number, starting-page byte and
      mode, ahead of its line commands. */
  lemma ReadPageStep(rasterNumber: nat, tiff: bool, tail: Bytes)
    requires rasterNumber < RasterLimit
    ensures ReadPage(PrintInfo(rasterNumber, false) + CompressionMode(tiff) + tail)
         == match ReadFrames(tail, tiff)
            case None => None
            case Some((rows, rest)) => Some((Page(rasterNumber, 1, tiff, rows), rest))
  {
    var info := PrintInfo(rasterNumber, false);
    var mode := CompressionMode(tiff);
    var s := info + mode + tail;
    assert s[..7] == info[..7] && s[7..11] == info[7..11] && s[11] == info[11] && s[12] == info[12];
    assert s[13] == mode[0] && s[14] == mode[1];
    assert s[15..] == tail;
  }

  /** A page block reads back as its page. */
  lemma ReadPageBack(rows: seq<Bytes>, rasterNumber: nat, stripeCount: nat, top: nat, tiff: bool, rest: Bytes)
    requires rasterNumber < RasterLimit && 1 <= stripeCount <= 128 && ShortRows(rows)
    requires |rest| == 0 || rest[0] != RowMarker
    ensures ReadPage(PageBlock(rows, rasterNumber, stripeCount, top, tiff) + rest)
         == Some((Page(rasterNumber, 1, tiff, Margined(rows, stripeCount, top)), rest))
  {
    var lines := Margined(rows, stripeCount, top);
    MarginedShort(rows, stripeCount, top);
    var head := PrintInfo(rasterNumber, false) + CompressionMode(tiff);
    var frames := Frames(lines, tiff);
    assert PageBlock(rows, rasterNumber, stripeCount, top, tiff) + rest == head + (frames + rest);
    ReadPageStep(rasterNumber, tiff, frames + rest);
    ReadFramesBack(lines, tiff, rest);
  }

  lemma JoinPagesLater(blocks: seq<Bytes>)
    requires |blocks| > 0
    ensures JoinPages(blocks, false) == [PageBreak] + JoinPages(blocks, true)
  {
  }

  /** Whether `block` reads back as `page`, whatever non-line bytes follow. */
  ghost predicate ReadsAs(block: Bytes, page: Page)
  {
    forall rest: Bytes {:trigger ReadPage(block + rest)} :: (|rest| == 0 || rest[0] != RowMarker) ==>
      ReadPage(block + rest) == Some((page, rest))
  }

  /** Page blocks joined by form feeds and closed by the print command read
      back as their pages. */
  lemma {:induction false} ReadJoinedBack(blocks: seq<Bytes>, pages: seq<Page>)
    requires |blocks| == |pages| > 0
    requires forall i :: 0 <= i < |blocks| ==> ReadsAs(blocks[i], pages[i])
    ensures ReadPages(JoinPages(blocks, true) + [PrintCommand]) == Some(pages)
    decreases |blocks|
  {
    var rest := JoinPages(blocks[1..], false) + [PrintCommand];
    assert JoinPages(blocks, true) + [PrintCommand] == blocks[0] + rest;
    if |blocks| == 1 {
      calc {
        ReadPages(blocks[0] + rest);
        { assert rest == [PrintCommand];
          UseReadsAs(blocks[0], pages[0], rest);
          LastPage(blocks[0] + rest, pages[0]); }
        Some([pages[0]]);
        { assert pages == [pages[0]]; }
        Some(pages);
      }
    } else {
      var t := JoinPages(blocks[1..], true) + [PrintCommand];
      calc {
        ReadPages(blocks[0] + rest);
        { JoinPagesLater(blocks[1..]);
          assert rest == [PageBreak] + t;
          UseReadsAs(blocks[0], pages[0], rest);
          ReadJoinedBack(blocks[1..], pages[1..]);
          MorePages(blocks[0] + rest, pages[0], t); }
        Some([pages[0]] + pages[1..]);
        { assert pages == [pages[0]] + pages[1..]; }
        Some(pages);
      }
    }
  }

  lemma UseReadsAs(block: Bytes, page: Page, rest: Bytes)
    requires ReadsAs(block, page)
    requires |rest| == 0 || rest[0] != RowMarker
    ensures ReadPage(block + rest) == Some((page, rest))
  {
  }

  /** Every page block of a job reads back as its intended page. */
  lemma {:induction false} PagesReadBack(images: seq<Raster.Image>, stripeCount: nat, stripeSize: nat,
                                         top: nat, bottom: nat, tiff: bool)
    requires 1 <= stripeCount <= 128
    requires Printable(images, top, bottom)
    ensures forall i :: 0 <= i < |images| ==>
              ReadsAs(Pages(images, stripeCount, stripeSize, top, bottom, tiff)[i],
                      JobPages(images, stripeCount, stripeSize, top, bottom, tiff)[i])
    decreases |images|
  {
    if |images| > 0 {
      var pages := Pages(images, stripeCount, stripeSize, top, bottom, tiff);
      var job := JobPages(images, stripeCount, stripeSize, top, bottom, tiff);
      PagesStep(images, stripeCount, stripeSize, top, bottom, tiff);
      PagesReadBack(images[1..], stripeCount, stripeSize, top, bottom, tiff);
      assert job[1..] == JobPages(images[1..], stripeCount, stripeSize, top, bottom, tiff);
      var rows := ImageRows(images[0], stripeCount, stripeSize);
      var rasterNumber := RasterNumber(images[0], top, bottom);
      forall rest: Bytes | |rest| == 0 || rest[0] != RowMarker
        ensures ReadPage(pages[0] + rest) == Some((job[0], rest))
      {
        ReadPageBack(rows, rasterNumber, stripeCount, top, tiff, rest);
      }
      forall i | 1 <= i < |images|
        ensures ReadsAs(pages[i], job[i])
      {
        assert pages[i] == pages[1..][i - 1] && job[i] == job[1..][i - 1];
      }
    }
  }

  lemma LastPage(s: Bytes, page: Page)
    requires ReadPage(s) == Some((page, [PrintCommand]))
    ensures ReadPages(s) == Some([page])
  {
  }

  lemma MorePages(s: Bytes, page: Page, t: Bytes)
    requires ReadPage(s) == Some((page, [PageBreak] + t))
    requires ReadPages(t).Some?
    ensures ReadPages(s) == Some([page] + ReadPages(t).value)
  {
    assert ([PageBreak] + t)[1..] == t;
  }

  /** The end-to-end reading of `cat`: a printable job reads back as one
      page per image, in order, each announcing width plus both margins as
      its raster number and 1 as its starting-page byte, and carrying
      `2 * top + width` lines (see `Framer.PageLayout`). */
  lemma CatReadsBack(images: seq<Raster.Image>, model: Option<string>, top: nat, bottom: nat, tiff: bool)
    requires Printable(images, top, bottom)
    ensures Cat(images, model, top, bottom, tiff).Success?
    ensures ReadJob(Cat(images, model, top, bottom, tiff).value)
         == Some(JobPages(images, Profile.StripeCount(model), Profile.StripeSize(model), top, bottom, tiff))
  {
    var sc, ss := Profile.StripeCount(model), Profile.StripeSize(model);
    CatLayout(images, model, top, bottom, tiff);
    var body := JoinPages(Pages(images, sc, ss, top, bottom, tiff), true) + [PrintCommand];
    var s := Preamble + body;
    assert Cat(images, model, top, bottom, tiff).value == s;
    assert s[..|Preamble|] == Preamble && s[|Preamble|..] == body;
    if |images| > 0 {
      PagesReadBack(images, sc, ss, top, bottom, tiff);
      ReadJoinedBack(Pages(images, sc, ss, top, bottom, tiff), JobPages(images, sc, ss, top, bottom, tiff));
      PagesStep(images, sc, ss, top, bottom, tiff);
      assert |body| > 1;
    }
  }
}

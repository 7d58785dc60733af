# rasterprynt protocol encoder, modelled in Dafny

This project models the byte-stream encoder of `rasterprynt.py`, which turns
images into jobs for Brother P-touch raster label printers (the P950NW and the
9800PCN). It covers four parts:

- **Row compressor** (`_compress_tiff`). Brother's "TIFF" line compression is
  PackBits, from section 9 of the TIFF 6.0 specification. Module `PackBits`
  holds the encoder, the chunks it yields, how they serialize, and the
  printer-side decoder.
- **Row rasterizer** (`_raw_row`). One image column becomes `stripe_count`
  bytes, eight vertically stacked dots per byte, most significant bit first. A
  dot prints when the pixel's luminance is at most 230. Module `Raster`.
- **Printer profile** (`STRIPE_SIZE`). The stripe height for each printer
  model. Module `Profile`.
- **Job framer** (`_empty_row`, `render`, `cat`). Module `Framer` holds:
  - the set-up commands;
  - per image: a print-information command, a compression-mode command, the
    margin lines, and one `G` line command per column;
  - form feeds between images and the closing print command.

Module `JobReader` is a printer-side reading of the stream. It parses a job
back into pages of decoded lines. The main theorem, `JobReader.CatReadsBack`,
says that every job `cat` produces reads back as the intended pages.

Files:

- `wrappers.dfy`: `Option` and `Result`.
- `bytes.dfy`: bytes, `struct.pack` field encodings, `b''.join`.
- `packbits.dfy`: the compressor.
- `raster.dfy`: the rasterizer.
- `profile.dfy`: the printer profile.
- `framer.dfy`: `render` and `cat`.
- `reader.dfy`: the printer-side reader.

How the model represents the source:

- Bytes are integers `0 <= x < 256`. Fixed-width fields are written out
  (`LE16`, `LE32`, `SignedByte`).
- The module constant `USE_TIFF` becomes a `tiff: bool` parameter, so both
  compression modes are modelled.
- The printer model is an `Option<string>` input.
- `render` yields chunks. `Render` returns them as a `seq<Bytes>`, and `Cat`
  returns their concatenation. Both are wrapped in a `Result`.
- `struct.pack('<I', ...)` raises on a raster number of 2^32 or more. That
  error is the `Failure` case, and it aborts `cat`.

Two behaviours of the code are kept as written:

- **Starting-page byte.** `first` is cleared before the print-information
  command reads it. So the starting-page byte is 1 for every image, the first
  one included.
- **Bottom margin.** The bottom margin repeats `top_margin` blank lines.
  `bottom_margin` only enters the raster number.

## Model

| member | source | states |
|---|---|---|
| PackBits.CompressedRow | rasterprynt.py:68-91 | Decoding the concatenated chunks of a row of at most 128 bytes with the PackBits rule gives back exactly that row. The output is never longer than twice the row. |
| PackBits.CompressTiffRoundTrip | rasterprynt.py:68-91 | For rows of at most 128 bytes, every chunk fits its signed header, and decoding the serialized chunks gives back the row. |
| PackBits.CompressTiffExpands | rasterprynt.py:68-91 | The chunks spell out the whole row in order: nothing is lost, repeated or reordered, whatever the row's length. |
| PackBits.CompressTiffWellFormed | rasterprynt.py:76-91 | For rows of at most 128 bytes, every run header lies in -127..-1. Every literal header equals the literal's length minus one. |
| PackBits.CompressTiffCanonical | rasterprynt.py:71-87 | The chunks have the encoder's shape. Literals are nonempty with no two equal neighbours. Runs cover at least two bytes. A literal is always followed by a run. The bytes on either side of a chunk boundary differ, so every run is maximal. |
| PackBits.CompressTiffIsTheCanonicalSpelling | rasterprynt.py:68-91 | Any chunk sequence with that shape that spells the row is exactly what the compressor yields. So the shape fully determines the output. |
| PackBits.CanonicalUnique | rasterprynt.py:68-91 | Two chunk sequences of that shape that spell the same bytes are equal. |
| PackBits.RunCountMaximal | rasterprynt.py:72-74 | The inner scan counts copies of `row[pos]`. It stops at the end of the row or before a different byte. |
| PackBits.DecodeSerialize | rasterprynt.py:79-82 | Serialized chunks with headers in range decode to the bytes the chunks stand for. |
| PackBits.LongRunBreaksRoundTrip | rasterprynt.py:72-85 | 129 zero bytes compress to one run of count 128. That run is outside the well-formed range, and its two bytes `(-128, 0)` do not decode back to the row, because decoders skip the header -128. |
| PackBits.ZeroRowCompression | rasterprynt.py:110-113 | For 1 <= N <= 128, N zero bytes compress to exactly the two bytes `(1 - N as a signed byte, 0)`. This is the assertion in `_empty_row`. |
| Raster.RawRow | rasterprynt.py:95-107 | The column yields exactly `stripeCount` bytes. Bit `7 - j` of byte `i` is set exactly when row `8i + j - yOffset` of column `x` is inside the image and its pixel prints. |
| Raster.StripeByte | rasterprynt.py:96-107 | One stripe byte: its bit `7 - j` is set exactly when dot `j` of the stripe prints. |
| Raster.PackDotsBit | rasterprynt.py:97-106 | After `k` passes of the inner loop, dot `j`'s bit is set exactly when `j < k` and the dot prints. Other dots' bits are untouched. |
| Raster.LightImageBlankRow | rasterprynt.py:99-107 | An image with no printed pixel yields an all-zero stripe, for every column and offset. |
| Raster.DarkImageCoverage | rasterprynt.py:99-106 | For an image dark everywhere, a bit is set exactly when the column exists and the row lies in `0..height`. This is the height clipping. |
| Profile.StripeSize | rasterprynt.py:19-23 | The 9800PCN gets 312 dots. Every other model gets 408: the P950NW, an unknown name, `'error'` or no model at all. The size is a multiple of 8. |
| Profile.StripeCount | rasterprynt.py:135-137 | The byte count per stripe is 39 or 51. Eight times it is the stripe size, and it fits one PackBits chunk. |
| Framer.PrintInfo | rasterprynt.py:157-165 | The print-information command is 13 bytes: `ESC i z C0 00 00 00`, the raster number as 32-bit little-endian, the starting-page byte (0 for a first page, 1 otherwise), and 0. |
| Framer.CompressionMode | rasterprynt.py:167-170 | The mode command is `M 02` exactly when TIFF is selected and `M 00` otherwise. |
| Framer.EmptyRow | rasterprynt.py:110-116 | A blank line is the same command the column loop sends for an all-zero stripe. In TIFF mode it is the five bytes `G 02 00 (1 - stripeCount) 00`. Uncompressed, it is `stripeCount + 3` bytes. |
| Framer.PayloadDecodes | rasterprynt.py:181-184 | In TIFF mode the printer recovers each line from its compressed payload. |
| Framer.LineFrames | rasterprynt.py:176-187 | The header and payload chunks of the column loop join to one `G`, length, payload command per line, in column order. |
| Framer.MarginFrames | rasterprynt.py:174 | `_empty_row(...) * top_margin` is the line commands of `top_margin` blank lines. |
| Framer.PageLayout | rasterprynt.py:172-191 | A page has `2 * top + width` lines, each `stripeCount` bytes: `top` blank lines, column `x` drawn at offset `stripeSize - height`, then `top` blank lines again. |
| Framer.ImageBytes | rasterprynt.py:157-191 | One image's chunks join to its page block: print information, mode, then the line commands of the margined lines. |
| Framer.RenderImagesBytes | rasterprynt.py:145-191 | When every raster number fits, the image loop succeeds. Its chunks join to the page blocks in input order, with a form feed before every block but the first. |
| Framer.RenderImagesFails | rasterprynt.py:155-165 | The image loop fails exactly when some image's `width + top + bottom` is 2^32 or more. It reports the first such image's raster number. |
| Framer.SetUpBytes | rasterprynt.py:139-143 | The set-up chunks are `ESC @`, `ESC i a 01`, `ESC i M 00`, `ESC i d 00 00`, in that order. |
| Framer.CatLayout | rasterprynt.py:139-198 | A printable job is the set-up commands, then the page blocks separated by single form feeds, then `0x1a`. Nothing else is in it. |
| Framer.CatFails | rasterprynt.py:155-198 | `cat` fails exactly when some raster number does not fit 32 bits. |
| JobReader.ReadFramesBack | rasterprynt.py:181-187 | Line commands parse back as the lines they carry, up to the first byte that is not `G`. |
| JobReader.ReadPageBack | rasterprynt.py:157-191 | A page block parses back as a page with its raster number, starting-page byte 1, its compression mode and its margined lines. |
| JobReader.ReadJoinedBack | rasterprynt.py:145-150 | Page blocks joined by form feeds and closed by `0x1a` parse back as their pages, in order. |
| JobReader.CatReadsBack | rasterprynt.py:196-198 | Every printable job from `cat` parses back as one page per image, in order. Each page announces `width + top + bottom` lines and starting-page byte 1, and carries `top` blank lines, the rasterized columns, and `top` blank lines. |

## Left out

- `detect_printer_model`, `_detect_printer_model_uncached` and the
  `_PRINTER_BY_IP` cache: these are an HTTP probe and process-wide state. The
  printer model is an input instead.
- `print`: it writes the job to a TCP socket on port 9100, which is I/O.
- PIL image objects and `img.load()`. An image is its width, its height and a
  total pixel function. Each pixel is a grey level or an RGB triple. Tuples of
  other lengths, such as RGBA or LA pixels, whose channels Python also sums
  (all of them, alpha included), are not modelled.
- Float division in `sum(color) / 3`. It is replaced by the exact integer
  test `r + g + b <= 690`, which agrees with it. Python 2's integer division,
  which would also print the sums 691 and 692, is not modelled.
- Generator laziness. `render` is modelled as the finished chunk sequence. When
  a raster number overflows, Python has already yielded the earlier chunks.
  The model reports only the failure.
- Negative margins. Python accepts them; `top` and `bottom` are `nat` here.
- PackBits.CompressedRow: the compressor is modelled for any row, but the
  compressed row only for rows of at most 128 bytes. A longer row makes
  `struct.pack('!b', ...)` raise only when it holds a literal span of more
  than 128 bytes or a run of more than 129 bytes; rows of short runs and short
  literals go through at any length. A run of exactly 129 equal bytes is
  emitted with header -128, which the decoder here skips, so the round trip
  fails for such a row (`PackBits.LongRunBreaksRoundTrip`). Stripes are at most 51 bytes, so `render` never
  reaches any of these cases.
- PackBits.Decode: a header of -128 is skipped, as TIFF 6.0 section 9 says.
  The encoder never emits it for rows of at most 128 bytes.
- The pixel error path. A failing `img.load()` or pixel read aborts the job in
  Python. Pixels here are a total function and cannot fail.

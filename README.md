# PNG texture loader, modelled in Dafny

This project models `lib/png_reader.c`, the texture loader of an OpenGL
parallax-mapping demo. `read_png` opens a file, checks the eight-byte PNG
signature (section 5.2 of the PNG Specification, Second Edition,
ISO/IEC 15948:2003), has libpng decode the image with the
`STRIP_16 | PACKING | EXPAND` transforms, rejects images whose bit depth is
not 8 and gray+alpha (two-channel) images, and copies the decoded scanlines
from the last to the first into one flat buffer of
`channels * width * height` bytes. `print_png` writes a one-line description
of the result.

- `png_reader.dfy`, module `PngReader`: the data model (`PngData` mirrors
  `png_data_t`; `DecodedImage` is what libpng reports), the method `ReadPng`
  (the gates, then the copy as the outer loop `CopyRowsFlipped` and the inner
  loop `CopyRow` over an `array<byte>` with an explicit write position), the specification function
  `Flipped` (the decoder rows in reverse order, concatenated) and the lemmas
  that make it a vertical flip scanline by scanline.
- `png_summary.dfy`, module `PngSummary`: `print_png` as the pure function
  `Summary`, `%d` as `Decimal`, and a parser `ParseSummary` proved to read
  every field back from the line.

libpng is not modelled. Its results are the inputs of `ReadPng`: a `PngFile`
is either unopenable or holds the eight header bytes and a `DecoderOutcome`
(decoder creation failed, decoding long-jumped to the error trap, or a
`DecodedImage` with bit depth, channel count, width, height, `rowbytes` and
the rows). `DecodedImage.WellFormed` states what libpng guarantees of its
output: `height` rows of `rowbytes` bytes each, one to four channels, and at
depth 8 `rowbytes == channels * width`. The code never checks the last fact;
the buffer it allocates is only large enough because of it.

Not every failure path releases the decoder and the file; see "Left out".

## Model

| member | source | states |
|---|---|---|
| `PngReader.ReadPng` | lib/png_reader.c:11-117 | NULL (None) exactly when the file cannot be opened, the header differs from the PNG signature, libpng fails, the bit depth is not 8 or there are two channels; on success the channel count, width and height are libpng's, the channel count is 1, 3 or 4, the buffer is fresh and holds `channels*width*height` bytes, scanline k equals decoder row `height-1-k`, and `has_alpha` holds iff there are four channels |
| `PngReader.SignatureMatches` | lib/png_reader.c:30-31 | the `png_sig_cmp` test on the eight header bytes passes exactly when they are the PNG signature 137 80 78 71 13 10 26 10 |
| `PngReader.Flipped` | lib/png_reader.c:90-109 | the reference for the copy: the decoder rows from the last to the first, concatenated; its length and scanlines are stated by `FlippedLength` and `FlippedScanlines` |
| `PngReader.CopyRowsFlipped` | lib/png_reader.c:90-92 | the outer loop, with `r` counting down from `height-1` to 0, leaves the whole buffer equal to `Flipped(rows)` |
| `PngReader.CopyRow` | lib/png_reader.c:93-108 | the inner loop appends row r byte by byte at the write position, advances it by `rowbytes`, and leaves the bytes before and after untouched; the in-loop two-channel return cannot be reached once two channels are rejected |
| `PngReader.FlippedLength` | lib/png_reader.c:88 | rows of `rowbytes` bytes flip into exactly `height*rowbytes` bytes, the size of the allocated buffer |
| `PngReader.FlippedScanline` | lib/png_reader.c:90-109 | scanline k of the flipped buffer is decoder row `height-1-k`, byte for byte |
| `PngReader.FlippedScanlines` | lib/png_reader.c:90-109 | the same for every scanline at once |
| `PngReader.FlippedStep` | lib/png_reader.c:90-97 | copying row r after rows `r+1 .. height-1` extends their flip by row r |
| `PngSummary.Decimal` | lib/png_reader.c:125 | `%d` of a non-negative value is a non-empty run of digits without a leading zero |
| `PngSummary.DecimalValue` | lib/png_reader.c:125 | the digits `%d` writes denote the value written |
| `PngSummary.ParseNumberDecimal` | lib/png_reader.c:125 | a number written by `%d` and followed by a non-digit is read back whole, with the rest of the line intact |
| `PngSummary.Summary` | lib/png_reader.c:124-127 | `print_png`'s line; what it promises is stated by `SummaryBrackets`, `SummaryRoundTrip`, `SummaryInjective` and `SummaryAlphaSuffix` |
| `PngSummary.SummaryBrackets` | lib/png_reader.c:125 | the line starts with `PNG[Size=` and ends with `]` and a newline |
| `PngSummary.SummaryRoundTrip` | lib/png_reader.c:124-127 | parsing the line `print_png` writes gives back width, height, channel count and alpha flag |
| `PngSummary.SummaryInjective` | lib/png_reader.c:124-127 | two images with the same line agree on width, height, channel count and alpha flag |
| `PngSummary.SummaryAlphaSuffix` | lib/png_reader.c:125-126 | the line ends in `,Alpha=TRUE]` and a newline exactly when `has_alpha` is set |
| `PngSummary.OptionalTagSuffix` | lib/png_reader.c:125-126 | a line whose optional tag ends in a non-digit and follows a number ends in tag and closing exactly when the tag is written; the general form of `SummaryAlphaSuffix` |

## Left out

- libpng itself (`png_sig_cmp`'s general form, `png_create_*`, `png_read_png` and its transforms, inflate, chunk parsing, CRC, `png_get_*`): foreign code, its results are inputs. The model does not claim that the transforms make the depth 8; it keeps the check.
- The `setjmp`/`longjmp` error trap: non-local control flow; its effect, a NULL result, is the `ReadAborted` outcome.
- File handling (`fopen`, the unchecked `fread` of the header, `fclose`): I/O. The header is taken to be exactly eight bytes; short reads are not modelled.
- The diagnostics written to stderr on each failure path: output only.
- Resource release: the depth and channel rejections (lines 70-80) and the in-loop two-channel return (lines 99-103) skip `png_destroy_read_struct`, that return also leaves the pixel buffer allocated, and `free_png` (lines 120-122) frees the record but not `pixelData`. Memory is not modelled, so neither these leaks nor `free_png` are.
- PngReader.ReadPng: does not model the C `int` arithmetic of `numChannels * width * height` (line 88) or the `int` conversion of `rowbytes` (line 92). The model's integers are unbounded, so it assumes the product fits in an `int`. Beyond that the C code computes a wrong buffer size: a 25,000 by 25,000 RGBA image, within the limits of the PNG format and of libpng, gives 2.5 * 10^9 > INT_MAX, so the `malloc` at line 88 gets an overflowed size while the loop at lines 90-109 still writes `height * rowbytes` bytes.
- Channel counts outside 1 to 4: the `switch` at lines 95-108 has no default and would copy nothing for them; libpng never reports such a count, so `WellFormed` excludes it.
- PngData: `has_alpha` is an `int` in `png_data_t`; the model uses a `bool`, and the width, height and channel count are non-negative numbers since they come from libpng's unsigned values.

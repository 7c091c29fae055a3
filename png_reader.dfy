/** The loading half of lib/png_reader.c: `read_png` checks the PNG signature,
    lets libpng decode and normalise the image, rejects what it cannot handle,
    and copies the decoded scanlines bottom-to-top into one flat byte buffer.

    libpng itself is not modelled. What `read_png` learns from it (the result of
    creating the decoder, the bit depth, the channel count, the dimensions,
    `rowbytes` and the row pointers) is an input to the model. */
module PngReader {

  newtype byte = x: int | 0 <= x < 256

  datatype Option<T> = None | Some(value: T)

  /** The eight-byte PNG file signature (section 5.2 of the PNG Specification,
      Second Edition, ISO/IEC 15948:2003). */
  const PngSignature: seq<byte> := [137, 80, 78, 71, 13, 10, 26, 10]

  /** Number of header bytes `read_png` reads and compares (PNG_BYTES_TO_CHECK). */
  const BytesToCheck: nat := 8

  /** Every row is `rowbytes` bytes long. */
  predicate Uniform(rows: seq<seq<byte>>, rowbytes: nat)
  {
    forall r :: 0 <= r < |rows| ==> |rows[r]| == rowbytes
  }

  /** What libpng reports after `png_read_png` with STRIP_16 | PACKING | EXPAND:
      `png_get_bit_depth`, `png_get_channels`, `png_get_image_width`,
      `png_get_image_height`, `png_get_rowbytes` and the row pointers. */
  datatype DecodedImage = DecodedImage(
    bitDepth: nat,
    channels: nat,
    width: nat,
    height: nat,
    rowbytes: nat,
    rows: seq<seq<byte>>)
  {
    /** What libpng guarantees of its own output: one row per image line, every
        row `rowbytes` long, between one and four channels, and at a depth of
        eight bits one byte per sample, so a row holds `channels * width` bytes.
        `read_png` relies on the last fact without checking it. */
    predicate WellFormed() {
      |rows| == height &&
      Uniform(rows, rowbytes) &&
      1 <= channels <= 4 &&
      (bitDepth == 8 ==> rowbytes == channels * width)
    }
  }

  /** How the libpng part of `read_png` ends: `png_create_read_struct` or
      `png_create_info_struct` returned NULL, the decoder long-jumped back to
      the `setjmp` trap, or the image was decoded. */
  datatype DecoderOutcome =
    | CreateFailed
    | ReadAborted
    | Decoded(image: DecodedImage)

  /** The file named by `filename`: `fopen` failed, or it opened, its first
      eight bytes were read into `header`, and libpng then ran on the rest. */
  datatype PngFile =
    | Unopenable
    | Opened(header: seq<byte>, decoder: DecoderOutcome)

  /** `png_data_t`: the pixel buffer and the image's description. */
  datatype PngData = PngData(
    pixelData: array<byte>,
    width: nat,
    height: nat,
    channels: nat,
    hasAlpha: bool)

  /** `png_sig_cmp(header, 0, 8)` reports a match: it compares the eight
      header bytes one by one with the signature's. */
  predicate SignatureMatches(header: seq<byte>)
    requires |header| == BytesToCheck
    ensures SignatureMatches(header) <==> header == PngSignature
  {
    forall i :: 0 <= i < BytesToCheck ==> header[i] == PngSignature[i]
  }

  /** The decoder's rows from the last to the first, concatenated: what the
      copy loop of `read_png` writes into the pixel buffer. */
  function Flipped(rows: seq<seq<byte>>): seq<byte>
  {
    if rows == [] then [] else Flipped(rows[1..]) + rows[0]
  }

  /** The number of bytes in `n` rows of `rowbytes` bytes, counted row by row. */
  ghost function RowsBytes(n: nat, rowbytes: nat): nat
  {
    if n == 0 then 0 else RowsBytes(n - 1, rowbytes) + rowbytes
  }

  lemma {:induction false} RowsBytesProduct(n: nat, rowbytes: nat)
    ensures RowsBytes(n, rowbytes) == n * rowbytes
  {
    if n > 0 {
      RowsBytesProduct(n - 1, rowbytes);
      MulStep(n - 1, rowbytes);
    }
  }

  /** Scanline `k` of a flat buffer of `height` rows, each `rowbytes` long. */
  function Scanline(buf: seq<byte>, height: nat, rowbytes: nat, k: nat): seq<byte>
    requires |buf| == height * rowbytes && k < height
  {
    MulStep(k, rowbytes);
    MulMonotone(k + 1, height, rowbytes);
    buf[k * rowbytes .. (k + 1) * rowbytes]
  }

  /** Flipping uniform rows yields exactly one row's worth of bytes per row. */
  lemma {:induction false} FlippedLength(rows: seq<seq<byte>>, rowbytes: nat)
    requires Uniform(rows, rowbytes)
    ensures |Flipped(rows)| == |rows| * rowbytes
  {
    if rows != [] {
      FlippedLength(rows[1..], rowbytes);
    }
  }

  /** Flipping is a vertical flip: scanline `k` of the result is decoder row
      `|rows| - 1 - k`. */
  lemma {:induction false} FlippedScanline(rows: seq<seq<byte>>, rowbytes: nat, k: nat)
    requires Uniform(rows, rowbytes)
    requires k < |rows|
    ensures |Flipped(rows)| == |rows| * rowbytes
    ensures Scanline(Flipped(rows), |rows|, rowbytes, k) == rows[|rows| - 1 - k]
  {
    var n := |rows|;
    var rest := Flipped(rows[1..]);
    FlippedLength(rows[1..], rowbytes);
    assert |rows[0]| == rowbytes;
    assert Flipped(rows) == rest + rows[0];
    MulStep(n - 1, rowbytes);
    MulStep(k, rowbytes);
    var lo, hi := k * rowbytes, (k + 1) * rowbytes;
    if k == n - 1 {
      assert lo == |rest| && hi == |rest| + rowbytes;
      assert (rest + rows[0])[lo..hi] == rows[0];
    } else {
      MulMonotone(k + 1, n - 1, rowbytes);
      FlippedScanline(rows[1..], rowbytes, k);
      assert hi <= |rest|;
      assert (rest + rows[0])[lo..hi] == rest[lo..hi];
    }
  }

  /** A buffer of `channels * width * height` bytes holds `height` rows of
      `rowbytes == channels * width` bytes. */
  lemma RowMajorSize(channels: nat, width: nat, height: nat, rowbytes: nat)
    requires rowbytes == channels * width
    ensures channels * width * height == height * rowbytes
  {
  }

  lemma MulStep(a: nat, b: nat)
    ensures (a + 1) * b == a * b + b
  {
  }

  lemma MulMonotone(a: nat, c: nat, b: nat)
    requires a <= c
    ensures a * b <= c * b
  {
  }

  /** Flipping the visited suffix `rows[r..]` extends the flip of `rows[r+1..]`
      by row `r`: the step the copy loop takes for each row. */
  lemma FlippedStep(rows: seq<seq<byte>>, r: nat)
    requires r < |rows|
    ensures Flipped(rows[r..]) == Flipped(rows[r + 1..]) + rows[r]
  {
  }

  /** Every scanline of the buffer flipped from uniform rows is the matching
      decoder row, counted from the bottom. */
  lemma FlippedScanlines(rows: seq<seq<byte>>, rowbytes: nat)
    requires Uniform(rows, rowbytes)
    ensures |Flipped(rows)| == |rows| * rowbytes
    ensures forall k :: 0 <= k < |rows| ==>
      Scanline(Flipped(rows), |rows|, rowbytes, k) == rows[|rows| - 1 - k]
  {
    FlippedLength(rows, rowbytes);
    forall k | 0 <= k < |rows|
      ensures Scanline(Flipped(rows), |rows|, rowbytes, k) == rows[|rows| - 1 - k]
    {
      FlippedScanline(rows, rowbytes, k);
    }
  }

  /** The inner loop of `read_png`'s copy: byte `c` of the row goes to the
      write position `w`, which then advances, for `c` from 0 to `rowbytes`.
      The `switch` on the channel count copies the byte for 1, 3 and 4
      channels; its two-channel case returns NULL and cannot be reached here. */
  method CopyRow(pb: array<byte>, w0: nat, row: seq<byte>, numChannels: nat) returns (w: nat)
    requires w0 + |row| <= pb.Length
    requires numChannels != 2
    modifies pb
    ensures w == w0 + |row|
    ensures pb[..w] == old(pb[..w0]) + row
    ensures forall i :: w <= i < pb.Length ==> pb[i] == old(pb[i])
  {
    w := w0;
    var c := 0;
    while c < |row|
      invariant 0 <= c <= |row|
      invariant w == w0 + c
      invariant pb[..w] == old(pb[..w0]) + row[..c]
      invariant forall i :: w <= i < pb.Length ==> pb[i] == old(pb[i])
    {
      if numChannels == 2 {
        assert false;
      }
      pb[w] := row[c];
      assert pb[..w + 1] == pb[..w] + [row[c]];
      assert row[..c + 1] == row[..c] + [row[c]];
      w := w + 1;
      c := c + 1;
    }
    assert row[..c] == row;
  }

  /** The outer loop of `read_png`'s copy: `r` counts down from the last
      decoder row to the first, and each row is appended at the write
      position, so the buffer ends up holding the rows bottom-to-top. */
  method CopyRowsFlipped(pb: array<byte>, rows: seq<seq<byte>>, rowbytes: nat, numChannels: nat)
    requires Uniform(rows, rowbytes)
    requires pb.Length == |rows| * rowbytes
    requires numChannels != 2
    modifies pb
    ensures pb[..] == Flipped(rows)
  {
    var height := |rows|;
    RowsBytesProduct(height, rowbytes);
    // w is the offset of the write pointer `pb` from the start of the buffer;
    // rows[..r+1] remain to be written
    var w: nat := 0;
    var r := height - 1;
    while r >= 0
      invariant -1 <= r < height
      invariant w + RowsBytes(r + 1, rowbytes) == pb.Length
      invariant pb[..w] == Flipped(rows[r + 1..])
    {
      w := CopyRow(pb, w, rows[r], numChannels);
      FlippedStep(rows, r);
      r := r - 1;
    }
    assert rows[0..] == rows;
    assert pb[..w] == pb[..];
  }

  /** `read_png`. Returns None wherever the C function returns NULL; on success
      the pixel buffer is a freshly allocated array holding the decoder rows in
      reverse order. */
  method ReadPng(file: PngFile) returns (pd: Option<PngData>)
    requires file.Opened? ==> |file.header| == BytesToCheck
    requires file.Opened? && file.decoder.Decoded? ==> file.decoder.image.WellFormed()
    ensures pd.Some? <==>
      file.Opened? && SignatureMatches(file.header) &&
      file.decoder.Decoded? &&
      file.decoder.image.bitDepth == 8 && file.decoder.image.channels != 2
    ensures pd.Some? ==>
      var img := file.decoder.image;
      var out := pd.value;
      fresh(out.pixelData) &&
      out.channels == img.channels && out.width == img.width && out.height == img.height &&
      (out.channels == 1 || out.channels == 3 || out.channels == 4) &&
      out.pixelData.Length == img.channels * img.width * img.height &&
      out.pixelData.Length == img.height * img.rowbytes &&
      out.pixelData[..] == Flipped(img.rows) &&
      (forall k :: 0 <= k < img.height ==>
        Scanline(out.pixelData[..], img.height, img.rowbytes, k) == img.rows[img.height - 1 - k]) &&
      out.hasAlpha == (img.channels == 4)
  {
    if file.Unopenable? {
      return None;
    }
    if !SignatureMatches(file.header) {
      return None;
    }
    if !file.decoder.Decoded? {
      return None;
    }
    var img := file.decoder.image;
    var numChannels := img.channels;
    if img.bitDepth != 8 {
      return None;
    }
    if numChannels == 2 {
      return None;
    }

    var pb := new byte[numChannels * img.width * img.height];
    RowMajorSize(numChannels, img.width, img.height, img.rowbytes);
    CopyRowsFlipped(pb, img.rows, img.rowbytes, numChannels);
    FlippedScanlines(img.rows, img.rowbytes);
    pd := Some(PngData(pb, img.width, img.height, numChannels, numChannels == 4));
  }
}

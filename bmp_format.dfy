/**
 What decoding a monochrome BMP file with bmpinfo.py yields, stated over the
 whole file as a byte sequence: where each header field lies, which checks
 reject the file and in what order, which bytes make up each pixel row, and
 how rows are oriented. The class in bmp_info.dfy, which reads the file
 step by step, is proved to compute exactly `Decode`.

 The header layouts are the BITMAPFILEHEADER followed by a BITMAPCOREHEADER,
 BITMAPINFOHEADER, BITMAPV4HEADER or BITMAPV5HEADER of wingdi.h. Every field is
 read unsigned, as bmpinfo.py reads it, so width and height are never negative.
 */
module BmpFormat {
  import opened ByteStream
  import opened LittleEndian
  import opened Bits

  const BITMAPCOREHEADER_SIZE: nat := 12
  const BITMAPINFOHEADER_SIZE: nat := 40
  const BITMAPV4HEADER_SIZE: nat := 108
  const BITMAPV5HEADER_SIZE: nat := 124

  /** The two ASCII characters 'B', 'M' that open every BMP file. */
  const MAGIC: seq<byte> := [0x42, 0x4D]

  /**
   The ways decoding fails; bmpinfo.py raises an exception for each, a
   BMPInfoException unless the comment names another.
   */
  datatype Error =
    | ShortRead            // a header field read past the end of the file (IndexError)
    | BadMagic             // the file does not start with "BM"
    | UnhandledHeaderSize  // the header-size field is not 12, 40, 108 or 124
    | NotMonochrome        // bits per pixel is not 1
    | Compressed           // compression is not 0 (a TypeError from the message's format string)
    | BadWidth             // width is not positive
    | RowLength            // a row read is not a whole number of 4-byte words
    | RowOverflow          // a pixel is written to a row past the allocated height (IndexError)
    | NotAnInteger         // `range` was given a float (a TypeError)

  datatype Result<T> = Success(value: T) | Failure(error: Error) {
    predicate IsFailure() {
      Failure?
    }

    function PropagateFailure<U>(): Result<U>
      requires Failure?
    {
      Failure(error)
    }

    function Extract(): T
      requires Success?
    {
      value
    }
  }

  /** The header fields bmpinfo.py keeps. */
  datatype Header = Header(
    fileSize: nat,
    dataOffset: nat,
    headerSize: nat,
    width: nat,
    height: nat,
    colorPlanes: nat,
    bitsPerPixel: nat,
    compression: nat)

  /** A decoded file: its header and `height` rows of `width` pixels, top row first. */
  datatype Bitmap = Bitmap(header: Header, rows: seq<seq<byte>>)

  function Field16(s: seq<byte>, at: nat): (v: nat)
    requires at + 2 <= |s|
  {
    UInt16(s[at..at + 2])
  }

  function Field32(s: seq<byte>, at: nat): (v: nat)
    requires at + 4 <= |s|
  {
    UInt32(s[at..at + 4])
  }

  /**
   The file header (magic at 0, file size at 2, four reserved bytes at 6, data
   offset at 10) and the leading fields of the info header, whose size is at
   14. The core header holds four 16-bit fields from 18; the 40-, 108- and
   124-byte headers all start with 32-bit width and height, 16-bit planes and
   bits per pixel, and 32-bit compression from 18. The core header has no
   compression field, which stays 0.
   */
  function ParseHeader(s: seq<byte>): (r: Result<Header>)
    ensures r == Failure(BadMagic) <==> |s| >= 2 && s[..2] != MAGIC
    ensures r.Success? ==> |s| >= 18 && r.value.fileSize == Field32(s, 2) && r.value.dataOffset == Field32(s, 10)
  {
    if |s| < 2 then Failure(ShortRead)
    else if s[..2] != MAGIC then Failure(BadMagic)
    else if |s| < 18 then Failure(ShortRead)
    else
      var size := Field32(s, 14);
      if size == BITMAPCOREHEADER_SIZE then
        if |s| < 26 then Failure(ShortRead)
        else Success(Header(Field32(s, 2), Field32(s, 10), size,
                            Field16(s, 18), Field16(s, 20), Field16(s, 22), Field16(s, 24), 0))
      else if size == BITMAPINFOHEADER_SIZE || size == BITMAPV4HEADER_SIZE || size == BITMAPV5HEADER_SIZE then
        if |s| < 34 then Failure(ShortRead)
        else Success(Header(Field32(s, 2), Field32(s, 10), size,
                            Field32(s, 18), Field32(s, 22), Field16(s, 26), Field16(s, 28), Field32(s, 30)))
      else Failure(UnhandledHeaderSize)
  }

  /**
   The checks made after the header is read, in their order: the first one
   that fails decides the error.
   */
  function Validate(h: Header): (r: Result<Header>)
    ensures r.Success? ==> r.value == h
    ensures r == Failure(NotMonochrome) <==> h.bitsPerPixel != 1
    ensures r == Failure(Compressed) <==> h.bitsPerPixel == 1 && h.compression != 0
    ensures r == Failure(BadWidth) <==> h.bitsPerPixel == 1 && h.compression == 0 && h.width == 0
    ensures r.Success? <==> h.bitsPerPixel == 1 && h.compression == 0 && h.width > 0
  {
    if h.bitsPerPixel != 1 then Failure(NotMonochrome)
    else if h.compression != 0 then Failure(Compressed)
    else if h.width <= 0 then Failure(BadWidth)
    else Success(h)
  }

  /** Bytes per stored row: the width in bits rounded up to whole 32-bit words. */
  function Stride(width: nat): (stride: nat)
    ensures stride % 4 == 0 && (width > 0 ==> stride > 0)
  {
    ((width + 31) / 32) * 4
  }

  /**
   The stride is a positive whole number of 4-byte words, holds all `width`
   bits and wastes less than one word on padding.
   */
  lemma StrideBounds(width: nat)
    requires width > 0
    ensures Stride(width) > 0 && Stride(width) % 4 == 0
    ensures width <= 8 * Stride(width) < width + 32
  {
  }

  /**
   The reads of `stride` bytes from `start` up to the first empty one: every
   read but the last is full, the last may be short.
   */
  function RowReads(s: seq<byte>, start: nat, stride: nat): (chunks: seq<seq<byte>>)
    requires stride > 0
    ensures forall i :: 0 <= i < |chunks| ==> 0 < |chunks[i]| <= stride
    decreases |s| - start
  {
    if start < |s| then [Slice(s, start, stride)] + RowReads(s, start + stride, stride)
    else []
  }

  /**
   Read i starts i strides after `start`, and read i exists exactly when it
   starts before the end of the file: the number of reads is the number of
   strides that start inside the file.
   */
  lemma RowReadsAt(s: seq<byte>, start: nat, stride: nat, i: nat)
    requires stride > 0
    ensures i < |RowReads(s, start, stride)| <==> Advance(start, stride, i) < |s|
    ensures i < |RowReads(s, start, stride)| ==>
              RowReads(s, start, stride)[i] == Slice(s, Advance(start, stride, i), stride)
  {
    RowReadsCount(s, start, stride, i);
    if i < |RowReads(s, start, stride)| {
      RowReadsElement(s, start, stride, i);
    }
  }

  lemma {:induction false} RowReadsCount(s: seq<byte>, start: nat, stride: nat, i: nat)
    requires stride > 0
    ensures i < |RowReads(s, start, stride)| <==> Advance(start, stride, i) < |s|
    decreases |s| - start
  {
    if start >= |s| {
      AdvanceMonotone(start, stride, i);
    } else if i > 0 {
      RowReadsCount(s, start + stride, stride, i - 1);
      assert |RowReads(s, start, stride)| == 1 + |RowReads(s, start + stride, stride)|;
    }
  }

  lemma {:induction false} RowReadsElement(s: seq<byte>, start: nat, stride: nat, i: nat)
    requires stride > 0 && i < |RowReads(s, start, stride)|
    ensures RowReads(s, start, stride)[i] == Slice(s, Advance(start, stride, i), stride)
    decreases i
  {
    var all, rest := RowReads(s, start, stride), RowReads(s, start + stride, stride);
    assert all == [Slice(s, start, stride)] + rest;
    if i == 0 {
      assert all[0] == Slice(s, start, stride);
    } else {
      RowReadsElement(s, start + stride, stride, i - 1);
      assert Advance(start, stride, i) == Advance(start + stride, stride, i - 1);
      assert all[i] == rest[i - 1];
    }
  }

  /** The position i strides after `start`. */
  function Advance(start: nat, stride: nat, i: nat): nat
    decreases i
  {
    if i == 0 then start else Advance(start + stride, stride, i - 1)
  }

  lemma {:induction false} AdvanceMonotone(start: nat, stride: nat, i: nat)
    ensures Advance(start, stride, i) >= start
    decreases i
  {
    if i > 0 {
      AdvanceMonotone(start + stride, stride, i - 1);
    }
  }

  lemma {:induction false} AdvanceIsProduct(start: nat, stride: nat, i: nat)
    ensures Advance(start, stride, i) == start + i * stride
    decreases i
  {
    if i > 0 {
      AdvanceIsProduct(start + stride, stride, i - 1);
      assert i * stride == stride + (i - 1) * stride;
    }
  }

  function Zeros(width: nat): (row: seq<byte>)
    ensures |row| == width && forall c :: 0 <= c < width ==> row[c] == 0
  {
    seq(width, _ => 0)
  }

  /**
   The pixels of one stored row as bmpinfo.py places them: column 0 is never
   written and stays 0; column c >= 1 holds bit 7 - (c - 1) mod 8 (counting
   from the least significant bit) of byte (c - 1) div 8 of the row, or 0 when
   the read was too short to reach that byte. Bits past the width are dropped.
   */
  function RowPixels(chunk: seq<byte>, width: nat): (row: seq<byte>)
    ensures |row| == width && (width > 0 ==> row[0] == 0)
    ensures forall c :: 0 <= c < width ==> row[c] <= 1
  {
    seq(width, c requires 0 <= c =>
      if c == 0 || (c - 1) / 8 >= |chunk| then 0
      else Bit(chunk[(c - 1) / 8] as nat, 7 - (c - 1) % 8) as byte)
  }

  lemma RowPixelAt(chunk: seq<byte>, width: nat, c: nat)
    requires 1 <= c < width
    ensures RowPixels(chunk, width)[c]
            == if (c - 1) / 8 >= |chunk| then 0 else Bit(chunk[(c - 1) / 8] as nat, 7 - (c - 1) % 8) as byte
  {
  }

  /**
   Whether read number r may be decoded: it must be whole 4-byte words, and it
   must fit among the `height` rows allocated unless the width is 1, in which
   case no pixel is ever written.
   */
  predicate RowFits(chunk: seq<byte>, r: nat, width: nat, height: nat)
  {
    |chunk| % 4 == 0 && (width < 2 || r < height)
  }

  function RowError(chunk: seq<byte>): Error
  {
    if |chunk| % 4 != 0 then RowLength else RowOverflow
  }

  /** Decodes reads r, r + 1, ... in order, stopping at the first one that does not fit. */
  function DecodeChunks(chunks: seq<seq<byte>>, width: nat, height: nat, r: nat): (d: Result<seq<seq<byte>>>)
    requires r <= |chunks|
    ensures d.Success? ==> |d.value| == |chunks| - r
    ensures d.Failure? ==> d.error in {RowLength, RowOverflow}
    decreases |chunks| - r
  {
    if r == |chunks| then Success([])
    else if !RowFits(chunks[r], r, width, height) then Failure(RowError(chunks[r]))
    else
      var rest :- DecodeChunks(chunks, width, height, r + 1);
      Success([RowPixels(chunks[r], width)] + rest)
  }

  /** When every read from r on fits, they decode row for row. */
  lemma {:induction false} DecodeChunksSuccess(chunks: seq<seq<byte>>, width: nat, height: nat, r: nat)
    requires r <= |chunks|
    requires forall j :: r <= j < |chunks| ==> RowFits(chunks[j], j, width, height)
    ensures DecodeChunks(chunks, width, height, r).Success?
    ensures var decoded := DecodeChunks(chunks, width, height, r).value;
      |decoded| == |chunks| - r &&
      forall i :: 0 <= i < |decoded| ==> decoded[i] == RowPixels(chunks[r + i], width)
    decreases |chunks| - r
  {
    if r < |chunks| {
      DecodeChunksSuccess(chunks, width, height, r + 1);
      var rest := DecodeChunks(chunks, width, height, r + 1).value;
      assert DecodeChunks(chunks, width, height, r).value == [RowPixels(chunks[r], width)] + rest;
    }
  }

  /** The first read from r on that does not fit decides the error. */
  lemma {:induction false} DecodeChunksFailure(chunks: seq<seq<byte>>, width: nat, height: nat, r: nat, b: nat)
    requires r <= b < |chunks|
    requires forall j :: r <= j < b ==> RowFits(chunks[j], j, width, height)
    requires !RowFits(chunks[b], b, width, height)
    ensures DecodeChunks(chunks, width, height, r) == Failure(RowError(chunks[b]))
    decreases b - r
  {
    if r < b {
      DecodeChunksFailure(chunks, width, height, r + 1, b);
    }
  }

  /** The `height` rows allocated up front, the first ones overwritten by the decoded reads. */
  function Allocate(decoded: seq<seq<byte>>, width: nat, height: nat): (rows: seq<seq<byte>>)
    ensures |rows| == height
    ensures forall r :: |decoded| <= r < height ==> rows[r] == Zeros(width)
  {
    seq(height, r requires 0 <= r => if r < |decoded| then decoded[r] else Zeros(width))
  }

  function Reverse<T>(s: seq<T>): (r: seq<T>)
    ensures |r| == |s| && (|s| > 0 ==> r[0] == s[|s| - 1] && r[|s| - 1] == s[0])
  {
    seq(|s|, i requires 0 <= i < |s| => s[|s| - 1 - i])
  }

  /** A positive height means the file stores the bottom row first. */
  function Orient(rows: seq<seq<byte>>, height: nat): (oriented: seq<seq<byte>>)
    ensures |oriented| == |rows|
    ensures height == 0 ==> oriented == rows
  {
    if height > 0 then Reverse(rows) else rows
  }

  /** Where read k of the pixel data starts: k strides after the data offset. */
  function RowStart(h: Header, k: nat): nat
  {
    Advance(h.dataOffset, Stride(h.width), k)
  }

  lemma RowStartIsProduct(h: Header, k: nat)
    ensures RowStart(h, k) == h.dataOffset + k * Stride(h.width)
  {
    AdvanceIsProduct(h.dataOffset, Stride(h.width), k);
  }

  /** The rows decoded from the pixel data of s, once the header h is accepted. */
  function Pixels(s: seq<byte>, h: Header): (p: Result<seq<seq<byte>>>)
    requires h.width > 0
    ensures p.Success? ==> |p.value| == h.height
    ensures p.Failure? ==> p.error in {RowLength, RowOverflow}
  {
    var decoded :- DecodeChunks(RowReads(s, h.dataOffset, Stride(h.width)), h.width, h.height, 0);
    Success(Orient(Allocate(decoded, h.width, h.height), h.height))
  }

  /** The pixel rows are the decoded reads, allocated and oriented, or the first read's error. */
  lemma PixelsOfReads(s: seq<byte>, h: Header)
    requires h.width > 0
    ensures var d := DecodeChunks(RowReads(s, h.dataOffset, Stride(h.width)), h.width, h.height, 0);
      (d.Failure? ==> Pixels(s, h) == Failure(d.error)) &&
      (d.Success? ==> Pixels(s, h) == Success(Orient(Allocate(d.value, h.width, h.height), h.height)))
  {
  }

  /** The bitmap bmpinfo.py builds from the file contents s, or the error it raises. */
  function Decode(s: seq<byte>): (r: Result<Bitmap>)
    ensures r.Success? ==>
      r.value.header.bitsPerPixel == 1 && r.value.header.compression == 0 && r.value.header.width > 0 &&
      |r.value.rows| == r.value.header.height
    ensures r == Failure(BadMagic) <==> |s| >= 2 && s[..2] != MAGIC
  {
    var parsed :- ParseHeader(s);
    var h :- Validate(parsed);
    var rows :- Pixels(s, h);
    Success(Bitmap(h, rows))
  }

  /** A header that cannot be read decides the error. */
  lemma DecodeHeaderFails(s: seq<byte>)
    requires ParseHeader(s).Failure?
    ensures Decode(s) == Failure(ParseHeader(s).error)
  {
  }

  /** Once the header is read, the checks and then the pixel data decide the outcome. */
  lemma DecodeAfterHeader(s: seq<byte>)
    requires ParseHeader(s).Success?
    ensures var h := ParseHeader(s).value;
      Validate(h).Failure? ==> Decode(s) == Failure(Validate(h).error)
    ensures var h := ParseHeader(s).value;
      Validate(h).Success? ==>
        (Pixels(s, h).Failure? ==> Decode(s) == Failure(Pixels(s, h).error)) &&
        (Pixels(s, h).Success? ==> Decode(s) == Success(Bitmap(h, Pixels(s, h).value)))
  {
  }

  /** A successful decode passed every stage. */
  lemma DecodeStages(s: seq<byte>)
    requires Decode(s).Success?
    ensures ParseHeader(s).Success? && Validate(ParseHeader(s).value).Success?
    ensures Decode(s).value.header == ParseHeader(s).value
    ensures Pixels(s, ParseHeader(s).value).Success?
    ensures Decode(s).value.rows == Pixels(s, ParseHeader(s).value).value
  {
  }

  // ---------------------------------------------------------------------------
  // Properties of the header

  /** A file that does not start with "BM" is rejected whatever follows. */
  lemma BadMagicRejected(first: seq<byte>, rest: seq<byte>)
    requires |first| == 2 && first != MAGIC
    ensures Decode(first + rest) == Failure(BadMagic)
  {
    assert (first + rest)[..2] == first;
  }

  /** Only the four header sizes of wingdi.h are accepted. */
  lemma HeaderSizeKnown(s: seq<byte>)
    requires ParseHeader(s).Success?
    ensures |s| >= 18 && s[..2] == MAGIC
    ensures ParseHeader(s).value.headerSize == Field32(s, 14)
    ensures Field32(s, 14) in {BITMAPCOREHEADER_SIZE, BITMAPINFOHEADER_SIZE, BITMAPV4HEADER_SIZE, BITMAPV5HEADER_SIZE}
  {
  }

  /** The core header: four 16-bit fields from byte 18, compression left at 0. */
  lemma CoreHeaderFields(s: seq<byte>)
    requires |s| >= 26 && s[..2] == MAGIC && Field32(s, 14) == BITMAPCOREHEADER_SIZE
    ensures ParseHeader(s).Success?
    ensures var h := ParseHeader(s).value;
      h.width == Field16(s, 18) && h.height == Field16(s, 20) &&
      h.colorPlanes == Field16(s, 22) && h.bitsPerPixel == Field16(s, 24) &&
      h.compression == 0 && h.width < 0x1_0000 && h.height < 0x1_0000
  {
  }

  /** The file with its header-size field replaced by `size`. */
  function WithHeaderSize(s: seq<byte>, size: nat): (t: seq<byte>)
    requires |s| >= 18 && size < 0x1_0000_0000
    ensures |t| == |s|
  {
    s[..14] + Bytes32(size) + s[18..]
  }

  /**
   The 108- and 124-byte headers are read exactly like the 40-byte one: the
   same file with any of the three sizes yields the same fields, and differs
   only in the recorded header size.
   */
  lemma V4V5ReadAsInfoHeader(s: seq<byte>, size: nat)
    requires |s| >= 18
    requires size == BITMAPV4HEADER_SIZE || size == BITMAPV5HEADER_SIZE
    ensures ParseHeader(WithHeaderSize(s, size)).Success? == ParseHeader(WithHeaderSize(s, BITMAPINFOHEADER_SIZE)).Success?
    ensures ParseHeader(WithHeaderSize(s, BITMAPINFOHEADER_SIZE)).Success? ==>
              ParseHeader(WithHeaderSize(s, size)).value
              == ParseHeader(WithHeaderSize(s, BITMAPINFOHEADER_SIZE)).value.(headerSize := size)
  {
    var t, u := WithHeaderSize(s, size), WithHeaderSize(s, BITMAPINFOHEADER_SIZE);
    assert Field32(t, 14) == size by {
      assert t[14..18] == Bytes32(size);
      UInt32RoundTrip(size);
    }
    assert Field32(u, 14) == BITMAPINFOHEADER_SIZE by {
      assert u[14..18] == Bytes32(BITMAPINFOHEADER_SIZE);
      UInt32RoundTrip(BITMAPINFOHEADER_SIZE);
    }
    assert forall i :: 0 <= i < |t| && !(14 <= i < 18) ==> t[i] == u[i];
    SameOutsideSize(t, u, 0, 2);
    if |s| >= 34 {
      SameFields(t, u);
    }
  }

  /** Two files that differ at most in the header-size field agree on the info header's fields. */
  lemma SameFields(t: seq<byte>, u: seq<byte>)
    requires |t| == |u| && |t| >= 34
    requires forall i :: 0 <= i < |t| && !(14 <= i < 18) ==> t[i] == u[i]
    ensures Field32(t, 2) == Field32(u, 2) && Field32(t, 10) == Field32(u, 10)
    ensures Field32(t, 18) == Field32(u, 18) && Field32(t, 22) == Field32(u, 22)
    ensures Field16(t, 26) == Field16(u, 26) && Field16(t, 28) == Field16(u, 28)
    ensures Field32(t, 30) == Field32(u, 30)
  {
    SameOutsideSize(t, u, 2, 4);
    SameOutsideSize(t, u, 10, 4);
    SameOutsideSize(t, u, 18, 4);
    SameOutsideSize(t, u, 22, 4);
    SameOutsideSize(t, u, 26, 2);
    SameOutsideSize(t, u, 28, 2);
    SameOutsideSize(t, u, 30, 4);
  }

  /** Two files that differ at most in the header-size field agree on every other field. */
  lemma SameOutsideSize(t: seq<byte>, u: seq<byte>, at: nat, n: nat)
    requires |t| == |u| && at + n <= |t| && (at + n <= 14 || 18 <= at)
    requires forall i :: 0 <= i < |t| && !(14 <= i < 18) ==> t[i] == u[i]
    ensures t[at..at + n] == u[at..at + n]
  {
    var a, b := t[at..at + n], u[at..at + n];
    forall i | 0 <= i < n
      ensures a[i] == b[i]
    {
      assert a[i] == t[at + i] && b[i] == u[at + i];
    }
  }

  // ---------------------------------------------------------------------------
  // Properties of a successful decode

  /**
   A decoded file passed the three checks, and its bitmap has exactly `height`
   rows of exactly `width` pixels, each 0 or 1, with column 0 always 0.
   */
  lemma DecodeShape(s: seq<byte>)
    requires Decode(s).Success?
    ensures var bm := Decode(s).value;
      bm.header.bitsPerPixel == 1 && bm.header.compression == 0 && bm.header.width > 0 &&
      |bm.rows| == bm.header.height &&
      forall r :: 0 <= r < |bm.rows| ==>
        |bm.rows[r]| == bm.header.width && bm.rows[r][0] == 0 &&
        forall c :: 0 <= c < |bm.rows[r]| ==> bm.rows[r][c] <= 1
  {
    DecodeStages(s);
    var h := ParseHeader(s).value;
    PixelsShape(s, h);
  }

  lemma PixelsShape(s: seq<byte>, h: Header)
    requires h.width > 0 && Pixels(s, h).Success?
    ensures var rows := Pixels(s, h).value;
      |rows| == h.height &&
      forall r :: 0 <= r < |rows| ==>
        |rows[r]| == h.width && rows[r][0] == 0 && forall c :: 0 <= c < |rows[r]| ==> rows[r][c] <= 1
  {
    var chunks := RowReads(s, h.dataOffset, Stride(h.width));
    RowsFitWhenDecoded(chunks, h.width, h.height);
    DecodeChunksSuccess(chunks, h.width, h.height, 0);
    var decoded := DecodeChunks(chunks, h.width, h.height, 0).value;
    var rows := Allocate(decoded, h.width, h.height);
    assert Pixels(s, h).value == Orient(rows, h.height);
    forall r | 0 <= r < |rows|
      ensures |rows[r]| == h.width && rows[r][0] == 0
      ensures forall c :: 0 <= c < h.width ==> rows[r][c] <= 1
    {
      if r < |decoded| {
        assert rows[r] == RowPixels(chunks[r], h.width);
      } else {
        assert rows[r] == Zeros(h.width);
      }
    }
  }

  /** Decoding the reads succeeds exactly when every one of them fits. */
  lemma RowsFitWhenDecoded(chunks: seq<seq<byte>>, width: nat, height: nat)
    ensures DecodeChunks(chunks, width, height, 0).Success?
            <==> forall j :: 0 <= j < |chunks| ==> RowFits(chunks[j], j, width, height)
  {
    if exists b :: 0 <= b < |chunks| && !RowFits(chunks[b], b, width, height) {
      var b := FirstMisfitExists(chunks, width, height, 0);
      DecodeChunksFailure(chunks, width, height, 0, b);
    } else {
      DecodeChunksSuccess(chunks, width, height, 0);
    }
  }

  /** The first read from r on that does not fit. */
  lemma {:induction false} FirstMisfitExists(chunks: seq<seq<byte>>, width: nat, height: nat, r: nat)
    returns (b: nat)
    requires r <= |chunks|
    requires exists j :: r <= j < |chunks| && !RowFits(chunks[j], j, width, height)
    ensures r <= b < |chunks| && !RowFits(chunks[b], b, width, height)
    ensures forall j :: r <= j < b ==> RowFits(chunks[j], j, width, height)
    decreases |chunks| - r
  {
    if !RowFits(chunks[r], r, width, height) {
      b := r;
    } else {
      b := FirstMisfitExists(chunks, width, height, r + 1);
    }
  }

  /** A read that returned nothing decodes to a row of zeros. */
  lemma EmptyRowIsZeros(width: nat)
    ensures RowPixels([], width) == Zeros(width)
  {
  }

  /**
   Row r of a decoded bitmap comes from the stride of bytes that starts
   (height - 1 - r) strides after the data offset (RowStartIsProduct gives that
   offset as dataOffset + (height - 1 - r) * Stride(width)): the file stores the
   bottom row first and the rows are reversed. A row whose stride lies past the end of
   the file was never read and is all zeros.
   */
  lemma DecodedRow(s: seq<byte>, r: nat)
    requires Decode(s).Success? && r < Decode(s).value.header.height
    ensures var h := Decode(s).value.header;
      |Decode(s).value.rows| == h.height &&
      Decode(s).value.rows[r] == RowPixels(Slice(s, RowStart(h, h.height - 1 - r), Stride(h.width)), h.width)
  {
    DecodeStages(s);
    var h := ParseHeader(s).value;
    PixelsRow(s, h, r);
  }

  lemma PixelsRow(s: seq<byte>, h: Header, r: nat)
    requires h.width > 0 && Pixels(s, h).Success? && r < h.height
    ensures |Pixels(s, h).value| == h.height
    ensures Pixels(s, h).value[r] == RowPixels(Slice(s, RowStart(h, h.height - 1 - r), Stride(h.width)), h.width)
  {
    var stride := Stride(h.width);
    var chunks := RowReads(s, h.dataOffset, stride);
    var decoded := DecodeChunks(chunks, h.width, h.height, 0).value;
    var rows := Allocate(decoded, h.width, h.height);
    assert Pixels(s, h).value == Reverse(rows);
    var k := h.height - 1 - r;
    assert Pixels(s, h).value[r] == rows[k];
    AllocatedRow(chunks, h.width, h.height, k);
    RowReadsAt(s, h.dataOffset, stride, k);
  }

  /** Allocated row k holds read k decoded, or zeros when there was no read k. */
  lemma AllocatedRow(chunks: seq<seq<byte>>, width: nat, height: nat, k: nat)
    requires DecodeChunks(chunks, width, height, 0).Success? && k < height
    ensures Allocate(DecodeChunks(chunks, width, height, 0).value, width, height)[k]
            == RowPixels(if k < |chunks| then chunks[k] else [], width)
  {
    RowsFitWhenDecoded(chunks, width, height);
    DecodeChunksSuccess(chunks, width, height, 0);
    if k >= |chunks| {
      EmptyRowIsZeros(width);
    }
  }

  /**
   Pixel c >= 1 of row r is bit 7 - (c - 1) mod 8 of the file byte that lies
   (c - 1) div 8 bytes into that row's stride, or 0 past the end of the file.
   */
  lemma DecodedPixel(s: seq<byte>, r: nat, c: nat)
    requires Decode(s).Success? && r < Decode(s).value.header.height
    requires 1 <= c < Decode(s).value.header.width
    ensures |Decode(s).value.rows| == Decode(s).value.header.height
    ensures |Decode(s).value.rows[r]| == Decode(s).value.header.width
    ensures Decode(s).value.rows[r][c] == StoredPixel(s, Decode(s).value.header, r, c)
  {
    DecodeStages(s);
    PixelsPixel(s, ParseHeader(s).value, r, c);
  }

  lemma PixelsPixel(s: seq<byte>, h: Header, r: nat, c: nat)
    requires h.width > 0 && Pixels(s, h).Success? && r < h.height && 1 <= c < h.width
    ensures |Pixels(s, h).value| == h.height && |Pixels(s, h).value[r]| == h.width
    ensures Pixels(s, h).value[r][c] == StoredPixel(s, h, r, c)
  {
    PixelsRow(s, h, r);
    StoredRowPixel(s, h, r, c);
  }

  /** Pixel c of the row stored for row r is the stored bit that StoredPixel names. */
  lemma StoredRowPixel(s: seq<byte>, h: Header, r: nat, c: nat)
    requires r < h.height && 1 <= c < h.width
    ensures RowPixels(Slice(s, RowStart(h, h.height - 1 - r), Stride(h.width)), h.width)[c] == StoredPixel(s, h, r, c)
  {
    PixelInStride(h.width, c);
    SlicePixel(s, RowStart(h, h.height - 1 - r), Stride(h.width), h.width, c);
  }

  /**
   Bit 7 - (c - 1) mod 8 of the file byte that lies (c - 1) div 8 bytes into
   the stride stored for row r (the bottom row is stored first); 0 when that
   byte lies past the end of the file.
   */
  function StoredPixel(s: seq<byte>, h: Header, r: nat, c: nat): (p: byte)
    requires r < h.height && c >= 1
    ensures p <= 1
  {
    var at := RowStart(h, h.height - 1 - r) + (c - 1) / 8;
    if at < |s| then Bit(s[at] as nat, 7 - (c - 1) % 8) as byte else 0
  }

  /** The byte holding pixel c lies inside the row's stride. */
  lemma PixelInStride(width: nat, c: nat)
    requires 1 <= c < width
    ensures (c - 1) / 8 < Stride(width)
  {
    StrideBounds(width);
  }

  /** Pixel c of the row read from `start` is taken from file byte start + (c - 1) div 8. */
  lemma SlicePixel(s: seq<byte>, start: nat, stride: nat, width: nat, c: nat)
    requires 1 <= c < width && (c - 1) / 8 < stride
    ensures var at := start + (c - 1) / 8;
      RowPixels(Slice(s, start, stride), width)[c]
      == if at < |s| then Bit(s[at] as nat, 7 - (c - 1) % 8) as byte else 0
  {
    var chunk := Slice(s, start, stride);
    var k := (c - 1) / 8;
    RowPixelAt(chunk, width, c);
    if start + k < |s| {
      assert k < |chunk| && chunk[k] == s[start + k];
    } else {
      assert k >= |chunk|;
    }
  }

  /**
   Once the header is accepted, decoding succeeds exactly when every read is a
   whole number of 4-byte words and, unless the width is 1, there are no more
   reads than allocated rows.
   */
  lemma DecodeSucceeds(s: seq<byte>)
    requires ParseHeader(s).Success? && Validate(ParseHeader(s).value).Success?
    ensures var h := ParseHeader(s).value;
      var chunks := RowReads(s, h.dataOffset, Stride(h.width));
      Decode(s).Success?
      <==> (forall j :: 0 <= j < |chunks| ==> |chunks[j]| % 4 == 0) && (h.width == 1 || |chunks| <= h.height)
  {
    var h := ParseHeader(s).value;
    var chunks := RowReads(s, h.dataOffset, Stride(h.width));
    RowsFitWhenDecoded(chunks, h.width, h.height);
    assert Decode(s).Success? <==> Pixels(s, h).Success?;
    assert Pixels(s, h).Success? <==> DecodeChunks(chunks, h.width, h.height, 0).Success?;
    if h.width != 1 && |chunks| > h.height {
      assert !RowFits(chunks[|chunks| - 1], |chunks| - 1, h.width, h.height);
    }
  }

  /** Every read but the last is a full stride, so only the last can be cut short. */
  lemma RowReadsFull(s: seq<byte>, start: nat, stride: nat, i: nat)
    requires stride > 0 && i + 1 < |RowReads(s, start, stride)|
    ensures |RowReads(s, start, stride)[i]| == stride
  {
    RowReadsAt(s, start, stride, i);
    RowReadsAt(s, start, stride, i + 1);
    AdvanceStep(start, stride, i);
  }

  lemma {:induction false} AdvanceStep(start: nat, stride: nat, i: nat)
    ensures Advance(start, stride, i + 1) == Advance(start, stride, i) + stride
    decreases i
  {
    if i > 0 {
      AdvanceStep(start + stride, stride, i - 1);
    }
  }
}

/**
 The `bmpinfo` class of bmpinfo.py: it reads a monochrome BMP file from an
 open file handle field by field, checks the header, seeks to the pixel data
 and unpacks it row by row into a list of byte rows. Each method is proved
 against the whole-file description in bmp_format.dfy, so that loading a file
 computes exactly `BmpFormat.Decode` of its bytes.
 */
module Bmp {
  import opened ByteStream
  import opened LittleEndian
  import opened Bits
  import opened BmpFormat

  /** How a call ended: normally, or by raising an exception for the error. */
  datatype Outcome = Done | Raised(error: Error)

  class BmpInfo {
    var magicNumber: string
    var fileSize: nat
    var dataOffset: nat
    var bmpHeaderSize: nat
    var width: nat
    var height: nat
    var colorPlanes: nat
    var bitsPerPixel: nat
    var compression: nat
    var bitmapData: seq<seq<byte>>

    /** The contents of the file the object was loaded from. */
    ghost var source: seq<byte>

    /** The header fields as one value. */
    function HeaderFields(): Header
      reads this`fileSize, this`dataOffset, this`bmpHeaderSize, this`width, this`height
      reads this`colorPlanes, this`bitsPerPixel, this`compression
    {
      Header(fileSize, dataOffset, bmpHeaderSize, width, height, colorPlanes, bitsPerPixel, compression)
    }

    /** A loaded object: its fields and rows are what decoding `source` yields. */
    ghost predicate Valid()
      reads this
    {
      magicNumber == "BM" && Decode(source) == Success(Bitmap(HeaderFields(), bitmapData))
    }

    /**
     An object before any file is read, with the defaults `__init__` starts
     from. `Load` sets the same defaults again before reading, as `__init__`
     does, so that loading does not depend on the object being new.
     */
    constructor ()
      ensures width == 0 && height == 0 && bitsPerPixel == 0 && compression == 0 && bmpHeaderSize == 0
      ensures bitmapData == []
    {
      magicNumber := "";
      fileSize := 0;
      dataOffset := 0;
      bmpHeaderSize := 0;
      width := 0;
      height := 0;
      colorPlanes := 0;
      bitsPerPixel := 0;
      compression := 0;
      bitmapData := [];
      source := [];
    }

    /**
     `__init__`: reads the file behind a freshly opened handle. It ends
     normally exactly when `Decode` accepts the file, and then holds what
     `Decode` yields; otherwise it raises the error `Decode` names.
     */
    method Load(fh: FileHandle) returns (outcome: Outcome)
      requires fh.pos == 0
      modifies this, fh
      ensures Decode(fh.bytes).Success? ==> outcome == Done && Valid() && source == fh.bytes
      ensures Decode(fh.bytes).Failure? ==> outcome == Raised(Decode(fh.bytes).error)
      ensures Decode(fh.bytes) == Failure(BadMagic) ==> fh.pos == 2
    {
      width := 0;
      height := 0;
      bitsPerPixel := 0;
      compression := 0;
      bmpHeaderSize := 0;
      source := fh.bytes;

      var status := ReadHeader(fh);
      if status.Raised? {
        DecodeHeaderFails(fh.bytes);
        return status;
      }
      DecodeAfterHeader(fh.bytes);
      if bitsPerPixel != 1 {
        return Raised(NotMonochrome);
      }
      if compression != 0 {
        return Raised(Compressed);
      }
      if width <= 0 {
        return Raised(BadWidth);
      }
      fh.Seek(dataOffset);
      outcome := ReadBitmapData(fh);
    }

    /**
     The header part of `__init__`: the file header, then the info header
     read by the reader its size selects. Compression keeps the 0 that
     `__init__` set when the core header, which has no compression field, is
     read.
     */
    method ReadHeader(fh: FileHandle) returns (outcome: Outcome)
      requires fh.pos == 0 && compression == 0
      modifies this`magicNumber, this`fileSize, this`dataOffset, this`bmpHeaderSize, this`width, this`height
      modifies this`colorPlanes, this`bitsPerPixel, this`compression, fh
      ensures ParseHeader(fh.bytes).Success? ==>
        outcome == Done && magicNumber == "BM" && HeaderFields() == ParseHeader(fh.bytes).value
      ensures ParseHeader(fh.bytes).Failure? ==> outcome == Raised(ParseHeader(fh.bytes).error)
      ensures ParseHeader(fh.bytes) == Failure(BadMagic) ==> fh.pos == 2
    {
      outcome := ReadFileHeader(fh);
      if outcome.Raised? {
        return;
      }
      if bmpHeaderSize == BITMAPCOREHEADER_SIZE {
        outcome := ReadCoreHeader(fh);
      } else if bmpHeaderSize == BITMAPINFOHEADER_SIZE {
        outcome := ReadInfoHeader(fh);
      } else if bmpHeaderSize == BITMAPV4HEADER_SIZE {
        outcome := ReadV4Header(fh);
      } else if bmpHeaderSize == BITMAPV5HEADER_SIZE {
        outcome := ReadV5Header(fh);
      } else {
        return Raised(UnhandledHeaderSize);
      }
    }

    /**
     The start of `__init__`: the magic number "BM", the file size, four
     reserved bytes that are skipped (a short read there is not an error) and
     the data offset, then the size of the info header. Any field read past
     the end of the file fails.
     */
    method ReadFileHeader(fh: FileHandle) returns (outcome: Outcome)
      requires fh.pos == 0
      modifies this`magicNumber, this`fileSize, this`dataOffset, this`bmpHeaderSize, fh
      ensures |fh.bytes| < 2 ==> outcome == Raised(ShortRead)
      ensures |fh.bytes| >= 2 && fh.bytes[..2] != MAGIC ==> outcome == Raised(BadMagic) && fh.pos == 2
      ensures |fh.bytes| >= 2 && fh.bytes[..2] == MAGIC && |fh.bytes| < 18 ==> outcome == Raised(ShortRead)
      ensures |fh.bytes| >= 18 && fh.bytes[..2] == MAGIC ==>
        outcome == Done && fh.pos == 18 && magicNumber == "BM" &&
        fileSize == Field32(fh.bytes, 2) && dataOffset == Field32(fh.bytes, 10) &&
        bmpHeaderSize == Field32(fh.bytes, 14)
    {
      var buffer := fh.Read(2);
      if |buffer| < 2 {
        return Raised(ShortRead);
      }
      magicNumber := [buffer[0] as char, buffer[1] as char];
      MagicChars(buffer);
      if magicNumber != "BM" {
        return Raised(BadMagic);
      }
      var field := ReadInt32(fh);
      if field.Failure? {
        return Raised(ShortRead);
      }
      fileSize := field.value;
      var reserved := fh.Read(4);
      field := ReadInt32(fh);
      if field.Failure? {
        return Raised(ShortRead);
      }
      dataOffset := field.value;
      field := ReadInt32(fh);
      if field.Failure? {
        return Raised(ShortRead);
      }
      bmpHeaderSize := field.value;
      return Done;
    }

    /**
     `_read_bitmap_data`: allocates `height` rows of `width` zero pixels, then
     reads one stride of bytes per stored row from the cursor on until a read
     comes back empty, reorders each read and places its bits, and finally
     reverses the rows when the height is positive. The result is `Pixels` of
     the file with the pixel data taken to start at the cursor.
     */
    method ReadBitmapData(fh: FileHandle) returns (outcome: Outcome)
      requires width > 0
      modifies this`bitmapData, fh
      ensures var h := HeaderFields().(dataOffset := old(fh.pos));
        (Pixels(fh.bytes, h).Success? ==> outcome == Done && bitmapData == Pixels(fh.bytes, h).value) &&
        (Pixels(fh.bytes, h).Failure? ==> outcome == Raised(Pixels(fh.bytes, h).error))
    {
      PixelsOfReads(fh.bytes, HeaderFields().(dataOffset := fh.pos));
      AllocateRows();
      outcome := ReadRows(fh);
      if outcome.Raised? {
        return;
      }
      if height > 0 {
        bitmapData := Reverse(bitmapData);
      }
    }

    /**
     The read loop of `_read_bitmap_data`: reads of one stride each until a
     read comes back empty, each decoded into the row it is numbered by.
     The rows end up as the decoded reads, or the first read that does not
     fit raises its error.
     */
    method ReadRows(fh: FileHandle) returns (outcome: Outcome)
      requires width > 0 && bitmapData == Allocate([], width, height)
      modifies this`bitmapData, fh
      ensures var d := DecodeChunks(RowReads(fh.bytes, old(fh.pos), Stride(width)), width, height, 0);
        (d.Success? ==> outcome == Done && bitmapData == Allocate(d.value, width, height)) &&
        (d.Failure? ==> outcome == Raised(d.error))
    {
      ghost var s := fh.bytes;
      var rowLength := Stride(width);
      StrideBounds(width);
      ghost var chunks := RowReads(s, fh.pos, rowLength);
      assert Decoded(chunks, width, 0) == [];
      var row := 0;
      while true
        invariant row <= |chunks| && RowReads(s, fh.pos, rowLength) == chunks[row..]
        invariant forall j :: 0 <= j < row ==> RowFits(chunks[j], j, width, height)
        invariant bitmapData == Allocate(Decoded(chunks, width, row), width, height)
        decreases |chunks| - row
      {
        var status, more := ReadRow(fh, row, chunks);
        if !more {
          break;
        }
        if status.Raised? {
          DecodeChunksFailure(chunks, width, height, 0, row);
          return status;
        }
        row := row + 1;
      }

      DecodedAll(chunks, width, height);
      outcome := Done;
    }

    /**
     One pass of the read loop of `_read_bitmap_data`: reads one stride and,
     unless the read is empty, decodes it into row `row`. `more` is false when
     the pixel data is exhausted.
     */
    method ReadRow(fh: FileHandle, row: nat, ghost chunks: seq<seq<byte>>) returns (outcome: Outcome, more: bool)
      requires width > 0 && row <= |chunks| && RowReads(fh.bytes, fh.pos, Stride(width)) == chunks[row..]
      requires bitmapData == Allocate(Decoded(chunks, width, row), width, height)
      modifies this`bitmapData, fh
      ensures !more ==> outcome == Done && row == |chunks| && bitmapData == old(bitmapData)
      ensures more ==> row < |chunks|
      ensures more && outcome == Done ==>
        RowFits(chunks[row], row, width, height) &&
        RowReads(fh.bytes, fh.pos, Stride(width)) == chunks[row + 1..] &&
        bitmapData == Allocate(Decoded(chunks, width, row + 1), width, height)
      ensures more && outcome.Raised? ==> !RowFits(chunks[row], row, width, height) && outcome.error == RowError(chunks[row])
    {
      ghost var before := fh.pos;
      var buffer := fh.Read(Stride(width));
      if |buffer| == 0 {
        return Done, false;
      }
      ghost var after := fh.pos;
      NextRead(fh.bytes, before, Stride(width), chunks, row, buffer, after);
      ghost var prior := bitmapData;
      assert row < |prior| ==> prior[row] == Zeros(width);
      outcome := DecodeRow(row, buffer);
      more := true;
      if outcome == Done {
        assert bitmapData == Place(prior, row, RowPixels(chunks[row], width));
        AllocateExtend(chunks, width, height, row);
      }
    }

    /**
     The start of `_read_bitmap_data`: `height` empty rows, each then replaced
     by `width` zero pixels.
     */
    method AllocateRows()
      modifies this`bitmapData
      ensures bitmapData == Allocate([], width, height)
    {
      bitmapData := seq(height, _ => []);
      for r := 0 to height
        invariant |bitmapData| == height
        invariant forall j :: 0 <= j < |bitmapData| ==> bitmapData[j] == if j < r then Zeros(width) else []
      {
        bitmapData := bitmapData[r := Zeros(width)];
      }
    }

    /**
     The body of the read loop of `_read_bitmap_data` for one non-empty read:
     reorders it, then walks its bits, advancing the column before each write,
     so that column 0 is never written and at most `width - 1` pixels are.
     It fails when the read is not whole words, or when a pixel would be
     written to a row that was never allocated; otherwise row `row` becomes
     `RowPixels` of the read.
     */
    method DecodeRow(row: nat, buffer: seq<byte>) returns (outcome: Outcome)
      requires |buffer| > 0
      requires row < |bitmapData| ==> bitmapData[row] == Zeros(width)
      modifies this`bitmapData
      ensures outcome == Done <==> RowFits(buffer, row, width, |old(bitmapData)|)
      ensures outcome.Raised? ==> outcome.error == RowError(buffer)
      ensures outcome == Done ==> bitmapData == Place(old(bitmapData), row, RowPixels(buffer, width))
    {
      var reordered := ReorderBuffer(buffer);
      if reordered.Failure? {
        return Raised(reordered.error);
      }

      ghost var rows := bitmapData;
      FilledStart(buffer, width);
      var column := 0;
      var k := 0;
      while k < |buffer|
        invariant k <= |buffer|
        invariant column == Min(8 * k, width)
        invariant k > 0 ==> column >= 1
        invariant row >= |rows| && width >= 2 ==> column == 0
        invariant bitmapData == Place(rows, row, Filled(buffer, width, column + 1))
      {
        if column >= width {
          break;
        }
        var placed;
        column, placed := DecodeByte(row, buffer, k, reordered.value[k], column, rows);
        if placed.Raised? {
          return placed;
        }
        k := k + 1;
      }
      FilledComplete(buffer, width, column + 1);
      return Done;
    }

    /**
     The inner loop of `_read_bitmap_data` over the eight bits of one reordered
     byte, least significant first: the column is advanced before each write,
     the loop stops at the width, and a write to a row that was not allocated
     raises.
     */
    method DecodeByte(row: nat, buffer: seq<byte>, k: nat, byteVal: byte, start: nat, ghost rows: seq<seq<byte>>)
      returns (column: nat, outcome: Outcome)
      requires k < |buffer| && start == 8 * k && start < width
      requires byteVal as nat == Reverse8(buffer[k] as nat)
      requires bitmapData == Place(rows, row, Filled(buffer, width, start + 1))
      modifies this`bitmapData
      ensures outcome.Raised? <==> row >= |rows| && start + 1 < width
      ensures outcome.Raised? ==> outcome.error == RowOverflow
      ensures outcome == Done ==> column == Min(start + 8, width)
      ensures outcome == Done ==> bitmapData == Place(rows, row, Filled(buffer, width, column + 1))
    {
      column := start;
      var i := 0;
      while i < 8
        invariant i <= 8 && column == start + i && column < width
        invariant row >= |rows| ==> i == 0
        invariant bitmapData == Place(rows, row, Filled(buffer, width, column + 1))
      {
        column := column + 1;
        if column >= width {
          FilledBeyond(buffer, width, column);
          return column, Done;
        }
        if row >= |bitmapData| {
          return column, Raised(RowOverflow);
        }
        var pixel := Bit(byteVal as nat, i) as byte;
        PlacedPixel(buffer, width, k, i);
        PlacedStep(rows, row, buffer, width, column, pixel);
        bitmapData := bitmapData[row := bitmapData[row][column := pixel]];
        i := i + 1;
      }
      return column, Done;
    }

    /**
     `_reorder_buffer` with integer division in its loop bound: a read must be
     a whole number of 4-byte words; each word is taken big-endian, its 32 bits
     are reversed, and it is stored back little-endian. The net effect is that
     every byte has its 8 bits reversed in place.
     */
    static method ReorderBuffer(buffer: seq<byte>) returns (r: Result<seq<byte>>)
      ensures r.Failure? <==> |buffer| % 4 != 0
      ensures r.Failure? ==> r.error == RowLength
      ensures r.Success? ==> |r.value| == |buffer|
      ensures r.Success? ==> forall j :: 0 <= j < |buffer| ==> r.value[j] as nat == Reverse8(buffer[j] as nat)
    {
      if |buffer| % 4 != 0 {
        return Failure(RowLength);
      }
      var output := new byte[|buffer|];
      for i := 0 to |buffer| / 4
        invariant forall j :: 0 <= j < 4 * i ==> output[j] as nat == Reverse8(buffer[j] as nat)
      {
        ReorderWord(buffer, output, i * 4);
      }
      return Success(output[..]);
    }

    /**
     One pass of the `_reorder_buffer` loop: the word at `offset` is read
     big-endian, its 32 bits are reversed, and it is written back
     little-endian, which reverses the bits of each of its four bytes.
     */
    static method ReorderWord(buffer: seq<byte>, output: array<byte>, offset: nat)
      requires output.Length == |buffer| && offset + 4 <= |buffer|
      modifies output
      ensures forall j :: 0 <= j < offset ==> output[j] == old(output[j])
      ensures forall j :: offset + 4 <= j < output.Length ==> output[j] == old(output[j])
      ensures forall j :: offset <= j < offset + 4 ==> output[j] as nat == Reverse8(buffer[j] as nat)
    {
      var num := BigEndianWord([buffer[offset] as nat, buffer[offset + 1] as nat,
                                buffer[offset + 2] as nat, buffer[offset + 3] as nat]);
      num := ReverseBits(num);
      ReversedWordBytes(buffer, offset, num);
      output[offset] := (num % 0x100) as byte;
      output[offset + 1] := (ShiftRight(num, 8) % 0x100) as byte;
      output[offset + 2] := (ShiftRight(num, 16) % 0x100) as byte;
      output[offset + 3] := (ShiftRight(num, 24) % 0x100) as byte;
      forall j | offset <= j < offset + 4
        ensures output[j] as nat == Reverse8(buffer[j] as nat)
      {
        if j == offset {
        } else if j == offset + 1 {
        } else if j == offset + 2 {
        } else {
          assert j == offset + 3;
        }
      }
    }

    /** `_read_int32`: the next four bytes as an unsigned little-endian value, or a short read. */
    static method ReadInt32(fh: FileHandle) returns (r: Result<nat>)
      modifies fh
      ensures old(fh.pos) + 4 <= |fh.bytes| ==> r == Success(Field32(fh.bytes, old(fh.pos))) && fh.pos == old(fh.pos) + 4
      ensures old(fh.pos) + 4 > |fh.bytes| ==> r == Failure(ShortRead)
    {
      var buffer := fh.Read(4);
      if |buffer| < 4 {
        return Failure(ShortRead);
      }
      return Success(UInt32(buffer));
    }

    /** `_read_int16`: the next two bytes as an unsigned little-endian value, or a short read. */
    static method ReadInt16(fh: FileHandle) returns (r: Result<nat>)
      modifies fh
      ensures old(fh.pos) + 2 <= |fh.bytes| ==> r == Success(Field16(fh.bytes, old(fh.pos))) && fh.pos == old(fh.pos) + 2
      ensures old(fh.pos) + 2 > |fh.bytes| ==> r == Failure(ShortRead)
    {
      var buffer := fh.Read(2);
      if |buffer| < 2 {
        return Failure(ShortRead);
      }
      return Success(UInt16(buffer));
    }

    /** `_read_bitmapcoreheader`: width, height, planes and bits per pixel, 16 bits each. */
    method ReadCoreHeader(fh: FileHandle) returns (outcome: Outcome)
      modifies this`width, this`height, this`colorPlanes, this`bitsPerPixel, fh
      ensures var p := old(fh.pos);
        if p + 8 <= |fh.bytes| then
          outcome == Done && fh.pos == p + 8 &&
          width == Field16(fh.bytes, p) && height == Field16(fh.bytes, p + 2) &&
          colorPlanes == Field16(fh.bytes, p + 4) && bitsPerPixel == Field16(fh.bytes, p + 6)
        else outcome == Raised(ShortRead)
    {
      var field := ReadInt16(fh);
      if field.Failure? {
        return Raised(ShortRead);
      }
      width := field.value;
      field := ReadInt16(fh);
      if field.Failure? {
        return Raised(ShortRead);
      }
      height := field.value;
      field := ReadInt16(fh);
      if field.Failure? {
        return Raised(ShortRead);
      }
      colorPlanes := field.value;
      field := ReadInt16(fh);
      if field.Failure? {
        return Raised(ShortRead);
      }
      bitsPerPixel := field.value;
      return Done;
    }

    /**
     `_read_bitmapinfoheader`: 32-bit width and height, 16-bit planes and bits
     per pixel, 32-bit compression.
     */
    method ReadInfoHeader(fh: FileHandle) returns (outcome: Outcome)
      modifies this`width, this`height, this`colorPlanes, this`bitsPerPixel, this`compression, fh
      ensures var p := old(fh.pos);
        if p + 16 <= |fh.bytes| then
          outcome == Done && fh.pos == p + 16 &&
          width == Field32(fh.bytes, p) && height == Field32(fh.bytes, p + 4) &&
          colorPlanes == Field16(fh.bytes, p + 8) && bitsPerPixel == Field16(fh.bytes, p + 10) &&
          compression == Field32(fh.bytes, p + 12)
        else outcome == Raised(ShortRead)
    {
      var field := ReadInt32(fh);
      if field.Failure? {
        return Raised(ShortRead);
      }
      width := field.value;
      field := ReadInt32(fh);
      if field.Failure? {
        return Raised(ShortRead);
      }
      height := field.value;
      field := ReadInt16(fh);
      if field.Failure? {
        return Raised(ShortRead);
      }
      colorPlanes := field.value;
      field := ReadInt16(fh);
      if field.Failure? {
        return Raised(ShortRead);
      }
      bitsPerPixel := field.value;
      field := ReadInt32(fh);
      if field.Failure? {
        return Raised(ShortRead);
      }
      compression := field.value;
      return Done;
    }

    /** `_read_bitmapv4header`: the fields it keeps are read as from the 40-byte header. */
    method ReadV4Header(fh: FileHandle) returns (outcome: Outcome)
      modifies this`width, this`height, this`colorPlanes, this`bitsPerPixel, this`compression, fh
      ensures var p := old(fh.pos);
        if p + 16 <= |fh.bytes| then
          outcome == Done && fh.pos == p + 16 &&
          width == Field32(fh.bytes, p) && height == Field32(fh.bytes, p + 4) &&
          colorPlanes == Field16(fh.bytes, p + 8) && bitsPerPixel == Field16(fh.bytes, p + 10) &&
          compression == Field32(fh.bytes, p + 12)
        else outcome == Raised(ShortRead)
    {
      outcome := ReadInfoHeader(fh);
    }

    /** `_read_bitmapv5header`: the fields it keeps are read as from the 40-byte header. */
    method ReadV5Header(fh: FileHandle) returns (outcome: Outcome)
      modifies this`width, this`height, this`colorPlanes, this`bitsPerPixel, this`compression, fh
      ensures var p := old(fh.pos);
        if p + 16 <= |fh.bytes| then
          outcome == Done && fh.pos == p + 16 &&
          width == Field32(fh.bytes, p) && height == Field32(fh.bytes, p + 4) &&
          colorPlanes == Field16(fh.bytes, p + 8) && bitsPerPixel == Field16(fh.bytes, p + 10) &&
          compression == Field32(fh.bytes, p + 12)
        else outcome == Raised(ShortRead)
    {
      outcome := ReadInfoHeader(fh);
    }

    /** The `magic_number` property: a loaded file starts with "BM". */
    function MagicNumber(): (m: string)
      reads this
      requires Valid()
      ensures m == "BM" && |source| >= 2 && source[..2] == MAGIC
    {
      DecodeStages(source);
      magicNumber
    }

    /** The `file_size` property: the unsigned 32-bit field at offset 2. */
    function FileSize(): (size: nat)
      reads this
      requires Valid()
      ensures |source| >= 6 && size == Field32(source, 2) && size < 0x1_0000_0000
    {
      DecodeStages(source);
      fileSize
    }

    /** The `width` property: positive, and the length of every row. */
    function Width(): (w: nat)
      reads this
      requires Valid()
      ensures w > 0 && w == Decode(source).value.header.width
      ensures forall r :: 0 <= r < |bitmapData| ==> |bitmapData[r]| == w
    {
      DecodeShape(source);
      width
    }

    /** The `height` property: the number of rows, never negative. */
    function Height(): (h: nat)
      reads this
      requires Valid()
      ensures h == |bitmapData| && h == Decode(source).value.header.height
    {
      DecodeShape(source);
      height
    }

    /** The `bits_per_pixel` property: always 1 once loaded. */
    function BitsPerPixel(): (bpp: nat)
      reads this
      requires Valid()
      ensures bpp == 1
    {
      DecodeShape(source);
      bitsPerPixel
    }
  }

  /**
   `_reorder_buffer` as written: the loop bound `len(buffer) / 4` is a float
   under true division, and `range` refuses a float, so a read of whole
   words raises before any byte is reordered. The rest of the model uses
   `BmpInfo.ReorderBuffer`, which takes the bound as the integer quotient.
   */
  function ReorderBufferAsWritten(buffer: seq<byte>): (r: Result<seq<byte>>)
    ensures r.Failure?
  {
    if |buffer| % 4 != 0 then Failure(RowLength) else Failure(NotAnInteger)
  }

  /**
   The one-word read 0x80 0x00 0x00 0x00 holds the top-left stored pixel.
   As written it raises; the intended reordering, which
   `BmpInfo.ReorderBuffer` performs, moves that pixel to bit 0 of byte 0,
   the bit the pixel loop reads first.
   */
  lemma ReorderAsWrittenRejectsWord()
    ensures ReorderBufferAsWritten([0x80, 0, 0, 0]) == Failure(NotAnInteger)
    ensures Bit(Reverse8(0x80), 0) == 1
  {
    Reverse8Bit(0x80, 0);
  }

  /** The first `count` reads, decoded. */
  ghost function Decoded(chunks: seq<seq<byte>>, width: nat, count: nat): seq<seq<byte>>
    requires count <= |chunks|
  {
    seq(count, j requires 0 <= j < count => RowPixels(chunks[j], width))
  }

  /** When every read fits, decoding them all gives each read's pixels, in order. */
  lemma DecodedAll(chunks: seq<seq<byte>>, width: nat, height: nat)
    requires forall j :: 0 <= j < |chunks| ==> RowFits(chunks[j], j, width, height)
    ensures DecodeChunks(chunks, width, height, 0) == Success(Decoded(chunks, width, |chunks|))
  {
    DecodeChunksSuccess(chunks, width, height, 0);
    assert DecodeChunks(chunks, width, height, 0).value == Decoded(chunks, width, |chunks|);
  }

  /**
   The four bytes of the reversed big-endian word at `offset`, taken from the
   low end, are the four bytes of the word with their bits reversed.
   */
  lemma ReversedWordBytes(buffer: seq<byte>, offset: nat, num: nat)
    requires offset + 4 <= |buffer|
    requires num == ReverseBits(BigEndianWord([buffer[offset] as nat, buffer[offset + 1] as nat,
                                               buffer[offset + 2] as nat, buffer[offset + 3] as nat]))
    ensures num % 0x100 == Reverse8(buffer[offset] as nat)
    ensures ShiftRight(num, 8) % 0x100 == Reverse8(buffer[offset + 1] as nat)
    ensures ShiftRight(num, 16) % 0x100 == Reverse8(buffer[offset + 2] as nat)
    ensures ShiftRight(num, 24) % 0x100 == Reverse8(buffer[offset + 3] as nat)
  {
    var word := [buffer[offset] as nat, buffer[offset + 1] as nat, buffer[offset + 2] as nat, buffer[offset + 3] as nat];
    ReverseWordByte(word, 0);
    ReverseWordByte(word, 1);
    ReverseWordByte(word, 2);
    ReverseWordByte(word, 3);
  }

  /** `rows` with row r replaced by x, or unchanged when there is no row r. */
  ghost function Place(rows: seq<seq<byte>>, r: nat, x: seq<byte>): seq<seq<byte>>
  {
    if r < |rows| then rows[r := x] else rows
  }

  /** A row whose columns below n hold the pixels of `chunk` and whose other columns are 0. */
  ghost function Filled(chunk: seq<byte>, width: nat, n: nat): seq<byte>
  {
    seq(width, c requires 0 <= c < width => if c < n then RowPixels(chunk, width)[c] else 0)
  }

  /** Python's `chr(b0) + chr(b1) == "BM"` holds exactly when the two bytes are the magic. */
  lemma MagicChars(b: seq<byte>)
    requires |b| >= 2
    ensures ([b[0] as char, b[1] as char] == "BM") <==> b[..2] == MAGIC
  {
    if [b[0] as char, b[1] as char] == "BM" {
      assert b[0] as char == 'B' && b[1] as char == 'M';
      assert b[..2] == [b[0], b[1]];
    }
  }

  /**
   When the reads still to come from pos are chunks[row..], a read at pos that
   returns bytes returns chunks[row], and the reads after it are chunks[row + 1..].
   */
  lemma NextRead(s: seq<byte>, pos: nat, stride: nat, chunks: seq<seq<byte>>, row: nat, chunk: seq<byte>, next: nat)
    requires stride > 0 && row <= |chunks| && RowReads(s, pos, stride) == chunks[row..]
    requires chunk == Slice(s, pos, stride) && |chunk| > 0 && next == pos + |chunk|
    ensures row < |chunks| && chunks[row] == chunk
    ensures RowReads(s, next, stride) == chunks[row + 1..]
  {
    if |chunk| < stride {
      assert RowReads(s, pos + stride, stride) == [];
    }
    assert RowReads(s, pos, stride) == [chunk] + RowReads(s, pos + |chunk|, stride);
    assert chunks[row + 1..] == chunks[row..][1..];
  }

  lemma FilledStart(chunk: seq<byte>, width: nat)
    ensures Filled(chunk, width, 1) == Zeros(width)
  {
    forall c | 0 <= c < width
      ensures Filled(chunk, width, 1)[c] == 0
    {
      if c == 0 {
        assert RowPixels(chunk, width)[0] == 0;
      }
    }
  }

  /** Writing pixel n of `chunk` extends the filled columns by one. */
  lemma FilledStep(chunk: seq<byte>, width: nat, n: nat)
    requires n < width
    ensures Filled(chunk, width, n)[n := RowPixels(chunk, width)[n]] == Filled(chunk, width, n + 1)
  {
  }

  /** Writing the next pixel of read `chunk` into row r fills one more column of it. */
  lemma PlacedStep(rows: seq<seq<byte>>, r: nat, chunk: seq<byte>, width: nat, n: nat, pixel: byte)
    requires r < |rows| && n < width && pixel == RowPixels(chunk, width)[n]
    ensures var placed := Place(rows, r, Filled(chunk, width, n));
            placed[r := placed[r][n := pixel]] == Place(rows, r, Filled(chunk, width, n + 1))
  {
    FilledStep(chunk, width, n);
  }

  /** Columns at or past the width are never filled. */
  lemma FilledBeyond(chunk: seq<byte>, width: nat, n: nat)
    requires n >= width
    ensures Filled(chunk, width, n) == Filled(chunk, width, n + 1)
  {
  }

  /** Once every column the chunk reaches is written, the row is complete. */
  lemma FilledComplete(chunk: seq<byte>, width: nat, n: nat)
    requires n > Min(8 * |chunk|, width)
    ensures Filled(chunk, width, n) == RowPixels(chunk, width)
  {
    forall c | 0 <= c < width
      ensures Filled(chunk, width, n)[c] == RowPixels(chunk, width)[c]
    {
      if c >= n {
        assert (c - 1) / 8 >= |chunk|;
      }
    }
  }

  /**
   Bit i of the reordered byte k, written to column 8k + i + 1, is the pixel
   `RowPixels` puts there.
   */
  lemma PlacedPixel(chunk: seq<byte>, width: nat, k: nat, i: nat)
    requires k < |chunk| && i < 8 && 8 * k + i + 1 < width
    ensures Bit(Reverse8(chunk[k] as nat), i) as byte == RowPixels(chunk, width)[8 * k + i + 1]
  {
    DivModUnique(8 * k + i, 8, k, i);
    Reverse8Bit(chunk[k] as nat, i);
    RowPixelAt(chunk, width, 8 * k + i + 1);
  }

  /** Placing read r decoded into the rowsSoFar rows allocates one more decoded read. */
  lemma AllocateExtend(chunks: seq<seq<byte>>, width: nat, height: nat, r: nat)
    requires r < |chunks|
    ensures Place(Allocate(Decoded(chunks, width, r), width, height), r, RowPixels(chunks[r], width))
            == Allocate(Decoded(chunks, width, r + 1), width, height)
  {
  }
}

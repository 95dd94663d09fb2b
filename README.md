# bmpinfo in Dafny

This is a model of the `bmpinfo` class of bmpinfo.py. The class reads a monochrome (1 bit per pixel) Windows BMP file from an open file handle and keeps:

- the header fields: magic number, file size, data offset, header size, width, height, colour planes, bits per pixel and compression;
- a list of pixel rows, one byte per pixel, top row first.

The model has two layers.

- **`BmpFormat` (bmp_format.dfy)** says what loading a file yields, stated over the whole file as a byte sequence. `Decode(s)` is made of four parts:
  - `ParseHeader` finds each header field at its absolute offset and follows the four header layouts: 12, 40, 108 and 124 bytes.
  - `Validate` applies the three checks in order.
  - `RowReads` splits the pixel data into the stride-sized reads the loader makes.
  - `Pixels` decodes, allocates and orients those reads.
- **`Bmp.BmpInfo` (bmp_info.dfy)** is the class itself, written imperatively:
  - It reads through a `ByteStream.FileHandle` cursor with the same reads, seeks and loops as the source.
  - It reorders words in a byte array and writes pixels into its row list one at a time.
  - Every method is proved against `BmpFormat`. `Load` ends normally exactly when `Decode` accepts the file, and then its fields and rows are `Decode`'s result. Otherwise it raises the error `Decode` names.

Two more modules support these:

- `LittleEndian` (little_endian.dfy) holds the unsigned 16- and 32-bit little-endian fields and their encoders, with round trips both ways.
- `Bits` (bits.dfy) holds the bit vocabulary for `_reverse_bits`:
  - `ReverseBits` is the generator sum the source uses.
  - `ReverseLow` is an independent reference reversal.
  - Lemmas prove that the two agree and that reversal is an involution.
  - A word-level lemma shows that reordering a big-endian word reverses the bits of each byte in place.

The model follows the code wherever the code differs from how BMP files are usually described:

- **Fields are unsigned.** Every field is read unsigned, so width and height are never negative. The top-down case (negative height) cannot arise. A height with its top bit set reads as a number above 2^31.
- **Pixel order.** `_reorder_buffer` reverses the bits of every byte. The pixel loop then reads bits least significant first. Together, file bits are taken most significant first.
- **Off by one.** The column counter is incremented before each write, so:
  - column 0 is never written and stays 0;
  - column c ≥ 1 holds bit 7 − (c − 1) mod 8 of byte (c − 1) div 8 of the row's stride (`BmpFormat.StoredPixel`, `BmpFormat.DecodedPixel`).
  - As a result, a 2-pixel-wide, 2-row file with stored rows 0x01… and 0x02… decodes to two rows of zeros, not to an identity pattern.
- **Row order.** Rows are reversed only when the height is positive, which is every nonzero height here.
- **Too many reads.** A read beyond the allocated rows faults (an IndexError in the source) only when a pixel is actually written, which needs width ≥ 2. With width 1, surplus reads are harmless (`BmpFormat.RowFits`, `BmpFormat.DecodeSucceeds`).
- **Row length.** A read that is not a whole number of 4-byte words is rejected. Only the last, short read can be one.

The loop bound in `_reorder_buffer` is modelled as the integer quotient `len(buffer) div 4`. As written it is a float; see "## Findings".

## Model

| member | source | states |
|---|---|---|
| Bmp.BmpInfo.constructor | bmpinfo.py:30-34 | a new object has width, height, bits per pixel, compression and header size 0 and no rows |
| Bmp.BmpInfo.Load | bmpinfo.py:23-98 | ends normally exactly when `Decode` accepts the file, and then the object is `Valid`: magic "BM", header fields and rows equal to the decoded bitmap; otherwise raises the error `Decode` gives, and after a bad magic the cursor is at 2 |
| Bmp.BmpInfo.ReadHeader | bmpinfo.py:36-73 | reads the header exactly as `ParseHeader` describes it: on success the fields equal `ParseHeader`'s header; otherwise raises its error (short read, bad magic, unhandled header size), and after a bad magic the cursor is at 2 |
| Bmp.BmpInfo.ReadFileHeader | bmpinfo.py:36-53 | file shorter than 2 bytes or 18 bytes after a good magic: short read; first two bytes not "BM": bad magic, with the cursor at 2; otherwise the cursor is at 18 and file size, data offset and header size are the 32-bit fields at 2, 10 and 14 |
| Bmp.BmpInfo.ReadCoreHeader | bmpinfo.py:166-170 | with 8 bytes left: width, height, planes and bits per pixel are the four 16-bit fields at the cursor and the cursor moves 8; otherwise a short read |
| Bmp.BmpInfo.ReadInfoHeader | bmpinfo.py:172-177 | with 16 bytes left: 32-bit width and height, 16-bit planes and bits per pixel, 32-bit compression at their offsets from the cursor, which moves 16; otherwise a short read |
| Bmp.BmpInfo.ReadV4Header | bmpinfo.py:179-185 | reads the same fields at the same offsets as the 40-byte header |
| Bmp.BmpInfo.ReadV5Header | bmpinfo.py:188-194 | reads the same fields at the same offsets as the 40-byte header |
| Bmp.BmpInfo.ReadInt32 | bmpinfo.py:196-203 | with 4 bytes left: the unsigned little-endian value of the 4 bytes at the cursor, which moves 4; otherwise a short read |
| Bmp.BmpInfo.ReadInt16 | bmpinfo.py:205-207 | with 2 bytes left: the unsigned little-endian value of the 2 bytes at the cursor, which moves 2; otherwise a short read |
| Bmp.BmpInfo.ReadBitmapData | bmpinfo.py:101-129 | the rows become `Pixels` of the file with the data taken to start at the cursor, or the first failing read's error is raised |
| Bmp.BmpInfo.AllocateRows | bmpinfo.py:102-104 | `height` rows of `width` zero pixels |
| Bmp.BmpInfo.ReadRow | bmpinfo.py:109-127 | an empty read ends the loop exactly when all reads are consumed; otherwise the read is the next element of `RowReads`, and it either fits and becomes its row or raises `RowError` |
| Bmp.BmpInfo.ReadRows | bmpinfo.py:107-127 | reads strides until an empty read; the rows become the allocated rows with the first ones replaced by the decoded reads, or the first read that does not fit raises its error |
| Bmp.BmpInfo.DecodeRow | bmpinfo.py:113-126 | succeeds exactly when the read fits (whole words, and a row exists unless width < 2); then row `row` becomes `RowPixels` of the read and no other row changes; else raises `RowError` |
| Bmp.BmpInfo.DecodeByte | bmpinfo.py:119-123 | the eight bits of one reordered byte fill the next columns up to the width with `RowPixels`' values; a write to a missing row raises an overflow exactly when a write is due |
| Bmp.BmpInfo.ReorderBuffer | bmpinfo.py:131-154 | fails with a row-length error exactly when the length is not a multiple of 4; otherwise returns the same length with every byte's 8 bits reversed |
| Bmp.BmpInfo.ReorderWord | bmpinfo.py:141-153 | the four bytes at the offset are written back with their bits reversed, and every byte before or after them is unchanged |
| Bmp.BmpInfo.MagicNumber | bmpinfo.py:231-233 | a loaded object's magic number is "BM", the file's first two bytes |
| Bmp.BmpInfo.FileSize | bmpinfo.py:235-237 | the unsigned 32-bit field at offset 2, below 2^32 |
| Bmp.BmpInfo.Width | bmpinfo.py:239-241 | positive, the decoded header's width, and the length of every row |
| Bmp.BmpInfo.Height | bmpinfo.py:243-245 | the number of rows, equal to the decoded header's height |
| Bmp.BmpInfo.BitsPerPixel | bmpinfo.py:247-249 | always 1 once loaded |
| Bmp.MagicChars | bmpinfo.py:37-38 | the two characters equal "BM" exactly when the two bytes are 0x42 0x4D |
| Bmp.NextRead | bmpinfo.py:109-112 | a non-empty read of one stride at the cursor is the next element of `RowReads`, and the rest of the list starts where it ends |
| Bmp.PlacedPixel | bmpinfo.py:119-123 | bit i of reordered byte k, written to column 8k + i + 1, is the pixel `RowPixels` puts there |
| Bmp.DecodedAll | bmpinfo.py:109-127 | when every read fits, decoding them all yields read i's pixels as row i |
| Bmp.ReversedWordBytes | bmpinfo.py:142-153 | the four bytes extracted from the reversed big-endian word are the four input bytes, each bit-reversed |
| Bmp.ReorderBufferAsWritten | bmpinfo.py:131-140 | as written, reordering never succeeds |
| Bmp.ReorderAsWrittenRejectsWord | bmpinfo.py:140-153 | a one-word read holding a set pixel raises as written, while the intended reordering moves that pixel to the bit the pixel loop reads first |
| BmpFormat.Decode | bmpinfo.py:23-98 | fails with a bad magic exactly when the file has 2 bytes that are not "BM"; a decoded bitmap has 1 bit per pixel, compression 0, a positive width and `height` rows |
| BmpFormat.ParseHeader | bmpinfo.py:36-73 | fails with a bad magic exactly when the file has 2 bytes that are not "BM"; a parsed header comes from a file of at least 18 bytes and holds the 32-bit fields at 2 and 10 as file size and data offset |
| BmpFormat.Stride | bmpinfo.py:107 | the stride is a multiple of 4, and positive for a positive width |
| BmpFormat.RowReads | bmpinfo.py:109-112 | every read is non-empty and at most one stride long |
| BmpFormat.DecodeChunks | bmpinfo.py:109-127 | decoding reads r onward gives one row per read, or fails with a row-length or overflow error (`RowFits`, `RowError` decide which) |
| BmpFormat.Allocate | bmpinfo.py:102-104 | `height` rows, and every row past the decoded reads is `width` zeros |
| BmpFormat.Pixels | bmpinfo.py:101-129 | the decoded data has `height` rows, or fails with a row-length or overflow error |
| BmpFormat.Orient | bmpinfo.py:128-129 | keeps the number of rows, and leaves the rows as they are for height 0 |
| BmpFormat.Reverse | bmpinfo.py:128-129 | keeps the length and swaps the first and last rows |
| BmpFormat.Validate | bmpinfo.py:77-93 | checks in order: bits per pixel 1, then compression 0, then width positive; each error occurs exactly when the earlier checks pass and its own fails; success returns the header unchanged |
| BmpFormat.DecodeHeaderFails | bmpinfo.py:36-73 | an unreadable header decides the error of the whole decode |
| BmpFormat.DecodeAfterHeader | bmpinfo.py:75-98 | after the header, the first failing check and then the pixel data decide the outcome |
| BmpFormat.DecodeStages | bmpinfo.py:23-98 | a successful decode passed every stage, and its header and rows are those stages' results |
| BmpFormat.BadMagicRejected | bmpinfo.py:36-42 | a file not starting with "BM" is rejected with a bad magic, whatever follows |
| BmpFormat.HeaderSizeKnown | bmpinfo.py:62-73 | an accepted header has size 12, 40, 108 or 124, taken from offset 14 |
| BmpFormat.CoreHeaderFields | bmpinfo.py:166-170 | the 12-byte header gives 16-bit width, height, planes and bits per pixel from offset 18, and compression keeps its default 0 |
| BmpFormat.V4V5ReadAsInfoHeader | bmpinfo.py:179-194 | the same file with header size 108 or 124 parses to the 40-byte header's fields, differing only in the header size |
| BmpFormat.StrideBounds | bmpinfo.py:107 | the stride is a positive multiple of 4 bytes that holds the width in bits with less than 32 bits of padding |
| BmpFormat.RowReadsAt | bmpinfo.py:109-112 | read i exists exactly when i strides after the start lies inside the file, and it is the slice there |
| BmpFormat.RowReadsFull | bmpinfo.py:109-112 | every read but the last is a full stride |
| BmpFormat.RowPixels | bmpinfo.py:115-123 | a decoded row has `width` pixels, each 0 or 1, and column 0 is 0 |
| BmpFormat.StoredPixel | bmpinfo.py:119-123 | the stored bit a pixel comes from is 0 or 1 |
| BmpFormat.EmptyRowIsZeros | bmpinfo.py:102-104 | a row with no read left is all zeros |
| BmpFormat.DecodeChunksSuccess | bmpinfo.py:109-127 | when every read fits, read i becomes row i |
| BmpFormat.DecodeChunksFailure | bmpinfo.py:109-127 | the first read that does not fit decides the error |
| BmpFormat.RowsFitWhenDecoded | bmpinfo.py:109-127 | decoding the reads succeeds exactly when every read fits |
| BmpFormat.PixelsOfReads | bmpinfo.py:101-129 | the pixel rows are the decoded reads, allocated and reversed for positive height, or the first read's error |
| BmpFormat.DecodeSucceeds | bmpinfo.py:101-137 | after an accepted header, decoding succeeds exactly when every read is whole 4-byte words and, unless the width is 1, there are no more reads than rows |
| BmpFormat.DecodeShape | bmpinfo.py:101-129 | a decoded bitmap has `height` rows of `width` pixels, each 0 or 1, column 0 always 0, and passed the three checks |
| BmpFormat.PixelsShape | bmpinfo.py:101-129 | the rows of `Pixels` have that shape for any accepted header |
| BmpFormat.DecodedRow | bmpinfo.py:101-129 | row r is the stride stored height − 1 − r strides after the data offset (`RowStart`), decoded; a stride past the end of the file gives zeros |
| BmpFormat.RowStartIsProduct | bmpinfo.py:107-112 | read k starts at dataOffset + k · stride, so row r of a decoded bitmap comes from offset dataOffset + (height − 1 − r) · Stride(width) |
| BmpFormat.PixelsRow | bmpinfo.py:101-129 | the same for `Pixels` under any header with a positive width |
| BmpFormat.AllocatedRow | bmpinfo.py:102-127 | allocated row k holds read k decoded, or zeros when there was no read k |
| BmpFormat.DecodedPixel | bmpinfo.py:115-129 | pixel c ≥ 1 of row r is bit 7 − (c − 1) mod 8 of the file byte (c − 1) div 8 into that row's stride, or 0 past the end of the file |
| BmpFormat.PixelsPixel | bmpinfo.py:115-129 | the same for `Pixels` |
| BmpFormat.StoredRowPixel | bmpinfo.py:119-123 | pixel c of the stride stored for row r is the stored bit `StoredPixel` names |
| BmpFormat.SlicePixel | bmpinfo.py:110-123 | pixel c of a row read from `start` comes from file byte start + (c − 1) div 8 |
| BmpFormat.PixelInStride | bmpinfo.py:107-123 | the byte holding any in-range pixel lies inside the row's stride |
| ByteStream.Slice | bmpinfo.py:110 | a read returns at most n bytes, fewer near the end, none at or past the end, and they are the file's bytes at the cursor |
| ByteStream.SliceFull | bmpinfo.py:110 | a read is full exactly when its bytes lie inside the file |
| ByteStream.FileHandle.constructor | bmpinfo.py:27 | a freshly opened file holds the given bytes with the cursor at 0 |
| ByteStream.FileHandle.Read | bmpinfo.py:110 | returns the slice at the cursor and advances the cursor past it |
| ByteStream.FileHandle.Seek | bmpinfo.py:96 | moves the cursor to the absolute offset |
| LittleEndian.UInt32 | bmpinfo.py:196-203 | the 32-bit field is below 2^32 |
| LittleEndian.UInt16 | bmpinfo.py:205-207 | the 16-bit field is below 2^16 |
| LittleEndian.UInt32RoundTrip | bmpinfo.py:196-203 | decoding the encoding of any 32-bit value gives it back |
| LittleEndian.Bytes32RoundTrip | bmpinfo.py:196-203 | encoding the value of any 4 bytes gives the bytes back |
| LittleEndian.UInt32Injective | bmpinfo.py:196-203 | two 4-byte fields with the same value are the same bytes |
| LittleEndian.UInt16RoundTrip | bmpinfo.py:205-207 | decoding the encoding of any 16-bit value gives it back |
| LittleEndian.Bytes16RoundTrip | bmpinfo.py:205-207 | encoding the value of any 2 bytes gives the bytes back |
| Bits.ReversedSum | bmpinfo.py:164 | the first k terms of the generator sum leave room for the 32 − k bits still to come, so the result stays below 2^32 |
| Bits.BigEndianWord | bmpinfo.py:142-147 | four bytes assembled big-endian give a value below 2^32 |
| Bits.ReverseBits | bmpinfo.py:156-164 | the reversal of a word is below 2^32 |
| Bits.ReversedSumIsReverseLow | bmpinfo.py:164 | the first k terms of the generator sum are the reference reversal of the low k bits, shifted to the top |
| Bits.ReverseBitsIsReverseLow | bmpinfo.py:164 | `_reverse_bits` equals the 32-bit reference reversal |
| Bits.ReverseBitsBit | bmpinfo.py:164 | bit j of the result is bit 31 − j of the input |
| Bits.ReverseBitsInvolution | bmpinfo.py:164 | reversing twice gives back every 32-bit value |
| Bits.Reverse8Bit | bmpinfo.py:142-153 | bit t of a reversed byte is bit 7 − t of the byte |
| Bits.Reverse8Involution | bmpinfo.py:142-153 | reversing a byte twice gives it back |
| Bits.BigEndianWordBit | bmpinfo.py:142-147 | bit i of the word assembled from 4 bytes is bit i mod 8 of byte 3 − i div 8 |
| Bits.ReverseWordByte | bmpinfo.py:142-153 | byte m of the reversed word, taken from the low end, is byte m of the input with its bits reversed |
| Bits.ReverseWordBit | bmpinfo.py:142-153 | bit t of that byte is bit 7 − t of input byte m |
| Bits.BitIsShiftAnd | bmpinfo.py:123 | `Bit(n, i)` is `(n >> i) & 1` |
| Bits.ShiftRightIsDiv | bmpinfo.py:151-153 | shifting right by m divides by 2^m |
| Bits.ReverseLowInvolution | bmpinfo.py:164 | the reference reversal of the low k bits is an involution below 2^k |

## Left out

- `bitmap()`, which copies the rows into a display surface, and the `displayio` import: the display is an external component. The rows it copies are the ones `Load` leaves in `bitmapData`.
- `debug_info` and `debug_bitmap_data`: console output only. The call to `debug_info` before each validation error is dropped.
- Exception messages: each exception is its `Error` constructor. IndexErrors from short header reads are `ShortRead`. An IndexError from writing to a missing row is `RowOverflow`.
- Exception classes: the compression check (bmpinfo.py:85-88) formats its message with two arguments for a one-placeholder string, so it raises a TypeError rather than a BMPInfoException; `Compressed` stands for that TypeError. `NotAnInteger` is the TypeError from `range` given a float. Which exception class is raised is not modelled otherwise.
- Real file I/O: the handle is an in-memory byte sequence with a cursor (`ByteStream.FileHandle`). `read(n)` and `seek(offset, 0)` have CPython's semantics for regular files.
- The floating-point stride `int((float(width) + 31.0) / 32.0) * 4` is modelled as `(width + 31) div 32 * 4`. The two agree for every width below 2^53, which covers every 32-bit field.
- `Bmp.BmpInfo.Load`: it is the body of `__init__` as a method on an object made by the constructor. It requires a freshly opened handle (cursor at 0), as the source's callers provide one.
- `Bmp.BmpInfo.Load`: after a raised exception the object's fields are not specified. The source leaves them partly set, but the object is never returned to a caller.
- `Bmp.BmpInfo.ReadHeader`: requires compression to be 0, the default `__init__` sets, because the core header leaves it untouched.
- `Bmp.BmpInfo.ReadFileHeader`, `Bmp.BmpInfo.ReadHeader`, `Bmp.BmpInfo.ReadRows`, `Bmp.BmpInfo.ReadRow`, `Bmp.BmpInfo.AllocateRows`, `Bmp.BmpInfo.DecodeRow`, `Bmp.BmpInfo.DecodeByte` and `Bmp.BmpInfo.ReorderWord`: these are stretches of straight-line code or loop bodies from `__init__`, `_read_bitmap_data` and `_reorder_buffer`, written as methods of their own. They keep the source's order of reads and writes.
- `Bmp.BmpInfo.MagicNumber`, `Bmp.BmpInfo.FileSize`, `Bmp.BmpInfo.Width`, `Bmp.BmpInfo.Height`, `Bmp.BmpInfo.BitsPerPixel`: they require a loaded object (`Valid`). The source's getters have no precondition, but only a constructed object can be asked.
- The demo script that drives the class and the display drivers are not part of this model.

## Findings

| source | as written | input that shows it | evidently intended | confidence | as-written member | corrected member |
|---|---|---|---|---|---|---|
| bmpinfo.py:140 | `range(0, len(buffer) / 4)`: `/` is true division, so the bound is a float and `range` raises a TypeError before any word is reordered; every file with pixel data fails to load | any non-empty read of whole words, e.g. the 4 bytes 0x80 0x00 0x00 0x00 | the integer quotient `len(buffer) // 4`, so that every word is reordered | not executed; follows from Python 3 and CircuitPython semantics of `/` and `range` | Bmp.ReorderBufferAsWritten, Bmp.ReorderAsWrittenRejectsWord | Bmp.BmpInfo.ReorderBuffer |

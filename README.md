# ImageSample metadata stripping, in Dafny

ImageSample takes an image file and writes out a copy with its metadata removed. `ImageValidationService.ValidationImage` does the work in this order:

- it refuses inputs over 10 MiB;
- it picks a codec from the lower-cased file extension;
- it checks the codec's magic number;
- it has the codec rebuild the image without metadata.

Each codec walks its container format unit by unit and copies the units it keeps, in order, into an output buffer. It then truncates that buffer to what was written.

- **GIF** (`GifImageFormatDto`):
  - keeps the header and global colour table, image blocks, Graphic Control extensions and the trailer;
  - drops Comment, Plain Text and Application extensions (GIF89a sections 17 to 27).
- **JPEG** (`JpegImageFormatDto`):
  - walks the marker segments of ITU-T T.81 section B.1.1.4;
  - carries the entropy-coded data after SOS with the SOS segment;
  - drops APP1 to APP13, APP15 and COM.
- **PNG** (`PngImageFormatDto`):
  - walks the chunks of ISO/IEC 15948 section 5.3;
  - drops `tEXt`, `zTXt` and `iTXt`;
  - stops after copying `IEND`.

The project is organised by module:

- `ImageFormat` (`image_format.dfy`):
  - the shared helpers of `ImageFormatDto`: `CompareArray`, `CheckMagicNumber` and `GetSlicedReverseArray`;
  - the .NET primitives the codecs call: `Buffer.BlockCopy`, `Array.Resize`, and `BitConverter` on a little-endian host.
- `UnitWalk` (`unit_walk.dfy`) is the specification the three strip loops share.
  - `Walk(step, data, src)` is the output a walk from `src` produces.
  - `step` is the codec's decision about the unit at the cursor: kept or dropped, its size, whether it is the last one, a silent stop, or a fault (an exception the strip operation catches).
  - The lemmas carry the loop invariant `Produced` from one iteration to the next.
  - `WalkRewalk` says when walking the output again gives it back unchanged: every kept unit must be self-delimiting, that is, it must scan the same wherever its bytes are copied.
    - GIF blocks always are, so stripping a GIF twice is the same as stripping it once.
    - PNG chunks are, unless a chunk has a negative length field.
    - JPEG segments are not: SOS scan data runs up to the next real marker, and that marker can change once a segment is removed.
- `Gif`, `Jpeg` and `Png` each hold:
  - the codec's step function;
  - `Detect` and `Strip` as specification functions;
  - a class whose `imageData` field is the `imageData_` buffer.

  The class methods are the imperative code. They write into that array with `BlockCopy` through a source cursor and a destination cursor, then `Resize` it. Each is proved against the functions: `CreateImageDataNoMetaInfo` leaves exactly `Strip(data)` in `imageData`.
- `ImageValidation` (`image_validation.dfy`) holds the dispatcher.
  - `ValidationImage` returns `Written(image)` where the source returns true after writing `image`, and `Refused` where it returns false.
  - It returns `Thrown` where the magic-number check indexes past a short input and the exception escapes.

Some loop bodies are split into helper methods so that each proof stays small. The split changes no behaviour:

- `GifImageFormat.MeasureImageBlock` and `WriteTrailer`;
- `JpegImageFormat.GetSegmentSize` and `GetSegment`;
- `PngImageFormat.ReadChunkSize`, `GetChunk`, `CopyChunk` and `NextChunk`;
- `CheckPng`, `CheckJpeg` and `CheckGif`, one per arm of the extension switch.

`Array.BinarySearch` over the sorted marker tables is modelled as membership in the table.

## Model

| member | source | states |
|---|---|---|
| ImageFormat.Compare | ImageSample/Utils/Dto/ImageFormatDto.cs:57-68 | Some(true) exactly when every pattern byte equals data at offset + i; Some(false) exactly when some in-range position differs; None (the index exception) only when the pattern runs past the end of data before a mismatch |
| ImageFormat.CompareArray | ImageSample/Utils/Dto/ImageFormatDto.cs:57-68 | the loop returns Compare's verdict, None for the out-of-range read |
| ImageFormat.MatchAny | ImageSample/Utils/Dto/ImageFormatDto.cs:35-46 | Some(false) exactly when every pattern mismatches; Some(true) only when some pattern matches; never None when no comparison faults |
| ImageFormat.CompareWindow | ImageSample/Utils/Dto/ImageFormatDto.cs:57-68 | the comparison reads only the pattern-long window at the offset: inputs that agree there compare alike |
| ImageFormat.MatchAnyWindow | ImageSample/Utils/Dto/PngImageFormatDto.cs:60-70 | the same for a search over patterns of one length |
| ImageFormat.CheckMagicNumber | ImageSample/Utils/Dto/ImageFormatDto.cs:35-46 | the foreach over the magic numbers returns MatchAny of them at offset 0 |
| ImageFormat.Reversed | ImageSample/Utils/Dto/ImageFormatDto.cs:77-86 | same length, element i is element \|s\|-1-i of s |
| ImageFormat.GetSlicedReverseArray | ImageSample/Utils/Dto/ImageFormatDto.cs:77-86 | a fresh array holding buffer[offset..offset+length] back to front |
| ImageFormat.BigEndian | ImageSample/Utils/Dto/JpegImageFormatDto.cs:131 | the value of n bytes read most significant first is below 256^n |
| ImageFormat.LittleEndian | ImageSample/Utils/Dto/JpegImageFormatDto.cs:131 | the value of n bytes read least significant first is below 256^n |
| ImageFormat.ReversedLittleEndian | ImageSample/Utils/Dto/JpegImageFormatDto.cs:131 | decoding the reversed slice little-endian gives the big-endian value of the slice |
| ImageFormat.ToUInt16 | ImageSample/Utils/Dto/JpegImageFormatDto.cs:131 | BitConverter.ToUInt16 gives at most 0xFFFF |
| ImageFormat.ToInt32 | ImageSample/Utils/Dto/PngImageFormatDto.cs:95 | BitConverter.ToInt32 stays in the int range; it is non-negative exactly when the unsigned value fits in an int, and is then that value |
| ImageFormat.WrapInt32 | ImageSample/Utils/Dto/PngImageFormatDto.cs:96 | unchecked int arithmetic: the result is in the int range, congruent to x modulo 2^32, and x itself when x fits |
| ImageFormat.BlockCopy | ImageSample/Utils/Dto/GifImageFormatDto.cs:209 | succeeds exactly when both ranges fit; then the destination is its old prefix, the copied bytes, and its old suffix; on failure nothing changes |
| ImageFormat.Resize | ImageSample/Utils/Dto/JpegImageFormatDto.cs:149 | a fresh array of the new size keeping the common prefix, zero-filled when it grows |
| UnitWalk.Emit | ImageSample/Utils/Dto/PngImageFormatDto.cs:97-108 | a kept unit contributes exactly data[src..src+size] and faults exactly when it overruns the input; a dropped unit contributes nothing and faults exactly when the int cursor sum passes Int32Max |
| UnitWalk.Prepend | ImageSample/Utils/Dto/PngImageFormatDto.cs:39-40 | success is preserved both ways; a successful result starts with the prefix and its length is the sum of both lengths |
| UnitWalk.WalkStep | ImageSample/Utils/Dto/JpegImageFormatDto.cs:120-147 | proof step for the body of the segment loop, one iteration: the walk from src is the unit's bytes followed by the walk from src + size, or a fault |
| UnitWalk.WalkAdvance | ImageSample/Utils/Dto/JpegImageFormatDto.cs:140-146 | the loop invariant survives a non-last unit: the output so far grows by the unit's bytes and the cursor moves past it |
| UnitWalk.WalkLast | ImageSample/Utils/Dto/PngImageFormatDto.cs:103-106 | proof step for the loop exit after IEND: at a last unit the walk's output is what has been written followed by the unit's bytes |
| UnitWalk.WalkStop | ImageSample/Utils/Dto/GifImageFormatDto.cs:170-173 | where the loop stops without a unit (end of input or an unrecognised byte) the walk's output is exactly what has been written |
| UnitWalk.WalkFault | ImageSample/Utils/Dto/GifImageFormatDto.cs:102-105 | proof step for the catch block: a unit that faults makes the whole walk fail |
| UnitWalk.KeptCopied | ImageSample/Utils/Dto/JpegImageFormatDto.cs:140-144 | proof step for the copy branch: a kept unit block-copied to the output cursor advances both cursors by its size and changes nothing else |
| UnitWalk.DroppedCopied | ImageSample/Utils/Dto/JpegImageFormatDto.cs:146 | proof step for the skip branch: a dropped unit advances only the source cursor and leaves the buffer unchanged |
| UnitWalk.CopiedAdvance | ImageSample/Utils/Dto/GifImageFormatDto.cs:154-174 | after one copied unit the bytes before the start offset are untouched and the invariant holds at the new cursors |
| UnitWalk.CopiedLast | ImageSample/Utils/Dto/PngImageFormatDto.cs:97-106 | after the copied last unit the output between the start offset and the new cursor is the walk's whole output |
| UnitWalk.Walk | ImageSample/Utils/Dto/GifImageFormatDto.cs:150-179 | the output of the cursor loop shared by GetBlocks, GetSegments (JpegImageFormatDto.cs:116-152) and GetChunks (PngImageFormatDto.cs:89-114); a successful walk is never longer than the input that remains from its start |
| UnitWalk.WalkRewalk | ImageSample/Utils/Dto/GifImageFormatDto.cs:150-179 | when every kept unit the walk meets is self-delimiting (scans the same wherever its bytes are copied), walking the walk's output again, wherever it stands as the tail of a buffer, gives that output back |
| UnitWalk.WalkIdentity | ImageSample/Utils/Dto/JpegImageFormatDto.cs:116-152 | the walk reproduces the rest of the input exactly when every unit is kept and the units run to the last byte |
| Gif.ChainCopied | ImageSample/Utils/Dto/GifImageFormatDto.cs:195-207 | the sub-block chain loop measures a copied chain to the same length, since it reads only the chain's own size bytes |
| Gif.ImageBlockCopied | ImageSample/Utils/Dto/GifImageFormatDto.cs:188-212 | an image block copied elsewhere gets the same size: packed field, colour table and sub-block chain all lie inside it |
| Gif.BlockCopied | ImageSample/Utils/Dto/GifImageFormatDto.cs:155-173 | a kept block (image block, Graphic Control extension or trailer) scans the same wherever its bytes are copied |
| Gif.BlockWalkSelfDelimiting | ImageSample/Utils/Dto/GifImageFormatDto.cs:150-179 | every block the GetBlocks loop meets is self-delimiting |
| Gif.StripIdempotent | ImageSample/Utils/Dto/GifImageFormatDto.cs:93-106 | stripping a stripped GIF returns it unchanged |
| Gif.Detect | ImageSample/Utils/Dto/GifImageFormatDto.cs:77-80 | true exactly when bytes 0-2 are "GIF" and bytes 3-5 are "87a" or "89a"; a fault only on an input shorter than 6 bytes |
| Gif.GetColorTableSize | ImageSample/Utils/Dto/GifImageFormatDto.cs:115-125 | 0 when bit 0x80 is clear; otherwise the entry of the table 6, 12, 24, 48, 96, 192, 384, 768 that the low three bits select (three bytes times 2^(k+1)) |
| Gif.HeaderSize | ImageSample/Utils/Dto/GifImageFormatDto.cs:132-142 | sized exactly when the packed byte at 10 exists and 13 plus the global table fits the input; the size is between 13 and 13 + 768 |
| Gif.SubBlockChainEnd | ImageSample/Utils/Dto/GifImageFormatDto.cs:195-207 | the sub-block chain ends at or after its start, strictly after it on a non-empty input, and just past a 0x00 terminator when it ends inside the input |
| Gif.ImageBlockSize | ImageSample/Utils/Dto/GifImageFormatDto.cs:188-207 | sized exactly when the packed byte at offset 9 exists; the size is at least 11 |
| Gif.Extension | ImageSample/Utils/Dto/GifImageFormatDto.cs:222-247 | a Graphic Control extension is kept as 8 bytes; a Comment extension is dropped as 4 plus the byte at offset 2, a Plain Text one as 17 plus the byte at 15, an Application one as 16 plus the byte at 14; it faults exactly when the label or the size byte its label needs lies past the end, or the label is none of the four; never a silent stop |
| Gif.Block | ImageSample/Utils/Dto/GifImageFormatDto.cs:154-173 | the walk stops silently exactly at the end or at an unrecognised leading byte; the trailer is the only last unit and is kept as one byte; only extensions are dropped; at 0x21 it is exactly Extension's decision; an image block is kept at ImageBlockSize |
| Gif.Strip | ImageSample/Utils/Dto/GifImageFormatDto.cs:93-106 | a successful strip starts with the input's header verbatim and is between the header size and the input length |
| Gif.StripKeepsSignature | ImageSample/Utils/Dto/GifImageFormatDto.cs:77-80 | a stripped GIF is detected as a GIF again |
| Gif.StripIdentity | ImageSample/Utils/Dto/GifImageFormatDto.cs:150-179 | stripping returns the input unchanged exactly when the header fits and the block walk keeps everything to the last byte |
| Gif.CommentedGifDetected | ImageSample/Utils/Dto/GifImageFormatDto.cs:132-142 | a GIF89a whose packed byte at 10 has bit 0x80 clear is detected and has a 13-byte header |
| Gif.CommentedGifImage | ImageSample/Utils/Dto/GifImageFormatDto.cs:188-212 | an image block without local colour table and with an immediate 0x00 terminator is a kept 12-byte unit |
| Gif.CommentedGifComment | ImageSample/Utils/Dto/GifImageFormatDto.cs:232-234 | a Comment extension whose size byte is 1 is a dropped 5-byte unit |
| Gif.WalkFromTrailer | ImageSample/Utils/Dto/GifImageFormatDto.cs:165-169 | the walk copies the trailer and stops |
| Gif.WalkFromComment | ImageSample/Utils/Dto/GifImageFormatDto.cs:161-164 | the walk skips the Comment extension and continues at the next block |
| Gif.WalkFromImage | ImageSample/Utils/Dto/GifImageFormatDto.cs:150-179 | the walk keeps the image block, drops the comment and keeps the trailer, in order |
| Gif.CommentRemoved | ImageSample/Utils/Dto/GifImageFormatDto.cs:93-106 | stripping such a GIF removes exactly the five bytes of its Comment extension, whatever the other bytes hold, and the result is still detected as a GIF |
| Gif.GifImageFormat.constructor | ImageSample/Utils/Dto/ImageFormatDto.cs:15 | ImageData is null before any strip |
| Gif.GifImageFormat.ImageData | ImageSample/Utils/Dto/ImageFormatDto.cs:13 | the property hands out the imageData buffer itself, not a copy, so the caller sees exactly what the last strip left there |
| Gif.GifImageFormat.CheckImageData | ImageSample/Utils/Dto/GifImageFormatDto.cs:77-80 | returns Detect |
| Gif.GifImageFormat.CreateImageDataNoMetaInfo | ImageSample/Utils/Dto/GifImageFormatDto.cs:93-106 | succeeds exactly when Strip does, and the fresh ImageData then holds exactly Strip's output |
| Gif.GifImageFormat.GetHeader | ImageSample/Utils/Dto/GifImageFormatDto.cs:132-142 | succeeds exactly when HeaderSize does; copies the header to offset 0 and leaves the rest of the buffer alone |
| Gif.GifImageFormat.GetBlocks | ImageSample/Utils/Dto/GifImageFormatDto.cs:150-179 | succeeds exactly when the block walk does; the new buffer is the old one up to the offset followed by the walk's output |
| Gif.GifImageFormat.GetImageBlock | ImageSample/Utils/Dto/GifImageFormatDto.cs:188-212 | succeeds exactly when the image block can be copied; it is copied whole and both cursors move by its size |
| Gif.GifImageFormat.MeasureImageBlock | ImageSample/Utils/Dto/GifImageFormatDto.cs:190-207 | the sub-block loop computes ImageBlockSize |
| Gif.GifImageFormat.WriteTrailer | ImageSample/Utils/Dto/GifImageFormatDto.cs:165-169 | the trailer byte is written at the output cursor, which moves by one |
| Gif.GifImageFormat.GetExtension | ImageSample/Utils/Dto/GifImageFormatDto.cs:222-247 | succeeds exactly when the extension's step advances; a kept one is copied, a dropped one moves only the source cursor; nothing changes on failure |
| Jpeg.Detect | ImageSample/Utils/Dto/JpegImageFormatDto.cs:42-45 | true exactly when the input starts FF D8; false exactly when byte 0 or byte 1 is present and differs |
| Jpeg.ScanDataSize | ImageSample/Utils/Dto/JpegImageFormatDto.cs:80-109 | zero at the end of the input and never reaching past it |
| Jpeg.ScanDataSizeStops | ImageSample/Utils/Dto/JpegImageFormatDto.cs:84-106 | the counted scan data is plain bytes and FF 00 / FF D0-D7 pairs, and it ends at the end of input, at a final lone FF, or just before FF followed by any other byte |
| Jpeg.Segment | ImageSample/Utils/Dto/JpegImageFormatDto.cs:120-147 | the walk stops exactly at a byte other than FF; SOI and EOI are 2 bytes; other segments are 2 plus the big-endian length, and SOS adds its scan data; kept exactly when the marker is not APP1-APP13, APP15 or COM; faults exactly on a marker name or length past the end or an SOS whose scan data would start past Int32Max |
| Jpeg.Strip | ImageSample/Utils/Dto/JpegImageFormatDto.cs:57-70 | a successful strip starts with FF D8 and is between 2 bytes and the input length |
| Jpeg.StripKeepsSignature | ImageSample/Utils/Dto/JpegImageFormatDto.cs:59-60 | a stripped JPEG is detected as a JPEG again |
| Jpeg.StripIdentity | ImageSample/Utils/Dto/JpegImageFormatDto.cs:116-152 | stripping a detected JPEG returns it unchanged exactly when every segment from offset 2 is kept and they run to the last byte |
| Jpeg.CommentedJpegFromEoi | ImageSample/Utils/Dto/JpegImageFormatDto.cs:127-129 | EOI is a 2-byte segment without a length field and is kept |
| Jpeg.CommentedJpegFromSos | ImageSample/Utils/Dto/JpegImageFormatDto.cs:135-138 | an SOS segment is kept together with the scan data that follows it, up to the next marker |
| Jpeg.CommentedJpegFromCom | ImageSample/Utils/Dto/JpegImageFormatDto.cs:140-146 | a COM segment is skipped whole |
| Jpeg.CommentedJpegFromApp0 | ImageSample/Utils/Dto/JpegImageFormatDto.cs:140-144 | an APP0 segment is kept |
| Jpeg.CommentRemoved | ImageSample/Utils/Dto/JpegImageFormatDto.cs:116-152 | stripping the sample JPEG removes exactly the eight bytes of its COM segment |
| Jpeg.RestartAfterCommentFirstPass | ImageSample/Utils/Dto/JpegImageFormatDto.cs:116-152 | stripping the 19-byte sample drops its COM segment and keeps the RST0 marker that follows the COM segment (read as a segment of length 4) and EOI |
| Jpeg.RestartAfterCommentScanData | ImageSample/Utils/Dto/JpegImageFormatDto.cs:80-109 | in the 19-byte sample, the scan data after SOS stops at the COM marker after one byte |
| Jpeg.StrippedScanData | ImageSample/Utils/Dto/JpegImageFormatDto.cs:80-109 | once COM is gone, the same scan data runs over FF D0 as a restart marker and stops at FF E1 |
| Jpeg.RestartAfterCommentSecondPass | ImageSample/Utils/Dto/JpegImageFormatDto.cs:116-152 | stripping the once-stripped sample again drops FF E1 as APP1 and everything after it |
| Jpeg.StripNotIdempotent | ImageSample/Utils/Dto/JpegImageFormatDto.cs:57-70 | there is an input whose strip succeeds and whose second strip differs from the first |
| Jpeg.JpegImageFormat.constructor | ImageSample/Utils/Dto/ImageFormatDto.cs:15 | ImageData is null before any strip |
| Jpeg.JpegImageFormat.ImageData | ImageSample/Utils/Dto/ImageFormatDto.cs:13 | the property hands out the imageData buffer itself, not a copy, so the caller sees exactly what the last strip left there |
| Jpeg.JpegImageFormat.CheckImageData | ImageSample/Utils/Dto/JpegImageFormatDto.cs:42-45 | returns Detect |
| Jpeg.JpegImageFormat.CreateImageDataNoMetaInfo | ImageSample/Utils/Dto/JpegImageFormatDto.cs:57-70 | succeeds exactly when Strip does, and the fresh ImageData then holds exactly Strip's output |
| Jpeg.JpegImageFormat.GetScanDataSize | ImageSample/Utils/Dto/JpegImageFormatDto.cs:80-109 | the byte loop with its pending-marker flag computes ScanDataSize |
| Jpeg.JpegImageFormat.GetSegmentSize | ImageSample/Utils/Dto/JpegImageFormatDto.cs:127-138 | sizes the segment exactly when Segment finds a unit, with Segment's size |
| Jpeg.JpegImageFormat.GetSegment | ImageSample/Utils/Dto/JpegImageFormatDto.cs:127-146 | succeeds exactly when the segment's step advances; a kept segment is copied, a dropped one moves only the source cursor; nothing changes on failure |
| Jpeg.JpegImageFormat.GetSegments | ImageSample/Utils/Dto/JpegImageFormatDto.cs:116-152 | succeeds exactly when the segment walk from offset 2 does; the new buffer is SOI followed by the walk's output |
| Png.Detect | ImageSample/Utils/Dto/PngImageFormatDto.cs:11-24 | true exactly when the input starts with the 8-byte PNG signature; a fault only on an input shorter than 8 bytes |
| Png.ChunkLength | ImageSample/Utils/Dto/PngImageFormatDto.cs:95 | the length field is the big-endian 32-bit value taken as a two's-complement int |
| Png.ChunkSize | ImageSample/Utils/Dto/PngImageFormatDto.cs:96 | 12 plus the length with int wrap-around; exactly 12 plus the unsigned length when that fits |
| Png.IgnoredIsNotTrailer | ImageSample/Utils/Dto/PngImageFormatDto.cs:13-15 | no chunk type is both textual and IEND |
| Png.Chunk | ImageSample/Utils/Dto/PngImageFormatDto.cs:93-108 | a chunk is 12 plus its length; kept exactly when its type is not tEXt, zTXt or iTXt; last exactly when its type is IEND, and IEND is always kept; the walk stops silently only at the end or at an IEND of size 0; it faults exactly when the length field or a type test runs off the input, or the size is below 1 (a non-textual chunk of negative size included) other than an IEND of size 0 |
| Png.ChunkOutcome | ImageSample/Utils/Dto/PngImageFormatDto.cs:97-108 | proof step for NextChunk: once both type tests have been read, the chunk's step is its size, its textual flag and its IEND flag put together as in Chunk |
| Png.Strip | ImageSample/Utils/Dto/PngImageFormatDto.cs:37-50 | a successful strip starts with the signature and is between 8 bytes and the input length |
| Png.ChunkCopied | ImageSample/Utils/Dto/PngImageFormatDto.cs:93-108 | a kept chunk with a non-negative length scans the same wherever its bytes are copied: its length and type fields lie inside it |
| Png.ChunkWalkSelfDelimiting | ImageSample/Utils/Dto/PngImageFormatDto.cs:89-114 | when no chunk the GetChunks loop meets has a negative length, every chunk it meets is self-delimiting |
| Png.StripIdempotent | ImageSample/Utils/Dto/PngImageFormatDto.cs:37-50 | stripping a stripped PNG returns it unchanged, when no chunk of the input has a negative length |
| Png.StripKeepsSignature | ImageSample/Utils/Dto/PngImageFormatDto.cs:39-40 | a stripped PNG is detected as a PNG again |
| Png.StripIdentity | ImageSample/Utils/Dto/PngImageFormatDto.cs:89-114 | stripping a detected PNG returns it unchanged exactly when every chunk from offset 8 is kept and they run to the last byte |
| Png.TextPngIend | ImageSample/Utils/Dto/PngImageFormatDto.cs:103-106 | an empty IEND chunk is a kept 12-byte last unit |
| Png.TextPngText | ImageSample/Utils/Dto/PngImageFormatDto.cs:97-101 | a tEXt chunk with 11 data bytes is a dropped 23-byte unit |
| Png.TextPngIhdr | ImageSample/Utils/Dto/PngImageFormatDto.cs:95-101 | an IHDR chunk with 13 data bytes is a kept 25-byte unit |
| Png.WalkFromIend | ImageSample/Utils/Dto/PngImageFormatDto.cs:103-106 | the walk copies IEND and stops |
| Png.WalkFromText | ImageSample/Utils/Dto/PngImageFormatDto.cs:97-108 | the walk skips tEXt and continues at the next chunk |
| Png.WalkFromIhdr | ImageSample/Utils/Dto/PngImageFormatDto.cs:89-109 | the walk keeps IHDR, drops tEXt and keeps IEND, in order |
| Png.TextChunkRemoved | ImageSample/Utils/Dto/PngImageFormatDto.cs:37-50 | stripping such a PNG removes exactly the 23 bytes of its tEXt chunk |
| Png.PngImageFormat.constructor | ImageSample/Utils/Dto/ImageFormatDto.cs:15 | ImageData is null before any strip |
| Png.PngImageFormat.ImageData | ImageSample/Utils/Dto/ImageFormatDto.cs:13 | the property hands out the imageData buffer itself, not a copy, so the caller sees exactly what the last strip left there |
| Png.PngImageFormat.CheckMagicNumber | ImageSample/Utils/Dto/ImageFormatDto.cs:35-46 | returns Detect |
| Png.PngImageFormat.CreateImageNoMetaInfo | ImageSample/Utils/Dto/PngImageFormatDto.cs:37-50 | succeeds exactly when Strip does, and the fresh ImageData then holds exactly Strip's output |
| Png.PngImageFormat.CheckIgnoreChunkType | ImageSample/Utils/Dto/PngImageFormatDto.cs:60-71 | the loop over the textual types returns MatchAny of them at the type field |
| Png.PngImageFormat.CheckImageTrailerChunkType | ImageSample/Utils/Dto/PngImageFormatDto.cs:79-82 | compares IEND at the type field |
| Png.PngImageFormat.ReadChunkSize | ImageSample/Utils/Dto/PngImageFormatDto.cs:95-96 | reversed slice, ToInt32 and the unchecked add compute ChunkSize |
| Png.PngImageFormat.GetChunk | ImageSample/Utils/Dto/PngImageFormatDto.cs:95-108 | succeeds exactly when the chunk's step advances or stops silently; it signals the end exactly at IEND, copies a kept chunk and moves only the source cursor past a dropped one |
| Png.PngImageFormat.CopyChunk | ImageSample/Utils/Dto/PngImageFormatDto.cs:97-101 | the copy half of one iteration with the same guarantee as GetChunk |
| Png.ChunkCopyOutcome | ImageSample/Utils/Dto/PngImageFormatDto.cs:97-108 | proof step for CopyChunk: the chunk's step and the block copy (nothing written for a textual chunk) make the iteration one copied unit; an IEND of size 0 leaves the buffer as it was |
| Png.PngImageFormat.NextChunk | ImageSample/Utils/Dto/PngImageFormatDto.cs:103-108 | the IEND test and the cursor advance: the source cursor moves by the chunk's size, and the end is signalled exactly at IEND |
| Png.PngImageFormat.GetChunks | ImageSample/Utils/Dto/PngImageFormatDto.cs:89-114 | succeeds exactly when the chunk walk from offset 8 does; the new buffer is the signature followed by the walk's output |
| ImageValidation.LowerChar | ImageSample/Utils/Services/ImageValidationService.cs:20 | maps A-Z to a-z and keeps every other character; never returns an upper-case letter |
| ImageValidation.ToLower | ImageSample/Utils/Services/ImageValidationService.cs:20 | same length, LowerChar at every position |
| ImageValidation.ToLowerIdempotent | ImageSample/Utils/Services/ImageValidationService.cs:20 | lower-casing twice is lower-casing once |
| ImageValidation.CodecFor | ImageSample/Utils/Services/ImageValidationService.cs:21-38 | PNG exactly for ".png", JPEG exactly for ".jpg" or ".jpeg", GIF exactly for ".gif", after lower-casing |
| ImageValidation.CodecForIgnoresCase | ImageSample/Utils/Services/ImageValidationService.cs:20-38 | an extension and its lower-cased form select the same codec |
| ImageValidation.StripShrinksAndKeepsSignature | ImageSample/Utils/Services/ImageValidationService.cs:47-52 | the image to be written is no longer than the input and passes the same codec's magic-number check |
| ImageValidation.Check | ImageSample/Utils/Services/ImageValidationService.cs:41-54 | written exactly when detection is true and the strip succeeds, and then the image is the strip's output; a throw exactly when detection faults, which needs an input under 8 bytes |
| ImageValidation.Validate | ImageSample/Utils/Services/ImageValidationService.cs:7-54 | over 10 MiB or an unknown extension is refused; written exactly when the size, extension, detection and strip checks all pass; the written image is the strip's output, no longer than the input, and re-detected by its codec |
| ImageValidation.ValidateIgnoresCase | ImageSample/Utils/Services/ImageValidationService.cs:20 | upper- and lower-case spellings of the extension give the same outcome |
| ImageValidation.ValidationImage | ImageSample/Utils/Services/ImageValidationService.cs:7-54 | the size check and the extension switch produce Validate's outcome |
| ImageValidation.CheckPng | ImageSample/Utils/Services/ImageValidationService.cs:23-25 | the ".png" arm (a PNG object, its magic-number check, then its strip) produces Check for PNG |
| ImageValidation.CheckJpeg | ImageSample/Utils/Services/ImageValidationService.cs:27-30 | the ".jpg"/".jpeg" arm produces Check for JPEG |
| ImageValidation.CheckGif | ImageSample/Utils/Services/ImageValidationService.cs:32-34 | the ".gif" arm produces Check for GIF |

## Left out

- I/O:
  - `stream.Read` and its discarded count, `Path.GetExtension` and `File.WriteAllBytes` are replaced by the input bytes, the extension string and the `Written` outcome.
  - The file name itself and the `MainWindow` drag-and-drop UI are not part of this model.
- ImageValidation.LowerChar: `string.ToLower` is culture-sensitive, and in a Turkish culture "I" becomes dotless "ı", so ".GIF" is no GIF extension there; only ASCII A-Z is mapped here, as in an invariant culture.
- ImageValidation.ToLower: built on LowerChar, with the same limitation.
- The `IImageFormatDto` interface and the `ImageFormatDto` inheritance:
  - `ValidationImage` dispatches with an explicit if-chain to three separate classes.
  - PNG is driven through `CheckMagicNumber`/`CreateImageNoMetaInfo` and GIF/JPEG through `CheckImageData`/`CreateImageDataNoMetaInfo`, as each file declares them.
  - `ImageFormat.CheckMagicNumber` takes the magic-number list as a parameter in place of the abstract `MagickNumbers` property.
- Exceptions:
  - A throw that the strip methods catch is a failed strip (`ok` false, `Strip` None).
  - A throw from a magic-number check escapes `ValidationImage`, and is the `Thrown` outcome.
- Png.Chunk departs from the C# code in two size cases, where the code would loop forever or move its cursor backwards:
  - A kept chunk whose int size is 0 and that is not `IEND` leaves the C# cursor in place, so the loop never ends. The model calls it a fault.
  - A dropped textual chunk whose size is 0 or negative leaves the cursor in place or moves it backwards. The model calls it a fault.

  One further size case matches the code: an `IEND` of size 0 copies nothing and ends the walk.
- Jpeg.JpegImageFormat.CreateImageDataNoMetaInfo: requires at least 2 input bytes. On a shorter input the C# copy of SOI, outside the try block, throws to the caller; the dispatcher only strips data whose SOI it has matched. On failure only the buffer's length is stated, not the partly written contents the C# code leaves behind; `ValidationImage` never reads them.
- Png.PngImageFormat.CreateImageNoMetaInfo: requires at least 8 input bytes, for the same reason with the signature copy. On failure only the buffer's length is stated, not its partly written contents.
- Gif.GifImageFormat.CreateImageDataNoMetaInfo: on failure only the buffer's length is stated, not the partly written contents the C# code leaves behind. `ValidationImage` never reads them.
- Png.StripIdempotent: proved only for inputs where no chunk the walk meets has a negative length field. A kept chunk of size 1 to 11 (a length of -11 to -1) is typed from bytes beyond its own end, so after stripping, those bytes may belong to another chunk and the second pass can read it differently.
- Jpeg.Strip: stripping twice is not the same as stripping once, and `Jpeg.StripNotIdempotent` exhibits a 19-byte input. Scan data after SOS is counted up to the next 0xFF not followed by 0x00 or RST0-RST7. Removing a segment can join the scan data to bytes that followed the removed segment. Those bytes then count as scan data, and the second pass parses the rest differently.
- `BitConverter` is modelled for a little-endian host only.
- `Math.Pow(2, k)` is modelled as exact integer 2^k; it is exact for the exponents 1 to 8 the colour table uses.
- GIF Comment, Plain Text and Application extensions are sized from one block-size byte, as the code does. The multi-sub-block chains GIF89a allows are not followed.
- The code does none of the following, and neither does the model: CRC checks, pixel decoding, colour-table or ICC semantics.
- A GIF or PNG walk that reaches the end of input without a trailer or `IEND` succeeds, exactly as the code does; no terminator is required.

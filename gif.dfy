/**
 * The GIF codec (GifImageFormatDto.cs): detection by signature and version,
 * and a strip pass that keeps the header with its global colour table, image
 * blocks, Graphic Control extensions and the trailer, and drops Comment,
 * Plain Text and Application extensions (GIF89a sections 17 to 27).
 */
module Gif {
  import opened ImageFormat
  import opened UnitWalk

  const Signature: seq<byte> := [0x47, 0x49, 0x46]
  const Version87a: seq<byte> := [0x38, 0x37, 0x61]
  const Version89a: seq<byte> := [0x38, 0x39, 0x61]

  const ImageSeparator: byte := 0x2C
  const ExtensionIntroducer: byte := 0x21
  const BlockTerminator: byte := 0x00
  const GifTrailer: byte := 0x3B

  const GraphicControlLabel: byte := 0xF9
  const CommentLabel: byte := 0xFE
  const PlainTextLabel: byte := 0x01
  /** The Application Extension label (named ExtensionLabel in the source). */
  const ExtensionLabel: byte := 0xFF

  const HeaderPackedFieldOffset: nat := 10
  const ImageBlockPackedFieldOffset: nat := 9
  const ExtensionLabelOffset: nat := 1
  const CommentBlockSizeOffset: nat := 2
  const PlainTextBlockSizeOffset: nat := 15
  const ExtensionBlockSizeOffset: nat := 14

  const HeaderBaseSize: nat := 13
  const ImageBlockBaseSize: nat := 11
  const GraphicControlBaseSize: nat := 8
  const CommentBaseSize: nat := 4
  const PlainTextBaseSize: nat := 17
  const ExtensionBaseSize: nat := 16
  const ColorSize: nat := 3

  /** CheckImageData: bytes 0-2 are "GIF" and bytes 3-5 are "87a" or "89a"; None when a comparison runs off a short input. */
  function Detect(data: seq<byte>): (r: Option<bool>)
    ensures r == Some(true) <==>
      |data| >= 6 && data[..3] == Signature && (data[3..6] == Version87a || data[3..6] == Version89a)
    ensures r.None? ==> |data| < 6
  {
    match Compare(Signature, data, 0)
    case None => None
    case Some(false) => Some(false)
    case Some(true) =>
      match Compare(Version87a, data, |Signature|)
      case None => None
      case Some(true) => Some(true)
      case Some(false) => Compare(Version89a, data, |Signature|)
  }

  function Pow2(k: nat): (r: nat)
    ensures r >= 1
    ensures k >= 1 ==> r == 2 * Pow2(k - 1)
  {
    if k == 0 then 1 else 2 * Pow2(k - 1)
  }

  /**
   * GetColorTableSize: the colour table a packed field announces. For a
   * byte, `packedField & 0x80` is set exactly when packedField >= 0x80 and
   * `packedField & 0x07` is packedField % 8; Math.Pow(2, k) is exact for k in
   * 1..8.
   */
  function GetColorTableSize(packedField: byte): (r: nat)
    ensures packedField < 0x80 ==> r == 0
    ensures packedField >= 0x80 ==> r == [6, 12, 24, 48, 96, 192, 384, 768][packedField % 8]
  {
    if packedField >= 0x80 then
      var sizeOfColorTable := packedField % 8 + 1;
      assert Pow2(sizeOfColorTable) == [2, 4, 8, 16, 32, 64, 128, 256][packedField % 8] by {
        assert Pow2(1) == 2 && Pow2(2) == 4 && Pow2(3) == 8 && Pow2(4) == 16;
        assert Pow2(5) == 32 && Pow2(6) == 64 && Pow2(7) == 128 && Pow2(8) == 256;
      }
      ColorSize * Pow2(sizeOfColorTable)
    else
      0
  }

  /**
   * GetHeader's size: the 13-byte header and the global colour table the
   * packed field at offset 10 announces. None when that byte or the copy of
   * the header lies past the end of the input.
   */
  function HeaderSize(data: seq<byte>): (r: Option<nat>)
    ensures r.Some? <==>
      (|data| > HeaderPackedFieldOffset &&
       HeaderBaseSize + GetColorTableSize(data[HeaderPackedFieldOffset]) <= |data|)
    ensures r.Some? ==> HeaderBaseSize <= r.value <= |data| && r.value <= HeaderBaseSize + 768
  {
    if |data| <= HeaderPackedFieldOffset then None
    else
      var headerSize := HeaderBaseSize + GetColorTableSize(data[HeaderPackedFieldOffset]);
      if headerSize <= |data| then Some(headerSize) else None
  }

  /**
   * Where the image-data sub-block chain that starts at pos ends: just past
   * its 0x00 terminator, or where the chain first reaches or passes the end
   * of the input.
   */
  function SubBlockChainEnd(data: seq<byte>, pos: nat): (r: nat)
    ensures r >= pos
    ensures pos < |data| ==> r > pos
    ensures r < |data| ==> data[r - 1] == BlockTerminator
    decreases |data| - pos
  {
    if pos >= |data| then pos
    else if data[pos] == BlockTerminator then pos + 1
    else SubBlockChainEnd(data, pos + data[pos] + 1)
  }

  /** GetImageBlock's size: descriptor, local colour table, sub-block chain and its terminator. */
  function ImageBlockSize(data: seq<byte>, src: nat): (r: Option<nat>)
    ensures r.Some? <==> src + ImageBlockPackedFieldOffset < |data|
    ensures r.Some? ==> r.value >= ImageBlockBaseSize
  {
    if src + ImageBlockPackedFieldOffset >= |data| then None
    else
      var colorTableSize := GetColorTableSize(data[src + ImageBlockPackedFieldOffset]);
      Some(SubBlockChainEnd(data, src + ImageBlockBaseSize + colorTableSize) - src)
  }

  /**
   * GetExtension's decision for the extension at src: a Graphic Control
   * extension is kept as 8 bytes; Comment, Plain Text and Application
   * extensions are skipped by the size their one block-size byte gives; any
   * other label throws.
   */
  function Extension(data: seq<byte>, src: nat): (r: Scan)
    ensures !r.Halt?
    ensures r.Unit? ==> !r.last && src + ExtensionLabelOffset < |data|
    ensures r.Unit? && r.keep <==>
      src + ExtensionLabelOffset < |data| && data[src + ExtensionLabelOffset] == GraphicControlLabel
    ensures r.Unit? && r.keep ==> r.size == GraphicControlBaseSize
    ensures r.Unit? && !r.keep ==>
      data[src + ExtensionLabelOffset] in {CommentLabel, PlainTextLabel, ExtensionLabel}
    ensures src + ExtensionLabelOffset < |data| && data[src + ExtensionLabelOffset] == GraphicControlLabel ==>
      r == Unit(true, GraphicControlBaseSize, false)
    ensures src + CommentBlockSizeOffset < |data| && data[src + ExtensionLabelOffset] == CommentLabel ==>
      r == Unit(false, CommentBaseSize + data[src + CommentBlockSizeOffset], false)
    ensures src + PlainTextBlockSizeOffset < |data| && data[src + ExtensionLabelOffset] == PlainTextLabel ==>
      r == Unit(false, PlainTextBaseSize + data[src + PlainTextBlockSizeOffset], false)
    ensures src + ExtensionBlockSizeOffset < |data| && data[src + ExtensionLabelOffset] == ExtensionLabel ==>
      r == Unit(false, ExtensionBaseSize + data[src + ExtensionBlockSizeOffset], false)
    ensures r.Fault? <==>
      src + ExtensionLabelOffset >= |data| ||
      data[src + ExtensionLabelOffset] !in {GraphicControlLabel, CommentLabel, PlainTextLabel, ExtensionLabel} ||
      (data[src + ExtensionLabelOffset] == CommentLabel && src + CommentBlockSizeOffset >= |data|) ||
      (data[src + ExtensionLabelOffset] == PlainTextLabel && src + PlainTextBlockSizeOffset >= |data|) ||
      (data[src + ExtensionLabelOffset] == ExtensionLabel && src + ExtensionBlockSizeOffset >= |data|)
  {
    if src + ExtensionLabelOffset >= |data| then Fault
    else
      var extensionLabel := data[src + ExtensionLabelOffset];
      if extensionLabel == GraphicControlLabel then
        Unit(true, GraphicControlBaseSize, false)
      else if extensionLabel == CommentLabel then
        if src + CommentBlockSizeOffset >= |data| then Fault
        else Unit(false, CommentBaseSize + data[src + CommentBlockSizeOffset], false)
      else if extensionLabel == PlainTextLabel then
        if src + PlainTextBlockSizeOffset >= |data| then Fault
        else Unit(false, PlainTextBaseSize + data[src + PlainTextBlockSizeOffset], false)
      else if extensionLabel == ExtensionLabel then
        if src + ExtensionBlockSizeOffset >= |data| then Fault
        else Unit(false, ExtensionBaseSize + data[src + ExtensionBlockSizeOffset], false)
      else
        Fault
  }

  /**
   * One iteration of GetBlocks: an image block is kept whole, an extension
   * as Extension decides, the trailer is kept as one byte and ends the walk,
   * and any other leading byte ends it silently.
   */
  function Block(data: seq<byte>, src: nat): (r: Scan)
    ensures r.Halt? <==> src >= |data| || data[src] !in {ImageSeparator, ExtensionIntroducer, GifTrailer}
    ensures r.Unit? && r.last <==> src < |data| && data[src] == GifTrailer
    ensures r.Unit? && r.last ==> r.keep && r.size == 1
    ensures r.Unit? && !r.keep ==> data[src] == ExtensionIntroducer
    ensures src < |data| && data[src] == ExtensionIntroducer ==> r == Extension(data, src)
    ensures src < |data| && data[src] == ImageSeparator ==>
      (r.Unit? <==> ImageBlockSize(data, src).Some?) &&
      (r.Unit? ==> r.keep && r.size == ImageBlockSize(data, src).value)
  {
    if src >= |data| then Halt
    else if data[src] == ImageSeparator then
      match ImageBlockSize(data, src)
      case None => Fault
      case Some(size) => Unit(true, size, false)
    else if data[src] == ExtensionIntroducer then Extension(data, src)
    else if data[src] == GifTrailer then Unit(true, 1, true)
    else Halt
  }

  /**
   * CreateImageDataNoMetaInfo's output: the header verbatim followed by the
   * kept blocks in input order; None when the pass throws.
   */
  function Strip(data: seq<byte>): (r: Option<seq<byte>>)
    ensures r.Some? ==> HeaderSize(data).Some?
    ensures r.Some? ==> HeaderSize(data).value <= |r.value| <= |data|
    ensures r.Some? ==> r.value[..HeaderSize(data).value] == data[..HeaderSize(data).value]
  {
    match HeaderSize(data)
    case None => None
    case Some(headerSize) =>
      Prepend(data[..headerSize], Walk(Block, data, headerSize))
  }

  /** A stripped GIF still carries the signature and version it was detected by. */
  lemma StripKeepsSignature(data: seq<byte>)
    requires Detect(data) == Some(true) && Strip(data).Some?
    ensures Detect(Strip(data).value) == Some(true)
  {
    var out := Strip(data).value;
    assert out[..6] == data[..6] by {
      assert out[..HeaderSize(data).value][..6] == data[..HeaderSize(data).value][..6];
    }
    assert out[..3] == out[..6][..3] && out[3..6] == out[..6][3..6];
    assert data[..3] == data[..6][..3] && data[3..6] == data[..6][3..6];
  }

  /** Stripping leaves a GIF unchanged exactly when its header fits and its block walk keeps everything up to the last byte. */
  lemma StripIdentity(data: seq<byte>)
    ensures Strip(data) == Some(data) <==>
      HeaderSize(data).Some? && Verbatim(Block, data, HeaderSize(data).value)
  {
    if HeaderSize(data).Some? {
      var headerSize := HeaderSize(data).value;
      WalkIdentity(Block, data, headerSize);
      var rest := Walk(Block, data, headerSize);
      assert data == data[..headerSize] + data[headerSize..];
      if rest.Some? {
        assert (data[..headerSize] + rest.value)[headerSize..] == rest.value;
      }
    }
  }

  /**
   * A sub-block chain copied elsewhere ends at the same distance from its
   * start, provided the copy also ends the input when the chain ran up to the
   * end of the input.
   */
  lemma {:induction false} ChainCopied(data: seq<byte>, pos: nat, end: nat, copy: seq<byte>, dst: nat)
    requires end == SubBlockChainEnd(data, pos) && end <= |data|
    requires dst + (end - pos) <= |copy|
    requires forall i :: pos <= i < end ==> copy[dst + (i - pos)] == data[i]
    requires end == |data| ==> dst + (end - pos) == |copy|
    ensures SubBlockChainEnd(copy, dst) - dst == end - pos
    decreases |data| - pos
  {
    if pos < |data| {
      assert copy[dst + (pos - pos)] == data[pos];
      if data[pos] != BlockTerminator {
        ChainStep(data, pos);
        ChainStep(copy, dst);
        ChainCopied(data, pos + data[pos] + 1, end, copy, dst + copy[dst] + 1);
      }
    }
  }

  /** One link of a sub-block chain: a non-zero size byte is skipped together with its sub-block. */
  lemma ChainStep(data: seq<byte>, pos: nat)
    requires pos < |data| && data[pos] != BlockTerminator
    ensures SubBlockChainEnd(data, pos) == SubBlockChainEnd(data, pos + data[pos] + 1)
  {
  }

  /** An image block copied elsewhere measures the same there. */
  lemma ImageBlockCopied(data: seq<byte>, src: nat, size: nat, copy: seq<byte>, dst: nat)
    requires ImageBlockSize(data, src) == Some(size)
    requires src + size <= |data| && dst + size <= |copy|
    requires forall i :: src <= i < src + size ==> copy[dst + (i - src)] == data[i]
    requires src + size == |data| ==> dst + size == |copy|
    ensures ImageBlockSize(copy, dst) == Some(size)
  {
    assert copy[dst + (src + ImageBlockPackedFieldOffset - src)] == data[src + ImageBlockPackedFieldOffset];
    var start := ImageBlockChains(data, src, copy, dst);
    forall i | src + start <= i < src + size
      ensures copy[(dst + start) + (i - (src + start))] == data[i]
    {
      assert copy[dst + (i - src)] == data[i];
    }
    ChainCopied(data, src + start, src + size, copy, dst + start);
  }

  /**
   * Two image blocks with the same packed field: each one's size is where its
   * sub-block chain, starting the same number of bytes in, ends.
   */
  lemma ImageBlockChains(data: seq<byte>, src: nat, copy: seq<byte>, dst: nat) returns (start: nat)
    requires src + ImageBlockPackedFieldOffset < |data| && dst + ImageBlockPackedFieldOffset < |copy|
    requires copy[dst + ImageBlockPackedFieldOffset] == data[src + ImageBlockPackedFieldOffset]
    ensures start == ImageBlockBaseSize + GetColorTableSize(data[src + ImageBlockPackedFieldOffset])
    ensures ImageBlockSize(data, src) == Some(SubBlockChainEnd(data, src + start) - src)
    ensures ImageBlockSize(copy, dst) == Some(SubBlockChainEnd(copy, dst + start) - dst)
  {
    start := ImageBlockBaseSize + GetColorTableSize(data[src + ImageBlockPackedFieldOffset]);
  }

  /** A kept block copied elsewhere scans the same there. */
  lemma BlockCopied(data: seq<byte>, src: nat, copy: seq<byte>, dst: nat)
    requires Block(data, src).Unit? && Block(data, src).keep
    requires Copies(data, src, Block(data, src).size, copy, dst)
    ensures Block(copy, dst) == Block(data, src)
  {
    var size := Block(data, src).size;
    CopiedByte(data, src, size, copy, dst, 0);
    if data[src] == ExtensionIntroducer {
      CopiedByte(data, src, size, copy, dst, ExtensionLabelOffset);
    } else if data[src] == ImageSeparator {
      CopiesPointwise(data, src, size, copy, dst);
      ImageBlockCopied(data, src, size, copy, dst);
    }
  }

  /** Every GIF block is self-delimiting. */
  lemma BlockSelfDelimiting(data: seq<byte>, src: nat)
    ensures SelfDelimiting(Block, data, src)
  {
    if Block(data, src).Unit? && Block(data, src).keep {
      forall copy: seq<byte>, dst: nat | Copies(data, src, Block(data, src).size, copy, dst)
        ensures Block(copy, dst) == Block(data, src)
      {
        BlockCopied(data, src, copy, dst);
      }
    }
  }

  lemma {:induction false} BlockWalkSelfDelimiting(data: seq<byte>, src: nat)
    ensures SelfDelimitingWalk(Block, data, src)
    decreases |data| - src
  {
    if src < |data| {
      BlockSelfDelimiting(data, src);
      if Block(data, src).Unit? && !Block(data, src).last {
        BlockWalkSelfDelimiting(data, src + Block(data, src).size);
      }
    }
  }

  /**
   * Stripping a stripped GIF changes nothing: the header is copied with the
   * packed field that sized it, and every block that was kept is met and kept
   * again.
   */
  lemma StripIdempotent(data: seq<byte>)
    requires Strip(data).Some?
    ensures Strip(Strip(data).value) == Strip(data)
  {
    var headerSize := HeaderSize(data).value;
    var out := Walk(Block, data, headerSize).value;
    var stripped := data[..headerSize] + out;
    assert Strip(data) == Some(stripped);
    assert stripped[HeaderPackedFieldOffset] == data[HeaderPackedFieldOffset];
    assert HeaderSize(stripped) == Some(headerSize);
    assert stripped[..headerSize] == data[..headerSize];
    assert stripped[headerSize..] == out;
    BlockWalkSelfDelimiting(data, headerSize);
    WalkRewalk(Block, data, headerSize, out, stripped, headerSize);
  }

  /**
   * A 31-byte GIF89a whose header announces no global colour table, with one
   * image block without local colour table and with an empty sub-block chain
   * (bytes 13-24), a Comment extension holding one byte of text (bytes
   * 25-29) and the trailer (byte 30). Every other byte is arbitrary.
   */
  ghost predicate IsCommentedGif(data: seq<byte>)
  {
    |data| == 31 && data[..3] == Signature && data[3..6] == Version89a &&
    data[HeaderPackedFieldOffset] < 0x80 &&
    data[13] == ImageSeparator && data[13 + ImageBlockPackedFieldOffset] < 0x80 && data[24] == BlockTerminator &&
    data[25] == ExtensionIntroducer && data[26] == CommentLabel && data[27] == 1 &&
    data[30] == GifTrailer
  }

  lemma CommentedGifDetected(data: seq<byte>)
    requires IsCommentedGif(data)
    ensures Detect(data) == Some(true) && HeaderSize(data) == Some(13)
  {
    assert Compare(Version87a, data, 3) == Some(false) by {
      assert data[3..6][1] == 0x39;
    }
  }

  lemma CommentedGifImage(data: seq<byte>)
    requires IsCommentedGif(data)
    ensures Block(data, 13) == Unit(true, 12, false)
  {
    assert SubBlockChainEnd(data, 24) == 25;
  }

  lemma CommentedGifComment(data: seq<byte>)
    requires IsCommentedGif(data)
    ensures Block(data, 25) == Unit(false, 5, false)
  {
  }

  lemma WalkFromTrailer(data: seq<byte>)
    requires IsCommentedGif(data)
    ensures Walk(Block, data, 30) == Some(data[30..])
  {
    assert Block(data, 30) == Unit(true, 1, true);
    assert data[30..30 + 1] == data[30..];
  }

  lemma WalkFromComment(data: seq<byte>)
    requires IsCommentedGif(data)
    ensures Walk(Block, data, 25) == Some(data[30..])
  {
    CommentedGifComment(data);
    WalkFromTrailer(data);
    WalkStep(Block, data, 25);
    assert [] + data[30..] == data[30..];
  }

  lemma WalkFromImage(data: seq<byte>)
    requires IsCommentedGif(data)
    ensures Walk(Block, data, 13) == Some(data[13..25] + data[30..])
  {
    CommentedGifImage(data);
    WalkFromComment(data);
    WalkStep(Block, data, 13);
  }

  /**
   * Stripping such a GIF removes exactly the five bytes of the Comment
   * extension and keeps the header, the image block and the trailer; the
   * result is still detected as a GIF.
   */
  lemma CommentRemoved(data: seq<byte>)
    requires IsCommentedGif(data)
    ensures Strip(data) == Some(data[..25] + data[30..])
    ensures Detect(Strip(data).value) == Some(true)
  {
    CommentedGifDetected(data);
    WalkFromImage(data);
    CommentedGifJoin(data);
    StripKeepsSignature(data);
  }

  lemma CommentedGifJoin(data: seq<byte>)
    requires |data| == 31
    ensures data[..13] + (data[13..25] + data[30..]) == data[..25] + data[30..]
  {
    assert data[..25] == data[..13] + data[13..25];
  }

  /** The GIF codec object: ImageData is the output buffer of the last strip, null before any. */
  class GifImageFormat {
    var imageData: array?<byte>

    constructor ()
      ensures imageData == null
    {
      imageData := null;
    }

    /** The processed image: the buffer field itself, not a copy. */
    function ImageData(): (r: array?<byte>)
      reads this
      ensures r == imageData
    {
      imageData
    }

    /** CheckImageData: the signature comparison, then the two version comparisons, short-circuited. */
    method CheckImageData(data: seq<byte>) returns (r: Option<bool>)
      ensures r == Detect(data)
    {
      var signature := CompareArray(Signature, data, 0);
      if signature != Some(true) {
        return signature;
      }
      var is87a := CompareArray(Version87a, data, |Signature|);
      if is87a != Some(false) {
        return is87a;
      }
      r := CompareArray(Version89a, data, |Signature|);
    }

    /**
     * CreateImageDataNoMetaInfo: a fresh output buffer as long as the input,
     * the header, then the blocks; on a fault the buffer is left at full
     * length and false is returned.
     */
    method CreateImageDataNoMetaInfo(data: Bytes) returns (ok: bool)
      modifies this
      ensures imageData != null && fresh(imageData)
      ensures ok <==> Strip(data).Some?
      ensures ok ==> imageData[..] == Strip(data).value
      ensures !ok ==> imageData.Length == |data|
    {
      imageData := new byte[|data|];
      var headerOk, offset := GetHeader(data);
      if !headerOk {
        return false;
      }
      ok := GetBlocks(data, offset);
    }

    /** GetHeader: copies the header and global colour table to the start of the output. */
    method GetHeader(data: Bytes) returns (ok: bool, headerSize: nat)
      requires imageData != null && imageData.Length == |data|
      modifies imageData
      ensures ok <==> HeaderSize(data).Some?
      ensures ok ==>
        headerSize == HeaderSize(data).value &&
        imageData[..] == data[..headerSize] + old(imageData[headerSize..])
      ensures !ok ==> imageData[..] == old(imageData[..])
    {
      if |data| <= HeaderPackedFieldOffset {
        // data[10] throws
        return false, 0;
      }
      var packedField := data[HeaderPackedFieldOffset];
      var colorTableSize := GetColorTableSize(packedField);
      headerSize := HeaderBaseSize + colorTableSize;
      ok := BlockCopy(data, 0, imageData, 0, headerSize);
      if ok {
        assert data[0..headerSize] == data[..headerSize];
        assert imageData[..] == [] + data[..headerSize] + old(imageData[headerSize..]);
      }
    }

    /**
     * GetBlocks: walks the blocks from offset, writing kept ones behind the
     * header, then truncates the buffer to what was written.
     */
    method GetBlocks(data: Bytes, offset: nat) returns (ok: bool)
      requires imageData != null && imageData.Length == |data| && offset <= |data|
      modifies this, imageData
      ensures imageData != null
      ensures ok <==> Walk(Block, data, offset).Some?
      ensures ok ==> fresh(imageData) && imageData[..] == old(imageData[..offset]) + Walk(Block, data, offset).value
      ensures !ok ==> imageData == old(imageData)
    {
      var srcOffset, dstOffset := offset, offset;
      ghost var start := imageData[..offset];
      while srcOffset < |data|
        invariant offset <= dstOffset <= srcOffset && dstOffset <= |data|
        invariant imageData == old(imageData)
        invariant imageData[..offset] == start
        invariant Produced(Block, data, offset, imageData[offset..dstOffset], srcOffset)
        decreases |data| - srcOffset
      {
        var blockId := data[srcOffset];
        ghost var before := imageData[..];
        var unitOk, nextSrc, nextDst;
        if blockId == ImageSeparator {
          unitOk, nextSrc, nextDst := GetImageBlock(data, srcOffset, dstOffset);
        } else if blockId == ExtensionIntroducer {
          unitOk, nextSrc, nextDst := GetExtension(data, srcOffset, dstOffset);
        } else if blockId == GifTrailer {
          nextDst := WriteTrailer(data, srcOffset, dstOffset);
          CopiedLast(Block, data, offset, srcOffset, dstOffset, before, imageData[..], srcOffset + 1, nextDst, offset);
          dstOffset := nextDst;
          break;
        } else {
          WalkStop(Block, data, offset, srcOffset, before[offset..dstOffset]);
          break;
        }
        if !unitOk {
          WalkFault(Block, data, offset, srcOffset, before[offset..dstOffset]);
          return false;
        }
        CopiedAdvance(Block, data, offset, srcOffset, dstOffset, before, imageData[..], nextSrc, nextDst, offset);
        srcOffset, dstOffset := nextSrc, nextDst;
      }
      ghost var final := imageData[..];
      if srcOffset >= |data| {
        WalkStop(Block, data, offset, srcOffset, final[offset..dstOffset]);
      }
      ghost var produced := final[offset..dstOffset];
      assert Walk(Block, data, offset) == Some(produced);
      SplitAt(final, offset, dstOffset);
      imageData := Resize(imageData, dstOffset);
      assert imageData[..] == start + produced;
      ok := true;
    }

    /** GetImageBlock: sizes the image block at srcOffset by walking its sub-block chain, then copies it whole. */
    method GetImageBlock(data: Bytes, srcOffset: nat, dstOffset: nat) returns (ok: bool, nextSrc: nat, nextDst: nat)
      requires imageData != null && imageData.Length == |data|
      requires srcOffset < |data| && data[srcOffset] == ImageSeparator && dstOffset <= srcOffset
      modifies imageData
      ensures ok <==> Advances(Block, data, srcOffset)
      ensures ok ==> Copied(Block, data, srcOffset, dstOffset, old(imageData[..]), imageData[..], nextSrc, nextDst)
      ensures !ok ==> imageData[..] == old(imageData[..])
    {
      if srcOffset + ImageBlockPackedFieldOffset >= |data| {
        // data[srcOffset + 9] throws
        return false, srcOffset, dstOffset;
      }
      var imageBlockSize := MeasureImageBlock(data, srcOffset);
      assert Block(data, srcOffset) == Unit(true, imageBlockSize, false);
      ghost var before := imageData[..];
      ok := BlockCopy(data, srcOffset, imageData, dstOffset, imageBlockSize);
      if !ok {
        return false, srcOffset, dstOffset;
      }
      KeptCopied(Block, data, srcOffset, dstOffset, before, imageData[..]);
      nextSrc, nextDst := srcOffset + imageBlockSize, dstOffset + imageBlockSize;
    }

    /**
     * The sizing half of GetImageBlock: descriptor and local colour table,
     * then the sub-blocks one length byte at a time up to the terminator.
     */
    method MeasureImageBlock(data: Bytes, srcOffset: nat) returns (imageBlockSize: nat)
      requires srcOffset + ImageBlockPackedFieldOffset < |data|
      ensures imageBlockSize == ImageBlockSize(data, srcOffset).value
    {
      var packedField := data[srcOffset + ImageBlockPackedFieldOffset];
      var colorTableSize := GetColorTableSize(packedField);
      imageBlockSize := ImageBlockBaseSize + colorTableSize;
      var blockOffset := srcOffset + imageBlockSize;
      ghost var chainStart := blockOffset;
      while blockOffset < |data|
        invariant imageBlockSize == blockOffset - srcOffset
        invariant SubBlockChainEnd(data, blockOffset) == SubBlockChainEnd(data, chainStart)
        decreases |data| - blockOffset
      {
        var blockSize := data[blockOffset];
        if blockSize == BlockTerminator {
          imageBlockSize := imageBlockSize + 1;
          break;
        }
        imageBlockSize := imageBlockSize + blockSize + 1;
        blockOffset := blockOffset + blockSize + 1;
      }
    }

    /** The trailer branch of GetBlocks: the one trailer byte goes to the output. */
    method WriteTrailer(data: Bytes, srcOffset: nat, dstOffset: nat) returns (nextDst: nat)
      requires imageData != null && imageData.Length == |data|
      requires srcOffset < |data| && data[srcOffset] == GifTrailer && dstOffset <= srcOffset
      modifies imageData
      ensures Copied(Block, data, srcOffset, dstOffset, old(imageData[..]), imageData[..], srcOffset + 1, nextDst)
    {
      imageData[dstOffset] := GifTrailer;
      assert imageData[..] == old(imageData[..dstOffset]) + data[srcOffset..srcOffset + 1] + old(imageData[dstOffset + 1..]);
      KeptCopied(Block, data, srcOffset, dstOffset, old(imageData[..]), imageData[..]);
      nextDst := dstOffset + 1;
    }

    /**
     * GetExtension: copies a Graphic Control extension, skips a Comment,
     * Plain Text or Application extension, and throws on any other extensionLabel.
     */
    method GetExtension(data: Bytes, srcOffset: nat, dstOffset: nat) returns (ok: bool, nextSrc: nat, nextDst: nat)
      requires imageData != null && imageData.Length == |data|
      requires srcOffset < |data| && data[srcOffset] == ExtensionIntroducer && dstOffset <= srcOffset
      modifies imageData
      ensures ok <==> Advances(Block, data, srcOffset)
      ensures ok ==> Copied(Block, data, srcOffset, dstOffset, old(imageData[..]), imageData[..], nextSrc, nextDst)
      ensures !ok ==> imageData[..] == old(imageData[..])
    {
      if srcOffset + ExtensionLabelOffset >= |data| {
        // data[srcOffset + 1] throws
        return false, srcOffset, dstOffset;
      }
      var extensionLabel := data[srcOffset + ExtensionLabelOffset];
      var skip: nat;
      if extensionLabel == GraphicControlLabel {
        ok := BlockCopy(data, srcOffset, imageData, dstOffset, GraphicControlBaseSize);
        if !ok {
          return false, srcOffset, dstOffset;
        }
        return true, srcOffset + GraphicControlBaseSize, dstOffset + GraphicControlBaseSize;
      } else if extensionLabel == CommentLabel {
        if srcOffset + CommentBlockSizeOffset >= |data| {
          return false, srcOffset, dstOffset;
        }
        skip := CommentBaseSize + data[srcOffset + CommentBlockSizeOffset];
      } else if extensionLabel == PlainTextLabel {
        if srcOffset + PlainTextBlockSizeOffset >= |data| {
          return false, srcOffset, dstOffset;
        }
        skip := PlainTextBaseSize + data[srcOffset + PlainTextBlockSizeOffset];
      } else if extensionLabel == ExtensionLabel {
        if srcOffset + ExtensionBlockSizeOffset >= |data| {
          return false, srcOffset, dstOffset;
        }
        skip := ExtensionBaseSize + data[srcOffset + ExtensionBlockSizeOffset];
      } else {
        // throw new Exception(): an extension that cannot be sized
        return false, srcOffset, dstOffset;
      }
      if srcOffset + skip > Int32Max {
        // the int cursor wraps to a negative value and the next read in GetBlocks throws
        return false, srcOffset, dstOffset;
      }
      assert imageData[..] == old(imageData[..dstOffset]) + [] + old(imageData[dstOffset..]);
      return true, srcOffset + skip, dstOffset;
    }
  }
}

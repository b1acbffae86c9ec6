/**
 * The PNG codec (PngImageFormatDto.cs): detection by the eight-byte PNG
 * signature, and a strip pass over the chunks (PNG specification, ISO/IEC
 * 15948, section 5.3: length, type, data, CRC) that drops the textual
 * chunks tEXt, zTXt and iTXt (section 11.3.4) and stops after copying IEND.
 */
module Png {
  import opened ImageFormat
  import opened UnitWalk

  const Signature: seq<byte> := [0x89, 0x50, 0x4E, 0x47, 0x0D, 0x0A, 0x1A, 0x0A]
  /** The chunk type IEND (image trailer). */
  const ImageTrailerChunkType: seq<byte> := [0x49, 0x45, 0x4E, 0x44]
  /** The chunk types tEXt, zTXt and iTXt, which are dropped. */
  const IgnoreChunkTypes: seq<seq<byte>> := [[0x74, 0x45, 0x58, 0x74], [0x7A, 0x54, 0x58, 0x74], [0x69, 0x54, 0x58, 0x74]]
  /** Width of the big-endian length field at the start of a chunk. */
  const ChunkLengthSize: nat := 4
  /** Distance from the start of a chunk to its type field. */
  const ChunkLengthOffset: nat := 4
  /** Length, type and CRC fields: a chunk is this many bytes plus its data. */
  const ChunkBaseSize: nat := 12

  /** MagickNumbers: the signature is the only accepted prefix. */
  const MagickNumbers: seq<seq<byte>> := [Signature]

  /** CheckMagicNumber with the PNG magic numbers: None when the input is too short to compare. */
  function Detect(data: seq<byte>): (r: Option<bool>)
    ensures r == Some(true) <==> |data| >= |Signature| && data[..|Signature|] == Signature
    ensures r.None? ==> |data| < |Signature|
  {
    MatchAny(MagickNumbers, data, 0)
  }

  /**
   * The chunk length field at src as the C# code reads it: the four bytes
   * reversed and handed to BitConverter.ToInt32, that is the big-endian
   * value taken as a two's complement int.
   */
  function ChunkLength(data: seq<byte>, src: nat): (r: int)
    requires src + ChunkLengthSize <= |data|
    ensures var field := BigEndian(data[src..src + ChunkLengthSize]);
      r == if field <= Int32Max then field else field - 0x1_0000_0000
  {
    ReversedLittleEndian(data[src..src + ChunkLengthSize]);
    ToInt32(Reversed(data[src..src + ChunkLengthSize]))
  }

  /** The int chunkSize of the C# loop: 12 plus the length, with int wrap-around. */
  function ChunkSize(data: seq<byte>, src: nat): (r: int)
    requires src + ChunkLengthSize <= |data|
    ensures BigEndian(data[src..src + ChunkLengthSize]) <= Int32Max - ChunkBaseSize ==>
      r == ChunkBaseSize + BigEndian(data[src..src + ChunkLengthSize])
    ensures r >= 1 ==> r == ChunkBaseSize + ChunkLength(data, src)
  {
    WrapInt32(ChunkBaseSize + ChunkLength(data, src))
  }

  /** A chunk whose type is a textual one cannot also be IEND: their first type bytes differ. */
  lemma IgnoredIsNotTrailer(data: seq<byte>, offset: nat)
    ensures MatchAny(IgnoreChunkTypes, data, offset) == Some(true) ==>
      Compare(ImageTrailerChunkType, data, offset) == Some(false)
  {
    if MatchAny(IgnoreChunkTypes, data, offset) == Some(true) {
      var k :| 0 <= k < |IgnoreChunkTypes| && Compare(IgnoreChunkTypes[k], data, offset) == Some(true);
      assert data[offset + 0] == IgnoreChunkTypes[k][0];
    }
  }

  /**
   * One iteration of GetChunks at src. Reading the length field past the end
   * faults, so does a type comparison that runs off the input. The chunk is
   * dropped when its type is a textual one and copied otherwise; IEND ends
   * the walk. A kept chunk with a negative int size faults in
   * Buffer.BlockCopy. An IEND whose size is 0 ends the walk having copied
   * nothing. A size of 0 or less on any other chunk is a fault here, where
   * the C# cursor would stand still or move backwards.
   */
  function Chunk(data: seq<byte>, src: nat): (r: Scan)
    ensures src < |data| && src + ChunkLengthSize > |data| ==> r.Fault?
    ensures r.Unit? ==>
      src + ChunkLengthSize < |data| &&
      r.size == ChunkBaseSize + ChunkLength(data, src) &&
      (r.keep <==> MatchAny(IgnoreChunkTypes, data, src + ChunkLengthOffset) == Some(false)) &&
      (r.last <==>
        src + ChunkLengthOffset + 4 <= |data| &&
        data[src + ChunkLengthOffset..src + ChunkLengthOffset + 4] == ImageTrailerChunkType) &&
      (r.last ==> r.keep)
    ensures r.Unit? && BigEndian(data[src..src + ChunkLengthSize]) <= Int32Max - ChunkBaseSize ==>
      r.size == ChunkBaseSize + BigEndian(data[src..src + ChunkLengthSize])
    ensures r.Halt? <==>
      src >= |data| ||
      (src + ChunkLengthOffset + 4 <= |data| &&
       data[src + ChunkLengthOffset..src + ChunkLengthOffset + 4] == ImageTrailerChunkType &&
       ChunkSize(data, src) == 0)
    ensures r.Fault? <==>
      src < |data| &&
      (src + ChunkLengthSize > |data| ||
       MatchAny(IgnoreChunkTypes, data, src + ChunkLengthOffset).None? ||
       Compare(ImageTrailerChunkType, data, src + ChunkLengthOffset).None? ||
       (ChunkSize(data, src) < 1 &&
        !(ChunkSize(data, src) == 0 && Compare(ImageTrailerChunkType, data, src + ChunkLengthOffset) == Some(true))))
  {
    if src >= |data| then Halt
    else if src + ChunkLengthSize > |data| then Fault
    else
      var chunkSize := ChunkSize(data, src);
      IgnoredIsNotTrailer(data, src + ChunkLengthOffset);
      match MatchAny(IgnoreChunkTypes, data, src + ChunkLengthOffset)
      case None => Fault
      case Some(ignored) =>
        if !ignored && chunkSize < 0 then Fault
        else
          match Compare(ImageTrailerChunkType, data, src + ChunkLengthOffset)
          case None => Fault
          case Some(trailer) =>
            if chunkSize >= 1 then Unit(!ignored, chunkSize, trailer)
            else if trailer then Halt
            else Fault
  }

  /** What Chunk finds once the length, the textual-type test and the IEND test have all been read. */
  lemma ChunkOutcome(data: seq<byte>, src: nat, ignored: bool, trailer: bool)
    requires src + ChunkLengthSize <= |data|
    requires MatchAny(IgnoreChunkTypes, data, src + ChunkLengthOffset) == Some(ignored)
    requires Compare(ImageTrailerChunkType, data, src + ChunkLengthOffset) == Some(trailer)
    requires ignored || ChunkSize(data, src) >= 0
    ensures ignored ==> !trailer
    ensures Chunk(data, src) ==
      if ChunkSize(data, src) >= 1 then Unit(!ignored, ChunkSize(data, src), trailer)
      else if trailer then Halt
      else Fault
  {
    IgnoredIsNotTrailer(data, src + ChunkLengthOffset);
  }

  /**
   * CreateImageNoMetaInfo's output: the signature followed by the kept
   * chunks from offset 8 on, in input order, up to and including IEND; None
   * when the pass throws.
   */
  function Strip(data: seq<byte>): (r: Option<seq<byte>>)
    requires |data| >= |Signature|
    ensures r.Some? ==> |Signature| <= |r.value| <= |data| && r.value[..|Signature|] == Signature
  {
    Prepend(Signature, Walk(Chunk, data, |Signature|))
  }

  /** A stripped PNG is detected as a PNG again. */
  lemma StripKeepsSignature(data: seq<byte>)
    requires |data| >= |Signature| && Strip(data).Some?
    ensures Detect(Strip(data).value) == Some(true)
  {
  }

  /**
   * Stripping a detected PNG leaves it unchanged exactly when every chunk
   * from offset 8 is kept and the chunks run to the last byte.
   */
  lemma StripIdentity(data: seq<byte>)
    requires Detect(data) == Some(true)
    ensures Strip(data) == Some(data) <==> Verbatim(Chunk, data, |Signature|)
  {
    WalkIdentity(Chunk, data, 8);
    var rest := Walk(Chunk, data, 8);
    assert data == data[..8] + data[8..];
    if rest.Some? {
      assert (Signature + rest.value)[8..] == rest.value;
    }
  }

  /** Every chunk the walk from src meets has a length field whose top bit is clear. */
  ghost predicate NonNegativeLengths(data: seq<byte>, src: nat)
    decreases |data| - src
  {
    src >= |data| ||
    match Chunk(data, src)
    case Unit(_, size, last) => ChunkLength(data, src) >= 0 && (!last ==> NonNegativeLengths(data, src + size))
    case _ => true
  }

  /**
   * A kept chunk with a non-negative length, copied elsewhere, scans the same
   * there: its length and type fields lie inside its own bytes.
   */
  lemma ChunkCopied(data: seq<byte>, src: nat, copy: seq<byte>, dst: nat)
    requires Chunk(data, src).Unit? && Chunk(data, src).keep && ChunkLength(data, src) >= 0
    requires Copies(data, src, Chunk(data, src).size, copy, dst)
    ensures Chunk(copy, dst) == Chunk(data, src)
  {
    var size := Chunk(data, src).size;
    var typeOffset := ChunkLengthOffset;
    CopiedWindow(data, src, size, copy, dst, 0, ChunkLengthSize);
    CopiedWindow(data, src, size, copy, dst, typeOffset, 4);
    MatchAnyWindow(IgnoreChunkTypes, 4, data, src + typeOffset, copy, dst + typeOffset);
    CompareWindow(ImageTrailerChunkType, data, src + typeOffset, copy, dst + typeOffset);
    assert ChunkSize(copy, dst) == ChunkSize(data, src);
  }

  /** A chunk with a non-negative length is self-delimiting. */
  lemma ChunkSelfDelimiting(data: seq<byte>, src: nat)
    requires Chunk(data, src).Unit? ==> ChunkLength(data, src) >= 0
    ensures SelfDelimiting(Chunk, data, src)
  {
    if Chunk(data, src).Unit? && Chunk(data, src).keep {
      forall copy: seq<byte>, dst: nat | Copies(data, src, Chunk(data, src).size, copy, dst)
        ensures Chunk(copy, dst) == Chunk(data, src)
      {
        ChunkCopied(data, src, copy, dst);
      }
    }
  }

  /** Every chunk of a walk with non-negative lengths is self-delimiting. */
  lemma {:induction false} ChunkWalkSelfDelimiting(data: seq<byte>, src: nat)
    requires NonNegativeLengths(data, src)
    ensures SelfDelimitingWalk(Chunk, data, src)
    decreases |data| - src
  {
    if src < |data| {
      var next := NonNegativeStep(data, src);
      ChunkSelfDelimiting(data, src);
      if next.Some? {
        ChunkWalkSelfDelimiting(data, next.value);
      }
      SelfDelimitingWalkStep(Chunk, data, src, next);
    }
  }

  /** One step of NonNegativeLengths: the chunk at src and, when the walk goes on, the walk after it. */
  lemma NonNegativeStep(data: seq<byte>, src: nat) returns (next: Option<nat>)
    requires src < |data| && NonNegativeLengths(data, src)
    ensures Chunk(data, src).Unit? ==> ChunkLength(data, src) >= 0
    ensures next.Some? <==> Chunk(data, src).Unit? && !Chunk(data, src).last
    ensures next.Some? ==> next.value == src + Chunk(data, src).size && NonNegativeLengths(data, next.value)
  {
    next := if Chunk(data, src).Unit? && !Chunk(data, src).last then Some(src + Chunk(data, src).size) else None;
  }

  /**
   * Stripping a stripped PNG changes nothing, provided no chunk the first
   * pass meets has a negative length: every chunk that was kept is met and
   * kept again.
   */
  lemma StripIdempotent(data: seq<byte>)
    requires |data| >= |Signature| && Strip(data).Some? && NonNegativeLengths(data, |Signature|)
    ensures |Strip(data).value| >= |Signature| && Strip(Strip(data).value) == Strip(data)
  {
    var out := Walk(Chunk, data, |Signature|).value;
    var stripped := Signature + out;
    assert stripped[|Signature|..] == out;
    ChunkWalkSelfDelimiting(data, |Signature|);
    WalkRewalk(Chunk, data, |Signature|, out, stripped, |Signature|);
  }

  /** A four-byte length field, most significant byte first. */
  lemma BigEndianOfFour(s: seq<byte>)
    requires |s| == 4
    ensures BigEndian(s) == (s[0] as int) * 0x100_0000 + (s[1] as int) * 0x1_0000 + (s[2] as int) * 0x100 + s[3]
  {
    assert s[..1][..0] == [] && s[..2][..1] == s[..1] && s[..3][..2] == s[..2] && s[..3] == s[..|s| - 1];
    assert BigEndian(s[..1]) == s[0];
    assert BigEndian(s[..2]) == 256 * (s[0] as int) + s[1];
    assert BigEndian(s[..3]) == 256 * (256 * (s[0] as int) + s[1]) + s[2];
  }

  /** The chunk type IHDR (image header). */
  const IhdrChunkType: seq<byte> := [0x49, 0x48, 0x44, 0x52]

  /**
   * A PNG of 68 bytes: the signature, an IHDR chunk with 13 data bytes
   * (offsets 8 to 32), a tEXt chunk with 11 data bytes (offsets 33 to 55)
   * and an empty IEND chunk (offsets 56 to 67); the data and CRC bytes are
   * arbitrary.
   */
  ghost predicate IsTextPng(data: seq<byte>)
  {
    |data| == 68 && data[..8] == Signature &&
    data[8..12] == [0x00, 0x00, 0x00, 0x0D] && data[12..16] == IhdrChunkType &&
    data[33..37] == [0x00, 0x00, 0x00, 0x0B] && data[37..41] == IgnoreChunkTypes[0] &&
    data[56..60] == [0x00, 0x00, 0x00, 0x00] && data[60..64] == ImageTrailerChunkType
  }

  lemma TextPngIend(data: seq<byte>)
    requires IsTextPng(data)
    ensures Chunk(data, 56) == Unit(true, 12, true)
  {
    BigEndianOfFour(data[56..60]);
    assert forall k :: 0 <= k < |IgnoreChunkTypes| ==> Compare(IgnoreChunkTypes[k], data, 60) == Some(false);
  }

  lemma TextPngText(data: seq<byte>)
    requires IsTextPng(data)
    ensures Chunk(data, 33) == Unit(false, 23, false)
  {
    BigEndianOfFour(data[33..37]);
    assert Compare(IgnoreChunkTypes[0], data, 37) == Some(true);
    assert data[37] != ImageTrailerChunkType[0];
    assert Compare(ImageTrailerChunkType, data, 37) == Some(false);
  }

  lemma TextPngIhdr(data: seq<byte>)
    requires IsTextPng(data)
    ensures Chunk(data, 8) == Unit(true, 25, false)
  {
    BigEndianOfFour(data[8..12]);
    assert data[12] == 0x49 && data[13] == 0x48;
    assert Compare(ImageTrailerChunkType, data, 12) == Some(false);
    assert forall k :: 0 <= k < |IgnoreChunkTypes| ==> Compare(IgnoreChunkTypes[k], data, 12) == Some(false);
  }

  lemma WalkFromIend(data: seq<byte>)
    requires IsTextPng(data)
    ensures Walk(Chunk, data, 56) == Some(data[56..])
  {
    TextPngIend(data);
    assert data[56..56 + 12] == data[56..];
  }

  lemma WalkFromText(data: seq<byte>)
    requires IsTextPng(data)
    ensures Walk(Chunk, data, 33) == Some(data[56..])
  {
    TextPngText(data);
    WalkFromIend(data);
    WalkStep(Chunk, data, 33);
    assert [] + data[56..] == data[56..];
  }

  lemma WalkFromIhdr(data: seq<byte>)
    requires IsTextPng(data)
    ensures Walk(Chunk, data, 8) == Some(data[8..33] + data[56..])
  {
    TextPngIhdr(data);
    WalkFromText(data);
    WalkStep(Chunk, data, 8);
  }

  /**
   * Stripping such a PNG removes exactly the 23 bytes of the tEXt chunk and
   * keeps IHDR and IEND.
   */
  lemma TextChunkRemoved(data: seq<byte>)
    requires IsTextPng(data)
    ensures Strip(data) == Some(data[..33] + data[56..])
  {
    WalkFromIhdr(data);
    var kept := data[8..33] + data[56..];
    assert Strip(data) == Some(Signature + kept);
    assert data[..8] + kept == data[..33] + data[56..] by {
      assert data[..33] == data[..8] + data[8..33];
    }
  }

  /**
   * Proof step for CopyChunk: what NextChunk found about the chunk, together
   * with the block copy (or its absence for a textual chunk), makes the
   * iteration Copied, or leaves the buffer as it was when IEND halts.
   */
  lemma ChunkCopyOutcome(data: seq<byte>, src: nat, dst: nat, chunkSize: int, ignored: bool,
                         ok: bool, trailer: bool, nextSrc: nat, nextDst: nat, before: seq<byte>, after: seq<byte>)
    requires src + ChunkLengthSize <= |data| && chunkSize == ChunkSize(data, src)
    requires ignored || chunkSize >= 0
    requires ignored ==> after == before && nextDst == dst && dst <= |before|
    requires !ignored ==>
      src + chunkSize <= |data| && dst + chunkSize <= |before| && nextDst == dst + chunkSize &&
      after == before[..dst] + data[src..src + chunkSize] + before[dst + chunkSize..]
    requires ok <==> (Chunk(data, src).Unit? && (ignored ==> src + chunkSize <= Int32Max)) || Chunk(data, src).Halt?
    requires Chunk(data, src).Unit? ==> Chunk(data, src) == Unit(!ignored, chunkSize, Chunk(data, src).last)
    requires ok && Chunk(data, src).Unit? ==> nextSrc == src + chunkSize && (trailer <==> Chunk(data, src).last)
    requires ok && Chunk(data, src).Halt? ==> trailer && chunkSize == 0
    ensures ok <==> Advances(Chunk, data, src) || Chunk(data, src).Halt?
    ensures ok && Chunk(data, src).Halt? ==> trailer && after == before
    ensures ok && Chunk(data, src).Unit? ==>
      (trailer <==> Chunk(data, src).last) && Copied(Chunk, data, src, dst, before, after, nextSrc, nextDst)
  {
    if ok && Chunk(data, src).Unit? {
      if ignored {
        DroppedCopied(Chunk, data, src, dst, before);
      } else {
        KeptCopied(Chunk, data, src, dst, before, after);
      }
    } else if ok && !ignored {
      assert after == before by {
        assert data[src..src + 0] == [] && before == before[..dst] + before[dst..];
      }
    }
  }

  /** The PNG codec object: ImageData is the output buffer of the last strip, null before any. */
  class PngImageFormat {
    var imageData: array?<byte>

    constructor ()
      ensures imageData == null
    {
      imageData := null;
    }

    /** The processed image: the buffer field itself, not a copy. */
    function ImageData(): (r: array?<byte>)
      reads this
      ensures r == imageData
    {
      imageData
    }

    /** CheckMagicNumber of the base class, over MagickNumbers. */
    method CheckMagicNumber(data: seq<byte>) returns (r: Option<bool>)
      ensures r == Detect(data)
    {
      r := ImageFormat.CheckMagicNumber(MagickNumbers, data);
    }

    /**
     * CreateImageNoMetaInfo: a fresh output buffer as long as the input, the
     * signature written first, then the chunks. The copy of the signature
     * sits outside the try block, so an input shorter than eight bytes would
     * throw to the caller; the codec is only ever handed data it has
     * detected.
     */
    method CreateImageNoMetaInfo(data: Bytes) returns (ok: bool)
      requires |data| >= |Signature|
      modifies this
      ensures imageData != null && fresh(imageData)
      ensures ok <==> Strip(data).Some?
      ensures ok ==> imageData[..] == Strip(data).value
      ensures !ok ==> imageData.Length == |data|
    {
      imageData := new byte[|data|];
      var copied := BlockCopy(Signature, 0, imageData, 0, |Signature|);
      assert imageData[..8] == Signature;
      ok := GetChunks(data);
    }

    /** CheckIgnoreChunkType: the type field of the chunk at offset is tEXt, zTXt or iTXt. */
    method CheckIgnoreChunkType(data: seq<byte>, offset: nat) returns (r: Option<bool>)
      ensures r == MatchAny(IgnoreChunkTypes, data, offset + ChunkLengthOffset)
    {
      for k := 0 to |IgnoreChunkTypes|
        invariant MatchAny(IgnoreChunkTypes, data, offset + ChunkLengthOffset) ==
          MatchAny(IgnoreChunkTypes[k..], data, offset + ChunkLengthOffset)
      {
        var matched := CompareArray(IgnoreChunkTypes[k], data, offset + ChunkLengthOffset);
        if matched.None? {
          return None;
        }
        if matched.value {
          return Some(true);
        }
        assert IgnoreChunkTypes[k..][1..] == IgnoreChunkTypes[k + 1..];
      }
      return Some(false);
    }

    /** CheckImageTrailerChunkType: the type field of the chunk at offset is IEND. */
    method CheckImageTrailerChunkType(data: seq<byte>, offset: nat) returns (r: Option<bool>)
      ensures r == Compare(ImageTrailerChunkType, data, offset + ChunkLengthOffset)
    {
      r := CompareArray(ImageTrailerChunkType, data, offset + ChunkLengthOffset);
    }

    /** The first statements of GetChunks' loop body: the length field, reversed and converted, plus 12. */
    method ReadChunkSize(data: Bytes, srcOffset: nat) returns (chunkSize: int)
      requires srcOffset + ChunkLengthSize <= |data|
      ensures chunkSize == ChunkSize(data, srcOffset)
    {
      var lengthField := GetSlicedReverseArray(data, srcOffset, ChunkLengthSize);
      var chunkLength := ToInt32(lengthField[..]);
      chunkSize := WrapInt32(ChunkBaseSize + chunkLength);
    }

    /**
     * The body of GetChunks' loop for the chunk at srcOffset: reads its
     * length, copies it to dstOffset unless its type is a textual one, and
     * reports whether it is IEND, which ends the loop. ok is false where the
     * C# code throws.
     */
    method GetChunk(data: Bytes, srcOffset: nat, dstOffset: nat) returns (ok: bool, trailer: bool, nextSrc: nat, nextDst: nat)
      requires imageData != null && imageData.Length == |data|
      requires srcOffset < |data| && dstOffset <= srcOffset
      modifies imageData
      ensures ok <==> Advances(Chunk, data, srcOffset) || Chunk(data, srcOffset).Halt?
      ensures ok && Chunk(data, srcOffset).Halt? ==> trailer && imageData[..] == old(imageData[..])
      ensures ok && Chunk(data, srcOffset).Unit? ==>
        (trailer <==> Chunk(data, srcOffset).last) &&
        Copied(Chunk, data, srcOffset, dstOffset, old(imageData[..]), imageData[..], nextSrc, nextDst)
    {
      nextSrc, nextDst := srcOffset, dstOffset;
      if srcOffset + ChunkLengthSize > |data| {
        // GetSlicedReverseArray reads past the end and throws
        return false, false, nextSrc, nextDst;
      }
      var chunkSize := ReadChunkSize(data, srcOffset);
      var ignored := CheckIgnoreChunkType(data, srcOffset);
      if ignored.None? {
        return false, false, nextSrc, nextDst;
      }
      ok, trailer, nextSrc, nextDst := CopyChunk(data, srcOffset, dstOffset, chunkSize, ignored.value);
    }

    /**
     * The rest of GetChunks' loop body, once the chunk's size and whether it
     * is a textual one are known: the copy of a kept chunk, then the IEND
     * test and the advance of the source cursor.
     */
    method CopyChunk(data: Bytes, srcOffset: nat, dstOffset: nat, chunkSize: int, ignored: bool)
      returns (ok: bool, trailer: bool, nextSrc: nat, nextDst: nat)
      requires imageData != null && imageData.Length == |data|
      requires srcOffset + ChunkLengthSize <= |data| && dstOffset <= srcOffset
      requires chunkSize == ChunkSize(data, srcOffset)
      requires MatchAny(IgnoreChunkTypes, data, srcOffset + ChunkLengthOffset) == Some(ignored)
      modifies imageData
      ensures ok <==> Advances(Chunk, data, srcOffset) || Chunk(data, srcOffset).Halt?
      ensures ok && Chunk(data, srcOffset).Halt? ==> trailer && imageData[..] == old(imageData[..])
      ensures ok && Chunk(data, srcOffset).Unit? ==>
        (trailer <==> Chunk(data, srcOffset).last) &&
        Copied(Chunk, data, srcOffset, dstOffset, old(imageData[..]), imageData[..], nextSrc, nextDst)
    {
      nextSrc, nextDst := srcOffset, dstOffset;
      ghost var before := imageData[..];
      if !ignored {
        if chunkSize < 0 {
          // Buffer.BlockCopy throws on a negative count
          return false, false, nextSrc, nextDst;
        }
        var copied := BlockCopy(data, srcOffset, imageData, dstOffset, chunkSize);
        if !copied {
          return false, false, nextSrc, nextDst;
        }
        assert imageData[..] == before[..dstOffset] + data[srcOffset..srcOffset + chunkSize] + before[dstOffset + chunkSize..];
        nextDst := dstOffset + chunkSize;
      }
      ok, trailer, nextSrc := NextChunk(data, srcOffset, chunkSize, ignored);
      ChunkCopyOutcome(data, srcOffset, dstOffset, chunkSize, ignored, ok, trailer, nextSrc, nextDst, before, imageData[..]);
    }

    /**
     * The end of GetChunks' loop body: the IEND test, which breaks out of
     * the loop, and otherwise the advance of the source cursor by the
     * chunk's size.
     */
    method NextChunk(data: Bytes, srcOffset: nat, chunkSize: int, ignored: bool) returns (ok: bool, trailer: bool, nextSrc: nat)
      requires srcOffset + ChunkLengthSize <= |data|
      requires chunkSize == ChunkSize(data, srcOffset)
      requires MatchAny(IgnoreChunkTypes, data, srcOffset + ChunkLengthOffset) == Some(ignored)
      requires ignored || chunkSize >= 0
      ensures ok <==>
        (Chunk(data, srcOffset).Unit? && (ignored ==> srcOffset + chunkSize <= Int32Max)) ||
        Chunk(data, srcOffset).Halt?
      ensures Chunk(data, srcOffset).Unit? ==> Chunk(data, srcOffset) == Unit(!ignored, chunkSize, Chunk(data, srcOffset).last)
      ensures ok && Chunk(data, srcOffset).Unit? ==> nextSrc == srcOffset + chunkSize && (trailer <==> Chunk(data, srcOffset).last)
      ensures ok && Chunk(data, srcOffset).Halt? ==> trailer && chunkSize == 0
    {
      var isTrailer := CheckImageTrailerChunkType(data, srcOffset);
      if isTrailer.None? {
        return false, false, srcOffset;
      }
      ChunkOutcome(data, srcOffset, ignored, isTrailer.value);
      if chunkSize <= 0 {
        // only an IEND of size 0 ends the walk here; any other such chunk would not advance the cursor
        return isTrailer.value, isTrailer.value, srcOffset;
      }
      if ignored && srcOffset + chunkSize > Int32Max {
        // the int cursor wraps negative, the loop test still holds and the next read throws
        return false, false, srcOffset;
      }
      return true, isTrailer.value, srcOffset + chunkSize;
    }

    /**
     * GetChunks: walks the chunks from offset 8, writing kept ones behind the
     * signature, stops after IEND or at the end of the input, then truncates
     * the buffer to what was written.
     */
    method GetChunks(data: Bytes) returns (ok: bool)
      requires imageData != null && imageData.Length == |data| >= |Signature|
      modifies this, imageData
      ensures imageData != null
      ensures ok <==> Walk(Chunk, data, |Signature|).Some?
      ensures ok ==>
        fresh(imageData) &&
        imageData[..] == old(imageData[..|Signature|]) + Walk(Chunk, data, |Signature|).value
      ensures !ok ==> imageData == old(imageData)
    {
      var srcOffset, dstOffset := |Signature|, |Signature|;
      ghost var offset := |Signature|;
      ghost var start := imageData[..offset];
      while srcOffset < |data|
        invariant offset <= dstOffset <= srcOffset && dstOffset <= |data|
        invariant imageData == old(imageData)
        invariant imageData[..offset] == start
        invariant Produced(Chunk, data, offset, imageData[offset..dstOffset], srcOffset)
        decreases |data| - srcOffset
      {
        ghost var before := imageData[..];
        var chunkOk, trailer, nextSrc, nextDst := GetChunk(data, srcOffset, dstOffset);
        if !chunkOk {
          WalkFault(Chunk, data, offset, srcOffset, before[offset..dstOffset]);
          return false;
        }
        if trailer {
          if Chunk(data, srcOffset).Halt? {
            WalkStop(Chunk, data, offset, srcOffset, before[offset..dstOffset]);
          } else {
            CopiedLast(Chunk, data, offset, srcOffset, dstOffset, before, imageData[..], nextSrc, nextDst, offset);
            dstOffset := nextDst;
          }
          break;
        }
        CopiedAdvance(Chunk, data, offset, srcOffset, dstOffset, before, imageData[..], nextSrc, nextDst, offset);
        srcOffset, dstOffset := nextSrc, nextDst;
      }
      ghost var final := imageData[..];
      if srcOffset >= |data| {
        WalkStop(Chunk, data, offset, srcOffset, final[offset..dstOffset]);
      }
      ghost var produced := final[offset..dstOffset];
      assert Walk(Chunk, data, offset) == Some(produced);
      SplitAt(final, offset, dstOffset);
      imageData := Resize(imageData, dstOffset);
      assert imageData[..] == start + produced;
      ok := true;
    }
  }
}

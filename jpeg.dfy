/**
 * The JPEG codec (JpegImageFormatDto.cs): detection by the SOI marker, and a
 * strip pass over the marker segments (ITU-T T.81 section B.1.1.4) that drops
 * the APP1 to APP13 and APP15 application segments and COM, and carries the
 * entropy-coded data after SOS along with the SOS segment (section B.1.1.5).
 */
module Jpeg {
  import opened ImageFormat
  import opened UnitWalk

  /** SOI (Start of Image). */
  const SoiSegment: seq<byte> := [0xFF, 0xD8]
  /** SOS (Start of Scan). */
  const SosMarkerName: byte := 0xDA
  const MarkerId: byte := 0xFF
  /** Markers without a length field: SOI and EOI. */
  const NoDataSegmentMarkerNames: seq<byte> := [0xD8, 0xD9]
  /** Markers whose segments are dropped: APP1 to APP13, APP15 and COM. */
  const IgnoreSegmentMarkerNames: seq<byte> :=
    [0xE1, 0xE2, 0xE3, 0xE4, 0xE5, 0xE6, 0xE7, 0xE8, 0xE9, 0xEA, 0xEB, 0xEC, 0xED, 0xEF, 0xFE]
  /** Bytes after 0xFF that scan data carries as data: stuffing (0x00) and the restart markers RST0 to RST7. */
  const SkipScanMarkerName: seq<byte> := [0x00, 0xD0, 0xD1, 0xD2, 0xD3, 0xD4, 0xD5, 0xD6, 0xD7]

  const MarkerNameOffset: nat := 1
  const SegmentLengthOffset: nat := 2
  const SegmentLengthSize: nat := 2
  const MarkerSize: nat := 2

  /** CheckImageData: the input starts with FF D8; None when it is too short to compare. */
  function Detect(data: seq<byte>): (r: Option<bool>)
    ensures r == Some(true) <==> |data| >= 2 && data[..2] == SoiSegment
    ensures r == Some(false) <==> (|data| >= 1 && data[0] != 0xFF) || (|data| >= 2 && data[1] != 0xD8)
  {
    Compare(SoiSegment, data, 0)
  }

  /**
   * GetScanDataSize(data, pos): the number of scan-data bytes from pos on. A
   * byte other than 0xFF counts one, 0xFF followed by a stuffing or restart
   * byte counts two, and counting stops at 0xFF followed by any other byte,
   * at a lone 0xFF in the last position, or at the end of the input.
   */
  function ScanDataSize(data: seq<byte>, pos: nat): (r: nat)
    ensures pos >= |data| ==> r == 0
    ensures pos < |data| ==> pos + r <= |data|
    decreases |data| - pos
  {
    if pos >= |data| then 0
    else if data[pos] != MarkerId then 1 + ScanDataSize(data, pos + 1)
    else if pos + 1 >= |data| then 0
    else if data[pos + 1] in SkipScanMarkerName then MarkerSize + ScanDataSize(data, pos + 2)
    else 0
  }

  /** Inside counted scan data, every 0xFF is the first byte of a stuffing or restart pair. */
  ghost predicate ScanDataBody(data: seq<byte>, pos: nat, end: nat)
    decreases end - pos
  {
    pos >= end ||
    (pos < |data| &&
     if data[pos] != MarkerId then ScanDataBody(data, pos + 1, end)
     else pos + 1 < end && pos + 1 < |data| && data[pos + 1] in SkipScanMarkerName && ScanDataBody(data, pos + 2, end))
  }

  /**
   * The scan data from pos is a run of data bytes and stuffing or restart
   * pairs, after which the input ends, a lone 0xFF ends it, or a real marker
   * begins.
   */
  lemma {:induction false} ScanDataSizeStops(data: seq<byte>, pos: nat)
    requires pos <= |data|
    ensures var end := pos + ScanDataSize(data, pos);
      ScanDataBody(data, pos, end) &&
      (end == |data| ||
       (end + 1 == |data| && data[end] == MarkerId) ||
       (end + 1 < |data| && data[end] == MarkerId && data[end + 1] !in SkipScanMarkerName))
    decreases |data| - pos
  {
    if pos < |data| {
      if data[pos] != MarkerId {
        ScanDataSizeStops(data, pos + 1);
        ScanDataBodyFrom(data, pos + 1, pos + ScanDataSize(data, pos));
      } else if pos + 1 < |data| && data[pos + 1] in SkipScanMarkerName {
        ScanDataSizeStops(data, pos + 2);
        ScanDataBodyFrom(data, pos + 2, pos + ScanDataSize(data, pos));
      }
    }
  }

  /** Unfolding ScanDataBody at pos for an end past pos. */
  lemma ScanDataBodyFrom(data: seq<byte>, next: nat, end: nat)
    requires 1 <= next && next <= end
    requires ScanDataBody(data, next, end)
    ensures next - 1 < |data| && data[next - 1] != MarkerId ==> ScanDataBody(data, next - 1, end)
    ensures 2 <= next && next - 1 < |data| && data[next - 2] == MarkerId && data[next - 1] in SkipScanMarkerName
      ==> ScanDataBody(data, next - 2, end)
  {
  }

  /**
   * One iteration of GetSegments at src: a byte other than 0xFF ends the walk;
   * SOI and EOI are two bytes; any other marker is two bytes plus its
   * big-endian length field, and SOS also takes the scan data after it. The
   * segment is dropped when its marker is an ignored one. Reading the marker
   * name or the length past the end faults, and so does an SOS whose scan
   * data would start beyond Int32Max, where the int offset wraps negative.
   */
  function Segment(data: seq<byte>, src: nat): (r: Scan)
    ensures r.Halt? <==> src >= |data| || data[src] != MarkerId
    ensures r.Unit? ==> !r.last && src + 1 < |data| && (r.keep <==> data[src + 1] !in IgnoreSegmentMarkerNames)
    ensures r.Unit? && data[src + 1] in NoDataSegmentMarkerNames ==> r.size == MarkerSize
    ensures r.Unit? && data[src + 1] !in NoDataSegmentMarkerNames ==>
      src + 4 <= |data| &&
      r.size == MarkerSize + BigEndian(data[src + 2..src + 4]) +
        (if data[src + 1] == SosMarkerName
         then ScanDataSize(data, src + MarkerSize + BigEndian(data[src + 2..src + 4])) else 0)
    ensures r.Fault? <==>
      src < |data| && data[src] == MarkerId &&
      (src + 1 >= |data| ||
       (data[src + 1] !in NoDataSegmentMarkerNames &&
        (src + 4 > |data| ||
         (data[src + 1] == SosMarkerName && src + MarkerSize + BigEndian(data[src + 2..src + 4]) > Int32Max))))
  {
    if src >= |data| || data[src] != MarkerId then Halt
    else if src + MarkerNameOffset >= |data| then Fault
    else
      var markerName := data[src + MarkerNameOffset];
      var keep := markerName !in IgnoreSegmentMarkerNames;
      if markerName in NoDataSegmentMarkerNames then Unit(keep, MarkerSize, false)
      else if src + SegmentLengthOffset + SegmentLengthSize > |data| then Fault
      else
        var segmentSize := MarkerSize + BigEndian(data[src + SegmentLengthOffset..src + SegmentLengthOffset + SegmentLengthSize]);
        if markerName != SosMarkerName then Unit(keep, segmentSize, false)
        else if src + segmentSize > Int32Max then Fault
        else Unit(keep, segmentSize + ScanDataSize(data, src + segmentSize), false)
  }

  /**
   * CreateImageDataNoMetaInfo's output: SOI followed by the kept segments from
   * offset 2 on, in input order; None when the pass throws.
   */
  function Strip(data: seq<byte>): (r: Option<seq<byte>>)
    requires |data| >= |SoiSegment|
    ensures r.Some? ==> |SoiSegment| <= |r.value| <= |data| && r.value[..2] == SoiSegment
  {
    Prepend(SoiSegment, Walk(Segment, data, |SoiSegment|))
  }

  /** A stripped JPEG is detected as a JPEG again. */
  lemma StripKeepsSignature(data: seq<byte>)
    requires |data| >= |SoiSegment| && Strip(data).Some?
    ensures Detect(Strip(data).value) == Some(true)
  {
  }

  /**
   * Stripping a detected JPEG leaves it unchanged exactly when every segment
   * from offset 2 is kept and the segments run to the last byte.
   */
  lemma StripIdentity(data: seq<byte>)
    requires Detect(data) == Some(true)
    ensures Strip(data) == Some(data) <==> Verbatim(Segment, data, |SoiSegment|)
  {
    WalkIdentity(Segment, data, 2);
    var rest := Walk(Segment, data, 2);
    assert data == data[..2] + data[2..];
    if rest.Some? {
      assert (SoiSegment + rest.value)[2..] == rest.value;
    }
  }

  /**
   * SOI, an APP0 segment (bytes 2 to 7), a COM segment of length 6 (bytes 8
   * to 15), an SOS segment of length 2 with three bytes of scan data (bytes
   * 16 to 22) and EOI.
   */
  const CommentedJpeg: seq<byte> := [
    0xFF, 0xD8,
    0xFF, 0xE0, 0x00, 0x04, 0x4A, 0x46,
    0xFF, 0xFE, 0x00, 0x06, 0x61, 0x62, 0x63, 0x64,
    0xFF, 0xDA, 0x00, 0x02, 0x11, 0x22, 0x33,
    0xFF, 0xD9]

  lemma CommentedJpegFromEoi()
    ensures Walk(Segment, CommentedJpeg, 23) == Some(CommentedJpeg[23..])
  {
    var data := CommentedJpeg;
    assert Segment(data, 23) == Unit(true, 2, false);
    assert data[23..25] == data[23..] && data[23..] + [] == data[23..];
    assert Walk(Segment, data, 25) == Some([]);
  }

  lemma CommentedJpegFromSos()
    ensures Walk(Segment, CommentedJpeg, 16) == Some(CommentedJpeg[16..])
  {
    var data := CommentedJpeg;
    assert BigEndian(data[18..20]) == 2 by {
      assert data[18..20] == [0x00, 0x02];
    }
    assert ScanDataSize(data, 20) == 3 by {
      assert 0xD9 !in SkipScanMarkerName;
      assert ScanDataSize(data, 23) == 0;
      assert ScanDataSize(data, 22) == 1;
      assert ScanDataSize(data, 21) == 2;
    }
    assert Segment(data, 16) == Unit(true, 7, false);
    CommentedJpegFromEoi();
    WalkStep(Segment, data, 16);
    assert data[16..23] + data[23..] == data[16..];
  }

  lemma CommentedJpegFromCom()
    ensures Walk(Segment, CommentedJpeg, 8) == Some(CommentedJpeg[16..])
  {
    var data := CommentedJpeg;
    assert BigEndian(data[10..12]) == 6 by {
      assert data[10..12] == [0x00, 0x06];
    }
    assert Segment(data, 8) == Unit(false, 8, false);
    CommentedJpegFromSos();
    WalkStep(Segment, data, 8);
    assert [] + data[16..] == data[16..];
  }

  lemma CommentedJpegFromApp0()
    ensures Walk(Segment, CommentedJpeg, 2) == Some(CommentedJpeg[2..8] + CommentedJpeg[16..])
  {
    var data := CommentedJpeg;
    assert BigEndian(data[4..6]) == 4 by {
      assert data[4..6] == [0x00, 0x04];
    }
    assert Segment(data, 2) == Unit(true, 6, false);
    CommentedJpegFromCom();
    WalkStep(Segment, data, 2);
  }

  /** Stripping CommentedJpeg removes exactly the eight bytes of its COM segment. */
  lemma CommentRemoved()
    ensures Strip(CommentedJpeg) == Some(CommentedJpeg[..8] + CommentedJpeg[16..])
  {
    var data := CommentedJpeg;
    CommentedJpegFromApp0();
    assert SoiSegment + (data[2..8] + data[16..]) == data[..8] + data[16..];
  }

  /**
   * SOI, an SOS segment of length 2 with one byte of scan data (bytes 2 to
   * 6), a COM segment of length 2 (bytes 7 to 10), an RST0 marker that the
   * walk meets outside scan data and so takes as a segment of length 4
   * (bytes 11 to 16), and EOI. Bytes 15 and 16 are FF E1, an APP1 marker.
   */
  const RestartAfterComment: seq<byte> := [
    0xFF, 0xD8,
    0xFF, 0xDA, 0x00, 0x02, 0x11,
    0xFF, 0xFE, 0x00, 0x02,
    0xFF, 0xD0, 0x00, 0x04, 0xFF, 0xE1,
    0xFF, 0xD9]

  /** RestartAfterComment with its COM segment removed. */
  const RestartAfterCommentStripped: seq<byte> := [
    0xFF, 0xD8,
    0xFF, 0xDA, 0x00, 0x02, 0x11,
    0xFF, 0xD0, 0x00, 0x04, 0xFF, 0xE1,
    0xFF, 0xD9]

  lemma RestartAfterCommentEoi()
    ensures Segment(RestartAfterComment, 17) == Unit(true, 2, false)
  {
  }

  lemma RestartAfterCommentRst()
    ensures Segment(RestartAfterComment, 11) == Unit(true, 6, false)
  {
    assert BigEndian(RestartAfterComment[13..15]) == 4 by {
      assert RestartAfterComment[13..15] == [0x00, 0x04];
    }
  }

  lemma RestartAfterCommentCom()
    ensures Segment(RestartAfterComment, 7) == Unit(false, 4, false)
  {
    assert BigEndian(RestartAfterComment[9..11]) == 2 by {
      assert RestartAfterComment[9..11] == [0x00, 0x02];
    }
  }

  lemma RestartAfterCommentScan()
    ensures Segment(RestartAfterComment, 2) == Unit(true, 5, false)
  {
    assert BigEndian(RestartAfterComment[4..6]) == 2 by {
      assert RestartAfterComment[4..6] == [0x00, 0x02];
    }
    RestartAfterCommentScanData();
  }

  /** The scan data after the first SOS is the one byte 0x11: FF FE is a real marker. */
  lemma RestartAfterCommentScanData()
    ensures ScanDataSize(RestartAfterComment, 6) == 1
  {
    assert 0xFE !in SkipScanMarkerName;
    assert ScanDataSize(RestartAfterComment, 7) == 0;
  }

  lemma RestartAfterCommentFromRst()
    ensures Walk(Segment, RestartAfterComment, 11) == Some(RestartAfterComment[11..])
  {
    var data := RestartAfterComment;
    RestartAfterCommentEoi();
    RestartAfterCommentRst();
    assert Walk(Segment, data, 19) == Some([]);
    WalkStep(Segment, data, 17);
    assert data[17..19] == data[17..] && data[17..] + [] == data[17..];
    WalkStep(Segment, data, 11);
    assert data[11..17] + data[17..] == data[11..];
  }

  lemma RestartAfterCommentFromCom()
    ensures Walk(Segment, RestartAfterComment, 7) == Some(RestartAfterComment[11..])
  {
    RestartAfterCommentFromRst();
    RestartAfterCommentCom();
    WalkStep(Segment, RestartAfterComment, 7);
    assert [] + RestartAfterComment[11..] == RestartAfterComment[11..];
  }

  /** The first pass: COM is dropped, and the RST0 segment and EOI are kept. */
  lemma RestartAfterCommentFirstPass()
    ensures Strip(RestartAfterComment) == Some(RestartAfterCommentStripped)
  {
    var data := RestartAfterComment;
    RestartAfterCommentFromCom();
    RestartAfterCommentScan();
    WalkStep(Segment, data, 2);
    RestartAfterCommentJoin();
  }

  lemma RestartAfterCommentJoin()
    ensures SoiSegment + (RestartAfterComment[2..7] + RestartAfterComment[11..]) == RestartAfterCommentStripped
  {
    assert RestartAfterComment[2..7] == [0xFF, 0xDA, 0x00, 0x02, 0x11];
    assert RestartAfterComment[11..] == [0xFF, 0xD0, 0x00, 0x04, 0xFF, 0xE1, 0xFF, 0xD9];
  }

  lemma StrippedSegments()
    ensures Segment(RestartAfterCommentStripped, 11) == Unit(false, 0xFFDB, false)
  {
    var data := RestartAfterCommentStripped;
    assert BigEndian(data[13..15]) == 0xFFD9 by {
      assert data[13..15] == [0xFF, 0xD9];
    }
  }

  lemma StrippedScan()
    ensures Segment(RestartAfterCommentStripped, 2) == Unit(true, 9, false)
  {
    assert BigEndian(RestartAfterCommentStripped[4..6]) == 2 by {
      assert RestartAfterCommentStripped[4..6] == [0x00, 0x02];
    }
    StrippedScanData();
  }

  /** The scan data after SOS now runs over the restart marker FF D0 and stops at FF E1. */
  lemma StrippedScanData()
    ensures ScanDataSize(RestartAfterCommentStripped, 6) == 5
  {
    var data := RestartAfterCommentStripped;
    assert 0xE1 !in SkipScanMarkerName && 0xD0 in SkipScanMarkerName;
    assert ScanDataSize(data, 11) == 0;
    assert ScanDataSize(data, 10) == 1;
    assert ScanDataSize(data, 9) == 2;
    assert ScanDataSize(data, 7) == 4;
  }

  /**
   * The second pass: without the COM segment in between, FF D0 follows the
   * scan data and counts as a restart marker inside it, so the scan data runs
   * on to FF E1, which now reads as an APP1 segment of length FF D9 and is
   * dropped together with EOI.
   */
  lemma RestartAfterCommentSecondPass()
    ensures Strip(RestartAfterCommentStripped) == Some(RestartAfterCommentStripped[..11])
  {
    var data := RestartAfterCommentStripped;
    StrippedSegments();
    StrippedScan();
    assert Walk(Segment, data, 11 + 0xFFDB) == Some([]);
    WalkStep(Segment, data, 11);
    WalkStep(Segment, data, 2);
    assert data[2..11] + [] == data[2..11];
    assert SoiSegment + data[2..11] == data[..11];
  }

  /** Stripping is not idempotent: stripping RestartAfterComment a second time removes four more bytes. */
  lemma StripNotIdempotent()
    ensures Strip(RestartAfterComment).Some? && |Strip(RestartAfterComment).value| >= |SoiSegment|
    ensures Strip(Strip(RestartAfterComment).value) != Strip(RestartAfterComment)
  {
    RestartAfterCommentFirstPass();
    RestartAfterCommentSecondPass();
  }

  /** The JPEG codec object: ImageData is the output buffer of the last strip, null before any. */
  class JpegImageFormat {
    var imageData: array?<byte>

    constructor ()
      ensures imageData == null
    {
      imageData := null;
    }

    /** The processed image: the buffer field itself, not a copy. */
    function ImageData(): (r: array?<byte>)
      reads this
      ensures r == imageData
    {
      imageData
    }

    /** CheckImageData: compares the SOI marker at offset 0. */
    method CheckImageData(data: seq<byte>) returns (r: Option<bool>)
      ensures r == Detect(data)
    {
      r := CompareArray(SoiSegment, data, 0);
    }

    /**
     * CreateImageDataNoMetaInfo: a fresh output buffer as long as the input,
     * SOI written first, then the segments. The copy of SOI sits outside the
     * try block, so an input shorter than two bytes would throw to the
     * caller; the codec is only ever handed data it has detected.
     */
    method CreateImageDataNoMetaInfo(data: Bytes) returns (ok: bool)
      requires |data| >= |SoiSegment|
      modifies this
      ensures imageData != null && fresh(imageData)
      ensures ok <==> Strip(data).Some?
      ensures ok ==> imageData[..] == Strip(data).value
      ensures !ok ==> imageData.Length == |data|
    {
      imageData := new byte[|data|];
      var copied := BlockCopy(SoiSegment, 0, imageData, 0, |SoiSegment|);
      assert imageData[..2] == SoiSegment;
      ok := GetSegments(data);
    }

    /** GetScanDataSize: the byte loop with its pending-marker flag. */
    method GetScanDataSize(data: Bytes, offset: nat) returns (scanDataSize: nat)
      ensures scanDataSize == ScanDataSize(data, offset)
    {
      scanDataSize := 0;
      var isMarker := false;
      var pos := offset;
      while pos < |data|
        invariant isMarker ==> offset < pos <= |data| && data[pos - 1] == MarkerId
        invariant !isMarker ==> offset <= pos
        invariant scanDataSize + (if isMarker then ScanDataSize(data, pos - 1) else ScanDataSize(data, pos))
          == ScanDataSize(data, offset)
        decreases |data| - pos
      {
        var b := data[pos];
        pos := pos + 1;
        if isMarker {
          if b !in SkipScanMarkerName {
            break;
          }
          scanDataSize := scanDataSize + MarkerSize;
          isMarker := false;
        } else if b == MarkerId {
          isMarker := true;
        } else {
          scanDataSize := scanDataSize + 1;
        }
      }
    }

    /**
     * The sizing half of GetSegments' loop body for the marker at srcOffset:
     * two bytes, plus the big-endian length field unless the marker is SOI
     * or EOI, plus the scan data after SOS. ok is false where the C# code
     * throws.
     */
    method GetSegmentSize(data: Bytes, srcOffset: nat) returns (ok: bool, segmentSize: nat)
      requires srcOffset < |data| && data[srcOffset] == MarkerId
      ensures ok <==> Segment(data, srcOffset).Unit?
      ensures ok ==> segmentSize == Segment(data, srcOffset).size
    {
      if srcOffset + MarkerNameOffset >= |data| {
        // imageData[srcOffset + 1] throws
        return false, 0;
      }
      segmentSize := MarkerSize;
      var markerName := data[srcOffset + MarkerNameOffset];
      if markerName !in NoDataSegmentMarkerNames {
        if srcOffset + SegmentLengthOffset + SegmentLengthSize > |data| {
          // GetSlicedReverseArray reads past the end and throws
          return false, 0;
        }
        var lengthField := GetSlicedReverseArray(data, srcOffset + SegmentLengthOffset, SegmentLengthSize);
        ReversedLittleEndian(data[srcOffset + SegmentLengthOffset..srcOffset + SegmentLengthOffset + SegmentLengthSize]);
        var segmentLength := ToUInt16(lengthField[..]);
        segmentSize := segmentSize + segmentLength;
      }
      if markerName == SosMarkerName {
        if srcOffset + segmentSize > Int32Max {
          // the int offset handed to GetScanDataSize wraps negative and its first read throws
          return false, 0;
        }
        var scanDataSize := GetScanDataSize(data, srcOffset + segmentSize);
        segmentSize := segmentSize + scanDataSize;
      }
      ok := true;
    }

    /**
     * The body of GetSegments' loop for the marker at srcOffset: sizes the
     * segment, copies it to dstOffset unless its marker is an ignored one,
     * and advances both cursors. ok is false where the C# code throws.
     */
    method GetSegment(data: Bytes, srcOffset: nat, dstOffset: nat) returns (ok: bool, nextSrc: nat, nextDst: nat)
      requires imageData != null && imageData.Length == |data|
      requires srcOffset < |data| && data[srcOffset] == MarkerId && dstOffset <= srcOffset
      modifies imageData
      ensures ok <==> Advances(Segment, data, srcOffset)
      ensures ok ==> Copied(Segment, data, srcOffset, dstOffset, old(imageData[..]), imageData[..], nextSrc, nextDst)
      ensures !ok ==> imageData[..] == old(imageData[..])
    {
      var sized, segmentSize := GetSegmentSize(data, srcOffset);
      if !sized {
        return false, srcOffset, dstOffset;
      }
      var markerName := data[srcOffset + MarkerNameOffset];
      ghost var before := imageData[..];
      if markerName !in IgnoreSegmentMarkerNames {
        ok := BlockCopy(data, srcOffset, imageData, dstOffset, segmentSize);
        if !ok {
          return false, srcOffset, dstOffset;
        }
        KeptCopied(Segment, data, srcOffset, dstOffset, before, imageData[..]);
        return true, srcOffset + segmentSize, dstOffset + segmentSize;
      }
      if srcOffset + segmentSize > Int32Max {
        // the int cursor wraps negative, the loop test still holds and the next read throws
        return false, srcOffset, dstOffset;
      }
      DroppedCopied(Segment, data, srcOffset, dstOffset, before);
      return true, srcOffset + segmentSize, dstOffset;
    }

    /**
     * GetSegments: walks the segments from offset 2, writing kept ones behind
     * SOI, then truncates the buffer to what was written.
     */
    method GetSegments(data: Bytes) returns (ok: bool)
      requires imageData != null && imageData.Length == |data| >= |SoiSegment|
      modifies this, imageData
      ensures imageData != null
      ensures ok <==> Walk(Segment, data, |SoiSegment|).Some?
      ensures ok ==>
        fresh(imageData) &&
        imageData[..] == old(imageData[..|SoiSegment|]) + Walk(Segment, data, |SoiSegment|).value
      ensures !ok ==> imageData == old(imageData)
    {
      var srcOffset, dstOffset := |SoiSegment|, |SoiSegment|;
      ghost var offset := |SoiSegment|;
      ghost var start := imageData[..offset];
      while srcOffset < |data|
        invariant offset <= dstOffset <= srcOffset && dstOffset <= |data|
        invariant imageData == old(imageData)
        invariant imageData[..offset] == start
        invariant Produced(Segment, data, offset, imageData[offset..dstOffset], srcOffset)
        decreases |data| - srcOffset
      {
        if data[srcOffset] != MarkerId {
          WalkStop(Segment, data, offset, srcOffset, imageData[offset..dstOffset]);
          break;
        }
        ghost var before := imageData[..];
        var segmentOk, nextSrc, nextDst := GetSegment(data, srcOffset, dstOffset);
        if !segmentOk {
          WalkFault(Segment, data, offset, srcOffset, before[offset..dstOffset]);
          return false;
        }
        CopiedAdvance(Segment, data, offset, srcOffset, dstOffset, before, imageData[..], nextSrc, nextDst, offset);
        srcOffset, dstOffset := nextSrc, nextDst;
      }
      ghost var final := imageData[..];
      if srcOffset >= |data| {
        WalkStop(Segment, data, offset, srcOffset, final[offset..dstOffset]);
      }
      ghost var produced := final[offset..dstOffset];
      assert Walk(Segment, data, offset) == Some(produced);
      SplitAt(final, offset, dstOffset);
      imageData := Resize(imageData, dstOffset);
      assert imageData[..] == start + produced;
      ok := true;
    }
  }
}

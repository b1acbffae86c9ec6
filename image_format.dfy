/**
 * Byte-level helpers shared by the three codecs (the protected members of the
 * ImageFormatDto base class) and the .NET primitives they rely on
 * (Buffer.BlockCopy, Array.Resize, BitConverter on a little-endian host).
 */
module ImageFormat {

  /** An unsigned 8-bit value, as in a C# byte[]. */
  type byte = b: int | 0 <= b < 256

  /** The largest C# int; a byte[] never has more elements than this. */
  const Int32Max: int := 0x7FFF_FFFF

  /** The contents of a C# byte[]: its Length is an int. */
  type Bytes = s: seq<byte> | |s| <= Int32Max

  datatype Option<+T> = None | Some(value: T)

  /**
   * What CompareArray(pattern, data, offset) does: Some(b) when its loop
   * returns b, None when it indexes data out of range before it has found a
   * mismatch (the method has no bounds check of its own).
   */
  function Compare(pattern: seq<byte>, data: seq<byte>, offset: nat): (r: Option<bool>)
    ensures r == Some(true) <==>
      (pattern == [] || offset + |pattern| <= |data|) &&
      forall i :: 0 <= i < |pattern| ==> data[offset + i] == pattern[i]
    ensures r == Some(false) <==>
      exists i :: 0 <= i < |pattern| && offset + i < |data| && data[offset + i] != pattern[i]
    ensures r.None? ==> offset + |pattern| > |data|
    ensures offset + |pattern| <= |data| ==> (r == Some(true) <==> data[offset..offset + |pattern|] == pattern)
    decreases |pattern|
  {
    if pattern == [] then Some(true)
    else if offset >= |data| then None
    else if data[offset] != pattern[0] then Some(false)
    else
      var rest := Compare(pattern[1..], data, offset + 1);
      assert rest == Some(false) ==> exists i :: 0 <= i < |pattern| && offset + i < |data| && data[offset + i] != pattern[i] by {
        if rest == Some(false) {
          var i :| 0 <= i < |pattern| - 1 && offset + 1 + i < |data| && data[offset + 1 + i] != pattern[1..][i];
          assert data[offset + (i + 1)] != pattern[i + 1];
        }
      }
      assert (exists i :: 0 <= i < |pattern| && offset + i < |data| && data[offset + i] != pattern[i]) ==> rest == Some(false) by {
        if i :| 0 <= i < |pattern| && offset + i < |data| && data[offset + i] != pattern[i] {
          assert i > 0 && data[offset + 1 + (i - 1)] != pattern[1..][i - 1];
        }
      }
      assert rest == Some(true) <==> offset + |pattern| <= |data| && forall i :: 0 <= i < |pattern| ==> data[offset + i] == pattern[i] by {
        if rest == Some(true) {
          forall i | 0 <= i < |pattern| ensures data[offset + i] == pattern[i] {
            if i > 0 {
              assert data[offset + 1 + (i - 1)] == pattern[1..][i - 1];
            }
          }
        }
        if offset + |pattern| <= |data| && forall i :: 0 <= i < |pattern| ==> data[offset + i] == pattern[i] {
          forall i | 0 <= i < |pattern| - 1 ensures data[offset + 1 + i] == pattern[1..][i] {
            assert data[offset + (i + 1)] == pattern[i + 1];
          }
        }
      }
      rest
  }

  /** CompareArray: element-by-element comparison of pattern with data from offset on. */
  method CompareArray(srcArray: seq<byte>, dstArray: seq<byte>, offset: nat) returns (r: Option<bool>)
    ensures r == Compare(srcArray, dstArray, offset)
  {
    for i := 0 to |srcArray|
      invariant Compare(srcArray, dstArray, offset) == Compare(srcArray[i..], dstArray, offset + i)
    {
      if offset + i >= |dstArray| {
        // dstArray[offset + i] throws IndexOutOfRangeException
        return None;
      }
      if srcArray[i] != dstArray[offset + i] {
        return Some(false);
      }
      assert srcArray[i..][1..] == srcArray[i + 1..];
    }
    return Some(true);
  }

  /**
   * Tries the patterns in order, as the foreach loops over a list of byte
   * arrays do: the first pattern found at offset gives Some(true), a
   * comparison that faults ends the search with None.
   */
  function MatchAny(patterns: seq<seq<byte>>, data: seq<byte>, offset: nat): (r: Option<bool>)
    ensures r == Some(false) <==>
      forall k :: 0 <= k < |patterns| ==> Compare(patterns[k], data, offset) == Some(false)
    ensures r == Some(true) ==>
      exists k :: 0 <= k < |patterns| && Compare(patterns[k], data, offset) == Some(true)
    ensures (forall k :: 0 <= k < |patterns| ==> Compare(patterns[k], data, offset).Some?) ==> r.Some?
  {
    if patterns == [] then Some(false)
    else
      match Compare(patterns[0], data, offset)
      case None => None
      case Some(true) => Some(true)
      case Some(false) =>
        var rest := MatchAny(patterns[1..], data, offset);
        assert forall k :: 1 <= k < |patterns| ==> patterns[k] == patterns[1..][k - 1];
        rest
  }

  /** Compare reads only the |pattern| bytes at offset: two inputs that agree there compare alike. */
  lemma CompareWindow(pattern: seq<byte>, data: seq<byte>, offset: nat, copy: seq<byte>, dst: nat)
    requires offset + |pattern| <= |data| && dst + |pattern| <= |copy|
    requires copy[dst..dst + |pattern|] == data[offset..offset + |pattern|]
    ensures Compare(pattern, copy, dst) == Compare(pattern, data, offset)
  {
  }

  /** MatchAny over patterns of one length n reads only the n bytes at offset. */
  lemma {:induction false} MatchAnyWindow(patterns: seq<seq<byte>>, n: nat, data: seq<byte>, offset: nat, copy: seq<byte>, dst: nat)
    requires forall k :: 0 <= k < |patterns| ==> |patterns[k]| == n
    requires offset + n <= |data| && dst + n <= |copy|
    requires copy[dst..dst + n] == data[offset..offset + n]
    ensures MatchAny(patterns, copy, dst) == MatchAny(patterns, data, offset)
    decreases |patterns|
  {
    if patterns != [] {
      CompareWindow(patterns[0], data, offset, copy, dst);
      assert forall k :: 0 <= k < |patterns[1..]| ==> patterns[1..][k] == patterns[k + 1];
      MatchAnyWindow(patterns[1..], n, data, offset, copy, dst);
    }
  }

  /** CheckMagicNumber: some entry of magickNumbers is a prefix of imageData. */
  method CheckMagicNumber(magickNumbers: seq<seq<byte>>, imageData: seq<byte>) returns (r: Option<bool>)
    ensures r == MatchAny(magickNumbers, imageData, 0)
  {
    for k := 0 to |magickNumbers|
      invariant MatchAny(magickNumbers, imageData, 0) == MatchAny(magickNumbers[k..], imageData, 0)
    {
      var matched := CompareArray(magickNumbers[k], imageData, 0);
      if matched.None? {
        return None;
      }
      if matched.value {
        return Some(true);
      }
      assert magickNumbers[k..][1..] == magickNumbers[k + 1..];
    }
    return Some(false);
  }

  /** s with its elements in reverse order. */
  function Reversed(s: seq<byte>): (r: seq<byte>)
    ensures |r| == |s|
    ensures forall i :: 0 <= i < |s| ==> r[i] == s[|s| - 1 - i]
  {
    if s == [] then [] else [s[|s| - 1]] + Reversed(s[..|s| - 1])
  }

  /**
   * GetSlicedReverseArray: a fresh array holding buffer[offset..offset+length]
   * back to front. The C# loop throws on its first read when the slice runs
   * past the end of buffer, which callers model by checking first.
   */
  method GetSlicedReverseArray(buffer: seq<byte>, offset: nat, length: nat) returns (slicedBuffer: array<byte>)
    requires offset + length <= |buffer|
    ensures fresh(slicedBuffer)
    ensures slicedBuffer[..] == Reversed(buffer[offset..offset + length])
  {
    slicedBuffer := new byte[length];
    for i := 0 to length
      invariant forall j :: 0 <= j < i ==> slicedBuffer[j] == buffer[offset + length - (j + 1)]
    {
      slicedBuffer[i] := buffer[offset + length - (i + 1)];
    }
  }

  function Power256(n: nat): (r: nat)
    ensures r >= 1
    ensures n >= 1 ==> r == 256 * Power256(n - 1)
  {
    if n == 0 then 1 else 256 * Power256(n - 1)
  }

  /** The unsigned value of s read most significant byte first. */
  function BigEndian(s: seq<byte>): (r: nat)
    ensures r < Power256(|s|)
  {
    if s == [] then 0 else 256 * BigEndian(s[..|s| - 1]) + s[|s| - 1]
  }

  /** The unsigned value of s read least significant byte first (BitConverter on a little-endian host). */
  function LittleEndian(s: seq<byte>): (r: nat)
    ensures r < Power256(|s|)
  {
    if s == [] then 0 else s[0] + 256 * LittleEndian(s[1..])
  }

  /** Reversing a slice and decoding it little-endian is big-endian decoding. */
  lemma {:induction false} ReversedLittleEndian(s: seq<byte>)
    ensures LittleEndian(Reversed(s)) == BigEndian(s)
  {
    if s != [] {
      var r := Reversed(s);
      assert r[1..] == Reversed(s[..|s| - 1]);
      ReversedLittleEndian(s[..|s| - 1]);
    }
  }

  /** BitConverter.ToUInt16(value, 0) on a little-endian host. */
  function ToUInt16(value: seq<byte>): (r: nat)
    requires |value| == 2
    ensures r <= 0xFFFF
  {
    LittleEndian(value)
  }

  /** BitConverter.ToInt32(value, 0) on a little-endian host: two's complement. */
  function ToInt32(value: seq<byte>): (r: int)
    requires |value| == 4
    ensures -0x8000_0000 <= r <= Int32Max
    ensures r >= 0 <==> LittleEndian(value) <= Int32Max
    ensures r >= 0 ==> r == LittleEndian(value)
  {
    var u := LittleEndian(value);
    if u <= Int32Max then u else u - 0x1_0000_0000
  }

  /** Unchecked C# int arithmetic: x reduced to the int range modulo 2^32. */
  function WrapInt32(x: int): (r: int)
    ensures -0x8000_0000 <= r <= Int32Max
    ensures (r - x) % 0x1_0000_0000 == 0
    ensures -0x8000_0000 <= x <= Int32Max ==> r == x
  {
    var m := x % 0x1_0000_0000;
    if m <= Int32Max then m else m - 0x1_0000_0000
  }

  /**
   * Buffer.BlockCopy(src, srcOffset, dst, dstOffset, count): throws (ok is
   * false, nothing written) when either range runs past its array.
   */
  method BlockCopy(src: seq<byte>, srcOffset: nat, dst: array<byte>, dstOffset: nat, count: nat) returns (ok: bool)
    modifies dst
    ensures ok <==> srcOffset + count <= |src| && dstOffset + count <= dst.Length
    ensures ok ==> dst[..] == old(dst[..dstOffset]) + src[srcOffset..srcOffset + count] + old(dst[dstOffset + count..])
    ensures !ok ==> dst[..] == old(dst[..])
  {
    if srcOffset + count > |src| || dstOffset + count > dst.Length {
      return false;
    }
    forall i | 0 <= i < count {
      dst[dstOffset + i] := src[srcOffset + i];
    }
    ok := true;
    assert dst[..] == old(dst[..dstOffset]) + src[srcOffset..srcOffset + count] + old(dst[dstOffset + count..]);
  }

  /**
   * After a BlockCopy of e at dst, the bytes from offset to the new output
   * cursor are the old ones from offset to dst followed by e, and those
   * before offset are untouched.
   */
  lemma SpliceWritten(before: seq<byte>, after: seq<byte>, offset: nat, dst: nat, e: seq<byte>)
    requires offset <= dst && dst + |e| <= |before|
    requires after == before[..dst] + e + before[dst + |e|..]
    ensures after[..offset] == before[..offset]
    ensures after[offset..dst + |e|] == before[offset..dst] + e
  {
    assert after[offset..dst + |e|] == (before[..dst] + e)[offset..];
  }

  lemma SplitAt(s: seq<byte>, i: nat, j: nat)
    requires i <= j <= |s|
    ensures s[..j] == s[..i] + s[i..j]
  {
  }

  /** Array.Resize(ref a, newSize): a fresh array keeping the common prefix, zero-padded when it grows. */
  method Resize(a: array<byte>, newSize: nat) returns (b: array<byte>)
    ensures fresh(b) && b.Length == newSize
    ensures newSize <= a.Length ==> b[..] == a[..newSize]
    ensures newSize > a.Length ==> b[..a.Length] == a[..] && forall i :: a.Length <= i < newSize ==> b[i] == 0
  {
    b := new byte[newSize]((i: nat) reads a => if i < a.Length then a[i] else 0);
  }
}

/**
 * The shape all three strip operations share: from a start offset, look at
 * the unit (GIF block, JPEG segment, PNG chunk) that begins at the source
 * cursor, copy it to the output cursor when it is kept, advance the source
 * cursor past it, and go on until the input ends, the codec stops, or a
 * read or copy faults. The codecs differ only in how they size and classify
 * a unit, which each gives as a step function returning a Scan.
 */
module UnitWalk {
  import opened ImageFormat

  /** A unit is at least one byte long, so every step advances the source cursor. */
  type Size = n: int | 1 <= n witness 1

  /**
   * What a codec finds at the source cursor: a unit of size bytes that is
   * kept (copied verbatim) or dropped and after which the walk stops when
   * last is set; a silent stop; or a fault (an exception the strip
   * operation catches).
   */
  datatype Scan = Unit(keep: bool, size: Size, last: bool) | Halt | Fault

  /**
   * The bytes the unit at src adds to the output. Copying a kept unit faults
   * when Buffer.BlockCopy finds it runs past the input. Skipping a dropped
   * unit faults when the C# int sum src + size exceeds Int32Max: the cursor
   * wraps to a negative value, the loop test `src < Length` still holds and
   * the next read throws.
   */
  function Emit(data: seq<byte>, src: nat, keep: bool, size: Size): (r: Option<seq<byte>>)
    ensures r.Some? && keep ==> src + size <= |data| && r.value == data[src..src + size]
    ensures r.Some? && !keep ==> r.value == []
    ensures r.None? <==> (if keep then src + size > |data| else src + size > Int32Max)
  {
    if keep then
      if src + size <= |data| then Some(data[src..src + size]) else None
    else
      if src + size <= Int32Max then Some([]) else None
  }

  /** Puts prefix in front of a successful result; a fault stays a fault. */
  function Prepend(prefix: seq<byte>, r: Option<seq<byte>>): (p: Option<seq<byte>>)
    ensures p.Some? <==> r.Some?
    ensures p.Some? ==> |p.value| == |prefix| + |r.value| && p.value[..|prefix|] == prefix
  {
    if r.Some? then Some(prefix + r.value) else None
  }

  lemma PrependPrepend(a: seq<byte>, b: seq<byte>, r: Option<seq<byte>>)
    ensures Prepend(a, Prepend(b, r)) == Prepend(a + b, r)
  {
    if r.Some? {
      assert a + (b + r.value) == (a + b) + r.value;
    }
  }

  /**
   * The output the walk from src produces: the kept units in input order,
   * or None when some step faults. Reaching the end of the input, a Halt and
   * a last unit all end the walk successfully. The output is never longer
   * than the input that remains from src.
   */
  function Walk(step: (seq<byte>, nat) -> Scan, data: seq<byte>, src: nat): (r: Option<seq<byte>>)
    ensures r.Some? && src <= |data| ==> |r.value| <= |data| - src
    decreases |data| - src
  {
    if src >= |data| then Some([])
    else
      match step(data, src)
      case Fault => None
      case Halt => Some([])
      case Unit(keep, size, last) =>
        match Emit(data, src, keep, size)
        case None => None
        case Some(bytes) =>
          if last then Some(bytes) else Prepend(bytes, Walk(step, data, src + size))
  }

  /** One loop iteration of a strip method: the walk from src is the unit's bytes followed by the walk from src + size. */
  lemma WalkStep(step: (seq<byte>, nat) -> Scan, data: seq<byte>, src: nat)
    requires src < |data| && step(data, src).Unit? && !step(data, src).last
    ensures var s := step(data, src);
      Walk(step, data, src) == match Emit(data, src, s.keep, s.size)
        case None => None
        case Some(bytes) => Prepend(bytes, Walk(step, data, src + s.size))
  {
  }

  /**
   * The loop invariant of every strip method: the walk from start produces
   * what has been written so far followed by what the walk from the source
   * cursor src produces.
   */
  ghost predicate Produced(step: (seq<byte>, nat) -> Scan, data: seq<byte>, start: nat, written: seq<byte>, src: nat)
  {
    Walk(step, data, start) == Prepend(written, Walk(step, data, src))
  }

  /**
   * The loop invariant of every strip method, carried over one non-last
   * unit: what the walk from start produces is what has been written so far,
   * then this unit's bytes, then the walk from past the unit.
   */
  lemma WalkAdvance(step: (seq<byte>, nat) -> Scan, data: seq<byte>, start: nat, src: nat, written: seq<byte>)
    requires src < |data| && step(data, src).Unit? && !step(data, src).last
    requires Emit(data, src, step(data, src).keep, step(data, src).size).Some?
    requires Produced(step, data, start, written, src)
    ensures var s := step(data, src);
      Walk(step, data, start) ==
        Prepend(written + Emit(data, src, s.keep, s.size).value, Walk(step, data, src + s.size))
  {
    var s := step(data, src);
    PrependPrepend(written, Emit(data, src, s.keep, s.size).value, Walk(step, data, src + s.size));
  }

  /** The invariant at a unit that ends the walk: the walk from start produces what has been written and this unit's bytes. */
  lemma WalkLast(step: (seq<byte>, nat) -> Scan, data: seq<byte>, start: nat, src: nat, written: seq<byte>)
    requires src < |data| && step(data, src).Unit? && step(data, src).last
    requires Emit(data, src, step(data, src).keep, step(data, src).size).Some?
    requires Produced(step, data, start, written, src)
    ensures var s := step(data, src);
      Walk(step, data, start) == Some(written + Emit(data, src, s.keep, s.size).value)
  {
  }

  /** The invariant where the walk stops without a unit: the output is what has been written. */
  lemma WalkStop(step: (seq<byte>, nat) -> Scan, data: seq<byte>, start: nat, src: nat, written: seq<byte>)
    requires src >= |data| || step(data, src).Halt?
    requires Produced(step, data, start, written, src)
    ensures Walk(step, data, start) == Some(written)
  {
    assert written + [] == written;
  }

  /** The invariant at a unit that faults: the whole walk faults. */
  lemma WalkFault(step: (seq<byte>, nat) -> Scan, data: seq<byte>, start: nat, src: nat, written: seq<byte>)
    requires src < |data|
    requires !(step(data, src).Unit? || step(data, src).Halt?) ||
      (step(data, src).Unit? && Emit(data, src, step(data, src).keep, step(data, src).size).None?)
    requires Produced(step, data, start, written, src)
    ensures Walk(step, data, start).None?
  {
  }

  /** The unit at src is sized and its bytes can be emitted: one step of the walk that neither faults nor stops. */
  ghost predicate Advances(step: (seq<byte>, nat) -> Scan, data: seq<byte>, src: nat)
  {
    src < |data| && step(data, src).Unit? &&
    Emit(data, src, step(data, src).keep, step(data, src).size).Some?
  }

  /**
   * What a strip method's per-unit helper leaves behind when it succeeds:
   * the source cursor moved past the unit, the unit's bytes (none when it
   * is dropped) written at dst in a buffer that is otherwise unchanged, and
   * the output cursor moved past them.
   */
  ghost predicate Copied(step: (seq<byte>, nat) -> Scan, data: seq<byte>, src: nat, dst: nat,
                         before: seq<byte>, after: seq<byte>, nextSrc: nat, nextDst: nat)
  {
    Advances(step, data, src) &&
    var s := step(data, src);
    var bytes := Emit(data, src, s.keep, s.size).value;
    nextSrc == src + s.size && nextDst == dst + |bytes| && nextDst <= |before| &&
    after == before[..dst] + bytes + before[nextDst..]
  }

  /** A kept unit block-copied from src to dst is Copied. */
  lemma KeptCopied(step: (seq<byte>, nat) -> Scan, data: seq<byte>, src: nat, dst: nat,
                   before: seq<byte>, after: seq<byte>)
    requires src < |data| && step(data, src).Unit? && step(data, src).keep
    requires src + step(data, src).size <= |data| && dst + step(data, src).size <= |before|
    requires after == before[..dst] + data[src..src + step(data, src).size] + before[dst + step(data, src).size..]
    ensures Copied(step, data, src, dst, before, after, src + step(data, src).size, dst + step(data, src).size)
  {
  }

  /** A dropped unit skipped without writing, within the int range of the source cursor, is Copied. */
  lemma DroppedCopied(step: (seq<byte>, nat) -> Scan, data: seq<byte>, src: nat, dst: nat, before: seq<byte>)
    requires src < |data| && step(data, src).Unit? && !step(data, src).keep
    requires src + step(data, src).size <= Int32Max && dst <= |before|
    ensures Copied(step, data, src, dst, before, before, src + step(data, src).size, dst)
  {
    assert before == before[..dst] + [] + before[dst..];
  }

  /**
   * The strip loop's invariant carried over one Copied unit: the output
   * buffer before offset is untouched and, from offset to the output
   * cursor, holds what the walk from start has produced so far.
   */
  lemma {:induction false} CopiedAdvance(step: (seq<byte>, nat) -> Scan, data: seq<byte>, start: nat, src: nat, dst: nat,
                               before: seq<byte>, after: seq<byte>, nextSrc: nat, nextDst: nat, offset: nat)
    requires Copied(step, data, src, dst, before, after, nextSrc, nextDst)
    requires offset <= dst
    requires !step(data, src).last
    requires Produced(step, data, start, before[offset..dst], src)
    ensures after[..offset] == before[..offset]
    ensures Produced(step, data, start, after[offset..nextDst], nextSrc)
  {
    var s := step(data, src);
    var bytes := Emit(data, src, s.keep, s.size).value;
    SpliceWritten(before, after, offset, dst, bytes);
    WalkAdvance(step, data, start, src, before[offset..dst]);
  }

  /** The strip loop's invariant at a Copied unit that ends the walk: the output is complete. */
  lemma {:induction false} CopiedLast(step: (seq<byte>, nat) -> Scan, data: seq<byte>, start: nat, src: nat, dst: nat,
                            before: seq<byte>, after: seq<byte>, nextSrc: nat, nextDst: nat, offset: nat)
    requires Copied(step, data, src, dst, before, after, nextSrc, nextDst)
    requires offset <= dst
    requires step(data, src).last
    requires Produced(step, data, start, before[offset..dst], src)
    ensures after[..offset] == before[..offset]
    ensures Walk(step, data, start) == Some(after[offset..nextDst])
  {
    var s := step(data, src);
    var bytes := Emit(data, src, s.keep, s.size).value;
    SpliceWritten(before, after, offset, dst, bytes);
    WalkLast(step, data, start, src, before[offset..dst]);
  }

  /**
   * The walk from src keeps every unit it meets, none of them faults, and it
   * ends exactly at the end of the input (no Halt and nothing after a last
   * unit).
   */
  ghost predicate Verbatim(step: (seq<byte>, nat) -> Scan, data: seq<byte>, src: nat)
    decreases |data| - src
  {
    src >= |data| ||
    match step(data, src)
    case Unit(keep, size, last) =>
      keep && src + size <= |data| &&
      if last then src + size == |data| else Verbatim(step, data, src + size)
    case _ => false
  }

  /** The walk reproduces the input exactly when, and only when, it drops nothing and runs to the end. */
  lemma {:induction false} WalkIdentity(step: (seq<byte>, nat) -> Scan, data: seq<byte>, src: nat)
    requires src <= |data|
    ensures Walk(step, data, src) == Some(data[src..]) <==> Verbatim(step, data, src)
    decreases |data| - src
  {
    if src < |data| {
      match step(data, src)
      case Unit(keep, size, last) =>
        if !last && keep && src + size <= |data| {
          WalkIdentity(step, data, src + size);
          var head := data[src..src + size];
          assert data[src..] == head + data[src + size..];
          var rest := Walk(step, data, src + size);
          if rest.Some? {
            assert (head + rest.value)[size..] == rest.value;
            assert (head + data[src + size..])[size..] == data[src + size..];
          }
          assert Walk(step, data, src) == Prepend(head, rest);
        } else if !last && !keep && src + size <= Int32Max {
          // a dropped unit loses size >= 1 bytes the rest cannot make up for
          assert Walk(step, data, src) == Walk(step, data, src + size);
        } else if last && keep && src + size <= |data| {
          assert Walk(step, data, src) == Some(data[src..src + size]);
          assert data[src..src + size] == data[src..] ==> src + size == |data|;
        } else {
          assert Walk(step, data, src).None? || Walk(step, data, src) == Some([]);
        }
      case Halt =>
        assert Walk(step, data, src) == Some([]);
      case Fault =>
    } else {
      assert data[src..] == [];
    }
  }

  /**
   * copy holds the size bytes of data at src again at dst, and when those
   * bytes end data they also end copy.
   */
  ghost predicate Copies(data: seq<byte>, src: nat, size: nat, copy: seq<byte>, dst: nat)
  {
    src + size <= |data| && dst + size <= |copy| && copy[dst..dst + size] == data[src..src + size] &&
    (src + size == |data| ==> dst + size == |copy|)
  }

  /** The unit at src, when it is kept, scans the same wherever its bytes are copied. */
  ghost predicate SelfDelimiting(step: (seq<byte>, nat) -> Scan, data: seq<byte>, src: nat)
  {
    match step(data, src)
    case Unit(keep, size, _) =>
      keep ==> forall copy: seq<byte>, dst: nat {:trigger Copies(data, src, size, copy, dst)} ::
        Copies(data, src, size, copy, dst) ==> step(copy, dst) == step(data, src)
    case _ => true
  }

  /** Every unit the walk from src meets is self-delimiting. */
  ghost predicate SelfDelimitingWalk(step: (seq<byte>, nat) -> Scan, data: seq<byte>, src: nat)
    decreases |data| - src
  {
    src >= |data| ||
    (SelfDelimiting(step, data, src) &&
     match step(data, src)
     case Unit(_, size, last) => !last ==> SelfDelimitingWalk(step, data, src + size)
     case _ => true)
  }

  /** Byte k of a copied run is the same in both places. */
  lemma CopiedByte(data: seq<byte>, src: nat, size: nat, copy: seq<byte>, dst: nat, k: nat)
    requires Copies(data, src, size, copy, dst) && k < size
    ensures copy[dst + k] == data[src + k]
  {
    assert copy[dst..dst + size][k] == data[src..src + size][k];
  }

  /** Any window inside a copied run is copied too. */
  lemma CopiedWindow(data: seq<byte>, src: nat, size: nat, copy: seq<byte>, dst: nat, k: nat, n: nat)
    requires Copies(data, src, size, copy, dst) && k + n <= size
    ensures copy[dst + k..dst + k + n] == data[src + k..src + k + n]
  {
    var window, original := copy[dst + k..dst + k + n], data[src + k..src + k + n];
    forall j | 0 <= j < n
      ensures window[j] == original[j]
    {
      CopiedByte(data, src, size, copy, dst, k + j);
    }
  }

  /** A copied run, byte by byte. */
  lemma CopiesPointwise(data: seq<byte>, src: nat, size: nat, copy: seq<byte>, dst: nat)
    requires Copies(data, src, size, copy, dst)
    ensures forall i :: src <= i < src + size ==> copy[dst + (i - src)] == data[i]
  {
    forall i | src <= i < src + size
      ensures copy[dst + (i - src)] == data[i]
    {
      CopiedByte(data, src, size, copy, dst, i - src);
    }
  }

  /** SelfDelimitingWalk from src, built from the unit at src and the walk from next, where the walk goes on after it. */
  lemma SelfDelimitingWalkStep(step: (seq<byte>, nat) -> Scan, data: seq<byte>, src: nat, next: Option<nat>)
    requires SelfDelimiting(step, data, src)
    requires next.Some? <==> step(data, src).Unit? && !step(data, src).last
    requires next.Some? ==> next.value == src + step(data, src).size && SelfDelimitingWalk(step, data, next.value)
    ensures SelfDelimitingWalk(step, data, src)
  {
  }

  /** A self-delimiting kept unit copied to the start of copy scans the same there. */
  lemma SelfDelimitingCopy(step: (seq<byte>, nat) -> Scan, data: seq<byte>, src: nat, copy: seq<byte>, dst: nat)
    requires SelfDelimiting(step, data, src)
    requires step(data, src).Unit? && step(data, src).keep
    requires Copies(data, src, step(data, src).size, copy, dst)
    ensures step(copy, dst) == step(data, src)
  {
  }

  /** A kept non-last unit at offset: the walk from it is its bytes followed by the walk after it. */
  lemma RewalkKept(step: (seq<byte>, nat) -> Scan, copy: seq<byte>, offset: nat, bytes: seq<byte>, next: nat, rest: seq<byte>)
    requires step(copy, offset).Unit? && step(copy, offset).keep && !step(copy, offset).last
    requires step(copy, offset).size == |bytes| && next == offset + |bytes| && next <= |copy|
    requires copy[offset..next] == bytes
    requires Walk(step, copy, next) == Some(rest)
    ensures Walk(step, copy, offset) == Some(bytes + rest)
  {
  }

  /** A suffix of copy that is bytes followed by rest splits at |bytes|. */
  lemma SuffixSplit(copy: seq<byte>, offset: nat, bytes: seq<byte>, rest: seq<byte>)
    requires offset <= |copy| && copy[offset..] == bytes + rest
    ensures offset + |bytes| <= |copy|
    ensures copy[offset..offset + |bytes|] == bytes
    ensures copy[offset + |bytes|..] == rest
  {
    assert copy[offset..][..|bytes|] == copy[offset..offset + |bytes|];
    assert copy[offset..][|bytes|..] == copy[offset + |bytes|..];
  }

  /** A kept last unit at offset: the walk from it is its bytes. */
  lemma RewalkFinal(step: (seq<byte>, nat) -> Scan, copy: seq<byte>, offset: nat, bytes: seq<byte>, next: nat)
    requires step(copy, offset).Unit? && step(copy, offset).keep && step(copy, offset).last
    requires step(copy, offset).size == |bytes| && next == offset + |bytes| && next <= |copy|
    requires copy[offset..next] == bytes
    ensures Walk(step, copy, offset) == Some(bytes)
  {
  }

  /** A kept non-last unit splits the walk's output into its own bytes and the rest, which is empty when the unit ends the data. */
  lemma WalkKeptStep(step: (seq<byte>, nat) -> Scan, data: seq<byte>, src: nat, size: Size, out: seq<byte>) returns (rest: seq<byte>)
    requires src < |data| && step(data, src) == Unit(true, size, false) && Walk(step, data, src) == Some(out)
    ensures src + size <= |data| && Walk(step, data, src + size) == Some(rest)
    ensures out == data[src..src + size] + rest
    ensures src + size == |data| ==> rest == []
  {
    rest := Walk(step, data, src + size).value;
  }

  /** The unit's bytes at offset, followed by the rest of the walk, make a copy of the unit. */
  lemma RewalkCopies(data: seq<byte>, src: nat, size: nat, copy: seq<byte>, offset: nat, rest: seq<byte>)
    requires src + size <= |data| && offset + size <= |copy|
    requires copy[offset..offset + size] == data[src..src + size] && copy[offset + size..] == rest
    requires src + size == |data| ==> rest == []
    ensures Copies(data, src, size, copy, offset)
  {
    if src + size == |data| {
      assert |copy[offset + size..]| == 0;
    }
  }

  /** WalkRewalk at a kept unit that ends the walk. */
  lemma RewalkLastUnit(step: (seq<byte>, nat) -> Scan, data: seq<byte>, src: nat, size: Size, copy: seq<byte>, offset: nat)
    requires src + size <= |data| && step(data, src) == Unit(true, size, true)
    requires SelfDelimiting(step, data, src)
    requires offset <= |copy| && copy[offset..] == data[src..src + size]
    ensures Walk(step, data, src) == Some(data[src..src + size])
    ensures Walk(step, copy, offset) == Some(data[src..src + size])
  {
    var bytes := data[src..src + size];
    RewalkFinal(step, data, src, bytes, src + size);
    assert bytes + [] == bytes;
    SuffixSplit(copy, offset, bytes, []);
    assert Copies(data, src, size, copy, offset);
    SelfDelimitingCopy(step, data, src, copy, offset);
    RewalkFinal(step, copy, offset, bytes, offset + size);
  }

  /** WalkRewalk at a kept unit the walk goes on after: a copy of the unit followed by the rest of the walk's output walks to both. */
  lemma RewalkNextUnit(step: (seq<byte>, nat) -> Scan, data: seq<byte>, src: nat, size: Size, copy: seq<byte>, offset: nat, rest: seq<byte>)
    requires step(data, src) == Unit(true, size, false)
    requires SelfDelimiting(step, data, src)
    requires Copies(data, src, size, copy, offset)
    requires Walk(step, copy, offset + size) == Some(rest)
    ensures Walk(step, copy, offset) == Some(data[src..src + size] + rest)
  {
    SelfDelimitingCopy(step, data, src, copy, offset);
    RewalkKept(step, copy, offset, data[src..src + size], offset + size, rest);
  }

  /**
   * Walking a walk's output again, wherever it stands as the tail of copy,
   * gives that output back: the second pass meets exactly the kept units of
   * the first, in order, and keeps each of them.
   */
  lemma {:induction false} WalkRewalk(step: (seq<byte>, nat) -> Scan, data: seq<byte>, src: nat, out: seq<byte>, copy: seq<byte>, offset: nat)
    requires SelfDelimitingWalk(step, data, src) && Walk(step, data, src) == Some(out)
    requires offset <= |copy| && copy[offset..] == out
    ensures Walk(step, copy, offset) == Some(out)
    decreases |data| - src
  {
    if src < |data| {
      match step(data, src)
      case Unit(keep, size, last) =>
        if !keep && !last {
          WalkStep(step, data, src);
          WalkRewalk(step, data, src + size, out, copy, offset);
        } else if keep && last {
          RewalkLastUnit(step, data, src, size, copy, offset);
        } else if keep {
          var rest := WalkKeptStep(step, data, src, size, out);
          SuffixSplit(copy, offset, data[src..src + size], rest);
          WalkRewalk(step, data, src + size, rest, copy, offset + size);
          RewalkCopies(data, src, size, copy, offset, rest);
          RewalkNextUnit(step, data, src, size, copy, offset, rest);
        }
      case _ =>
    }
  }
}

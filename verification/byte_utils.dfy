/**
 * The byte-array helpers of `ByteUtils`: slicing, concatenation, in-place
 * overwrite, content comparison and containment. A Java `byte[]` that may be
 * `null` is a `ByteArray`, i.e. `Option<seq<Byte>>`.
 */
module ByteUtils {
  import opened Wrappers
  import opened JavaTypes
  import Seqs

  type Bytes = seq<Byte>

  type ByteArray = Option<Bytes>

  /** The length of a possibly-null array, counting `null` as empty. */
  function Length(a: ByteArray): nat
  {
    if a.Some? then |a.value| else 0
  }

  /** `createByteArray(int...)`: one byte per argument, each the argument's low eight bits. */
  function CreateByteArray(numbers: seq<Int32>): (r: Bytes)
    ensures |r| == |numbers|
    ensures forall i :: 0 <= i < |numbers| ==> (r[i] - numbers[i]) % 256 == 0
  {
    if |numbers| == 0 then [] else [LowByte(numbers[0])] + CreateByteArray(numbers[1..])
  }

  /** The example of the documentation comment: 500 keeps only its low byte 0xf4. */
  lemma CreateByteArrayExample()
    ensures CreateByteArray([1, 2, 3, 4, 5, 100, 500]) == [0x1, 0x2, 0x3, 0x4, 0x5, 0x64, 0xf4]
  {
  }

  /** Arguments that already fit in an unsigned byte are stored unchanged. */
  lemma {:induction false} CreateByteArrayOfBytes(numbers: seq<Int32>)
    requires forall i :: 0 <= i < |numbers| ==> 0 <= numbers[i] < 256
    ensures CreateByteArray(numbers) == numbers
  {
    var r := CreateByteArray(numbers);
    forall i | 0 <= i < |numbers|
      ensures r[i] == numbers[i]
    {
      assert (r[i] - numbers[i]) % 256 == 0;
      assert -256 < r[i] - numbers[i] < 256;
    }
  }

  /** `concatenate(a, b)`: `null` acts as a neutral element, and two `null`s give `null`. */
  function Concatenate(a: ByteArray, b: ByteArray): (r: ByteArray)
    ensures r.None? <==> a.None? && b.None?
    ensures r.Some? ==> |r.value| == Length(a) + Length(b)
    ensures a.Some? ==> r.Some? && r.value[..|a.value|] == a.value
    ensures b.Some? ==> r.Some? && r.value[|r.value| - |b.value|..] == b.value
  {
    match (a, b)
    case (None, None) => None
    case (None, Some(_)) => b
    case (Some(_), None) => a
    case (Some(x), Some(y)) => Some(x + y)
  }

  /** `addByte(a, b)`: a copy of `a` with `b` at the end; a `null` array counts as empty. */
  function AddByte(a: ByteArray, b: Byte): (r: Bytes)
    ensures |r| == Length(a) + 1
    ensures r[|r| - 1] == b
    ensures a.Some? ==> r[..|a.value|] == a.value
  {
    if a.None? then [b] else a.value + [b]
  }

  /** `addByte` agrees with concatenating a one-byte array. */
  lemma AddByteIsConcatenate(a: ByteArray, b: Byte)
    ensures Concatenate(a, Some([b])) == Some(AddByte(a, b))
  {
  }

  /** The bytes of `src` from `startPos` on, at most `num` of them. */
  function Slice(src: Bytes, startPos: nat, num: nat): (r: Bytes)
    requires startPos <= |src|
    ensures |r| == Seqs.Min(num, |src| - startPos)
    ensures r == src[startPos..startPos + |r|]
  {
    src[startPos..Seqs.Min(startPos + num, |src|)]
  }

  /**
   * `subByteArray(src, startPos, num)` as written: `null` for a negative start or
   * a non-positive count, otherwise `Arrays.copyOfRange(src, startPos, endPos)`
   * with `endPos` clipped to the array length. The end is computed in 32-bit
   * arithmetic, and `copyOfRange` throws when the start lies past the end.
   */
  function SubByteArray(src: Bytes, startPos: Int32, num: Int32): (r: Result<ByteArray, JavaException>)
    requires |src| <= INT_MAX
    ensures startPos < 0 || num <= 0 ==> r == Success(None)
    ensures r.Success? && r.value.Some? ==>
              0 <= startPos && |r.value.value| <= num && startPos + |r.value.value| <= |src| &&
              r.value.value == src[startPos..startPos + |r.value.value|]
    ensures 0 <= startPos && 0 < num && startPos + num > INT_MAX ==> r == Failure(IllegalArgument)
    ensures 0 <= startPos <= |src| && 0 < num && startPos + num <= INT_MAX ==> r == Success(Some(Slice(src, startPos, num)))
  {
    if startPos < 0 || num <= 0 then Success(None)
    else
      var sum := Wrap32(startPos + num);
      var endPos := if sum > |src| then |src| else sum;
      if startPos > endPos then Failure(IllegalArgument)
      else Success(Some(src[startPos..endPos]))
  }

  /**
   * The overflow of `startPos + num`: asking for "everything from index 1" with
   * `Integer.MAX_VALUE` as the count throws instead of returning the tail.
   */
  lemma SubByteArrayOverflowThrows()
    ensures SubByteArray([0, 0], 1, INT_MAX) == Failure(IllegalArgument)
    ensures SubByteArrayIntended([0, 0], 1, INT_MAX) == Success(Some([0]))
  {
    var src: Bytes := [0, 0];
    assert Slice(src, 1, INT_MAX) == src[1..2] == [0];
  }

  /** `subByteArray` with the end position computed without overflow. */
  function SubByteArrayIntended(src: Bytes, startPos: Int32, num: Int32): (r: Result<ByteArray, JavaException>)
    requires |src| <= INT_MAX
    ensures startPos < 0 || num <= 0 ==> r == Success(None)
    ensures 0 <= startPos <= |src| && 0 < num ==> r == Success(Some(Slice(src, startPos, num)))
    ensures startPos > |src| && 0 < num ==> r == Failure(IllegalArgument)
  {
    if startPos < 0 || num <= 0 then Success(None)
    else
      var endPos := if startPos + num > |src| then |src| else startPos + num;
      if startPos > endPos then Failure(IllegalArgument)
      else Success(Some(src[startPos..endPos]))
  }

  /** The two versions differ only where `startPos + num` overflows. */
  lemma SubByteArrayAgreesWithoutOverflow(src: Bytes, startPos: Int32, num: Int32)
    requires |src| <= INT_MAX
    requires startPos + num <= INT_MAX
    ensures SubByteArray(src, startPos, num) == SubByteArrayIntended(src, startPos, num)
  {
  }

  /** Slicing a concatenation back at the seam returns both operands. */
  lemma ConcatenateThenSlice(a: Bytes, b: Bytes)
    requires 0 < |a| && 0 < |b| && |a| + |b| <= INT_MAX
    ensures var c := Concatenate(Some(a), Some(b)).value;
            SubByteArrayIntended(c, 0, |a|) == Success(Some(a)) &&
            SubByteArrayIntended(c, |a|, |b|) == Success(Some(b))
  {
    var c := a + b;
    assert Slice(c, 0, |a|) == c[..|a|] == a;
    assert Slice(c, |a|, |b|) == c[|a|..] == b;
  }

  /** `src` with `src[startPos .. startPos + |bytes|)` replaced by `bytes`. */
  function Overwrite(src: Bytes, bytes: Bytes, startPos: nat): (r: Bytes)
    requires startPos + |bytes| <= |src|
    ensures |r| == |src|
    ensures r[startPos..startPos + |bytes|] == bytes
    ensures forall i :: 0 <= i < |src| && !(startPos <= i < startPos + |bytes|) ==> r[i] == src[i]
  {
    src[..startPos] + bytes + src[startPos + |bytes|..]
  }

  /** An in-place copy's effect: the array afterwards (the caller sees it even after a throw), and the call's outcome. */
  datatype InPlace = InPlace(after: ByteArray, outcome: Result<ByteArray, JavaException>)

  /**
   * The loop `for (i = ...; i < end; i++) src[i] = bytes[j++]` from index `i`
   * on, where the byte stored at `i` is `bytes[i - startPos]`. The first index
   * outside `src` throws ArrayIndexOutOfBoundsException, keeping the stores
   * made so far.
   */
  function CopyLoop(src: Bytes, bytes: Bytes, startPos: int, i: int, end: int): (r: InPlace)
    requires startPos <= i <= end && end - startPos <= |bytes|
    decreases end - i
    ensures i == end ==> r == InPlace(Some(src), Success(Some(src)))
    ensures 0 <= i && end <= |src| ==>
              var a := src[..i] + bytes[i - startPos..end - startPos] + src[end..];
              r == InPlace(Some(a), Success(Some(a)))
    ensures (i < 0 || |src| < i) && i < end ==> r == InPlace(Some(src), Failure(ArrayIndexOutOfBounds))
    ensures 0 <= i <= |src| < end ==>
              r == InPlace(Some(src[..i] + bytes[i - startPos..|src| - startPos]), Failure(ArrayIndexOutOfBounds))
  {
    if i >= end then
      assert 0 <= i && end <= |src| ==> src[..i] + bytes[i - startPos..end - startPos] + src[end..] == src;
      InPlace(Some(src), Success(Some(src)))
    else if i < 0 || i >= |src| then
      assert 0 <= i <= |src| ==> src[..i] + bytes[i - startPos..|src| - startPos] == src;
      InPlace(Some(src), Failure(ArrayIndexOutOfBounds))
    else
      var src' := src[i := bytes[i - startPos]];
      var r := CopyLoop(src', bytes, startPos, i + 1, end);
      assert src'[..i + 1] == src[..i] + [bytes[i - startPos]];
      if end <= |src| then
        assert src'[end..] == src[end..];
        assert bytes[i - startPos..end - startPos] == [bytes[i - startPos]] + bytes[i + 1 - startPos..end - startPos];
        assert src[..i] + bytes[i - startPos..end - startPos] + src[end..]
            == src'[..i + 1] + bytes[i + 1 - startPos..end - startPos] + src'[end..];
        r
      else
        assert bytes[i - startPos..|src| - startPos] == [bytes[i - startPos]] + bytes[i + 1 - startPos..|src| - startPos];
        assert src[..i] + bytes[i - startPos..|src| - startPos] == src'[..i + 1] + bytes[i + 1 - startPos..|src| - startPos];
        r
  }

  /**
   * `merge(src, bytes, startPos)` and `append(src, bytes, startPos)`: the loop
   * bound `startPos + bytes.length` is an int sum, so a sum past
   * `Integer.MAX_VALUE` wraps negative and the loop does not run.
   */
  function MergeEffect(src: ByteArray, bytes: ByteArray, startPos: Int32): (r: InPlace)
    requires Length(src) <= INT_MAX && Length(bytes) <= INT_MAX
    ensures bytes.None? ==> r == InPlace(src, Failure(NullPointer))
    ensures bytes.Some? && (|bytes.value| == 0 || startPos + |bytes.value| > INT_MAX) ==> r == InPlace(src, Success(src))
    ensures bytes.Some? && 0 < |bytes.value| && startPos + |bytes.value| <= INT_MAX && src.None? ==>
              r == InPlace(None, Failure(NullPointer))
    ensures src.Some? && bytes.Some? && 0 <= startPos && startPos + |bytes.value| <= |src.value| ==>
              var a := Overwrite(src.value, bytes.value, startPos);
              r == InPlace(Some(a), Success(Some(a)))
    ensures src.Some? && bytes.Some? && 0 < |bytes.value| && startPos + |bytes.value| <= INT_MAX &&
            (startPos < 0 || |src.value| < startPos) ==>
              r == InPlace(src, Failure(ArrayIndexOutOfBounds))
    ensures src.Some? && bytes.Some? && 0 <= startPos <= |src.value| < startPos + |bytes.value| <= INT_MAX ==>
              r == InPlace(Some(src.value[..startPos] + bytes.value[..|src.value| - startPos]), Failure(ArrayIndexOutOfBounds))
  {
    if bytes.None? then InPlace(src, Failure(NullPointer))
    else
      var end := Wrap32(startPos + |bytes.value|);
      if startPos >= end then
        assert src.Some? && |bytes.value| == 0 && 0 <= startPos <= |src.value| ==>
                 Overwrite(src.value, bytes.value, startPos) == src.value;
        InPlace(src, Success(src))
      else if src.None? then InPlace(src, Failure(NullPointer))
      else
        var s, b := src.value, bytes.value;
        assert 0 <= startPos && startPos + |b| <= |s| ==>
                 s[..startPos] + b[0..end - startPos] + s[end..] == Overwrite(s, b, startPos);
        CopyLoop(s, b, startPos, startPos, end)
  }

  /**
   * `merge(src, bytes, startPos)` on a present `src`: the index loop,
   * overwriting `src` in place, with the effect `MergeEffect` describes; an
   * out-of-range index stops it with `thrown`.
   */
  method Merge(src: array<Byte>, bytes: Bytes, startPos: Int32) returns (r: array<Byte>, thrown: Option<JavaException>)
    requires src.Length <= INT_MAX && |bytes| <= INT_MAX
    modifies src
    ensures r == src
    ensures var e := MergeEffect(Some(old(src[..])), Some(bytes), startPos);
            Some(src[..]) == e.after && (thrown.None? <==> e.outcome.Success?) &&
            (thrown.Some? ==> e.outcome == Failure(thrown.value))
  {
    ghost var s0 := src[..];
    var end := Wrap32(startPos + |bytes|);
    var j := 0;
    var i: int := startPos;
    r, thrown := src, None;
    if startPos >= end {
      assert MergeEffect(Some(s0), Some(bytes), startPos) == InPlace(Some(s0), Success(Some(s0)));
      return;
    }
    ghost var goal := CopyLoop(s0, bytes, startPos, startPos, end);
    assert MergeEffect(Some(s0), Some(bytes), startPos) == goal;
    while i < end
      invariant startPos <= i <= end && j == i - startPos
      invariant CopyLoop(src[..], bytes, startPos, i, end) == goal
      decreases end - i
    {
      if i < 0 || i >= src.Length {
        thrown := Some(ArrayIndexOutOfBounds);
        assert goal == InPlace(Some(src[..]), Failure(ArrayIndexOutOfBounds));
        return;
      }
      ghost var before := src[..];
      src[i] := bytes[j];
      assert src[..] == before[i := bytes[i - startPos]];
      j := j + 1;
      i := i + 1;
    }
    assert goal == InPlace(Some(src[..]), Success(Some(src[..])));
  }

  /** `append(src, bytes, startPos)`: the same index loop as `merge`, with the same effect. */
  method Append(src: array<Byte>, bytes: Bytes, startPos: Int32) returns (r: array<Byte>, thrown: Option<JavaException>)
    requires src.Length <= INT_MAX && |bytes| <= INT_MAX
    modifies src
    ensures r == src
    ensures var e := MergeEffect(Some(old(src[..])), Some(bytes), startPos);
            Some(src[..]) == e.after && (thrown.None? <==> e.outcome.Success?) &&
            (thrown.Some? ==> e.outcome == Failure(thrown.value))
  {
    r, thrown := Merge(src, bytes, startPos);
  }

  /** `compare2Array(b1, b2)`: both `null`, or both present with the same bytes. */
  method Compare2Array(b1: ByteArray, b2: ByteArray) returns (r: bool)
    ensures r <==> b1 == b2
  {
    if b1.None? && b2.None? {
      return true;
    }
    if b1.None? || b2.None? {
      return false;
    }
    var s1, s2 := b1.value, b2.value;
    if |s1| != |s2| {
      return false;
    }
    var i := 0;
    while i < |s1|
      invariant 0 <= i <= |s1|
      invariant s1[..i] == s2[..i]
    {
      if s1[i] != s2[i] {
        return false;
      }
      i := i + 1;
    }
    assert s1 == s1[..i] && s2 == s2[..i];
    return true;
  }

  /**
   * `isContain(src, child)` as written. Two `null`s are contained, one `null` is
   * not; an equally long `child` must equal `src`; a shorter one is looked for
   * only at start positions `i < |child|`, and only where `src[i] == child[i]`.
   */
  function IsContain(src: ByteArray, child: ByteArray): bool
  {
    match (src, child)
    case (None, None) => true
    case (None, Some(_)) => false
    case (Some(_), None) => false
    case (Some(s), Some(c)) => IsContainArrays(s, c)
  }

  function IsContainArrays(src: Bytes, child: Bytes): bool
    decreases |src|, 1, 0
  {
    if |child| > |src| then false
    else if |child| == |src| then src == child
    else ScanFrom(src, child, 0)
  }

  /** The loop of `isContain` from index `i` on, for a child shorter than `src`. */
  function ScanFrom(src: Bytes, child: Bytes, i: nat): bool
    requires |child| < |src|
    decreases |src|, 0, |src| - i
  {
    if i >= |src| then false
    else if i > |child| - 1 then false
    else if src[i] == child[i] && IsContainArrays(Slice(src, i, |child|), child) then true
    else ScanFrom(src, child, i + 1)
  }

  lemma {:induction false} ScanFromSound(src: Bytes, child: Bytes, i: nat)
    requires |child| < |src|
    requires ScanFrom(src, child, i)
    ensures Seqs.ContainsSlice(src, child)
    decreases |src| - i
  {
    var sub := Slice(src, i, |child|);
    if src[i] == child[i] && IsContainArrays(sub, child) {
      assert sub == child;
      assert Seqs.OccursAt(src, child, i);
    } else {
      ScanFromSound(src, child, i + 1);
    }
  }

  /** `isContain` is sound: a `true` answer means `child` is a contiguous slice of `src`. */
  lemma IsContainSound(src: ByteArray, child: ByteArray)
    requires IsContain(src, child)
    ensures src.None? <==> child.None?
    ensures src.Some? ==> Seqs.ContainsSlice(src.value, child.value)
    ensures src.Some? ==> |child.value| <= |src.value|
  {
    if src.Some? && child.Some? {
      var s, c := src.value, child.value;
      if |c| == |s| {
        assert Seqs.OccursAt(s, c, 0);
      } else {
        ScanFromSound(s, c, 0);
      }
    }
  }

  /** A child occurring at index 1 of a three-byte array is not found. */
  lemma IsContainMissesOccurrence()
    ensures Seqs.ContainsSlice([9, 1, 2], [1, 2])
    ensures !IsContain(Some([9, 1, 2]), Some([1, 2]))
    ensures IsContainIntended(Some([9, 1, 2]), Some([1, 2]))
  {
    var s: Bytes, c: Bytes := [9, 1, 2], [1, 2];
    assert Seqs.OccursAt(s, c, 1);
    assert Seqs.OccursAt([9, 1, 2], [1, 2], 1);
  }

  /** Containment as the documentation describes it. */
  predicate IsContainIntended(src: ByteArray, child: ByteArray)
  {
    (src.None? && child.None?) ||
    (src.Some? && child.Some? && Seqs.ContainsSlice(src.value, child.value))
  }

  /** A corrected `isContain` that tries every start position against the whole child. */
  method IsContainCorrected(src: ByteArray, child: ByteArray) returns (r: bool)
    ensures r <==> IsContainIntended(src, child)
  {
    if src.None? || child.None? {
      return src.None? && child.None?;
    }
    var s, c := src.value, child.value;
    if |c| > |s| {
      return false;
    }
    var i := 0;
    while i <= |s| - |c|
      invariant 0 <= i <= |s| - |c| + 1
      invariant forall j :: 0 <= j < i ==> !Seqs.OccursAt(s, c, j)
    {
      if s[i..i + |c|] == c {
        assert Seqs.OccursAt(s, c, i);
        return true;
      }
      i := i + 1;
    }
    return false;
  }
}

/**
 * Byte-offset range arithmetic used to describe source edits, and UTF-8
 * slicing of a string. Offsets and lengths are unbounded integers here; the
 * original uses machine `Int`.
 */
module Utils {
  import opened Common

  /** A range of bytes `[offset, offset + length)` in a source buffer. */
  datatype ByteSourceRange = ByteSourceRange(offset: int, length: int)
  {
    function EndOffset(): int
    {
      offset + length
    }

    predicate IsEmpty()
    {
      length == 0
    }

    /** Byte position `b` lies inside the range. */
    predicate Contains(b: int)
    {
      offset <= b < EndOffset()
    }

    /** Byte position `b` lies inside the closed interval `[offset, EndOffset()]`. */
    predicate ClosedContains(b: int)
    {
      offset <= b <= EndOffset()
    }

    /** Closed-interval test: ranges that merely touch at an end point count. */
    predicate IntersectsOrTouches(other: ByteSourceRange)
    {
      EndOffset() >= other.offset && offset <= other.EndOffset()
    }

    /** Open-interval test: ranges that only touch do not count. */
    predicate Intersects(other: ByteSourceRange)
    {
      EndOffset() > other.offset && offset < other.EndOffset()
    }

    /** The overlapping region, or the canonical empty range at offset 0 when there is none. */
    function Intersected(other: ByteSourceRange): (r: ByteSourceRange)
      ensures r.length >= 0
      ensures Max(offset, other.offset) > Min(EndOffset(), other.EndOffset()) ==> r == ByteSourceRange(0, 0)
      ensures Max(offset, other.offset) <= Min(EndOffset(), other.EndOffset()) ==>
                && offset <= r.offset && other.offset <= r.offset
                && r.EndOffset() <= EndOffset() && r.EndOffset() <= other.EndOffset()
    {
      var start := Max(offset, other.offset);
      var end := Min(EndOffset(), other.EndOffset());
      if start > end then ByteSourceRange(0, 0) else ByteSourceRange(start, end - start)
    }
  }

  function Max(a: int, b: int): int { if a < b then b else a }

  function Min(a: int, b: int): int { if a < b then a else b }

  /** A range is sensible when its length is not negative. */
  predicate NonNegative(r: ByteSourceRange)
  {
    r.length >= 0
  }

  /** A non-negative range is empty exactly when it contains no byte. */
  lemma EmptyIffNoByte(r: ByteSourceRange)
    requires NonNegative(r)
    ensures r.IsEmpty() <==> forall b :: !r.Contains(b)
  {
    if !r.IsEmpty() {
      assert r.Contains(r.offset);
    }
  }

  /** Both overlap tests are symmetric, and strict overlap implies touching. */
  lemma OverlapTestsSymmetric(a: ByteSourceRange, b: ByteSourceRange)
    ensures a.IntersectsOrTouches(b) <==> b.IntersectsOrTouches(a)
    ensures a.Intersects(b) <==> b.Intersects(a)
    ensures a.Intersects(b) ==> a.IntersectsOrTouches(b)
  {
  }

  /** Adjacent ranges touch but do not overlap. */
  lemma AdjacentRangesTouch(a: ByteSourceRange, b: ByteSourceRange)
    requires NonNegative(a) && NonNegative(b)
    requires a.EndOffset() == b.offset
    ensures a.IntersectsOrTouches(b)
    ensures !a.Intersects(b)
  {
  }

  /** For non-empty ranges, strict overlap means that some byte lies in both. */
  lemma IntersectsIffSharedByte(a: ByteSourceRange, b: ByteSourceRange)
    requires a.length > 0 && b.length > 0
    ensures a.Intersects(b) <==> exists x :: a.Contains(x) && b.Contains(x)
  {
    if a.Intersects(b) {
      var x := Max(a.offset, b.offset);
      assert a.Contains(x) && b.Contains(x);
    }
  }

  /** For non-negative ranges, touching means that the closed intervals share a point. */
  lemma TouchesIffSharedPoint(a: ByteSourceRange, b: ByteSourceRange)
    requires NonNegative(a) && NonNegative(b)
    ensures a.IntersectsOrTouches(b) <==> exists x :: a.ClosedContains(x) && b.ClosedContains(x)
  {
    if a.IntersectsOrTouches(b) {
      var x := Max(a.offset, b.offset);
      assert a.ClosedContains(x) && b.ClosedContains(x);
    }
  }

  /** The bytes of the intersection are exactly the bytes in both ranges, whatever the inputs. */
  lemma IntersectedContents(a: ByteSourceRange, b: ByteSourceRange, x: int)
    ensures a.Intersected(b).Contains(x) <==> a.Contains(x) && b.Contains(x)
  {
    var start := Max(a.offset, b.offset);
    var end := Min(a.EndOffset(), b.EndOffset());
    if start > end {
      assert a.Intersected(b) == ByteSourceRange(0, 0);
    } else {
      assert a.Intersected(b) == ByteSourceRange(start, end - start);
    }
  }

  lemma IntersectedCommutes(a: ByteSourceRange, b: ByteSourceRange)
    ensures a.Intersected(b) == b.Intersected(a)
  {
  }

  /** When non-negative ranges touch, the intersection runs from the later start to the earlier end. */
  lemma IntersectedOfTouching(a: ByteSourceRange, b: ByteSourceRange)
    requires NonNegative(a) && NonNegative(b)
    requires a.IntersectsOrTouches(b)
    ensures a.Intersected(b).offset == Max(a.offset, b.offset)
    ensures a.Intersected(b).EndOffset() == Min(a.EndOffset(), b.EndOffset())
    ensures a.Intersected(b).IsEmpty() <==> !a.Intersects(b) || a.IsEmpty() || b.IsEmpty()
  {
    var start := Max(a.offset, b.offset);
    var end := Min(a.EndOffset(), b.EndOffset());
    assert start <= end;
    assert a.Intersected(b) == ByteSourceRange(start, end - start);
  }

  /** A text edit: replace the bytes of `range` by `replacementLength` new bytes. */
  datatype SourceEdit = SourceEdit(range: ByteSourceRange, replacementLength: int)
  {
    predicate IntersectsOrTouchesRange(other: ByteSourceRange)
    {
      range.IntersectsOrTouches(other)
    }

    predicate IntersectsRange(other: ByteSourceRange)
    {
      range.Intersects(other)
    }
  }

  /** An edit of a non-empty range overlaps a non-empty range exactly when they share a byte. */
  lemma EditOverlapsIffSharedByte(e: SourceEdit, other: ByteSourceRange)
    requires e.range.length > 0 && other.length > 0
    ensures e.IntersectsRange(other) <==> exists x :: e.range.Contains(x) && other.Contains(x)
    ensures e.IntersectsRange(other) ==> e.IntersectsOrTouchesRange(other)
  {
    IntersectsIffSharedByte(e.range, other);
  }

  /** `String.utf8Slice`: `length` bytes starting at `offset`; the empty slice needs no valid offset. */
  function Utf8Slice(s: Bytes, offset: int, length: int): (r: Bytes)
    requires length == 0 || (0 <= offset && 0 <= length && offset + length <= |s|)
    ensures |r| == length
    ensures forall i :: 0 <= i < length ==> r[i] == s[offset + i]
  {
    if length == 0 then [] else s[offset..offset + length]
  }

  /** Slicing two adjacent ranges and concatenating gives the slice of their union. */
  lemma {:induction false} Utf8SliceConcat(s: Bytes, offset: int, a: nat, b: nat)
    requires 0 <= offset && offset + a + b <= |s|
    ensures Utf8Slice(s, offset, a) + Utf8Slice(s, offset + a, b) == Utf8Slice(s, offset, a + b)
  {
    var left := Utf8Slice(s, offset, a);
    var right := Utf8Slice(s, offset + a, b);
    var whole := Utf8Slice(s, offset, a + b);
    assert |left + right| == |whole|;
    forall i | 0 <= i < |whole|
      ensures (left + right)[i] == whole[i]
    {
      if i < a {
        assert (left + right)[i] == left[i];
      } else {
        assert (left + right)[i] == right[i - a];
      }
    }
  }

  /** Slicing the intersection of a range with the whole buffer never leaves the buffer. */
  lemma SliceOfIntersectionIsDefined(s: Bytes, r: ByteSourceRange)
    ensures var i := r.Intersected(ByteSourceRange(0, |s|));
            i.length == 0 || (0 <= i.offset && 0 <= i.length && i.offset + i.length <= |s|)
  {
  }
}

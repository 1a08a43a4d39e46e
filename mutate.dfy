/**
 * Writing into a mutable view (src/mu_string.c: mu_string_copy,
 * mu_string_append).
 *
 * The writable storage is an array `buf`; a mutable view's pointer is an
 * offset into it. Sources are read-only views into the byte memory `mem`.
 */
module MuStringMutate {
  import opened MuStringTypes
  import opened CLib

  /** A mutable view lies inside writable storage of `cap` bytes; it never names the "" literal. */
  predicate MutWellFormed(cap: nat, m: MutView) {
    match m.buf
    case Null => true
    case Literal => false
    case At(o) => o + m.len <= cap
  }

  /** The number of bytes a copy or an append moves: all of the source, or as much as fits. */
  function CopyCount(srcLen: nat, capacity: nat): (n: nat)
    ensures n <= srcLen && n <= capacity
    ensures n == srcLen || n == capacity
  {
    if srcLen < capacity then srcLen else capacity
  }

  /**
   * The storage after copying source bytes `x` into the non-NULL `dst`,
   * and the view of the copied bytes that copy returns.
   */
  function CopyBytes(b: seq<bv8>, dst: MutView, x: seq<bv8>): (seq<bv8>, View)
    requires dst.buf.At? && MutWellFormed(|b|, dst)
  {
    var n := CopyCount(|x|, dst.len);
    (Overwrite(b, dst.buf.off, x[..n]), View(dst.buf, n))
  }

  /**
   * The storage after appending source bytes `x` to the segment `seg`, and
   * the remaining space append returns. A NULL segment is left as it is.
   */
  function AppendBytes(b: seq<bv8>, seg: MutView, x: seq<bv8>): (seq<bv8>, MutView)
    requires MutWellFormed(|b|, seg)
  {
    if seg.buf.Null? then (b, seg)
    else
      var n := CopyCount(|x|, seg.len);
      (Overwrite(b, seg.buf.off, x[..n]), MutView(Advance(seg.buf, n), seg.len - n))
  }

  /**
   * mu_string_copy: a NULL destination or an invalid source gives INVALID
   * and writes nothing; otherwise the first min(src.len, dst.len) source
   * bytes are written at the start of `dst`, and the result views them.
   */
  method Copy(mem: seq<bv8>, buf: array<bv8>, dst: MutView, src: View) returns (r: View)
    requires MutWellFormed(buf.Length, dst) && WellFormed(mem, src)
    modifies buf
    ensures dst.buf.Null? || !IsValid(src) ==> r == INVALID && buf[..] == old(buf[..])
    ensures dst.buf.At? && IsValid(src) ==> (buf[..], r) == CopyBytes(old(buf[..]), dst, Bytes(mem, src))
  {
    if dst.buf == Null || !IsValid(src) {
      return INVALID;
    }
    var n := CopyCount(src.len, dst.len);
    if n > 0 {
      assert Bytes(mem, src)[..n] == mem[src.buf.off..src.buf.off + n];
      MemCpy(buf, dst.buf.off, mem[src.buf.off..src.buf.off + n]);
    } else {
      assert Overwrite(old(buf[..]), dst.buf.off, Bytes(mem, src)[..n]) == buf[..];
    }
    return View(dst.buf, n);
  }

  /**
   * mu_string_append: a NULL segment, an invalid source or an empty source
   * leaves the segment and the storage as they are; otherwise as much of
   * the source as fits is written at the segment's start, and the space
   * after it is returned.
   */
  method Append(mem: seq<bv8>, buf: array<bv8>, seg: MutView, src: View) returns (rest: MutView)
    requires MutWellFormed(buf.Length, seg) && WellFormed(mem, src)
    modifies buf
    ensures seg.buf.Null? || !IsValid(src) ==> rest == seg && buf[..] == old(buf[..])
    ensures IsValid(src) && src.len == 0 ==> rest == seg && buf[..] == old(buf[..])
    ensures IsValid(src) ==> (buf[..], rest) == AppendBytes(old(buf[..]), seg, Bytes(mem, src))
  {
    if seg.buf == Null || !IsValid(src) {
      return seg;
    }
    if src.len == 0 {
      assert Overwrite(old(buf[..]), seg.buf.off, []) == buf[..];
      return seg;
    }
    var n := CopyCount(src.len, seg.len);
    if n > 0 {
      assert Bytes(mem, src)[..n] == mem[src.buf.off..src.buf.off + n];
      MemCpy(buf, seg.buf.off, mem[src.buf.off..src.buf.off + n]);
    } else {
      assert Overwrite(old(buf[..]), seg.buf.off, Bytes(mem, src)[..n]) == buf[..];
    }
    return MutView(Advance(seg.buf, n), seg.len - n);
  }

  /**
   * What copy promises: the returned view lies in the storage and reads the
   * copied prefix of the source, which is cut short only when the
   * destination is full; nothing outside the copied range changes.
   */
  lemma CopyMeaning(b: seq<bv8>, dst: MutView, x: seq<bv8>)
    requires dst.buf.At? && MutWellFormed(|b|, dst)
    ensures var (b', r) := CopyBytes(b, dst, x);
            && |b'| == |b| && WellFormed(b', r) && IsValid(r) && r.buf == dst.buf
            && r.len <= dst.len && r.len <= |x|
            && (r.len < |x| ==> r.len == dst.len)
            && Bytes(b', r) == x[..r.len]
            && (forall i :: 0 <= i < |b| && !(dst.buf.off <= i < dst.buf.off + r.len) ==> b'[i] == b[i])
  {
  }

  /**
   * What append promises: the bytes written start at the segment, are a
   * prefix of the source cut short only when the segment fills up, and the
   * remaining space starts right after them and is still inside the storage.
   */
  lemma AppendMeaning(b: seq<bv8>, seg: MutView, x: seq<bv8>)
    requires seg.buf.At? && MutWellFormed(|b|, seg)
    ensures var (b', rest) := AppendBytes(b, seg, x);
            var written := seg.len - rest.len;
            && |b'| == |b| && MutWellFormed(|b'|, rest)
            && rest.len <= seg.len && written <= |x|
            && rest.buf == Advance(seg.buf, written)
            && (written < |x| ==> rest.len == 0)
            && b'[seg.buf.off..seg.buf.off + written] == x[..written]
            && (forall i :: 0 <= i < |b| && !(seg.buf.off <= i < seg.buf.off + written) ==> b'[i] == b[i])
  {
  }

  /**
   * The cursor pattern: appending `x` and then `y` to the space that is
   * left has the same effect as appending `x + y` at once, including when
   * the segment fills up part-way.
   */
  lemma {:induction false} AppendConcat(b: seq<bv8>, seg: MutView, x: seq<bv8>, y: seq<bv8>)
    requires MutWellFormed(|b|, seg)
    ensures var (b1, rest1) := AppendBytes(b, seg, x);
            && MutWellFormed(|b1|, rest1)
            && AppendBytes(b1, rest1, y) == AppendBytes(b, seg, x + y)
  {
    if seg.buf.At? {
      var o, cap := seg.buf.off, seg.len;
      var n1 := CopyCount(|x|, cap);
      var b1 := Overwrite(b, o, x[..n1]);
      if |x| >= cap {
        assert (x + y)[..cap] == x[..cap];
        assert Overwrite(b1, o + cap, []) == b1;
      } else {
        var n2 := CopyCount(|y|, cap - |x|);
        assert x[..n1] == x;
        OverwriteAdjacent(b, o, x, y[..n2]);
        assert (x + y)[..|x| + n2] == x + y[..n2];
      }
    }
  }

  /** copy writes what an append to the same space writes, and its length plus append's remaining space is the capacity. */
  lemma CopyAgreesWithAppend(b: seq<bv8>, dst: MutView, x: seq<bv8>)
    requires dst.buf.At? && MutWellFormed(|b|, dst)
    ensures CopyBytes(b, dst, x).0 == AppendBytes(b, dst, x).0
    ensures CopyBytes(b, dst, x).1.len + AppendBytes(b, dst, x).1.len == dst.len
    ensures AppendBytes(b, dst, x).1.buf == Advance(dst.buf, CopyBytes(b, dst, x).1.len)
  {
  }

  /**
   * With nothing to copy, copy returns the zero-length view at the
   * destination, which is not MU_STRING_EMPTY.
   */
  lemma CopyNothing(b: seq<bv8>, dst: MutView, x: seq<bv8>)
    requires dst.buf.At? && MutWellFormed(|b|, dst) && (|x| == 0 || dst.len == 0)
    ensures CopyBytes(b, dst, x).1 == View(dst.buf, 0)
    ensures CopyBytes(b, dst, x).1 != EMPTY
    ensures CopyBytes(b, dst, x).0 == b
  {
    assert Overwrite(b, dst.buf.off, []) == b;
  }

  /**
   * When the source fills the segment, append returns the zero-length view
   * at the segment's end, which is not MU_STRING_MUT_EMPTY.
   */
  lemma AppendConsumesSegment(b: seq<bv8>, seg: MutView, x: seq<bv8>)
    requires seg.buf.At? && MutWellFormed(|b|, seg) && |x| >= seg.len
    ensures AppendBytes(b, seg, x).1 == MutView(At(seg.buf.off + seg.len), 0)
    ensures AppendBytes(b, seg, x).1 != MUT_EMPTY
  {
  }
}

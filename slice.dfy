/**
 * Python-style slicing with clamped indices (src/mu_string.c:
 * mu_string_slice).
 */
module MuStringSlice {
  import opened MuStringTypes

  /**
   * Where index `i` lands in a view of length `len`: a negative index
   * counts from the end, and the position is then kept inside [0, len].
   */
  ghost function Position(i: int, len: nat): (p: nat)
    ensures p <= len
  {
    if i < 0 && len + i < 0 then 0
    else if i < 0 then len + i
    else if i > len then len
    else i
  }

  /**
   * mu_string_slice: INVALID stays INVALID and an empty view gives EMPTY;
   * otherwise both indices are placed with Position, and the result is
   * the sub-range between them, or EMPTY when it holds nothing.
   */
  function Slice(s: View, start: int32, end: int32): (r: View)
    ensures !IsValid(s) ==> r == INVALID
    ensures IsValid(s) && s.len == 0 ==> r == EMPTY
    ensures IsValid(s) && s.len > 0 ==>
              var a, b := Position(start, s.len), Position(end, s.len);
              r == if a < b then SubView(s, a, b) else EMPTY
  {
    if !IsValid(s) then INVALID
    else if s.len == 0 then EMPTY
    else
      // the index is widened to long long, shifted when negative, then clamped
      var startLL := if start < 0 then (if s.len + start < 0 then 0 else s.len + start) else start;
      var clampedStart := if startLL > s.len then s.len else startLL;
      var endLL := if end < 0 then (if s.len + end < 0 then 0 else s.len + end) else end;
      var clampedEnd := if endLL > s.len then s.len else endLL;
      if clampedStart >= clampedEnd then EMPTY
      else View(Advance(s.buf, clampedStart), clampedEnd - clampedStart)
  }

  /** A slice of a valid view is a well-formed, valid sub-range of it, or EMPTY. */
  lemma SliceIsSubRange(mem: seq<bv8>, s: View, start: int32, end: int32)
    requires WellFormed(mem, s) && IsValid(s)
    ensures var r := Slice(s, start, end);
            && WellFormed(mem, r) && IsValid(r) && r.len <= s.len
            && (r.len > 0 ==>
                  var a := Position(start, s.len);
                  && a + r.len <= s.len
                  && r.buf == Advance(s.buf, a)
                  && Bytes(mem, r) == Bytes(mem, s)[a..a + r.len])
  {
    var a, b := Position(start, s.len), Position(end, s.len);
    if s.len > 0 && a < b {
      SubViewBytes(mem, s, a, b);
    }
  }

  /** slice(s, 0, len) and slice(s, 0, END) give back `s`; slice(s, 0, 0) is EMPTY. */
  lemma SliceWhole(s: View)
    requires IsValid(s) && s.len <= INT_MAX
    ensures s.len > 0 ==> Slice(s, 0, s.len) == s && Slice(s, 0, END) == s
    ensures s.len == 0 ==> Slice(s, 0, s.len) == EMPTY && Slice(s, 0, END) == EMPTY
    ensures Slice(s, 0, 0) == EMPTY
  {
    if s.len > 0 {
      assert Advance(s.buf, 0) == s.buf;
    }
  }

  /** END as the end index clamps to the length: slice(s, i, END) == slice(s, i, len). */
  lemma SliceToEnd(s: View, start: int32)
    requires s.len <= INT_MAX
    ensures Slice(s, start, END) == Slice(s, start, s.len)
  {
  }

  /** slice(s, -k, END) is the last `k` bytes of `s`, and slice(s, 0, -k) all but them. */
  lemma SliceFromEnd(mem: seq<bv8>, s: View, k: int32)
    requires WellFormed(mem, s) && IsValid(s) && 0 < k <= s.len <= INT_MAX
    ensures Slice(s, -k, END) == SubView(s, s.len - k, s.len)
    ensures Bytes(mem, Slice(s, -k, END)) == Bytes(mem, s)[s.len - k..]
    ensures k < s.len ==> Slice(s, 0, -k) == SubView(s, 0, s.len - k)
  {
    SubViewBytes(mem, s, s.len - k, s.len);
  }

  /** Indices at or beyond the ends clamp: far-negative acts as 0, far-positive as the length. */
  lemma SliceClamps(s: View, start: int32, end: int32)
    requires IsValid(s) && s.len <= INT_MAX
    ensures start <= -(s.len as int) ==> Slice(s, start, end) == Slice(s, 0, end)
    ensures end >= s.len ==> Slice(s, start, end) == Slice(s, start, s.len)
  {
  }
}

/**
 * View construction and accessors (src/mu_string.c: mu_string_from_cstr …
 * mu_string_mut_len).
 */
module MuStringConstruct {
  import opened MuStringTypes
  import CLib

  /**
   * mu_string_from_cstr: a NULL string gives EMPTY; otherwise the view
   * starts at `cstr` and stops at the first NUL byte.
   */
  function FromCStr(mem: seq<bv8>, cstr: Ptr): (r: View)
    requires |mem| <= SIZE_MAX
    requires cstr.At? ==> cstr.off < |mem| && 0 in mem[cstr.off..]
    ensures cstr == Null ==> r == EMPTY
    ensures cstr != Null ==> r.buf == cstr
    ensures WellFormed(mem, r) && IsValid(r) && 0 !in Bytes(mem, r)
    ensures cstr.At? ==> mem[cstr.off + r.len] == 0
  {
    match cstr
    case Null => EMPTY
    case Literal => View(Literal, 0)
    case At(o) => View(cstr, CLib.CStrLen(mem, o))
  }

  /**
   * mu_string_from_buf: NULL with a length is INVALID, NULL without one is
   * EMPTY, and any other pair is kept as given.
   */
  function FromBuf(buf: Ptr, len: size_t): (r: View)
    ensures buf == Null && len > 0 ==> r == INVALID
    ensures buf == Null && len == 0 ==> r == EMPTY
    ensures buf != Null ==> r == View(buf, len)
    ensures IsValid(r) <==> IsValid(View(buf, len))
    ensures r.buf != Null || r == INVALID
  {
    if buf == Null && len > 0 then INVALID
    else if buf == Null && len == 0 then EMPTY
    else View(buf, len)
  }

  /** mu_string_mut_from_buf: a pass-through; a NULL buffer keeps its capacity. */
  function MutFromBuf(buf: Ptr, len: size_t): (m: MutView)
    ensures MutBuf(m) == buf && MutLen(m) == len
  {
    MutView(buf, len)
  }

  /** mu_string_len: the length of a valid view, SIZE_MAX for an invalid one. */
  function Len(s: View): (n: size_t)
    ensures !IsValid(s) ==> n == SIZE_MAX
    ensures IsValid(s) ==> n == s.len
  {
    if !IsValid(s) then SIZE_MAX else s.len
  }

  /** mu_string_is_empty: a valid view of length zero; an invalid view is not empty. */
  function IsEmpty(s: View): (b: bool)
    ensures b <==> IsValid(s) && s.len == 0
    ensures b ==> Len(s) == 0
  {
    if !IsValid(s) then false else s.len == 0
  }

  /** mu_string_buf: NULL for an invalid or empty view, the view's pointer otherwise. */
  function Buf(s: View): (p: Ptr)
    ensures p == Null <==> !IsValid(s) || s.len == 0
    ensures p != Null ==> p == s.buf
  {
    if !IsValid(s) || s.len == 0 then Null else s.buf
  }

  /** mu_string_mut_buf. */
  function MutBuf(m: MutView): Ptr {
    m.buf
  }

  /** mu_string_mut_len. */
  function MutLen(m: MutView): size_t {
    m.len
  }

  /** What the accessors report for a view built by from_buf, and for the sentinels. */
  lemma FromBufAccessors(buf: Ptr, len: size_t)
    ensures Len(FromBuf(buf, len)) == if buf == Null && len > 0 then SIZE_MAX else len
    ensures IsEmpty(FromBuf(buf, len)) <==> len == 0
    ensures Buf(FromBuf(buf, len)) == if len == 0 then Null else buf
    ensures Len(INVALID) == SIZE_MAX && !IsEmpty(INVALID)
    ensures IsEmpty(EMPTY) && IsEmpty(NOT_FOUND)
  {
  }
}

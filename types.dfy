/**
 * The value model of mu_string (inc/mu_string.h): read-only and mutable
 * views, the three sentinels, the validity predicate and the character
 * predicate type.
 *
 * Addresses are abstract. A view's pointer is NULL, the address of the ""
 * literal behind MU_STRING_EMPTY, or an offset into one byte memory `mem`
 * that every read operation receives as a parameter.
 */
module MuStringTypes {

  /** Largest value of size_t on a 64-bit target. */
  const SIZE_MAX: nat := 0xFFFF_FFFF_FFFF_FFFF

  /** Smallest and largest values of C's 32-bit int. */
  const INT_MIN: int := -0x8000_0000
  const INT_MAX: int := 0x7FFF_FFFF

  type size_t = n: nat | n <= SIZE_MAX
  type int32 = i: int | INT_MIN <= i <= INT_MAX

  datatype Option<+T> = None | Some(value: T)

  /** A pointer: NULL, the "" literal, or an offset into the byte memory. */
  datatype Ptr = Null | Literal | At(off: nat)

  /** mu_string_t: a read-only view of `len` bytes starting at `buf`. */
  datatype View = View(buf: Ptr, len: size_t)

  /** mu_string_mut_t: writable space of capacity `len` starting at `buf`. */
  datatype MutView = MutView(buf: Ptr, len: size_t)

  /** mu_string_pred_t together with its argument; None is a NULL predicate. */
  type Pred = Option<bv8 -> bool>

  const EMPTY: View := View(Literal, 0)
  const MUT_EMPTY: MutView := MutView(Null, 0)
  const NOT_FOUND: View := View(Null, 0)
  const INVALID: View := View(Null, SIZE_MAX)

  /** MU_STRING_END: the slice end that stands for "to the end". */
  const END: int32 := INT_MAX

  /** mu_string_is_valid: a non-NULL pointer, or a length of zero. */
  predicate IsValid(s: View) {
    s.buf != Null || s.len == 0
  }

  /**
   * The caller's side of the contract: a view made from a real buffer lies
   * inside the memory, and the "" literal holds no bytes.
   */
  predicate WellFormed(mem: seq<bv8>, s: View) {
    match s.buf
    case Null => true
    case Literal => s.len == 0
    case At(o) => o + s.len <= |mem|
  }

  /** Pointer arithmetic `p + k`; only addresses inside the memory move. */
  function Advance(p: Ptr, k: nat): Ptr {
    if p.At? then At(p.off + k) else p
  }

  /** The bytes a valid view refers to. */
  function Bytes(mem: seq<bv8>, s: View): (b: seq<bv8>)
    requires WellFormed(mem, s) && IsValid(s)
    ensures |b| == s.len
  {
    if s.buf.At? then mem[s.buf.off .. s.buf.off + s.len] else []
  }

  /** The view of positions [i, j) of `s`: `{ s.buf + i, j - i }`. */
  function SubView(s: View, i: nat, j: nat): View
    requires i <= j <= s.len
  {
    View(Advance(s.buf, i), j - i)
  }

  /** A sub-range of a well-formed valid view is well-formed, valid and reads the matching bytes. */
  lemma SubViewBytes(mem: seq<bv8>, s: View, i: nat, j: nat)
    requires WellFormed(mem, s) && IsValid(s) && i <= j <= s.len
    ensures WellFormed(mem, SubView(s, i, j)) && IsValid(SubView(s, i, j))
    ensures Bytes(mem, SubView(s, i, j)) == Bytes(mem, s)[i..j]
  {
    if s.buf.At? {
      var o := s.buf.off;
      var direct, nested := mem[o + i..o + j], mem[o..o + s.len][i..j];
      forall t | 0 <= t < j - i ensures direct[t] == nested[t] {
        assert direct[t] == mem[o + i + t];
      }
      assert direct == nested;
    }
  }

  /** The three sentinels, and which of them are valid. */
  lemma SentinelShapes()
    ensures EMPTY.buf != Null && EMPTY.len == 0 && IsValid(EMPTY)
    ensures NOT_FOUND.buf == Null && NOT_FOUND.len == 0 && IsValid(NOT_FOUND)
    ensures INVALID.buf == Null && INVALID.len == SIZE_MAX && !IsValid(INVALID)
    ensures EMPTY != NOT_FOUND && NOT_FOUND != INVALID && EMPTY != INVALID
    ensures MUT_EMPTY.buf == Null && MUT_EMPTY.len == 0
  {
  }

  /** Validity is exactly "pointer non-NULL or length zero": NULL with a length is never valid. */
  lemma ValidityCharacterised(s: View)
    ensures IsValid(s) <==> !(s.buf == Null && s.len > 0)
    ensures !IsValid(s) ==> s.buf == Null
  {
  }
}

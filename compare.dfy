/**
 * Comparison of read-only views (src/mu_string.c: mu_string_eq,
 * mu_string_cmp, mu_string_starts_with, mu_string_ends_with).
 */
module MuStringCompare {
  import opened MuStringTypes
  import opened CLib

  /**
   * The lexicographic order on byte strings, stated without reference to
   * memcmp: `x` is below `y` when at their first difference `x` has the
   * smaller byte, or when `x` is a proper prefix of `y`.
   */
  ghost predicate LexLess(x: seq<bv8>, y: seq<bv8>) {
    (exists k :: 0 <= k < |x| && LessAt(x, y, k)) || (|x| < |y| && x == y[..|x|])
  }

  /** LexLess is a strict order: it never holds both ways, nor between equal strings. */
  lemma LexLessAsymmetric(x: seq<bv8>, y: seq<bv8>)
    requires LexLess(x, y)
    ensures !LexLess(y, x) && x != y
  {
    if k :| 0 <= k < |x| && LessAt(x, y, k) {
      forall k' | 0 <= k' < |y| ensures !LessAt(y, x, k') {
      }
    } else {
      forall k' | 0 <= k' < |y| ensures !LessAt(y, x, k') {
      }
    }
  }

  /**
   * mu_string_eq: two invalid views are equal, one invalid view is equal
   * to nothing valid, and two valid views are equal when they hold the
   * same bytes.
   */
  function Eq(mem: seq<bv8>, s1: View, s2: View): (b: bool)
    requires WellFormed(mem, s1) && WellFormed(mem, s2)
    ensures !IsValid(s1) || !IsValid(s2) ==> (b <==> !IsValid(s1) && !IsValid(s2))
    ensures IsValid(s1) && IsValid(s2) ==> (b <==> Bytes(mem, s1) == Bytes(mem, s2))
  {
    if !IsValid(s1) || !IsValid(s2) then !IsValid(s1) == !IsValid(s2)
    else if s1.len != s2.len then false
    else if s1.len == 0 then true
    else
      assert Bytes(mem, s1)[..s1.len] == Bytes(mem, s1) && Bytes(mem, s2)[..s1.len] == Bytes(mem, s2);
      MemCmp(Bytes(mem, s1), Bytes(mem, s2), s1.len) == 0
  }

  /** Eq is an equivalence on well-formed views; EMPTY and NOT_FOUND are equal. */
  lemma EqEquivalence(mem: seq<bv8>, a: View, b: View, c: View)
    requires WellFormed(mem, a) && WellFormed(mem, b) && WellFormed(mem, c)
    ensures Eq(mem, a, a)
    ensures Eq(mem, a, b) == Eq(mem, b, a)
    ensures Eq(mem, a, b) && Eq(mem, b, c) ==> Eq(mem, a, c)
    ensures Eq(mem, EMPTY, NOT_FOUND) && Eq(mem, INVALID, INVALID) && !Eq(mem, INVALID, NOT_FOUND)
    ensures Eq(mem, INVALID, a) <==> !IsValid(a)
  {
  }

  /**
   * mu_string_cmp, up to sign: INVALID is below every valid view, and two
   * valid views are ordered by their bytes.
   */
  function Cmp(mem: seq<bv8>, s1: View, s2: View): (r: int)
    requires WellFormed(mem, s1) && WellFormed(mem, s2)
    ensures -1 <= r <= 1
    ensures !IsValid(s1) && !IsValid(s2) ==> r == 0
    ensures !IsValid(s1) && IsValid(s2) ==> r < 0
    ensures IsValid(s1) && !IsValid(s2) ==> r > 0
  {
    if !IsValid(s1) && !IsValid(s2) then 0
    else if !IsValid(s1) then -1
    else if !IsValid(s2) then 1
    else if s1.len == 0 && s2.len == 0 then 0
    else if s1.len == 0 then -1
    else if s2.len == 0 then 1
    else
      var minLen := if s1.len < s2.len then s1.len else s2.len;
      var c := MemCmp(Bytes(mem, s1), Bytes(mem, s2), minLen);
      if c != 0 then c
      else if s1.len < s2.len then -1
      else if s1.len > s2.len then 1
      else 0
  }

  /** Between valid views, the sign of Cmp is the lexicographic order of their bytes. */
  lemma CmpLexicographic(mem: seq<bv8>, s1: View, s2: View)
    requires WellFormed(mem, s1) && WellFormed(mem, s2) && IsValid(s1) && IsValid(s2)
    ensures Cmp(mem, s1, s2) < 0 <==> LexLess(Bytes(mem, s1), Bytes(mem, s2))
    ensures Cmp(mem, s1, s2) == 0 <==> Bytes(mem, s1) == Bytes(mem, s2)
    ensures Cmp(mem, s1, s2) > 0 <==> LexLess(Bytes(mem, s2), Bytes(mem, s1))
  {
    var x, y := Bytes(mem, s1), Bytes(mem, s2);
    var r := Cmp(mem, s1, s2);
    if |x| == 0 && |y| == 0 {
      assert x == y;
      if LexLess(x, x) { LexLessAsymmetric(x, x); }
    } else if |x| == 0 {
      assert x == y[..0];
      LexLessAsymmetric(x, y);
    } else if |y| == 0 {
      assert y == x[..0];
      LexLessAsymmetric(y, x);
    } else {
      var m := if |x| < |y| then |x| else |y|;
      var c := MemCmp(x, y, m);
      MemCmpNegative(x, y, m);
      MemCmpSwap(x, y, m);
      MemCmpNegative(y, x, m);
      if c < 0 {
        var k :| 0 <= k < m && LessAt(x, y, k);
        LexLessAsymmetric(x, y);
      } else if c > 0 {
        var k :| 0 <= k < m && LessAt(y, x, k);
        LexLessAsymmetric(y, x);
      } else if |x| < |y| {
        assert x == x[..m] == y[..m];
        LexLessAsymmetric(x, y);
      } else if |x| > |y| {
        assert y == y[..m] == x[..m];
        LexLessAsymmetric(y, x);
      } else {
        assert x == x[..m] == y[..m] == y;
        if LexLess(x, x) { LexLessAsymmetric(x, x); }
      }
    }
  }

  /** Cmp is antisymmetric in sign, and it is zero exactly when Eq holds. */
  lemma CmpAgreesWithEq(mem: seq<bv8>, s1: View, s2: View)
    requires WellFormed(mem, s1) && WellFormed(mem, s2)
    ensures Cmp(mem, s1, s2) < 0 <==> Cmp(mem, s2, s1) > 0
    ensures Cmp(mem, s1, s2) == 0 <==> Eq(mem, s1, s2)
  {
    if IsValid(s1) && IsValid(s2) {
      CmpLexicographic(mem, s1, s2);
      CmpLexicographic(mem, s2, s1);
    }
  }

  /**
   * mu_string_starts_with: both views valid, the prefix no longer than `s`,
   * and the first bytes of `s` are the prefix's bytes.
   */
  function StartsWith(mem: seq<bv8>, s: View, prefix: View): (b: bool)
    requires WellFormed(mem, s) && WellFormed(mem, prefix)
    ensures b <==> IsValid(s) && IsValid(prefix) && prefix.len <= s.len
                   && Bytes(mem, s)[..prefix.len] == Bytes(mem, prefix)
  {
    if !IsValid(s) || !IsValid(prefix) then false
    else if prefix.len == 0 then true
    else if prefix.len > s.len then false
    else if s.len == 0 then false
    else
      assert Bytes(mem, prefix)[..prefix.len] == Bytes(mem, prefix);
      MemCmp(Bytes(mem, s), Bytes(mem, prefix), prefix.len) == 0
  }

  /**
   * mu_string_ends_with: both views valid, the suffix no longer than `s`,
   * and the last bytes of `s` are the suffix's bytes.
   */
  function EndsWith(mem: seq<bv8>, s: View, suffix: View): (b: bool)
    requires WellFormed(mem, s) && WellFormed(mem, suffix)
    ensures b <==> IsValid(s) && IsValid(suffix) && suffix.len <= s.len
                   && Bytes(mem, s)[s.len - suffix.len..] == Bytes(mem, suffix)
  {
    if !IsValid(s) || !IsValid(suffix) then false
    else if suffix.len == 0 then true
    else if suffix.len > s.len then false
    else if s.len == 0 then false
    else
      var tail := SubView(s, s.len - suffix.len, s.len);
      TailBytes(mem, s, suffix.len);
      MemCmp(Bytes(mem, tail), Bytes(mem, suffix), suffix.len) == 0
  }

  /** The view `{ s.buf + s.len - n, n }` reads the last `n` bytes of `s`. */
  lemma TailBytes(mem: seq<bv8>, s: View, n: nat)
    requires WellFormed(mem, s) && IsValid(s) && n <= s.len
    ensures WellFormed(mem, SubView(s, s.len - n, s.len)) && IsValid(SubView(s, s.len - n, s.len))
    ensures Bytes(mem, SubView(s, s.len - n, s.len)) == Bytes(mem, s)[s.len - n..]
    ensures Bytes(mem, SubView(s, s.len - n, s.len))[..n] == Bytes(mem, s)[s.len - n..]
  {
    SubViewBytes(mem, s, s.len - n, s.len);
  }

  /** A view starts and ends with itself and with EMPTY; nothing starts or ends with INVALID. */
  lemma AffixBasics(mem: seq<bv8>, s: View)
    requires WellFormed(mem, s)
    ensures IsValid(s) ==> StartsWith(mem, s, s) && EndsWith(mem, s, s)
    ensures IsValid(s) ==> StartsWith(mem, s, EMPTY) && EndsWith(mem, s, EMPTY)
    ensures !StartsWith(mem, s, INVALID) && !EndsWith(mem, s, INVALID)
    ensures !StartsWith(mem, INVALID, s) && !EndsWith(mem, INVALID, s)
  {
  }
}

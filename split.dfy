/**
 * Splitting a view in two (src/mu_string.c: mu_string_split_at_char,
 * mu_string_split_by_pred, mu_string_split_by_not_pred and the static
 * mu_string_split_handle_result). Each returns the part before the split
 * point and, when the caller passes a place for it, stores the part from
 * the split point on.
 */
module MuStringSplit {
  import opened MuStringTypes
  import opened MuStringSearch
  import opened MuStringCompare

  /** The caller's `mu_string_t` that the `after` out-parameter points to. */
  class ViewCell {
    var v: View
  }

  /**
   * The two parts of `s` split at index `k`: `{ s.buf, k }` and
   * `{ s.buf + k, len - k }`; when `k` is not inside `s`, all of `s` and
   * the empty view at its end.
   */
  function SplitPair(s: View, k: nat): (View, View) {
    if k < s.len then (View(s.buf, k), View(Advance(s.buf, k), s.len - k))
    else (s, View(Advance(s.buf, s.len), 0))
  }

  /** The (before, after) pair split_at_char produces. */
  function SplitAtCharResult(mem: seq<bv8>, s: View, c: bv8): (View, View)
    requires WellFormed(mem, s)
  {
    if !IsValid(s) then (INVALID, INVALID)
    else
      var k := FirstWhere(Bytes(mem, s), Matches(c));
      if k < s.len then SplitPair(s, k) else (s, NOT_FOUND)
  }

  /** The (before, after) pair split_by_pred produces. */
  function SplitByPredResult(mem: seq<bv8>, s: View, pred: Pred): (View, View)
    requires WellFormed(mem, s)
  {
    if !IsValid(s) || pred.None? then (INVALID, INVALID)
    else SplitPair(s, FirstWhere(Bytes(mem, s), pred.value))
  }

  /** The (before, after) pair split_by_not_pred produces. */
  function SplitByNotPredResult(mem: seq<bv8>, s: View, pred: Pred): (View, View)
    requires WellFormed(mem, s)
  {
    if !IsValid(s) || pred.None? then (INVALID, INVALID)
    else SplitPair(s, FirstWhere(Bytes(mem, s), Negate(pred.value)))
  }

  /** mu_string_split_handle_result: split `s` at `foundIdx`, storing the second part in `after` if given. */
  method SplitHandleResult(s: View, after: ViewCell?, foundIdx: size_t) returns (before: View)
    modifies after
    ensures before == SplitPair(s, foundIdx).0
    ensures after != null ==> after.v == SplitPair(s, foundIdx).1
  {
    if foundIdx < s.len {
      before := View(s.buf, foundIdx);
      if after != null {
        after.v := View(Advance(s.buf, foundIdx), s.len - foundIdx);
      }
      return before;
    }
    if after != null {
      after.v := View(Advance(s.buf, s.len), 0);
    }
    return s;
  }

  /** mu_string_split_at_char. */
  method SplitAtChar(mem: seq<bv8>, s: View, after: ViewCell?, c: bv8) returns (before: View)
    requires WellFormed(mem, s)
    modifies after
    ensures before == SplitAtCharResult(mem, s, c).0
    ensures after != null ==> after.v == SplitAtCharResult(mem, s, c).1
  {
    if !IsValid(s) {
      if after != null {
        after.v := INVALID;
      }
      return INVALID;
    }
    ghost var b := Bytes(mem, s);
    var foundIdx := s.len;
    for i := 0 to s.len
      invariant foundIdx == s.len
      invariant forall j :: 0 <= j < i ==> b[j] != c
    {
      if mem[s.buf.off + i] == c {
        foundIdx := i;
        break;
      }
    }
    FirstWhereIs(b, Matches(c), foundIdx);
    if foundIdx != s.len {
      var beforePart := View(s.buf, foundIdx);
      if after != null {
        after.v := View(Advance(s.buf, foundIdx), s.len - foundIdx);
      }
      return beforePart;
    } else {
      if after != null {
        after.v := NOT_FOUND;
      }
      return s;
    }
  }

  /** mu_string_split_by_pred. */
  method SplitByPred(mem: seq<bv8>, s: View, after: ViewCell?, pred: Pred) returns (before: View)
    requires WellFormed(mem, s)
    modifies after
    ensures before == SplitByPredResult(mem, s, pred).0
    ensures after != null ==> after.v == SplitByPredResult(mem, s, pred).1
  {
    if !IsValid(s) || pred.None? {
      if after != null {
        after.v := INVALID;
      }
      return INVALID;
    }
    var p := pred.value;
    ghost var b := Bytes(mem, s);
    var splitIdx := s.len;
    for i := 0 to s.len
      invariant splitIdx == s.len
      invariant forall j :: 0 <= j < i ==> !p(b[j])
    {
      if p(mem[s.buf.off + i]) {
        splitIdx := i;
        break;
      }
    }
    FirstWhereIs(b, p, splitIdx);
    if splitIdx == s.len {
      if after != null {
        after.v := View(Advance(s.buf, s.len), 0);
      }
      return s;
    }
    before := SplitHandleResult(s, after, splitIdx);
  }

  /** mu_string_split_by_not_pred. */
  method SplitByNotPred(mem: seq<bv8>, s: View, after: ViewCell?, pred: Pred) returns (before: View)
    requires WellFormed(mem, s)
    modifies after
    ensures before == SplitByNotPredResult(mem, s, pred).0
    ensures after != null ==> after.v == SplitByNotPredResult(mem, s, pred).1
  {
    if !IsValid(s) || pred.None? {
      if after != null {
        after.v := INVALID;
      }
      return INVALID;
    }
    var p := pred.value;
    ghost var b := Bytes(mem, s);
    var foundIdx := s.len;
    for i := 0 to s.len
      invariant foundIdx == s.len
      invariant forall j :: 0 <= j < i ==> p(b[j])
    {
      if !p(mem[s.buf.off + i]) {
        foundIdx := i;
        break;
      }
    }
    FirstWhereIs(b, Negate(p), foundIdx);
    before := SplitHandleResult(s, after, foundIdx);
  }

  /**
   * Splitting a valid view at any index inside it or at its end gives two
   * well-formed valid views that sit next to each other in memory and
   * whose bytes, put together, are the bytes of `s`.
   */
  lemma SplitPairReassembles(mem: seq<bv8>, s: View, k: nat)
    requires WellFormed(mem, s) && IsValid(s) && k <= s.len
    ensures var (before, after) := SplitPair(s, k);
            && WellFormed(mem, before) && IsValid(before)
            && WellFormed(mem, after) && IsValid(after)
            && before.buf == s.buf && before.len == k
            && after.buf == Advance(before.buf, before.len)
            && Bytes(mem, before) + Bytes(mem, after) == Bytes(mem, s)
  {
    var b := Bytes(mem, s);
    SubViewBytes(mem, s, 0, k);
    SubViewBytes(mem, s, k, s.len);
    assert b[..k] + b[k..] == b;
    if s.buf.At? {
      assert SubView(s, 0, k) == View(s.buf, k);
    }
  }

  /**
   * Splitting at the first byte satisfying `p`: the part before holds no
   * such byte, the part after starts with one, and the part after is
   * empty exactly when `s` holds none.
   */
  lemma SplitFirstWhereMeaning(mem: seq<bv8>, s: View, p: bv8 -> bool)
    requires WellFormed(mem, s) && IsValid(s)
    ensures var (before, after) := SplitPair(s, FirstWhere(Bytes(mem, s), p));
            && WellFormed(mem, before) && IsValid(before)
            && WellFormed(mem, after) && IsValid(after)
            && Bytes(mem, before) + Bytes(mem, after) == Bytes(mem, s)
            && (forall j :: 0 <= j < before.len ==> !p(Bytes(mem, before)[j]))
            && (after.len > 0 ==> p(Bytes(mem, after)[0]))
            && (after.len == 0 <==> forall j :: 0 <= j < s.len ==> !p(Bytes(mem, s)[j]))
  {
    var b := Bytes(mem, s);
    var k := FirstWhere(b, p);
    SplitPairReassembles(mem, s, k);
    var (before, after) := SplitPair(s, k);
    assert Bytes(mem, before) == b[..k];
    assert Bytes(mem, after) == b[k..];
    if k < s.len {
      assert Bytes(mem, after)[0] == b[k];
    }
  }

  /**
   * split_at_char on a valid view: when `c` occurs, the part before is the
   * text up to its first occurrence and the part after starts with it;
   * when it does not, the whole view comes back and `after` is NOT_FOUND.
   */
  lemma SplitAtCharMeaning(mem: seq<bv8>, s: View, c: bv8)
    requires WellFormed(mem, s) && IsValid(s)
    ensures var (before, after) := SplitAtCharResult(mem, s, c);
            && WellFormed(mem, before) && IsValid(before) && c !in Bytes(mem, before)
            && (after == NOT_FOUND <==> c !in Bytes(mem, s))
            && (after == NOT_FOUND ==> before == s)
            && (after != NOT_FOUND ==>
                  && WellFormed(mem, after) && IsValid(after) && after.len > 0
                  && Bytes(mem, after)[0] == c
                  && after.buf == Advance(before.buf, before.len)
                  && Bytes(mem, before) + Bytes(mem, after) == Bytes(mem, s))
  {
    var b := Bytes(mem, s);
    var k := FirstWhere(b, Matches(c));
    SplitFirstWhereMeaning(mem, s, Matches(c));
    SplitPairReassembles(mem, s, k);
    if k < s.len {
      assert b[k] == c;
    }
  }

  /**
   * split_by_pred on a valid view: the part before is the longest prefix
   * without a byte satisfying the predicate, the part after is the rest.
   */
  lemma SplitByPredMeaning(mem: seq<bv8>, s: View, p: bv8 -> bool)
    requires WellFormed(mem, s) && IsValid(s)
    ensures var (before, after) := SplitByPredResult(mem, s, Some(p));
            && WellFormed(mem, before) && IsValid(before)
            && WellFormed(mem, after) && IsValid(after)
            && after.buf == Advance(before.buf, before.len)
            && Bytes(mem, before) + Bytes(mem, after) == Bytes(mem, s)
            && (forall j :: 0 <= j < before.len ==> !p(Bytes(mem, before)[j]))
            && (after.len > 0 ==> p(Bytes(mem, after)[0]))
  {
    SplitFirstWhereMeaning(mem, s, p);
    SplitPairReassembles(mem, s, FirstWhere(Bytes(mem, s), p));
  }

  /**
   * split_by_not_pred on a valid view: the part before is the longest
   * prefix of bytes satisfying the predicate, the part after is the rest.
   */
  lemma SplitByNotPredMeaning(mem: seq<bv8>, s: View, p: bv8 -> bool)
    requires WellFormed(mem, s) && IsValid(s)
    ensures var (before, after) := SplitByNotPredResult(mem, s, Some(p));
            && WellFormed(mem, before) && IsValid(before)
            && WellFormed(mem, after) && IsValid(after)
            && after.buf == Advance(before.buf, before.len)
            && Bytes(mem, before) + Bytes(mem, after) == Bytes(mem, s)
            && (forall j :: 0 <= j < before.len ==> p(Bytes(mem, before)[j]))
            && (after.len > 0 ==> !p(Bytes(mem, after)[0]))
  {
    var k := FirstWhere(Bytes(mem, s), Negate(p));
    SplitFirstWhereMeaning(mem, s, Negate(p));
    SplitPairReassembles(mem, s, k);
    var before := SplitPair(s, k).0;
    forall j | 0 <= j < before.len ensures p(Bytes(mem, before)[j]) {
      assert !Negate(p)(Bytes(mem, before)[j]);
    }
  }

  /**
   * When no split point exists, split_by_pred and split_by_not_pred return
   * all of `s` and set `after` to the zero-length view at its end.
   */
  lemma SplitNoMatch(mem: seq<bv8>, s: View, p: bv8 -> bool)
    requires WellFormed(mem, s) && IsValid(s)
    ensures (forall j :: 0 <= j < s.len ==> !p(Bytes(mem, s)[j])) ==>
              SplitByPredResult(mem, s, Some(p)) == (s, View(Advance(s.buf, s.len), 0))
    ensures (forall j :: 0 <= j < s.len ==> p(Bytes(mem, s)[j])) ==>
              SplitByNotPredResult(mem, s, Some(p)) == (s, View(Advance(s.buf, s.len), 0))
  {
    var b := Bytes(mem, s);
    if forall j :: 0 <= j < s.len ==> !p(b[j]) {
      FirstWhereIs(b, p, s.len);
    }
    if forall j :: 0 <= j < s.len ==> p(b[j]) {
      FirstWhereIs(b, Negate(p), s.len);
    }
  }

  /**
   * When nothing matches a non-empty view, the part returned is all of `s`,
   * which mu_string_eq does not consider equal to MU_STRING_NOT_FOUND; the
   * part stored in `after` is a valid zero-length view, which it does.
   */
  lemma SplitNoMatchAgainstNotFound(mem: seq<bv8>, s: View, c: bv8, p: bv8 -> bool)
    requires WellFormed(mem, s) && IsValid(s) && s.len > 0
    ensures c !in Bytes(mem, s) ==>
              var (before, after) := SplitAtCharResult(mem, s, c);
              !Eq(mem, before, NOT_FOUND) && Eq(mem, after, NOT_FOUND)
    ensures (forall j :: 0 <= j < s.len ==> !p(Bytes(mem, s)[j])) ==>
              var (before, after) := SplitByPredResult(mem, s, Some(p));
              WellFormed(mem, after) && !Eq(mem, before, NOT_FOUND) && Eq(mem, after, NOT_FOUND)
    ensures (forall j :: 0 <= j < s.len ==> p(Bytes(mem, s)[j])) ==>
              var (before, after) := SplitByNotPredResult(mem, s, Some(p));
              WellFormed(mem, after) && !Eq(mem, before, NOT_FOUND) && Eq(mem, after, NOT_FOUND)
  {
    SplitAtCharMeaning(mem, s, c);
    SplitNoMatch(mem, s, p);
    SplitPairReassembles(mem, s, s.len);
  }

  /** An invalid view or a NULL predicate makes both parts INVALID in every split. */
  lemma SplitInvalid(mem: seq<bv8>, s: View, c: bv8, pred: Pred)
    requires WellFormed(mem, s)
    ensures !IsValid(s) ==> SplitAtCharResult(mem, s, c) == (INVALID, INVALID)
    ensures !IsValid(s) || pred.None? ==>
              SplitByPredResult(mem, s, pred) == (INVALID, INVALID)
              && SplitByNotPredResult(mem, s, pred) == (INVALID, INVALID)
    ensures IsValid(s) ==> SplitAtCharResult(mem, s, c).0 != INVALID
  {
  }
}

/**
 * Searching a view (src/mu_string.c: mu_string_find_char …
 * mu_string_find_str). Every search returns the suffix of the input that
 * starts at the match, EMPTY when nothing matches, INVALID for an invalid
 * input.
 */
module MuStringSearch {
  import opened MuStringTypes
  import opened CLib

  /** The predicate "equals c". */
  function Matches(c: bv8): bv8 -> bool {
    b => b == c
  }

  /** The predicate "does not satisfy p". */
  function Negate(p: bv8 -> bool): bv8 -> bool {
    b => !p(b)
  }

  /** The index of the first byte of `b` satisfying `p`, or |b| when there is none. */
  function FirstWhere(b: seq<bv8>, p: bv8 -> bool): (k: nat)
    ensures k <= |b|
    ensures k < |b| ==> p(b[k])
    ensures forall j :: 0 <= j < k ==> !p(b[j])
  {
    if |b| == 0 then 0
    else if p(b[0]) then 0
    else 1 + FirstWhere(b[1..], p)
  }

  /** The index of the last byte of `b` satisfying `p`, or -1 when there is none. */
  function LastWhere(b: seq<bv8>, p: bv8 -> bool): (k: int)
    ensures -1 <= k < |b|
    ensures k >= 0 ==> p(b[k])
    ensures forall j :: k < j < |b| ==> !p(b[j])
  {
    if |b| == 0 then -1
    else if p(b[|b| - 1]) then |b| - 1
    else LastWhere(b[..|b| - 1], p)
  }

  /** `k` is the first index satisfying `p` exactly when it has FirstWhere's two properties. */
  lemma FirstWhereIs(b: seq<bv8>, p: bv8 -> bool, k: nat)
    requires k <= |b| && (k < |b| ==> p(b[k]))
    requires forall j :: 0 <= j < k ==> !p(b[j])
    ensures FirstWhere(b, p) == k
  {
  }

  /** `k` is the last index satisfying `p` exactly when it has LastWhere's two properties. */
  lemma LastWhereIs(b: seq<bv8>, p: bv8 -> bool, k: int)
    requires -1 <= k < |b| && (k >= 0 ==> p(b[k]))
    requires forall j :: k < j < |b| ==> !p(b[j])
    ensures LastWhere(b, p) == k
  {
  }

  /** `n` occurs in `h` at position `i`. */
  predicate OccursAt(h: seq<bv8>, n: seq<bv8>, i: nat) {
    i + |n| <= |h| && h[i..i + |n|] == n
  }

  /** The first position where the non-empty `n` occurs in `h`, or |h| when it does not. */
  function FirstOccurrence(h: seq<bv8>, n: seq<bv8>): (k: nat)
    requires |n| > 0
    ensures k <= |h|
    ensures k < |h| ==> OccursAt(h, n, k)
    ensures forall j :: 0 <= j < k ==> !OccursAt(h, n, j)
    decreases |h|
  {
    if |h| < |n| then |h|
    else if h[..|n|] == n then 0
    else
      assert h[0..|n|] == h[..|n|];
      OccursShift(h, n);
      1 + FirstOccurrence(h[1..], n)
  }

  /** Dropping the first byte of the haystack moves every occurrence one position down. */
  lemma OccursShift(h: seq<bv8>, n: seq<bv8>)
    requires |h| > 0
    ensures forall j: nat :: OccursAt(h[1..], n, j) <==> OccursAt(h, n, j + 1)
    ensures forall j: nat :: 1 <= j ==> (OccursAt(h, n, j) <==> OccursAt(h[1..], n, j - 1))
  {
    forall j: nat ensures OccursAt(h[1..], n, j) <==> OccursAt(h, n, j + 1) {
      if j + 1 + |n| <= |h| {
        var shifted, direct := h[1..][j..j + |n|], h[j + 1..j + 1 + |n|];
        assert shifted == direct;
      }
    }
  }

  /** The result of a forward or backward search that found index `k` of `s` (none when k == s.len). */
  function FoundAt(s: View, k: nat): View
    requires k <= s.len
  {
    if k == s.len then EMPTY else SubView(s, k, s.len)
  }

  /** The result of a backward search that found index `k` of `s` (none when k < 0). */
  function FoundLastAt(s: View, k: int): View
    requires k < s.len
  {
    if k < 0 then EMPTY else SubView(s, k, s.len)
  }

  /**
   * A search result is EMPTY exactly when nothing was found; otherwise it is
   * well-formed, valid, non-empty and reads the input's bytes from the match on.
   */
  lemma FoundAtBytes(mem: seq<bv8>, s: View, k: nat)
    requires WellFormed(mem, s) && IsValid(s) && k <= s.len
    ensures WellFormed(mem, FoundAt(s, k)) && IsValid(FoundAt(s, k))
    ensures FoundAt(s, k) == EMPTY <==> k == s.len
    ensures k < s.len ==> FoundAt(s, k).buf == Advance(s.buf, k)
                          && Bytes(mem, FoundAt(s, k)) == Bytes(mem, s)[k..]
  {
    if k < s.len {
      SubViewBytes(mem, s, k, s.len);
    }
  }

  /** mu_string_find_char: the suffix from the first byte equal to `c`. */
  method FindChar(mem: seq<bv8>, s: View, c: bv8) returns (r: View)
    requires WellFormed(mem, s)
    ensures !IsValid(s) ==> r == INVALID
    ensures IsValid(s) ==> r == FoundAt(s, FirstWhere(Bytes(mem, s), Matches(c)))
  {
    if !IsValid(s) { return INVALID; }
    if s.len == 0 { return EMPTY; }
    ghost var b := Bytes(mem, s);
    for i := 0 to s.len
      invariant forall j :: 0 <= j < i ==> b[j] != c
    {
      if mem[s.buf.off + i] == c {
        FirstWhereIs(b, Matches(c), i);
        return SubView(s, i, s.len);
      }
    }
    FirstWhereIs(b, Matches(c), s.len);
    return EMPTY;
  }

  /** mu_string_rfind_char: the suffix from the last byte equal to `c`. */
  method RFindChar(mem: seq<bv8>, s: View, c: bv8) returns (r: View)
    requires WellFormed(mem, s)
    requires IsValid(s) ==> s.len <= INT_MAX
    ensures !IsValid(s) ==> r == INVALID
    ensures IsValid(s) ==> r == FoundLastAt(s, LastWhere(Bytes(mem, s), Matches(c)))
  {
    if !IsValid(s) { return INVALID; }
    if s.len == 0 { return EMPTY; }
    ghost var b := Bytes(mem, s);
    var i: int := s.len - 1;
    while i >= 0
      invariant -1 <= i < s.len
      invariant forall j :: i < j < s.len ==> b[j] != c
    {
      if mem[s.buf.off + i] == c {
        LastWhereIs(b, Matches(c), i);
        return SubView(s, i, s.len);
      }
      i := i - 1;
    }
    LastWhereIs(b, Matches(c), -1);
    return EMPTY;
  }

  /** mu_string_find_pred: the suffix from the first byte satisfying the predicate; a NULL predicate finds nothing. */
  method FindPred(mem: seq<bv8>, s: View, pred: Pred) returns (r: View)
    requires WellFormed(mem, s)
    ensures !IsValid(s) ==> r == INVALID
    ensures IsValid(s) && pred.None? ==> r == EMPTY
    ensures IsValid(s) && pred.Some? ==> r == FoundAt(s, FirstWhere(Bytes(mem, s), pred.value))
  {
    if !IsValid(s) { return INVALID; }
    if s.len == 0 || pred.None? { return EMPTY; }
    var p := pred.value;
    ghost var b := Bytes(mem, s);
    for i := 0 to s.len
      invariant forall j :: 0 <= j < i ==> !p(b[j])
    {
      if p(mem[s.buf.off + i]) {
        FirstWhereIs(b, p, i);
        return SubView(s, i, s.len);
      }
    }
    FirstWhereIs(b, p, s.len);
    return EMPTY;
  }

  /** mu_string_rfind_pred: the suffix from the last byte satisfying the predicate; a NULL predicate finds nothing. */
  method RFindPred(mem: seq<bv8>, s: View, pred: Pred) returns (r: View)
    requires WellFormed(mem, s)
    requires IsValid(s) ==> s.len <= INT_MAX
    ensures !IsValid(s) ==> r == INVALID
    ensures IsValid(s) && pred.None? ==> r == EMPTY
    ensures IsValid(s) && pred.Some? ==> r == FoundLastAt(s, LastWhere(Bytes(mem, s), pred.value))
  {
    if !IsValid(s) { return INVALID; }
    if s.len == 0 || pred.None? { return EMPTY; }
    var p := pred.value;
    ghost var b := Bytes(mem, s);
    var i: int := s.len - 1;
    while i >= 0
      invariant -1 <= i < s.len
      invariant forall j :: i < j < s.len ==> !p(b[j])
    {
      if p(mem[s.buf.off + i]) {
        LastWhereIs(b, p, i);
        return SubView(s, i, s.len);
      }
      i := i - 1;
    }
    LastWhereIs(b, p, -1);
    return EMPTY;
  }

  /**
   * mu_string_find_first_not_pred: the suffix from the first byte that fails
   * the predicate. A NULL predicate matches nothing, so a non-empty `s` is
   * returned whole; an empty `s` gives EMPTY.
   */
  method FindFirstNotPred(mem: seq<bv8>, s: View, pred: Pred) returns (r: View)
    requires WellFormed(mem, s)
    ensures !IsValid(s) ==> r == INVALID
    ensures IsValid(s) && s.len == 0 ==> r == EMPTY
    ensures IsValid(s) && s.len > 0 && pred.None? ==> r == s
    ensures IsValid(s) && pred.Some? ==> r == FoundAt(s, FirstWhere(Bytes(mem, s), Negate(pred.value)))
  {
    if !IsValid(s) { return INVALID; }
    if s.len == 0 { return EMPTY; }
    if pred.None? { return View(s.buf, s.len); }
    var p := pred.value;
    ghost var b := Bytes(mem, s);
    var start := 0;
    while start < s.len && p(mem[s.buf.off + start])
      invariant 0 <= start <= s.len
      invariant forall j :: 0 <= j < start ==> p(b[j])
    {
      start := start + 1;
    }
    FirstWhereIs(b, Negate(p), start);
    if start == s.len {
      return EMPTY;
    }
    return View(Advance(s.buf, start), s.len - start);
  }

  /**
   * mu_string_find_str: the suffix of the haystack from the first occurrence
   * of the needle. An empty needle gives the haystack itself; a needle
   * longer than the haystack, or absent from it, gives EMPTY.
   */
  method FindStr(mem: seq<bv8>, haystack: View, needle: View) returns (r: View)
    requires WellFormed(mem, haystack) && WellFormed(mem, needle)
    ensures !IsValid(haystack) || !IsValid(needle) ==> r == INVALID
    ensures IsValid(haystack) && IsValid(needle) && needle.len == 0 ==> r == haystack
    ensures IsValid(haystack) && IsValid(needle) && needle.len > 0 ==>
              r == FoundAt(haystack, FirstOccurrence(Bytes(mem, haystack), Bytes(mem, needle)))
  {
    if !IsValid(haystack) || !IsValid(needle) { return INVALID; }
    if needle.len == 0 { return haystack; }
    ghost var h, n := Bytes(mem, haystack), Bytes(mem, needle);
    if needle.len > haystack.len {
      FirstWhereOccurrenceNone(h, n, 0);
      return EMPTY;
    }
    var i := 0;
    while i <= haystack.len - needle.len
      invariant i <= haystack.len - needle.len + 1
      invariant forall j :: 0 <= j < i ==> !OccursAt(h, n, j)
    {
      var window := mem[haystack.buf.off + i..];
      var pattern := mem[needle.buf.off..];
      WindowBytes(mem, haystack, i, needle.len);
      WindowBytes(mem, needle, 0, needle.len);
      if MemCmp(window, pattern, needle.len) == 0 {
        FirstOccurrenceIs(h, n, i);
        return SubView(haystack, i, haystack.len);
      }
      i := i + 1;
    }
    FirstWhereOccurrenceNone(h, n, i);
    return EMPTY;
  }

  /** The `n` bytes at `s.buf + i` are bytes [i, i + n) of `s`. */
  lemma WindowBytes(mem: seq<bv8>, s: View, i: nat, n: nat)
    requires WellFormed(mem, s) && IsValid(s) && s.buf.At? && i + n <= s.len
    ensures |mem[s.buf.off + i..]| >= n
    ensures mem[s.buf.off + i..][..n] == Bytes(mem, s)[i..i + n]
  {
    var o := s.buf.off;
    var window, part := mem[o + i..][..n], Bytes(mem, s)[i..i + n];
    forall t | 0 <= t < n ensures window[t] == part[t] {
      assert window[t] == mem[o + i + t];
    }
    assert window == part;
  }

  /** `k` is the first occurrence when it occurs there and nowhere before. */
  lemma FirstOccurrenceIs(h: seq<bv8>, n: seq<bv8>, k: nat)
    requires |n| > 0 && OccursAt(h, n, k)
    requires forall j :: 0 <= j < k ==> !OccursAt(h, n, j)
    ensures FirstOccurrence(h, n) == k
  {
  }

  /** When no position before `i` holds the needle and none can after it, there is no occurrence. */
  lemma FirstWhereOccurrenceNone(h: seq<bv8>, n: seq<bv8>, i: nat)
    requires |n| > 0 && |h| < i + |n|
    requires forall j :: 0 <= j < i ==> !OccursAt(h, n, j)
    ensures FirstOccurrence(h, n) == |h|
  {
  }

  /**
   * What a forward search promises: the result is EMPTY when no byte
   * matches, and otherwise the suffix from a matching byte with no match
   * before it.
   */
  lemma ForwardSearchMeaning(mem: seq<bv8>, s: View, p: bv8 -> bool)
    requires WellFormed(mem, s) && IsValid(s)
    ensures var r := FoundAt(s, FirstWhere(Bytes(mem, s), p));
            && WellFormed(mem, r) && IsValid(r)
            && (r == EMPTY <==> forall j :: 0 <= j < s.len ==> !p(Bytes(mem, s)[j]))
            && (r != EMPTY ==>
                  && 0 < r.len <= s.len
                  && r.buf == Advance(s.buf, s.len - r.len)
                  && Bytes(mem, r) == Bytes(mem, s)[s.len - r.len..]
                  && p(Bytes(mem, r)[0])
                  && (forall j :: 0 <= j < s.len - r.len ==> !p(Bytes(mem, s)[j])))
  {
    var b := Bytes(mem, s);
    var k := FirstWhere(b, p);
    FoundAtBytes(mem, s, k);
    if k < s.len {
      assert Bytes(mem, FoundAt(s, k))[0] == b[k];
    }
  }

  /**
   * What a backward search promises: the result is EMPTY when no byte
   * matches, and otherwise the suffix from a matching byte with no match
   * after it.
   */
  lemma BackwardSearchMeaning(mem: seq<bv8>, s: View, p: bv8 -> bool)
    requires WellFormed(mem, s) && IsValid(s)
    ensures var r := FoundLastAt(s, LastWhere(Bytes(mem, s), p));
            && WellFormed(mem, r) && IsValid(r)
            && (r == EMPTY <==> forall j :: 0 <= j < s.len ==> !p(Bytes(mem, s)[j]))
            && (r != EMPTY ==>
                  && 0 < r.len <= s.len
                  && r.buf == Advance(s.buf, s.len - r.len)
                  && Bytes(mem, r) == Bytes(mem, s)[s.len - r.len..]
                  && p(Bytes(mem, r)[0])
                  && (forall j :: 0 < j < r.len ==> !p(Bytes(mem, r)[j])))
  {
    var b := Bytes(mem, s);
    var k := LastWhere(b, p);
    if k >= 0 {
      SubViewBytes(mem, s, k, s.len);
      var r := SubView(s, k, s.len);
      forall j | 0 < j < r.len ensures !p(Bytes(mem, r)[j]) {
        assert Bytes(mem, r)[j] == b[k + j];
      }
    }
  }

  /** find_str promises: the suffix starts with the needle and no earlier position holds it. */
  lemma FindStrMeaning(mem: seq<bv8>, haystack: View, needle: View)
    requires WellFormed(mem, haystack) && WellFormed(mem, needle)
    requires IsValid(haystack) && IsValid(needle) && needle.len > 0
    ensures var h, n := Bytes(mem, haystack), Bytes(mem, needle);
            var r := FoundAt(haystack, FirstOccurrence(h, n));
            && WellFormed(mem, r) && IsValid(r)
            && (r == EMPTY <==> forall j :: 0 <= j < |h| ==> !OccursAt(h, n, j))
            && (r != EMPTY ==>
                  && r.len <= haystack.len
                  && Bytes(mem, r) == h[haystack.len - r.len..]
                  && Bytes(mem, r)[..needle.len] == n
                  && (forall j :: 0 <= j < haystack.len - r.len ==> !OccursAt(h, n, j)))
  {
    var h, n := Bytes(mem, haystack), Bytes(mem, needle);
    var k := FirstOccurrence(h, n);
    FoundAtBytes(mem, haystack, k);
    if k < |h| {
      assert h[k..][..|n|] == h[k..k + |n|];
    }
  }
}

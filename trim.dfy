/**
 * Trimming a view by a character predicate (src/mu_string.c:
 * mu_string_ltrim, mu_string_rtrim, mu_string_trim). Each operation drops
 * the bytes satisfying the predicate from one or both ends; an invalid
 * view gives INVALID, and an empty view or a NULL predicate gives the
 * input back unchanged.
 */
module MuStringTrim {
  import opened MuStringTypes
  import opened MuStringSearch

  /** What ltrim returns: the suffix from the first byte that fails `pred`, EMPTY when none does. */
  function LTrimmed(mem: seq<bv8>, s: View, pred: Pred): View
    requires WellFormed(mem, s)
  {
    if !IsValid(s) then INVALID
    else if s.len == 0 || pred.None? then s
    else FoundAt(s, FirstWhere(Bytes(mem, s), Negate(pred.value)))
  }

  /** What rtrim returns: the prefix up to the last byte that fails `pred`, EMPTY when none does. */
  function RTrimmed(mem: seq<bv8>, s: View, pred: Pred): View
    requires WellFormed(mem, s)
  {
    if !IsValid(s) then INVALID
    else if s.len == 0 || pred.None? then s
    else
      var e := LastWhere(Bytes(mem, s), Negate(pred.value));
      if e < 0 then EMPTY else SubView(s, 0, e + 1)
  }

  /** What trim returns: the range from the first to the last byte that fails `pred`, EMPTY when none does. */
  function Trimmed(mem: seq<bv8>, s: View, pred: Pred): View
    requires WellFormed(mem, s)
  {
    if !IsValid(s) then INVALID
    else if s.len == 0 || pred.None? then s
    else
      var b := Bytes(mem, s);
      var a := FirstWhere(b, Negate(pred.value));
      if a == s.len then EMPTY
      else
        var e := LastWhere(b, Negate(pred.value));
        assert Negate(pred.value)(b[a]);
        SubView(s, a, e + 1)
  }

  /** mu_string_ltrim. */
  method LTrim(mem: seq<bv8>, s: View, pred: Pred) returns (r: View)
    requires WellFormed(mem, s)
    ensures r == LTrimmed(mem, s, pred)
  {
    if !IsValid(s) { return INVALID; }
    if s.len == 0 || pred.None? { return s; }
    var p := pred.value;
    ghost var b := Bytes(mem, s);
    var start := 0;
    while start < s.len && p(mem[s.buf.off + start])
      invariant 0 <= start <= s.len
      invariant forall j :: 0 <= j < start ==> p(b[j])
    {
      start := start + 1;
    }
    FirstWhereIs(b, Negate(p), start);
    if start == s.len {
      return EMPTY;
    }
    return View(Advance(s.buf, start), s.len - start);
  }

  /** mu_string_rtrim; the index runs over C's int, so the length must fit in one. */
  method RTrim(mem: seq<bv8>, s: View, pred: Pred) returns (r: View)
    requires WellFormed(mem, s)
    requires IsValid(s) ==> s.len <= INT_MAX
    ensures r == RTrimmed(mem, s, pred)
  {
    if !IsValid(s) { return INVALID; }
    if s.len == 0 || pred.None? { return s; }
    var p := pred.value;
    ghost var b := Bytes(mem, s);
    var endIdx: int := s.len - 1;
    while endIdx >= 0 && p(mem[s.buf.off + endIdx])
      invariant -1 <= endIdx < s.len
      invariant forall j :: endIdx < j < s.len ==> p(b[j])
    {
      endIdx := endIdx - 1;
    }
    LastWhereIs(b, Negate(p), endIdx);
    if endIdx < 0 {
      return EMPTY;
    }
    return View(s.buf, endIdx + 1);
  }

  /** mu_string_trim: the forward scan of ltrim, then a backward scan that stops at its result. */
  method Trim(mem: seq<bv8>, s: View, pred: Pred) returns (r: View)
    requires WellFormed(mem, s)
    requires IsValid(s) ==> s.len <= INT_MAX
    ensures r == Trimmed(mem, s, pred)
  {
    if !IsValid(s) { return INVALID; }
    if s.len == 0 || pred.None? { return s; }
    var p := pred.value;
    ghost var b := Bytes(mem, s);
    var start := 0;
    while start < s.len && p(mem[s.buf.off + start])
      invariant 0 <= start <= s.len
      invariant forall j :: 0 <= j < start ==> p(b[j])
    {
      start := start + 1;
    }
    FirstWhereIs(b, Negate(p), start);
    if start == s.len {
      return EMPTY;
    }
    var endIdx: int := s.len - 1;
    while endIdx >= start && p(mem[s.buf.off + endIdx])
      invariant start <= endIdx < s.len
      invariant forall j :: endIdx < j < s.len ==> p(b[j])
    {
      endIdx := endIdx - 1;
    }
    LastWhereIs(b, Negate(p), endIdx);
    return View(Advance(s.buf, start), endIdx - start + 1);
  }

  /**
   * ltrim keeps a suffix of `s`: every byte it drops satisfies the
   * predicate, and the first byte it keeps does not.
   */
  lemma LTrimmedMeaning(mem: seq<bv8>, s: View, p: bv8 -> bool)
    requires WellFormed(mem, s) && IsValid(s)
    ensures var b, r := Bytes(mem, s), LTrimmed(mem, s, Some(p));
            && WellFormed(mem, r) && IsValid(r) && r.len <= s.len
            && (r.len > 0 ==> r.buf == Advance(s.buf, s.len - r.len))
            && Bytes(mem, r) == b[s.len - r.len..]
            && (forall j :: 0 <= j < s.len - r.len ==> p(b[j]))
            && (r.len > 0 ==> !p(Bytes(mem, r)[0]))
  {
    var b := Bytes(mem, s);
    if s.len > 0 {
      var k := FirstWhere(b, Negate(p));
      FoundAtBytes(mem, s, k);
      if k < s.len {
        assert Bytes(mem, FoundAt(s, k))[0] == b[k];
      }
    }
  }

  /**
   * rtrim keeps a prefix of `s`: every byte it drops satisfies the
   * predicate, and the last byte it keeps does not.
   */
  lemma RTrimmedMeaning(mem: seq<bv8>, s: View, p: bv8 -> bool)
    requires WellFormed(mem, s) && IsValid(s)
    ensures var b, r := Bytes(mem, s), RTrimmed(mem, s, Some(p));
            && WellFormed(mem, r) && IsValid(r) && r.len <= s.len
            && (r.len > 0 ==> r.buf == s.buf)
            && Bytes(mem, r) == b[..r.len]
            && (forall j :: r.len <= j < s.len ==> p(b[j]))
            && (r.len > 0 ==> !p(Bytes(mem, r)[r.len - 1]))
  {
    var b := Bytes(mem, s);
    if s.len > 0 {
      var e := LastWhere(b, Negate(p));
      if e >= 0 {
        SubViewBytes(mem, s, 0, e + 1);
        assert Bytes(mem, SubView(s, 0, e + 1))[e] == b[e];
      }
    }
  }

  /**
   * The shape of trim on a non-empty view: EMPTY when every byte satisfies
   * the predicate, otherwise the range from the first to the last byte
   * that fails it.
   */
  lemma TrimmedRange(mem: seq<bv8>, s: View, p: bv8 -> bool)
    requires WellFormed(mem, s) && IsValid(s) && s.len > 0
    ensures var b := Bytes(mem, s);
            var a, e := FirstWhere(b, Negate(p)), LastWhere(b, Negate(p));
            && (a == s.len <==> e < 0)
            && (a == s.len ==> Trimmed(mem, s, Some(p)) == EMPTY)
            && (a < s.len ==> a <= e && Trimmed(mem, s, Some(p)) == SubView(s, a, e + 1))
  {
    var b := Bytes(mem, s);
    var a := FirstWhere(b, Negate(p));
    if a < s.len {
      assert Negate(p)(b[a]);
    }
  }

  /**
   * trim keeps a range of `s`: the result is empty exactly when every byte
   * satisfies the predicate; otherwise every byte dropped at either end
   * satisfies it, and the first and last bytes kept do not.
   */
  lemma TrimmedMeaning(mem: seq<bv8>, s: View, p: bv8 -> bool)
    requires WellFormed(mem, s) && IsValid(s)
    ensures var b, r := Bytes(mem, s), Trimmed(mem, s, Some(p));
            && WellFormed(mem, r) && IsValid(r) && r.len <= s.len
            && (r.len == 0 <==> forall j :: 0 <= j < s.len ==> p(b[j]))
            && (r.len > 0 ==>
                  && s.buf.At? && r.buf.At? && s.buf.off <= r.buf.off
                  && var a := r.buf.off - s.buf.off;
                  && a + r.len <= s.len
                  && Bytes(mem, r) == b[a..a + r.len]
                  && (forall j :: 0 <= j < a ==> p(b[j]))
                  && (forall j :: a + r.len <= j < s.len ==> p(b[j]))
                  && !p(Bytes(mem, r)[0]) && !p(Bytes(mem, r)[r.len - 1]))
  {
    if s.len > 0 {
      var b := Bytes(mem, s);
      if FirstWhere(b, Negate(p)) < s.len {
        TrimmedKept(mem, s, p);
      } else {
        TrimmedRange(mem, s, p);
        assert forall j :: 0 <= j < s.len ==> !Negate(p)(b[j]);
      }
    }
  }

  /** The case of TrimmedMeaning where some byte fails the predicate. */
  lemma TrimmedKept(mem: seq<bv8>, s: View, p: bv8 -> bool)
    requires WellFormed(mem, s) && IsValid(s) && s.len > 0
    requires FirstWhere(Bytes(mem, s), Negate(p)) < s.len
    ensures var b, r := Bytes(mem, s), Trimmed(mem, s, Some(p));
            && WellFormed(mem, r) && IsValid(r) && 0 < r.len <= s.len
            && !(forall j :: 0 <= j < s.len ==> p(b[j]))
            && s.buf.At? && r.buf.At? && s.buf.off <= r.buf.off
            && var a := r.buf.off - s.buf.off;
            && a + r.len <= s.len
            && Bytes(mem, r) == b[a..a + r.len]
            && (forall j :: 0 <= j < a ==> p(b[j]))
            && (forall j :: a + r.len <= j < s.len ==> p(b[j]))
            && !p(Bytes(mem, r)[0]) && !p(Bytes(mem, r)[r.len - 1])
  {
    var b := Bytes(mem, s);
    var a, e := FirstWhere(b, Negate(p)), LastWhere(b, Negate(p));
    TrimmedRange(mem, s, p);
    SubViewBytes(mem, s, a, e + 1);
    var r := SubView(s, a, e + 1);
    assert r.buf.off - s.buf.off == a;
    assert Bytes(mem, r)[0] == b[a] && Bytes(mem, r)[r.len - 1] == b[e];
  }

  /** trim is ltrim after rtrim, and rtrim after ltrim. */
  lemma TrimmedComposes(mem: seq<bv8>, s: View, pred: Pred)
    requires WellFormed(mem, s)
    ensures WellFormed(mem, LTrimmed(mem, s, pred)) && WellFormed(mem, RTrimmed(mem, s, pred))
    ensures Trimmed(mem, s, pred) == LTrimmed(mem, RTrimmed(mem, s, pred), pred)
    ensures Trimmed(mem, s, pred) == RTrimmed(mem, LTrimmed(mem, s, pred), pred)
  {
    if IsValid(s) && s.len > 0 && pred.Some? {
      LTrimmedMeaning(mem, s, pred.value);
      RTrimmedMeaning(mem, s, pred.value);
      TrimIsLTrimOfRTrim(mem, s, pred.value);
      TrimIsRTrimOfLTrim(mem, s, pred.value);
    }
  }

  /** One half of TrimmedComposes: ltrim after rtrim. */
  lemma TrimIsLTrimOfRTrim(mem: seq<bv8>, s: View, p: bv8 -> bool)
    requires WellFormed(mem, s) && IsValid(s) && s.len > 0
    ensures WellFormed(mem, RTrimmed(mem, s, Some(p)))
    ensures Trimmed(mem, s, Some(p)) == LTrimmed(mem, RTrimmed(mem, s, Some(p)), Some(p))
  {
    var b := Bytes(mem, s);
    var a, e := FirstWhere(b, Negate(p)), LastWhere(b, Negate(p));
    TrimmedRange(mem, s, p);
    if a < s.len {
      var rt := SubView(s, 0, e + 1);
      SubViewBytes(mem, s, 0, e + 1);
      assert RTrimmed(mem, s, Some(p)) == rt;
      assert Bytes(mem, rt)[a] == b[a];
      FirstWhereIs(Bytes(mem, rt), Negate(p), a);
    }
  }

  /** The other half of TrimmedComposes: rtrim after ltrim. */
  lemma TrimIsRTrimOfLTrim(mem: seq<bv8>, s: View, p: bv8 -> bool)
    requires WellFormed(mem, s) && IsValid(s) && s.len > 0
    ensures WellFormed(mem, LTrimmed(mem, s, Some(p)))
    ensures Trimmed(mem, s, Some(p)) == RTrimmed(mem, LTrimmed(mem, s, Some(p)), Some(p))
  {
    var b := Bytes(mem, s);
    var a, e := FirstWhere(b, Negate(p)), LastWhere(b, Negate(p));
    TrimmedRange(mem, s, p);
    if a < s.len {
      var lt := SubView(s, a, s.len);
      SubViewBytes(mem, s, a, s.len);
      assert LTrimmed(mem, s, Some(p)) == lt;
      LastWhereIs(Bytes(mem, lt), Negate(p), e - a);
    }
  }

  /** ltrim twice with the same predicate trims nothing more. */
  lemma LTrimIdempotent(mem: seq<bv8>, s: View, pred: Pred)
    requires WellFormed(mem, s)
    ensures WellFormed(mem, LTrimmed(mem, s, pred))
    ensures LTrimmed(mem, LTrimmed(mem, s, pred), pred) == LTrimmed(mem, s, pred)
  {
    if IsValid(s) && s.len > 0 && pred.Some? {
      var p := pred.value;
      LTrimmedMeaning(mem, s, p);
      var l := LTrimmed(mem, s, pred);
      if l.len > 0 {
        FirstWhereIs(Bytes(mem, l), Negate(p), 0);
      }
    }
  }

  /** rtrim twice with the same predicate trims nothing more. */
  lemma RTrimIdempotent(mem: seq<bv8>, s: View, pred: Pred)
    requires WellFormed(mem, s)
    ensures WellFormed(mem, RTrimmed(mem, s, pred))
    ensures RTrimmed(mem, RTrimmed(mem, s, pred), pred) == RTrimmed(mem, s, pred)
  {
    if IsValid(s) && s.len > 0 && pred.Some? {
      var p := pred.value;
      RTrimmedMeaning(mem, s, p);
      var r := RTrimmed(mem, s, pred);
      if r.len > 0 {
        LastWhereIs(Bytes(mem, r), Negate(p), r.len - 1);
      }
    }
  }

  /** trim twice with the same predicate trims nothing more. */
  lemma TrimIdempotent(mem: seq<bv8>, s: View, pred: Pred)
    requires WellFormed(mem, s)
    ensures WellFormed(mem, Trimmed(mem, s, pred))
    ensures Trimmed(mem, Trimmed(mem, s, pred), pred) == Trimmed(mem, s, pred)
  {
    if IsValid(s) && s.len > 0 && pred.Some? {
      var p := pred.value;
      var b := Bytes(mem, s);
      var a := FirstWhere(b, Negate(p));
      if a < s.len {
        var e := LastWhere(b, Negate(p));
        assert Negate(p)(b[a]);
        var t := SubView(s, a, e + 1);
        SubViewBytes(mem, s, a, e + 1);
        var tb := Bytes(mem, t);
        assert tb[0] == b[a] && tb[t.len - 1] == b[e];
        FirstWhereIs(tb, Negate(p), 0);
        LastWhereIs(tb, Negate(p), t.len - 1);
      }
    }
  }

  /** A NULL predicate, an empty view or INVALID passes through every trim unchanged. */
  lemma TrimPassThrough(mem: seq<bv8>, s: View, pred: Pred)
    requires WellFormed(mem, s)
    requires !IsValid(s) || s.len == 0 || pred.None?
    ensures LTrimmed(mem, s, pred) == RTrimmed(mem, s, pred) == Trimmed(mem, s, pred)
    ensures LTrimmed(mem, s, pred) == if IsValid(s) then s else INVALID
    ensures s == NOT_FOUND ==> Trimmed(mem, s, pred) == NOT_FOUND != EMPTY
  {
  }
}

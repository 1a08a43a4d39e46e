/**
 * The C library routines mu_string relies on: strlen, memcmp and memcpy.
 * Only what mu_string observes of them is modelled: the length strlen
 * finds, the sign memcmp returns, the bytes memcpy writes.
 */
module CLib {

  /**
   * strlen on the string that starts at offset `o`: the distance to the
   * first NUL byte at or after `o`.
   */
  function CStrLen(mem: seq<bv8>, o: nat): (n: nat)
    requires o < |mem| && 0 in mem[o..]
    ensures o + n < |mem| && mem[o + n] == 0
    ensures forall j :: o <= j < o + n ==> mem[j] != 0
    decreases |mem| - o
  {
    if mem[o] == 0 then 0
    else
      assert mem[o..] == [mem[o]] + mem[o + 1..];
      CStrLen(mem, o + 1) + 1
  }

  /**
   * The sign of memcmp(x, y, n): bytes compared as unsigned, the first
   * difference decides.
   */
  function MemCmp(x: seq<bv8>, y: seq<bv8>, n: nat): (r: int)
    requires n <= |x| && n <= |y|
    ensures -1 <= r <= 1
    ensures r == 0 <==> x[..n] == y[..n]
  {
    if n == 0 then 0
    else if x[0] < y[0] then -1
    else if x[0] > y[0] then 1
    else
      assert x[..n] == [x[0]] + x[1..][..n - 1];
      assert y[..n] == [y[0]] + y[1..][..n - 1];
      MemCmp(x[1..], y[1..], n - 1)
  }

  /** memcmp's sign is antisymmetric. */
  lemma {:induction false} MemCmpSwap(x: seq<bv8>, y: seq<bv8>, n: nat)
    requires n <= |x| && n <= |y|
    ensures MemCmp(y, x, n) == -MemCmp(x, y, n)
    decreases n
  {
    if n > 0 && x[0] == y[0] {
      MemCmpSwap(x[1..], y[1..], n - 1);
    }
  }

  /** x and y agree on their first k bytes and x has the smaller byte at position k. */
  ghost predicate LessAt(x: seq<bv8>, y: seq<bv8>, k: int) {
    0 <= k < |x| && k < |y| && x[..k] == y[..k] && x[k] < y[k]
  }

  /** A first difference in x's favour shifts by one position when a common first byte is dropped. */
  lemma LessAtShift(x: seq<bv8>, y: seq<bv8>, k: nat)
    requires 0 < |x| && 0 < |y| && x[0] == y[0]
    ensures LessAt(x, y, k + 1) <==> LessAt(x[1..], y[1..], k)
  {
    if k + 1 < |x| && k + 1 < |y| {
      assert x[..k + 1] == [x[0]] + x[1..][..k];
      assert y[..k + 1] == [y[0]] + y[1..][..k];
    }
  }

  /** memcmp is negative exactly when the first difference in the first `n` bytes has the smaller byte in `x`. */
  lemma {:induction false} MemCmpNegative(x: seq<bv8>, y: seq<bv8>, n: nat)
    requires n <= |x| && n <= |y|
    ensures MemCmp(x, y, n) < 0 <==> exists k :: 0 <= k < n && LessAt(x, y, k)
    decreases n
  {
    if n == 0 {
    } else if x[0] < y[0] {
      assert LessAt(x, y, 0);
    } else if x[0] > y[0] {
      forall k | 0 <= k < n
        ensures !LessAt(x, y, k)
      {
        if 0 < k < |x| && k < |y| {
          assert x[..k][0] == x[0];
        }
      }
    } else {
      MemCmpNegative(x[1..], y[1..], n - 1);
      if MemCmp(x, y, n) < 0 {
        var k :| 0 <= k < n - 1 && LessAt(x[1..], y[1..], k);
        LessAtShift(x, y, k);
      }
      if exists k :: 0 <= k < n && LessAt(x, y, k) {
        var k :| 0 <= k < n && LessAt(x, y, k);
        assert k > 0;
        LessAtShift(x, y, k - 1);
      }
    }
  }

  /** `o + |x|` bytes of `b` with positions [o, o + |x|) replaced by `x`. */
  function Overwrite(b: seq<bv8>, o: nat, x: seq<bv8>): (r: seq<bv8>)
    requires o + |x| <= |b|
    ensures |r| == |b| && r[o..o + |x|] == x
    ensures forall i :: 0 <= i < |b| && !(o <= i < o + |x|) ==> r[i] == b[i]
  {
    b[..o] + x + b[o + |x|..]
  }

  /** memcpy(dst + o, src, |src|). */
  method MemCpy(dst: array<bv8>, o: nat, src: seq<bv8>)
    requires o + |src| <= dst.Length
    modifies dst
    ensures dst[..] == Overwrite(old(dst[..]), o, src)
  {
    forall i | o <= i < o + |src| {
      dst[i] := src[i - o];
    }
    assert dst[..] == Overwrite(old(dst[..]), o, src);
  }

  /** Writing `x` and then `y` right after it is writing `x + y`: the cursor pattern of append. */
  lemma OverwriteAdjacent(b: seq<bv8>, o: nat, x: seq<bv8>, y: seq<bv8>)
    requires o + |x| + |y| <= |b|
    ensures Overwrite(Overwrite(b, o, x), o + |x|, y) == Overwrite(b, o, x + y)
  {
    var lhs := Overwrite(Overwrite(b, o, x), o + |x|, y);
    var rhs := Overwrite(b, o, x + y);
    forall i | 0 <= i < |b| ensures lhs[i] == rhs[i] {
      if o <= i < o + |x| {
        assert lhs[i] == Overwrite(b, o, x)[i] == Overwrite(b, o, x)[o..o + |x|][i - o] == x[i - o];
        assert rhs[i] == rhs[o..o + |x| + |y|][i - o] == (x + y)[i - o];
      } else if o + |x| <= i < o + |x| + |y| {
        assert lhs[i] == lhs[o + |x|..o + |x| + |y|][i - o - |x|] == y[i - o - |x|];
        assert rhs[i] == rhs[o..o + |x| + |y|][i - o] == (x + y)[i - o];
      }
    }
  }
}

/**
 * The Python `bytes` operations the request parser is built from, with
 * Python's own semantics: `find` with a start offset, slicing with bounds
 * that may be negative (`s[a:-1]`), `isdigit`, `int(...)` on a digit
 * string, `str(n)` and `lower()`.
 */
module PyBytes {

  newtype byte = b: int | 0 <= b < 256

  /** The bytes of an ASCII literal, as `b'...'` (or an ASCII `str` sent on a socket) gives them. */
  function Ascii(s: string): seq<byte>
  {
    seq(|s|, i requires 0 <= i < |s| => (s[i] as int % 256) as byte)
  }

  // ---------------------------------------------------------------------------
  // find

  /** `sub` occurs in `s` at offset `i`. */
  predicate OccursAt(s: seq<byte>, sub: seq<byte>, i: nat)
  {
    i + |sub| <= |s| && s[i..i + |sub|] == sub
  }

  /** `k` is the first offset at or after `start` where `sub` occurs in `s`. */
  predicate FirstFrom(s: seq<byte>, sub: seq<byte>, start: nat, k: nat)
  {
    start <= k && OccursAt(s, sub, k) && forall i :: start <= i < k ==> !OccursAt(s, sub, i)
  }

  /** `sub` does not occur in `s` at or after `start`. */
  ghost predicate NoneFrom(s: seq<byte>, sub: seq<byte>, start: nat)
  {
    forall i :: start <= i ==> !OccursAt(s, sub, i)
  }

  /**
   * `s.find(sub, start)`: the lowest offset at or after `start` where `sub`
   * occurs, or -1 when there is none.
   */
  function Find(s: seq<byte>, sub: seq<byte>, start: nat): (r: int)
    ensures r == -1 <==> NoneFrom(s, sub, start)
    ensures r != -1 ==> r >= 0 && FirstFrom(s, sub, start, r)
    decreases |s| - start
  {
    if start + |sub| > |s| then -1
    else if OccursAt(s, sub, start) then start
    else Find(s, sub, start + 1)
  }

  /** A piece of the slice `s[lo..hi]` is the same piece of `s`, shifted by `lo`. */
  lemma SliceOfSlice(s: seq<byte>, lo: nat, hi: nat, i: nat, n: nat)
    requires lo <= hi <= |s| && i + n <= hi - lo
    ensures s[lo..hi][i..i + n] == s[lo + i..lo + i + n]
  {
    var a, b := s[lo..hi][i..i + n], s[lo + i..lo + i + n];
    forall k | 0 <= k < n
      ensures a[k] == b[k]
    {
    }
  }

  /** When `sub` does not occur in the suffix `s[lo..]`, it does not occur in `s` at or after `lo`. */
  lemma NoneFromSuffix(s: seq<byte>, sub: seq<byte>, lo: nat)
    requires lo <= |s| && NoneFrom(s[lo..], sub, 0)
    ensures NoneFrom(s, sub, lo)
  {
    forall i | lo <= i
      ensures !OccursAt(s, sub, i)
    {
      if i + |sub| <= |s| {
        SliceOfSlice(s, lo, |s|, i - lo, |sub|);
        assert s[lo..|s|] == s[lo..];
        assert !OccursAt(s[lo..], sub, i - lo);
      }
    }
  }

  /** Whatever `find` is asked, the first occurrence is the answer. */
  lemma FindFirst(s: seq<byte>, sub: seq<byte>, start: nat, k: nat)
    requires FirstFrom(s, sub, start, k)
    ensures Find(s, sub, start) == k
  {
    var r := Find(s, sub, start);
    assert r != -1;
    assert !(r < k) && !(k < r);
  }

  // ---------------------------------------------------------------------------
  // slicing

  /** Python's normalisation of one slice bound against a length `n`. */
  function SliceBound(i: int, n: nat): (b: nat)
    ensures b <= n
  {
    if i < 0 then (if i + n < 0 then 0 else i + n)
    else if i > n then n
    else i
  }

  /** `s[lo:hi]`: negative bounds count from the end, out-of-range bounds are clamped. */
  function Slice(s: seq<byte>, lo: int, hi: int): (r: seq<byte>)
    ensures |r| <= |s|
  {
    var a, b := SliceBound(lo, |s|), SliceBound(hi, |s|);
    if a < b then s[a..b] else []
  }

  /** A slice whose bounds are in range is the plain subsequence. */
  lemma SliceWithin(s: seq<byte>, lo: nat, hi: nat)
    requires lo <= hi <= |s|
    ensures Slice(s, lo, hi) == s[lo..hi]
  {
  }

  /** `s[lo:-1]` stops one byte before the end, and is empty when that is not after `lo`. */
  lemma SliceToMinusOne(s: seq<byte>, lo: nat)
    requires lo <= |s|
    ensures Slice(s, lo, -1) == if lo < |s| - 1 then s[lo..|s| - 1] else []
  {
  }

  // ---------------------------------------------------------------------------
  // isdigit, int(...) and str(...)

  predicate IsDigitByte(b: byte)
  {
    48 <= b <= 57
  }

  predicate AllDigits(s: seq<byte>)
  {
    forall i :: 0 <= i < |s| ==> IsDigitByte(s[i])
  }

  /**
   * `s.isdigit()`: true exactly for a non-empty run of ASCII digits, so a
   * sign or a blank, which `int` would accept, makes it false.
   */
  predicate IsDigits(s: seq<byte>): (b: bool)
    ensures b ==> |s| > 0
    ensures b ==> forall i :: 0 <= i < |s| ==> s[i] != 45 && s[i] != 43 && s[i] != 32
  {
    |s| > 0 && AllDigits(s)
  }

  function Pow10(n: nat): nat
  {
    if n == 0 then 1 else 10 * Pow10(n - 1)
  }

  /**
   * `int(s)` for a run of ASCII digits; leading zeros are allowed, and a run
   * of `k` digits is worth less than `10^k`.
   */
  function DecimalValue(s: seq<byte>): (r: nat)
    requires AllDigits(s)
    ensures r < Pow10(|s|)
    decreases |s|
  {
    if s == [] then 0 else DecimalValue(s[..|s| - 1]) * 10 + (s[|s| - 1] - 48) as int
  }

  /** `str(n)` for a natural number, as ASCII bytes: canonical decimal that `int` reads back as `n`. */
  function FormatDecimal(n: nat): (r: seq<byte>)
    ensures IsDigits(r)
    ensures DecimalValue(r) == n
    ensures r[0] == 48 ==> r == [48]
    decreases n
  {
    if n < 10 then [(48 + n) as byte]
    else
      var r := FormatDecimal(n / 10) + [(48 + n % 10) as byte];
      assert r[..|r| - 1] == FormatDecimal(n / 10);
      r
  }

  /** A digit run that does not start with a zero has a positive value. */
  lemma {:induction false} LeadingDigitPositive(s: seq<byte>)
    requires IsDigits(s) && s[0] != 48
    ensures DecimalValue(s) >= 1
    decreases |s|
  {
    if |s| > 1 {
      LeadingDigitPositive(s[..|s| - 1]);
    }
  }

  /** Every canonical digit run is what `str` prints for its value. */
  lemma {:induction false} FormatDecimalOfValue(s: seq<byte>)
    requires IsDigits(s) && (s[0] != 48 || |s| == 1)
    ensures FormatDecimal(DecimalValue(s)) == s
    decreases |s|
  {
    if |s| == 1 {
      assert s == [s[0]];
    } else {
      var p := s[..|s| - 1];
      LeadingDigitPositive(p);
      FormatDecimalOfValue(p);
      assert s == p + [s[|s| - 1]];
    }
  }

  // ---------------------------------------------------------------------------
  // lower()

  predicate IsUpper(b: byte)
  {
    65 <= b <= 90
  }

  function LowerByte(b: byte): byte
  {
    if IsUpper(b) then b + 32 else b
  }

  /** `s.lower()` on bytes: only the ASCII letters `A`-`Z` change. */
  function Lower(s: seq<byte>): (r: seq<byte>)
    ensures |r| == |s|
    ensures forall i :: 0 <= i < |r| ==> !IsUpper(r[i])
    ensures forall i :: 0 <= i < |s| && !IsUpper(s[i]) ==> r[i] == s[i]
    ensures forall i :: 0 <= i < |s| && IsUpper(s[i]) ==> 97 <= r[i] <= 122 && r[i] - 97 == s[i] - 65
  {
    seq(|s|, i requires 0 <= i < |s| => LowerByte(s[i]))
  }

  /** Bytes with no upper-case letter are left alone by `lower()`. */
  lemma LowerKeeps(s: seq<byte>)
    requires forall i :: 0 <= i < |s| ==> !IsUpper(s[i])
    ensures Lower(s) == s
  {
  }

  /**
   * Any spelling of a lower-case text that differs from it only in the case
   * of its letters is lowered to that text.
   */
  lemma LowerCaseVariant(s: seq<byte>, t: seq<byte>)
    requires |s| == |t|
    requires forall i :: 0 <= i < |t| ==> !IsUpper(t[i])
    requires forall i :: 0 <= i < |s| ==> s[i] == t[i] || (97 <= t[i] <= 122 && s[i] as int == t[i] as int - 32)
    ensures Lower(s) == t
  {
  }

  /** `lower()` is idempotent. */
  lemma LowerIdempotent(s: seq<byte>)
    ensures Lower(Lower(s)) == Lower(s)
  {
    LowerKeeps(Lower(s));
  }
}

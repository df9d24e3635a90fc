/**
 * `binascii.hexlify`: the lower-case hexadecimal text of a byte string, two
 * digits per byte with the high nibble first, and its inverse
 * `binascii.unhexlify`, which serves here as the reference the encoding is
 * checked against.
 */
module Hex {
  import opened Options
  import opened PyBytes

  predicate IsLowerHexDigit(c: byte)
  {
    48 <= c <= 57 || 97 <= c <= 102
  }

  /** The lower-case hex digit for a nibble. */
  function HexDigit(n: nat): (c: byte)
    requires n < 16
    ensures IsLowerHexDigit(c)
  {
    if n < 10 then (48 + n) as byte else (87 + n) as byte
  }

  /** The nibble a hex digit stands for; `unhexlify` accepts both cases. */
  function NibbleValue(c: byte): Option<nat>
  {
    if 48 <= c <= 57 then Some(c as int - 48)
    else if 97 <= c <= 102 then Some(c as int - 87)
    else if 65 <= c <= 70 then Some(c as int - 55)
    else None
  }

  /** `binascii.hexlify(d)`: twice as long as `d`, made of `0-9a-f` only. */
  function Hexlify(d: seq<byte>): (h: seq<byte>)
    ensures |h| == 2 * |d|
    ensures forall i :: 0 <= i < |h| ==> IsLowerHexDigit(h[i])
  {
    if d == [] then []
    else [HexDigit(d[0] as int / 16), HexDigit(d[0] as int % 16)] + Hexlify(d[1..])
  }

  /** `binascii.unhexlify(h)`; `None` where Python raises (odd length, a non-hex digit). */
  function Unhexlify(h: seq<byte>): Option<seq<byte>>
    decreases |h|
  {
    if h == [] then Some([])
    else if |h| == 1 then None
    else
      match (NibbleValue(h[0]), NibbleValue(h[1]), Unhexlify(h[2..]))
      case (Some(hi), Some(lo), Some(rest)) =>
        if hi * 16 + lo < 256 then Some([(hi * 16 + lo) as byte] + rest) else None
      case _ => None
  }

  /** Decoding the hex text gives back the digest: the encoding loses nothing. */
  lemma {:induction false} UnhexlifyHexlify(d: seq<byte>)
    ensures Unhexlify(Hexlify(d)) == Some(d)
  {
    if d != [] {
      var h := Hexlify(d);
      assert h[2..] == Hexlify(d[1..]);
      UnhexlifyHexlify(d[1..]);
      assert [d[0]] + d[1..] == d;
    }
  }

  /** Two digests with the same hex text are the same digest. */
  lemma HexlifyInjective(a: seq<byte>, b: seq<byte>)
    requires Hexlify(a) == Hexlify(b)
    ensures a == b
  {
    UnhexlifyHexlify(a);
    UnhexlifyHexlify(b);
  }

  /** `hexlify(...).lower()` is `hexlify(...)`: the text is already lower-case. */
  lemma LowerHexlify(d: seq<byte>)
    ensures Lower(Hexlify(d)) == Hexlify(d)
  {
    var h := Hexlify(d);
    forall i | 0 <= i < |h|
      ensures !IsUpper(h[i])
    {
    }
    LowerKeeps(h);
  }
}

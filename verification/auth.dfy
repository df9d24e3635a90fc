/**
 * The authentication stages. Each stage reads one header; every stage but
 * the last feeds that header's raw bytes into a shared SHA-256 object before
 * judging the value, and the last feeds the shared secret and compares the
 * hex digest with the `x-hash` header. SHA-256 itself is a parameter: the
 * model fixes which bytes are hashed and in what order, not the algorithm.
 */
module Auth {
  import opened Options
  import opened PyBytes
  import opened Hex
  import opened Request
  import opened Pins

  const HEADER_PIN: seq<byte> := Ascii("x-pin: ")
  const HEADER_STATE: seq<byte> := Ascii("x-state: ")
  const HEADER_TIME: seq<byte> := Ascii("x-time: ")
  const HEADER_HASH: seq<byte> := Ascii("x-hash: ")
  const PIN_ID_LED_BINARY: seq<byte> := Ascii("led")

  /**
   * A `hashlib.sha256()` object: the digest it gives is the hash function
   * applied to everything fed to `update` so far.
   */
  class HashAccumulator {
    const sha256: seq<byte> -> seq<byte>
    var fed: seq<byte>

    constructor (sha256: seq<byte> -> seq<byte>)
      ensures this.sha256 == sha256 && fed == []
    {
      this.sha256 := sha256;
      fed := [];
    }

    method Update(data: seq<byte>)
      modifies this
      ensures fed == old(fed) + data
    {
      fed := fed + data;
    }

    function Digest(): seq<byte>
      reads this
    {
      sha256(fed)
    }
  }

  /** The bytes a header contributes to the hash: its raw value, or nothing when absent. */
  function Fed(header: Option<seq<byte>>): seq<byte>
  {
    match header
    case None => []
    case Some(v) => v
  }

  // ---------------------------------------------------------------------------
  // X-Pin

  /** The pin an `x-pin` value names: `led`, or a digit run whose value is at most 22. */
  function ParsePin(v: seq<byte>): (p: Option<PinId>)
    ensures p == Some(Led) <==> v == PIN_ID_LED_BINARY
    ensures p.Some? && p.value.Gpio? <==> IsDigits(v) && DecimalValue(v) <= PIN_ID_MAX
    ensures p.Some? && p.value.Gpio? ==> p.value.n == DecimalValue(v)
    ensures p.Some? ==> ValidPin(p.value)
  {
    assert !IsDigits(PIN_ID_LED_BINARY) by {
      assert !IsDigitByte(PIN_ID_LED_BINARY[0]);
    }
    if v == PIN_ID_LED_BINARY then Some(Led)
    else if IsDigits(v) then
      var n := DecimalValue(v);
      if n < PIN_ID_MIN || n > PIN_ID_MAX then None else Some(Gpio(n))
    else None
  }

  /** What `GetPin` returns for the header lookup it makes. */
  function PinFrom(header: Option<seq<byte>>): Option<PinId>
  {
    match header
    case None => None
    case Some(v) => ParsePin(v)
  }

  /** A client that writes the pin number with `str` is understood, for every pin 0 to 22. */
  lemma ParsePinFormatted(n: nat)
    requires n <= PIN_ID_MAX
    ensures ParsePin(FormatDecimal(n)) == Some(Gpio(n))
  {
  }

  /** Leading zeros are accepted: `007` names GPIO 7. */
  lemma ParsePinLeadingZeros(n: nat, zeros: nat)
    requires n <= PIN_ID_MAX
    ensures ParsePin(seq(zeros, _ => 48 as byte) + FormatDecimal(n)) == Some(Gpio(n))
  {
    ZerosPrefixValue(zeros, FormatDecimal(n));
  }

  lemma {:induction false} ZerosPrefixValue(zeros: nat, s: seq<byte>)
    requires IsDigits(s)
    ensures IsDigits(seq(zeros, _ => 48 as byte) + s)
    ensures DecimalValue(seq(zeros, _ => 48 as byte) + s) == DecimalValue(s)
    decreases |s|
  {
    var z := seq(zeros, _ => 48 as byte);
    var t := z + s;
    if |s| == 1 {
      assert t[..|t| - 1] == z;
      ZerosValue(zeros);
    } else {
      ZerosPrefixValue(zeros, s[..|s| - 1]);
      assert t[..|t| - 1] == z + s[..|s| - 1];
    }
  }

  lemma {:induction false} ZerosValue(zeros: nat)
    ensures AllDigits(seq(zeros, _ => 48 as byte))
    ensures DecimalValue(seq(zeros, _ => 48 as byte)) == 0
  {
    if zeros > 0 {
      ZerosValue(zeros - 1);
      assert seq(zeros, _ => 48 as byte)[..zeros - 1] == seq(zeros - 1, _ => 48 as byte);
    }
  }

  /**
   * `GetPin`: when the header is present its raw value is fed to the hash
   * before it is judged, so a rejected value is hashed too; when it is absent
   * nothing is fed.
   */
  method GetPin(request: seq<byte>, sha256: HashAccumulator) returns (pinId: Option<PinId>)
    modifies sha256
    ensures sha256.fed == old(sha256.fed) + Fed(GetHeader(HEADER_PIN, request))
    ensures pinId == PinFrom(GetHeader(HEADER_PIN, request))
  {
    var header := GetHeader(HEADER_PIN, request);
    if header.None? {
      return None;
    }
    sha256.Update(header.value);
    pinId := ParsePin(header.value);
  }

  // ---------------------------------------------------------------------------
  // X-State

  /** `GetPinState`: any present value is fed to the hash and returned as it is. */
  method GetPinState(request: seq<byte>, sha256: HashAccumulator) returns (pinState: Option<seq<byte>>)
    modifies sha256
    ensures pinState == GetHeader(HEADER_STATE, request)
    ensures sha256.fed == old(sha256.fed) + Fed(pinState)
  {
    pinState := GetHeader(HEADER_STATE, request);
    if pinState.None? {
      return;
    }
    sha256.Update(pinState.value);
  }

  // ---------------------------------------------------------------------------
  // X-Time

  /**
   * An `x-time` value is fresh when it is a digit run `t` with
   * `now - t <= maxTtl`; a timestamp in the future is never refused.
   */
  predicate TimeFresh(v: seq<byte>, now: int, maxTtl: int)
  {
    IsDigits(v) && now - DecimalValue(v) <= maxTtl
  }

  /** What `ValidateRequestTime` decides for the header lookup it makes. */
  predicate TimeHeaderFresh(header: Option<seq<byte>>, now: int, maxTtl: int)
  {
    header.Some? && TimeFresh(header.value, now, maxTtl)
  }

  /** A timestamp written with `str` is fresh exactly when it is at most `maxTtl` seconds old. */
  lemma FormattedTimeFresh(t: nat, now: int, maxTtl: int)
    ensures TimeFresh(FormatDecimal(t), now, maxTtl) <==> now - t <= maxTtl
  {
  }

  /** With a non-negative window, every timestamp at or after `now` passes. */
  lemma FutureTimeAccepted(v: seq<byte>, now: int, maxTtl: int)
    requires IsDigits(v) && DecimalValue(v) >= now && maxTtl >= 0
    ensures TimeFresh(v, now, maxTtl)
  {
  }

  /** `ValidateRequestTime`: the raw value is fed to the hash before the digit check. */
  method ValidateRequestTime(request: seq<byte>, sha256: HashAccumulator, now: int, maxTtl: int)
    returns (ok: bool)
    modifies sha256
    ensures sha256.fed == old(sha256.fed) + Fed(GetHeader(HEADER_TIME, request))
    ensures ok <==> TimeHeaderFresh(GetHeader(HEADER_TIME, request), now, maxTtl)
  {
    var requestTime := GetHeader(HEADER_TIME, request);
    if requestTime.None? {
      return false;
    }
    sha256.Update(requestTime.value);
    if !IsDigits(requestTime.value) {
      return false;
    }
    var t := DecimalValue(requestTime.value);
    if now - t > maxTtl {
      return false;
    }
    return true;
  }

  // ---------------------------------------------------------------------------
  // X-Hash

  /** `binascii.hexlify(digest).lower()` for the digest of `input`. */
  function ExpectedHash(sha256: seq<byte> -> seq<byte>, input: seq<byte>): (h: seq<byte>)
    ensures |h| == 2 * |sha256(input)|
    ensures forall i :: 0 <= i < |h| ==> IsLowerHexDigit(h[i])
    ensures Unhexlify(h) == Some(sha256(input))
  {
    LowerHexlify(sha256(input));
    UnhexlifyHexlify(sha256(input));
    Lower(Hexlify(sha256(input)))
  }

  /** What `ValidateHash` decides: the `x-hash` header is present and is the expected hex digest. */
  predicate HashHeaderMatches(header: Option<seq<byte>>, sha256: seq<byte> -> seq<byte>, input: seq<byte>)
  {
    header == Some(ExpectedHash(sha256, input))
  }

  /**
   * `ValidateHash`: with no `x-hash` header nothing is fed and the request
   * fails; otherwise the secret is fed last and the header must equal the
   * lower-case hex digest of everything fed.
   */
  method ValidateHash(request: seq<byte>, sha256: HashAccumulator, secret: seq<byte>)
    returns (ok: bool)
    modifies sha256
    ensures sha256.fed == old(sha256.fed) + (if GetHeader(HEADER_HASH, request).None? then [] else secret)
    ensures ok <==> HashHeaderMatches(GetHeader(HEADER_HASH, request), sha256.sha256, old(sha256.fed) + secret)
  {
    var requestHash := GetHeader(HEADER_HASH, request);
    if requestHash.None? {
      return false;
    }
    sha256.Update(secret);
    var computedHash := Lower(Hexlify(sha256.Digest()));
    if requestHash.value != computedHash {
      return false;
    }
    return true;
  }
}

/**
 * One turn of the serve loop, from the received buffer to the bytes sent
 * back: lower-case the buffer, then check the endpoint, the pin, the state
 * (POST only), the time and the hash, stopping at the first failure with a
 * `422` that names the failed stage; on success, set the pin (POST, `204`)
 * or report its state (GET, `200`).
 */
module Server {
  import opened Options
  import opened PyBytes
  import opened Request
  import opened Pins
  import opened Auth
  import opened Responses

  const MSG_URI: seq<byte> := Ascii("Invalid URI and/or method")
  const MSG_PIN: seq<byte> := Ascii("Invalid X-Pin header, ignoring request")
  const MSG_STATE: seq<byte> := Ascii("Invalid X-State header, ignoring request")
  const MSG_TIME: seq<byte> := Ascii("Invalid X-Time header, ignoring request")
  const MSG_HASH: seq<byte> := Ascii("Invalid X-Hash header, ignoring request")

  /** The settings the serve loop reads: `SHARED_SECRET`, `MAX_TTL` and `RESTORE_ON_BOOT`. */
  datatype Settings = Settings(sharedSecret: seq<byte>, maxTtl: int, restoreOnBoot: bool)

  /** The response to one request and the board it leaves behind. */
  datatype Outcome = Outcome(response: Response, board: BoardState)

  /**
   * The bytes hashed for a request, in the order the stages feed them: the
   * pin value, the state value (POST only), the time value, then the secret.
   */
  function HashInput(m: Method, request: seq<byte>, secret: seq<byte>): seq<byte>
  {
    Fed(GetHeader(HEADER_PIN, request))
    + (if m == Post then Fed(GetHeader(HEADER_STATE, request)) else [])
    + Fed(GetHeader(HEADER_TIME, request))
    + secret
  }

  /** The result of the authentication stages: the first failure's message, or the pin and state to act on. */
  datatype Verdict = Refused(message: seq<byte>) | Authorised(pinId: PinId, pinState: Option<seq<byte>>)

  /**
   * The authentication stages in order: pin, state (POST only), time, hash.
   * The first that fails decides the message.
   */
  function Authorisation(request: seq<byte>, m: Method, now: int, settings: Settings,
                         sha256: seq<byte> -> seq<byte>): (v: Verdict)
    ensures v.Authorised? ==> v.pinState == (if m == Post then GetHeader(HEADER_STATE, request) else None)
    ensures v.Authorised? && m == Post ==> v.pinState.Some?
  {
    var pinId := PinFrom(GetHeader(HEADER_PIN, request));
    var pinState := if m == Post then GetHeader(HEADER_STATE, request) else None;
    if pinId.None? then Refused(MSG_PIN)
    else if m == Post && pinState.None? then Refused(MSG_STATE)
    else if !TimeHeaderFresh(GetHeader(HEADER_TIME, request), now, settings.maxTtl) then Refused(MSG_TIME)
    else if !HashHeaderMatches(GetHeader(HEADER_HASH, request), sha256,
                               HashInput(m, request, settings.sharedSecret)) then Refused(MSG_HASH)
    else Authorised(pinId.value, pinState)
  }

  /** The decision the serve loop takes for one lower-cased request. */
  function RequestOutcome(request: seq<byte>, now: int, settings: Settings,
                          sha256: seq<byte> -> seq<byte>, board: BoardState): (r: Outcome)
    ensures !ValidateEndPoint(request) ==> r == Outcome(Unprocessable(MSG_URI), board)
    ensures r.board != board ==> GetMethod(request) == Some(Post) && r.response == NoContent
    ensures r.response.Content? ==> GetMethod(request) == Some(Get) && r.board == board
  {
    if !ValidateEndPoint(request) then Outcome(Unprocessable(MSG_URI), board)
    else
      var m := GetMethod(request).value;
      Act(m, Authorisation(request, m, now, settings, sha256), settings, board)
  }

  /** What the serve loop does once the stages have judged a request with method `m`. */
  function Act(m: Method, verdict: Verdict, settings: Settings, board: BoardState): (r: Outcome)
    requires verdict.Authorised? && m == Post ==> verdict.pinState.Some?
    ensures r.response.Unprocessable? <==> verdict.Refused?
    ensures r.board != board ==> m == Post && verdict.Authorised?
    ensures verdict.Authorised? ==> (r.response.NoContent? <==> m == Post)
  {
    match verdict
    case Refused(message) => Outcome(Unprocessable(message), board)
    case Authorised(pinId, pinState) =>
      if m == Post then
        Outcome(NoContent, Driven(board, pinId, pinState.value, settings.restoreOnBoot))
      else
        Outcome(Content(GetCurrentPinState(board, pinId)), board)
  }

  /**
   * The authentication stages of the serve loop, run with a fresh SHA-256
   * object that each stage feeds before it judges its header.
   */
  method Authenticate(request: seq<byte>, httpMethod: Method, now: int, settings: Settings,
                      sha256: seq<byte> -> seq<byte>)
    returns (verdict: Verdict)
    ensures verdict == Authorisation(request, httpMethod, now, settings, sha256)
  {
    var hash := new HashAccumulator(sha256);
    var pinId := GetPin(request, hash);
    if pinId.None? {
      return Refused(MSG_PIN);
    }
    assert hash.fed == Fed(GetHeader(HEADER_PIN, request));
    var pinState: Option<seq<byte>> := None;
    if httpMethod == Post {
      pinState := GetPinState(request, hash);
      if pinState.None? {
        return Refused(MSG_STATE);
      }
    }
    assert hash.fed == Fed(GetHeader(HEADER_PIN, request))
                       + (if httpMethod == Post then Fed(GetHeader(HEADER_STATE, request)) else []);
    var timeOk := ValidateRequestTime(request, hash, now, settings.maxTtl);
    if !timeOk {
      return Refused(MSG_TIME);
    }
    assert hash.fed + settings.sharedSecret == HashInput(httpMethod, request, settings.sharedSecret);
    var hashOk := ValidateHash(request, hash, settings.sharedSecret);
    if !hashOk {
      return Refused(MSG_HASH);
    }
    return Authorised(pinId.value, pinState);
  }

  /**
   * The body of the serve loop for one connection: `received` is what
   * `recv` returned, and the result is what is sent before the connection
   * is closed.
   */
  method HandleRequest(received: seq<byte>, now: int, settings: Settings,
                       sha256: seq<byte> -> seq<byte>, board: Board)
    returns (sent: seq<byte>)
    modifies board
    ensures var out := RequestOutcome(Lower(received), now, settings, sha256, old(board.State()));
            sent == Wire(out.response) && board.State() == out.board
  {
    var request := Lower(received);
    if !ValidateEndPoint(request) {
      return RespondError(MSG_URI);
    }
    var httpMethod := GetMethod(request).value;
    var verdict := Authenticate(request, httpMethod, now, settings, sha256);
    sent := Respond(httpMethod, verdict, settings, board);
  }

  /** The end of the serve loop's body: answer a refusal, or act on an authorised request. */
  method Respond(httpMethod: Method, verdict: Verdict, settings: Settings, board: Board)
    returns (sent: seq<byte>)
    requires verdict.Authorised? && httpMethod == Post ==> verdict.pinState.Some?
    modifies board
    ensures var out := Act(httpMethod, verdict, settings, old(board.State()));
            sent == Wire(out.response) && board.State() == out.board
  {
    if verdict.Refused? {
      return RespondError(verdict.message);
    }
    if httpMethod == Post {
      board.SetPin(verdict.pinId, verdict.pinState.value, settings.restoreOnBoot);
      sent := RespondNoContent();
    } else {
      var value := GetCurrentPinState(board.State(), verdict.pinId);
      sent := RespondContent(value);
    }
  }

  // ---------------------------------------------------------------------------
  // What the decision guarantees

  /** A refused request changes no pin and no restore record. */
  lemma RefusalLeavesBoard(request: seq<byte>, now: int, settings: Settings,
                           sha256: seq<byte> -> seq<byte>, board: BoardState)
    ensures RequestOutcome(request, now, settings, sha256, board).response.Unprocessable?
            ==> RequestOutcome(request, now, settings, sha256, board).board == board
  {
  }

  /**
   * The stages run in the order endpoint, pin, state (POST only), time,
   * hash, and the first that fails answers with its own message.
   */
  lemma StagesInOrder(request: seq<byte>, now: int, settings: Settings,
                      sha256: seq<byte> -> seq<byte>, board: BoardState)
    ensures var out := RequestOutcome(request, now, settings, sha256, board);
            var m := GetMethod(request);
            var pinId := PinFrom(GetHeader(HEADER_PIN, request));
            var pinState := GetHeader(HEADER_STATE, request);
            var time := GetHeader(HEADER_TIME, request);
            && (!ValidateEndPoint(request) ==> out.response == Unprocessable(MSG_URI))
            && (ValidateEndPoint(request) && pinId.None?
                ==> out.response == Unprocessable(MSG_PIN))
            && (ValidateEndPoint(request) && pinId.Some? && m == Some(Post) && pinState.None?
                ==> out.response == Unprocessable(MSG_STATE))
            && (ValidateEndPoint(request) && pinId.Some? && (m == Some(Post) ==> pinState.Some?)
                && !TimeHeaderFresh(time, now, settings.maxTtl)
                ==> out.response == Unprocessable(MSG_TIME))
  {
  }

  /**
   * Once the earlier stages pass, the request is accepted exactly when the
   * `x-hash` header is the hex SHA-256 of the pin value, the state value
   * (POST only), the time value and the shared secret, in that order.
   */
  lemma AcceptedExactlyWithTag(request: seq<byte>, now: int, settings: Settings,
                               sha256: seq<byte> -> seq<byte>, board: BoardState,
                               m: Method, pinValue: seq<byte>, timeValue: seq<byte>)
    requires ValidateEndPoint(request) && GetMethod(request) == Some(m)
    requires GetHeader(HEADER_PIN, request) == Some(pinValue) && ParsePin(pinValue).Some?
    requires m == Post ==> GetHeader(HEADER_STATE, request).Some?
    requires GetHeader(HEADER_TIME, request) == Some(timeValue)
    requires TimeFresh(timeValue, now, settings.maxTtl)
    ensures var stateValue := if m == Post then GetHeader(HEADER_STATE, request).value else [];
            var tag := ExpectedHash(sha256, pinValue + stateValue + timeValue + settings.sharedSecret);
            (!RequestOutcome(request, now, settings, sha256, board).response.Unprocessable?
             <==> GetHeader(HEADER_HASH, request) == Some(tag))
            && (GetHeader(HEADER_HASH, request) != Some(tag)
                ==> RequestOutcome(request, now, settings, sha256, board).response == Unprocessable(MSG_HASH))
  {
  }

  /**
   * An accepted POST answers `204`, drives the named pin high exactly when
   * `x-state` is `on`, keeps its restore record in step when restore-on-boot
   * is enabled, and changes no other pin or record.
   */
  lemma AcceptedPostSetsPin(request: seq<byte>, now: int, settings: Settings,
                            sha256: seq<byte> -> seq<byte>, board: BoardState, p: PinId)
    requires GetMethod(request) == Some(Post)
    requires PinFrom(GetHeader(HEADER_PIN, request)) == Some(p)
    requires !RequestOutcome(request, now, settings, sha256, board).response.Unprocessable?
    ensures var out := RequestOutcome(request, now, settings, sha256, board);
            var on := GetHeader(HEADER_STATE, request) == Some(STATE_ON);
            && out.response == NoContent
            && (High(out.board, p) <==> on)
            && (settings.restoreOnBoot ==> (p in out.board.records <==> on))
            && (!settings.restoreOnBoot ==> out.board.records == board.records)
            && (forall q :: q != p ==> (High(out.board, q) <==> High(board, q)))
            && (forall q :: q != p ==> (q in out.board.records <==> q in board.records))
  {
  }

  /**
   * An accepted GET answers `200` with `on` when the named pin is high and
   * `off` otherwise, and leaves the board as it was.
   */
  lemma AcceptedGetReportsPin(request: seq<byte>, now: int, settings: Settings,
                              sha256: seq<byte> -> seq<byte>, board: BoardState, p: PinId)
    requires GetMethod(request) == Some(Get)
    requires PinFrom(GetHeader(HEADER_PIN, request)) == Some(p)
    requires !RequestOutcome(request, now, settings, sha256, board).response.Unprocessable?
    ensures var out := RequestOutcome(request, now, settings, sha256, board);
            && out.response == Content(if High(board, p) then STATE_ON_STR else STATE_OFF_STR)
            && out.board == board
  {
  }

  /**
   * An accepted POST followed by an accepted GET on the same pin reads back
   * `on` exactly when the POST's `x-state` was `on`.
   */
  lemma PostThenGetReadsBack(post: seq<byte>, get: seq<byte>, postTime: int, getTime: int,
                             settings: Settings, sha256: seq<byte> -> seq<byte>,
                             board: BoardState, p: PinId)
    requires GetMethod(post) == Some(Post) && GetMethod(get) == Some(Get)
    requires PinFrom(GetHeader(HEADER_PIN, post)) == Some(p)
    requires PinFrom(GetHeader(HEADER_PIN, get)) == Some(p)
    requires !RequestOutcome(post, postTime, settings, sha256, board).response.Unprocessable?
    requires var after := RequestOutcome(post, postTime, settings, sha256, board).board;
             !RequestOutcome(get, getTime, settings, sha256, after).response.Unprocessable?
    ensures var after := RequestOutcome(post, postTime, settings, sha256, board).board;
            RequestOutcome(get, getTime, settings, sha256, after).response
            == Content(if GetHeader(HEADER_STATE, post) == Some(STATE_ON) then STATE_ON_STR else STATE_OFF_STR)
  {
    AcceptedPostSetsPin(post, postTime, settings, sha256, board, p);
    var after := RequestOutcome(post, postTime, settings, sha256, board).board;
    AcceptedGetReportsPin(get, getTime, settings, sha256, after, p);
  }
}

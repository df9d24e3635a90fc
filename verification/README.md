# Web switch request pipeline, modelled in Dafny

This project models the request-validation and pin-control core of a
MicroPython GPIO web switch (`app.py`). Clients switch or query output pins
with `POST /pins` or `GET /pins`. Each request carries four headers:
`x-pin`, `x-state` (POST only), `x-time` and `x-hash`. The server lower-cases
the received buffer and then checks five things in order: the request line,
the pin, the state, the freshness of the timestamp, and an authentication
tag. The tag is the lower-case hex SHA-256 of the raw header values followed
by a shared secret. The first check that fails is answered with `422` and a
reason. A request that passes every check either sets the pin (`204`) or
reports its level (`200`).

The model has these parts:

- `PyBytes` holds the Python byte-string operations the parser relies on, with Python's semantics:
  - `find` with a start offset;
  - slices whose bounds may be negative or clamped;
  - `isdigit`, `int`, `str` and `lower`.
- `Hex` models `binascii.hexlify`. Its inverse `unhexlify` serves as the reference it is checked against.
- `Request` models `GetHeader`, `GetMethod` and `ValidateEndPoint`. These are pure functions over the lower-cased buffer.
- `Pins` models the board as a value:
  - the level of each pin;
  - the set of pins with a restore-on-boot record.
  It also defines the class `Board`, whose `SetPin` method changes that state in place, and `GetCurrentPinState`.
- `Auth` models the authentication stages:
  - the `hashlib.sha256()` object, as the class `HashAccumulator`, with the bytes fed so far as its field;
  - the methods `GetPin`, `GetPinState`, `ValidateRequestTime` and `ValidateHash`, each of which feeds that object.
  The SHA-256 function itself is a parameter.
- `Responses` models the three answers and the bytes sent for each.
- `Server` models one turn of the serve loop:
  - `HandleRequest` is an imperative method over a `Board`;
  - the pure functions `Authorisation` and `RequestOutcome` state the decision;
  - the `ensures` of `HandleRequest`, `Authenticate` and `Respond` tie each method to those functions;
  - lemmas about the functions state what the decision guarantees.

Three facts about the code that the model keeps:

- There is one shared secret (`settings.SHARED_SECRET`, fed last at app.py:191), and no header selects among secrets.
- Each failing stage answers `422` with its own reason in the body.
- A timestamp at or after `now` is accepted, because app.py:214 refuses only timestamps older than `MAX_TTL`.

## Model

| member | source | states |
|---|---|---|
| PyBytes.Find | app.py:88-92 | `find(sub, start)` is -1 exactly when `sub` does not occur at or after `start`. Otherwise it is the first such offset. |
| PyBytes.FindFirst | app.py:88-92 | Whenever `k` is the first occurrence at or after `start`, `find` returns `k`. |
| PyBytes.Slice | app.py:93 | A slice is never longer than the buffer. |
| PyBytes.SliceWithin | app.py:93 | A slice with in-range bounds is the plain subsequence. |
| PyBytes.SliceToMinusOne | app.py:93 | `s[lo:-1]` stops one byte before the end. It is empty when that position is not after `lo`. |
| PyBytes.FormatDecimal | app.py:145 | `str(n)` is a non-empty digit run that `int` reads back as `n`, with no leading zero except for `0` itself. |
| PyBytes.LeadingDigitPositive | app.py:117-118 | A digit run whose first digit is not `0` has a positive value. |
| PyBytes.FormatDecimalOfValue | app.py:117-118 | A canonical digit run is exactly what `str` prints for its `int` value. This is the other half of the `str`/`int` round trip. |
| PyBytes.IsDigits | app.py:117 | `isdigit()` holds only for a non-empty buffer, and never for one holding a sign or a blank that `int` would accept. |
| PyBytes.DecimalValue | app.py:118 | `int` of a run of `k` digits is a natural number below `10^k`. |
| PyBytes.Lower | app.py:252 | `lower()` keeps the length. Each `A`-`Z` byte becomes the matching `a`-`z` byte, and every other byte stays as it is. |
| PyBytes.LowerCaseVariant | app.py:252 | Any upper- or mixed-case spelling of a lower-case text, such as `X-Pin: ` or `POST `, is lowered to that text. |
| PyBytes.LowerKeeps | app.py:252 | `lower()` leaves a buffer with no upper-case letter unchanged. |
| PyBytes.LowerIdempotent | app.py:252 | Lower-casing twice is the same as lower-casing once. |
| Hex.HexDigit | app.py:192 | Each nibble becomes a digit in `0-9a-f`. |
| Hex.Hexlify | app.py:192 | The hex text is twice as long as the digest and uses only `0-9a-f`. |
| Hex.UnhexlifyHexlify | app.py:192 | Decoding the hex text gives the digest back. |
| Hex.HexlifyInjective | app.py:192-195 | Two digests with the same hex text are equal, so comparing tags compares digests. |
| Hex.LowerHexlify | app.py:192 | The `.lower()` after `hexlify` changes nothing. |
| Request.GetHeader | app.py:87-95 | A found value is never longer than the buffer less the header name. |
| Request.HeaderAbsent | app.py:87-90 | The lookup gives None exactly when the header name does not occur anywhere in the buffer. |
| Request.HeaderValueHasNoCrlf | app.py:92-93 | A header value never contains a CRLF. It stops at the first CRLF after the name, or earlier through the `-1` slice. |
| Request.HeaderTerminated | app.py:87-95 | When a CRLF follows the first occurrence of the name, the value is exactly the bytes between the name and that CRLF. |
| Request.HeaderUnterminated | app.py:87-95 | When no CRLF follows the name, the value ends one byte before the end of the buffer. It is empty when that position is at or before the value's start. |
| Request.GetMethod | app.py:97-106 | The result is `post` exactly when the buffer starts with `post `. It is `get` exactly when the buffer starts with `get ` and not with `post `. It is None otherwise. |
| Request.ValidateEndPoint | app.py:171-174 | An accepted endpoint always has a recognised method. |
| Request.ValidateEndPointTarget | app.py:171-184 | The endpoint is accepted exactly when the method is recognised and the target from `len(method)+1` equals `/pins`. The target runs to the first ` http`, or, when there is none, to one byte before the end. |
| Request.MethodPrefix | app.py:97-106 | A buffer that starts with a method name and a space is recognised as that method. |
| Request.RequestLineDecides | app.py:171-184 | For a request line `<method> <path> http…` whose path has no space, the endpoint is accepted exactly when the path is `/pins`. A query string or a trailing slash is refused. |
| Request.MissingVersionAccepted | app.py:176-181 | Without a ` http` marker, `/pins` followed by any single final byte is accepted. |
| Pins.Driven | app.py:156-169 | After setting a pin, the pin is high exactly when the state is `on`. With restore-on-boot, its record exists exactly when the state is `on`; without it, the records do not change. No other pin and no other record changes. |
| Pins.GetCurrentPinState | app.py:80-85 | The result is `on` exactly when the pin is high, and `off` exactly when it is not. |
| Pins.ReadBackAfterDrive | app.py:156-169 | Reading a pin back after setting it gives `on` exactly when it was set with `on`. |
| Pins.DriveIdempotent | app.py:156-169 | Setting a pin twice to the same state is the same as setting it once. |
| Pins.Board.constructor | app.py:156-169 | A board starts in the state it is given. |
| Pins.Board.SetPin | app.py:156-169 | The board's new state is `Driven` of its old state. |
| Auth.HashAccumulator.constructor | app.py:263 | A fresh SHA-256 object has been fed nothing. |
| Auth.HashAccumulator.Update | app.py:113 | `update` appends its argument to the bytes fed so far. |
| Auth.ParsePin | app.py:115-124 | The value `led` names the LED. A non-empty digit run whose value is at most 22 names that GPIO pin. Every other value is refused. Every accepted pin is valid. |
| Auth.ParsePinFormatted | app.py:115-124 | `str(n)` is accepted for every pin number 0 to 22. |
| Auth.ParsePinLeadingZeros | app.py:117-118 | Leading zeros are accepted: `007` names GPIO 7. |
| Auth.ZerosPrefixValue | app.py:117-118 | Zeros in front of a digit run keep it a digit run and keep its value. |
| Auth.ZerosValue | app.py:117-118 | A run of zeros is all digits and has value 0. |
| Auth.GetPin | app.py:108-124 | A present `x-pin` value is fed to the hash before it is judged, and an absent one feeds nothing. The result is the parsed pin. |
| Auth.GetPinState | app.py:126-133 | The result is the `x-state` value, unchanged. That value, when present, is fed to the hash. |
| Auth.FormattedTimeFresh | app.py:207-215 | A timestamp written with `str` is fresh exactly when it is at most `MAX_TTL` seconds old. |
| Auth.FutureTimeAccepted | app.py:214 | With a non-negative window, a timestamp at or after `now` is always accepted. |
| Auth.ValidateRequestTime | app.py:200-217 | A present `x-time` value is fed to the hash before the digit check. The result is true exactly when the value is a non-empty digit run `t` with `now - t <= MAX_TTL`. |
| Auth.ExpectedHash | app.py:192 | The expected tag is twice the digest length, lower-case hex, and decodes back to the digest. |
| Auth.ValidateHash | app.py:186-198 | With no `x-hash` header nothing is fed and the result is false. Otherwise the secret is fed last. The result is true exactly when the header equals the lower-case hex digest of everything fed, secret included. |
| Responses.RespondError | app.py:142-146 | The `422` answer starts with its status line and ends with the reason. |
| Responses.RespondContent | app.py:148-150 | The `200` answer starts with its status line and ends with the body. |
| Responses.RespondNoContent | app.py:152-154 | The fixed answer starts with the `204` status line. |
| Responses.Wire | app.py:142-154 | A refusal is sent with status `422`, a done POST with `204` and a pin state with `200`. The bytes sent end with the response body. |
| Responses.ContentLengthField | app.py:145-149 | A `Content-Length` field whose preceding bytes contain no `-`, followed by a digit run and a CRLF, reads back as that digit run. |
| Responses.LaidOutContentLength | app.py:145-149 | A response laid out as status line, `Content-Length: `, `str(len(body))`, header tail, body carries the printed body length as its `Content-Length`. |
| Responses.ErrorContentLength | app.py:142-146 | The `422` response's `Content-Length` is the length of the reason. |
| Responses.ContentContentLength | app.py:148-150 | The `200` response's `Content-Length` is the length of the body. |
| Responses.NoContentContentLength | app.py:24 | The `204` response's `Content-Length` is `0`. |
| Responses.ContentLengthIsBodyLength | app.py:142-154 | Every response carries a `Content-Length` that is a digit run whose value is the body length, and the response ends with that body. |
| Server.Authorisation | app.py:271-276 | An authorised POST carries the `x-state` value to act on. A GET carries none, whatever its headers say. |
| Server.RequestOutcome | app.py:256-299 | A bad endpoint is refused with the URI reason and leaves the board alone. Only a POST answered with `204` changes the board. A `200` answer comes only for a GET and leaves the board alone. |
| Server.Act | app.py:284-299 | The answer is `422` exactly when the verdict is a refusal. Only an authorised POST changes the board. An authorised request gets `204` exactly when it is a POST. |
| Server.Authenticate | app.py:262-286 | Running the stages with a fresh SHA-256 object yields the verdict of `Authorisation`. Failures come in the order pin, state (POST only), time, hash. The tag is checked against the digest of pin ++ state (POST only) ++ time ++ secret. |
| Server.HandleRequest | app.py:252-299 | For the lower-cased buffer, the bytes sent are the wire form of `RequestOutcome`'s response. The board is left in `RequestOutcome`'s new board state. |
| Server.Respond | app.py:284-299 | The bytes sent are the wire form of `Act`'s response, and the board is left in `Act`'s new state. A refusal sends its reason. An authorised POST sets the pin and sends `204`. An authorised GET sends the pin's state with `200`. |
| Server.RefusalLeavesBoard | app.py:256-286 | A refused request changes no pin and no record. |
| Server.StagesInOrder | app.py:256-281 | A bad endpoint gets the URI reason whatever the headers say. A bad pin after a good endpoint gets the pin reason. A POST with no state gets the state reason. A stale, missing or non-digit time after all that gets the time reason. |
| Server.AcceptedExactlyWithTag | app.py:262-286 | Once the earlier stages pass, a request is accepted exactly when `x-hash` is the hex SHA-256 of the pin value ++ the state value (POST only) ++ the time value ++ the secret. Any other tag gets the hash reason. A GET's `x-state` is not hashed. |
| Server.AcceptedPostSetsPin | app.py:289-293 | An accepted POST answers `204` and sets the pin high exactly when `x-state` is `on`. With restore-on-boot, the pin's record follows that state. No other pin or record changes. |
| Server.AcceptedGetReportsPin | app.py:294-299 | An accepted GET answers `200` with `on` or `off` for the pin's level and leaves the board unchanged. |
| Server.PostThenGetReadsBack | app.py:289-299 | An accepted POST followed by an accepted GET on the same pin reads back `on` exactly when the POST's state was `on`. |

## Left out

- WiFi management (`IsConnectedToWiFi`, `ConnectToWifi`) is radio hardware I/O.
- The socket is left out: creating it, `accept`, `recv`, `send`, `close`, and the `OSError` handler.
  - `HandleRequest` takes the received bytes and returns the bytes sent.
  - The 1024-byte limit of `recv` is not modelled: the input is whatever `recv` returned.
- The clock (`ntptime.settime()`, `time.time()`) is the parameter `now`. A clock synchronisation that fails with `OSError` closes the connection without an answer; that path is not modelled.
- The SHA-256 algorithm is a function parameter. The model fixes which bytes are hashed and in what order, not the digest. `Auth.HashAccumulator.Digest` (app.py:192) is that parameter applied to every byte fed so far, and has no contract of its own.
- `PrintDebug` only writes log lines.
- `RestoreConfig`, the boot-time replay of the restore records, is not part of this model. Only the records that `SetPin` keeps are modelled.
- `machine.Pin` is replaced by an abstract map from pin to level. A pin that has never been driven reads low.
- main.py and settings.py are not part of this model:
  - `SHARED_SECRET`, `MAX_TTL` and `RESTORE_ON_BOOT` are fields of `Settings`;
  - the secret is taken as the bytes fed to `update`.
- Restore records are a set of pins, not files named by `str(pinId)` that hold the state `on`.

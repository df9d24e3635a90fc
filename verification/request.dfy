/**
 * The request classifier and header extractor: everything the server reads
 * out of the (already lower-cased) request buffer is found by `find` and cut
 * out by a slice, so every edge of Python's `find` and slicing shows here.
 */
module Request {
  import opened Options
  import opened PyBytes

  // Written as byte displays rather than `Ascii("…")` so that the verifier
  // sees their bytes directly when it searches the request for them.
  const CRLF: seq<byte> := [13, 10]                        // "\r\n"
  const POST_METHOD: seq<byte> := [112, 111, 115, 116, 32]   // "post "
  const GET_METHOD: seq<byte> := [103, 101, 116, 32]         // "get "
  const HTTP_VERSION: seq<byte> := [32, 104, 116, 116, 112]  // " http"
  const ALLOWED_URI: seq<byte> := [47, 112, 105, 110, 115]   // "/pins"

  datatype Method = Post | Get

  /** The method name `GetMethod` returns in the source, without its trailing space. */
  function MethodName(m: Method): seq<byte>
  {
    match m
    case Post => [112, 111, 115, 116]  // "post"
    case Get => [103, 101, 116]        // "get"
  }

  // ---------------------------------------------------------------------------
  // GetHeader

  /**
   * The value of header `name`: found by its first occurrence anywhere in the
   * buffer, running to the next CRLF, or, when no CRLF follows, to one byte
   * before the end (the slice to `-1`).
   */
  function GetHeader(name: seq<byte>, request: seq<byte>): (v: Option<seq<byte>>)
    ensures v.Some? ==> |name| + |v.value| <= |request|
  {
    var start := Find(request, name, 0);
    if start < 0 then None
    else
      var from := start + |name|;
      Some(Slice(request, from, Find(request, CRLF, from)))
  }

  /** Once the name is found at `k`, the value is the slice from after the name to the next CRLF. */
  lemma GetHeaderFound(name: seq<byte>, request: seq<byte>, k: nat)
    requires Find(request, name, 0) == k
    ensures GetHeader(name, request) == Some(Slice(request, k + |name|, Find(request, CRLF, k + |name|)))
  {
  }

  /** The lookup fails exactly when the name occurs nowhere in the buffer. */
  lemma HeaderAbsent(name: seq<byte>, request: seq<byte>)
    ensures GetHeader(name, request).None? <==> NoneFrom(request, name, 0)
  {
    var start := Find(request, name, 0);
    if start >= 0 {
      GetHeaderFound(name, request, start);
    }
  }

  /** A stretch that stops at or before the first CRLF after its start contains no CRLF. */
  lemma NoCrlfBefore(request: seq<byte>, from: nat, hi: nat)
    requires from <= hi <= |request|
    requires forall j :: from <= j < hi ==> !OccursAt(request, CRLF, j)
    ensures forall i: nat :: !OccursAt(request[from..hi], CRLF, i)
  {
    forall i: nat
      ensures !OccursAt(request[from..hi], CRLF, i)
    {
      if i + |CRLF| <= hi - from {
        SliceOfSlice(request, from, hi, i, |CRLF|);
        assert !OccursAt(request, CRLF, from + i);
      }
    }
  }

  /** The bytes from `from` up to the next CRLF, or to the `-1` slice end, contain no CRLF. */
  lemma ValueBeforeCrlf(request: seq<byte>, from: nat)
    requires from <= |request|
    ensures forall i: nat :: !OccursAt(Slice(request, from, Find(request, CRLF, from)), CRLF, i)
  {
    var end := Find(request, CRLF, from);
    if end == -1 {
      SliceToMinusOne(request, from);
      var hi := if from < |request| - 1 then |request| - 1 else from;
      NoCrlfBefore(request, from, hi);
      assert Slice(request, from, end) == request[from..hi];
    } else {
      SliceWithin(request, from, end);
      NoCrlfBefore(request, from, end);
    }
  }

  /** A header value never contains a CRLF: it stops at the first one after the name. */
  lemma HeaderValueHasNoCrlf(name: seq<byte>, request: seq<byte>)
    ensures GetHeader(name, request).Some?
            ==> forall i: nat :: !OccursAt(GetHeader(name, request).value, CRLF, i)
  {
    var start := Find(request, name, 0);
    if start >= 0 {
      GetHeaderFound(name, request, start);
      ValueBeforeCrlf(request, start + |name|);
    }
  }

  /** A header line ended by CRLF yields exactly the bytes between the name and the CRLF. */
  lemma HeaderTerminated(name: seq<byte>, request: seq<byte>, k: nat, e: nat)
    requires FirstFrom(request, name, 0, k)
    requires FirstFrom(request, CRLF, k + |name|, e)
    ensures GetHeader(name, request) == Some(request[k + |name|..e])
  {
    var from := k + |name|;
    FindFirst(request, name, 0, k);
    GetHeaderFound(name, request, k);
    FindFirst(request, CRLF, from, e);
    SliceWithin(request, from, e);
  }

  /**
   * With no CRLF after the name the value loses the buffer's last byte, and
   * is empty when the name ends at or after that byte.
   */
  lemma HeaderUnterminated(name: seq<byte>, request: seq<byte>, k: nat)
    requires FirstFrom(request, name, 0, k)
    requires NoneFrom(request, CRLF, k + |name|)
    ensures GetHeader(name, request)
         == Some(if k + |name| < |request| - 1 then request[k + |name|..|request| - 1] else [])
  {
    FindFirst(request, name, 0, k);
    GetHeaderFound(name, request, k);
    SliceToMinusOne(request, k + |name|);
  }

  // ---------------------------------------------------------------------------
  // GetMethod

  /** The method is recognised only at offset 0, and `post ` is tried first. */
  function GetMethod(request: seq<byte>): (m: Option<Method>)
    ensures m == Some(Post) <==> POST_METHOD <= request
    ensures m == Some(Get) <==> GET_METHOD <= request && !(POST_METHOD <= request)
    ensures m == None <==> !(POST_METHOD <= request) && !(GET_METHOD <= request)
  {
    assert OccursAt(request, POST_METHOD, 0) <==> POST_METHOD <= request;
    assert OccursAt(request, GET_METHOD, 0) <==> GET_METHOD <= request;
    if Find(request, POST_METHOD, 0) == 0 then Some(Post)
    else if Find(request, GET_METHOD, 0) == 0 then Some(Get)
    else None
  }

  // ---------------------------------------------------------------------------
  // ValidateEndPoint

  /**
   * The target the server compares, for a target starting at `start`: the
   * bytes up to the first ` http` at or after `start`, or, when there is
   * none, up to one byte before the end of the buffer.
   */
  ghost predicate TargetIs(request: seq<byte>, start: nat, uri: seq<byte>)
  {
    (exists e: nat :: FirstFrom(request, HTTP_VERSION, start, e) && request[start..e] == uri)
    || (NoneFrom(request, HTTP_VERSION, start)
        && (if start < |request| - 1 then request[start..|request| - 1] else []) == uri)
  }

  /** The request line names `post` or `get` and exactly the target `/pins`. */
  function ValidateEndPoint(request: seq<byte>): (ok: bool)
    ensures ok ==> GetMethod(request).Some?
  {
    match GetMethod(request)
    case None => false
    case Some(m) =>
      var start := |MethodName(m)| + 1;
      Slice(request, start, Find(request, HTTP_VERSION, start)) == ALLOWED_URI
  }

  /** Once the method is known, the endpoint check is one comparison of the target slice with `/pins`. */
  lemma ValidateEndPointFor(request: seq<byte>, m: Method)
    requires GetMethod(request) == Some(m)
    ensures var start := |MethodName(m)| + 1;
            ValidateEndPoint(request) == (Slice(request, start, Find(request, HTTP_VERSION, start)) == ALLOWED_URI)
  {
  }

  /**
   * The endpoint is accepted exactly when the method is recognised and the
   * target after it, cut at the first ` http` or by the `-1` slice, is `/pins`.
   */
  lemma ValidateEndPointTarget(request: seq<byte>)
    ensures ValidateEndPoint(request)
            <==> GetMethod(request).Some?
                 && TargetIs(request, |MethodName(GetMethod(request).value)| + 1, ALLOWED_URI)
  {
    if GetMethod(request).Some? {
      var m := GetMethod(request).value;
      var start := |MethodName(m)| + 1;
      assert start <= |request| by {
        assert POST_METHOD <= request || GET_METHOD <= request;
      }
      ValidateEndPointFor(request, m);
      var end := Find(request, HTTP_VERSION, start);
      if end == -1 {
        SliceToMinusOne(request, start);
      } else {
        SliceWithin(request, start, end);
        assert FirstFrom(request, HTTP_VERSION, start, end);
        forall e: nat | FirstFrom(request, HTTP_VERSION, start, e)
          ensures e == end
        {
          FindFirst(request, HTTP_VERSION, start, e);
        }
      }
    }
  }

  /** A request line `<method> <path> http...`. */
  function RequestLine(m: Method, path: seq<byte>): seq<byte>
  {
    MethodName(m) + [32] + path + HTTP_VERSION
  }

  /** A buffer that starts with a method name and a space is recognised as that method. */
  lemma MethodPrefix(m: Method, tail: seq<byte>)
    ensures GetMethod(MethodName(m) + [32] + tail) == Some(m)
  {
    var request := MethodName(m) + [32] + tail;
    if m == Post {
      assert request[..5] == POST_METHOD;
    } else {
      assert request[..4] == GET_METHOD;
      assert request[0] != POST_METHOD[0];
    }
  }

  /** In a request line whose path has no space, the first ` http` after the method is the one after the path. */
  lemma {:induction false} VersionAfterPath(m: Method, path: seq<byte>, rest: seq<byte>)
    requires forall i :: 0 <= i < |path| ==> path[i] != 32
    ensures FirstFrom(RequestLine(m, path) + rest, HTTP_VERSION, |MethodName(m)| + 1,
                      |MethodName(m)| + 1 + |path|)
  {
    var request := RequestLine(m, path) + rest;
    var start := |MethodName(m)| + 1;
    var e := start + |path|;
    assert request == (MethodName(m) + [32] + path) + (HTTP_VERSION + rest);
    assert request[e..e + |HTTP_VERSION|] == HTTP_VERSION;
    forall i: nat | start <= i < e
      ensures !OccursAt(request, HTTP_VERSION, i)
    {
      assert request[i] == path[i - start];
      if i + |HTTP_VERSION| <= |request| {
        assert request[i..i + |HTTP_VERSION|][0] == request[i];
      }
    }
  }

  /**
   * For a path without spaces, the endpoint is accepted exactly when the path
   * is `/pins`: a query string, a trailing slash or any other path is refused.
   */
  lemma {:induction false} RequestLineDecides(m: Method, path: seq<byte>, rest: seq<byte>)
    requires forall i :: 0 <= i < |path| ==> path[i] != 32
    ensures ValidateEndPoint(RequestLine(m, path) + rest) <==> path == ALLOWED_URI
  {
    var request := RequestLine(m, path) + rest;
    var start := |MethodName(m)| + 1;
    var e := start + |path|;
    assert request == MethodName(m) + [32] + (path + HTTP_VERSION + rest);
    MethodPrefix(m, path + HTTP_VERSION + rest);
    ValidateEndPointFor(request, m);
    VersionAfterPath(m, path, rest);
    FindFirst(request, HTTP_VERSION, start, e);
    SliceWithin(request, start, e);
    assert request[start..e] == path;
  }

  /** No ` http` starts inside `/pins` followed by one byte. */
  lemma NoVersionInTarget(b: byte)
    ensures NoneFrom(ALLOWED_URI + [b], HTTP_VERSION, 0)
  {
    var t := ALLOWED_URI + [b];
    forall i: nat
      ensures !OccursAt(t, HTTP_VERSION, i)
    {
      if i + |HTTP_VERSION| <= |t| {
        assert i == 0 || i == 1;
        assert t[i..i + |HTTP_VERSION|][0] == t[i];
      }
    }
  }

  /**
   * Without a ` http` marker the `-1` slice decides: `/pins` followed by any
   * single byte and the end of the buffer is accepted.
   */
  lemma {:induction false} MissingVersionAccepted(m: Method, b: byte)
    ensures ValidateEndPoint(MethodName(m) + [32] + ALLOWED_URI + [b])
  {
    var t := ALLOWED_URI + [b];
    var request := MethodName(m) + [32] + ALLOWED_URI + [b];
    var start := |MethodName(m)| + 1;
    assert request == MethodName(m) + [32] + t;
    MethodPrefix(m, t);
    ValidateEndPointFor(request, m);
    NoVersionInTarget(b);
    assert request[start..] == t;
    NoneFromSuffix(request, HTTP_VERSION, start);
    assert Find(request, HTTP_VERSION, start) == -1;
    SliceToMinusOne(request, start);
    assert request[start..|request| - 1] == ALLOWED_URI;
  }
}

/**
 * The slice of Go's `net/http` that the server's handlers see: a parsed request, the
 * response that `sendResponse` builds, and the size limit placed on request bodies.
 */
module Http {
  import opened Wrappers
  import opened GoStrings

  const StatusOK := 200
  const StatusCreated := 201
  const StatusNotFound := 404
  const StatusMethodNotAllowed := 405
  const StatusInternalServerError := 500

  /** `maxRequestSize`: the largest request body a handler may read, 1 MiB. */
  const MaxRequestSize := 1024 * 1024

  /**
   * A request header as the parser leaves it: each canonical name maps to its values in
   * the order they arrived.
   */
  type RequestHeader = map<string, seq<GoString>>

  /** A response header: each name maps to its values. */
  type ResponseHeader = map<string, seq<string>>

  /** A parsed request: its method (`verb`), the decoded URL path, its header and the body bytes the client sent. */
  datatype Request = Request(verb: string, path: GoString, header: RequestHeader, body: seq<byte>)

  /**
   * The `http.Response` handed to the serializer: status code, header, the content (None for a
   * nil slice) and the ContentLength field (Go's zero value when it is not assigned).
   */
  datatype Response = Response(
    status: int,
    header: ResponseHeader,
    content: Option<seq<byte>>,
    contentLength: int)

  /** `Header.Get(key)` for a canonical key: the first value, or "" when there is none. */
  function HeaderGet(h: RequestHeader, key: string): GoString {
    if key in h && |h[key]| > 0 then h[key][0] else ""
  }

  /** The single value a response header holds for `key`, if any. */
  function ValueOf(h: ResponseHeader, key: string): Option<string> {
    if key in h && |h[key]| == 1 then Some(h[key][0]) else None
  }

  /** ContentLength states the exact length of the content, and is zero for a nil content. */
  predicate LengthMatches(r: Response) {
    r.contentLength == (match r.content case Some(c) => |c| case None => 0)
  }

  /**
   * The response that `sendResponse(status, content, headers)` writes: the header holds
   * exactly the caller's headers, each with its one value, and ContentLength is set from the
   * content when the content is non-nil.
   */
  function Respond(status: int, content: Option<seq<byte>>, headers: map<string, string>): (r: Response)
    ensures r.status == status && r.content == content
    ensures r.header.Keys == headers.Keys
    ensures forall k | k in headers :: ValueOf(r.header, k) == Some(headers[k])
    ensures LengthMatches(r)
  {
    Response(status, map k | k in headers :: [headers[k]], content,
      if content.Some? then |content.value| else 0)
  }

  /**
   * `sendResponse` up to the point where the response is written: the header is filled one
   * `Set` at a time, in whatever order the map is iterated, and ContentLength is assigned
   * only for a non-nil content.
   */
  method SendResponse(status: int, content: Option<seq<byte>>, headers: map<string, string>)
    returns (resp: Response)
    ensures resp == Respond(status, content, headers)
  {
    var header: ResponseHeader := map[];
    var pending := headers.Keys;
    while pending != {}
      invariant pending <= headers.Keys
      invariant header.Keys == headers.Keys - pending
      invariant forall k | k in header :: header[k] == [headers[k]]
      decreases pending
    {
      var k :| k in pending;
      header := header[k := [headers[k]]];
      pending := pending - {k};
    }
    var length := 0;
    if content != None {
      length := |content.value|;
    }
    resp := Response(status, header, content, length);
    assert header == Respond(status, content, headers).header;
  }

  /**
   * `io.ReadAll` of the body behind `http.MaxBytesReader(…, MaxRequestSize)`: a body of at
   * most 1 MiB is read in full, a longer one is an error, and so is a failing connection
   * (`fails`).
   */
  function ReadBody(body: seq<byte>, fails: bool): (r: Option<seq<byte>>)
    ensures r.Some? <==> |body| <= MaxRequestSize && !fails
    ensures r.Some? ==> r.value == body
  {
    if fails || |body| > MaxRequestSize then None else Some(body)
  }
}

/**
 * The request dispatch of the server: the routing switch of `handleConnection`, the five
 * handlers, gzip negotiation, and the file store that `/files/` reads and writes.
 */
module Server {
  import opened Wrappers
  import opened GoStrings
  import opened FilePath
  import opened Http

  /** `dataDir`, the directory behind `/files/`, and the directory that holds it. */
  const DataDir := "/tmp/data/codecrafters.io/http-server-tester"
  const DataDirParent := "/tmp/data/codecrafters.io"

  /** The files directly inside dataDir, by name. */
  type Store = map<string, seq<byte>>

  /**
   * How `os.WriteFile` ends. It opens the file with `O_CREATE|O_TRUNC` and then writes, so
   * either the open fails and the file is untouched, or the file is created or truncated
   * and then holds what was written: all of the content (`Written`, or `FailedAfter(n)` with
   * n at least the length when only the close fails) or the first `count` bytes of it.
   */
  datatype WriteOutcome = Written | OpenFailed | FailedAfter(count: nat)

  /**
   * What the environment does on this request where the code checks for an error: whether
   * the gzip writer, reading the body, `os.MkdirAll` or `os.ReadFile` fails (a read failure
   * other than a missing file), and how `os.WriteFile` ends. Nothing in the model decides
   * these.
   */
  datatype Faults = Faults(gzipWrite: bool, bodyRead: bool, mkdirAll: bool, writeFile: WriteOutcome, readFile: bool)

  const NoFaults := Faults(false, false, false, Written, false)

  // ---------------------------------------------------------------------------------------
  // Routing

  datatype Handler = Root | UserAgent | Echo | Files | NotFound

  /** The `switch` of `handleConnection`: the first case that matches the path wins. */
  function Route(path: string): Handler {
    if path == "/" then Root
    else if path == "/user-agent" then UserAgent
    else if HasPrefix(path, "/echo/") then Echo
    else if HasPrefix(path, "/files/") then Files
    else NotFound
  }

  /**
   * Each handler is chosen exactly when its own rule matches: the two exact paths and the two
   * prefixes never match the same path, so the order of the cases decides nothing, and every
   * other path goes to NotFound.
   */
  lemma RouteFirstMatch(path: string)
    ensures Route(path) == Root <==> path == "/"
    ensures Route(path) == UserAgent <==> path == "/user-agent"
    ensures Route(path) == Echo <==> HasPrefix(path, "/echo/")
    ensures Route(path) == Files <==> HasPrefix(path, "/files/")
    ensures Route(path) == NotFound <==>
      !(path == "/" || path == "/user-agent" || HasPrefix(path, "/echo/") || HasPrefix(path, "/files/"))
  {
    if HasPrefix(path, "/echo/") {
      assert path[1] == "/echo/"[1] == 'e';
      assert "/user-agent"[1] == 'u' && "/files/"[1] == 'f';
    }
    if HasPrefix(path, "/files/") {
      assert path[1] == "/files/"[1] == 'f';
      assert "/user-agent"[1] == 'u';
    }
  }

  // ---------------------------------------------------------------------------------------
  // The handlers that touch no file

  /** The response header of UserAgent and Echo. */
  const TextPlain := map["Content-Type" := "text/plain"]

  /** `handleRoot`: 200 with no content and no header. */
  function HandleRoot(): Response {
    Respond(StatusOK, None, map[])
  }

  /** `handleNotFound`: 404 with no content and no header. */
  function HandleNotFound(): Response {
    Respond(StatusNotFound, None, map[])
  }

  /** Root answers 200 with nil content, no header and a zero ContentLength. */
  lemma RootResponse()
    ensures var r := HandleRoot();
      r.status == 200 && r.content == None && r.header == map[] && r.contentLength == 0
  {
  }

  /** NotFound answers 404 with nil content, no header and a zero ContentLength. */
  lemma NotFoundResponse()
    ensures var r := HandleNotFound();
      r.status == 404 && r.content == None && r.header == map[] && r.contentLength == 0
  {
  }

  /** `handleUserAgent`: 200, plain text, the request's User-Agent as the content. */
  function HandleUserAgent(req: Request): Response {
    Respond(StatusOK, Some(ToBytes(HeaderGet(req.header, "User-Agent"))), TextPlain)
  }

  /**
   * UserAgent answers 200 with Content-Type `text/plain`; its content is the bytes of the
   * first User-Agent value, and empty (but not nil) when the request has none.
   */
  lemma UserAgentResponse(req: Request)
    ensures var r := HandleUserAgent(req);
      && r.status == 200
      && r.header == map["Content-Type" := ["text/plain"]]
      && r.content.Some?
      && r.contentLength == |r.content.value|
      && ("User-Agent" in req.header && req.header["User-Agent"] != [] ==>
            r.content.value == ToBytes(req.header["User-Agent"][0]))
      && ("User-Agent" !in req.header || req.header["User-Agent"] == [] ==> r.content.value == [])
  {
  }

  /** `acceptsGzip`: the first Accept-Encoding value contains `gzip` anywhere. */
  predicate AcceptsGzip(req: Request)
    ensures AcceptsGzip(req) <==> exists i :: OccursAt(HeaderGet(req.header, "Accept-Encoding"), "gzip", i)
  {
    Contains(HeaderGet(req.header, "Accept-Encoding"), "gzip")
  }

  /** Without an Accept-Encoding header nothing is compressed. */
  lemma NoAcceptEncodingNoGzip(req: Request)
    requires "Accept-Encoding" !in req.header
    ensures !AcceptsGzip(req)
  {
  }

  /**
   * `handleEcho`: the third `/`-separated piece of the path (SplitN with limit 3, so it keeps
   * any further `/`), as plain text, compressed by `gzip` when the client accepts gzip; a
   * failing gzip writer gives 500, and a path with fewer than three pieces gives 404.
   */
  function HandleEcho(req: Request, gzip: seq<byte> -> seq<byte>, gzipFails: bool): Response {
    var parts := SplitN(req.path, '/', 3);
    if |parts| < 3 then HandleNotFound()
    else
      SplitNBytes(req.path, '/', 3);
      var content := ToBytes(parts[2]);
      if AcceptsGzip(req) then
        if gzipFails then Respond(StatusInternalServerError, None, map[])
        else Respond(StatusOK, Some(gzip(content)), TextPlain["Content-Encoding" := "gzip"])
      else
        Respond(StatusOK, Some(content), TextPlain)
  }

  /** A path that starts with `/echo/` splits into "", "echo" and everything after `/echo/`. */
  lemma EchoSplit(path: string)
    requires HasPrefix(path, "/echo/")
    ensures SplitN(path, '/', 3) == ["", "echo", path[6..]]
  {
    assert path[..6] == "/echo/";
    assert IndexOf(path, '/') == Some(0);
    var tail := path[1..];
    assert tail[..4] == "echo" && tail[4] == '/';
    assert IndexOf(tail, '/') == Some(4) by {
      var r := IndexOf(tail, '/');
      assert '/' in tail;
      assert r.Some?;
      assert r.value <= 4;
      assert '/' !in tail[..4];
    }
    assert tail[5..] == path[6..];
    assert SplitN(path, '/', 3) == [path[..0]] + SplitN(tail, '/', 2);
    assert SplitN(tail, '/', 2) == [tail[..4]] + SplitN(tail[5..], '/', 1);
  }

  /**
   * On a path `/echo/<rest>` Echo answers 200 with Content-Type `text/plain` and content
   * `<rest>`, or, exactly when the client accepts gzip, with `Content-Encoding: gzip` and
   * content `gzip(<rest>)`; a failing gzip writer turns the latter into a bare 500.
   */
  lemma EchoResponse(req: Request, gzip: seq<byte> -> seq<byte>, gzipFails: bool)
    requires HasPrefix(req.path, "/echo/")
    ensures var rest := ToBytes(req.path[6..]); var r := HandleEcho(req, gzip, gzipFails);
      && (!AcceptsGzip(req) ==>
            && r.status == 200
            && r.header == map["Content-Type" := ["text/plain"]]
            && r.content == Some(rest)
            && r.contentLength == |rest|)
      && (AcceptsGzip(req) && !gzipFails ==>
            && r.status == 200
            && r.header == map["Content-Type" := ["text/plain"], "Content-Encoding" := ["gzip"]]
            && r.content == Some(gzip(rest))
            && r.contentLength == |gzip(rest)|)
      && (AcceptsGzip(req) && gzipFails ==>
            r.status == 500 && r.header == map[] && r.content == None)
  {
    EchoSplit(req.path);
    var rest := ToBytes(req.path[6..]);
    var r := HandleEcho(req, gzip, gzipFails);
    if !AcceptsGzip(req) {
      assert r == Respond(StatusOK, Some(rest), TextPlain);
    } else if !gzipFails {
      assert r == Respond(StatusOK, Some(gzip(rest)), TextPlain["Content-Encoding" := "gzip"]);
    }
  }

  /** The router only sends paths to Echo that split into three pieces, so Echo never answers 404. */
  lemma EchoRouteNeverFallsBack(req: Request, gzip: seq<byte> -> seq<byte>, gzipFails: bool)
    requires Route(req.path) == Echo
    ensures |SplitN(req.path, '/', 3)| == 3
    ensures HandleEcho(req, gzip, gzipFails).status != 404
  {
    RouteFirstMatch(req.path);
    EchoSplit(req.path);
  }

  /** With a decompressor that undoes `gzip`, a compressed echo decompresses to `<rest>`. */
  lemma EchoGzipRoundTrip(req: Request, gzip: seq<byte> -> seq<byte>, gunzip: seq<byte> -> seq<byte>)
    requires HasPrefix(req.path, "/echo/") && AcceptsGzip(req)
    requires forall b :: gunzip(gzip(b)) == b
    ensures HandleEcho(req, gzip, false).content.Some?
    ensures gunzip(HandleEcho(req, gzip, false).content.value) == ToBytes(req.path[6..])
  {
    EchoResponse(req, gzip, false);
  }

  // ---------------------------------------------------------------------------------------
  // File names

  /** A name that denotes an entry of dataDir itself: not empty, not `.` or `..`, no `/`. */
  predicate IsEntryName(name: string) {
    name != "" && name != "." && name != ".." && '/' !in name
  }

  /**
   * `filepath.Join(dataDir, name)` for a name that Base returned (one element, or "/"):
   * Join cleans the result, so `.` and "/" give dataDir itself and `..` gives its parent.
   */
  function JoinDataDir(name: string): (p: string)
    requires name == "/" || (name != "" && '/' !in name)
    ensures IsEntryName(name) ==> p == DataDir + "/" + name
    ensures !IsEntryName(name) ==> p == DataDir || p == DataDirParent
    ensures name == "." || name == "/" ==> p == DataDir
    ensures name == ".." ==> p == DataDirParent
  {
    if name == "/" || name == "." then DataDir
    else if name == ".." then DataDirParent
    else DataDir + "/" + name
  }

  /** Join and Base undo each other on an entry name: the last element of its path is the name. */
  lemma JoinDataDirBase(name: string)
    requires IsEntryName(name)
    ensures Base(JoinDataDir(name)) == name
  {
    BaseOfElement(DataDir, name);
  }

  /** The last element of `dir + "/" + name` is `name`, whatever `dir` is. */
  lemma BaseOfElement(dir: string, name: string)
    requires name != "" && '/' !in name
    ensures Base(dir + "/" + name) == name
  {
    var p := dir + "/" + name;
    var t := TrimTrailingSlashes(p);
    assert p[|p| - 1] == name[|name| - 1];
    assert name[|name| - 1] in name;
    assert t == p;
    var k := LastIndexOf(p, '/').value;
    assert forall j | k < j < |p| :: p[j] != '/' by {
      forall j | k < j < |p| ensures p[j] != '/' {
        assert p[j] == p[k + 1..][j - k - 1];
      }
    }
    assert p[|dir|] == '/';
    assert k >= |dir|;
    assert forall j | |dir| < j < |p| :: p[j] != '/' by {
      forall j | |dir| < j < |p| ensures p[j] != '/' {
        assert p[j] == name[j - |dir| - 1];
      }
    }
    assert k == |dir|;
    assert p[|dir| + 1..] == name;
  }

  /**
   * The file name of a `/files/` path is one path element: not empty and free of `/`. It
   * names an entry that Join places directly inside dataDir, except for `.` and `..`, which
   * Join resolves to dataDir itself and to its parent.
   */
  lemma FilesNameGuard(path: string)
    requires HasPrefix(path, "/files/")
    ensures var name := Base(path);
      && name != "" && '/' !in name
      && (IsEntryName(name) ==> JoinDataDir(name) == DataDir + "/" + name)
      && (!IsEntryName(name) ==> (name == "." || name == "..") && JoinDataDir(name) != DataDir + "/" + name)
  {
    var name := Base(path);
    assert path[1] == 'f';
    assert name != "/";
    if !IsEntryName(name) {
      assert |JoinDataDir(name)| < |DataDir + "/" + name|;
    }
  }

  /** `/files/..` reaches the parent of dataDir. */
  lemma DotDotReachesParent()
    ensures Base("/files/..") == ".."
    ensures JoinDataDir(Base("/files/..")) == DataDirParent
  {
    assert "/files/.." == "/files" + "/" + "..";
    BaseOfElement("/files", "..");
  }

  /** `/files/<name>` addresses the file `name`. */
  lemma FilesPathName(name: string)
    requires name != "" && '/' !in name
    ensures Base("/files/" + name) == name
  {
    assert "/files/" + name == "/files" + "/" + name;
    BaseOfElement("/files", name);
  }

  // ---------------------------------------------------------------------------------------
  // The file handler, as a function of the store

  const OctetStream := map["Content-Type" := "application/octet-stream"]

  /** What a write that got past the open leaves in the file: a prefix of the content. */
  function WrittenContent(content: seq<byte>, outcome: WriteOutcome): (c: seq<byte>)
    requires !outcome.OpenFailed?
    ensures c <= content
    ensures outcome.Written? ==> c == content
    ensures outcome.FailedAfter? && outcome.count < |content| ==> |c| == outcome.count
  {
    match outcome
    case Written => content
    case FailedAfter(n) => if n < |content| then content[..n] else content
  }

  /**
   * The store after `os.WriteFile(filepath.Join(dataDir, name), content, 0666)`: a name that
   * resolves to a directory, or a failing open, leaves it as it was; otherwise the named file
   * holds what was written, and no other file changes.
   */
  function StoreAfterWrite(store: Store, name: string, content: seq<byte>, outcome: WriteOutcome): (after: Store)
    ensures forall n | n != name :: (n in after <==> n in store) && (n in after ==> after[n] == store[n])
    ensures !IsEntryName(name) || outcome.OpenFailed? ==> after == store
    ensures IsEntryName(name) && !outcome.OpenFailed? ==> name in after && after[name] <= content
    ensures IsEntryName(name) && outcome.Written? ==> after[name] == content
  {
    if !IsEntryName(name) || outcome.OpenFailed? then store
    else store[name := WrittenContent(content, outcome)]
  }

  /**
   * The GET branch of `handleFiles`: a failing read, or a name that resolves to a directory,
   * gives 500, a missing file 404, and a present one its bytes.
   */
  function FilesGet(store: Store, name: string, readFails: bool): Response {
    if readFails || !IsEntryName(name) then Respond(StatusInternalServerError, None, map[])
    else if name !in store then HandleNotFound()
    else Respond(StatusOK, Some(store[name]), OctetStream)
  }

  /**
   * The POST branch of `handleFiles` and the store after it: the body (at most 1 MiB) is read,
   * dataDir is created and the body written as the file. A failing read or MkdirAll gives 500
   * and leaves the store alone; a failing write gives 500 with whatever it left in the store;
   * success gives 201.
   */
  function FilesPost(store: Store, name: string, body: seq<byte>, faults: Faults): (Response, Store) {
    var content := ReadBody(body, faults.bodyRead);
    if content.None? || faults.mkdirAll then
      (Respond(StatusInternalServerError, None, map[]), store)
    else
      var after := StoreAfterWrite(store, name, content.value, faults.writeFile);
      if faults.writeFile.Written? && IsEntryName(name) then (Respond(StatusCreated, None, map[]), after)
      else (Respond(StatusInternalServerError, None, map[]), after)
  }

  /** `handleFiles`: the response and the store after it; methods other than GET and POST get 405. */
  function FilesStep(store: Store, req: Request, faults: Faults): (Response, Store) {
    var name := Base(req.path);
    if req.verb == "GET" then (FilesGet(store, name, faults.readFile), store)
    else if req.verb == "POST" then FilesPost(store, name, req.body, faults)
    else (Respond(StatusMethodNotAllowed, None, map[]), store)
  }

  /**
   * Without a read fault, GET of a missing file gives 404 with no content, and of a present
   * one 200, `application/octet-stream` and exactly the stored bytes. (GET never changes the
   * store: FilesStep keeps it.)
   */
  lemma FilesGetResponse(store: Store, name: string)
    requires IsEntryName(name)
    ensures var r := FilesGet(store, name, false);
      && (name !in store ==> r.status == 404 && r.content == None && r.header == map[])
      && (name in store ==>
            && r.status == 200
            && r.header == map["Content-Type" := ["application/octet-stream"]]
            && r.content == Some(store[name])
            && r.contentLength == |store[name]|)
  {
  }

  /**
   * POST of a body of at most 1 MiB, without a fault, answers 201 with no content, makes the
   * body the content of the named file (replacing what was there) and leaves every other
   * file as it was; a body over 1 MiB gives 500 and changes nothing.
   */
  lemma FilesPostResponse(store: Store, name: string, body: seq<byte>)
    requires IsEntryName(name)
    ensures var (r, after) := FilesPost(store, name, body, NoFaults);
      && (|body| <= MaxRequestSize ==>
            && r.status == 201 && r.content == None && r.header == map[]
            && after.Keys == store.Keys + {name}
            && after[name] == body
            && forall n | n in store && n != name :: after[n] == store[n])
      && (|body| > MaxRequestSize ==> r.status == 500 && r.content == None && after == store)
  {
  }

  /** Without a fault, POST of a body of at most 1 MiB answers 201 and sets the named file to the body. */
  lemma FilesPostStores(store: Store, name: string, body: seq<byte>)
    requires IsEntryName(name) && |body| <= MaxRequestSize
    ensures FilesPost(store, name, body, NoFaults) == (Respond(StatusCreated, None, map[]), store[name := body])
  {
    assert ReadBody(body, false) == Some(body);
    assert StoreAfterWrite(store, name, body, Written) == store[name := body];
  }

  /** GET and every method other than POST leave the store alone; those other methods get 405. */
  lemma FilesOnlyPostWrites(store: Store, req: Request, faults: Faults)
    requires req.verb != "POST"
    ensures FilesStep(store, req, faults).1 == store
    ensures req.verb != "GET" ==> var r := FilesStep(store, req, faults).0;
      r.status == 405 && r.content == None && r.header == map[]
  {
  }

  /** A failing body read or directory creation leaves the store as it was and answers a bare 500. */
  lemma FilesPostFaultChangesNothing(store: Store, name: string, body: seq<byte>, faults: Faults)
    requires faults.bodyRead || faults.mkdirAll
    ensures var (r, after) := FilesPost(store, name, body, faults);
      after == store && r.status == 500 && r.content == None
  {
  }

  /**
   * A failing write answers a bare 500. Every other file is unchanged. A failing open leaves
   * the named file as it was too; a write that fails after the open leaves the named file
   * holding the first bytes of the body (all of them when only the close failed), which a
   * later GET returns.
   */
  lemma FilesPostWriteFault(store: Store, name: string, body: seq<byte>, faults: Faults)
    requires !faults.bodyRead && !faults.mkdirAll && !faults.writeFile.Written?
    requires |body| <= MaxRequestSize
    ensures var (r, after) := FilesPost(store, name, body, faults);
      && r.status == 500 && r.content == None
      && (forall n | n != name :: (n in after <==> n in store) && (n in after ==> after[n] == store[n]))
      && (faults.writeFile.OpenFailed? ==> after == store)
      && (faults.writeFile.FailedAfter? && IsEntryName(name) ==>
            && name in after
            && after[name] == body[..if faults.writeFile.count < |body| then faults.writeFile.count else |body|])
  {
  }

  /**
   * A GET or POST whose file name is `.` or `..` (which Join resolves to dataDir or its
   * parent, both directories) answers 500 and leaves the store alone, whatever the faults.
   */
  lemma ServeDirectoryNameFails(store: Store, req: Request, gzip: seq<byte> -> seq<byte>, faults: Faults)
    requires HasPrefix(req.path, "/files/") && (Base(req.path) == "." || Base(req.path) == "..")
    requires req.verb == "GET" || req.verb == "POST"
    ensures var (r, after) := Serve(store, req, gzip, faults);
      r.status == 500 && r.content == None && after == store
  {
    RouteFirstMatch(req.path);
    assert Serve(store, req, gzip, faults) == FilesStep(store, req, faults);
    var name := Base(req.path);
    assert !IsEntryName(name);
    if req.verb == "GET" {
      assert FilesStep(store, req, faults) == (FilesGet(store, name, faults.readFile), store);
    } else {
      assert FilesStep(store, req, faults) == FilesPost(store, name, req.body, faults);
    }
  }

  /** The store only ever holds entries directly inside dataDir. */
  lemma FilesKeepsEntryNames(store: Store, req: Request, faults: Faults)
    requires forall n | n in store :: IsEntryName(n)
    ensures forall n | n in FilesStep(store, req, faults).1 :: IsEntryName(n)
  {
  }

  /**
   * A successful POST to a file followed by a GET of a path with the same name gives 200 with
   * exactly the posted bytes.
   */
  lemma FilesPostThenGet(store: Store, post: Request, get: Request)
    requires post.verb == "POST" && get.verb == "GET"
    requires Base(get.path) == Base(post.path) && IsEntryName(Base(post.path))
    requires |post.body| <= MaxRequestSize
    ensures var after := FilesStep(store, post, NoFaults).1;
      var r := FilesStep(after, get, NoFaults).0;
      r.status == 200 && r.content == Some(post.body)
  {
    var name := Base(post.path);
    FilesPostResponse(store, name, post.body);
    FilesGetResponse(FilesPost(store, name, post.body, NoFaults).1, name);
  }

  // ---------------------------------------------------------------------------------------
  // The whole dispatch, as a function of the store

  /** The response to one parsed request, and the store after it. */
  function Serve(store: Store, req: Request, gzip: seq<byte> -> seq<byte>, faults: Faults): (Response, Store) {
    match Route(req.path)
    case Root => (HandleRoot(), store)
    case UserAgent => (HandleUserAgent(req), store)
    case Echo => (HandleEcho(req, gzip, faults.gzipWrite), store)
    case Files => FilesStep(store, req, faults)
    case NotFound => (HandleNotFound(), store)
  }

  /**
   * What every response satisfies: ContentLength is the content's exact length when there is
   * content and zero otherwise; a nil content comes with no header at all; and Content-Type
   * is present exactly when there is content.
   */
  predicate Framed(r: Response) {
    && LengthMatches(r)
    && (r.content.None? ==> r.header == map[])
    && ("Content-Type" in r.header <==> r.content.Some?)
  }

  /** Echo's responses are framed. */
  lemma EchoFramed(req: Request, gzip: seq<byte> -> seq<byte>, gzipFails: bool)
    ensures Framed(HandleEcho(req, gzip, gzipFails))
  {
  }

  /** The GET branch's responses are framed. */
  lemma FilesGetFramed(store: Store, name: string, readFails: bool)
    ensures Framed(FilesGet(store, name, readFails))
  {
  }

  /** The POST branch's responses are framed. */
  lemma FilesPostFramed(store: Store, name: string, body: seq<byte>, faults: Faults)
    ensures Framed(FilesPost(store, name, body, faults).0)
  {
    var r := FilesPost(store, name, body, faults).0;
    assert r == Respond(StatusCreated, None, map[]) || r == Respond(StatusInternalServerError, None, map[]);
  }

  /** The file handler's responses are framed. */
  lemma FilesFramed(store: Store, req: Request, faults: Faults)
    ensures Framed(FilesStep(store, req, faults).0)
  {
    var name := Base(req.path);
    if req.verb == "GET" {
      FilesGetFramed(store, name, faults.readFile);
    } else if req.verb == "POST" {
      FilesPostFramed(store, name, req.body, faults);
    }
  }

  /** Every response the server sends is framed. */
  lemma ServeFramed(store: Store, req: Request, gzip: seq<byte> -> seq<byte>, faults: Faults)
    ensures Framed(Serve(store, req, gzip, faults).0)
  {
    match Route(req.path)
    case Echo => EchoFramed(req, gzip, faults.gzipWrite);
    case Files => FilesFramed(store, req, faults);
    case _ =>
  }

  /** Only a POST routed to Files can change the store. */
  lemma ServeChangesStoreOnlyOnPost(store: Store, req: Request, gzip: seq<byte> -> seq<byte>, faults: Faults)
    requires Route(req.path) != Files || req.verb != "POST"
    ensures Serve(store, req, gzip, faults).1 == store
  {
  }

  /**
   * Through the router: a POST to any `/files/` path with a body of at most 1 MiB, then a GET
   * of a `/files/` path with the same file name (so `/files/a/b` and `/files/b/` both name
   * `b`), returns 200, `application/octet-stream` and the posted body.
   */
  lemma ServePostThenGetSameName(store: Store, post: Request, get: Request, gzip: seq<byte> -> seq<byte>)
    requires post.verb == "POST" && get.verb == "GET"
    requires HasPrefix(post.path, "/files/") && HasPrefix(get.path, "/files/")
    requires Base(get.path) == Base(post.path) && IsEntryName(Base(post.path))
    requires |post.body| <= MaxRequestSize
    ensures var after := Serve(store, post, gzip, NoFaults).1;
      var r := Serve(after, get, gzip, NoFaults).0;
      && r.status == 200
      && r.content == Some(post.body)
      && r.header == map["Content-Type" := ["application/octet-stream"]]
  {
    RouteFirstMatch(post.path);
    RouteFirstMatch(get.path);
    var after := FilesStep(store, post, NoFaults).1;
    FilesPostThenGet(store, post, get);
    FilesGetResponse(after, Base(get.path));
  }

  /**
   * Through the router, a POST to `/files/<name>` with a body of at most 1 MiB and no fault
   * answers 201 and makes the body the content of `<name>`, leaving every other file alone.
   */
  lemma ServePostStores(store: Store, post: Request, gzip: seq<byte> -> seq<byte>)
    requires post.verb == "POST" && HasPrefix(post.path, "/files/") && IsEntryName(post.path[7..])
    requires |post.body| <= MaxRequestSize
    ensures var (r, after) := Serve(store, post, gzip, NoFaults);
      r.status == 201 && after == store[post.path[7..] := post.body]
  {
    var name := post.path[7..];
    FilesPathName(name);
    assert post.path == "/files/" + name;
    RouteFirstMatch(post.path);
    assert Serve(store, post, gzip, NoFaults) == FilesStep(store, post, NoFaults);
    assert FilesStep(store, post, NoFaults) == FilesPost(store, name, post.body, NoFaults);
    FilesPostStores(store, name, post.body);
  }

  /**
   * The common case of the above: a POST to `/files/<name>` with a body of at most 1 MiB, then
   * a GET of the same path, returns 200, `application/octet-stream` and the posted body.
   */
  lemma ServePostThenGet(store: Store, post: Request, get: Request, gzip: seq<byte> -> seq<byte>)
    requires post.verb == "POST" && get.verb == "GET" && get.path == post.path
    requires HasPrefix(post.path, "/files/") && IsEntryName(post.path[7..])
    requires |post.body| <= MaxRequestSize
    ensures var after := Serve(store, post, gzip, NoFaults).1;
      var r := Serve(after, get, gzip, NoFaults).0;
      && r.status == 200
      && r.content == Some(post.body)
      && r.header == map["Content-Type" := ["application/octet-stream"]]
  {
    FilesPathName(post.path[7..]);
    assert post.path == "/files/" + post.path[7..];
    ServePostThenGetSameName(store, post, get, gzip);
  }

  // ---------------------------------------------------------------------------------------
  // The file store and the connection handler

  /** The result of `os.ReadFile`. */
  datatype ReadResult = Contents(content: seq<byte>) | NotExist | ReadFailed

  /** The directory `dataDir`: the regular files directly inside it, by name. */
  class FileStore {
    var files: Store

    ghost predicate Valid()
      reads this
    {
      forall name | name in files :: IsEntryName(name)
    }

    constructor (initial: Store)
      requires forall name | name in initial :: IsEntryName(name)
      ensures Valid() && files == initial
    {
      files := initial;
    }

    /**
     * `os.ReadFile(filepath.Join(dataDir, name))`: the bytes of an existing file, NotExist for
     * a missing one, and a failure when the read fails or the name resolves to a directory.
     */
    method ReadFile(name: string, fails: bool) returns (r: ReadResult)
      ensures r.Contents? <==> IsEntryName(name) && !fails && name in files
      ensures r.Contents? ==> r.content == files[name]
      ensures r.NotExist? <==> IsEntryName(name) && !fails && name !in files
    {
      if fails || !IsEntryName(name) {
        return ReadFailed;
      }
      if name in files {
        r := Contents(files[name]);
      } else {
        r := NotExist;
      }
    }

    /**
     * `os.WriteFile(filepath.Join(dataDir, name), content, 0666)`: opens the file, creating
     * or truncating it, and writes `content`. It reports success only when the whole write
     * and the close succeed; a name that resolves to a directory fails at the open.
     */
    method WriteFile(name: string, content: seq<byte>, outcome: WriteOutcome) returns (ok: bool)
      requires Valid()
      modifies this
      ensures Valid()
      ensures ok <==> IsEntryName(name) && outcome.Written?
      ensures files == StoreAfterWrite(old(files), name, content, outcome)
    {
      if !IsEntryName(name) || outcome.OpenFailed? {
        return false;
      }
      files := files[name := WrittenContent(content, outcome)];
      ok := outcome.Written?;
    }

    /** `handleFiles`, step by step against the store. */
    method HandleFiles(req: Request, faults: Faults) returns (resp: Response)
      requires Valid()
      modifies this
      ensures Valid()
      ensures (resp, files) == FilesStep(old(files), req, faults)
    {
      var name := Base(req.path);
      if req.verb == "GET" {
        var read := ReadFile(name, faults.readFile);
        match read
        case NotExist =>
          resp := HandleNotFound();
        case ReadFailed =>
          resp := SendResponse(StatusInternalServerError, None, map[]);
        case Contents(content) =>
          resp := SendResponse(StatusOK, Some(content), OctetStream);
      } else if req.verb == "POST" {
        var body := ReadBody(req.body, faults.bodyRead);
        if body.None? {
          resp := SendResponse(StatusInternalServerError, None, map[]);
          return;
        }
        if faults.mkdirAll {
          resp := SendResponse(StatusInternalServerError, None, map[]);
          return;
        }
        var ok := WriteFile(name, body.value, faults.writeFile);
        if !ok {
          resp := SendResponse(StatusInternalServerError, None, map[]);
          return;
        }
        resp := SendResponse(StatusCreated, None, map[]);
      } else {
        resp := SendResponse(StatusMethodNotAllowed, None, map[]);
      }
    }

    /**
     * `handleConnection` after parsing: a request that did not parse gets no response (the
     * connection is only closed); a parsed one is routed and answered.
     */
    method HandleConnection(parsed: Option<Request>, gzip: seq<byte> -> seq<byte>, faults: Faults)
      returns (resp: Option<Response>)
      requires Valid()
      modifies this
      ensures Valid()
      ensures parsed.None? ==> resp.None? && files == old(files)
      ensures parsed.Some? ==> resp.Some? && (resp.value, files) == Serve(old(files), parsed.value, gzip, faults)
      ensures forall name | name in files :: JoinDataDir(name) == DataDir + "/" + name
    {
      if parsed.None? {
        return None;
      }
      var req := parsed.value;
      var r: Response;
      match Route(req.path) {
        case Root =>
          r := HandleRoot();
        case UserAgent =>
          r := HandleUserAgent(req);
        case Echo =>
          r := HandleEcho(req, gzip, faults.gzipWrite);
        case Files =>
          r := HandleFiles(req, faults);
        case NotFound =>
          r := HandleNotFound();
      }
      resp := Some(r);
    }
  }

  /** A client of FileStore: a POST and then a GET of the same file return the posted body. */
  method PostThenGet(store: FileStore, post: Request, get: Request, gzip: seq<byte> -> seq<byte>)
    returns (created: Option<Response>, fetched: Option<Response>)
    requires store.Valid()
    requires post.verb == "POST" && get.verb == "GET" && get.path == post.path
    requires HasPrefix(post.path, "/files/") && IsEntryName(post.path[7..])
    requires |post.body| <= MaxRequestSize
    modifies store
    ensures created.Some? && created.value.status == 201
    ensures fetched.Some? && fetched.value.status == 200 && fetched.value.content == Some(post.body)
    ensures store.Valid()
    ensures store.files == old(store.files)[post.path[7..] := post.body]
  {
    ServePostThenGet(store.files, post, get, gzip);
    ServePostStores(store.files, post, gzip);
    ghost var after := store.files[post.path[7..] := post.body];
    created := store.HandleConnection(Some(post), gzip, NoFaults);
    fetched := store.HandleConnection(Some(get), gzip, NoFaults);
    ServeChangesStoreOnlyOnPost(after, get, gzip, NoFaults);
  }
}

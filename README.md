# Request dispatch of a minimal HTTP/1.1 server, modelled in Dafny

The server answers five kinds of request by path: `/` (a health check), `/user-agent`
(echoes the User-Agent header), `/echo/<text>` (echoes the text, gzip-compressed when the
client accepts gzip), `/files/<name>` (GET reads a file from a data directory, POST writes
one), and everything else (404). Byte-level HTTP parsing, wire serialisation and gzip
compression are library code. This model covers what the repository itself decides:

- the first-match-wins routing switch of `handleConnection`;
- the five handlers, each mapping a request to a status, a header and a content;
- gzip negotiation, which is a substring test on Accept-Encoding;
- how `sendResponse` fills the header and ContentLength;
- the file store that the `/files/` handler reads and writes.

Files:

- `wrappers.dfy`: `Option`, standing for Go's nil-able values.
- `gostrings.dfy`: a Go string as a Dafny `string` whose characters are all below 256
  (`GoString`). It also has `[]byte(s)` and its inverse, and `strings.IndexByte`,
  `LastIndexByte`, `SplitN`, `Join`, `Contains` and `HasPrefix`.
- `filepath.dfy`: `filepath.Base` for Unix paths.
- `http.dfy`: the parsed request, the response, `Header.Get`, and `sendResponse` (both the
  function `Respond` and the header-filling loop `SendResponse`). It also has the 1 MiB body
  limit that `http.MaxBytesReader` imposes.
- `server.dfy`: `Route`, the handlers, two reference functions and the `FileStore` class.
  `FilesStep` gives the file handler's effect as a function of the store, and `Serve` does
  the same for the whole dispatch. `FileStore` holds the store in a `map` field. Its methods
  `HandleFiles` and `HandleConnection` are proved equal to `FilesStep` and `Serve`. `ReadFile`
  and `WriteFile` have contracts of their own, which state the result and the new store
  directly. The class invariant `Valid()` says the store never holds `.`, `..`, the empty
  name or a name with `/`. `HandleConnection` keeps it and promises, through it, that every
  stored name resolves to a file directly inside dataDir. A client method (`PostThenGet`)
  runs a POST and then a GET through the class.

Inputs that the code does not decide are parameters:

- the gzip compressor is a function `seq<byte> -> seq<byte>`;
- a request that failed to parse is `None`;
- each error the code checks for is part of `Faults`: flags for the gzip writer, the body
  read, `os.MkdirAll` and `os.ReadFile` (a failure other than "does not exist"), and a
  `WriteOutcome` for `os.WriteFile`. A write either succeeds, fails at the open (the file
  is untouched), or fails after it. In the last case the file was created or truncated and
  holds the first bytes of the body, all of them when only the close failed.

### Behaviour worth noting

- A POST body over 1 MiB makes `io.ReadAll` fail, and the handler answers 500.
- `Header.Get` returns the first value of a repeated header.
- `filepath.Base` of a path made only of slashes is `/`. The empty path gives `.` through a
  special case, and a path whose last element is `.` gives `.` too. No path that reaches
  the file handler is empty or made only of slashes.
- Root answers 200 to every method.
- The file name of `/files/.` is `.`, which Join resolves to dataDir itself. The file name
  of `/files/..` is `..`, which Join resolves to dataDir's parent. Both are directories, so
  reading or writing them fails. The model answers 500 for these names and never stores
  them.

## Model

| member | source | states |
|---|---|---|
| GoStrings.HasPrefix | app/server.go:55-57 | `strings.HasPrefix`: `prefix` is a prefix of `s`; RouteFirstMatch and EchoSplit state what it decides for the router and for Echo |
| GoStrings.ToBytes | app/server.go:93 | `[]byte(s)` has the length of `s` and, position by position, the same byte values |
| GoStrings.BytesRoundTrip | app/server.go:93 | converting a Go string to bytes and back gives the same string |
| GoStrings.IndexOf | app/server.go:87 | returns None exactly when the separator is absent, otherwise its first position |
| GoStrings.LastIndexOf | app/server.go:114 | returns None exactly when `/` is absent, otherwise its last position |
| GoStrings.SplitN | app/server.go:87 | limit 0 gives no pieces, otherwise at most `n` pieces; every piece but the last is free of the separator, and so is the last one when there are fewer than `n` |
| GoStrings.SplitNJoin | app/server.go:87 | joining the pieces with the separator gives back the split string |
| GoStrings.SplitNBytes | app/server.go:93 | every piece of a split Go string is a Go string, so `[]byte(parts[2])` is defined |
| GoStrings.Contains | app/server.go:187 | true exactly when the substring occurs at some position, including the empty substring |
| FilePath.TrimTrailingSlashes | app/server.go:114 | the result is a prefix that does not end in `/`, and only slashes were removed |
| FilePath.LastElement | app/server.go:114 | the result is the suffix after the last `/` and contains no `/` |
| FilePath.Base | app/server.go:114 | never empty; either `/` or free of `/`; `/` exactly for non-empty all-slash paths; `.` for the empty path |
| FilePath.BaseIsLastElement | app/server.go:114 | Base is a piece of the path that starts the path or follows a `/`, and only slashes follow it |
| Http.HeaderGet | app/server.go:82 | `Header.Get` for a canonical key: the first value, or "" when the key is absent or has no values; UserAgentResponse, AcceptsGzip and NoAcceptEncodingNoGzip state its effect on the handlers |
| Http.Respond | app/server.go:162-179 | the header holds exactly the caller's keys, each with its one value; ContentLength is the content's length for non-nil content and zero otherwise |
| Http.SendResponse | app/server.go:162-179 | the `for k, v := range headers` loop with `Header.Set` in any iteration order, plus the conditional ContentLength assignment, builds exactly `Respond`'s response |
| Http.ReadBody | app/server.go:132-137 | `io.ReadAll` behind `MaxBytesReader(…, maxRequestSize)`, where `maxRequestSize` is 1 MiB (app/server.go:19) and the reader is installed at app/server.go:72: a body of at most 1 MiB is read whole; a longer body, or a failing read, is an error |
| Server.Route | app/server.go:50-61 | the switch of `handleConnection`, first match wins; RouteFirstMatch states which paths go to each handler |
| Server.RouteFirstMatch | app/server.go:50-61 | `/` goes to Root, `/user-agent` to UserAgent, paths with prefix `/echo/` to Echo, prefix `/files/` to Files, and every other path to NotFound; each holds as an if-and-only-if, so the rules are disjoint |
| Server.HandleRoot | app/server.go:77-79 | `handleRoot`; RootResponse states its response |
| Server.RootResponse | app/server.go:77-79 | 200, nil content, no header, zero ContentLength |
| Server.HandleNotFound | app/server.go:158-160 | `handleNotFound`; NotFoundResponse states its response |
| Server.NotFoundResponse | app/server.go:158-160 | 404, nil content, no header, zero ContentLength |
| Server.HandleUserAgent | app/server.go:81-84 | `handleUserAgent`; UserAgentResponse states its response |
| Server.UserAgentResponse | app/server.go:81-84 | 200 and Content-Type `text/plain`; the content is the first User-Agent value, or empty but non-nil when there is none; ContentLength is its length |
| Server.AcceptsGzip | app/server.go:186-188 | true exactly when the first Accept-Encoding value contains `gzip` at some position |
| Server.NoAcceptEncodingNoGzip | app/server.go:186-188 | a request without Accept-Encoding is never compressed |
| Server.HandleEcho | app/server.go:86-111 | `handleEcho`; EchoSplit, EchoResponse, EchoRouteNeverFallsBack, EchoGzipRoundTrip and EchoFramed state its behaviour |
| Server.EchoSplit | app/server.go:87-93 | a path starting `/echo/` splits with limit 3 into "", "echo" and everything after `/echo/`, further slashes included |
| Server.EchoResponse | app/server.go:86-111 | on `/echo/<rest>`: without gzip, 200, only `Content-Type: text/plain`, content `<rest>`; with gzip, the same plus `Content-Encoding: gzip` and content `gzip(<rest>)`; a failing gzip writer gives a bare 500 |
| Server.EchoRouteNeverFallsBack | app/server.go:86-91 | every path the router sends to Echo splits into three pieces, so Echo's 404 fallback is never taken from the router |
| Server.EchoGzipRoundTrip | app/server.go:96-110 | with a decompressor that inverts the compressor, a compressed echo decompresses to `<rest>` |
| Server.JoinDataDir | app/server.go:115 | `filepath.Join(dataDir, name)` for a name from Base: `dataDir/<name>` for an entry name, dataDir itself for `.` and `/`, dataDir's parent for `..` |
| Server.JoinDataDirBase | app/server.go:114-115 | for an entry name, Base of the joined path gives the name back |
| Server.BaseOfElement | app/server.go:114 | the Base of `dir/<name>` is `name` for any non-empty name without `/` |
| Server.FilesPathName | app/server.go:114 | `/files/<name>` addresses file `name` |
| Server.FilesNameGuard | app/server.go:114-115 | a `/files/` path's file name is non-empty and free of `/`; Join puts it directly inside dataDir unless it is `.` or `..` |
| Server.DotDotReachesParent | app/server.go:114-115 | the file name of `/files/..` is `..`, and Join resolves it to dataDir's parent |
| Server.FilesGet | app/server.go:118-129 | the GET branch of `handleFiles`; FilesGetResponse states its responses, and a read fault or a directory name gives 500 |
| Server.FilesPost | app/server.go:131-151 | the POST branch of `handleFiles` and the store after it; FilesPostResponse, FilesPostStores, FilesPostFaultChangesNothing and FilesPostWriteFault state its responses and new store |
| Server.FilesStep | app/server.go:113-156 | `handleFiles` as a function of the store; FilesOnlyPostWrites, FilesKeepsEntryNames, FilesPostThenGet and FilesFramed state its properties |
| Server.FilesGetResponse | app/server.go:118-129 | GET without a read fault: a missing file gives 404 with no content; a present file gives 200, `application/octet-stream` and exactly the stored bytes |
| Server.WrittenContent | app/server.go:145 | what a write that got past the open leaves in the file: a prefix of the content, all of it on success, exactly `count` bytes when the write stopped after `count` bytes |
| Server.StoreAfterWrite | app/server.go:145 | the store after `os.WriteFile`: unchanged for a directory name or a failing open; otherwise the named file holds a prefix of the content, all of it on success; no other file changes |
| Server.FilesPostStores | app/server.go:131-151 | without faults, POST of an entry name with a body of at most 1 MiB answers 201 and gives the old store with the name set to the body |
| Server.FilesPostResponse | app/server.go:131-151 | POST of a body of at most 1 MiB without faults gives 201 with no content; the file's content becomes the body and every other file is unchanged; a body over 1 MiB gives 500 and changes nothing |
| Server.FilesOnlyPostWrites | app/server.go:117-155 | only POST can change the store; methods other than GET and POST get a bare 405 |
| Server.FilesPostFaultChangesNothing | app/server.go:132-149 | a failing body read or directory creation gives a bare 500 and leaves the store unchanged |
| Server.FilesPostWriteFault | app/server.go:145-149 | a failing write gives a 500 with nil content and changes no other file; a failing open leaves the store unchanged; a write that fails after the open leaves the named file holding the first `count` bytes of the body (all of it if `count` reaches its length) |
| Server.ServeDirectoryNameFails | app/server.go:113-151 | a GET or POST to a `/files/` path whose file name is `.` or `..` answers 500 with nil content and leaves the store unchanged, whatever the faults |
| Server.FilesKeepsEntryNames | app/server.go:113-156 | the store only ever holds names of entries directly inside dataDir |
| Server.FilesPostThenGet | app/server.go:118-151 | a successful POST and then a GET of the same file name return 200 with exactly the posted body |
| Server.EchoFramed | app/server.go:86-111 | every Echo response satisfies `Framed` |
| Server.FilesGetFramed | app/server.go:118-129 | every response of the GET branch satisfies `Framed` |
| Server.FilesPostFramed | app/server.go:131-151 | every response of the POST branch satisfies `Framed` |
| Server.FilesFramed | app/server.go:113-156 | every file-handler response satisfies `Framed` |
| Server.Serve | app/server.go:50-61 | the dispatch of a parsed request as a function of the store; ServeFramed, ServeChangesStoreOnlyOnPost and the two round-trip lemmas state its properties |
| Server.ServeFramed | app/server.go:173-179 | every response satisfies `Framed`: ContentLength equals the content's length, nil content comes with no header at all, and Content-Type is present exactly when there is content |
| Server.ServeChangesStoreOnlyOnPost | app/server.go:50-61 | only a POST routed to Files can change the store |
| Server.ServePostThenGetSameName | app/server.go:41-62 | through the router, POST to a `/files/` path whose file name is an entry name (not `.` or `..`) with a body of at most 1 MiB and then GET of a `/files/` path with the same file name (`/files/a/b` and `/files/b/` both name `b`) return 200, `application/octet-stream` and the posted body |
| Server.ServePostStores | app/server.go:50-61 | through the router, a fault-free POST to `/files/<name>` with a body of at most 1 MiB answers 201 and sets `<name>` to the body, leaving every other file alone |
| Server.ServePostThenGet | app/server.go:41-62 | through the router, POST to `/files/<name>` with a body of at most 1 MiB and then GET of the same path return 200, `application/octet-stream` and the posted body |
| Server.FileStore.ReadFile | app/server.go:119-127 | an existing entry gives its bytes; a missing entry gives NotExist; a read fault, or a name that resolves to a directory, gives a failure |
| Server.FileStore.WriteFile | app/server.go:145-149 | succeeds exactly for an entry name whose write completes; the new store is `StoreAfterWrite` of the old one, so a failed open changes nothing and a write that fails after the open leaves a prefix of the content |
| Server.FileStore.HandleFiles | app/server.go:113-156 | the imperative handler gives exactly `FilesStep`'s response and new store, and keeps the store invariant |
| Server.FileStore.HandleConnection | app/server.go:41-62 | a request that failed to parse gets no response and the store is unchanged; a parsed one gets `Serve`'s response and new store; afterwards every stored name resolves to a file directly inside dataDir |
| Server.PostThenGet | app/server.go:118-151 | a client of FileStore: POST to `/files/<name>` with a body of at most 1 MiB, then GET of the same path, gives 201 and then 200 with the posted body; afterwards the store still satisfies `Valid()` and is the old store with `<name>` set to the body |

## Left out

- The accept loop of `main` and the goroutine per connection (app/server.go:22-39). These
  are TCP I/O and concurrency. The last-writer-wins race between two connections that
  write the same file is therefore not modelled.
- `parseRequest` and `http.ReadRequest` (app/server.go:64-75). They are library parsing.
  A request that fails to parse is `None`. The only effect kept from `MaxBytesReader` is
  the 1 MiB limit on reading the body.
- Header-name canonicalisation. Request-header keys are taken as already canonical. The
  header names the handlers use are already canonical, so `Header.Set` and `Header.Get`
  canonicalise them to themselves.
- `resp.Write` and `http.StatusText` (app/server.go:163-171, 181-183). These are wire
  serialisation inside the library. A failed write is only logged, so nothing in the
  model depends on it.
- The gzip algorithm. It is an uninterpreted function parameter. A failing
  `gzipWriter.Write` is the `gzipWrite` fault. The error from `gzipWriter.Close` is
  ignored by the code, and the model ignores it too.
- Real filesystem behaviour. Permissions and the causes of `os.ReadFile`,
  `os.MkdirAll` and `os.WriteFile` errors are `Faults`, and how many bytes a failing write got out is its `count`. `os.IsNotExist` is
  "the name is not in the store". dataDir is assumed to exist as a directory when `.` or
  `..` is read or written.
- Logging.
- ContentLength is an unbounded integer, not Go's `int64`. No content can reach 2^63 bytes.

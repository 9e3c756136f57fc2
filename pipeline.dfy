/**
  What handle_client_request does for one connection, as a function of what
  the first read returns, of the filesystem and of whether the pattern
  compiles: READ, then CLOSED, a setup failure, BADREQ or a parsed request,
  then dispatch on the method, path resolution and send_file.
*/
module Pipeline {
  import opened Wrappers
  import opened CStrings
  import opened RequestLine
  import opened ContentType
  import opened Responses

  /** The read asks for BUFFER_SIZE - 1 bytes, keeping one for the NUL. */
  const ReadLimit: nat := BufferSize - 1

  /** The document root and the page served for `/`. */
  const Root: string := "./host_website"
  const IndexPage: string := "/index.html"

  /** Capacity of `char file_path[256]`. */
  const FilePathCapacity: nat := 256

  /**
    The files open() can open for reading, by path, with their contents; a
    path that is not a key fails to open. `statFails` says whether fstat fails.
  */
  datatype FileSystem = FileSystem(files: map<string, seq<Byte>>, statFails: bool)

  /**
    The path given to open: the root followed by `/index.html` for `/`, and
    otherwise by the request path as it is, `..` included, cut by strncat so
    that it fits `file_path` with its NUL.
  */
  function ResolvePath(path: string): (r: string)
    ensures |r| < FilePathCapacity
    ensures Root <= r
  {
    if path == "/" then Root + IndexPage
    else Root + Truncate(path, FilePathCapacity - |Root| - 1)
  }

  /**
    In terms of the path group: `/` gives the index page; any other path is
    appended as it is, and the whole file path is cut to 255 characters.
  */
  lemma ResolvedGroup(rl: RequestLine)
    ensures ResolvePath(Extract(rl).path)
      == if rl.path == "/" then Root + IndexPage
         else Truncate(Root + rl.path, FilePathCapacity - 1)
  {
    ExtractKeepsDispatch(rl);
    var p := rl.path;
    if p != "/" {
      var t := Extract(rl).path;
      var k := FilePathCapacity - |Root| - 1;
      if |p| > k {
        assert Truncate(t, k) == p[..k];
        assert (Root + p)[..FilePathCapacity - 1] == Root + p[..k];
      }
    }
  }

  /** No `..` is removed: traversal out of the document root reaches open() unchanged. */
  lemma TraversalIsNotRemoved()
    ensures ResolvePath("/../../etc/passwd") == "./host_website/../../etc/passwd"
  {
  }

  /** send_file: 404 when open fails, 500 when fstat fails, otherwise the file. */
  function ServeFile(fs: FileSystem, path: string): (r: Response)
    ensures r.Error? <==> path !in fs.files || fs.statFails
    ensures r.Error? && path !in fs.files ==> r == Error(404, "Not Found")
    ensures r.Error? && path in fs.files ==> r == Error(500, "Internal Error: Failed to get file size")
    ensures r.File? ==> r.content == fs.files[path] && r.contentType == FileType(path)
  {
    if path !in fs.files then Error(404, "Not Found")
    else if fs.statFails then Error(500, "Internal Error: Failed to get file size")
    else File(FileType(path), fs.files[path])
  }

  /** The bytes the first read delivers, seen as the C string regexec scans. */
  function RequestText(unread: seq<Byte>): string {
    CStr(Truncate(unread, ReadLimit))
  }

  /**
    The response the worker sends, or None when the read returns 0 or fails
    and nothing is sent.
  */
  function Respond(fs: FileSystem, readFails: bool, unread: seq<Byte>, regcompFails: bool): Option<Response> {
    if readFails || unread == [] then None
    else if regcompFails then Some(Error(500, "Internal Server Error"))
    else match Match(RequestText(unread))
      case None => Some(Error(400, "Bad HTTP Request"))
      case Some(rl) => Some(Dispatch(fs, rl))
  }

  /**
    The answer to a matched request line, from its groups as copied into the
    method and path buffers: send_file on the resolved path for GET, 405 for
    any other method.
  */
  function Dispatch(fs: FileSystem, rl: RequestLine): Response {
    var t := Extract(rl);
    if t.httpMethod == "GET" then ServeFile(fs, ResolvePath(t.path))
    else Error(405, "Method Not Supported")
  }

  /** The path send_file is given, when the request gets that far. */
  function OpenedPath(readFails: bool, unread: seq<Byte>, regcompFails: bool): Option<string> {
    if readFails || unread == [] || regcompFails then None
    else match Match(RequestText(unread))
      case None => None
      case Some(rl) =>
        var t := Extract(rl);
        if t.httpMethod == "GET" then Some(ResolvePath(t.path)) else None
  }

  /**
    The filesystem is consulted only through send_file: a request that reaches
    it is answered by ServeFile on the opened path, and every other answer is
    the same whatever the filesystem holds.
  */
  lemma FileSystemOnlyThroughOpen(fs: FileSystem, other: FileSystem, readFails: bool, unread: seq<Byte>,
                                  regcompFails: bool)
    ensures var p := OpenedPath(readFails, unread, regcompFails);
      p.Some? ==> Respond(fs, readFails, unread, regcompFails) == Some(ServeFile(fs, p.value))
    ensures OpenedPath(readFails, unread, regcompFails).None?
      ==> Respond(fs, readFails, unread, regcompFails) == Respond(other, readFails, unread, regcompFails)
  {
  }

  /** Every write() the worker makes on the connection, in order. */
  function Handle(fs: FileSystem, readFails: bool, unread: seq<Byte>, regcompFails: bool): seq<string> {
    match Respond(fs, readFails, unread, regcompFails)
    case None => []
    case Some(r) => Wire(r)
  }

  /** A read of 0 bytes or an error writes nothing; every other path writes one response. */
  lemma SilentExactlyWhenClosed(fs: FileSystem, readFails: bool, unread: seq<Byte>, regcompFails: bool)
    ensures Handle(fs, readFails, unread, regcompFails) == [] <==> readFails || unread == []
    ensures Respond(fs, readFails, unread, regcompFails).None? <==> readFails || unread == []
  {
  }

  /** When the pattern cannot be compiled the client gets 500 Internal Server Error. */
  lemma SetupFailureIs500(fs: FileSystem, unread: seq<Byte>)
    requires unread != []
    ensures Handle(fs, false, unread, true) == [ErrorResponse(500, "Internal Server Error")]
  {
  }

  /** 400 Bad HTTP Request is sent exactly when the grammar does not match. */
  lemma BadRequestExactlyWhenNoMatch(fs: FileSystem, unread: seq<Byte>)
    requires unread != []
    ensures Respond(fs, false, unread, false) == Some(Error(400, "Bad HTTP Request"))
      <==> !exists rl :: Matches(RequestText(unread), rl)
  {
    MatchIffGrammar(RequestText(unread));
  }

  /**
    A request line whose method is not exactly GET gets 405 Method Not
    Supported, whatever the path, and the filesystem plays no part in it.
  */
  lemma NonGetIs405(fs: FileSystem, other: FileSystem, unread: seq<Byte>, rl: RequestLine)
    requires unread != []
    requires Matches(RequestText(unread), rl) && rl.httpMethod != "GET"
    ensures Respond(fs, false, unread, false) == Some(Error(405, "Method Not Supported"))
    ensures Handle(fs, false, unread, false) == Handle(other, false, unread, false)
  {
    MatchComplete(RequestText(unread), rl);
    ExtractKeepsDispatch(rl);
  }

  /** A GET is answered by send_file on the resolved path. */
  lemma GetIsServed(fs: FileSystem, unread: seq<Byte>, rl: RequestLine)
    requires unread != []
    requires Matches(RequestText(unread), rl) && rl.httpMethod == "GET"
    ensures Respond(fs, false, unread, false) == Some(ServeFile(fs,
      if rl.path == "/" then Root + IndexPage else Truncate(Root + rl.path, FilePathCapacity - 1)))
  {
    MatchComplete(RequestText(unread), rl);
    ExtractKeepsDispatch(rl);
    ResolvedGroup(rl);
  }

  /** A request for `/` is answered exactly as the same request for `/index.html`. */
  lemma RootIsIndex(fs: FileSystem, u1: seq<Byte>, u2: seq<Byte>, m: string)
    requires u1 != [] && u2 != []
    requires Matches(RequestText(u1), RequestLine(m, "/"))
    requires Matches(RequestText(u2), RequestLine(m, IndexPage))
    ensures Handle(fs, false, u1, false) == Handle(fs, false, u2, false)
  {
    var r1, r2 := RequestLine(m, "/"), RequestLine(m, IndexPage);
    MatchComplete(RequestText(u1), r1);
    MatchComplete(RequestText(u2), r2);
    ExtractKeepsDispatch(r1);
    ExtractKeepsDispatch(r2);
    ResolvedGroup(r1);
    ResolvedGroup(r2);
    assert Truncate(Root + IndexPage, FilePathCapacity - 1) == Root + IndexPage;
  }

  /**
    A file that opens and whose size is known is sent as a 200 header whose
    Content-Length reads back as the file's size, followed by the file's bytes
    exactly, in writes of at most BufferSize bytes.
  */
  lemma ServedFileOnWire(fs: FileSystem, path: string)
    requires path in fs.files && !fs.statFails
    requires |fs.files[path]| <= MaxFileSize
    ensures var ws := Wire(ServeFile(fs, path));
      && ws[0] == "HTTP/1.1 200 OK\r\nContent-Type: " + FileType(path)
         + "\r\nContent-Length: " + Decimal.Format(|fs.files[path]|) + "\r\n\r\n"
      && Decimal.Value(Decimal.Format(|fs.files[path]|)) == |fs.files[path]|
      && Concat(ws[1..]) == fs.files[path]
      && forall i :: 1 <= i < |ws| ==> 0 < |ws[i]| <= BufferSize
  {
    var r := ServeFile(fs, path);
    assert |FileType(path)| <= 100;
    OkHeaderComplete(FileType(path), |fs.files[path]|);
    WireCarriesFile(r);
  }

  /**
    Each 4xx response the server sends is its status line, a text/plain
    header and the reason as its body, uncut.
  */
  lemma ClientErrorResponsesExact()
    ensures ErrorResponse(400, "Bad HTTP Request")
      == "HTTP/1.1 400 " + "Bad HTTP Request" + "\r\nContent-Type: text/plain\r\n\r\n" + "Bad HTTP Request"
    ensures ErrorResponse(404, "Not Found")
      == "HTTP/1.1 404 " + "Not Found" + "\r\nContent-Type: text/plain\r\n\r\n" + "Not Found"
    ensures ErrorResponse(405, "Method Not Supported")
      == "HTTP/1.1 405 " + "Method Not Supported" + "\r\nContent-Type: text/plain\r\n\r\n" + "Method Not Supported"
  {
    StatusCodesFormat();
    ErrorResponseComplete(400, "Bad HTTP Request");
    ErrorResponseComplete(404, "Not Found");
    ErrorResponseComplete(405, "Method Not Supported");
  }

  /** Both 500 responses, for a pattern that does not compile and for a failed fstat, are sent uncut. */
  lemma ServerErrorResponsesExact()
    ensures ErrorResponse(500, "Internal Server Error")
      == "HTTP/1.1 500 " + "Internal Server Error" + "\r\nContent-Type: text/plain\r\n\r\n" + "Internal Server Error"
    ensures ErrorResponse(500, "Internal Error: Failed to get file size")
      == "HTTP/1.1 500 " + "Internal Error: Failed to get file size" + "\r\nContent-Type: text/plain\r\n\r\n"
         + "Internal Error: Failed to get file size"
  {
    StatusCodesFormat();
    ErrorResponseComplete(500, "Internal Server Error");
    ErrorResponseComplete(500, "Internal Error: Failed to get file size");
  }

  /** The status codes the server sends, in decimal. */
  lemma StatusCodesFormat()
    ensures Decimal.Format(400) == "400" && Decimal.Format(404) == "404"
    ensures Decimal.Format(405) == "405" && Decimal.Format(500) == "500"
  {
  }

  /** A request line without NUL that fits one read reaches the matcher whole. */
  lemma RequestTextOfLine(u: seq<Byte>)
    requires NUL !in u && |u| <= ReadLimit
    ensures RequestText(u) == u
  {
    StrLenFirstNul(u, |u|);
  }

  /** A GET for `/` is answered with the index page as text/html, when it opens. */
  lemma GetRootServesIndex(fs: FileSystem, u: seq<Byte>)
    requires u != [] && Matches(RequestText(u), RequestLine("GET", "/"))
    requires Root + IndexPage in fs.files && !fs.statFails
    ensures Handle(fs, false, u, false)
        == [OkHeader("text/html", |fs.files[Root + IndexPage]|)]
           + Chunks<char>(fs.files[Root + IndexPage], BufferSize)
  {
    GetIsServed(fs, u, RequestLine("GET", "/"));
    IndexIsHtml();
  }

  /**
    A browser's request for the home page: the line `GET / HTTP/1.1` followed
    by any headers, all within one read and free of NUL.
  */
  lemma IndexRequestServed(fs: FileSystem, headers: string, u: seq<Byte>)
    requires u == Head(RequestLine("GET", "/")) + ['1'] + headers
    requires NUL !in headers && |u| <= ReadLimit
    requires Root + IndexPage in fs.files && !fs.statFails
    ensures Handle(fs, false, u, false)
        == [OkHeader("text/html", |fs.files[Root + IndexPage]|)]
           + Chunks<char>(fs.files[Root + IndexPage], BufferSize)
  {
    var rl := RequestLine("GET", "/");
    assert NUL !in Head(rl) + ['1'];
    RequestTextOfLine(u);
    assert IsMethodToken("GET");
    LineMatches(rl, '1', headers);
    GetRootServesIndex(fs, u);
  }

  lemma IndexIsHtml()
    ensures FileType(Root + IndexPage) == "text/html"
  {
    assert Root + IndexPage == (Root + "/index") + ".html";
    FileTypeOfSuffix(Root + "/index", ".html");
  }

  /** A lower-case method is a bad request. */
  lemma LowerCaseMethodRejected()
    ensures Match("get / HTTP/1.1") == None
  {
    UpperRunAt("get / HTTP/1.1", 0, 0);
  }

  /**
    A path without its leading slash is a bad request: whatever the line holds,
    when the character after the capitals and one space is not `/`, as in
    `GET index.html HTTP/1.1`, it is rejected.
  */
  lemma MissingSlashRejected(s: string)
    requires UpperRun(s, 0) + 1 >= |s| || s[UpperRun(s, 0) + 1] != '/'
    ensures Match(s) == None
  {
  }

  /** The version marker ` HTTP/1.` occurs in `s` at position i. */
  predicate MarkerAt(s: string, i: nat) {
    i + |VersionMarker| <= |s| && s[i..i + |VersionMarker|] == VersionMarker
  }

  /** In an accepted line the marker follows the path group. */
  lemma MatchHasMarker(s: string)
    ensures Match(s).Some? ==> MarkerAt(s, |Match(s).value.httpMethod| + 1 + |Match(s).value.path|)
  {
    if Match(s).Some? {
      var rl := Match(s).value;
      var e := |rl.httpMethod| + 1 + |rl.path|;
      HeadLayout(rl);
      var h := Head(rl);
      assert s[..|h|] == h;
      assert s[e..e + |VersionMarker|] == h[e..];
    }
  }

  /**
    A request line without the version is a bad request: a line in which
    ` HTTP/1.` occurs nowhere, such as `GET /`, is rejected.
  */
  lemma MissingVersionRejected(s: string)
    requires forall i: nat :: !MarkerAt(s, i)
    ensures Match(s) == None
  {
    MatchHasMarker(s);
  }

  /** Only HTTP/1.0 and HTTP/1.1 are accepted. */
  lemma OtherVersionRejected()
    ensures Match("GET / HTTP/2.0") == None
  {
    var s := "GET / HTTP/2.0";
    UpperRunAt(s, 0, 3);
    NextSpaceAt(s, 5, 5);
    assert s[5..13] != VersionMarker by {
      assert s[5..13][6] == '2';
    }
  }
}

/**
  The worker of one connection in the server's own, imperative form: file
  descriptors whose reads, writes and closes are recorded, the heap cell that
  carries the socket to the worker, the compiled pattern, and the operations
  send_error_response, send_file and handle_client_request over fixed buffers.
*/
module Server {
  import opened Wrappers
  import opened CStrings
  import opened RequestLine
  import opened ContentType
  import opened Responses
  import opened Pipeline

  /**
    The record of every descriptor opened and every pattern set up by
    regcomp, in order, so that what the worker must release is stated over all
    of them and not only over the ones its methods return.
  */
  class Resources {
    ghost var descriptors: seq<Fd>
    ghost var patterns: seq<Regex>

    constructor ()
      ensures descriptors == [] && patterns == []
    {
      descriptors := [];
      patterns := [];
    }
  }

  /**
    An open file descriptor, for the client's socket or for a served file.
    `unread` is what the next reads deliver, `readFails` makes every read
    return -1, `writes` lists the data of each write() call, `closes` counts
    the close() calls.
  */
  class Fd {
    var unread: seq<Byte>
    const readFails: bool
    var writes: seq<string>
    var closes: nat

    /** A new descriptor, recorded in `log`. */
    constructor (input: seq<Byte>, fails: bool, ghost log: Resources)
      modifies log
      ensures unread == input && readFails == fails && writes == [] && closes == 0
      ensures log.descriptors == old(log.descriptors) + [this] && log.patterns == old(log.patterns)
    {
      unread := input;
      readFails := fails;
      writes := [];
      closes := 0;
      new;
      log.descriptors := log.descriptors + [this];
    }

    /**
      read(fd, buf, count): -1 on error, otherwise as many of the waiting bytes
      as fit, 0 at end of input. Nothing beyond buf[0..n] changes.
    */
    method Read(buf: array<char>, count: nat) returns (n: int)
      requires closes == 0 && count <= buf.Length
      modifies this, buf
      ensures readFails ==> n == -1 && unread == old(unread) && buf[..] == old(buf[..])
      ensures !readFails ==> (&& n == Min(count, |old(unread)|)
                              && buf[..n] == old(unread)[..n]
                              && buf[n..] == old(buf[n..])
                              && unread == old(unread)[n..])
      ensures writes == old(writes) && closes == old(closes)
    {
      if readFails {
        n := -1;
        return;
      }
      n := Min(count, |unread|);
      var i := 0;
      while i < n
        invariant 0 <= i <= n
        invariant buf[..i] == unread[..i]
        invariant buf[n..] == old(buf[n..])
        invariant unread == old(unread) && n <= |unread|
        modifies buf
      {
        buf[i] := unread[i];
        i := i + 1;
      }
      unread := unread[n..];
    }

    /** write(fd, data, |data|), taken to write everything. */
    method Write(data: string)
      requires closes == 0
      modifies this
      ensures writes == old(writes) + [data]
      ensures unread == old(unread) && closes == old(closes)
    {
      writes := writes + [data];
    }

    method Close()
      modifies this
      ensures closes == old(closes) + 1
      ensures unread == old(unread) && writes == old(writes)
    {
      closes := closes + 1;
    }
  }

  /** The malloc'ed cell through which main hands the socket to the worker. */
  class Arg {
    const fd: Fd
    var frees: nat

    constructor (fd: Fd)
      ensures this.fd == fd && frees == 0
    {
      this.fd := fd;
      frees := 0;
    }

    method Free()
      modifies this
      ensures frees == old(frees) + 1
    {
      frees := frees + 1;
    }
  }

  /** The compiled pattern; `frees` counts the regfree calls. */
  class Regex {
    const compiled: bool
    var frees: nat

    /** regcomp, whose failure is an input of the model. */
    constructor Compile(fails: bool, ghost log: Resources)
      modifies log
      ensures compiled == !fails && frees == 0
      ensures log.patterns == old(log.patterns) + [this] && log.descriptors == old(log.descriptors)
    {
      compiled := !fails;
      frees := 0;
      new;
      log.patterns := log.patterns + [this];
    }

    /** regexec over a buffer, which it reads as a C string. */
    method Exec(buffer: seq<char>) returns (r: Option<RequestLine>)
      requires compiled
      ensures r == Match(CStr(buffer))
    {
      r := Match(CStr(buffer));
    }

    method Free()
      requires compiled
      modifies this
      ensures frees == old(frees) + 1
    {
      frees := frees + 1;
    }
  }

  /** open(path, O_RDONLY): null when it fails, else a fresh descriptor at the file's start. */
  method OpenFile(fs: FileSystem, path: string, ghost log: Resources) returns (f: Fd?)
    modifies log
    ensures log.descriptors == old(log.descriptors) + (if f == null then [] else [f])
    ensures log.patterns == old(log.patterns)
    ensures f == null <==> path !in fs.files
    ensures f != null ==> (fresh(f) && f.unread == fs.files[path] && !f.readFails
                           && f.writes == [] && f.closes == 0)
  {
    if path in fs.files {
      f := new Fd(fs.files[path], false, log);
    } else {
      f := null;
    }
  }

  /** fstat: whether it succeeds, and the size of the file behind the descriptor. */
  method Fstat(fs: FileSystem, f: Fd) returns (ok: bool, size: nat)
    requires f.closes == 0
    ensures ok == !fs.statFails && size == |f.unread|
  {
    ok := !fs.statFails;
    size := |f.unread|;
  }

  /** send_error_response: one write of the formatted error. */
  method SendErrorResponse(conn: Fd, code: nat, reason: string)
    requires conn.closes == 0
    modifies conn
    ensures conn.writes == old(conn.writes) + Wire(Error(code, reason))
    ensures conn.unread == old(conn.unread) && conn.closes == old(conn.closes)
  {
    var response := Snprintf(ErrorText(code, reason));
    conn.Write(response);
  }

  /**
    send_file: the error response when open or fstat fails (closing the file in
    the second case), otherwise the header and then one write per read of at
    most BufferSize bytes until a read returns 0. Every file it opens it closes
    exactly once.
  */
  method SendFile(conn: Fd, fs: FileSystem, path: string, ghost log: Resources) returns (ghost file: Fd?)
    requires conn.closes == 0
    modifies conn, log
    ensures log.descriptors == old(log.descriptors) + (if file == null then [] else [file])
    ensures log.patterns == old(log.patterns)
    ensures conn.writes == old(conn.writes) + Wire(ServeFile(fs, path))
    ensures conn.unread == old(conn.unread) && conn.closes == 0
    ensures file == null <==> path !in fs.files
    ensures file != null ==> fresh(file) && file.closes == 1
  {
    var f := OpenFile(fs, path, log);
    file := f;
    if f == null {
      SendErrorResponse(conn, 404, "Not Found");
      return;
    }
    var ok, size := Fstat(fs, f);
    if !ok {
      SendErrorResponse(conn, 500, "Internal Error: Failed to get file size");
      f.Close();
      return;
    }
    ghost var content := f.unread;
    var contentType := FileType(path);
    SendContents(conn, f, contentType, size);
    f.Close();
    assert ServeFile(fs, path) == File(contentType, content);
  }

  /**
    send_file once the size is known: the header, written once, and then the
    file through a buffer of BufferSize bytes.
  */
  method SendContents(conn: Fd, f: Fd, contentType: string, size: nat)
    requires f != conn && conn.closes == 0 && f.closes == 0 && !f.readFails
    requires size == |f.unread|
    modifies conn, f
    ensures conn.writes == old(conn.writes) + Wire(File(contentType, old(f.unread)))
    ensures conn.unread == old(conn.unread) && conn.closes == 0
    ensures f.unread == [] && f.closes == 0
  {
    ghost var before, content := conn.writes, f.unread;
    var buffer := new char[BufferSize];
    conn.Write(Snprintf(HeaderText(contentType, size)));
    CopyChunks(conn, f, buffer);
    assert conn.writes == before + ([OkHeader(contentType, |content|)] + Chunks<char>(content, BufferSize));
  }

  /**
    The loop of send_file: read into the buffer until a read returns 0, and
    write out each chunk read.
  */
  method CopyChunks(conn: Fd, f: Fd, buffer: array<char>)
    requires f != conn && conn.closes == 0 && f.closes == 0 && !f.readFails
    requires buffer.Length == BufferSize
    modifies conn, f, buffer
    ensures conn.writes == old(conn.writes) + Chunks<char>(old(f.unread), BufferSize)
    ensures conn.unread == old(conn.unread) && conn.closes == 0
    ensures f.unread == [] && f.closes == 0
  {
    ghost var target := conn.writes + Chunks<char>(f.unread, BufferSize);
    var n := f.Read(buffer, BufferSize);
    ChunksStep<char>(old(f.unread), BufferSize, n);
    while n > 0
      invariant f.closes == 0 && conn.closes == 0 && conn.unread == old(conn.unread)
      invariant 0 <= n <= BufferSize && (n == 0 ==> f.unread == [])
      invariant conn.writes + (if n > 0 then [buffer[..n]] else []) + Chunks<char>(f.unread, BufferSize) == target
      decreases |f.unread| + n
    {
      conn.Write(buffer[..n]);
      ghost var rest := f.unread;
      n := f.Read(buffer, BufferSize);
      ChunksStep<char>(rest, BufferSize, n);
    }
  }

  /**
    handle_client_request: one read of at most BUFFER_SIZE - 1 bytes; nothing
    more when it returns 0 or fails; 500 when the pattern does not compile;
    400 when the line does not match; otherwise the groups are copied into
    `method[8]` and `path[256]`, 405 is sent for any method but GET, and a GET
    builds `file_path[256]` from the root and the path and is answered by
    send_file. On every path the socket is closed once, the cell that carried
    it is freed once, and a compiled pattern is freed once. `log` shows that
    the returned pattern and file are the only ones set up.
  */
  method HandleClientRequest(arg: Arg, fs: FileSystem, regcompFails: bool, ghost log: Resources)
    returns (ghost regex: Regex?, ghost file: Fd?)
    requires arg.fd.closes == 0 && arg.frees == 0
    modifies arg, arg.fd, log
    ensures log.descriptors == old(log.descriptors) + (if file == null then [] else [file])
    ensures log.patterns == old(log.patterns) + (if regex == null then [] else [regex])
    ensures arg.fd.writes == old(arg.fd.writes)
      + Handle(fs, arg.fd.readFails, old(arg.fd.unread), regcompFails)
    ensures arg.fd.closes == 1 && arg.frees == 1
    ensures regex == null <==> arg.fd.readFails || old(arg.fd.unread) == []
    ensures regex != null ==> (fresh(regex) && regex.compiled == !regcompFails
                               && regex.frees == (if regcompFails then 0 else 1))
    ensures file != null ==> fresh(file) && file.closes == 1
    ensures file != null <==> var p := OpenedPath(arg.fd.readFails, old(arg.fd.unread), regcompFails);
      p.Some? && p.value in fs.files
  {
    regex, file := null, null;
    var fd := arg.fd;
    ghost var unread := fd.unread;
    var buffer := new char[BufferSize];
    var bytesRead := ReadRequest(fd, buffer);
    if bytesRead <= 0 {
      AnswerClosed(fs, fd.readFails, unread, regcompFails);
      fd.Close();
      arg.Free();
      return;
    }
    regex, file := AnswerReceived(arg, fs, buffer, unread, regcompFails, log);
  }

  /**
    handle_client_request after a successful read: regcomp, 500 when it
    fails, otherwise the answer to the request and regfree; both exits close
    the socket and free the cell.
  */
  method AnswerReceived(arg: Arg, fs: FileSystem, buffer: array<char>, ghost unread: seq<Byte>,
                        regcompFails: bool, ghost log: Resources)
    returns (ghost regex: Regex, ghost file: Fd?)
    requires arg.fd.closes == 0 && arg.frees == 0
    requires unread != [] && CStr(buffer[..]) == RequestText(unread)
    modifies arg, arg.fd, log
    ensures log.descriptors == old(log.descriptors) + (if file == null then [] else [file])
    ensures log.patterns == old(log.patterns) + [regex]
    ensures arg.fd.writes == old(arg.fd.writes) + Handle(fs, false, unread, regcompFails)
    ensures arg.fd.closes == 1 && arg.frees == 1
    ensures fresh(regex) && regex.compiled == !regcompFails
    ensures regex.frees == if regcompFails then 0 else 1
    ensures file != null ==> fresh(file) && file.closes == 1
    ensures file != null <==> var p := OpenedPath(false, unread, regcompFails);
      p.Some? && p.value in fs.files
  {
    file := null;
    var fd := arg.fd;
    var re := new Regex.Compile(regcompFails, log);
    regex := re;
    if !re.compiled {
      AnswerSetupFailure(fs, unread);
      SendErrorResponse(fd, 500, "Internal Server Error");
      fd.Close();
      arg.Free();
      return;
    }
    file := AnswerRequest(fd, fs, buffer, unread, re, log);
    re.Free();
    fd.Close();
    arg.Free();
  }

  /**
    regexec over the received request, then 400 when it does not match and
    the dispatched response when it does.
  */
  method AnswerRequest(conn: Fd, fs: FileSystem, buffer: array<char>, ghost unread: seq<Byte>, re: Regex,
                       ghost log: Resources)
    returns (ghost file: Fd?)
    requires re.compiled && conn.closes == 0
    requires unread != [] && CStr(buffer[..]) == RequestText(unread)
    modifies conn, log
    ensures log.descriptors == old(log.descriptors) + (if file == null then [] else [file])
    ensures log.patterns == old(log.patterns)
    ensures conn.writes == old(conn.writes) + Handle(fs, false, unread, false)
    ensures conn.unread == old(conn.unread) && conn.closes == 0
    ensures file != null ==> fresh(file) && file.closes == 1
    ensures file != null <==> var p := OpenedPath(false, unread, false);
      p.Some? && p.value in fs.files
  {
    file := null;
    var matches := re.Exec(buffer[..]);
    if matches.Some? {
      AnswerMatched(fs, unread, matches.value);
      file := DispatchRequest(conn, fs, buffer, matches.value, log);
    } else {
      AnswerUnmatched(fs, unread);
      SendErrorResponse(conn, 400, "Bad HTTP Request");
    }
  }

  /**
    The read of at most BUFFER_SIZE - 1 bytes and the NUL written after them:
    it ends the connection when it returns 0 or fails, and otherwise leaves
    the received text in the buffer as a C string.
  */
  method ReadRequest(conn: Fd, buffer: array<char>) returns (bytesRead: int)
    requires conn.closes == 0 && buffer.Length == BufferSize
    modifies conn, buffer
    ensures bytesRead <= 0 <==> conn.readFails || old(conn.unread) == []
    ensures bytesRead > 0 ==> CStr(buffer[..]) == RequestText(old(conn.unread))
    ensures conn.writes == old(conn.writes) && conn.closes == old(conn.closes)
  {
    ghost var unread := conn.unread;
    bytesRead := conn.Read(buffer, BufferSize - 1);
    if bytesRead > 0 {
      buffer[bytesRead] := NUL;
      ReceivedText(buffer[..], unread, bytesRead);
    }
  }

  /** After `buffer[bytes_read] = '\0'`, regexec scans the text of the first read. */
  lemma ReceivedText(b: seq<char>, unread: seq<Byte>, n: int)
    requires 0 < n == Min(ReadLimit, |unread|) < |b|
    requires b[..n] == unread[..n] && b[n] == NUL
    ensures CStr(b) == RequestText(unread)
  {
    var data := Truncate(unread, ReadLimit);
    assert b == data + [NUL] + b[n + 1..];
    CStrIgnoresTail(data, b[n + 1..]);
  }

  /** A read of 0 bytes or an error: nothing is written and nothing is opened. */
  lemma AnswerClosed(fs: FileSystem, readFails: bool, unread: seq<Byte>, regcompFails: bool)
    requires readFails || unread == []
    ensures Handle(fs, readFails, unread, regcompFails) == []
    ensures OpenedPath(readFails, unread, regcompFails).None?
  {
  }

  /** A pattern that does not compile: the 500 response, and nothing is opened. */
  lemma AnswerSetupFailure(fs: FileSystem, unread: seq<Byte>)
    requires unread != []
    ensures Handle(fs, false, unread, true) == Wire(Error(500, "Internal Server Error"))
    ensures OpenedPath(false, unread, true).None?
  {
  }

  /** A line the pattern rejects: the 400 response, and nothing is opened. */
  lemma AnswerUnmatched(fs: FileSystem, unread: seq<Byte>)
    requires unread != [] && Match(RequestText(unread)).None?
    ensures Handle(fs, false, unread, false) == Wire(Error(400, "Bad HTTP Request"))
    ensures OpenedPath(false, unread, false).None?
  {
  }

  /** A matched line: the dispatched response, and a GET opens the resolved path. */
  lemma AnswerMatched(fs: FileSystem, unread: seq<Byte>, rl: RequestLine)
    requires unread != [] && Match(RequestText(unread)) == Some(rl)
    ensures Handle(fs, false, unread, false) == Wire(Dispatch(fs, rl))
    ensures OpenedPath(false, unread, false)
      == if Extract(rl).httpMethod == "GET" then Some(ResolvePath(Extract(rl).path)) else None
  {
  }

  /**
    The matched branch of handle_client_request: the groups are copied into
    `method[8]` and `path[256]`, 405 is sent unless the method is GET, and a
    GET is answered by send_file on the file path built from the root.
  */
  method DispatchRequest(conn: Fd, fs: FileSystem, buffer: array<char>, rl: RequestLine, ghost log: Resources)
    returns (ghost file: Fd?)
    requires conn.closes == 0
    requires Match(CStr(buffer[..])) == Some(rl)
    modifies conn, log
    ensures log.descriptors == old(log.descriptors) + (if file == null then [] else [file])
    ensures log.patterns == old(log.patterns)
    ensures conn.writes == old(conn.writes) + Wire(Dispatch(fs, rl))
    ensures conn.unread == old(conn.unread) && conn.closes == 0
    ensures file != null ==> fresh(file) && file.closes == 1
    ensures file != null <==> var t := Extract(rl);
      t.httpMethod == "GET" && ResolvePath(t.path) in fs.files
  {
    file := null;
    var methodBuf, pathBuf := ExtractGroups(buffer, rl);
    if CStr(methodBuf[..]) == "GET" {
      file := ServeGet(conn, fs, pathBuf, log);
    } else {
      SendErrorResponse(conn, 405, "Method Not Supported");
    }
  }

  /**
    `char method[8] = {0}` and `char path[256] = {0}`, and the copies of the
    two groups into them, bounded by the buffers.
  */
  method ExtractGroups(buffer: array<char>, rl: RequestLine) returns (methodBuf: array<char>, pathBuf: array<char>)
    requires Match(CStr(buffer[..])) == Some(rl)
    ensures fresh(methodBuf) && fresh(pathBuf)
    ensures methodBuf.Length == MethodCapacity && pathBuf.Length == PathCapacity
    ensures CStr(methodBuf[..]) == Extract(rl).httpMethod && CStr(pathBuf[..]) == Extract(rl).path
  {
    GroupsInBuffer(buffer[..], rl);
    methodBuf := new char[MethodCapacity](_ => NUL);
    pathBuf := new char[PathCapacity](_ => NUL);
    CopyGroup(methodBuf, buffer, 0, rl.httpMethod);
    CopyGroup(pathBuf, buffer, |rl.httpMethod| + 1, rl.path);
  }

  /** A GET: the file path is built from the copied path and handed to send_file. */
  method ServeGet(conn: Fd, fs: FileSystem, pathBuf: array<char>, ghost log: Resources) returns (ghost file: Fd?)
    requires conn.closes == 0
    modifies conn, log
    ensures log.descriptors == old(log.descriptors) + (if file == null then [] else [file])
    ensures log.patterns == old(log.patterns)
    ensures conn.writes == old(conn.writes) + Wire(ServeFile(fs, ResolvePath(CStr(pathBuf[..]))))
    ensures conn.unread == old(conn.unread) && conn.closes == 0
    ensures file == null <==> ResolvePath(CStr(pathBuf[..])) !in fs.files
    ensures file != null ==> fresh(file) && file.closes == 1
  {
    var filePath := BuildFilePath(pathBuf);
    file := SendFile(conn, fs, CStr(filePath[..]), log);
  }

  /** Where regexec reports the groups: the method at the start, the path after one space. */
  lemma GroupsInBuffer(b: seq<char>, rl: RequestLine)
    requires Match(CStr(b)) == Some(rl)
    ensures |rl.httpMethod| + 1 + |rl.path| <= |CStr(b)|
    ensures b[..|rl.httpMethod|] == rl.httpMethod
    ensures b[|rl.httpMethod| + 1..|rl.httpMethod| + 1 + |rl.path|] == rl.path
  {
    var s, h := CStr(b), Head(rl);
    var m, e := |rl.httpMethod|, |rl.httpMethod| + 1 + |rl.path|;
    assert s[..|h|] == h;
    assert h[..m] == rl.httpMethod;
    assert h[m + 1..e] == rl.path;
    assert b[..m] == s[..|h|][..m];
    assert b[m + 1..e] == s[..|h|][m + 1..e];
  }

  /**
    `file_path[256]`, initialised to the root: strcat of the index page for
    the path `/`, otherwise strncat of the path with the space left.
  */
  method BuildFilePath(pathBuf: array<char>) returns (filePath: array<char>)
    ensures fresh(filePath) && filePath.Length == FilePathCapacity
    ensures CStr(filePath[..]) == ResolvePath(CStr(pathBuf[..]))
  {
    filePath := NewFilePath();
    if CStr(pathBuf[..]) == "/" {
      AppendIndexPage(filePath);
    } else {
      AppendRequestPath(filePath, pathBuf);
    }
  }

  /** `strcat(file_path, "/index.html")` on the root. */
  method AppendIndexPage(filePath: array<char>)
    requires filePath.Length == FilePathCapacity
    requires StrLen(filePath[..]) == |Root| && CStr(filePath[..]) == Root
    modifies filePath
    ensures CStr(filePath[..]) == Root + IndexPage
  {
    IndexPageFits();
    Strcat(filePath, IndexPage);
  }

  /**
    `strncat(file_path, path, sizeof(file_path) - strlen(file_path) - 1)` on
    the root: the path, cut to the 241 characters left before the NUL.
  */
  method AppendRequestPath(filePath: array<char>, pathBuf: array<char>)
    requires filePath != pathBuf && filePath.Length == FilePathCapacity
    requires StrLen(filePath[..]) == |Root| && CStr(filePath[..]) == Root
    modifies filePath
    ensures CStr(filePath[..]) == Root + Truncate(CStr(pathBuf[..]), FilePathCapacity - |Root| - 1)
  {
    Strncat(filePath, pathBuf[..], FilePathCapacity - StrLen(filePath[..]) - 1);
  }

  /**
    strncpy of a capture group from `buffer + start` into a zeroed buffer, with
    the bound cut to leave room for the NUL: afterwards the buffer holds the
    group, truncated to its capacity minus one, as a C string.
  */
  method CopyGroup(dst: array<char>, buffer: array<char>, start: nat, group: string)
    requires dst != buffer && dst.Length > 0
    requires forall i :: 0 <= i < dst.Length ==> dst[i] == NUL
    requires start + |group| <= |CStr(buffer[..])|
    requires buffer[start..start + |group|] == group
    modifies dst
    ensures CStr(dst[..]) == Truncate(group, dst.Length - 1)
  {
    var n := Min(|group|, dst.Length - 1);
    GroupInCStr(buffer[..], start, group);
    StrncpyOfGroup(buffer[start..], group, n);
    ghost var padding := dst[n..];
    assert padding == Nuls(dst.Length - n);
    Strncpy(dst, buffer[start..], n);
    PaddedCStr(dst[..], n);
  }

  /** A capture group inside the buffer's C string holds no NUL. */
  lemma GroupInCStr(b: seq<char>, start: nat, group: string)
    requires start + |group| <= |CStr(b)| && b[start..start + |group|] == group
    ensures NUL !in group && b[start..][..|group|] == group
  {
    var s := CStr(b);
    assert forall i :: 0 <= i < |group| ==> group[i] == s[start + i];
  }

  /** strncpy of at most the group's length from where the group starts copies a prefix of the group. */
  lemma StrncpyOfGroup(src: seq<char>, group: string, n: nat)
    requires |group| <= |src| && src[..|group|] == group && NUL !in group && n <= |group|
    ensures StrncpyImage(src, n) == group[..n]
  {
    assert forall i :: 0 <= i < |group| ==> src[i] == group[i];
    StrLenAtLeast(src, |group|);
    assert Truncate(CStr(src), n) == group[..n];
  }

  /** n characters without NUL followed by NUL padding form a C string of length n. */
  lemma PaddedCStr(a: seq<char>, n: nat)
    requires n < |a| && NUL !in a[..n] && a[n..] == Nuls(|a| - n)
    ensures CStr(a) == a[..n]
  {
    assert a == a[..n] + a[n..];
    CStrTerminated(a[..n], a[n..]);
  }

  /** `char file_path[256] = "./host_website"`: the root, then NULs to the end. */
  method NewFilePath() returns (filePath: array<char>)
    ensures fresh(filePath) && filePath.Length == FilePathCapacity
    ensures StrLen(filePath[..]) == |Root| && CStr(filePath[..]) == Root
  {
    filePath := new char[FilePathCapacity](i => if 0 <= i < |Root| then Root[i] else NUL);
    InitialFilePath(filePath[..]);
  }

  /** `char file_path[256] = "./host_website"` holds the root as its C string. */
  lemma InitialFilePath(a: seq<char>)
    requires |a| == FilePathCapacity
    requires forall i :: 0 <= i < |a| ==> a[i] == if i < |Root| then Root[i] else NUL
    ensures StrLen(a) == |Root| && CStr(a) == Root
  {
    assert a[..|Root|] == Root;
    assert NUL !in Root;
    StrLenFirstNul(a, |Root|);
  }

  /** `/index.html` is a C string of 11 characters, which fit after the root. */
  lemma IndexPageFits()
    ensures StrLen(IndexPage) == |IndexPage| == 11 && CStr(IndexPage) == IndexPage
  {
    assert NUL !in IndexPage;
    CStrOfString(IndexPage);
  }

  /** A prefix without NUL is covered by strlen. */
  lemma StrLenAtLeast(s: seq<char>, k: nat)
    requires k <= |s| && forall i :: 0 <= i < k ==> s[i] != NUL
    ensures StrLen(s) >= k
  {
  }
}

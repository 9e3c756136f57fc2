/**
  The request-line recogniser of handle_client_request: the anchored POSIX
  extended regular expression `^([A-Z]+) (/[^ ]*) HTTP/1\.[01]`, compiled
  without REG_NEWLINE and run over the received buffer as a C string, and the
  copy of its two capture groups into the fixed `method` and `path` buffers.
*/
module RequestLine {
  import opened Wrappers
  import opened CStrings

  /** The two capture groups: the method and the request path. */
  datatype RequestLine = RequestLine(httpMethod: string, path: string)

  /** The fixed literal that must follow the path, before the minor version digit. */
  const VersionMarker: string := " HTTP/1."

  /** Capacities of `char method[8]` and `char path[256]`. */
  const MethodCapacity: nat := 8
  const PathCapacity: nat := 256

  predicate IsUpper(c: char) { 'A' <= c <= 'Z' }

  // ---------------------------------------------------------------------------
  // The grammar, stated independently of the matcher.

  /** `[A-Z]+` */
  ghost predicate IsMethodToken(m: string) {
    |m| > 0 && forall i :: 0 <= i < |m| ==> IsUpper(m[i])
  }

  /** `/[^ ]*`: without REG_NEWLINE, CR and LF are ordinary characters here. */
  ghost predicate IsPathToken(p: string) {
    |p| > 0 && p[0] == '/' && forall i :: 0 <= i < |p| ==> p[i] != ' '
  }

  /** Everything the expression consumes before the version digit. */
  function Head(rl: RequestLine): string {
    rl.httpMethod + " " + rl.path + VersionMarker
  }

  /**
    The expression matches `s` from position 0 with these groups: method,
    one space, path, " HTTP/1.", then `0` or `1`. What follows is not looked at.
  */
  ghost predicate Matches(s: string, rl: RequestLine) {
    && IsMethodToken(rl.httpMethod)
    && IsPathToken(rl.path)
    && |Head(rl)| < |s|
    && s[..|Head(rl)|] == Head(rl)
    && (s[|Head(rl)|] == '0' || s[|Head(rl)|] == '1')
  }

  // ---------------------------------------------------------------------------
  // The matcher.

  /** The end of the run of upper-case letters that starts at i. */
  function UpperRun(s: string, i: nat): (k: nat)
    requires i <= |s|
    ensures i <= k <= |s|
    ensures forall j :: i <= j < k ==> IsUpper(s[j])
    ensures k < |s| ==> !IsUpper(s[k])
    decreases |s| - i
  {
    if i < |s| && IsUpper(s[i]) then UpperRun(s, i + 1) else i
  }

  /** The position of the first space at or after i, or the end of s. */
  function NextSpace(s: string, i: nat): (k: nat)
    requires i <= |s|
    ensures i <= k <= |s|
    ensures forall j :: i <= j < k ==> s[j] != ' '
    ensures k < |s| ==> s[k] == ' '
    decreases |s| - i
  {
    if i < |s| && s[i] != ' ' then NextSpace(s, i + 1) else i
  }

  /**
    regexec on the C string `s`: the method group is the leading run of
    capitals, the path group runs from the `/` to the next space, and the
    version marker and digit must follow at once.
  */
  function Match(s: string): (r: Option<RequestLine>)
    ensures r.Some? ==> Matches(s, r.value)
  {
    var m := UpperRun(s, 0);
    if m == 0 || m + 1 >= |s| || s[m] != ' ' || s[m + 1] != '/' then None
    else
      var e := NextSpace(s, m + 2);
      var v := e + |VersionMarker|;
      if v < |s| && s[e..v] == VersionMarker && (s[v] == '0' || s[v] == '1') then
        var rl := RequestLine(s[..m], s[m + 1..e]);
        assert IsMethodToken(rl.httpMethod);
        assert IsPathToken(rl.path) by {
          assert forall j :: 0 <= j < |rl.path| ==> rl.path[j] == s[m + 1 + j];
        }
        assert Head(rl) == s[..v] by {
          assert s[..v] == s[..m] + [' '] + s[m + 1..e] + s[e..v];
        }
        Some(rl)
      else None
  }

  lemma UpperRunAt(s: string, i: nat, k: nat)
    requires i <= k < |s|
    requires forall j :: i <= j < k ==> IsUpper(s[j])
    requires !IsUpper(s[k])
    ensures UpperRun(s, i) == k
  {
  }

  lemma NextSpaceAt(s: string, i: nat, k: nat)
    requires i <= k < |s|
    requires forall j :: i <= j < k ==> s[j] != ' '
    requires s[k] == ' '
    ensures NextSpace(s, i) == k
  {
  }

  /** Where the groups and the marker sit in the consumed text. */
  lemma HeadLayout(rl: RequestLine)
    ensures var h, m, e := Head(rl), |rl.httpMethod|, |rl.httpMethod| + 1 + |rl.path|;
      && |h| == e + |VersionMarker|
      && h[..m] == rl.httpMethod && h[m] == ' '
      && h[m + 1..e] == rl.path && h[e..] == VersionMarker
  {
  }

  /** Every match of the grammar is the one Match finds: the groups are unique. */
  lemma MatchComplete(s: string, rl: RequestLine)
    requires Matches(s, rl)
    ensures Match(s) == Some(rl)
  {
    var h := Head(rl);
    var m, e := |rl.httpMethod|, |rl.httpMethod| + 1 + |rl.path|;
    HeadLayout(rl);
    var t := s[..|h|];
    assert s[..m] == t[..m] == rl.httpMethod;
    assert s[m + 1..e] == t[m + 1..e] == rl.path;
    assert s[e..e + |VersionMarker|] == t[e..] == VersionMarker;
    assert s[m] == t[m] == ' ';
    assert s[e] == VersionMarker[0];
    assert forall j :: 0 <= j < m ==> s[j] == rl.httpMethod[j];
    UpperRunAt(s, 0, m);
    assert forall j :: m + 1 <= j < e ==> s[j] == rl.path[j - m - 1];
    NextSpaceAt(s, m + 2, e);
    assert s[m + 1] == rl.path[0] == '/';
    MatchAt(s, m, e);
  }

  /** Match, once the end of the method run and of the path are known. */
  lemma MatchAt(s: string, m: nat, e: nat)
    requires 0 < m && m + 2 <= e && e + |VersionMarker| < |s|
    requires UpperRun(s, 0) == m && s[m] == ' ' && s[m + 1] == '/'
    requires NextSpace(s, m + 2) == e
    requires s[e..e + |VersionMarker|] == VersionMarker
    requires s[e + |VersionMarker|] == '0' || s[e + |VersionMarker|] == '1'
    ensures Match(s) == Some(RequestLine(s[..m], s[m + 1..e]))
  {
  }

  /** Well-formed groups, the marker and a version digit match, whatever follows. */
  lemma LineMatches(rl: RequestLine, digit: char, rest: string)
    requires IsMethodToken(rl.httpMethod) && IsPathToken(rl.path)
    requires digit == '0' || digit == '1'
    ensures Matches(Head(rl) + [digit] + rest, rl)
  {
    var s := Head(rl) + [digit] + rest;
    assert s[..|Head(rl)|] == Head(rl);
  }

  /** The request line is accepted exactly when the grammar matches it. */
  lemma MatchIffGrammar(s: string)
    ensures Match(s).Some? <==> exists rl :: Matches(s, rl)
    ensures forall rl :: Matches(s, rl) ==> Match(s) == Some(rl)
  {
    forall rl | Matches(s, rl) ensures Match(s) == Some(rl) {
      MatchComplete(s, rl);
    }
  }

  /** Bytes after the version digit, CR LF and headers included, are ignored. */
  lemma MatchIgnoresTrailer(s: string, t: string)
    requires Match(s).Some?
    ensures Match(s + t) == Match(s)
  {
    var rl := Match(s).value;
    var h := Head(rl);
    assert (s + t)[..|h|] == s[..|h|];
    assert (s + t)[|h|] == s[|h|];
    MatchComplete(s + t, rl);
  }

  // ---------------------------------------------------------------------------
  // Copying the groups into `method[8]` and `path[256]`.

  /**
    The source bounds each strncpy by the group's own length
    (src/server.c:103-104), not by the buffer's capacity: the copy writes past
    the end of `method[8]` or `path[256]` exactly when this fails.
  */
  predicate SourceCopiesInBounds(rl: RequestLine) {
    |rl.httpMethod| <= MethodCapacity && |rl.path| <= PathCapacity
  }

  /**
    The copies also keep a NUL of the zeroed buffers after the group, so that
    each buffer holds the whole group as its C string. A group of exactly 8 or
    256 characters is copied in bounds but fills its buffer.
  */
  predicate SourceCopiesTerminated(rl: RequestLine) {
    |rl.httpMethod| < MethodCapacity && |rl.path| < PathCapacity
  }

  /** A request of 22 bytes whose method group needs 11 bytes of `method[8]`. */
  lemma SourceMethodCopyOverflows()
    ensures Match("OVERFLOWING / HTTP/1.0") == Some(RequestLine("OVERFLOWING", "/"))
    ensures !SourceCopiesInBounds(RequestLine("OVERFLOWING", "/"))
  {
    MatchComplete("OVERFLOWING / HTTP/1.0", RequestLine("OVERFLOWING", "/"));
  }

  /** A request of 314 bytes, well inside one read, whose path needs 301 bytes of `path[256]`. */
  lemma SourcePathCopyOverflows()
    ensures var p := "/" + seq(300, _ => 'a');
      && |"GET " + p + " HTTP/1.1"| == 314
      && Match("GET " + p + " HTTP/1.1") == Some(RequestLine("GET", p))
      && !SourceCopiesInBounds(RequestLine("GET", p))
  {
    var p := "/" + seq(300, _ => 'a');
    var s := "GET " + p + " HTTP/1.1";
    var rl := RequestLine("GET", p);
    assert s[..|Head(rl)|] == Head(rl);
    MatchComplete(s, rl);
  }

  /**
    The bounded copy the buffers call for: at most 7 and 255 characters, so
    each copy leaves room for its terminating NUL. The handler uses this.
  */
  function Extract(rl: RequestLine): (t: RequestLine)
    ensures |t.httpMethod| < MethodCapacity && |t.path| < PathCapacity
    ensures t.httpMethod <= rl.httpMethod && t.path <= rl.path
    ensures SourceCopiesTerminated(rl) ==> t == rl
  {
    RequestLine(Truncate(rl.httpMethod, MethodCapacity - 1), Truncate(rl.path, PathCapacity - 1))
  }

  /**
    Bounding the copies does not change dispatch: the copied method is "GET"
    exactly when the group is, and the copied path is "/" exactly when the group is.
  */
  lemma ExtractKeepsDispatch(rl: RequestLine)
    ensures Extract(rl).httpMethod == "GET" <==> rl.httpMethod == "GET"
    ensures Extract(rl).path == "/" <==> rl.path == "/"
  {
  }
}

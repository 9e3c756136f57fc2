# A verified model of the webserver's request pipeline

This project models what `src/server.c` does for one connection and proves
properties of the model. The modelled parts are:

- The worker `handle_client_request`. It makes one read of at most 4095 bytes
  and NUL-terminates it. It compiles and runs the anchored pattern
  `^([A-Z]+) (/[^ ]*) HTTP/1\.[01]`, copies the method and path groups into
  `method[8]` and `path[256]`, and dispatches on the method. A GET is answered
  from a file whose path is built in `file_path[256]` from the root
  `./host_website`.
- `send_error_response`, which formats a status line, a text/plain header and
  the reason phrase into a 4096-byte buffer and writes it once.
- `send_file`, which opens the file and queries its size. It then writes a 200
  header with Content-Type and Content-Length, and copies the file in chunks of
  at most 4096 bytes.
- `file_type`, which picks the Content-Type from the suffix that starts at the
  last dot.

The modules are:

- `CStrings`: C strings in fixed `char` arrays. It defines strlen, the C string
  a buffer holds, and strncpy, strncat and strcat as methods on arrays.
- `Decimal`: the `%d`/`%ld` conversion and its inverse.
- `RequestLine`: the pattern.
  - The grammar is stated on its own as `Matches`.
  - `Match` is a hand-written matcher over the C string, with `[A-Z]` read in
    the C locale.
  - `Match` is proved sound in its contract, and complete and unique in a lemma.
  - The group copies are bounded (see Findings).
- `ContentType`: `file_type`, compared against an independent table of the
  known suffixes.
- `Responses`: the texts of the responses, snprintf's cut at 4095 characters,
  and the chunking of a file body.
- `Pipeline`: the pipeline as pure functions.
  - `ServeFile` is send_file's outcome.
  - `Respond`, `Dispatch` and `Handle` give the answer and the writes of one
    connection.
  - `OpenedPath` gives the path handed to open().
  - Lemmas state the dispatch, resolution and lifecycle properties.
- `Server`: the imperative form.
  - Classes for file descriptors (`Fd`, used for both the socket and a served
    file), the heap cell carrying the socket (`Arg`) and the compiled pattern
    (`Regex`).
  - A ghost `Resources` log to which the constructors of `Fd` and `Regex`
    add each new object.
  - Methods `SendErrorResponse`, `SendFile` and `HandleClientRequest`.
  - Each method's ensures ties what it writes to the `Pipeline` functions.
  - Parts of the two long source functions are separate methods:
    - `SendContents` and `CopyChunks`: send_file's header write and its loop.
    - `ReadRequest`: the read and the NUL written after it.
    - `AnswerReceived`: from regcomp to the close and free, with the 500 exit.
    - `AnswerRequest`: regexec and the 400 or matched branch.
    - `DispatchRequest`: the matched branch, with `ExtractGroups` for the two
      group copies and `ServeGet` for a GET.
    - `BuildFilePath`: the `file_path` construction, with `NewFilePath`,
      `AppendIndexPage` and `AppendRequestPath` for its three steps.
    - `CopyGroup`: one group copy.

Inputs from outside the program are parameters:

- The filesystem is a value: a map from the paths open() can open to their
  contents, and a flag saying whether fstat fails.
- What the client sends is the `unread` input of the socket descriptor.
- Whether regcomp fails is a flag.

`char method[8]` and `char path[256]` hold at most 7 and 255 characters
followed by their NUL. The comment at src/server.c:111 shows that the authors
meant the path handling not to overflow its buffer. The two strncpy calls at
lines 103-104 are bounded by the group's length instead. The model follows the
code wherever the groups fit. It reports the difference as a finding, and the
handler uses copies bounded by the buffers.

The constructors of `Fd` and `Regex` append each new object to a ghost
`Resources` log they are given. The methods state that every descriptor and
pattern added to the caller's log during a call is released, and every
constructor call in their bodies is given the caller's log.

## Model

| member | source | states |
|---|---|---|
| CStrings.StrLen | src/server.c:112 | strlen is the index of the first NUL, or the whole length when there is none |
| CStrings.CStr | src/server.c:99 | the C string a buffer holds is a NUL-free prefix of it, ended by a NUL or by the buffer's end |
| CStrings.StrncpyImage | src/server.c:103-104 | defines what strncpy leaves in the first n characters: the source's C string cut to n, then NUL padding |
| CStrings.StrLenFirstNul | src/server.c:112 | a NUL at index n with none before it makes strlen n |
| CStrings.CStrOfString | src/server.c:109 | a text without NUL is its own C string, of its own length |
| CStrings.CStrTerminated | src/server.c:83 | a NUL-free text followed by a NUL is the C string, whatever follows |
| CStrings.CStrIgnoresTail | src/server.c:83 | once a NUL is written after the data, nothing after it changes the C string |
| CStrings.Strncpy | src/server.c:103-104 | strncpy writes the source's C string cut to n characters, then NUL padding up to n, and leaves the rest of the buffer unchanged |
| CStrings.Strncat | src/server.c:112 | strncat leaves the old C string followed by at most n characters of the source as the buffer's C string, and changes nothing after the NUL it writes |
| CStrings.CopyRun | src/server.c:112 | strncat's copy writes the source up to its first NUL, at most n characters, from the end of the old C string, and nothing else |
| CStrings.AppendedCStr | src/server.c:112 | a C string, then NUL-free characters, then a NUL make the two the buffer's C string |
| CStrings.Strcat | src/server.c:109 | strcat leaves the old C string followed by the whole source as the buffer's C string, and changes nothing after the NUL it writes |
| Decimal.Format | src/server.c:21 | `%d` of a non-negative number is a non-empty run of digits without a leading zero |
| Decimal.ValueOfFormat | src/server.c:59-60 | the decimal text reads back as the number it formats, so Content-Length states the file size |
| Decimal.FormatInjective | src/server.c:59-60 | different sizes give different Content-Length texts |
| Decimal.FormatLength | src/server.c:58-60 | a number below 10^k has at most k digits |
| RequestLine.UpperRun | src/server.c:91 | the end of the `[A-Z]+` run: capitals up to it, and no capital at it |
| RequestLine.NextSpace | src/server.c:91 | the end of the `[^ ]*` run: no space up to it, and a space or the end at it |
| RequestLine.UpperRunAt | src/server.c:91 | capitals from i to k followed by a non-capital make the run end at k |
| RequestLine.NextSpaceAt | src/server.c:91 | non-spaces from i to k followed by a space or the end make the run end at k |
| RequestLine.Head | src/server.c:91 | defines the text the pattern consumes before the version digit: method, space, path, ` HTTP/1.` |
| RequestLine.Matches | src/server.c:91 | defines, apart from any matcher, when the anchored pattern matches a text with given groups |
| RequestLine.HeadLayout | src/server.c:91 | the matched prefix is the method, a space, the path and ` HTTP/1.`, at the offsets regexec reports |
| RequestLine.MatchAt | src/server.c:91-99 | a line whose runs end where a grammar-conforming line puts them is accepted with those groups |
| RequestLine.Match | src/server.c:91-99 | every request line regexec accepts fits the grammar with the groups returned: capitals, one space, `/` and non-spaces, ` HTTP/1.`, then `0` or `1` at byte 0 |
| RequestLine.MatchComplete | src/server.c:91-99 | a line that fits the grammar with some groups is accepted with exactly those groups, so the groups are unique |
| RequestLine.MatchIffGrammar | src/server.c:91-99 | a line is accepted if and only if it fits the grammar |
| RequestLine.LineMatches | src/server.c:91 | well-formed groups, the marker and a version digit fit the grammar whatever follows |
| RequestLine.MatchIgnoresTrailer | src/server.c:91-99 | bytes after the version digit, CR LF and headers included, do not change the result |
| RequestLine.SourceMethodCopyOverflows | src/server.c:103 | the accepted line `OVERFLOWING / HTTP/1.0` has an 11-byte method group, so the copy writes past the end of `method[8]` |
| RequestLine.SourcePathCopyOverflows | src/server.c:104 | an accepted 314-byte line has a 301-byte path group, so the copy writes past the end of `path[256]` |
| RequestLine.SourceCopiesInBounds | src/server.c:103-104 | defines when the group-length-bounded copies stay inside `method[8]` and `path[256]` |
| RequestLine.SourceCopiesTerminated | src/server.c:100-104 | defines when the copies also leave a NUL of the zeroed buffers after the group |
| RequestLine.Extract | src/server.c:100-104 | the bounded copies fit their buffers with the NUL, are prefixes of the groups, and equal the groups whenever the source's copies leave a NUL after them |
| RequestLine.ExtractKeepsDispatch | src/server.c:105-107 | the bounded method is `GET` exactly when the group is, and the bounded path is `/` exactly when the group is |
| ContentType.LastDot | src/server.c:28 | strrchr finds a dot with no dot after it, or reports that there is no dot |
| ContentType.Extension | src/server.c:28 | the suffix compared starts with its only dot and ends the path |
| ContentType.FileType | src/server.c:26-38 | defines file_type as the strcmp chain on the suffix from the last dot, with application/octet-stream otherwise |
| ContentType.TypeOf | src/server.c:30-37 | defines the independent table lookup: a listed suffix maps to its type, anything else to the default |
| ContentType.TypeOfIsChain | src/server.c:30-37 | the table of known suffixes gives what the strcmp chain gives |
| ContentType.KnownSuffixesAreNames | src/server.c:30-36 | no suffix in the list holds a `/` |
| ContentType.FileTypeIsLookup | src/server.c:26-38 | file_type is the table lookup of the suffix from the last dot, and the default without one |
| ContentType.FileTypeOfSuffix | src/server.c:26-38 | whatever precedes it, a final dot-suffix with no other dot decides the type |
| ContentType.FileTypeWithoutDot | src/server.c:29-37 | a path without a dot is application/octet-stream |
| ContentType.FileTypeDotInDirectory | src/server.c:28-37 | a dot in a directory name, with none in the file name, gives application/octet-stream |
| ContentType.JpegSuffixes | src/server.c:33 | `.jpg` and `.jpeg` give image/jpeg, while `.JPG` gives the default because the comparison is case-sensitive |
| Responses.Snprintf | src/server.c:20-23 | the text written is the first min(n, 4095) characters of the formatted text of length n, so it equals the text when it fits |
| Responses.ErrorText | src/server.c:20-22 | defines the error format: status line with the code, text/plain header, blank line, reason as body |
| Responses.ErrorResponse | src/server.c:20-23 | defines the error response as written: the error format cut by snprintf |
| Responses.HeaderText | src/server.c:58-60 | defines the 200 header with Content-Type and the decimal Content-Length |
| Responses.OkHeader | src/server.c:58-61 | defines the header as written: the 200 header cut by snprintf |
| Responses.Concat | src/server.c:61-64 | defines the bytes of several writes, one after the other |
| Responses.Chunks | src/server.c:62-65 | defines the successive reads of at most 4096 bytes that the loop writes out |
| Responses.ErrorResponseComplete | src/server.c:17-24 | a three-digit code and a reason of up to 2000 characters are never cut |
| Responses.OkHeaderComplete | src/server.c:54-61 | for every size a `long` holds, the header is exactly the status line, Content-Type and Content-Length, and Content-Length reads back as the size |
| Responses.ConcatChunks | src/server.c:62-65 | the chunks send_file writes, one after the other, are the file |
| Responses.ChunkSizes | src/server.c:62-65 | no chunk is empty and none exceeds 4096 bytes |
| Responses.ChunksStep | src/server.c:63 | one read of at most 4096 bytes takes off exactly the first chunk, and a read of 0 ends the sequence |
| Responses.Wire | src/server.c:17-24 | every response makes at least one write |
| Responses.WireCarriesFile | src/server.c:61-64 | an error is a single write, and after the header a file answer carries the file byte for byte in writes of 1 to 4096 bytes |
| Pipeline.ResolvePath | src/server.c:106-113 | the opened path starts with the root and has at most 255 characters |
| Pipeline.ResolvedGroup | src/server.c:106-113 | `/` resolves to `./host_website/index.html`, and any other path to the root followed by the path, cut to 255 characters |
| Pipeline.TraversalIsNotRemoved | src/server.c:112 | `..` segments reach open() unchanged |
| Pipeline.ServeFile | src/server.c:40-68 | send_file answers 404 exactly when open fails, 500 when fstat fails, and otherwise the file's contents with file_type of the path |
| Pipeline.RequestText | src/server.c:75-83 | defines the text regexec scans: the first 4095 bytes of the input, up to the first NUL |
| Pipeline.Respond | src/server.c:75-121 | defines the response of one connection: none after a failed or empty read, 500 on a failed regcomp, 400 on no match, otherwise the dispatched response |
| Pipeline.Dispatch | src/server.c:100-117 | defines the answer to a matched line from the bounded copies: send_file on the resolved path for GET, 405 otherwise |
| Pipeline.OpenedPath | src/server.c:105-114 | defines the path given to send_file when the request gets that far |
| Pipeline.Handle | src/server.c:70-126 | defines every write of one connection, in order |
| Pipeline.SilentExactlyWhenClosed | src/server.c:75-81 | nothing is written if and only if the read returns 0 or fails, and every other path gives one response |
| Pipeline.SetupFailureIs500 | src/server.c:91-97 | a pattern that does not compile gives exactly the 500 Internal Server Error response |
| Pipeline.BadRequestExactlyWhenNoMatch | src/server.c:99-121 | 400 Bad HTTP Request is the answer if and only if the received text fits no grammar match |
| Pipeline.NonGetIs405 | src/server.c:105-117 | any method but GET gives 405 Method Not Supported, and the writes do not depend on the filesystem |
| Pipeline.GetIsServed | src/server.c:105-114 | a GET is answered by send_file on the root plus `/index.html` for `/`, or on the root and the path cut to 255 characters |
| Pipeline.FileSystemOnlyThroughOpen | src/server.c:105-117 | a request that reaches send_file is answered from the opened path, and every other answer is independent of the filesystem |
| Pipeline.RootIsIndex | src/server.c:107-109 | a request for `/` is answered exactly like the same request for `/index.html` |
| Pipeline.ServedFileOnWire | src/server.c:54-65 | a served file goes out as the exact 200 header followed by the file's bytes in chunks of at most 4096 |
| Pipeline.ClientErrorResponsesExact | src/server.c:17-24 | the 400, 404 and 405 responses are exactly their status line, a text/plain header and the reason as body, without Content-Length |
| Pipeline.ServerErrorResponsesExact | src/server.c:17-24 | both 500 responses are exactly their status line, a text/plain header and the reason as body |
| Pipeline.RequestTextOfLine | src/server.c:75-83 | a NUL-free request within one read reaches the matcher whole |
| Pipeline.GetRootServesIndex | src/server.c:107-114 | a GET for `/` is answered with index.html as text/html when it opens |
| Pipeline.IndexRequestServed | src/server.c:75-114 | a browser's `GET / HTTP/1.1` with any NUL-free headers within one read is answered with the index page |
| Pipeline.StatusCodesFormat | src/server.c:21 | the status codes the server sends print as their three digits |
| Pipeline.IndexIsHtml | src/server.c:30 | the index page is served as text/html |
| Pipeline.LowerCaseMethodRejected | src/server.c:91 | `get / HTTP/1.1` is not accepted |
| Pipeline.MissingSlashRejected | src/server.c:91 | every line whose character after the capitals and one space is not `/` (or is missing) is rejected |
| Pipeline.MissingVersionRejected | src/server.c:91 | every line in which ` HTTP/1.` occurs nowhere is rejected |
| Pipeline.MatchHasMarker | src/server.c:91 | in every accepted line ` HTTP/1.` follows the path group |
| Pipeline.OtherVersionRejected | src/server.c:91 | `HTTP/2.0` is not accepted |
| Server.Fd.Read | src/server.c:75 | read returns -1 on error, otherwise the waiting bytes up to count, which it stores in the buffer and consumes |
| Server.Fd.Write | src/server.c:23 | write appends its data to the connection's writes |
| Server.Fd.Close | src/server.c:67 | close counts one more close |
| Server.Fd.constructor | src/server.c:42 | a new descriptor has no writes and no closes, and is added to the log |
| Server.Arg.Free | src/server.c:124 | free counts one more free of the cell |
| Server.Regex.Compile | src/server.c:91 | regcomp gives a compiled pattern unless it fails, nothing is freed yet, and the pattern is added to the log |
| Server.Regex.Exec | src/server.c:99 | regexec runs the matcher over the buffer read as a C string |
| Server.Regex.Free | src/server.c:122 | regfree counts one more free of the pattern |
| Server.OpenFile | src/server.c:42-46 | open fails exactly for paths not in the filesystem, otherwise it gives a fresh descriptor at the file's start; the log gains that descriptor and nothing else |
| Server.Fstat | src/server.c:49-54 | fstat succeeds unless the filesystem fails it, and reports the file's length |
| Server.SendErrorResponse | src/server.c:17-24 | exactly one write, of the error response |
| Server.SendFile | src/server.c:40-68 | the writes are those of ServeFile for the path; a file is opened exactly when the path exists, it is the only descriptor added to the log, and it is closed exactly once |
| Server.CopyChunks | src/server.c:62-65 | the loop writes the file's chunks in order and reads it to the end |
| Server.HandleClientRequest | src/server.c:70-126 | the writes are `Handle` of the input; the socket is closed once and the cell freed once on every path; the pattern exists unless the read ended things, and is freed once exactly when it compiled; a file is opened exactly when the request reaches send_file with an existing path, and it is closed once; the log gains that pattern and that file and nothing else |
| Server.AnswerReceived | src/server.c:85-125 | after a successful read, the writes are the 500, the 400 or the dispatched response; the socket is closed and the cell freed once on both exits; the pattern is the only one logged and is freed exactly when it compiled |
| Server.ReadRequest | src/server.c:75-83 | the connection ends exactly when the read fails or nothing was sent; otherwise the buffer's C string is the text of the first read, and nothing is written or closed |
| Server.AnswerRequest | src/server.c:99-121 | with a compiled pattern, the writes are the 400 for a rejected line or the dispatched response, the socket's input is not touched, and a file is opened exactly when a GET names an existing resolved path |
| Server.DispatchRequest | src/server.c:99-117 | the matched branch writes `Dispatch` of the groups and opens a file only for a GET of an existing resolved path |
| Server.ExtractGroups | src/server.c:100-104 | the two zeroed buffers hold, as C strings, the method and the path groups cut to 7 and 255 characters |
| Server.ServeGet | src/server.c:106-114 | a GET writes send_file's response for the resolved copied path and opens a file exactly when that path exists |
| Server.SendContents | src/server.c:54-65 | after the file opened and its size known, the writes are the 200 header and the file's chunks, and the file is read to its end |
| Server.NewFilePath | src/server.c:106 | the new `file_path` holds the root as its C string, of strlen 14 |
| Server.AppendIndexPage | src/server.c:109 | strcat of `/index.html` on the root gives `./host_website/index.html` |
| Server.AppendRequestPath | src/server.c:112 | strncat on the root appends the copied path cut to the 241 characters left |
| Server.BuildFilePath | src/server.c:106-113 | `file_path` holds the resolved path as its C string |
| Server.CopyGroup | src/server.c:100-104 | after a group is copied into a zeroed buffer, the buffer's C string is the group cut to its capacity minus one |
| Server.ReceivedText | src/server.c:83 | after `buffer[bytes_read] = '\0'`, the C string of the buffer is the text of the read |
| Server.GroupInCStr | src/server.c:103-104 | a group inside the buffer's C string holds no NUL |
| Server.StrncpyOfGroup | src/server.c:103-104 | strncpy from the start of a group, bounded by the group's length, copies a prefix of the group |
| Server.PaddedCStr | src/server.c:100-101 | characters without NUL followed by the zeroed rest of the buffer are its C string |
| Server.InitialFilePath | src/server.c:106 | the initialised `file_path` array holds the root as its C string |
| Server.IndexPageFits | src/server.c:109 | `/index.html` is an 11-character C string |
| Server.StrLenAtLeast | src/server.c:103-104 | a prefix without NUL is covered by strlen |
| Server.AnswerClosed | src/server.c:76-80 | a failed or empty read writes nothing and opens nothing |
| Server.AnswerSetupFailure | src/server.c:91-96 | a failed regcomp writes the 500 response and opens nothing |
| Server.AnswerUnmatched | src/server.c:118-121 | a rejected line writes the 400 response and opens nothing |
| Server.AnswerMatched | src/server.c:99-117 | a matched line writes the dispatched response and opens the resolved path only for a GET |
| Server.GroupsInBuffer | src/server.c:103-104 | the groups regexec reports sit in the buffer at the start and after one space, within its C string |

## Left out

- `main` (src/server.c:157-208) is not part of this model. It parses the port, opens the listening socket and starts one detached thread per connection, which is plumbing and concurrency. Workers share no state, so the model covers one connection.
- `signal_handler` (src/server.c:129-155) is not part of this model. It only exits the process.
- The `printf`/`fprintf` diagnostics at lines 77, 84 and 92 are not modelled, because they go to the terminal and not to the connection.
- Server.Fd.Read: a read delivers all the waiting bytes up to the count requested. Short reads and a request spread over several TCP segments are not modelled: the first read sees everything the client sent, up to 4095 bytes.
- Server.Fd.Write: a write is taken to write all its bytes. The source ignores the return value of write at lines 23, 61 and 64, so partial or failed writes have no modelled effect.
- Server.CopyChunks: reads of a served file never fail, so the loop's exit on a read error (a return of -1) is not modelled. Any client reaches this case with `GET /. HTTP/1.1` or `GET /.. HTTP/1.1`. The resolved path `./host_website/.` names a directory. open() on it succeeds at line 42 and fstat reports the directory's size at lines 49-54. The first read at line 63 then fails, so the client gets a 200 header with that Content-Length and no body.
- Server.Fstat: whether fstat fails is one flag of the filesystem, and the size it reports is the length of the contents. The filesystem holds regular files only. For a directory, as in the `GET /.` case above, the Content-Length that `Pipeline.ServedFileOnWire` equates with the body length is the directory's size, and there is no body.
- Server.Resources: the contracts constrain only objects added to the log the caller passes in. An object created with a different log is not covered by them. That every descriptor and pattern is logged rests on every body passing the caller's log to the constructors, as all of them do, and is not itself a proved property.
- Server.Regex.Compile: regcomp's internals are not modelled. Its failure is an input flag, and regexec is the hand-written matcher `RequestLine.Match`.
- RequestLine.Match: `[A-Z]` is read as the 26 ASCII capitals of the C locale. Other locales are not modelled.
- Server.CopyGroup: the handler copies at most 7 and 255 characters instead of the group's length. For groups that fit, this is the same copy. The out-of-bounds writes the source makes for longer groups are not modelled as memory corruption; they are the finding below.
- Decimal.Format: status codes and sizes are non-negative. `%d` of a negative `int` is not modelled, because the server only passes 400, 404, 405 and 500.
- Socket and file data are characters below 256 (`Byte`). A C `char` with the high bit set is the same byte here, whether it is signed or not.
- host_website/script.js is not part of this model. It is browser-side code.

## Findings

| source | as written | input that shows it | evidently intended | confidence | as-written member | corrected member |
|---|---|---|---|---|---|---|
| src/server.c:103 | `strncpy(method, …, rm_eo - rm_so)` copies as many bytes as the method group has into `char method[8]` | the request `OVERFLOWING / HTTP/1.0`, whose 11-byte method group the pattern accepts | copy at most 7 bytes, so the copy stays in the buffer and leaves a NUL for strcmp | not executed | RequestLine.SourceMethodCopyOverflows | RequestLine.Extract |
| src/server.c:104 | `strncpy(path, …, rm_eo - rm_so)` copies as many bytes as the path group has into `char path[256]` | the request `GET /` followed by 300 `a` and ` HTTP/1.1`, 314 bytes in one read, whose path group has 301 bytes | copy at most 255 bytes, so the copy stays inside `path[256]` instead of writing past it on the stack | not executed | RequestLine.SourcePathCopyOverflows | Server.CopyGroup |

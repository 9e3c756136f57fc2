/**
  What the server writes to a connection: send_error_response's single
  formatted write, and send_file's header write followed by the file in
  chunks of at most one buffer.
*/
module Responses {
  import opened CStrings
  import Decimal

  /** BUFFER_SIZE: the response buffer, the read buffer and the chunk size. */
  const BufferSize: nat := 4096

  /**
    snprintf into a buffer of BufferSize characters: the text is cut after
    BufferSize - 1 characters to leave room for the NUL; the write that follows
    sends strlen of the buffer, which is the cut text.
  */
  function Snprintf(s: string): (r: string)
    ensures |r| == Min(|s|, BufferSize - 1) && r <= s
    ensures |s| < BufferSize ==> r == s
  {
    Truncate(s, BufferSize - 1)
  }

  /** The format of send_error_response: reason phrase as the plain-text body, no Content-Length. */
  function ErrorText(code: nat, reason: string): string {
    "HTTP/1.1 " + Decimal.Format(code) + " " + reason + "\r\nContent-Type: text/plain\r\n\r\n" + reason
  }

  function ErrorResponse(code: nat, reason: string): string {
    Snprintf(ErrorText(code, reason))
  }

  /** The header send_file writes before the body. */
  function HeaderText(contentType: string, size: nat): string {
    "HTTP/1.1 200 OK\r\nContent-Type: " + contentType + "\r\nContent-Length: " + Decimal.Format(size) + "\r\n\r\n"
  }

  function OkHeader(contentType: string, size: nat): string {
    Snprintf(HeaderText(contentType, size))
  }

  /** The largest file size `off_t`, and so `long file_size`, can report. */
  const MaxFileSize: nat := 0x7fff_ffff_ffff_ffff

  /**
    A three-digit status code and a reason phrase of up to 2000 characters are
    never cut: the client receives the whole error response.
  */
  lemma ErrorResponseComplete(code: nat, reason: string)
    requires 100 <= code < 1000 && |reason| <= 2000
    ensures ErrorResponse(code, reason) == ErrorText(code, reason)
  {
    assert Decimal.Pow10(3) == 1000;
    Decimal.FormatLength(code, 3);
  }

  /**
    For every file the filesystem can hold, and any content type of up to 100
    characters, the header is sent whole, and its Content-Length field reads back
    as the file size.
  */
  lemma OkHeaderComplete(contentType: string, size: nat)
    requires size <= MaxFileSize && |contentType| <= 100
    ensures OkHeader(contentType, size)
      == "HTTP/1.1 200 OK\r\nContent-Type: " + contentType + "\r\nContent-Length: " + Decimal.Format(size) + "\r\n\r\n"
    ensures Decimal.Value(Decimal.Format(size)) == size
  {
    assert Decimal.Pow10(10) == 10_000_000_000;
    assert Decimal.Pow10(19) == 10_000_000_000_000_000_000;
    Decimal.FormatLength(size, 19);
    Decimal.ValueOfFormat(size);
  }

  // ---------------------------------------------------------------------------
  // The body: a file sent in chunks.

  /** The bytes of several writes, one after the other. */
  function Concat<T>(ss: seq<seq<T>>): seq<T> {
    if ss == [] then [] else ss[0] + Concat(ss[1..])
  }

  /**
    The successive reads of at most `size` bytes that send_file's loop makes
    over a file of contents `s`, each of which it writes out whole.
  */
  function Chunks<T>(s: seq<T>, size: nat): seq<seq<T>>
    requires size > 0
    decreases |s|
  {
    if s == [] then []
    else
      var k := Min(|s|, size);
      [s[..k]] + Chunks(s[k..], size)
  }

  /** The chunks, written one after the other, are the file again. */
  lemma {:induction false} ConcatChunks<T>(s: seq<T>, size: nat)
    requires size > 0
    ensures Concat(Chunks(s, size)) == s
    decreases |s|
  {
    if s != [] {
      var k := Min(|s|, size);
      var cs := Chunks(s, size);
      assert cs[0] == s[..k] && cs[1..] == Chunks(s[k..], size);
      ConcatChunks(s[k..], size);
      assert s == s[..k] + s[k..];
    }
  }

  /** No chunk is empty and none is longer than the buffer. */
  lemma {:induction false} ChunkSizes<T>(s: seq<T>, size: nat)
    requires size > 0
    ensures forall i :: 0 <= i < |Chunks(s, size)| ==> 0 < |Chunks(s, size)[i]| <= size
    decreases |s|
  {
    if s != [] {
      var k := Min(|s|, size);
      ChunkSizes(s[k..], size);
      var cs := Chunks(s, size);
      assert cs == [s[..k]] + Chunks(s[k..], size);
      forall i | 0 <= i < |cs| ensures 0 < |cs[i]| <= size {
        if i > 0 {
          assert cs[i] == Chunks(s[k..], size)[i - 1];
        }
      }
    }
  }

  /** One read of at most `size` bytes takes off the first chunk, if any. */
  lemma ChunksStep<T>(s: seq<T>, size: nat, n: nat)
    requires size > 0 && n == Min(|s|, size)
    ensures Chunks(s, size) == (if n > 0 then [s[..n]] else []) + Chunks(s[n..], size)
  {
  }

  // ---------------------------------------------------------------------------
  // A response as a value.

  /** One response: an error with its status code and reason, or a file. */
  datatype Response =
    | Error(code: nat, reason: string)
    | File(contentType: string, content: seq<Byte>)

  /** The write() calls that put a response on the connection. */
  function Wire(r: Response): (ws: seq<string>)
    ensures |ws| >= 1
  {
    match r
    case Error(code, reason) => [ErrorResponse(code, reason)]
    case File(contentType, content) =>
      [OkHeader(contentType, |content|)] + Chunks<char>(content, BufferSize)
  }

  /**
    Behind the header, the connection carries the file byte for byte, in
    writes of at most BufferSize bytes; an error response is one write.
  */
  lemma WireCarriesFile(r: Response)
    ensures r.Error? ==> |Wire(r)| == 1
    ensures r.File? ==> Concat(Wire(r)[1..]) == r.content
    ensures r.File? ==> forall i :: 1 <= i < |Wire(r)| ==> 0 < |Wire(r)[i]| <= BufferSize
  {
    if r.File? {
      assert Wire(r)[1..] == Chunks<char>(r.content, BufferSize);
      ConcatChunks<char>(r.content, BufferSize);
      ChunkSizes<char>(r.content, BufferSize);
    }
  }
}

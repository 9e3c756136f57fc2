/** Optional values, for the results of the request-line matcher and of strrchr. */
module Wrappers {
  datatype Option<+T> = None | Some(value: T)
}

/**
  C strings over fixed-size `char` buffers: the terminating NUL, and the
  library routines strlen, strncpy, strncat and strcat as the server uses them
  on its stack buffers.
*/
module CStrings {

  /** A C `char` holding one octet, as read from a socket or a file. */
  type Byte = c: char | c as int < 256 witness '\0'

  const NUL: char := '\0'

  function Min(a: nat, b: nat): nat { if a <= b then a else b }

  /** The first `n` characters of `s`, or all of `s` when it is shorter. */
  function Truncate<T>(s: seq<T>, n: nat): (r: seq<T>)
    ensures |r| == Min(|s|, n)
    ensures r <= s
  {
    if |s| <= n then s else s[..n]
  }

  /** strlen: the index of the first NUL, or the whole length when there is none. */
  function StrLen(s: seq<char>): (n: nat)
    ensures n <= |s|
    ensures forall i :: 0 <= i < n ==> s[i] != NUL
    ensures n < |s| ==> s[n] == NUL
  {
    if s == [] || s[0] == NUL then 0 else 1 + StrLen(s[1..])
  }

  /** The C string a buffer holds: everything before its first NUL. */
  function CStr(s: seq<char>): (r: seq<char>)
    ensures r <= s
    ensures NUL !in r
    ensures |r| < |s| ==> s[|r|] == NUL
  {
    s[..StrLen(s)]
  }

  /** `n` NUL characters, the padding strncpy writes. */
  function Nuls(n: nat): (r: seq<char>)
    ensures |r| == n && forall i :: 0 <= i < n ==> r[i] == NUL
  {
    seq(n, _ => NUL)
  }

  /** What strncpy(dst, src, n) leaves in dst[0..n]. */
  function StrncpyImage(src: seq<char>, n: nat): (r: seq<char>)
    ensures |r| == n
  {
    Truncate(CStr(src), n) + Nuls(n - Min(StrLen(src), n))
  }

  /** The first NUL decides the C string, whatever follows it. */
  lemma StrLenFirstNul(s: seq<char>, n: nat)
    requires n <= |s|
    requires forall i :: 0 <= i < n ==> s[i] != NUL
    requires n < |s| ==> s[n] == NUL
    ensures StrLen(s) == n
  {
  }

  /** A string without NUL is its own C string. */
  lemma CStrOfString(s: seq<char>)
    requires NUL !in s
    ensures StrLen(s) == |s| && CStr(s) == s
  {
    StrLenFirstNul(s, |s|);
  }

  /** A NUL-free prefix followed by a NUL is the C string of the buffer. */
  lemma {:induction false} CStrTerminated(a: seq<char>, b: seq<char>)
    requires NUL !in a
    requires b != [] && b[0] == NUL
    ensures CStr(a + b) == a
  {
    var s := a + b;
    assert forall i :: 0 <= i < |a| ==> s[i] == a[i];
    assert s[|a|] == NUL;
    StrLenFirstNul(s, |a|);
    assert s[..|a|] == a;
  }

  /** Appending a NUL and anything after it does not change the C string. */
  lemma {:induction false} CStrIgnoresTail(a: seq<char>, b: seq<char>)
    ensures CStr(a + [NUL] + b) == CStr(a)
  {
    var s := a + [NUL] + b;
    var n := StrLen(a);
    assert forall i :: 0 <= i < n ==> s[i] == a[i];
    if n < |a| {
      assert s[n] == a[n];
    } else {
      assert s[n] == NUL;
    }
    StrLenFirstNul(s, n);
    assert s[..n] == a[..n];
  }

  /**
    strncpy(dst, src, n): copies the characters of src up to its first NUL,
    at most n of them, and fills the rest of dst[0..n] with NUL. The source
    is a C pointer into a buffer; its end counts as a NUL.
  */
  method Strncpy(dst: array<char>, src: seq<char>, n: nat)
    requires n <= dst.Length
    modifies dst
    ensures dst[..n] == StrncpyImage(src, n)
    ensures dst[n..] == old(dst[n..])
  {
    var i := 0;
    while i < n && i < |src| && src[i] != NUL
      invariant i <= n && i <= |src|
      invariant i <= StrLen(src)
      invariant dst[..i] == src[..i]
      invariant dst[n..] == old(dst[n..])
    {
      dst[i] := src[i];
      i := i + 1;
    }
    assert i == Min(StrLen(src), n);
    ghost var copied := dst[..i];
    while i < n
      invariant Min(StrLen(src), n) <= i <= n
      invariant dst[..Min(StrLen(src), n)] == copied
      invariant forall j :: Min(StrLen(src), n) <= j < i ==> dst[j] == NUL
      invariant dst[n..] == old(dst[n..])
    {
      dst[i] := NUL;
      i := i + 1;
    }
    assert dst[..n] == copied + dst[Min(StrLen(src), n)..n];
  }

  /**
    strncat(dst, src, n): appends at most n characters of the C string src
    after the C string in dst, then a NUL. The caller must leave room for them.
  */
  method Strncat(dst: array<char>, src: seq<char>, n: nat)
    requires StrLen(dst[..]) + Min(StrLen(src), n) < dst.Length
    modifies dst
    ensures CStr(dst[..]) == CStr(old(dst[..])) + Truncate(CStr(src), n)
    ensures var k := StrLen(old(dst[..])) + Min(StrLen(src), n);
      dst[k + 1..] == old(dst[k + 1..])
  {
    var start := StrLen(dst[..]);
    ghost var prefix := CStr(dst[..]);
    var i := CopyRun(dst, start, src, n);
    ghost var copied := dst[..];
    dst[start + i] := NUL;
    assert dst[start + i + 1..] == copied[start + i + 1..];
    AppendedCStr(dst[..], prefix, src[..i]);
  }

  /**
    The copy loop of strncat: the characters of src up to its first NUL, at
    most n of them, written from dst[start] on; nothing else changes.
  */
  method CopyRun(dst: array<char>, start: nat, src: seq<char>, n: nat) returns (i: nat)
    requires start + Min(StrLen(src), n) < dst.Length
    modifies dst
    ensures i == Min(StrLen(src), n) && src[..i] == Truncate(CStr(src), n)
    ensures dst[..start] == old(dst[..start])
    ensures dst[start..start + i] == src[..i]
    ensures dst[start + i..] == old(dst[start + i..])
  {
    i := 0;
    while i < n && i < |src| && src[i] != NUL
      invariant i <= n && i <= |src|
      invariant i <= StrLen(src)
      invariant dst[..start] == old(dst[..start])
      invariant dst[start..start + i] == src[..i]
      invariant dst[start + i..] == old(dst[start + i..])
    {
      dst[start + i] := src[i];
      i := i + 1;
    }
  }

  /** A C string, then characters without NUL, then a NUL: the C string is the two. */
  lemma AppendedCStr(a: seq<char>, prefix: seq<char>, tail: seq<char>)
    requires NUL !in prefix && NUL !in tail && |prefix| + |tail| < |a|
    requires a[..|prefix|] == prefix && a[|prefix|..|prefix| + |tail|] == tail
    requires a[|prefix| + |tail|] == NUL
    ensures CStr(a) == prefix + tail
  {
    var k := |prefix| + |tail|;
    assert a == (prefix + tail) + a[k..];
    CStrTerminated(prefix + tail, a[k..]);
  }

  /** strcat(dst, src): appends the whole C string src; the caller must leave room. */
  method Strcat(dst: array<char>, src: seq<char>)
    requires StrLen(dst[..]) + StrLen(src) < dst.Length
    modifies dst
    ensures CStr(dst[..]) == CStr(old(dst[..])) + CStr(src)
    ensures var k := StrLen(old(dst[..])) + StrLen(src);
      dst[k + 1..] == old(dst[k + 1..])
  {
    Strncat(dst, src, |src|);
  }
}

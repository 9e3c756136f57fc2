/**
  file_type: the Content-Type of a served file, chosen by the suffix that
  starts at the last `.` of the resolved path (strrchr), compared exactly and
  case-sensitively (strcmp) against a fixed list.
*/
module ContentType {
  import opened Wrappers

  const Default: string := "application/octet-stream"

  /** The suffixes the server knows, each with the type it sends. */
  const Known: map<string, string> := map[
    ".html" := "text/html",
    ".css" := "text/css",
    ".js" := "application/javascript",
    ".jpg" := "image/jpeg",
    ".jpeg" := "image/jpeg",
    ".png" := "image/png",
    ".gif" := "image/gif"
  ]

  /** strrchr(s, '.'): the position of the last dot, if any. */
  function LastDot(s: string): (r: Option<nat>)
    ensures r.Some? ==> r.value < |s| && s[r.value] == '.'
    ensures r.Some? ==> forall j :: r.value < j < |s| ==> s[j] != '.'
    ensures r.None? ==> forall j :: 0 <= j < |s| ==> s[j] != '.'
  {
    if s == [] then None
    else if s[|s| - 1] == '.' then Some(|s| - 1)
    else LastDot(s[..|s| - 1])
  }

  /** The suffix file_type compares: from the last dot to the end. */
  function Extension(path: string): (r: Option<string>)
    ensures r.Some? ==> |r.value| > 0 && r.value[0] == '.' && '.' !in r.value[1..]
    ensures r.Some? ==> exists base :: path == base + r.value
  {
    match LastDot(path)
    case None => None
    case Some(i) =>
      assert path == path[..i] + path[i..];
      Some(path[i..])
  }

  /** The comparison chain of file_type, in its order. */
  function FileType(path: string): string {
    match LastDot(path)
    case None => Default
    case Some(i) =>
      var ext := path[i..];
      if ext == ".html" then "text/html"
      else if ext == ".css" then "text/css"
      else if ext == ".js" then "application/javascript"
      else if ext == ".jpg" || ext == ".jpeg" then "image/jpeg"
      else if ext == ".png" then "image/png"
      else if ext == ".gif" then "image/gif"
      else Default
  }

  /** The type the list gives a suffix: listed ones map, all else is the default. */
  function TypeOf(ext: string): string {
    if ext in Known then Known[ext] else Default
  }

  /** file_type looks up the suffix after the last dot, and nothing else. */
  lemma FileTypeIsLookup(path: string)
    ensures FileType(path) == match Extension(path)
      case None => Default
      case Some(ext) => TypeOf(ext)
  {
    match LastDot(path)
    case None =>
    case Some(i) =>
      assert Extension(path) == Some(path[i..]);
      TypeOfIsChain(path[i..]);
  }

  /** The lookup in the list gives what the comparison chain gives. */
  lemma TypeOfIsChain(ext: string)
    ensures TypeOf(ext)
      == if ext == ".html" then "text/html"
         else if ext == ".css" then "text/css"
         else if ext == ".js" then "application/javascript"
         else if ext == ".jpg" || ext == ".jpeg" then "image/jpeg"
         else if ext == ".png" then "image/png"
         else if ext == ".gif" then "image/gif"
         else Default
  {
    assert Known.Keys == {".html", ".css", ".js", ".jpg", ".jpeg", ".png", ".gif"};
  }

  /**
    Whatever precedes it, a final suffix that holds no further dot decides the
    type: `/a/b.c.js` gets the type of `.js`.
  */
  lemma {:induction false} FileTypeOfSuffix(base: string, ext: string)
    requires |ext| > 0 && ext[0] == '.' && '.' !in ext[1..]
    ensures Extension(base + ext) == Some(ext)
    ensures FileType(base + ext) == TypeOf(ext)
  {
    var s := base + ext;
    forall j | |base| < j < |s| ensures s[j] != '.' {
      assert s[j] == ext[1..][j - |base| - 1];
    }
    assert s[|base|] == '.';
    var r := LastDot(s);
    assert r.Some?;
    assert r.value == |base|;
    assert s[|base|..] == ext;
    FileTypeIsLookup(s);
  }

  /** A path without any dot is served as application/octet-stream. */
  lemma FileTypeWithoutDot(path: string)
    requires '.' !in path
    ensures FileType(path) == Default
  {
  }

  /**
    A dot in a directory name counts as the extension when the file name has
    none: `./host_website/v1.2/notes` is sent as application/octet-stream.
  */
  lemma FileTypeDotInDirectory(base: string, dir: string, name: string)
    requires '.' !in dir && '.' !in name
    ensures FileType(base + "." + dir + "/" + name) == Default
  {
    var ext := "." + dir + "/" + name;
    assert ext[1..] == dir + "/" + name;
    assert '.' !in ext[1..];
    assert base + "." + dir + "/" + name == base + ext;
    FileTypeOfSuffix(base, ext);
    assert ext[|dir| + 1] == '/';
    KnownSuffixesAreNames();
  }

  /** No suffix in the list holds a `/`. */
  lemma KnownSuffixesAreNames()
    ensures forall ext :: ext in Known ==> '/' !in ext
  {
  }

  /** `.jpg` and `.jpeg` both give image/jpeg, compared case-sensitively: `.JPG` does not. */
  lemma JpegSuffixes(base: string)
    ensures FileType(base + ".jpg") == "image/jpeg"
    ensures FileType(base + ".jpeg") == "image/jpeg"
    ensures FileType(base + ".JPG") == Default
  {
    FileTypeOfSuffix(base, ".jpg");
    FileTypeOfSuffix(base, ".jpeg");
    FileTypeOfSuffix(base, ".JPG");
  }
}

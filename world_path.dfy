/**
 * The path handling at the start of `parseWorld`: the world file's path is
 * turned into a Unix-style path (every backslash becomes a slash), and the
 * directory prefix, up to and including the last slash, is kept as the base
 * path for the files the world refers to.
 */
module WorldPath {
  /** `std::string::npos`, the largest `size_t` (64 bits). */
  const NPOS: nat := 0xFFFF_FFFF_FFFF_FFFF

  /** Arithmetic on `size_t` is modulo 2^64. */
  const SIZE_T_MODULUS: nat := 0x1_0000_0000_0000_0000

  /** `replace(begin, end, '\\', '/')`: every backslash becomes a slash. */
  function ToUnixPath(path: string): (r: string)
    ensures |r| == |path|
    ensures forall i :: 0 <= i < |r| ==> r[i] == (if path[i] == '\\' then '/' else path[i])
    decreases |path|
  {
    if path == [] then []
    else
      var last := path[|path| - 1];
      ToUnixPath(path[..|path| - 1]) + [if last == '\\' then '/' else last]
  }

  /** A Unix path has no backslash, and normalising it again changes nothing. */
  lemma UnixPathIsNormal(path: string)
    ensures forall i :: 0 <= i < |ToUnixPath(path)| ==> ToUnixPath(path)[i] != '\\'
    ensures ToUnixPath(ToUnixPath(path)) == ToUnixPath(path)
  {
  }

  /** `rfind(c)`: the position of the last `c`, or `NPOS` when there is none. */
  function RFind(s: string, c: char): (r: nat)
    requires |s| < NPOS
    ensures r == NPOS <==> forall k :: 0 <= k < |s| ==> s[k] != c
    ensures r != NPOS ==> r < |s| && s[r] == c && forall k :: r < k < |s| ==> s[k] != c
    decreases |s|
  {
    if s == [] then NPOS
    else if s[|s| - 1] == c then |s| - 1
    else RFind(s[..|s| - 1], c)
  }

  /** `substr(0, n)`: the first `n` characters, or all of them when there are fewer. */
  function Prefix(s: string, n: nat): (r: string)
    ensures r <= s && |r| == (if n <= |s| then n else |s|)
  {
    if n <= |s| then s[..n] else s
  }

  /**
   * `substr(0, rfind("/") + 1)`: when there is no slash, `npos + 1` wraps to
   * zero, so the prefix is empty.
   */
  function DirPrefix(path: string): (r: string)
    requires |path| < NPOS
    ensures r <= path
  {
    Prefix(path, (RFind(path, '/') + 1) % SIZE_T_MODULUS)
  }

  /**
   * The directory prefix is a prefix of the path; it is empty exactly when
   * the path has no slash and otherwise ends in a slash; no slash follows it.
   */
  lemma DirPrefixSplits(path: string)
    requires |path| < NPOS
    ensures DirPrefix(path) <= path
    ensures DirPrefix(path) == [] <==> forall k :: 0 <= k < |path| ==> path[k] != '/'
    ensures DirPrefix(path) != [] ==> DirPrefix(path)[|DirPrefix(path)| - 1] == '/'
    ensures forall k :: |DirPrefix(path)| <= k < |path| ==> path[k] != '/'
  {
    var r := RFind(path, '/');
    if r == NPOS {
      assert (r + 1) % SIZE_T_MODULUS == 0;
    } else {
      assert (r + 1) % SIZE_T_MODULUS == r + 1;
    }
  }

  /**
   * For the path as given: the base path is cut just after the last slash or
   * backslash, and is empty when there is neither.
   */
  lemma WorldPathSplit(path: string)
    requires |path| < NPOS
    ensures |ToUnixPath(path)| < NPOS
    ensures DirPrefix(ToUnixPath(path)) == [] <==> forall k :: 0 <= k < |path| ==> path[k] != '/' && path[k] != '\\'
    ensures DirPrefix(ToUnixPath(path)) != [] ==>
      var n := |DirPrefix(ToUnixPath(path))|;
      (path[n - 1] == '/' || path[n - 1] == '\\') &&
      forall k :: n <= k < |path| ==> path[k] != '/' && path[k] != '\\'
  {
    var u := ToUnixPath(path);
    DirPrefixSplits(u);
    var n := |DirPrefix(u)|;
    if n != 0 {
      assert DirPrefix(u)[n - 1] == u[n - 1];
    }
  }
}

/**
 * POSIX path handling used by `normalize_path`: `os.path.isabs` and the
 * two-argument `os.path.join`.
 */
module Paths {

  /** `os.path.isabs`: a POSIX path is absolute when it starts with a slash. */
  predicate IsAbs(p: string)
  {
    |p| > 0 && p[0] == '/'
  }

  /** The project root is computed with `os.path.abspath`, so it is absolute. */
  type AbsPath = p: string | IsAbs(p) witness "/"

  /**
   * `os.path.join(a, b)`: an absolute `b` replaces `a`; otherwise `b` is
   * appended to `a`, with one slash in between unless `a` is empty or
   * already ends in a slash.
   */
  function Join(a: string, b: string): (r: string)
    ensures IsAbs(b) ==> r == b
    ensures !IsAbs(b) ==> |r| >= |a| + |b| && r[..|a|] == a && r[|r| - |b|..] == b
    ensures !IsAbs(b) ==> |r| <= |a| + |b| + 1
    ensures !IsAbs(b) ==> (|r| == |a| + |b| <==> a == [] || a[|a| - 1] == '/')
    ensures !IsAbs(b) && |r| == |a| + |b| + 1 ==> r[|a|] == '/'
    ensures !IsAbs(b) && IsAbs(a) ==> IsAbs(r)
  {
    if IsAbs(b) then b
    else if a == [] || a[|a| - 1] == '/' then a + b
    else a + "/" + b
  }

  /**
   * `normalize_path`: an absolute path is returned as it is; a relative one
   * is joined onto the project root. The result is always absolute.
   */
  function NormalizePath(root: AbsPath, path: string): (r: string)
    ensures IsAbs(r)
    ensures IsAbs(path) ==> r == path
    ensures !IsAbs(path) ==> r == Join(root, path)
  {
    if !IsAbs(path) then Join(root, path) else path
  }

  /** Normalising twice is normalising once: the first result is already absolute. */
  lemma NormalizeIdempotent(root: AbsPath, path: string)
    ensures NormalizePath(root, NormalizePath(root, path)) == NormalizePath(root, path)
  {
  }

  /**
   * A relative path is found again, unchanged, at the end of its normalised
   * form, right after the root and at most one separator.
   */
  lemma NormalizeRelative(root: AbsPath, path: string)
    requires !IsAbs(path)
    ensures var r := NormalizePath(root, path);
      r[..|root|] == root && r[|r| - |path|..] == path && |root| + |path| <= |r| <= |root| + |path| + 1
  {
  }
}

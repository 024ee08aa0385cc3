/**
 * Path utilities (`normalize_path`, myrclone7calisiyor.py:102-104).
 *
 * What `pathlib` does to a path string depends on the operating system
 * (separators, drive letters, `//` roots), so the model takes the host's
 * path operations as a parameter and fixes only the step the file itself
 * performs: every backslash of the pathlib string becomes a forward slash.
 */
module Paths {

  /** The host's `pathlib` operations, each giving the `str(...)` of the
      resulting path. */
  datatype Platform = Platform(
    pathStr: string -> string,         // str(Path(p))
    join: (string, string) -> string,  // str(Path(p) / name)
    parent: string -> string)          // str(Path(p).parent)

  /** `s.replace('\\', '/')`: each backslash becomes a slash, every other
      character stays where it is. */
  function ReplaceBackslashes(s: string): (r: string)
    ensures |r| == |s|
    ensures forall i :: 0 <= i < |s| ==> r[i] == (if s[i] == '\\' then '/' else s[i])
  {
    if s == [] then [] else [if s[0] == '\\' then '/' else s[0]] + ReplaceBackslashes(s[1..])
  }

  /** `normalize_path(p)`: whatever the platform makes of `p`, the result
      uses forward slashes only. */
  function Normalize(pl: Platform, p: string): (r: string)
    ensures '\\' !in r
  {
    ReplaceBackslashes(pl.pathStr(p))
  }

  /** Replacing backslashes again changes nothing: a normalized path is
      already in forward-slash form. */
  lemma NormalizeStable(pl: Platform, p: string)
    ensures ReplaceBackslashes(Normalize(pl, p)) == Normalize(pl, p)
  {
    var r := Normalize(pl, p);
    var rr := ReplaceBackslashes(r);
    forall i | 0 <= i < |r| ensures rr[i] == r[i] {
      assert r[i] in r;
    }
  }
}

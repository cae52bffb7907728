/** strip_path_from_name: the program name shown in usage text is argv[0] without its directories. */
module Paths {

  predicate IsSeparator(c: char)
  {
    c == '/' || c == '\\'
  }

  /**
    * The backward scan of strip_path_from_name from position `i`: the index
    * just after the last separator before `i`, or 0 when there is none.
    */
  function SuffixStart(path: string, i: nat): (r: nat)
    requires i <= |path|
    ensures r <= i
    ensures forall j :: r <= j < i ==> !IsSeparator(path[j])
    ensures r > 0 ==> IsSeparator(path[r - 1])
  {
    if i == 0 then 0
    else if IsSeparator(path[i - 1]) then i
    else SuffixStart(path, i - 1)
  }

  /** The part of `path` after its last `/` or `\`, or all of it when it has neither. */
  function StripPath(path: string): (r: string)
    ensures |r| <= |path| && r == path[|path| - |r|..]
    ensures forall j :: 0 <= j < |r| ==> !IsSeparator(r[j])
    ensures |r| < |path| ==> IsSeparator(path[|path| - |r| - 1])
  {
    path[SuffixStart(path, |path|)..]
  }
}

/**
 * `filepath.Base` on a Unix system, where the separator is `/` and there are no volume names.
 */
module FilePath {
  import opened Wrappers
  import opened GoStrings

  /** The path with every trailing `/` removed. */
  function TrimTrailingSlashes(s: string): (t: string)
    ensures t <= s
    ensures t == [] || t[|t| - 1] != '/'
    ensures forall i | |t| <= i < |s| :: s[i] == '/'
    decreases |s|
  {
    if s != [] && s[|s| - 1] == '/' then TrimTrailingSlashes(s[..|s| - 1]) else s
  }

  /** The text after the last `/` of `t` (all of `t` when it has none). */
  function LastElement(t: string): (r: string)
    ensures '/' !in r
    ensures |r| <= |t| && t[|t| - |r|..] == r
    ensures |r| == |t| || t[|t| - |r| - 1] == '/'
  {
    match LastIndexOf(t, '/')
    case None => t
    case Some(i) => t[i + 1..]
  }

  /**
   * The last element of `path`: trailing slashes are removed first; the empty path gives
   * "." and a path made only of slashes gives "/".
   */
  function Base(path: string): (r: string)
    ensures r != ""
    ensures r == "/" || '/' !in r
    ensures r == "/" <==> path != "" && forall i | 0 <= i < |path| :: path[i] == '/'
    ensures path == "" ==> r == "."
  {
    if path == "" then "."
    else
      var t := TrimTrailingSlashes(path);
      if t == "" then "/"
      else
        var r := LastElement(t);
        assert exists i | 0 <= i < |path| :: path[i] != '/' by {
          assert path[|t| - 1] == t[|t| - 1];
        }
        r
  }

  /**
   * `path[k..k + |r|]` is `r`, starts the path or follows a `/`, and only slashes come after it.
   */
  predicate IsLastElementAt(path: string, r: string, k: int) {
    && 0 <= k && k + |r| <= |path|
    && path[k..k + |r|] == r
    && (k == 0 || path[k - 1] == '/')
    && forall j | k + |r| <= j < |path| :: path[j] == '/'
  }

  /**
   * Base is the element after the last `/` of the path once its trailing slashes are gone:
   * the path is `pre + r + slashes`, where `pre` is empty or ends in `/`.
   */
  lemma BaseIsLastElement(path: string)
    requires exists i | 0 <= i < |path| :: path[i] != '/'
    ensures exists k :: IsLastElementAt(path, Base(path), k)
  {
    var t := TrimTrailingSlashes(path);
    var r := Base(path);
    assert t != "" by {
      var i :| 0 <= i < |path| && path[i] != '/';
      assert i < |t|;
    }
    var k := |t| - |r|;
    assert path[k..k + |r|] == t[k..];
    assert IsLastElementAt(path, r, k);
  }
}

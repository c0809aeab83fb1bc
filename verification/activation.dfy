/** The page check of `init`: the script acts only on pull-request pages. */
module Activation {
  import opened Text

  /** `/pull/` followed by a digit starts at position `i` of `path`. */
  predicate PullAt(path: string, i: nat) {
    i + 7 <= |path| && path[i..i + 6] == "/pull/" && IsDigit(path[i + 6])
  }

  /** Scan of `path` from position `from` for `/\/pull\/\d+/`: the regular
      expression is unanchored and `\d+` needs only its first digit. */
  function MatchesFrom(path: string, from: nat): (b: bool)
    requires from <= |path|
    ensures b <==> exists i :: from <= i <= |path| && PullAt(path, i)
    decreases |path| - from
  {
    if from + 7 > |path| then false
    else PullAt(path, from) || MatchesFrom(path, from + 1)
  }

  /** `window.location.pathname.match(/\/pull\/\d+/)` is truthy. */
  function IsPullRequestPath(path: string): (b: bool)
    ensures b <==> exists i :: 0 <= i <= |path| && PullAt(path, i)
  {
    MatchesFrom(path, 0)
  }
}

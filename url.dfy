/** Normalisation of the `--server` argument: `args.server.rstrip("/")`. */
module Url {

  /** Removes every trailing '/' character. */
  function TrimTrailingSlashes(s: string): (r: string)
    ensures |r| <= |s| && r == s[..|r|]
    ensures r == [] || r[|r| - 1] != '/'
    ensures forall k :: |r| <= k < |s| ==> s[k] == '/'
    decreases |s|
  {
    if s != [] && s[|s| - 1] == '/' then TrimTrailingSlashes(s[..|s| - 1]) else s
  }

  /** The three properties above pin the result down: any prefix of `s` that
      does not end in '/' and after which `s` holds only '/' is the trimmed URL. */
  lemma TrimTrailingSlashesUnique(s: string, r: string)
    requires |r| <= |s| && r == s[..|r|]
    requires r == [] || r[|r| - 1] != '/'
    requires forall k :: |r| <= k < |s| ==> s[k] == '/'
    ensures r == TrimTrailingSlashes(s)
  {
    var t := TrimTrailingSlashes(s);
    if |r| < |t| {
      assert false;
    } else if |t| < |r| {
      assert false;
    }
  }

  /** Normalising an already normalised URL changes nothing. */
  lemma TrimTrailingSlashesIdempotent(s: string)
    ensures TrimTrailingSlashes(TrimTrailingSlashes(s)) == TrimTrailingSlashes(s)
  {
    var t := TrimTrailingSlashes(s);
    TrimTrailingSlashesUnique(t, t);
  }

  /** Appending slashes does not change the normalised URL. */
  lemma {:induction false} TrailingSlashesIgnored(s: string, n: nat)
    ensures TrimTrailingSlashes(s + seq(n, _ => '/')) == TrimTrailingSlashes(s)
  {
    var t := TrimTrailingSlashes(s);
    var u := s + seq(n, _ => '/');
    assert u[..|s|] == s;
    assert t == u[..|t|];
    TrimTrailingSlashesUnique(u, t);
  }
}

/** Paths as the service compares them: with forward slashes, and none at either end. */
module Paths {
  import opened Text

  function NormalizeSlashes(text: string): string {
    seq(|text|, i requires 0 <= i < |text| => if text[i] == '\\' then '/' else text[i])
  }

  function NormalizePath(text: string): string { Trim(NormalizeSlashes(text), {'/'}) }

  /** The path is the prefix itself or lies below it. */
  predicate PathMatchesPrefix(path: string, prefix: string) {
    var p, q := NormalizePath(path), NormalizePath(prefix);
    q == [] || p == q || (StartsWith(p, q) && |p| > |q| && p[|q|] == '/')
  }

  /** What follows the last slash of either kind. */
  function LastSegment(text: string): string {
    if text == [] || text[|text| - 1] == '/' || text[|text| - 1] == '\\' then []
    else LastSegment(text[..|text| - 1]) + [text[|text| - 1]]
  }

  function LastPathSegment(text: string): string { LastSegment(NormalizePath(text)) }

  ghost predicate Slash(c: char) { c == '/' || c == '\\' }

  lemma NormalizedJoin(a: string, b: string)
    ensures NormalizeSlashes(a + b) == NormalizeSlashes(a) + NormalizeSlashes(b)
  {
  }

  /** A path that begins with no slash is trimmed at its end only. */
  lemma NormalizedPath(q: string, r: string)
    requires q != [] && !Slash(q[0]) && !Slash(q[|q| - 1])
    ensures NormalizePath(q + r) == NormalizeSlashes(q) + TrimRight(NormalizeSlashes(r), {'/'})
  {
    var p := NormalizeSlashes(q);
    NormalizedJoin(q, r);
    TrimRightAfter(p, NormalizeSlashes(r), {'/'});
    assert (p + TrimRight(NormalizeSlashes(r), {'/'}))[0] == p[0] != '/';
  }

  lemma NormalizedPrefix(q: string)
    requires q != [] && !Slash(q[0]) && !Slash(q[|q| - 1])
    ensures NormalizePath(q) == NormalizeSlashes(q) != []
  {
    var p := NormalizeSlashes(q);
    assert p[0] != '/' && p[|p| - 1] != '/';
  }

  lemma TrimmedTail(c: char, r: string)
    ensures var tail := TrimRight(NormalizeSlashes([c] + r), {'/'});
            (tail == [] ==> Slash(c)) && (tail != [] ==> tail[0] == if Slash(c) then '/' else c)
  {
    var rest := NormalizeSlashes([c] + r);
    assert rest[0] == if Slash(c) then '/' else c;
    if !Slash(c) {
      TrimRightAfter([c], NormalizeSlashes(r), {'/'});
      NormalizedJoin([c], r);
      assert NormalizeSlashes([c]) == [c];
    }
  }

  /** A prefix matches itself and whatever lies below it, with slashes of either kind, and nothing that
      goes on with another character. */
  lemma PrefixMatches(q: string, c: char, r: string)
    requires q != [] && !Slash(q[0]) && !Slash(q[|q| - 1])
    ensures PathMatchesPrefix(q, q)
    ensures PathMatchesPrefix(q + [c] + r, q) <==> Slash(c)
  {
    var p, tail := NormalizeSlashes(q), TrimRight(NormalizeSlashes([c] + r), {'/'});
    NormalizedPrefix(q);
    assert q + [c] + r == q + ([c] + r);
    NormalizedPath(q, [c] + r);
    TrimmedTail(c, r);
    hide NormalizePath, NormalizeSlashes, TrimRight;
    assert (p + tail)[0..|p|] == p;
    if tail != [] { assert (p + tail)[|p|] == tail[0]; } else { assert p + tail == p; }
  }

  /** The empty prefix, and one of slashes only, match everything. */
  lemma EmptyPrefixMatches(path: string, prefix: string)
    requires forall i :: 0 <= i < |prefix| ==> Slash(prefix[i])
    ensures PathMatchesPrefix(path, prefix)
  {
    AllTrimmed(NormalizeSlashes(prefix), {'/'});
  }
}

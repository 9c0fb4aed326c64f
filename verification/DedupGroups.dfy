/** The fold that sorts messages into candidates by path and version, and the choice among them. */
module DedupGroups {
  import opened Basics
  import opened Paths
  import opened Records
  import opened Dedup

  /** What was found of one version: the message to keep for each block, and the others. */
  datatype VersionCandidate = VersionCandidate(key: VersionKey, best: map<int, nat>, duplicates: seq<nat>)

  type Groups = map<string, map<VersionKey, VersionCandidate>>

  /** What was decided about one path. */
  datatype PathResult = PathResult(keptMd5: string, kept: set<nat>, deleted: set<nat>)

  predicate Admits(m: Metadata, prefix: string) {
    IsCacheable(m) && PathMatchesPrefix(m.localPath, prefix)
  }

  // ---------------------------------------------------------------------------------------
  // What the tables mean

  /** The candidate holds the best message of each block of its version, and lists all others. */
  ghost predicate CandidateFits(s: Messages, path: string, v: VersionKey, c: VersionCandidate) {
    && c.key == v
    && (forall n :: n in c.best ==> IsBest(s, c.best[n], path, v, n))
    && (forall u: nat :: InVersion(s, u, path, v) ==> s[u].blockSeq in c.best)
    && (forall u: nat :: u in c.duplicates <==> InVersion(s, u, path, v) && !IsBest(s, u, path, v, s[u].blockSeq))
  }

  ghost predicate PathFits(s: Messages, path: string, versions: map<VersionKey, VersionCandidate>) {
    && (forall v :: v in versions <==> Present(s, path, v))
    && (forall v :: v in versions ==> CandidateFits(s, path, v, versions[v]))
  }

  ghost predicate GroupsFit(s: Messages, groups: Groups) {
    && (forall u: nat :: u in s ==> s[u].localPath in groups)
    && (forall path :: path in groups ==> groups[path] != map[] && PathFits(s, path, groups[path]))
  }

  /** A new message of `path` and `v` changes nothing about other paths and versions. */
  lemma OtherCandidate(s: Messages, u: nat, m: Metadata, path: string, v: VersionKey, c: VersionCandidate)
    requires u !in s && CandidateFits(s, path, v, c) && (m.localPath != path || KeyOf(m) != v)
    ensures CandidateFits(s[u := m], path, v, c)
  {
    var n := s[u := m];
    assert forall w: nat :: InVersion(n, w, path, v) <==> InVersion(s, w, path, v);
    assert forall w: nat, k :: IsBlock(n, w, path, v, k) <==> IsBlock(s, w, path, v, k);
    assert forall w: nat, k :: IsBest(n, w, path, v, k) <==> IsBest(s, w, path, v, k);
  }

  /** The first message of a block of its version. */
  lemma NewBlock(s: Messages, u: nat, m: Metadata, c: VersionCandidate)
    requires u !in s && CandidateFits(s, m.localPath, KeyOf(m), c) && m.blockSeq !in c.best
    ensures CandidateFits(s[u := m], m.localPath, KeyOf(m), c.(best := c.best[m.blockSeq := u]))
  {
    var n, path, v := s[u := m], m.localPath, KeyOf(m);
    forall w: nat, k
      ensures IsBlock(n, w, path, v, k) <==> IsBlock(s, w, path, v, k) || (w == u && k == m.blockSeq)
    {
    }
    assert forall w: nat :: !IsBlock(s, w, path, v, m.blockSeq);
    assert IsBest(n, u, path, v, m.blockSeq);
    assert forall w: nat, k :: w != u ==> (IsBest(n, w, path, v, k) <==> IsBest(s, w, path, v, k));
    assert forall w: nat :: w != u ==> (InVersion(n, w, path, v) <==> InVersion(s, w, path, v));
  }

  /** A message of a block that is there already: the larger uid stays, the other is a duplicate. */
  lemma SameBlock(s: Messages, u: nat, m: Metadata, c: VersionCandidate)
    requires u !in s && CandidateFits(s, m.localPath, KeyOf(m), c) && m.blockSeq in c.best
    ensures var held := c.best[m.blockSeq];
            CandidateFits(s[u := m], m.localPath, KeyOf(m),
                          if u > held then c.(best := c.best[m.blockSeq := u], duplicates := c.duplicates + [held])
                          else c.(duplicates := c.duplicates + [u]))
  {
    var n, path, v, held := s[u := m], m.localPath, KeyOf(m), c.best[m.blockSeq];
    assert IsBest(s, held, path, v, m.blockSeq);
    forall w: nat, k
      ensures IsBlock(n, w, path, v, k) <==> IsBlock(s, w, path, v, k) || (w == u && k == m.blockSeq)
    {
    }
    assert IsBest(n, if u > held then u else held, path, v, m.blockSeq);
    assert forall w: nat, k :: k != m.blockSeq ==> (IsBest(n, w, path, v, k) <==> IsBest(s, w, path, v, k));
    assert forall w: nat :: w != u ==> (InVersion(n, w, path, v) <==> InVersion(s, w, path, v));
    assert forall w: nat :: IsBest(n, w, path, v, m.blockSeq) ==> w == if u > held then u else held;
    assert forall w: nat :: IsBest(s, w, path, v, m.blockSeq) ==> w == held;
  }

  function VersionsOf(groups: Groups, path: string): map<VersionKey, VersionCandidate> {
    if path in groups then groups[path] else map[]
  }

  function WithCandidate(groups: Groups, path: string, v: VersionKey, c: VersionCandidate): Groups {
    groups[path := VersionsOf(groups, path)[v := c]]
  }

  lemma PathGrows(s: Messages, u: nat, m: Metadata, versions: map<VersionKey, VersionCandidate>, c: VersionCandidate)
    requires u !in s && PathFits(s, m.localPath, versions)
    requires CandidateFits(s[u := m], m.localPath, KeyOf(m), c)
    ensures PathFits(s[u := m], m.localPath, versions[KeyOf(m) := c])
  {
    assert InVersion(s[u := m], u, m.localPath, KeyOf(m));
    forall w | w != KeyOf(m)
      ensures Present(s[u := m], m.localPath, w) <==> Present(s, m.localPath, w)
      ensures w in versions ==> CandidateFits(s[u := m], m.localPath, w, versions[w])
    {
      PresentElsewhere(s, u, m, m.localPath, w);
      if w in versions { OtherCandidate(s, u, m, m.localPath, w, versions[w]); }
    }
  }

  lemma OtherPath(s: Messages, u: nat, m: Metadata, path: string, versions: map<VersionKey, VersionCandidate>)
    requires u !in s && m.localPath != path && PathFits(s, path, versions)
    ensures PathFits(s[u := m], path, versions)
  {
    forall w
      ensures Present(s[u := m], path, w) <==> Present(s, path, w)
      ensures w in versions ==> CandidateFits(s[u := m], path, w, versions[w])
    {
      PresentElsewhere(s, u, m, path, w);
      if w in versions { OtherCandidate(s, u, m, path, w, versions[w]); }
    }
  }

  /** Putting the right candidate back for the path and version of a new message. */
  lemma GroupsGrow(s: Messages, u: nat, m: Metadata, groups: Groups, c: VersionCandidate)
    requires GroupsFit(s, groups) && u !in s
    requires CandidateFits(s[u := m], m.localPath, KeyOf(m), c)
    ensures GroupsFit(s[u := m], WithCandidate(groups, m.localPath, KeyOf(m), c))
  {
    var n, path := s[u := m], m.localPath;
    var versions := VersionsOf(groups, path)[KeyOf(m) := c];
    assert PathFits(n, path, versions) by {
      VersionsFit(s, groups, path);
      PathGrows(s, u, m, VersionsOf(groups, path), c);
    }
    assert KeyOf(m) in versions;
    var after := WithCandidate(groups, path, KeyOf(m), c);
    forall p | p in after
      ensures after[p] != map[] && PathFits(n, p, after[p])
    {
      if p != path {
        assert after[p] == groups[p];
        OtherPath(s, u, m, p, groups[p]);
      } else {
        assert after[p] == versions;
      }
    }
    forall w: nat | w in n
      ensures n[w].localPath in after
    {
      assert w == u || w in s;
    }
  }

  lemma VersionsFit(s: Messages, groups: Groups, path: string)
    requires GroupsFit(s, groups)
    ensures PathFits(s, path, VersionsOf(groups, path))
  {
  }

  lemma PresentElsewhere(s: Messages, u: nat, m: Metadata, path: string, v: VersionKey)
    requires u !in s && (m.localPath != path || KeyOf(m) != v)
    ensures Present(s[u := m], path, v) <==> Present(s, path, v)
  {
    if Present(s, path, v) {
      var w: nat :| InVersion(s, w, path, v);
      assert InVersion(s[u := m], w, path, v);
    }
    if Present(s[u := m], path, v) {
      var w: nat :| InVersion(s[u := m], w, path, v);
      assert InVersion(s, w, path, v);
    }
  }

  // ---------------------------------------------------------------------------------------
  // Scores

  predicate Complete(c: VersionCandidate) {
    && c.key.count > 0 && |c.best| == c.key.count
    && forall n :: 1 <= n <= c.key.count ==> n in c.best && c.best[n] != 0
  }

  method IsComplete(c: VersionCandidate) returns (complete: bool)
    ensures complete == Complete(c)
  {
    if c.key.count <= 0 || |c.best| != c.key.count {
      return false;
    }
    for n := 1 to c.key.count + 1
      invariant forall k :: 1 <= k < n ==> k in c.best && c.best[k] != 0
    {
      if n !in c.best || c.best[n] == 0 {
        return false;
      }
    }
    return true;
  }

  function Range(n: nat): (r: set<int>)
    ensures |r| == n && forall k :: k in r <==> 1 <= k <= n
  {
    if n == 0 then {} else Range(n - 1) + {n}
  }

  lemma {:induction false} SameSize(a: set<int>, b: set<int>)
    requires a <= b && |a| == |b|
    ensures a == b
  {
    assert b == a + (b - a);
    assert |b| == |a| + |b - a|;
  }

  lemma HasBlockIsBest(s: Messages, path: string, v: VersionKey, c: VersionCandidate, n: int)
    requires CandidateFits(s, path, v, c)
    ensures HasBlock(s, path, v, n) <==> n in c.best && c.best[n] != 0
  {
    if n in c.best { assert IsBest(s, c.best[n], path, v, n); }
    if HasBlock(s, path, v, n) {
      var u: nat :| u != 0 && IsBlock(s, u, path, v, n);
      assert InVersion(s, u, path, v);
    }
  }

  lemma CompleteImpliesExact(s: Messages, path: string, v: VersionKey, c: VersionCandidate)
    requires CandidateFits(s, path, v, c) && Complete(c)
    ensures Exact(s, path, v)
  {
    forall n | 1 <= n <= v.count
      ensures HasBlock(s, path, v, n)
    {
      HasBlockIsBest(s, path, v, c, n);
    }
    SameSize(Range(v.count), c.best.Keys);
    forall u: nat | InVersion(s, u, path, v)
      ensures 1 <= s[u].blockSeq <= v.count
    {
      assert s[u].blockSeq in c.best.Keys;
    }
  }

  lemma ExactImpliesComplete(s: Messages, path: string, v: VersionKey, c: VersionCandidate)
    requires CandidateFits(s, path, v, c) && Exact(s, path, v)
    ensures Complete(c)
  {
    forall n
      ensures n in c.best.Keys <==> n in Range(v.count)
      ensures 1 <= n <= v.count ==> n in c.best && c.best[n] != 0
    {
      HasBlockIsBest(s, path, v, c, n);
      if n in c.best { assert InVersion(s, c.best[n], path, v); }
    }
    assert c.best.Keys == Range(v.count);
  }

  /** The program's completeness test is the one of the reference. */
  lemma CompleteIsExact(s: Messages, path: string, v: VersionKey, c: VersionCandidate)
    requires CandidateFits(s, path, v, c)
    ensures Complete(c) <==> Exact(s, path, v)
  {
    if Complete(c) { CompleteImpliesExact(s, path, v, c); }
    if Exact(s, path, v) { ExactImpliesComplete(s, path, v, c); }
  }

  /** The largest uid among the messages to keep, 0 when there is none. */
  ghost predicate IsMax(best: map<int, nat>, m: nat) {
    && (forall n :: n in best ==> best[n] <= m)
    && (m == 0 || exists n :: n in best && best[n] == m)
  }

  method MaxUid(c: VersionCandidate) returns (m: nat)
    ensures IsMax(c.best, m)
  {
    m := 0;
    ghost var at := 0;
    var todo := c.best.Keys;
    while todo != {}
      invariant todo <= c.best.Keys
      invariant forall n :: n in c.best && n !in todo ==> c.best[n] <= m
      invariant m == 0 || (at in c.best && c.best[at] == m)
    {
      var n := Pick(todo);
      todo := todo - {n};
      if c.best[n] > m {
        m, at := c.best[n], n;
      }
    }
  }

  datatype Score = Score(complete: bool, maxUid: nat)

  predicate Beats(a: Score, b: Score) {
    (a.complete && !b.complete) || (a.complete == b.complete && a.maxUid > b.maxUid)
  }

  ghost predicate Scores(c: VersionCandidate, score: Score) {
    score.complete == Complete(c) && IsMax(c.best, score.maxUid)
  }

  method ScoreOf(c: VersionCandidate) returns (score: Score)
    ensures Scores(c, score)
  {
    var complete := IsComplete(c);
    var max := MaxUid(c);
    score := Score(complete, max);
  }

  lemma MaxIsNewest(s: Messages, path: string, v: VersionKey, c: VersionCandidate, m: nat)
    requires CandidateFits(s, path, v, c) && Present(s, path, v) && IsMax(c.best, m)
    ensures Newest(s, m, path, v)
  {
    forall w: nat | InVersion(s, w, path, v)
      ensures w <= m && InVersion(s, m, path, v)
    {
      var n := s[w].blockSeq;
      assert IsBest(s, c.best[n], path, v, n) && IsBlock(s, w, path, v, n);
      if m == 0 {
        assert IsBlock(s, c.best[n], path, v, n);
      } else {
        var k :| k in c.best && c.best[k] == m;
        assert IsBest(s, m, path, v, k);
      }
    }
    var any: nat :| InVersion(s, any, path, v);
  }

  ghost predicate Unbeating(c: VersionCandidate, top: Score) {
    forall score :: Scores(c, score) ==> !Beats(score, top)
  }

  lemma ScoreUnique(c: VersionCandidate, a: Score, b: Score)
    requires Scores(c, a) && Scores(c, b)
    ensures a == b
  {
  }

  /** A candidate that none beats is the version the reference chooses. */
  lemma UnbeatenIsChosen(s: Messages, path: string, versions: map<VersionKey, VersionCandidate>, v: VersionKey, top: Score)
    requires PathFits(s, path, versions) && v in versions && Scores(versions[v], top)
    requires forall w :: w in versions ==> Unbeating(versions[w], top)
    ensures Chosen(s, path, v)
  {
    CompleteIsExact(s, path, v, versions[v]);
    assert Present(s, path, v);
    MaxIsNewest(s, path, v, versions[v], top.maxUid);
    forall w | Present(s, path, w)
      ensures Exact(s, path, w) ==> Exact(s, path, v)
      ensures Exact(s, path, w) == Exact(s, path, v) ==> NotOlder(s, path, v, w)
    {
      var score := ScoreOfVersion(s, path, w, versions[w]);
      assert Unbeating(versions[w], top);
    }
  }

  lemma ScoreOfVersion(s: Messages, path: string, v: VersionKey, c: VersionCandidate) returns (score: Score)
    requires CandidateFits(s, path, v, c) && Present(s, path, v)
    ensures Scores(c, score) && Newest(s, score.maxUid, path, v)
    ensures score.complete <==> Exact(s, path, v)
  {
    var newest := NewestExists(s, path, v);
    NewestIsMax(s, path, v, c, newest);
    CompleteIsExact(s, path, v, c);
    score := Score(Complete(c), newest);
  }

  lemma NewestIsMax(s: Messages, path: string, v: VersionKey, c: VersionCandidate, m: nat)
    requires CandidateFits(s, path, v, c) && Newest(s, m, path, v)
    ensures IsMax(c.best, m)
  {
    forall n | n in c.best
      ensures c.best[n] <= m
    {
      assert InVersion(s, c.best[n], path, v);
    }
    var k := s[m].blockSeq;
    assert IsBest(s, c.best[k], path, v, k) && IsBlock(s, m, path, v, k);
  }

  // ---------------------------------------------------------------------------------------
  // The choice

  method PickVersion(versions: map<VersionKey, VersionCandidate>) returns (keep: VersionKey)
    requires versions != map[]
    ensures keep in versions
    ensures exists top :: Scores(versions[keep], top) && forall w :: w in versions ==> Unbeating(versions[w], top)
  {
    keep := Pick(versions.Keys);
    var todo := versions.Keys;
    var top := ScoreOf(versions[keep]);
    while todo != {}
      invariant keep in versions && todo <= versions.Keys && Scores(versions[keep], top)
      invariant forall w :: w in versions && w !in todo ==> Unbeating(versions[w], top)
    {
      var v := Pick(todo);
      todo := todo - {v};
      var current := ScoreOf(versions[v]);
      forall score | Scores(versions[v], score)
        ensures score == current
      {
        ScoreUnique(versions[v], score, current);
      }
      if Beats(current, top) {
        keep, top := v, current;
      }
    }
  }

  function KeptUids(c: VersionCandidate): set<nat> { set n | n in c.best :: c.best[n] }

  /** The duplicates of every version, and what would have been kept of all but one. */
  function Dropped(versions: map<VersionKey, VersionCandidate>, keep: VersionKey): set<nat> {
    (set v, u | v in versions && u in versions[v].duplicates :: u)
    + (set v, u | v in versions && v != keep && u in KeptUids(versions[v]) :: u)
  }

  /** What the result of a path says, in terms of the messages of that path alone. */
  ghost predicate Settled(s: Messages, path: string, r: PathResult) {
    && (forall u: nat :: u in r.kept <==> OnPath(s, u, path) && Kept(s, u))
    && (forall u: nat :: u in r.deleted <==> OnPath(s, u, path) && !Kept(s, u))
    && (forall u: nat :: u in r.kept ==> s[u].fileMd5 == r.keptMd5)
  }

  lemma KeptAreBest(s: Messages, path: string, v: VersionKey, c: VersionCandidate, u: nat)
    requires CandidateFits(s, path, v, c)
    ensures u in KeptUids(c) <==> InVersion(s, u, path, v) && IsBest(s, u, path, v, s[u].blockSeq)
  {
    if InVersion(s, u, path, v) && IsBest(s, u, path, v, s[u].blockSeq) {
      var n := s[u].blockSeq;
      assert IsBest(s, c.best[n], path, v, n);
      assert c.best[n] == u;
    }
  }

  lemma KeptInChosen(s: Messages, path: string, keep: VersionKey, u: nat)
    requires Chosen(s, path, keep)
    ensures OnPath(s, u, path) && Kept(s, u) <==> InVersion(s, u, path, keep) && IsBest(s, u, path, keep, s[u].blockSeq)
  {
    if OnPath(s, u, path) && Kept(s, u) {
      ChosenUnique(s, path, keep, KeyOf(s[u]));
    }
  }

  lemma DroppedInChosen(s: Messages, path: string, versions: map<VersionKey, VersionCandidate>, keep: VersionKey, u: nat)
    requires PathFits(s, path, versions) && Chosen(s, path, keep)
    ensures u in Dropped(versions, keep) <==> OnPath(s, u, path) && !Kept(s, u)
  {
    KeptInChosen(s, path, keep, u);
    if u in Dropped(versions, keep) {
      var v :| v in versions && (u in versions[v].duplicates || (v != keep && u in KeptUids(versions[v])));
      KeptAreBest(s, path, v, versions[v], u);
    }
    if OnPath(s, u, path) && !Kept(s, u) {
      var v := KeyOf(s[u]);
      assert InVersion(s, u, path, v);
      KeptAreBest(s, path, v, versions[v], u);
    }
  }

  /** Keeping the chosen version and dropping the rest settles the path. */
  lemma ChoiceSettles(s: Messages, path: string, versions: map<VersionKey, VersionCandidate>, keep: VersionKey)
    requires PathFits(s, path, versions) && keep in versions && Chosen(s, path, keep)
    ensures Settled(s, path, PathResult(keep.md5, KeptUids(versions[keep]), Dropped(versions, keep)))
  {
    forall u: nat
      ensures u in KeptUids(versions[keep]) <==> OnPath(s, u, path) && Kept(s, u)
      ensures u in Dropped(versions, keep) <==> OnPath(s, u, path) && !Kept(s, u)
      ensures u in KeptUids(versions[keep]) ==> s[u].fileMd5 == keep.md5
    {
      KeptAreBest(s, path, keep, versions[keep], u);
      KeptInChosen(s, path, keep, u);
      DroppedInChosen(s, path, versions, keep, u);
    }
  }

  /** Of one version, the duplicates go; of several, the best-scored one stays. */
  method DecidePath(ghost s: Messages, path: string, versions: map<VersionKey, VersionCandidate>) returns (r: PathResult)
    requires versions != map[] && PathFits(s, path, versions)
    ensures Settled(s, path, r)
  {
    var keep := PickVersion(versions);
    ghost var top :| Scores(versions[keep], top) && forall w :: w in versions ==> Unbeating(versions[w], top);
    UnbeatenIsChosen(s, path, versions, keep, top);
    ChoiceSettles(s, path, versions, keep);
    if |versions| <= 1 {
      OnlyVersion(versions, keep);
      r := PathResult(keep.md5, KeptUids(versions[keep]), set u | u in versions[keep].duplicates);
    } else {
      r := PathResult(keep.md5, KeptUids(versions[keep]), Dropped(versions, keep));
    }
  }

  lemma OnlyVersion(versions: map<VersionKey, VersionCandidate>, keep: VersionKey)
    requires keep in versions && |versions| <= 1
    ensures Dropped(versions, keep) == set u | u in versions[keep].duplicates
  {
    assert versions.Keys == {keep} by {
      assert {keep} <= versions.Keys && |versions.Keys| == 1;
      assert |versions.Keys - {keep}| == 0;
    }
    assert forall v :: v in versions <==> v == keep;
  }

  lemma NoCandidate(s: Messages, path: string, versions: map<VersionKey, VersionCandidate>, v: VersionKey)
    requires PathFits(s, path, versions) && v !in versions
    ensures CandidateFits(s, path, v, VersionCandidate(v, map[], []))
  {
    assert forall u: nat :: !InVersion(s, u, path, v);
  }

  /** The new message becomes the one to keep for its block, or one of the duplicates. */
  method AddToCandidate(ghost s: Messages, c: VersionCandidate, uid: nat, m: Metadata) returns (r: VersionCandidate)
    requires uid !in s && CandidateFits(s, m.localPath, KeyOf(m), c)
    ensures CandidateFits(s[uid := m], m.localPath, KeyOf(m), r)
  {
    if m.blockSeq !in c.best {
      NewBlock(s, uid, m, c);
      r := c.(best := c.best[m.blockSeq := uid]);
    } else {
      SameBlock(s, uid, m, c);
      if uid > c.best[m.blockSeq] {
        r := c.(best := c.best[m.blockSeq := uid], duplicates := c.duplicates + [c.best[m.blockSeq]]);
      } else {
        r := c.(duplicates := c.duplicates + [uid]);
      }
    }
  }

  ghost predicate DeletedOutside(s: Messages, u: nat, todo: set<string>) {
    u in s && s[u].localPath !in todo && !Kept(s, u)
  }

  /** What has been decided once all paths but `todo` are settled. */
  ghost predicate Reported(s: Messages, results: map<string, PathResult>, deleted: set<nat>, todo: set<string>) {
    && (forall u: nat :: u in deleted <==> DeletedOutside(s, u, todo))
    && (forall path :: path in results ==> Settled(s, path, results[path]) && results[path].deleted != {})
    && (forall u: nat :: u in deleted ==> s[u].localPath in results)
  }

  lemma ReportGrows(s: Messages, results: map<string, PathResult>, deleted: set<nat>, todo: set<string>,
                    path: string, r: PathResult)
    requires Reported(s, results, deleted, todo) && path in todo && Settled(s, path, r)
    ensures Reported(s, if r.deleted != {} then results[path := r] else results, deleted + r.deleted, todo - {path})
  {
    forall u: nat
      ensures u in deleted + r.deleted <==> DeletedOutside(s, u, todo - {path})
    {
      assert DeletedOutside(s, u, todo) <==> u in deleted;
    }
  }

  /** One run of deduplication: the tables it fills, and the messages they stand for. */
  class Deduplication {
    const prefix: string
    var groups: Groups
    ghost var admitted: Messages

    ghost predicate Valid()
      reads this
    {
      && GroupsFit(admitted, groups)
      && forall u: nat :: u in admitted ==> Admits(admitted[u], prefix)
    }

    constructor (prefix: string)
      ensures Valid() && this.prefix == prefix && admitted == map[]
    {
      this.prefix := prefix;
      groups := map[];
      admitted := map[];
    }

    method AddRemoteBlockSnapshot(uid: nat, metadata: Metadata)
      requires Valid() && uid !in admitted
      modifies this
      ensures Valid()
      ensures admitted == if Admits(metadata, prefix) then old(admitted)[uid := metadata] else old(admitted)
    {
      if !IsCacheable(metadata) || !PathMatchesPrefix(metadata.localPath, prefix) {
        return;
      }
      var path, key, n := metadata.localPath, KeyOf(metadata), metadata.blockSeq;
      VersionsFit(admitted, groups, path);
      var versions := VersionsOf(groups, path);
      if key !in versions { NoCandidate(admitted, path, versions, key); }
      var candidate := if key in versions then versions[key] else VersionCandidate(key, map[], []);
      candidate := AddToCandidate(admitted, candidate, uid, metadata);
      GroupsGrow(admitted, uid, metadata, groups, candidate);
      groups := WithCandidate(groups, path, key, candidate);
      admitted := admitted[uid := metadata];
    }

    /** What is deleted are the messages that are not to be kept, and nothing else; a path is
        reported when it loses a message. */
    method Decide() returns (results: map<string, PathResult>, deleted: set<nat>)
      requires Valid()
      ensures forall u: nat :: u in deleted <==> u in admitted && !Kept(admitted, u)
      ensures forall path :: path in results ==> Settled(admitted, path, results[path]) && results[path].deleted != {}
      ensures forall u: nat :: u in deleted ==> admitted[u].localPath in results
    {
      results, deleted := map[], {};
      var todo := groups.Keys;
      while todo != {}
        invariant todo <= groups.Keys
        invariant Reported(admitted, results, deleted, todo)
      {
        var path := Pick(todo);
        var result := DecidePath(admitted, path, groups[path]);
        ReportGrows(admitted, results, deleted, todo, path, result);
        todo := todo - {path};
        if result.deleted != {} {
          results := results[path := result];
        }
        deleted := deleted + result.deleted;
      }
    }
  }
}

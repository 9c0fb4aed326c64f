module Dedup {
  // Deduplication of a mailbox: which messages of a path are kept, in terms of the messages alone.
  // Of every path one version is kept, with one message for each of its block numbers, and every other
  // message of the path is deleted.

  import opened Basics
  import opened Records

  /** What distinguishes two uploads of one path. */
  datatype VersionKey = VersionKey(md5: string, size: nat, count: int)

  function KeyOf(m: Metadata): VersionKey { VersionKey(m.fileMd5, m.fileSize, m.blockCount) }

  /** The messages at hand, each under its uid. */
  type Messages = map<nat, Metadata>

  // ---------------------------------------------------------------------------------------
  // The reference: which messages are to be kept, in terms of the messages alone

  predicate InVersion(s: Messages, u: nat, path: string, v: VersionKey) {
    u in s && s[u].localPath == path && KeyOf(s[u]) == v
  }

  predicate OnPath(s: Messages, u: nat, path: string) { u in s && s[u].localPath == path }

  predicate IsBlock(s: Messages, u: nat, path: string, v: VersionKey, n: int) {
    InVersion(s, u, path, v) && s[u].blockSeq == n
  }

  /** The message with the largest uid among those that carry the same block. */
  ghost predicate IsBest(s: Messages, u: nat, path: string, v: VersionKey, n: int) {
    IsBlock(s, u, path, v, n) && forall w: nat :: IsBlock(s, w, path, v, n) ==> w <= u
  }

  ghost predicate Present(s: Messages, path: string, v: VersionKey) {
    exists u: nat :: InVersion(s, u, path, v)
  }

  ghost predicate HasBlock(s: Messages, path: string, v: VersionKey, n: int) {
    exists u: nat :: u != 0 && IsBlock(s, u, path, v, n)
  }

  /** Every block 1..count is there. */
  ghost predicate Full(s: Messages, path: string, v: VersionKey) {
    v.count > 0 && forall n :: 1 <= n <= v.count ==> HasBlock(s, path, v, n)
  }

  /** The completeness test of the program: all blocks, and no block numbered beyond the count. */
  ghost predicate Exact(s: Messages, path: string, v: VersionKey) {
    Full(s, path, v) && forall u: nat :: InVersion(s, u, path, v) ==> 1 <= s[u].blockSeq <= v.count
  }

  /** `u` is the most recent message of `v`. */
  ghost predicate Newest(s: Messages, u: nat, path: string, v: VersionKey) {
    InVersion(s, u, path, v) && forall w: nat :: InVersion(s, w, path, v) ==> w <= u
  }

  /** Some message of `v` is at least as recent as every message of `w`. */
  ghost predicate NotOlder(s: Messages, path: string, v: VersionKey, w: VersionKey) {
    exists u: nat :: Newest(s, u, path, v) && forall x: nat :: InVersion(s, x, path, w) ==> x <= u
  }

  /** The version that stays: complete if any is, and of those the one with the newest message. */
  ghost predicate Chosen(s: Messages, path: string, v: VersionKey) {
    && Present(s, path, v)
    && forall w :: Present(s, path, w) ==>
         && (Exact(s, path, w) ==> Exact(s, path, v))
         && (Exact(s, path, w) == Exact(s, path, v) ==> NotOlder(s, path, v, w))
  }

  /** A message stays when it is the best one of its block in the chosen version of its path. */
  ghost predicate Kept(s: Messages, u: nat) {
    && u in s
    && Chosen(s, s[u].localPath, KeyOf(s[u]))
    && IsBest(s, u, s[u].localPath, KeyOf(s[u]), s[u].blockSeq)
  }

  ghost function Survivors(s: Messages): Messages {
    map u | u in s && Kept(s, u) :: s[u]
  }

  // ---------------------------------------------------------------------------------------
  // Largest uids

  lemma {:induction false} Largest(a: set<nat>) returns (m: nat)
    requires a != {}
    ensures m in a && forall x :: x in a ==> x <= m
  {
    var any :| any in a;
    if a == {any} {
      m := any;
    } else {
      var rest := Largest(a - {any});
      m := if rest > any then rest else any;
      assert forall x :: x in a ==> x == any || x in a - {any};
    }
  }

  lemma BestExists(s: Messages, path: string, v: VersionKey, n: int, u: nat) returns (best: nat)
    requires IsBlock(s, u, path, v, n)
    ensures IsBest(s, best, path, v, n) && u <= best
  {
    var all := set w | w in s && IsBlock(s, w, path, v, n);
    assert u in all;
    best := Largest(all);
    assert forall w: nat :: IsBlock(s, w, path, v, n) ==> w in all;
  }

  lemma NewestExists(s: Messages, path: string, v: VersionKey) returns (u: nat)
    requires Present(s, path, v)
    ensures Newest(s, u, path, v)
  {
    var all := set w | w in s && InVersion(s, w, path, v);
    var any: nat :| InVersion(s, any, path, v);
    assert any in all;
    u := Largest(all);
    assert forall w: nat :: InVersion(s, w, path, v) ==> w in all;
  }

  // ---------------------------------------------------------------------------------------
  // The choice of a version

  /** There is a version to keep for every path, and only one. */
  lemma ChosenExists(s: Messages, path: string, u: nat) returns (v: VersionKey)
    requires u in s && s[u].localPath == path
    ensures Chosen(s, path, v)
  {
    var exact := set w | w in s && s[w].localPath == path && Exact(s, path, KeyOf(s[w]));
    var pool := if exact != {} then exact else set w | w in s && s[w].localPath == path;
    assert u in (set w | w in s && s[w].localPath == path);
    var top := Largest(pool);
    v := KeyOf(s[top]);
    assert InVersion(s, top, path, v);
    forall w | Present(s, path, w)
      ensures Exact(s, path, w) ==> Exact(s, path, v)
      ensures Exact(s, path, w) == Exact(s, path, v) ==> NotOlder(s, path, v, w)
    {
      var x: nat :| InVersion(s, x, path, w);
      assert Exact(s, path, w) ==> x in exact;
      if Exact(s, path, w) == Exact(s, path, v) {
        assert forall y: nat :: InVersion(s, y, path, w) ==> y in pool;
        assert forall y: nat :: InVersion(s, y, path, v) ==> y in pool;
        assert Newest(s, top, path, v);
      }
    }
  }

  lemma ChosenUnique(s: Messages, path: string, v: VersionKey, w: VersionKey)
    requires Chosen(s, path, v) && Chosen(s, path, w)
    ensures v == w
  {
    assert NotOlder(s, path, v, w) && NotOlder(s, path, w, v);
    var u: nat :| Newest(s, u, path, v) && forall x: nat :: InVersion(s, x, path, w) ==> x <= u;
    var x: nat :| Newest(s, x, path, w) && forall y: nat :: InVersion(s, y, path, v) ==> y <= x;
  }

  // ---------------------------------------------------------------------------------------
  // What survives

  /** Nothing of a path survives outside the chosen version, and in it one message per block. */
  lemma SurvivorsOfPath(s: Messages, path: string, v: VersionKey)
    requires Chosen(s, path, v)
    ensures forall u: nat, w :: InVersion(Survivors(s), u, path, w) ==> w == v && IsBest(s, u, path, v, s[u].blockSeq)
    ensures forall u: nat, n :: IsBest(s, u, path, v, n) ==> IsBlock(Survivors(s), u, path, v, n)
    ensures forall u: nat, x: nat, n :: IsBlock(Survivors(s), u, path, v, n) && IsBlock(Survivors(s), x, path, v, n) ==> u == x
  {
    forall u: nat, w | InVersion(Survivors(s), u, path, w)
      ensures w == v && IsBest(s, u, path, v, s[u].blockSeq)
    {
      ChosenUnique(s, path, v, w);
    }
    forall u: nat, x: nat, n | IsBlock(Survivors(s), u, path, v, n) && IsBlock(Survivors(s), x, path, v, n)
      ensures u == x
    {
      assert IsBest(s, u, path, v, n) && IsBest(s, x, path, v, n);
    }
  }

  lemma ChosenFullSurvives(s: Messages, path: string, v: VersionKey)
    requires Chosen(s, path, v)
    ensures Full(Survivors(s), path, v) <==> Full(s, path, v)
    ensures forall w :: Full(Survivors(s), path, w) ==> w == v
  {
    SurvivorsOfPath(s, path, v);
    forall n
      ensures HasBlock(s, path, v, n) <==> HasBlock(Survivors(s), path, v, n)
    {
      if HasBlock(s, path, v, n) {
        var u: nat :| u != 0 && IsBlock(s, u, path, v, n);
        var best := BestExists(s, path, v, n, u);
        assert IsBlock(Survivors(s), best, path, v, n);
      }
      if HasBlock(Survivors(s), path, v, n) {
        var u: nat :| u != 0 && IsBlock(Survivors(s), u, path, v, n);
        assert IsBlock(s, u, path, v, n);
      }
    }
    forall w | Full(Survivors(s), path, w)
      ensures w == v
    {
      assert HasBlock(Survivors(s), path, w, 1);
    }
  }

  /** The version of a path that holds its most recent message. */
  ghost predicate Latest(s: Messages, path: string, v: VersionKey) {
    Present(s, path, v) && forall w :: Present(s, path, w) ==> NotOlder(s, path, v, w)
  }

  /** A whole copy of a path survives exactly when some version has just its blocks 1..count, or the
      most recent message belongs to a version with all its blocks. A full version that also has a
      stray block number is not protected otherwise. */
  lemma FullCopySurvivesIff(s: Messages, path: string, u: nat)
    requires u in s && s[u].localPath == path
    ensures (exists v :: Full(Survivors(s), path, v)) <==>
            ((exists v :: Exact(s, path, v)) || (exists v :: Latest(s, path, v) && Full(s, path, v)))
  {
    var v := ChosenExists(s, path, u);
    ChosenFullSurvives(s, path, v);
    if w :| Exact(s, path, w) {
      assert HasBlock(s, path, w, 1);
      var x: nat :| x != 0 && IsBlock(s, x, path, w, 1);
      assert InVersion(s, x, path, w) && Present(s, path, w);
      assert Exact(s, path, v);
    } else {
      assert forall w :: Present(s, path, w) ==> NotOlder(s, path, v, w);
      assert Latest(s, path, v);
      forall w | Latest(s, path, w)
        ensures w == v
      {
        assert Chosen(s, path, w);
        ChosenUnique(s, path, v, w);
      }
    }
  }

  /** With a complete version present, what survives of the path is exactly one message for each
      block of one complete version, and no complete version has a more recent message. */
  lemma CompleteVersionSurvives(s: Messages, path: string, w: VersionKey) returns (v: VersionKey)
    requires Exact(s, path, w)
    ensures Exact(s, path, v) && NotOlder(s, path, v, w)
    ensures forall n :: 1 <= n <= v.count ==> HasBlock(Survivors(s), path, v, n)
    ensures forall u: nat :: OnPath(Survivors(s), u, path) ==> KeyOf(s[u]) == v && 1 <= s[u].blockSeq <= v.count
    ensures forall u: nat, x: nat :: OnPath(Survivors(s), u, path) && OnPath(Survivors(s), x, path) ==>
              (s[u].blockSeq == s[x].blockSeq ==> u == x)
  {
    assert HasBlock(s, path, w, 1);
    var x: nat :| x != 0 && IsBlock(s, x, path, w, 1);
    v := ChosenExists(s, path, x);
    assert InVersion(s, x, path, w) && Present(s, path, w);
    ChosenFullSurvives(s, path, v);
    SurvivorsOfPath(s, path, v);
    forall u: nat | OnPath(Survivors(s), u, path)
      ensures KeyOf(s[u]) == v && 1 <= s[u].blockSeq <= v.count && IsBlock(Survivors(s), u, path, v, s[u].blockSeq)
    {
      assert InVersion(Survivors(s), u, path, KeyOf(s[u])) && InVersion(s, u, path, v);
    }
  }

  /** A second run on the survivors deletes nothing. */
  lemma SurvivorsStable(s: Messages)
    ensures Survivors(Survivors(s)) == Survivors(s)
  {
    var r := Survivors(s);
    forall u | u in r
      ensures Kept(r, u)
    {
      var path, v := s[u].localPath, KeyOf(s[u]);
      SurvivorsOfPath(s, path, v);
      assert InVersion(r, u, path, v) && IsBlock(r, u, path, v, s[u].blockSeq);
      var top := NewestExists(r, path, v);
      forall w | Present(r, path, w)
        ensures w == v && NotOlder(r, path, v, w)
      {
        var x: nat :| InVersion(r, x, path, w);
        assert Newest(r, top, path, v);
      }
      assert Chosen(r, path, v);
    }
  }

  // ---------------------------------------------------------------------------------------
  // The failing family, by example

  /** A path with a full version of one block and a stray block 2, and a newer version of which only
      block 1 of 2 has arrived. */
  function StrayExample(): Messages {
    var full := Metadata("f/plain/1-1", "aa", "b1", 10, 10, "", "", "f", "box", 1, 1, false);
    map[1 := full,
        2 := full.(subject := "f/plain/2-1", blockSeq := 2),
        3 := full.(subject := "f/plain/1-2", fileMd5 := "bb", blockCount := 2)]
  }

  lemma FullCopyCanBeLost()
    ensures var s := StrayExample();
            && Full(s, "f", VersionKey("aa", 10, 1))
            && !exists v :: Full(Survivors(s), "f", v)
  {
    var s, a, b := StrayExample(), VersionKey("aa", 10, 1), VersionKey("bb", 10, 2);
    assert IsBlock(s, 1, "f", a, 1) && IsBlock(s, 2, "f", a, 2) && IsBlock(s, 3, "f", b, 1);
    assert HasBlock(s, "f", a, 1);
    assert "aa"[0] != "bb"[0];
    assert !HasBlock(s, "f", b, 2);
    forall v
      ensures !Exact(s, "f", v) && (Latest(s, "f", v) ==> !Full(s, "f", v))
    {
      if v == a {
        assert InVersion(s, 2, "f", a) && InVersion(s, 3, "f", b);
        assert Present(s, "f", b);
      } else if v != b {
        assert !HasBlock(s, "f", v, 1);
      }
    }
    FullCopySurvivesIff(s, "f", 1);
  }
}

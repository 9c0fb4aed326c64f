/** What deduplication does to the mail server and to the index, be the index right or stale. */
module MailboxSafety {
  import opened Basics
  import opened Records
  import opened Paths
  import opened Repository
  import opened Dedup
  import opened DedupGroups
  import opened BlockMetadata
  import opened Mailbox

  /** Every message that the index knows is still on the server and says what the index says. */
  ghost predicate Agrees(files: seq<FileRecord>, server: Readings, mailbox: string) {
    var cached, s := CachedRows(files, mailbox), Usable(server, mailbox);
    forall u: nat :: u in cached ==> u in s && Alike(cached[u], s[u])
  }

  /** The messages of the server that a run with this prefix is about. */
  function OnServer(server: Readings, mailbox: string, prefix: string): Messages {
    Considered(map[], Usable(server, mailbox), prefix)
  }

  function Seen(files: seq<FileRecord>, server: Readings, mailbox: string, prefix: string): Messages {
    Considered(CachedRows(files, mailbox), Usable(server, mailbox), prefix)
  }

  /** A run is about the usable messages whose paths the prefix matches. */
  lemma RunIsAbout(server: Readings, mailbox: string, prefix: string, u: nat)
    ensures var s, all := OnServer(server, mailbox, prefix), Usable(server, mailbox);
            && (u in s <==> u in all && PathMatchesPrefix(all[u].localPath, prefix))
            && (u in s ==> s[u] == all[u])
  {
    UsableCacheable(server, mailbox);
    hide PathMatchesPrefix, Usable, IsCacheable;
  }

  lemma RowHasSubject(file: FileRecord, block: BlockRecord, mailbox: string)
    ensures RowMetadata(file, block, mailbox).subject != []
  {
    hide LastPathSegment, Mode;
  }

  lemma {:induction false} FileRowsHaveSubjects(c: Messages, file: FileRecord, mailbox: string, n: nat)
    requires n <= |file.blocks| && forall u: nat :: u in c ==> c[u].subject != []
    ensures forall u: nat :: u in FileRows(c, file, mailbox, n) ==> FileRows(c, file, mailbox, n)[u].subject != []
  {
    hide RowMetadata;
    if n > 0 {
      FileRowsHaveSubjects(c, file, mailbox, n - 1);
      RowHasSubject(file, file.blocks[n - 1], mailbox);
    }
  }

  lemma {:induction false} RowsHaveSubjects(files: seq<FileRecord>, mailbox: string)
    ensures forall u: nat :: u in CachedRows(files, mailbox) ==> CachedRows(files, mailbox)[u].subject != []
  {
    if files != [] {
      RowsHaveSubjects(files[..|files| - 1], mailbox);
      var last := files[|files| - 1];
      FileRowsHaveSubjects(CachedRows(files[..|files| - 1], mailbox), last, mailbox, |last.blocks|);
    }
  }

  lemma UsableCacheable(server: Readings, mailbox: string)
    ensures forall u: nat :: u in Usable(server, mailbox) ==> IsCacheable(Usable(server, mailbox)[u])
  {
  }

  lemma AlikeAdmits(a: Metadata, b: Metadata, prefix: string)
    requires Alike(a, b) && a.subject != [] && b.subject != []
    ensures Admits(a, prefix) <==> Admits(b, prefix)
  {
  }

  /** With an index that agrees, a run sees the messages of the server as they are. */
  lemma SeenIsOnServer(files: seq<FileRecord>, server: Readings, mailbox: string, prefix: string)
    requires Agrees(files, server, mailbox)
    ensures AllAlike(Seen(files, server, mailbox, prefix), OnServer(server, mailbox, prefix))
  {
    RowsHaveSubjects(files, mailbox);
    var cached, s := CachedRows(files, mailbox), Usable(server, mailbox);
    var seen, there := Seen(files, server, mailbox, prefix), OnServer(server, mailbox, prefix);
    forall u: nat
      ensures u in seen <==> u in there
      ensures u in seen ==> Alike(seen[u], there[u])
    {
      if u in cached { AlikeAdmits(cached[u], s[u], prefix); }
    }
    assert seen.Keys == there.Keys;
  }

  lemma SameDoomed(s: Messages, r: Messages)
    requires AllAlike(s, r)
    ensures Doomed(s) == Doomed(r)
  {
    forall u: nat
      ensures u in Doomed(s) <==> u in Doomed(r)
    {
      assert u in s.Keys <==> u in r.Keys;
      if u in s {
        AlikeOnAll(s, r, s[u].localPath);
        AlikeSwap(s, r, s[u].localPath);
        if Kept(s, u) { AlikeKept(s, r, s[u].localPath, u); }
        if Kept(r, u) { AlikeKept(r, s, s[u].localPath, u); }
      }
    }
  }

  /** After a run the server holds, of the messages it was about, exactly the survivors. */
  lemma ServerKeepsSurvivors(files: seq<FileRecord>, server: Readings, mailbox: string, prefix: string)
    requires Agrees(files, server, mailbox)
    ensures OnServer(server - Doomed(Seen(files, server, mailbox, prefix)), mailbox, prefix)
            == Survivors(OnServer(server, mailbox, prefix))
  {
    hide Agrees, AllAlike, Considered, CachedRows, Survivors, Doomed;
    var s := OnServer(server, mailbox, prefix);
    SeenIsOnServer(files, server, mailbox, prefix);
    SameDoomed(Seen(files, server, mailbox, prefix), s);
    DeletionsOnServer(server, Doomed(s), mailbox, prefix);
    SurvivorsAreNotDoomed(s);
  }

  lemma DeletionsOnServer(server: Readings, gone: set<nat>, mailbox: string, prefix: string)
    ensures OnServer(server - gone, mailbox, prefix) == OnServer(server, mailbox, prefix) - gone
  {
    hide Admits;
    var a, b := OnServer(server - gone, mailbox, prefix), OnServer(server, mailbox, prefix) - gone;
    assert Usable(server - gone, mailbox) == Usable(server, mailbox) - gone;
    forall u: nat
      ensures u in a <==> u in b
      ensures u in a ==> a[u] == b[u]
    {
    }
  }

  lemma SurvivorsAreNotDoomed(s: Messages)
    ensures Survivors(s) == s - Doomed(s)
  {
    hide Kept;
  }

  // ---------------------------------------------------------------------------------------
  // One path at a time

  /** The mailbox after a run, as far as a run with this prefix is about it. */
  ghost function Left(files: seq<FileRecord>, server: Readings, mailbox: string, prefix: string): Messages {
    OnServer(server - Doomed(Seen(files, server, mailbox, prefix)), mailbox, prefix)
  }

  lemma LeftIs(files: seq<FileRecord>, server: Readings, mailbox: string, prefix: string)
    ensures Left(files, server, mailbox, prefix) == OnServer(server, mailbox, prefix) - Doomed(Seen(files, server, mailbox, prefix))
  {
    hide OnServer, Seen, Doomed;
    DeletionsOnServer(server, Doomed(Seen(files, server, mailbox, prefix)), mailbox, prefix);
  }

  /** What the index knows of the path, by its own word or by that of the message, is still on the
      server and says what the index says. Rows of other paths may be wrong. */
  ghost predicate AgreesOn(files: seq<FileRecord>, server: Readings, mailbox: string, path: string) {
    var cached, s := CachedRows(files, mailbox), Usable(server, mailbox);
    forall u: nat :: u in cached && (cached[u].localPath == path || OnPath(s, u, path)) ==> u in s && Alike(cached[u], s[u])
  }

  lemma SeenOnPath(files: seq<FileRecord>, server: Readings, mailbox: string, prefix: string, path: string)
    requires AgreesOn(files, server, mailbox, path)
    ensures AlikeOn(Seen(files, server, mailbox, prefix), OnServer(server, mailbox, prefix), path)
  {
    RowsHaveSubjects(files, mailbox);
    UsableCacheable(server, mailbox);
    var cached, s := CachedRows(files, mailbox), Usable(server, mailbox);
    hide CachedRows, Usable;
    var seen, there := Seen(files, server, mailbox, prefix), OnServer(server, mailbox, prefix);
    forall u: nat
      ensures OnPath(seen, u, path) <==> OnPath(there, u, path)
      ensures OnPath(seen, u, path) ==> Alike(seen[u], there[u])
    {
      if u in cached && (cached[u].localPath == path || OnPath(s, u, path)) { AlikeAdmits(cached[u], s[u], prefix); }
    }
  }

  /** Of the path, what is left is what survives of it. */
  lemma PathKeepsSurvivors(files: seq<FileRecord>, server: Readings, mailbox: string, prefix: string, path: string)
    requires AgreesOn(files, server, mailbox, path)
    ensures AlikeOn(Left(files, server, mailbox, prefix), Survivors(OnServer(server, mailbox, prefix)), path)
  {
    hide AgreesOn, Kept, OnServer, Seen;
    var s, seen := OnServer(server, mailbox, prefix), Seen(files, server, mailbox, prefix);
    var left := Left(files, server, mailbox, prefix);
    LeftIs(files, server, mailbox, prefix);
    SeenOnPath(files, server, mailbox, prefix, path);
    AlikeSwap(seen, s, path);
    forall u: nat
      ensures OnPath(left, u, path) <==> OnPath(Survivors(s), u, path)
    {
      if OnPath(s, u, path) {
        if Kept(s, u) { AlikeKept(s, seen, path, u); }
        if Kept(seen, u) { AlikeKept(seen, s, path, u); }
      }
    }
  }

  /** With an index that is right about the path, a full copy of it is left on the server exactly when
      some version there has just its blocks 1..count, or the most recent message belongs to a
      version with all its blocks. */
  lemma FullCopyStaysIff(files: seq<FileRecord>, server: Readings, mailbox: string, prefix: string, path: string, u: nat)
    requires AgreesOn(files, server, mailbox, path) && OnPath(OnServer(server, mailbox, prefix), u, path)
    ensures var s := OnServer(server, mailbox, prefix);
            (exists v :: Full(Left(files, server, mailbox, prefix), path, v)) <==>
            ((exists v :: Exact(s, path, v)) || (exists v :: Latest(s, path, v) && Full(s, path, v)))
  {
    hide AgreesOn, OnServer, Left, Survivors, Exact, Latest, AlikeOn;
    var s, left := OnServer(server, mailbox, prefix), Left(files, server, mailbox, prefix);
    PathKeepsSurvivors(files, server, mailbox, prefix, path);
    FullCopySurvivesIff(s, path, u);
    AlikeSwap(left, Survivors(s), path);
    forall v
      ensures Full(left, path, v) <==> Full(Survivors(s), path, v)
    {
      if Full(left, path, v) { AlikeFull(left, Survivors(s), path, v); }
      if Full(Survivors(s), path, v) { AlikeFull(Survivors(s), left, path, v); }
    }
  }

  lemma AlikeFull(s: Messages, r: Messages, path: string, v: VersionKey)
    requires AlikeOn(s, r, path) && Full(s, path, v)
    ensures Full(r, path, v)
  {
    AlikeVersions(s, r, path, v);
    hide AlikeOn;
    forall n | 1 <= n <= v.count
      ensures HasBlock(r, path, v, n)
    {
      assert HasBlock(s, path, v, n);
      var u: nat :| u != 0 && IsBlock(s, u, path, v, n);
      assert IsBlock(r, u, path, v, n);
    }
  }

  /** With an index that is right about the path, a complete copy of it still has one after the run:
      one message for each block, all of one version, and none older than the copy that was there. */
  lemma CompleteCopyStaysOnServer(files: seq<FileRecord>, server: Readings, mailbox: string, prefix: string,
                                  path: string, w: VersionKey) returns (v: VersionKey)
    requires AgreesOn(files, server, mailbox, path) && Exact(OnServer(server, mailbox, prefix), path, w)
    ensures NotOlder(OnServer(server, mailbox, prefix), path, v, w)
    ensures Exact(Left(files, server, mailbox, prefix), path, v)
    ensures OneVersionOnPath(Left(files, server, mailbox, prefix), path, v)
  {
    hide AgreesOn, OnServer, Left, Kept, NotOlder;
    var s, left := OnServer(server, mailbox, prefix), Left(files, server, mailbox, prefix);
    v := CompleteVersionSurvives(s, path, w);
    var r := Survivors(s);
    assert forall u: nat :: OnPath(r, u, path) ==> r[u] == s[u];
    SurvivorsExact(s, path, v);
    PathKeepsSurvivors(files, server, mailbox, prefix, path);
    AlikeSwap(left, r, path);
    AlikeExact(r, left, path, v);
    assert forall u: nat :: OnPath(left, u, path) ==> OnPath(r, u, path) && Alike(r[u], left[u]);
  }

  /** The messages of the path belong to one version, one to a block. */
  ghost predicate OneVersionOnPath(s: Messages, path: string, v: VersionKey) {
    && (forall u: nat :: OnPath(s, u, path) ==> KeyOf(s[u]) == v)
    && (forall u: nat, w: nat :: OnPath(s, u, path) && OnPath(s, w, path) ==> (s[u].blockSeq == s[w].blockSeq ==> u == w))
  }

  lemma SurvivorsExact(s: Messages, path: string, v: VersionKey)
    requires Exact(s, path, v) && forall n :: 1 <= n <= v.count ==> HasBlock(Survivors(s), path, v, n)
    ensures Exact(Survivors(s), path, v)
  {
    forall u: nat | InVersion(Survivors(s), u, path, v)
      ensures 1 <= Survivors(s)[u].blockSeq <= v.count
    {
      assert InVersion(s, u, path, v);
    }
  }

  /** Messages the run is not about stay: unreadable ones, and those outside the prefix. */
  lemma OthersStayOnServer(files: seq<FileRecord>, server: Readings, mailbox: string, prefix: string, u: nat)
    requires Agrees(files, server, mailbox) && u in server && u !in OnServer(server, mailbox, prefix)
    ensures u in server - Doomed(Seen(files, server, mailbox, prefix))
  {
    SeenIsOnServer(files, server, mailbox, prefix);
    SameDoomed(Seen(files, server, mailbox, prefix), OnServer(server, mailbox, prefix));
  }

  /** A second run, with whatever index agrees with the server by then, deletes nothing. */
  lemma SecondRunDeletesNothing(files: seq<FileRecord>, more: seq<FileRecord>, server: Readings, mailbox: string, prefix: string)
    requires Agrees(files, server, mailbox)
    requires Agrees(more, server - Doomed(Seen(files, server, mailbox, prefix)), mailbox)
    ensures Doomed(Seen(more, server - Doomed(Seen(files, server, mailbox, prefix)), mailbox, prefix)) == {}
  {
    var s, next := OnServer(server, mailbox, prefix), server - Doomed(Seen(files, server, mailbox, prefix));
    ServerKeepsSurvivors(files, server, mailbox, prefix);
    SeenIsOnServer(more, next, mailbox, prefix);
    SameDoomed(Seen(more, next, mailbox, prefix), OnServer(next, mailbox, prefix));
    SurvivorsStable(s);
    assert forall u: nat :: u in Survivors(s) ==> u in Survivors(Survivors(s));
  }

  // ---------------------------------------------------------------------------------------
  // The index afterwards

  /** Whatever message names the path names the mailbox as its folder and has a hash. */
  ghost predicate FiledHere(s: Messages, mailbox: string, path: string) {
    forall u: nat :: OnPath(s, u, path) ==> s[u].mailFolder == mailbox && s[u].blockMd5 != []
  }

  /** Inside the prefix, a run is about every message of the path. */
  lemma PathOnServer(server: Readings, mailbox: string, prefix: string, path: string)
    requires PathMatchesPrefix(path, prefix)
    ensures var s, all := OnServer(server, mailbox, prefix), Usable(server, mailbox);
            forall u: nat :: (OnPath(s, u, path) <==> OnPath(all, u, path)) && (OnPath(s, u, path) ==> s[u] == all[u])
  {
    UsableCacheable(server, mailbox);
    hide PathMatchesPrefix, Usable, IsCacheable;
  }

  /** Each message of the path is in the index, in its place and with its own uid, hash and size. */
  ghost predicate ListsMessages(index: Index, s: Messages, mailbox: string, path: string) {
    var name := FileName(mailbox, path);
    name in index && forall u: nat :: OnPath(s, u, path) ==>
      s[u].blockSeq in index[name].blocks && index[name].blocks[s[u].blockSeq] == RowOf(u, s[u])
  }

  /** When a path has one complete version with one message to a block, the rebuilt index lists it
      with all its blocks in order, each with the uid and hash of its message. */
  lemma RebuiltIndexIsComplete(before: Index, after: Index, server: Readings, mailbox: string, order: seq<nat>,
                               path: string, v: VersionKey)
    requires Rebuilt(before, after, server, mailbox, order) && FiledHere(Usable(server, mailbox), mailbox, path)
    requires Exact(Usable(server, mailbox), path, v) && OneVersionOnPath(Usable(server, mailbox), path, v)
    ensures var name := FileName(mailbox, path);
            name in after && HasCompleteBlocks(RecordOf(name, after[name])) && after[name].md5 == v.md5
    ensures ListsMessages(after, Usable(server, mailbox), mailbox, path)
  {
    hide Usable, EntryHolds, Exact, CacheAll, HasCompleteBlocks, RecordOf, FullEntry, OneVersion, Cleared, OneVersionOnPath;
    var s, name := Usable(server, mailbox), FileName(mailbox, path);
    NamedByPath(s, mailbox, path, v);
    NotCleared(before, mailbox, path);
    CachedExactly(Cleared(before, mailbox), s, order, name, v);
    forall u: nat
      ensures Stores(s, order, u, name) <==> OnPath(s, u, path)
    {
      UsableIsThere(server, mailbox, u);
    }
    EntryIsFull(after, s, order, name, path, v);
    FullEntryIsComplete(name, after[name], v);
    EntryLists(after, s, order, mailbox, path, v);
  }

  lemma UsableIsThere(server: Readings, mailbox: string, u: nat)
    ensures u in Usable(server, mailbox) ==> u in server
  {
  }

  lemma NotCleared(index: Index, mailbox: string, path: string)
    ensures FileName(mailbox, path) !in Cleared(index, mailbox)
  {
  }

  lemma NamedByPath(s: Messages, mailbox: string, path: string, v: VersionKey)
    requires OneVersionOnPath(s, path, v)
    ensures OneVersion(s, FileName(mailbox, path), v)
  {
    assert forall u: nat :: u in s && NameOf(s[u]) == FileName(mailbox, path) ==> OnPath(s, u, path);
  }

  lemma EntryLists(index: Index, s: Messages, order: seq<nat>, mailbox: string, path: string, v: VersionKey)
    requires EntryHolds(index, s, order, FileName(mailbox, path), v) && FileName(mailbox, path) in index
    requires forall u: nat :: Stores(s, order, u, FileName(mailbox, path)) <==> OnPath(s, u, path)
    ensures ListsMessages(index, s, mailbox, path)
  {
    assert forall u: nat :: OnPath(s, u, path) ==> Stores(s, order, u, FileName(mailbox, path));
  }

  /** After a run that deleted something, each path inside its prefix that had a complete copy on the
      server, and that the index was right about, is in the rebuilt index with every block of one
      complete version. */
  lemma DeduplicatedMailboxIsIndexed(files: seq<FileRecord>, server: Readings, before: Index, after: Index, mailbox: string,
                                     prefix: string, order: seq<nat>, path: string, w: VersionKey) returns (v: VersionKey)
    requires AgreesOn(files, server, mailbox, path) && PathMatchesPrefix(path, prefix)
    requires FiledHere(Usable(server, mailbox), mailbox, path) && Exact(Usable(server, mailbox), path, w)
    requires Rebuilt(before, after, server - Doomed(Seen(files, server, mailbox, prefix)), mailbox, order)
    ensures NotOlder(Usable(server, mailbox), path, v, w)
    ensures var name := FileName(mailbox, path);
            name in after && HasCompleteBlocks(RecordOf(name, after[name])) && after[name].md5 == v.md5
  {
    hide AgreesOn, Exact, Rebuilt, HasCompleteBlocks, RecordOf, Seen, OnServer, ListsMessages, NotOlder, Doomed, Usable,
      PathMatchesPrefix, OneVersionOnPath;
    var gone := Doomed(Seen(files, server, mailbox, prefix));
    var all, s := Usable(server, mailbox), OnServer(server, mailbox, prefix);
    var left, t := Left(files, server, mailbox, prefix), Usable(server - gone, mailbox);
    PathOnServer(server, mailbox, prefix, path);
    PathOnServer(server - gone, mailbox, prefix, path);
    SameOnPath(all, s, path);
    AlikeExact(all, s, path, w);
    v := CompleteCopyStaysOnServer(files, server, mailbox, prefix, path, w);
    SameOnPath(s, all, path);
    AlikeNotOlder(s, all, path, v, w);
    SameOnPath(left, t, path);
    AlikeExact(left, t, path, v);
    OneVersionAlike(left, t, path, v);
    FiledAfter(server, gone, mailbox, path);
    RebuiltIndexIsComplete(before, after, server - gone, mailbox, order, path, v);
  }

  lemma SameOnPath(s: Messages, r: Messages, path: string)
    requires forall u: nat :: (OnPath(s, u, path) <==> OnPath(r, u, path)) && (OnPath(s, u, path) ==> s[u] == r[u])
    ensures AlikeOn(s, r, path)
  {
  }

  lemma OneVersionAlike(s: Messages, r: Messages, path: string, v: VersionKey)
    requires AlikeOn(s, r, path) && OneVersionOnPath(s, path, v)
    ensures OneVersionOnPath(r, path, v)
  {
    assert forall u: nat :: OnPath(r, u, path) ==> OnPath(s, u, path) && Alike(s[u], r[u]);
  }

  lemma FiledAfter(server: Readings, gone: set<nat>, mailbox: string, path: string)
    requires FiledHere(Usable(server, mailbox), mailbox, path)
    ensures FiledHere(Usable(server - gone, mailbox), mailbox, path)
  {
    hide Filled, IsCacheable;
    var t := Usable(server - gone, mailbox);
    forall u: nat | OnPath(t, u, path)
      ensures OnPath(Usable(server, mailbox), u, path) && t[u] == Usable(server, mailbox)[u]
    {
    }
  }

  ghost predicate FullEntry(e: Entry, v: VersionKey) {
    && e.blockCount == v.count > 0 && e.md5 == v.md5
    && (forall n :: n in e.blocks <==> 1 <= n <= v.count)
    && (forall n :: n in e.blocks ==> e.blocks[n].uid != 0 && e.blocks[n].md5 != [])
  }

  lemma EntryIsFull(index: Index, s: Messages, order: seq<nat>, name: FileName, path: string, v: VersionKey)
    requires EntryHolds(index, s, order, name, v) && Exact(s, path, v)
    requires forall u: nat :: Stores(s, order, u, name) <==> OnPath(s, u, path)
    requires forall u: nat :: OnPath(s, u, path) ==> KeyOf(s[u]) == v && s[u].blockMd5 != []
    requires forall u: nat, w: nat :: OnPath(s, u, path) && OnPath(s, w, path) ==> (s[u].blockSeq == s[w].blockSeq ==> u == w)
    ensures name in index && FullEntry(index[name], v)
  {
    assert HasBlock(s, path, v, 1);
    var first: nat :| first != 0 && IsBlock(s, first, path, v, 1);
    assert Stores(s, order, first, name);
    var e := index[name];
    forall n | 1 <= n <= v.count
      ensures n in e.blocks && e.blocks[n].uid != 0
    {
      assert HasBlock(s, path, v, n);
      var u: nat :| u != 0 && IsBlock(s, u, path, v, n);
      assert Stores(s, order, u, name);
    }
    forall n | n in e.blocks
      ensures 1 <= n <= v.count && e.blocks[n].md5 != []
    {
      var u: nat :| Stores(s, order, u, name) && s[u].blockSeq == n;
      assert InVersion(s, u, path, v);
    }
  }

  lemma FullEntryIsComplete(name: FileName, e: Entry, v: VersionKey)
    requires FullEntry(e, v)
    ensures HasCompleteBlocks(RecordOf(name, e))
  {
    hide RecordOf, SortBlocks;
    RecordOfRange(name, e);
    NameOfRecord(name, e);
    SortKeeps(RecordOf(name, e).blocks);
  }

  lemma NameOfRecord(name: FileName, e: Entry)
    ensures RecordOf(name, e).blockCount == e.blockCount
  {
  }

  // ---------------------------------------------------------------------------------------
  // Any index

  /** The run does not delete the message: it did not look at it, or the version that it chose, for
      the path it believed the message to have, keeps it. */
  ghost predicate Spared(seen: Messages, u: nat) {
    u in seen ==>
      Chosen(seen, seen[u].localPath, KeyOf(seen[u])) && IsBest(seen, u, seen[u].localPath, KeyOf(seen[u]), seen[u].blockSeq)
  }

  lemma SparedIs(seen: Messages, u: nat)
    ensures Spared(seen, u) <==> u !in Doomed(seen)
  {
    hide Chosen, IsBest;
  }

  /** Whatever the index says, a full copy of the path is left exactly when some version has, for each
      block, a message on the server that the run spares. */
  lemma FullCopyLeftIff(files: seq<FileRecord>, server: Readings, mailbox: string, prefix: string, path: string)
    ensures var s, seen := OnServer(server, mailbox, prefix), Seen(files, server, mailbox, prefix);
            (exists v :: Full(Left(files, server, mailbox, prefix), path, v)) <==>
            (exists v :: SparedInFull(s, seen, path, v))
  {
    hide OnServer, Seen, Left, Doomed;
    var s, seen, left := OnServer(server, mailbox, prefix), Seen(files, server, mailbox, prefix), Left(files, server, mailbox, prefix);
    LeftIs(files, server, mailbox, prefix);
    forall v
      ensures Full(left, path, v) <==> SparedInFull(s, seen, path, v)
    {
      SparedFull(s, seen, path, v);
    }
  }

  ghost predicate SparedInFull(s: Messages, seen: Messages, path: string, v: VersionKey) {
    v.count > 0 && forall n :: 1 <= n <= v.count ==> SparedBlock(s, seen, path, v, n)
  }

  ghost predicate SparedBlock(s: Messages, seen: Messages, path: string, v: VersionKey, n: int) {
    exists u: nat :: u != 0 && IsBlock(s, u, path, v, n) && Spared(seen, u)
  }

  lemma SparedFull(s: Messages, seen: Messages, path: string, v: VersionKey)
    ensures Full(s - Doomed(seen), path, v) <==> SparedInFull(s, seen, path, v)
  {
    hide Spared, Doomed;
    var left := s - Doomed(seen);
    forall n
      ensures HasBlock(left, path, v, n) <==> SparedBlock(s, seen, path, v, n)
    {
      if HasBlock(left, path, v, n) {
        var u: nat :| u != 0 && IsBlock(left, u, path, v, n);
        SparedIs(seen, u);
        assert IsBlock(s, u, path, v, n);
      }
      if SparedBlock(s, seen, path, v, n) {
        var u: nat :| u != 0 && IsBlock(s, u, path, v, n) && Spared(seen, u);
        SparedIs(seen, u);
        assert IsBlock(left, u, path, v, n);
      }
    }
  }

  /** What the index knows of the path is right for the messages that are still there; rows of
      messages that are gone may say anything. */
  ghost predicate TrueWhereThere(files: seq<FileRecord>, server: Readings, mailbox: string, path: string) {
    var cached, s := CachedRows(files, mailbox), Usable(server, mailbox);
    forall u: nat :: u in cached && u in s && (cached[u].localPath == path || s[u].localPath == path) ==> Alike(cached[u], s[u])
  }

  /** The version that the run chooses keeps, of each block, a message that is on the server. */
  ghost predicate ChosenIsThere(server: Readings, seen: Messages, mailbox: string, path: string, v: VersionKey) {
    && Chosen(seen, path, v) && v.count > 0
    && forall n :: 1 <= n <= v.count ==> BestIsThere(server, seen, mailbox, path, v, n)
  }

  ghost predicate BestIsThere(server: Readings, seen: Messages, mailbox: string, path: string, v: VersionKey, n: int) {
    exists u: nat :: u != 0 && u in Usable(server, mailbox) && IsBest(seen, u, path, v, n)
  }

  /** What is looked at under the path and still there is what the server has under it. */
  lemma SeenWhereThere(files: seq<FileRecord>, server: Readings, mailbox: string, prefix: string, path: string, u: nat)
    requires TrueWhereThere(files, server, mailbox, path)
    ensures var s, seen := OnServer(server, mailbox, prefix), Seen(files, server, mailbox, prefix);
            && (OnPath(s, u, path) <==> OnPath(seen, u, path) && u in Usable(server, mailbox))
            && (OnPath(s, u, path) ==> Alike(s[u], seen[u]))
  {
    RowsHaveSubjects(files, mailbox);
    UsableCacheable(server, mailbox);
    var cached, s := CachedRows(files, mailbox), Usable(server, mailbox);
    hide CachedRows, Usable;
    if u in cached && u in s && (cached[u].localPath == path || s[u].localPath == path) { AlikeAdmits(cached[u], s[u], prefix); }
  }

  /** With an index that still lists messages that are gone, but is right about those of the path that
      are there, a full copy of the path is left exactly when the version that the run chooses, from
      index and server together, keeps for each block a message that is there. */
  lemma StaleIndexIff(files: seq<FileRecord>, server: Readings, mailbox: string, prefix: string, path: string)
    requires TrueWhereThere(files, server, mailbox, path)
    ensures (exists v :: Full(Left(files, server, mailbox, prefix), path, v)) <==>
            (exists v :: ChosenIsThere(server, Seen(files, server, mailbox, prefix), mailbox, path, v))
  {
    hide OnServer, Seen, Left, Usable, TrueWhereThere;
    var s, seen := OnServer(server, mailbox, prefix), Seen(files, server, mailbox, prefix);
    FullCopyLeftIff(files, server, mailbox, prefix, path);
    forall u: nat
      ensures OnPath(s, u, path) <==> OnPath(seen, u, path) && u in Usable(server, mailbox)
      ensures OnPath(s, u, path) ==> Alike(s[u], seen[u])
    {
      SeenWhereThere(files, server, mailbox, prefix, path, u);
    }
    forall v
      ensures SparedInFull(s, seen, path, v) <==> ChosenIsThere(server, seen, mailbox, path, v)
    {
      SparedIsChosen(s, seen, server, mailbox, path, v);
    }
  }

  lemma SparedIsChosen(s: Messages, seen: Messages, server: Readings, mailbox: string, path: string, v: VersionKey)
    requires forall u: nat :: OnPath(s, u, path) <==> OnPath(seen, u, path) && u in Usable(server, mailbox)
    requires forall u: nat :: OnPath(s, u, path) ==> u in seen && Alike(s[u], seen[u])
    ensures SparedInFull(s, seen, path, v) <==> ChosenIsThere(server, seen, mailbox, path, v)
  {
    hide Usable, Chosen;
    forall n
      ensures SparedBlock(s, seen, path, v, n) <==> Chosen(seen, path, v) && BestIsThere(server, seen, mailbox, path, v, n)
    {
      if SparedBlock(s, seen, path, v, n) {
        var u: nat :| u != 0 && IsBlock(s, u, path, v, n) && Spared(seen, u);
        assert OnPath(s, u, path);
        assert IsBest(seen, u, path, v, n);
      }
      if Chosen(seen, path, v) && BestIsThere(server, seen, mailbox, path, v, n) {
        var u: nat :| u != 0 && u in Usable(server, mailbox) && IsBest(seen, u, path, v, n);
        assert OnPath(seen, u, path) && OnPath(s, u, path);
        assert IsBlock(s, u, path, v, n);
      }
    }
    if SparedInFull(s, seen, path, v) { assert SparedBlock(s, seen, path, v, 1); }
  }

  // ---------------------------------------------------------------------------------------
  // A stale index, by example

  /** The server has a complete copy under uid 1; the index still lists a newer version under
      uid 9, whose message is gone. */
  function StaleServer(): Readings {
    map[1 := Some(Metadata("f/plain/1-1", "aa", "b1", 10, 10, "", "", "f", "box", 1, 1, false))]
  }

  function StaleFiles(): seq<FileRecord> {
    [FileRecord("box", "f", 1, "bb", 20, [BlockRecord(1, 9, "b9", 20)])]
  }

  /** The run keeps the message that is gone and deletes the copy that is there. */
  lemma StaleIndexLosesCopy()
    ensures Full(OnServer(StaleServer(), "box", []), "f", VersionKey("aa", 10, 1))
    ensures !exists v :: Full(Left(StaleFiles(), StaleServer(), "box", []), "f", v)
  {
    StaleSeen();
    StaleFull(OnServer(StaleServer(), "box", []));
    StaleDoomed(Seen(StaleFiles(), StaleServer(), "box", []));
    LeftIs(StaleFiles(), StaleServer(), "box", []);
    forall v
      ensures !Full(Left(StaleFiles(), StaleServer(), "box", []), "f", v)
    {
      NoneLeft(Left(StaleFiles(), StaleServer(), "box", []), v);
    }
  }

  lemma NoneLeft(s: Messages, v: VersionKey)
    requires s.Keys == {}
    ensures !Full(s, "f", v)
  {
    assert !HasBlock(s, "f", v, 1) by { assert forall u: nat :: u !in s.Keys; }
  }

  lemma StaleFull(s: Messages)
    requires s.Keys == {1} && s[1] == StaleServer()[1].value
    ensures Full(s, "f", VersionKey("aa", 10, 1))
  {
    assert IsBlock(s, 1, "f", VersionKey("aa", 10, 1), 1);
    assert HasBlock(s, "f", VersionKey("aa", 10, 1), 1);
  }

  lemma StaleDoomed(s: Messages)
    requires s.Keys == {1, 9}
    requires s[1].localPath == "f" && KeyOf(s[1]) == VersionKey("aa", 10, 1) && s[1].blockSeq == 1
    requires s[9].localPath == "f" && KeyOf(s[9]) == VersionKey("bb", 20, 1) && s[9].blockSeq == 1
    ensures 1 in Doomed(s)
  {
    var a, b := VersionKey("aa", 10, 1), VersionKey("bb", 20, 1);
    assert InVersion(s, 9, "f", b) && InVersion(s, 1, "f", a) && Present(s, "f", b);
    assert IsBlock(s, 9, "f", b, 1);
    assert HasBlock(s, "f", b, 1) && Exact(s, "f", b);
    forall u: nat | Newest(s, u, "f", a)
      ensures u < 9
    {
      assert u in s.Keys && a != b;
    }
    assert !NotOlder(s, "f", a, b);
    assert !Chosen(s, "f", a);
  }

  lemma StaleSeen()
    ensures var s := Seen(StaleFiles(), StaleServer(), "box", []);
            && s.Keys == {1, 9}
            && s[1].localPath == "f" && KeyOf(s[1]) == VersionKey("aa", 10, 1) && s[1].blockSeq == 1
            && s[9].localPath == "f" && KeyOf(s[9]) == VersionKey("bb", 20, 1) && s[9].blockSeq == 1
    ensures OnServer(StaleServer(), "box", []).Keys == {1} && OnServer(StaleServer(), "box", [])[1] == StaleServer()[1].value
  {
    var file := StaleFiles()[0];
    var row := RowMetadata(file, file.blocks[0], "box");
    assert NormalizePath([]) == [];
    assert FileRows(map[], file, "box", 1) == map[9 := row];
    assert StaleFiles()[..0] == [];
    assert CachedRows(StaleFiles(), "box") == map[9 := row];
    assert row.subject != [];
  }
}

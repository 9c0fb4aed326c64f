/** The mailbox service: filling the index from the mail server, and deduplicating a mailbox. */
module Mailbox {
  import opened Basics
  import opened Text
  import opened Paths
  import opened Records
  import opened Repository
  import opened Dedup
  import opened DedupGroups
  import opened BlockMetadata

  /** What reading the metadata of each message on the server yields; `None` when it raises. */
  type Readings = map<nat, Option<Metadata>>

  function Filled(m: Metadata, mailbox: string): Metadata {
    if m.mailFolder == [] then m.(mailFolder := mailbox) else m
  }

  /** The messages that the service can use. */
  function Usable(server: Readings, mailbox: string): Messages {
    map u | u in server && server[u].Some? && IsCacheable(server[u].value) :: Filled(server[u].value, mailbox)
  }

  /** A message can be used exactly when it is read and has subject, path and positive block number and
      count; only a missing folder is filled in. */
  lemma UsableIff(server: Readings, mailbox: string, u: nat)
    ensures var s := Usable(server, mailbox);
            && (u in s <==> u in server && server[u].Some? && server[u].value.subject != [] && server[u].value.localPath != []
                            && server[u].value.blockSeq > 0 && server[u].value.blockCount > 0)
            && (u in s ==> s[u] == server[u].value.(mailFolder := s[u].mailFolder)
                           && s[u].mailFolder == if server[u].value.mailFolder == [] then mailbox else server[u].value.mailFolder)
  {
  }

  // ---------------------------------------------------------------------------------------
  // Filling the index

  function Cached(index: Index, s: Messages, u: nat): Index {
    if u in s then Upserted(index, u, s[u]) else index
  }

  /** The index after storing the messages in the given order. */
  function CacheAll(index: Index, s: Messages, uids: seq<nat>): Index {
    if uids == [] then index
    else Cached(CacheAll(index, s, uids[..|uids| - 1]), s, uids[|uids| - 1])
  }

  predicate Stores(s: Messages, uids: seq<nat>, u: nat, name: FileName) {
    u in uids && u in s && NameOf(s[u]) == name
  }

  /** The entry holds just the given messages of its file, each in its own place. */
  ghost predicate EntryHolds(index: Index, s: Messages, uids: seq<nat>, name: FileName, v: VersionKey) {
    && (name in index <==> exists u: nat :: Stores(s, uids, u, name))
    && (name in index ==>
          && index[name].blockCount == v.count && index[name].md5 == v.md5 && index[name].size == v.size
          && (forall n :: n in index[name].blocks ==> exists u: nat :: Stores(s, uids, u, name) && s[u].blockSeq == n)
          && (forall u: nat :: Stores(s, uids, u, name) ==>
                s[u].blockSeq in index[name].blocks && index[name].blocks[s[u].blockSeq] == RowOf(u, s[u])))
  }

  /** The messages of a file belong to one version, one to a block. */
  ghost predicate OneVersion(s: Messages, name: FileName, v: VersionKey) {
    && (forall u: nat :: u in s && NameOf(s[u]) == name ==> KeyOf(s[u]) == v)
    && (forall u: nat, w: nat :: u in s && w in s && NameOf(s[u]) == NameOf(s[w]) == name ==>
          (s[u].blockSeq == s[w].blockSeq ==> u == w))
  }

  lemma StoresMore(s: Messages, uids: seq<nat>, name: FileName)
    requires uids != []
    ensures forall u: nat :: Stores(s, uids, u, name) <==>
              Stores(s, uids[..|uids| - 1], u, name) || (u == uids[|uids| - 1] && u in s && NameOf(s[u]) == name)
  {
    assert uids == uids[..|uids| - 1] + [uids[|uids| - 1]];
  }

  lemma CacheOne(index: Index, s: Messages, uids: seq<nat>, name: FileName, v: VersionKey)
    requires uids != [] && OneVersion(s, name, v) && EntryHolds(index, s, uids[..|uids| - 1], name, v)
    ensures EntryHolds(Cached(index, s, uids[|uids| - 1]), s, uids, name, v)
  {
    var last, before := uids[|uids| - 1], uids[..|uids| - 1];
    StoresMore(s, uids, name);
    var after := Cached(index, s, last);
    if last in s && NameOf(s[last]) == name {
      assert Stores(s, uids, last, name);
      forall n | n in after[name].blocks
        ensures exists u: nat :: Stores(s, uids, u, name) && s[u].blockSeq == n
      {
        if n != s[last].blockSeq {
          var u: nat :| Stores(s, before, u, name) && s[u].blockSeq == n;
          assert Stores(s, uids, u, name);
        }
      }
    } else {
      assert forall u: nat :: Stores(s, uids, u, name) <==> Stores(s, before, u, name);
    }
  }

  /** Whatever the order, a file whose messages belong to one version is indexed exactly. */
  lemma {:induction false} CachedExactly(index: Index, s: Messages, uids: seq<nat>, name: FileName, v: VersionKey)
    requires name !in index && OneVersion(s, name, v)
    ensures EntryHolds(CacheAll(index, s, uids), s, uids, name, v)
  {
    if uids != [] {
      CachedExactly(index, s, uids[..|uids| - 1], name, v);
      CacheOne(CacheAll(index, s, uids[..|uids| - 1]), s, uids, name, v);
    }
  }

  /** The blocks by ascending number; blocks with one number stay in some order. */
  function SortBlocks(blocks: seq<BlockRecord>): (r: seq<BlockRecord>)
    ensures |r| == |blocks|
  {
    if blocks == [] then [] else InsertBlock(blocks[0], SortBlocks(blocks[1..]))
  }

  function InsertBlock(block: BlockRecord, sorted: seq<BlockRecord>): (r: seq<BlockRecord>)
    ensures |r| == |sorted| + 1
  {
    if sorted == [] || block.number <= sorted[0].number then [block] + sorted
    else [sorted[0]] + InsertBlock(block, sorted[1..])
  }

  ghost predicate Ascending(blocks: seq<BlockRecord>) {
    forall i, j :: 0 <= i < j < |blocks| ==> blocks[i].number <= blocks[j].number
  }

  lemma {:induction false} InsertKeeps(block: BlockRecord, sorted: seq<BlockRecord>)
    ensures multiset(InsertBlock(block, sorted)) == multiset(sorted) + multiset{block}
  {
    if sorted != [] && block.number > sorted[0].number {
      InsertKeeps(block, sorted[1..]);
      assert sorted == [sorted[0]] + sorted[1..];
    }
  }

  lemma {:induction false} InsertSorted(block: BlockRecord, sorted: seq<BlockRecord>)
    requires Ascending(sorted)
    ensures Ascending(InsertBlock(block, sorted))
  {
    if sorted != [] && block.number > sorted[0].number {
      var rest := InsertBlock(block, sorted[1..]);
      InsertSorted(block, sorted[1..]);
      InsertKeeps(block, sorted[1..]);
      forall k | 0 <= k < |rest|
        ensures sorted[0].number <= rest[k].number
      {
        assert rest[k] in multiset(rest);
      }
    }
  }

  /** Sorting keeps the blocks. */
  lemma {:induction false} SortedBlocks(blocks: seq<BlockRecord>)
    ensures Ascending(SortBlocks(blocks)) && multiset(SortBlocks(blocks)) == multiset(blocks)
  {
    hide InsertBlock;
    if blocks != [] {
      SortedBlocks(blocks[1..]);
      InsertSorted(blocks[0], SortBlocks(blocks[1..]));
      InsertKeeps(blocks[0], SortBlocks(blocks[1..]));
      assert blocks == [blocks[0]] + blocks[1..];
    }
  }

  /** Blocks that are in order stay as they are. */
  lemma {:induction false} SortKeeps(blocks: seq<BlockRecord>)
    requires Ascending(blocks)
    ensures SortBlocks(blocks) == blocks
  {
    if blocks != [] {
      SortKeeps(blocks[1..]);
    }
  }

  predicate Numbered(block: BlockRecord, number: int) { block.number == number && block.uid != 0 && block.md5 != [] }

  /** Sorted, the blocks are 1..count, each with the uid and hash of its message. */
  predicate HasCompleteBlocks(file: FileRecord) {
    var blocks := SortBlocks(file.blocks);
    && file.blockCount > 0 && |blocks| == file.blockCount
    && forall i :: 0 <= i < |blocks| ==> Numbered(blocks[i], i + 1)
  }

  method CheckBlocks(file: FileRecord) returns (complete: bool)
    ensures complete == HasCompleteBlocks(file)
  {
    hide SortBlocks, Numbered;
    var blocks := SortBlocks(file.blocks);
    if file.blockCount <= 0 || |blocks| != file.blockCount {
      return false;
    }
    for number := 1 to file.blockCount + 1
      invariant forall i :: 0 <= i < number - 1 ==> Numbered(blocks[i], i + 1)
    {
      if !Numbered(blocks[number - 1], number) {
        return false;
      }
    }
    return true;
  }

  ghost predicate HasNumbered(blocks: seq<BlockRecord>, number: int) {
    exists block :: block in blocks && block.number == number && block.uid != 0 && block.md5 != []
  }

  /** A record is complete exactly when it has as many blocks as its count says, at least one, and for
      each number 1..count one with a uid and a hash, in whatever order. */
  lemma CompleteHasEach(file: FileRecord)
    ensures HasCompleteBlocks(file) <==>
              file.blockCount > 0 && |file.blocks| == file.blockCount &&
              forall n :: 1 <= n <= file.blockCount ==> HasNumbered(file.blocks, n)
  {
    hide SortBlocks;
    SortedBlocks(file.blocks);
    var blocks := SortBlocks(file.blocks);
    forall block
      ensures block in file.blocks <==> block in blocks
    {
      assert block in multiset(file.blocks) <==> block in multiset(blocks);
    }
    if HasCompleteBlocks(file) {
      forall n | 1 <= n <= file.blockCount
        ensures HasNumbered(file.blocks, n)
      {
        assert blocks[n - 1] in blocks && Numbered(blocks[n - 1], n - 1 + 1);
      }
    }
    if |blocks| == file.blockCount && forall n :: 1 <= n <= file.blockCount ==> HasNumbered(file.blocks, n) {
      forall n | 1 <= n <= |blocks|
        ensures HasPlace(blocks, n)
      {
        assert HasNumbered(file.blocks, n);
        var block :| block in file.blocks && block.number == n && block.uid != 0 && block.md5 != [];
        var i :| 0 <= i < |blocks| && blocks[i] == block;
        assert Numbered(blocks[i], n);
      }
      CoveredInOrder(blocks);
    }
  }

  ghost predicate HasPlace(blocks: seq<BlockRecord>, number: int) {
    exists i :: 0 <= i < |blocks| && Numbered(blocks[i], number)
  }

  lemma NumberIs(block: BlockRecord, number: int)
    requires Numbered(block, number)
    ensures block.number == number
  {
  }

  /** Blocks in order that have each of as many numbers as there are blocks have them one by one. */
  lemma {:induction false} CoveredInOrder(blocks: seq<BlockRecord>)
    requires Ascending(blocks) && forall n :: 1 <= n <= |blocks| ==> HasPlace(blocks, n)
    ensures forall i :: 0 <= i < |blocks| ==> Numbered(blocks[i], i + 1)
  {
    hide Numbered;
    if blocks != [] {
      var k := |blocks| - 1;
      var init := blocks[..k];
      assert HasPlace(blocks, k + 1);
      var j :| 0 <= j < |blocks| && Numbered(blocks[j], k + 1);
      NumberIs(blocks[j], k + 1);
      forall n | 1 <= n <= k
        ensures HasPlace(init, n)
      {
        assert HasPlace(blocks, n);
        var i :| 0 <= i < |blocks| && Numbered(blocks[i], n);
        NumberIs(blocks[i], n);
        assert init[i] == blocks[i];
      }
      CoveredInOrder(init);
      if j < k {
        assert init[j] == blocks[j];
        NumberIs(blocks[j], j + 1);
      }
    }
  }

  /** An entry whose block numbers are 1..count becomes a record with its blocks in order. */
  lemma RecordOfRange(name: FileName, e: Entry)
    requires e.blockCount >= 0 && forall n :: n in e.blocks <==> 1 <= n <= e.blockCount
    ensures var r := RecordOf(name, e);
            && |r.blocks| == e.blockCount
            && forall i :: 0 <= i < e.blockCount ==>
                 r.blocks[i] == BlockRecord(i + 1, e.blocks[i + 1].uid, e.blocks[i + 1].md5, e.blocks[i + 1].size)
  {
    SortedRange(e.blocks.Keys, 1, e.blockCount);
  }

  // ---------------------------------------------------------------------------------------
  // Deduplication on the server

  /** The parts of metadata that deduplication looks at. */
  predicate Alike(a: Metadata, b: Metadata) {
    a.localPath == b.localPath && KeyOf(a) == KeyOf(b) && a.blockSeq == b.blockSeq
  }

  /** The two have the same messages of the path, as far as deduplication looks. */
  ghost predicate AlikeOn(s: Messages, r: Messages, path: string) {
    forall u: nat :: (OnPath(s, u, path) <==> OnPath(r, u, path)) && (OnPath(s, u, path) ==> Alike(s[u], r[u]))
  }

  ghost predicate AllAlike(s: Messages, r: Messages) {
    s.Keys == r.Keys && forall u :: u in s ==> Alike(s[u], r[u])
  }

  lemma AlikeOnAll(s: Messages, r: Messages, path: string)
    requires AllAlike(s, r)
    ensures AlikeOn(s, r, path)
  {
    forall u: nat
      ensures OnPath(s, u, path) <==> OnPath(r, u, path)
    {
      assert u in s.Keys <==> u in r.Keys;
    }
  }

  lemma AlikeVersions(s: Messages, r: Messages, path: string, v: VersionKey)
    requires AlikeOn(s, r, path)
    ensures forall u: nat :: InVersion(s, u, path, v) <==> InVersion(r, u, path, v)
    ensures forall u: nat, n :: IsBlock(s, u, path, v, n) <==> IsBlock(r, u, path, v, n)
    ensures Present(s, path, v) <==> Present(r, path, v)
  {
    forall u: nat, n
      ensures InVersion(s, u, path, v) <==> InVersion(r, u, path, v)
      ensures IsBlock(s, u, path, v, n) <==> IsBlock(r, u, path, v, n)
    {
      assert OnPath(s, u, path) <==> OnPath(r, u, path);
    }
  }

  lemma AlikeExact(s: Messages, r: Messages, path: string, v: VersionKey)
    requires AlikeOn(s, r, path)
    ensures Exact(s, path, v) ==> Exact(r, path, v)
  {
    AlikeVersions(s, r, path, v);
    if Exact(s, path, v) {
      forall n | 1 <= n <= v.count
        ensures HasBlock(r, path, v, n)
      {
        assert HasBlock(s, path, v, n);
        var u: nat :| u != 0 && IsBlock(s, u, path, v, n);
        assert IsBlock(r, u, path, v, n);
      }
      forall u: nat | InVersion(r, u, path, v)
        ensures 1 <= r[u].blockSeq <= v.count
      {
        assert InVersion(s, u, path, v);
      }
    }
  }

  lemma AlikeNotOlder(s: Messages, r: Messages, path: string, v: VersionKey, w: VersionKey)
    requires AlikeOn(s, r, path) && NotOlder(s, path, v, w)
    ensures NotOlder(r, path, v, w)
  {
    AlikeVersions(s, r, path, v);
    AlikeVersions(s, r, path, w);
    var u: nat :| Newest(s, u, path, v) && forall x: nat :: InVersion(s, x, path, w) ==> x <= u;
    assert Newest(r, u, path, v);
  }

  lemma AlikeChosen(s: Messages, r: Messages, path: string, v: VersionKey)
    requires AlikeOn(s, r, path) && Chosen(s, path, v)
    ensures Chosen(r, path, v)
  {
    AlikeSwap(s, r, path);
    AlikeVersions(s, r, path, v);
    AlikeExact(s, r, path, v);
    AlikeExact(r, s, path, v);
    hide Exact, NotOlder, AlikeOn;
    forall w | Present(r, path, w)
      ensures Exact(r, path, w) ==> Exact(r, path, v)
      ensures Exact(r, path, w) == Exact(r, path, v) ==> NotOlder(r, path, v, w)
    {
      AlikeVersions(r, s, path, w);
      AlikeExact(r, s, path, w);
      AlikeExact(s, r, path, w);
      if NotOlder(s, path, v, w) { AlikeNotOlder(s, r, path, v, w); }
    }
  }

  lemma AlikeSwap(s: Messages, r: Messages, path: string)
    requires AlikeOn(s, r, path)
    ensures AlikeOn(r, s, path)
  {
  }

  /** What is kept of a path depends on nothing but path, version and block number. */
  lemma AlikeKept(s: Messages, r: Messages, path: string, u: nat)
    requires AlikeOn(s, r, path) && OnPath(s, u, path) && Kept(s, u)
    ensures Kept(r, u)
  {
    assert Alike(s[u], r[u]);
    AlikeChosen(s, r, path, KeyOf(s[u]));
    AlikeVersions(s, r, path, KeyOf(s[u]));
  }

  // ---------------------------------------------------------------------------------------
  // The messages that a run looks at

  /** The metadata that stands in for a message whose block the index knows. */
  function RowMetadata(file: FileRecord, block: BlockRecord, mailbox: string): Metadata {
    Metadata(MakeSubject(LastPathSegment(file.localPath), false, block.number, file.blockCount),
             file.md5, block.md5, file.size, block.size, [], [], file.localPath,
             if file.mailFolder == [] then mailbox else file.mailFolder,
             block.number, file.blockCount, false)
  }

  /** Of several rows with one uid the first counts. */
  function FileRows(c: Messages, file: FileRecord, mailbox: string, n: nat): Messages
    requires n <= |file.blocks|
  {
    if n == 0 then c
    else
      var before, block := FileRows(c, file, mailbox, n - 1), file.blocks[n - 1];
      if block.uid in before then before else before[block.uid := RowMetadata(file, block, mailbox)]
  }

  function CachedRows(files: seq<FileRecord>, mailbox: string): Messages {
    if files == [] then map[]
    else
      var last := files[|files| - 1];
      FileRows(CachedRows(files[..|files| - 1], mailbox), last, mailbox, |last.blocks|)
  }

  method CollectFileRows(before: Messages, file: FileRecord, mailbox: string) returns (c: Messages)
    ensures c == FileRows(before, file, mailbox, |file.blocks|)
  {
    hide RowMetadata;
    c := before;
    for i := 0 to |file.blocks|
      invariant c == FileRows(before, file, mailbox, i)
    {
      var block := file.blocks[i];
      if block.uid !in c {
        c := c[block.uid := RowMetadata(file, block, mailbox)];
      }
    }
  }

  method CollectRows(files: seq<FileRecord>, mailbox: string) returns (c: Messages)
    ensures c == CachedRows(files, mailbox)
  {
    hide FileRows;
    c := map[];
    for k := 0 to |files|
      invariant c == CachedRows(files[..k], mailbox)
    {
      assert files[..k + 1][..k] == files[..k];
      c := CollectFileRows(c, files[k], mailbox);
    }
    assert files[..|files|] == files;
  }

  /** The index comes first, the server is asked about the rest, and the prefix selects. */
  function Considered(cached: Messages, s: Messages, prefix: string): Messages {
    map u | u in cached.Keys + s.Keys && Admits(if u in cached then cached[u] else s[u], prefix) ::
      if u in cached then cached[u] else s[u]
  }

  /** The messages that are not to be kept. */
  ghost function Doomed(seen: Messages): set<nat> { set u | u in seen && !Kept(seen, u) }

  /** Each uid of the set once. */
  ghost predicate Enumerates(order: seq<nat>, uids: set<nat>) {
    NoDup(order) && forall u: nat :: u in order <==> u in uids
  }

  /** The index after the mailbox was cleared and every message of the server stored again. */
  ghost predicate Rebuilt(before: Index, after: Index, server: Readings, mailbox: string, order: seq<nat>) {
    Enumerates(order, server.Keys) && after == CacheAll(Cleared(before, mailbox), Usable(server, mailbox), order)
  }

  method Enumerate(uids: set<nat>) returns (order: seq<nat>)
    ensures Enumerates(order, uids)
  {
    order := [];
    var todo := uids;
    while todo != {}
      invariant todo <= uids && NoDup(order)
      invariant forall u: nat :: u in order <==> u in uids && u !in todo
    {
      var u := Pick(todo);
      todo := todo - {u};
      order := order + [u];
    }
  }

  /** The messages admitted after presenting some more, in the given order. */
  function AdmittedFrom(before: Messages, s: Messages, uids: seq<nat>, prefix: string): Messages {
    if uids == [] then before
    else
      var last, r := uids[|uids| - 1], AdmittedFrom(before, s, uids[..|uids| - 1], prefix);
      if last in s && Admits(s[last], prefix) then r[last := s[last]] else r
  }

  lemma {:induction false} AdmittedFromIs(before: Messages, s: Messages, uids: seq<nat>, prefix: string)
    ensures forall u: nat :: u in AdmittedFrom(before, s, uids, prefix) <==>
              u in before || (u in uids && u in s && Admits(s[u], prefix))
    ensures forall u: nat :: u in uids && u in s && Admits(s[u], prefix) ==> AdmittedFrom(before, s, uids, prefix)[u] == s[u]
    ensures forall u: nat :: u in before && u !in uids ==> AdmittedFrom(before, s, uids, prefix)[u] == before[u]
  {
    if uids != [] {
      var last, init := uids[|uids| - 1], uids[..|uids| - 1];
      AdmittedFromIs(before, s, init, prefix);
      assert uids == init + [last];
    }
  }

  lemma AdmittedIsConsidered(cached: Messages, s: Messages, first: seq<nat>, second: seq<nat>, prefix: string)
    requires forall u: nat :: u in first <==> u in cached
    requires forall u: nat :: u in second ==> u !in cached
    requires forall u: nat :: u in s && u !in cached ==> u in second
    ensures AdmittedFrom(AdmittedFrom(map[], cached, first, prefix), s, second, prefix) == Considered(cached, s, prefix)
  {
    hide Admits;
    var a := AdmittedFrom(map[], cached, first, prefix);
    AdmittedFromIs(map[], cached, first, prefix);
    AdmittedFromIs(a, s, second, prefix);
    var b, c := AdmittedFrom(a, s, second, prefix), Considered(cached, s, prefix);
    forall u: nat
      ensures u in b <==> u in c
      ensures u in b ==> b[u] == c[u]
    {
      assert u in first <==> u in cached;
    }
  }

  /** Presents the rows of the index. */
  method AddRows(d: Deduplication, cached: Messages) returns (ghost order: seq<nat>)
    requires d.Valid() && d.admitted == map[]
    modifies d
    ensures d.Valid() && Enumerates(order, cached.Keys)
    ensures d.admitted == AdmittedFrom(map[], cached, order, d.prefix)
  {
    var uids := Enumerate(cached.Keys);
    order := uids;
    for i := 0 to |uids|
      invariant d.Valid() && d.admitted == AdmittedFrom(map[], cached, uids[..i], d.prefix)
    {
      AdmittedFromIs(map[], cached, uids[..i], d.prefix);
      assert uids[i] in uids && uids[..i + 1][..i] == uids[..i];
      assert uids[i] !in uids[..i];
      hide AdmittedFrom, Admits;
      d.AddRemoteBlockSnapshot(uids[i], cached[uids[i]]);
      AdmittedNext(map[], cached, uids, i, d.prefix);
    }
    assert uids[..|uids|] == uids;
  }

  lemma AdmittedNext(before: Messages, s: Messages, uids: seq<nat>, i: nat, prefix: string)
    requires i < |uids|
    ensures AdmittedFrom(before, s, uids[..i + 1], prefix) ==
            var r := AdmittedFrom(before, s, uids[..i], prefix);
            if uids[i] in s && Admits(s[uids[i]], prefix) then r[uids[i] := s[uids[i]]] else r
  {
    hide Admits;
    assert uids[..i + 1][..i] == uids[..i];
  }

  lemma CachedNext(index: Index, s: Messages, uids: seq<nat>, i: nat)
    requires i < |uids|
    ensures CacheAll(index, s, uids[..i + 1]) == Cached(CacheAll(index, s, uids[..i]), s, uids[i])
  {
    hide Cached;
    assert uids[..i + 1][..i] == uids[..i];
  }

  class MailfsService {
    const repository: CacheRepository
    const batchSize: nat
    var server: Readings

    constructor (repository: CacheRepository, batchSize: nat, server: Readings)
      ensures this.repository == repository && this.batchSize == batchSize && this.server == server
    {
      this.repository := repository;
      this.batchSize := batchSize;
      this.server := server;
    }

    /** The messages that the index does not know yet are fetched in batches and stored. */
    method CacheMailbox(mailbox: string) returns (ghost order: seq<nat>)
      requires repository.Valid()
      modifies repository
      ensures repository.Valid()
      ensures Enumerates(order, set u | u in server && !IsCached(old(repository.Contents()), mailbox, u))
      ensures repository.Contents() == CacheAll(old(repository.Contents()), Usable(server, mailbox), order)
    {
      var cached := repository.GetCachedUids(mailbox);
      var uncached := Enumerate(set u | u in server && u !in cached);
      order := uncached;
      forall i | 0 <= i < |uncached|
        ensures uncached[i] in server
      {
        assert uncached[i] in uncached;
      }
      StoreBatches(mailbox, uncached);
    }

    method StoreBatches(mailbox: string, uncached: seq<nat>)
      requires repository.Valid() && forall i :: 0 <= i < |uncached| ==> uncached[i] in server
      modifies repository
      ensures repository.Valid()
      ensures repository.Contents() == CacheAll(old(repository.Contents()), Usable(server, mailbox), uncached)
    {
      ghost var index, s := repository.Contents(), Usable(server, mailbox);
      var batch := if batchSize > 1 then batchSize else 1;
      var offset := 0;
      while offset < |uncached|
        invariant 0 <= offset && repository.Valid()
        invariant repository.Contents() == CacheAll(index, s, uncached[..Min(offset, |uncached|)])
      {
        hide CacheAll, Upserted, IsCacheable, Filled;
        var end := Min(offset + batch, |uncached|);
        for i := offset to end
          invariant repository.Valid() && repository.Contents() == CacheAll(index, s, uncached[..i])
        {
          CachedNext(index, s, uncached, i);
          var reading := server[uncached[i]];
          if reading.Some? && IsCacheable(reading.value) {
            repository.UpsertMailBlock(uncached[i], Filled(reading.value, mailbox));
          }
        }
        offset := offset + batch;
      }
      assert uncached[..|uncached|] == uncached;
    }

    /** Presents one message of the server, if it can be used. */
    method AddReading(d: Deduplication, mailbox: string, uid: nat)
      requires d.Valid() && uid in server && uid !in d.admitted
      modifies d
      ensures d.Valid()
      ensures var s, before := Usable(server, mailbox), old(d.admitted);
              d.admitted == if uid in s && Admits(s[uid], d.prefix) then before[uid := s[uid]] else before
    {
      hide Admits, IsCacheable, Filled;
      var reading := server[uid];
      if reading.Some? && IsCacheable(reading.value) {
        d.AddRemoteBlockSnapshot(uid, Filled(reading.value, mailbox));
      }
    }

    /** Presents the messages that the index does not know, fetched in batches. */
    method AddFetched(d: Deduplication, mailbox: string, uncached: seq<nat>)
      requires d.Valid() && NoDup(uncached)
      requires forall u: nat :: u in uncached ==> u in server && u !in d.admitted
      modifies d
      ensures d.Valid()
      ensures d.admitted == AdmittedFrom(old(d.admitted), Usable(server, mailbox), uncached, d.prefix)
    {
      hide Admits, Usable, Deduplication.Valid;
      ghost var before, s := d.admitted, Usable(server, mailbox);
      var batch := if batchSize > 1 then batchSize else 1;
      var offset := 0;
      while offset < |uncached|
        invariant 0 <= offset && d.Valid()
        invariant d.admitted == AdmittedFrom(before, s, uncached[..Min(offset, |uncached|)], d.prefix)
      {
        hide AdmittedFrom;
        var end := Min(offset + batch, |uncached|);
        for i := offset to end
          invariant d.Valid() && d.admitted == AdmittedFrom(before, s, uncached[..i], d.prefix)
        {
          NotYetAdmitted(before, s, uncached, i, d.prefix);
          AdmittedNext(before, s, uncached, i, d.prefix);
          AddReading(d, mailbox, uncached[i]);
        }
        offset := offset + batch;
      }
      assert uncached[..|uncached|] == uncached;
    }

    /** Sorts the messages that the index and the server know of into candidates. */
    method Gather(mailbox: string, prefix: string) returns (d: Deduplication, ghost files: seq<FileRecord>)
      requires repository.Valid()
      ensures fresh(d) && d.Valid() && Lists(files, repository.Contents(), mailbox)
      ensures d.admitted == Considered(CachedRows(files, mailbox), Usable(server, mailbox), prefix)
    {
      hide CachedRows, Usable, Considered, CacheRepository.Valid, Deduplication.Valid, AdmittedFrom, Lists;
      var list := repository.ListFiles(mailbox);
      files := list;
      var cached := CollectRows(list, mailbox);
      var uncached := Enumerate(set u | u in server && u !in cached);
      d := new Deduplication(prefix);
      ghost var rows := AddRows(d, cached);
      AdmittedFromIs(map[], cached, rows, prefix);
      ghost var s := Usable(server, mailbox);
      UsableOnServer(server, mailbox);
      AddFetched(d, mailbox, uncached);
      AdmittedIsConsidered(cached, s, rows, uncached, prefix);
    }

    /** Deletes messages, and rebuilds the index of the mailbox when there were any. */
    method Purge(mailbox: string, deleted: set<nat>) returns (ghost order: seq<nat>)
      requires repository.Valid()
      modifies this, repository
      ensures server == old(server) - deleted
      ensures repository.Valid()
      ensures deleted == {} ==> repository.Contents() == old(repository.Contents())
      ensures deleted != {} ==> Rebuilt(old(repository.Contents()), repository.Contents(), server, mailbox, order)
    {
      hide CacheAll, Usable, CacheRepository.Valid;
      server := server - deleted;
      order := [];
      if deleted != {} {
        repository.ClearMailbox(mailbox);
        order := CacheMailbox(mailbox);
        assert forall u: nat :: !IsCached(Cleared(old(repository.Contents()), mailbox), mailbox, u);
      }
    }

    /** Deletes from the server every message that was looked at and is not to be kept; when there
        is one, the index of the mailbox is built anew. */
    method DeduplicateMailbox(mailbox: string, prefix: string)
      returns (results: map<string, PathResult>, ghost files: seq<FileRecord>, ghost seen: Messages, ghost order: seq<nat>)
      requires repository.Valid()
      modifies this, repository
      ensures Lists(files, old(repository.Contents()), mailbox)
      ensures seen == Considered(CachedRows(files, mailbox), Usable(old(server), mailbox), prefix)
      ensures server == old(server) - Doomed(seen)
      ensures forall path :: path in results ==> Settled(seen, path, results[path])
      ensures forall u: nat :: u in Doomed(seen) ==> seen[u].localPath in results
      ensures repository.Valid()
      ensures Doomed(seen) == {} ==> repository.Contents() == old(repository.Contents())
      ensures Doomed(seen) != {} ==> Rebuilt(old(repository.Contents()), repository.Contents(), server, mailbox, order)
    {
      hide CachedRows, Usable, Considered, CacheRepository.Valid, Deduplication.Valid, CacheAll, Cleared, Settled, Kept, Rebuilt, Lists;
      var d: Deduplication;
      d, files := Gather(mailbox, prefix);
      seen := d.admitted;
      var deleted: set<nat>;
      results, deleted := d.Decide();
      assert deleted == Doomed(seen);
      order := Purge(mailbox, deleted);
    }
  }

  lemma NotYetAdmitted(before: Messages, s: Messages, uids: seq<nat>, i: nat, prefix: string)
    requires i < |uids| && NoDup(uids) && uids[i] !in before
    ensures uids[i] !in AdmittedFrom(before, s, uids[..i], prefix)
  {
    AdmittedFromIs(before, s, uids[..i], prefix);
  }

  lemma UsableOnServer(server: Readings, mailbox: string)
    ensures forall u: nat :: u in Usable(server, mailbox) ==> u in server
  {
  }
}

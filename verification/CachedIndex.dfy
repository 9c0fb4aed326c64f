module CachedIndex {
  // The index that the service writes itself: what its rows say of the messages, and what follows for deduplication.

  import opened Basics
  import opened Records
  import opened Paths
  import opened Repository
  import opened Dedup
  import opened DedupGroups
  import opened BlockMetadata
  import opened Mailbox
  import opened MailboxSafety

  // ---------------------------------------------------------------------------------------
  // The messages that were stored last

  predicate Under(s: Messages, u: nat, mailbox: string, path: string) {
    u in s && s[u].mailFolder == mailbox && s[u].localPath == path
  }

  /** The message of the file that was stored last. */
  function LastUnder(s: Messages, order: seq<nat>, mailbox: string, path: string): Option<nat> {
    if order == [] then None
    else
      var last := order[|order| - 1];
      if Under(s, last, mailbox, path) then Some(last) else LastUnder(s, order[..|order| - 1], mailbox, path)
  }

  /** The message of the block that was stored last. */
  function LastOf(s: Messages, order: seq<nat>, mailbox: string, path: string, n: int): Option<nat> {
    if order == [] then None
    else
      var last := order[|order| - 1];
      if Under(s, last, mailbox, path) && s[last].blockSeq == n then Some(last)
      else LastOf(s, order[..|order| - 1], mailbox, path, n)
  }

  /** No message of its block was stored after it. */
  predicate StoredLast(s: Messages, order: seq<nat>, mailbox: string, u: nat) {
    u in s && s[u].mailFolder == mailbox && LastOf(s, order, mailbox, s[u].localPath, s[u].blockSeq) == Some(u)
  }

  lemma {:induction false} LastUnderIs(s: Messages, order: seq<nat>, mailbox: string, path: string)
    ensures var last := LastUnder(s, order, mailbox, path);
            && (last.Some? ==> last.value in order && Under(s, last.value, mailbox, path))
            && (last.None? ==> forall u: nat :: u in order ==> !Under(s, u, mailbox, path))
  {
    if order != [] {
      LastUnderIs(s, order[..|order| - 1], mailbox, path);
      assert order == order[..|order| - 1] + [order[|order| - 1]];
    }
  }

  lemma {:induction false} LastOfIs(s: Messages, order: seq<nat>, mailbox: string, path: string, n: int)
    ensures var last := LastOf(s, order, mailbox, path, n);
            && (last.Some? ==> last.value in order && Under(s, last.value, mailbox, path) && s[last.value].blockSeq == n)
            && (last.None? ==> forall u: nat :: u in order ==> !(Under(s, u, mailbox, path) && s[u].blockSeq == n))
  {
    if order != [] {
      LastOfIs(s, order[..|order| - 1], mailbox, path, n);
      assert order == order[..|order| - 1] + [order[|order| - 1]];
    }
  }

  // ---------------------------------------------------------------------------------------
  // The entries

  /** The entry of a file has count, hash and size of the message stored last, and of each block the
      uid, hash and size of the message of that block stored last. */
  ghost predicate EntryOf(index: Index, s: Messages, order: seq<nat>, mailbox: string, path: string) {
    var name, last := FileName(mailbox, path), LastUnder(s, order, mailbox, path);
    && (name in index <==> last.Some?)
    && (name in index ==>
          && last.value in s
          && index[name].blockCount == s[last.value].blockCount
          && index[name].md5 == s[last.value].fileMd5 && index[name].size == s[last.value].fileSize)
    && forall n :: BlockOf(index, s, name, n, LastOf(s, order, mailbox, path, n))
  }

  ghost predicate BlockOf(index: Index, s: Messages, name: FileName, n: int, last: Option<nat>) {
    && (name in index && n in index[name].blocks <==> last.Some?)
    && (last.Some? ==> last.value in s && index[name].blocks[n] == BlockRow(last.value, s[last.value].blockMd5, s[last.value].blockSize))
  }

  lemma {:induction false} EntriesOf(before: Index, s: Messages, order: seq<nat>, mailbox: string, path: string)
    requires FileName(mailbox, path) !in before
    ensures EntryOf(CacheAll(before, s, order), s, order, mailbox, path)
  {
    if order != [] {
      var init, last := order[..|order| - 1], order[|order| - 1];
      EntriesOf(before, s, init, mailbox, path);
      var index := CacheAll(before, s, init);
      StoreOne(index, Cached(index, s, last), s, order, mailbox, path);
    }
  }

  lemma StoreOne(index: Index, after: Index, s: Messages, order: seq<nat>, mailbox: string, path: string)
    requires order != [] && EntryOf(index, s, order[..|order| - 1], mailbox, path)
    requires after == Cached(index, s, order[|order| - 1])
    ensures EntryOf(after, s, order, mailbox, path)
  {
    var init, last, name := order[..|order| - 1], order[|order| - 1], FileName(mailbox, path);
    LastUnderIs(s, order, mailbox, path);
    forall n
      ensures BlockOf(after, s, name, n, LastOf(s, order, mailbox, path, n))
    {
      assert BlockOf(index, s, name, n, LastOf(s, init, mailbox, path, n));
    }
  }

  // ---------------------------------------------------------------------------------------
  // The rows

  /** The row says what the record says of the file and of the block. */
  predicate RowShows(row: Metadata, file: FileRecord, block: BlockRecord) {
    && row.localPath == file.localPath && row.blockSeq == block.number
    && row.blockMd5 == block.md5 && row.blockSize == block.size
    && row.fileMd5 == file.md5 && row.fileSize == file.size && row.blockCount == file.blockCount
  }

  ghost predicate RowFrom(row: Metadata, files: seq<FileRecord>, u: nat) {
    exists file, block :: file in files && block in file.blocks && block.uid == u && RowShows(row, file, block)
  }

  lemma RowShowsRecord(file: FileRecord, block: BlockRecord, mailbox: string)
    ensures RowShows(RowMetadata(file, block, mailbox), file, block)
  {
  }

  lemma {:induction false} FileRowsCome(c: Messages, files: seq<FileRecord>, file: FileRecord, mailbox: string, n: nat)
    requires n <= |file.blocks| && file in files && forall u: nat :: u in c ==> RowFrom(c[u], files, u)
    ensures forall u: nat :: u in FileRows(c, file, mailbox, n) ==> RowFrom(FileRows(c, file, mailbox, n)[u], files, u)
    ensures forall u: nat :: u in c ==> u in FileRows(c, file, mailbox, n)
    ensures forall i :: 0 <= i < n ==> file.blocks[i].uid in FileRows(c, file, mailbox, n)
  {
    hide RowMetadata, RowShows;
    if n > 0 {
      FileRowsCome(c, files, file, mailbox, n - 1);
      var block := file.blocks[n - 1];
      RowShowsRecord(file, block, mailbox);
      assert block in file.blocks;
      assert RowFrom(RowMetadata(file, block, mailbox), files, block.uid);
    }
  }

  lemma RowFromMore(row: Metadata, files: seq<FileRecord>, more: seq<FileRecord>, u: nat)
    requires RowFrom(row, files, u) && forall file :: file in files ==> file in more
    ensures RowFrom(row, more, u)
  {
    hide RowShows;
  }

  /** Every row comes from a block of a listed file, and every such block has a row. */
  lemma {:induction false} RowsCome(files: seq<FileRecord>, mailbox: string)
    ensures forall u: nat :: u in CachedRows(files, mailbox) ==> RowFrom(CachedRows(files, mailbox)[u], files, u)
    ensures forall file, block :: file in files && block in file.blocks ==> block.uid in CachedRows(files, mailbox)
  {
    hide FileRows, RowFrom;
    if files != [] {
      var init, last := files[..|files| - 1], files[|files| - 1];
      var c := CachedRows(init, mailbox);
      RowsCome(init, mailbox);
      assert files == init + [last];
      forall u: nat | u in c
        ensures RowFrom(c[u], files, u)
      {
        RowFromMore(c[u], init, files, u);
      }
      FileRowsCome(c, files, last, mailbox, |last.blocks|);
      forall file, block | file in files && block in file.blocks
        ensures block.uid in CachedRows(files, mailbox)
      {
        if file == last {
          var i :| 0 <= i < |last.blocks| && last.blocks[i] == block;
        } else {
          assert file in init;
        }
      }
    }
  }

  /** A record has exactly the blocks of its entry. */
  lemma RecordBlocks(name: FileName, e: Entry, block: BlockRecord)
    ensures block in RecordOf(name, e).blocks <==>
            block.number in e.blocks && e.blocks[block.number] == BlockRow(block.uid, block.md5, block.size)
  {
    var numbers, blocks := Sorted(e.blocks.Keys), RecordOf(name, e).blocks;
    assert |blocks| == |numbers|;
    assert forall i :: 0 <= i < |numbers| ==> numbers[i] in e.blocks.Keys && blocks[i].number == numbers[i];
    if block.number in e.blocks && e.blocks[block.number] == BlockRow(block.uid, block.md5, block.size) {
      assert block.number in numbers;
      var i :| 0 <= i < |numbers| && numbers[i] == block.number;
      assert blocks[i] == block;
    }
  }

  /** The row of a message has its own path and block, and count, hash and size of the message of the
      file that was stored last. */
  ghost predicate RowOfMessage(row: Metadata, s: Messages, order: seq<nat>, mailbox: string, u: nat) {
    var last := if u in s then LastUnder(s, order, mailbox, s[u].localPath) else None;
    && last.Some? && last.value in s
    && row.localPath == s[u].localPath && row.blockSeq == s[u].blockSeq
    && row.blockMd5 == s[u].blockMd5 && row.blockSize == s[u].blockSize
    && row.fileMd5 == s[last.value].fileMd5 && row.fileSize == s[last.value].fileSize
    && row.blockCount == s[last.value].blockCount
  }

  ghost predicate NoneFiled(index: Index, mailbox: string) { forall name :: name in index ==> name.mailFolder != mailbox }

  /** In an index that the service filled, the rows are those of the messages stored last of their
      block, whatever was stored in between. */
  lemma CachedRowsAre(before: Index, s: Messages, order: seq<nat>, files: seq<FileRecord>, mailbox: string)
    requires NoneFiled(before, mailbox) && Lists(files, CacheAll(before, s, order), mailbox)
    ensures forall u: nat :: u in CachedRows(files, mailbox) <==> StoredLast(s, order, mailbox, u)
    ensures forall u: nat :: u in CachedRows(files, mailbox) ==>
              RowOfMessage(CachedRows(files, mailbox)[u], s, order, mailbox, u)
  {
    hide CacheAll, CachedRows, RecordOf, LastUnder, LastOf;
    var index, rows := CacheAll(before, s, order), CachedRows(files, mailbox);
    RowsCome(files, mailbox);
    forall u: nat | u in rows
      ensures StoredLast(s, order, mailbox, u) && RowOfMessage(rows[u], s, order, mailbox, u)
    {
      RowIsOfMessage(before, s, order, files, mailbox, u, rows[u]);
    }
    forall u: nat | StoredLast(s, order, mailbox, u)
      ensures u in rows
    {
      var file, block := BlockIsListed(before, s, order, files, mailbox, u);
    }
  }

  lemma RowIsOfMessage(before: Index, s: Messages, order: seq<nat>, files: seq<FileRecord>, mailbox: string, u: nat, row: Metadata)
    requires NoneFiled(before, mailbox) && Lists(files, CacheAll(before, s, order), mailbox) && RowFrom(row, files, u)
    ensures StoredLast(s, order, mailbox, u) && RowOfMessage(row, s, order, mailbox, u)
  {
    hide CacheAll, CachedRows, LastUnder, LastOf;
    var index := CacheAll(before, s, order);
    var file, block :| file in files && block in file.blocks && block.uid == u && RowShows(row, file, block);
    assert ListedBut(file, index, mailbox, {});
    var name :| name in index && name.mailFolder == mailbox && file == RecordOf(name, index[name]);
    RecordBlocks(name, index[name], block);
    EntriesOf(before, s, order, mailbox, name.localPath);
    assert name == FileName(mailbox, name.localPath);
    assert BlockOf(index, s, name, block.number, LastOf(s, order, mailbox, name.localPath, block.number));
    LastOfIs(s, order, mailbox, name.localPath, block.number);
  }

  lemma BlockIsListed(before: Index, s: Messages, order: seq<nat>, files: seq<FileRecord>, mailbox: string, u: nat)
      returns (file: FileRecord, block: BlockRecord)
    requires NoneFiled(before, mailbox) && Lists(files, CacheAll(before, s, order), mailbox) && StoredLast(s, order, mailbox, u)
    ensures file in files && block in file.blocks && block.uid == u
  {
    hide CacheAll, LastUnder, LastOf;
    var index, name := CacheAll(before, s, order), FileName(mailbox, s[u].localPath);
    EntriesOf(before, s, order, mailbox, s[u].localPath);
    assert BlockOf(index, s, name, s[u].blockSeq, LastOf(s, order, mailbox, s[u].localPath, s[u].blockSeq));
    file, block := RecordOf(name, index[name]), BlockRecord(s[u].blockSeq, u, s[u].blockMd5, s[u].blockSize);
    assert ListedBut(file, index, mailbox, {});
    RecordBlocks(name, index[name], block);
  }

  // ---------------------------------------------------------------------------------------
  // When the index agrees

  /** Of the path, the messages stored last of their block belong to the version of the message stored last. */
  ghost predicate LastsAgree(s: Messages, order: seq<nat>, mailbox: string, path: string) {
    forall u: nat :: StoredLast(s, order, mailbox, u) && s[u].localPath == path ==>
      SameVersion(s, u, LastUnder(s, order, mailbox, path))
  }

  ghost predicate SameVersion(s: Messages, u: nat, last: Option<nat>) {
    && u in s && last.Some? && last.value in s
    && s[u].fileMd5 == s[last.value].fileMd5 && s[u].fileSize == s[last.value].fileSize
    && s[u].blockCount == s[last.value].blockCount
  }

  /** An index that the service filled agrees with the server about a path exactly when the messages
      stored last of their block all belong to one version. */
  lemma CachedAgreesIff(before: Index, server: Readings, order: seq<nat>, files: seq<FileRecord>, mailbox: string, path: string)
    requires NoneFiled(before, mailbox) && Lists(files, CacheAll(before, Usable(server, mailbox), order), mailbox)
    ensures AgreesOn(files, server, mailbox, path) <==> LastsAgree(Usable(server, mailbox), order, mailbox, path)
  {
    hide CachedRows, Usable, CacheAll, Lists, NoneFiled, LastUnder, StoredLast;
    var s, rows := Usable(server, mailbox), CachedRows(files, mailbox);
    CachedRowsAre(before, s, order, files, mailbox);
    forall u: nat | u in rows && s[u].localPath == path
      ensures Alike(rows[u], s[u]) <==> SameVersion(s, u, LastUnder(s, order, mailbox, path))
    {
      assert RowOfMessage(rows[u], s, order, mailbox, u);
    }
    forall u: nat | u in rows
      ensures rows[u].localPath == s[u].localPath
    {
      assert RowOfMessage(rows[u], s, order, mailbox, u);
    }
  }

  /** All messages of the file belong to one version, however often a block was sent. */
  ghost predicate OneUpload(s: Messages, mailbox: string, path: string, v: VersionKey) {
    forall u: nat :: Under(s, u, mailbox, path) ==>
      s[u].fileMd5 == v.md5 && s[u].fileSize == v.size && s[u].blockCount == v.count
  }

  lemma OneUploadAgrees(s: Messages, order: seq<nat>, mailbox: string, path: string, v: VersionKey)
    requires OneUpload(s, mailbox, path, v)
    ensures LastsAgree(s, order, mailbox, path)
  {
    hide LastUnder, LastOf;
    LastUnderIs(s, order, mailbox, path);
    forall u: nat | StoredLast(s, order, mailbox, u) && s[u].localPath == path
      ensures SameVersion(s, u, LastUnder(s, order, mailbox, path))
    {
      LastOfIs(s, order, mailbox, path, s[u].blockSeq);
    }
  }

  /** The rows of a file of one version say of each message just what the message says. */
  lemma RowsOfOneUpload(before: Index, s: Messages, order: seq<nat>, files: seq<FileRecord>, mailbox: string, path: string, v: VersionKey)
    requires NoneFiled(before, mailbox) && Lists(files, CacheAll(before, s, order), mailbox) && OneUpload(s, mailbox, path, v)
    ensures forall u: nat :: u in CachedRows(files, mailbox) && OnPath(s, u, path) ==>
              var row := CachedRows(files, mailbox)[u];
              && row.localPath == path && row.fileMd5 == s[u].fileMd5 && row.blockMd5 == s[u].blockMd5
              && row.fileSize == s[u].fileSize && row.blockSize == s[u].blockSize
              && row.blockSeq == s[u].blockSeq && row.blockCount == s[u].blockCount
  {
    hide CachedRows, CacheAll, Lists, NoneFiled, LastUnder, LastOf;
    CachedRowsAre(before, s, order, files, mailbox);
    LastUnderIs(s, order, mailbox, path);
    forall u: nat | u in CachedRows(files, mailbox) && OnPath(s, u, path)
      ensures RowOfMessage(CachedRows(files, mailbox)[u], s, order, mailbox, u) && s[u].mailFolder == mailbox
    {
      assert StoredLast(s, order, mailbox, u);
    }
  }

  /** Filling the index and deduplicating then loses no complete copy of a path whose messages stored
      last are of one version, as those of a path that was uploaded in one version always are. */
  lemma CompleteCopyStaysCached(before: Index, server: Readings, order: seq<nat>, files: seq<FileRecord>, mailbox: string,
                                prefix: string, path: string, w: VersionKey) returns (v: VersionKey)
    requires NoneFiled(before, mailbox) && Lists(files, CacheAll(before, Usable(server, mailbox), order), mailbox)
    requires LastsAgree(Usable(server, mailbox), order, mailbox, path) || exists x :: OneUpload(Usable(server, mailbox), mailbox, path, x)
    requires Exact(OnServer(server, mailbox, prefix), path, w)
    ensures NotOlder(OnServer(server, mailbox, prefix), path, v, w)
    ensures Exact(Left(files, server, mailbox, prefix), path, v)
    ensures OneVersionOnPath(Left(files, server, mailbox, prefix), path, v)
  {
    hide CacheAll, Usable, Lists, LastsAgree, Exact, OnServer, Left, NotOlder, AgreesOn, OneUpload, NoneFiled, OneVersionOnPath;
    var s := Usable(server, mailbox);
    if x :| OneUpload(s, mailbox, path, x) { OneUploadAgrees(s, order, mailbox, path, x); }
    CachedAgreesIff(before, server, order, files, mailbox, path);
    v := CompleteCopyStaysOnServer(files, server, mailbox, prefix, path, w);
  }

  // ---------------------------------------------------------------------------------------
  // Several versions of a path, stored in the order of their uids

  /** The most recent message of the path. */
  ghost predicate IsTop(s: Messages, top: nat, path: string) {
    OnPath(s, top, path) && forall w: nat :: OnPath(s, w, path) ==> w <= top
  }

  /** The most recent message of its block on the path, of whatever version. */
  ghost predicate IsNewestOfBlock(s: Messages, u: nat, path: string) {
    OnPath(s, u, path) && forall w: nat :: OnPath(s, w, path) && s[w].blockSeq == s[u].blockSeq ==> w <= u
  }

  /** What a run sees of the path: the newest messages of the blocks under the version of the most
      recent message, all others as they are. */
  ghost predicate Mixes(s: Messages, r: Messages, path: string, top: nat) {
    && IsTop(s, top, path)
    && forall u: nat :: (OnPath(s, u, path) <==> OnPath(r, u, path)) && (OnPath(s, u, path) ==> MixesOne(s, r, u, path, top))
  }

  ghost predicate MixesOne(s: Messages, r: Messages, u: nat, path: string, top: nat) {
    && u in s && u in r && top in s && r[u].blockSeq == s[u].blockSeq
    && KeyOf(r[u]) == if IsNewestOfBlock(s, u, path) then KeyOf(s[top]) else KeyOf(s[u])
  }

  ghost predicate HasNewest(s: Messages, path: string, x: VersionKey, n: int) {
    exists u: nat :: IsNewestOfBlock(s, u, path) && s[u].blockSeq == n && KeyOf(s[u]) == x
  }

  /** The newest messages of the blocks 1..count are all of this version. */
  ghost predicate NewestFull(s: Messages, path: string, x: VersionKey) {
    x.count > 0 && forall n :: 1 <= n <= x.count ==> HasNewest(s, path, x, n)
  }

  ghost predicate HasNumber(s: Messages, path: string, n: int) { exists u: nat :: OnPath(s, u, path) && s[u].blockSeq == n }

  /** The path has the block numbers 1..count, whatever the version, and no others. */
  ghost predicate NumbersAre(s: Messages, path: string, count: int) {
    count > 0 && forall n :: HasNumber(s, path, n) <==> 1 <= n <= count
  }

  ghost predicate HasOlder(s: Messages, path: string, x: VersionKey, n: int) {
    exists u: nat :: IsBlock(s, u, path, x, n) && !IsNewestOfBlock(s, u, path)
  }

  /** Without the newest message of each block, the version still has just its blocks 1..count. */
  ghost predicate OlderExact(s: Messages, path: string, x: VersionKey) {
    x.count > 0 && forall n :: HasOlder(s, path, x, n) <==> 1 <= n <= x.count
  }

  /** A version other than the most recent one is complete without the newest messages, and the
      newest messages together do not pass for a complete version. */
  ghost predicate OlderWins(s: Messages, path: string, top: nat) {
    top in s && !NumbersAre(s, path, s[top].blockCount) && exists x :: x != KeyOf(s[top]) && OlderExact(s, path, x)
  }

  lemma NewestExistsOf(s: Messages, path: string, n: int) returns (u: nat)
    requires HasNumber(s, path, n)
    ensures IsNewestOfBlock(s, u, path) && s[u].blockSeq == n
  {
    var all := set w | w in s && OnPath(s, w, path) && s[w].blockSeq == n;
    var any: nat :| OnPath(s, any, path) && s[any].blockSeq == n;
    assert any in all;
    u := Largest(all);
    assert forall w: nat :: OnPath(s, w, path) && s[w].blockSeq == n ==> w in all;
  }

  /** The newest messages together pass the completeness test when the path has the numbers 1..count. */
  lemma MixedExact(s: Messages, r: Messages, path: string, top: nat)
    requires Mixes(s, r, path, top) && 0 !in s
    ensures Exact(r, path, KeyOf(s[top])) <==> NumbersAre(s, path, s[top].blockCount)
  {
    var v := KeyOf(s[top]);
    forall n
      ensures HasBlock(r, path, v, n) <==> HasNumber(s, path, n)
    {
      if HasNumber(s, path, n) {
        var u := NewestExistsOf(s, path, n);
        assert MixesOne(s, r, u, path, top);
        assert IsBlock(r, u, path, v, n);
      }
      if u: nat :| u != 0 && IsBlock(r, u, path, v, n) {
        assert OnPath(s, u, path) && MixesOne(s, r, u, path, top);
      }
    }
    if NumbersAre(s, path, s[top].blockCount) {
      forall u: nat | InVersion(r, u, path, v)
        ensures 1 <= r[u].blockSeq <= v.count
      {
        assert OnPath(s, u, path) && MixesOne(s, r, u, path, top);
        assert HasNumber(s, path, r[u].blockSeq);
      }
    }
    if Exact(r, path, v) {
      forall n | HasNumber(s, path, n)
        ensures 1 <= n <= v.count
      {
        assert HasBlock(r, path, v, n);
        var u: nat :| u != 0 && IsBlock(r, u, path, v, n);
        assert InVersion(r, u, path, v);
      }
      forall n | 1 <= n <= v.count
        ensures HasNumber(s, path, n)
      {
        assert HasBlock(r, path, v, n);
      }
    }
  }

  lemma MixedOlderExact(s: Messages, r: Messages, path: string, top: nat, x: VersionKey)
    requires Mixes(s, r, path, top) && 0 !in s && x != KeyOf(s[top])
    ensures Exact(r, path, x) <==> OlderExact(s, path, x)
  {
    forall u: nat, n
      ensures IsBlock(r, u, path, x, n) <==> IsBlock(s, u, path, x, n) && !IsNewestOfBlock(s, u, path)
    {
      if OnPath(s, u, path) { assert MixesOne(s, r, u, path, top); }
    }
    hide Mixes, IsNewestOfBlock;
    forall n
      ensures HasBlock(r, path, x, n) <==> HasOlder(s, path, x, n)
    {
      if u: nat :| u != 0 && IsBlock(r, u, path, x, n) { assert HasOlder(s, path, x, n); }
      if HasOlder(s, path, x, n) {
        var u: nat :| IsBlock(s, u, path, x, n) && !IsNewestOfBlock(s, u, path);
        assert u != 0 && IsBlock(r, u, path, x, n);
      }
    }
    if Exact(r, path, x) {
      forall n | HasOlder(s, path, x, n)
        ensures 1 <= n <= x.count
      {
        assert HasBlock(r, path, x, n);
        var u: nat :| u != 0 && IsBlock(r, u, path, x, n);
        assert InVersion(r, u, path, x);
      }
    }
    if OlderExact(s, path, x) {
      forall u: nat | InVersion(r, u, path, x)
        ensures 1 <= r[u].blockSeq <= x.count
      {
        assert IsBlock(r, u, path, x, r[u].blockSeq);
        assert HasOlder(s, path, x, r[u].blockSeq);
      }
    }
  }

  /** The run keeps the newest messages unless an older version wins. */
  lemma MixedChoice(s: Messages, r: Messages, path: string, top: nat)
    requires Mixes(s, r, path, top) && 0 !in s && !OlderWins(s, path, top)
    ensures Chosen(r, path, KeyOf(s[top]))
  {
    var v := KeyOf(s[top]);
    assert OnPath(s, top, path) && MixesOne(s, r, top, path, top) && IsNewestOfBlock(s, top, path);
    assert InVersion(r, top, path, v);
    assert forall u: nat, x :: InVersion(r, u, path, x) ==> OnPath(s, u, path);
    assert Newest(r, top, path, v);
    MixedExact(s, r, path, top);
    forall x | Present(r, path, x)
      ensures (Exact(r, path, x) ==> Exact(r, path, v)) && NotOlder(r, path, v, x)
    {
      if x != v { MixedOlderExact(s, r, path, top, x); }
    }
  }

  lemma MixedKeepsNewest(s: Messages, r: Messages, path: string, top: nat, x: VersionKey)
    requires Mixes(s, r, path, top) && 0 !in s && !OlderWins(s, path, top)
    ensures SparedInFull(s, r, path, x) <==> NewestFull(s, path, x)
  {
    var v := KeyOf(s[top]);
    MixedChoice(s, r, path, top);
    forall u: nat | OnPath(s, u, path)
      ensures Spared(r, u) <==> IsNewestOfBlock(s, u, path)
    {
      MixedSpares(s, r, path, top, u);
    }
    hide Mixes, Spared, IsNewestOfBlock, OlderWins;
    forall n
      ensures SparedBlock(s, r, path, x, n) <==> HasNewest(s, path, x, n)
    {
      if u: nat :| u != 0 && IsBlock(s, u, path, x, n) && Spared(r, u) {
        assert OnPath(s, u, path);
        assert HasNewest(s, path, x, n);
      }
      if HasNewest(s, path, x, n) {
        var u: nat :| IsNewestOfBlock(s, u, path) && s[u].blockSeq == n && KeyOf(s[u]) == x;
        NewestOnPath(s, u, path);
        assert u != 0 && IsBlock(s, u, path, x, n) && Spared(r, u);
      }
    }
  }

  lemma NewestOnPath(s: Messages, u: nat, path: string)
    requires IsNewestOfBlock(s, u, path)
    ensures OnPath(s, u, path)
  {
  }

  lemma MixedSpares(s: Messages, r: Messages, path: string, top: nat, u: nat)
    requires Mixes(s, r, path, top) && OnPath(s, u, path) && Chosen(r, path, KeyOf(s[top]))
    ensures Spared(r, u) <==> IsNewestOfBlock(s, u, path)
  {
    var v, n := KeyOf(s[top]), s[u].blockSeq;
    assert MixesOne(s, r, u, path, top) && OnPath(r, u, path);
    forall w: nat | IsBlock(r, w, path, v, n)
      ensures OnPath(s, w, path) && s[w].blockSeq == n
    {
      assert MixesOne(s, r, w, path, top);
    }
    if Spared(r, u) {
      ChosenUnique(r, path, v, KeyOf(r[u]));
      assert HasNumber(s, path, n);
      var best := NewestExistsOf(s, path, n);
      assert MixesOne(s, r, best, path, top) && IsBlock(r, best, path, v, n);
    }
    if IsNewestOfBlock(s, u, path) {
      assert IsBest(r, u, path, v, n);
    }
  }

  /** An older version that wins stays in full. */
  lemma OlderStays(s: Messages, r: Messages, path: string, top: nat) returns (x: VersionKey)
    requires Mixes(s, r, path, top) && 0 !in s && OlderWins(s, path, top)
    ensures SparedInFull(s, r, path, x)
  {
    var v := KeyOf(s[top]);
    var w :| w != v && OlderExact(s, path, w);
    MixedExact(s, r, path, top);
    MixedOlderExact(s, r, path, top, w);
    assert OnPath(s, top, path) && OnPath(r, top, path);
    x := ChosenExists(r, path, top);
    assert HasBlock(r, path, w, 1);
    var any: nat :| any != 0 && IsBlock(r, any, path, w, 1);
    assert InVersion(r, any, path, w) && Present(r, path, w);
    assert Exact(r, path, x) && x != v;
    forall n | 1 <= n <= x.count
      ensures SparedBlock(s, r, path, x, n)
    {
      OlderIsSpared(s, r, path, top, x, n);
    }
  }

  lemma OlderIsSpared(s: Messages, r: Messages, path: string, top: nat, x: VersionKey, n: int)
    requires Mixes(s, r, path, top) && Chosen(r, path, x) && x != KeyOf(s[top]) && HasBlock(r, path, x, n)
    ensures SparedBlock(s, r, path, x, n)
  {
    var u: nat :| u != 0 && IsBlock(r, u, path, x, n);
    var best := BestExists(r, path, x, n, u);
    assert OnPath(r, best, path) && OnPath(s, best, path) && MixesOne(s, r, best, path, top);
    assert Spared(r, best) && IsBlock(s, best, path, x, n);
  }

  lemma MixedIff(s: Messages, r: Messages, path: string, top: nat)
    requires Mixes(s, r, path, top) && 0 !in s
    ensures (exists x :: SparedInFull(s, r, path, x)) <==> (OlderWins(s, path, top) || exists x :: NewestFull(s, path, x))
  {
    hide Mixes, SparedInFull, NewestFull, OlderWins;
    if OlderWins(s, path, top) {
      var x := OlderStays(s, r, path, top);
    } else {
      forall x
        ensures SparedInFull(s, r, path, x) <==> NewestFull(s, path, x)
      {
        MixedKeepsNewest(s, r, path, top, x);
      }
    }
  }

  predicate Rising(order: seq<nat>) { forall i, j :: 0 <= i < j < |order| ==> order[i] < order[j] }

  lemma {:induction false} LastIsTop(s: Messages, order: seq<nat>, mailbox: string, path: string)
    requires Rising(order)
    ensures var last := LastUnder(s, order, mailbox, path);
            last.Some? ==> forall w: nat :: w in order && Under(s, w, mailbox, path) ==> w <= last.value
  {
    if order != [] {
      LastIsTop(s, order[..|order| - 1], mailbox, path);
      assert order == order[..|order| - 1] + [order[|order| - 1]];
    }
  }

  lemma {:induction false} LastIsNewest(s: Messages, order: seq<nat>, mailbox: string, path: string, n: int)
    requires Rising(order)
    ensures var last := LastOf(s, order, mailbox, path, n);
            last.Some? ==> forall w: nat :: w in order && Under(s, w, mailbox, path) && s[w].blockSeq == n ==> w <= last.value
  {
    if order != [] {
      LastIsNewest(s, order[..|order| - 1], mailbox, path, n);
      assert order == order[..|order| - 1] + [order[|order| - 1]];
    }
  }

  /** All messages of the path name the mailbox as their folder and are stored, by ascending uid. */
  ghost predicate StoredInOrder(s: Messages, order: seq<nat>, mailbox: string, path: string) {
    Rising(order) && forall u: nat :: OnPath(s, u, path) ==> u in order && s[u].mailFolder == mailbox
  }

  lemma StoredLastIsNewest(s: Messages, order: seq<nat>, mailbox: string, path: string, u: nat)
    requires StoredInOrder(s, order, mailbox, path) && OnPath(s, u, path)
    ensures StoredLast(s, order, mailbox, u) <==> IsNewestOfBlock(s, u, path)
  {
    hide LastOf;
    LastOfIs(s, order, mailbox, path, s[u].blockSeq);
    LastIsNewest(s, order, mailbox, path, s[u].blockSeq);
  }

  lemma LastUnderIsTop(s: Messages, order: seq<nat>, mailbox: string, path: string, top: nat)
    requires StoredInOrder(s, order, mailbox, path) && IsTop(s, top, path)
    ensures LastUnder(s, order, mailbox, path) == Some(top)
  {
    hide LastUnder;
    LastUnderIs(s, order, mailbox, path);
    LastIsTop(s, order, mailbox, path);
    assert top in order && Under(s, top, mailbox, path);
    assert OnPath(s, LastUnder(s, order, mailbox, path).value, path);
  }

  /** A message of the path as a run sees it after filling the index. */
  lemma SeesMixed(before: Index, server: Readings, order: seq<nat>, files: seq<FileRecord>, mailbox: string, prefix: string,
                  path: string, top: nat, u: nat)
    requires NoneFiled(before, mailbox) && Lists(files, CacheAll(before, Usable(server, mailbox), order), mailbox)
    requires StoredInOrder(Usable(server, mailbox), order, mailbox, path) && PathMatchesPrefix(path, prefix)
    requires IsTop(Usable(server, mailbox), top, path)
    ensures var s, seen := Usable(server, mailbox), Seen(files, server, mailbox, prefix);
            (OnPath(s, u, path) <==> OnPath(seen, u, path)) && (OnPath(s, u, path) ==> MixesOne(s, seen, u, path, top))
  {
    var s, rows := Usable(server, mailbox), CachedRows(files, mailbox);
    CachedRowsAre(before, s, order, files, mailbox);
    RowsHaveSubjects(files, mailbox);
    UsableCacheable(server, mailbox);
    LastUnderIsTop(s, order, mailbox, path, top);
    hide CachedRows, Usable, CacheAll, Lists, NoneFiled, StoredInOrder, IsTop, LastUnder, StoredLast, PathMatchesPrefix, IsNewestOfBlock;
    if OnPath(s, u, path) { StoredLastIsNewest(s, order, mailbox, path, u); }
    if u in rows { assert RowOfMessage(rows[u], s, order, mailbox, u); }
  }

  lemma SeenMixes(before: Index, server: Readings, order: seq<nat>, files: seq<FileRecord>, mailbox: string, prefix: string,
                  path: string, top: nat)
    requires NoneFiled(before, mailbox) && Lists(files, CacheAll(before, Usable(server, mailbox), order), mailbox)
    requires StoredInOrder(Usable(server, mailbox), order, mailbox, path) && PathMatchesPrefix(path, prefix)
    requires IsTop(Usable(server, mailbox), top, path)
    ensures Mixes(Usable(server, mailbox), Seen(files, server, mailbox, prefix), path, top)
  {
    var s, seen := Usable(server, mailbox), Seen(files, server, mailbox, prefix);
    hide Usable, Seen, CacheAll, Lists, NoneFiled, StoredInOrder, PathMatchesPrefix, MixesOne, IsTop;
    forall u: nat
      ensures (OnPath(s, u, path) <==> OnPath(seen, u, path)) && (OnPath(s, u, path) ==> MixesOne(s, seen, u, path, top))
    {
      SeesMixed(before, server, order, files, mailbox, prefix, path, top, u);
    }
  }

  /** Filling the index in the order of the uids and deduplicating leaves a full copy of a path exactly
      when the newest messages of the blocks of some version are all its own, or an older version is
      complete without them and they do not pass for a complete version themselves. */
  lemma CachedThenDeduplicatedIff(before: Index, server: Readings, order: seq<nat>, files: seq<FileRecord>, mailbox: string,
                                  prefix: string, path: string, top: nat)
    requires NoneFiled(before, mailbox) && Lists(files, CacheAll(before, Usable(server, mailbox), order), mailbox)
    requires StoredInOrder(Usable(server, mailbox), order, mailbox, path) && PathMatchesPrefix(path, prefix)
    requires IsTop(Usable(server, mailbox), top, path) && 0 !in server
    ensures (exists v :: Full(Left(files, server, mailbox, prefix), path, v)) <==>
            (OlderWins(Usable(server, mailbox), path, top) || exists x :: NewestFull(Usable(server, mailbox), path, x))
  {
    hide *;
    var s, seen := Usable(server, mailbox), Seen(files, server, mailbox, prefix);
    assert 0 !in s by { UsableOnServer(server, mailbox); }
    SeenMixes(before, server, order, files, mailbox, prefix, path, top);
    MixedIff(s, seen, path, top);
    FullCopyLeftIff(files, server, mailbox, prefix, path);
    PathOnServer(server, mailbox, prefix, path);
    forall v
      ensures SparedInFull(s, seen, path, v) <==> SparedInFull(OnServer(server, mailbox, prefix), seen, path, v)
    {
      SparedOnPath(s, OnServer(server, mailbox, prefix), seen, path, v);
    }
  }

  lemma SparedOnPath(s: Messages, t: Messages, seen: Messages, path: string, v: VersionKey)
    requires forall u: nat :: (OnPath(t, u, path) <==> OnPath(s, u, path)) && (OnPath(t, u, path) ==> t[u] == s[u])
    ensures SparedInFull(s, seen, path, v) <==> SparedInFull(t, seen, path, v)
  {
    hide Spared;
    forall n
      ensures SparedBlock(s, seen, path, v, n) <==> SparedBlock(t, seen, path, v, n)
    {
      forall u: nat
        ensures IsBlock(s, u, path, v, n) <==> IsBlock(t, u, path, v, n)
      {
        assert OnPath(t, u, path) <==> OnPath(s, u, path);
      }
    }
  }

  // ---------------------------------------------------------------------------------------
  // A changed file whose second upload broke off, by example

  /** A file of two blocks is on the server in full; of its changed version only block 1 arrived. */
  function BrokenOff(): Readings {
    var first := Metadata("f/plain/1-2", "aa", "b1", 15, 10, "", "", "f", "box", 1, 2, false);
    map[1 := Some(first),
        2 := Some(first.(subject := "f/plain/2-2", blockMd5 := "b2", blockSize := 5, blockSeq := 2)),
        3 := Some(first.(fileMd5 := "cc", blockMd5 := "b3"))]
  }

  /** Filling the index and deduplicating then deletes block 1 of the only full copy. */
  lemma CachingLosesCopy(files: seq<FileRecord>)
    requires Lists(files, CacheAll(map[], Usable(BrokenOff(), "box"), [1, 2, 3]), "box")
    ensures Exact(OnServer(BrokenOff(), "box", []), "f", VersionKey("aa", 15, 2))
    ensures !exists v :: Full(Left(files, BrokenOff(), "box", []), "f", v)
  {
    var s, there := Usable(BrokenOff(), "box"), OnServer(BrokenOff(), "box", []);
    assert NormalizePath([]) == [];
    BrokenOffIs();
    assert s.Keys == {1, 2, 3};
    PathOnServer(BrokenOff(), "box", [], "f");
    hide Usable, OnServer, CacheAll, Lists, BrokenOff, Left;
    BrokenOffExact(s);
    SameOnPath(s, there, "f");
    AlikeExact(s, there, "f", VersionKey("aa", 15, 2));
    BrokenOffMixed(s);
    CachedThenDeduplicatedIff(map[], BrokenOff(), [1, 2, 3], files, "box", [], "f", 3);
  }

  ghost predicate IsBrokenOff(s: Messages) {
    && s.Keys == {1, 2, 3}
    && (forall u: nat :: u in s ==> s[u].localPath == "f" && s[u].mailFolder == "box")
    && s[1].blockSeq == 1 && s[2].blockSeq == 2 && s[3].blockSeq == 1
    && KeyOf(s[1]) == KeyOf(s[2]) == VersionKey("aa", 15, 2) && KeyOf(s[3]) == VersionKey("cc", 15, 2)
  }

  lemma BrokenOffIs()
    ensures IsBrokenOff(Usable(BrokenOff(), "box")) && 0 !in BrokenOff()
  {
    assert Usable(BrokenOff(), "box").Keys == {1, 2, 3};
  }

  lemma BrokenOffExact(s: Messages)
    requires IsBrokenOff(s)
    ensures Exact(s, "f", VersionKey("aa", 15, 2))
  {
    var a := VersionKey("aa", 15, 2);
    assert IsBlock(s, 1, "f", a, 1) && IsBlock(s, 2, "f", a, 2);
    assert HasBlock(s, "f", a, 1) && HasBlock(s, "f", a, 2);
    assert forall u: nat :: InVersion(s, u, "f", a) ==> u in s.Keys;
  }

  lemma BrokenOffStored(s: Messages)
    requires IsBrokenOff(s)
    ensures StoredInOrder(s, [1, 2, 3], "box", "f") && IsTop(s, 3, "f")
  {
    assert forall u: nat :: OnPath(s, u, "f") ==> u in s.Keys;
    assert OnPath(s, 3, "f");
  }

  /** The newest messages pass for a complete version. */
  lemma BrokenOffPasses(s: Messages)
    requires IsBrokenOff(s)
    ensures NumbersAre(s, "f", 2)
  {
    assert forall u: nat :: OnPath(s, u, "f") ==> u in s.Keys;
    assert OnPath(s, 1, "f") && OnPath(s, 2, "f");
    assert HasNumber(s, "f", 1) && HasNumber(s, "f", 2);
  }

  /** But they are of different versions. */
  lemma BrokenOffDiffers(s: Messages, x: VersionKey)
    requires IsBrokenOff(s)
    ensures !NewestFull(s, "f", x)
  {
    assert "aa"[0] != "cc"[0];
    assert OnPath(s, 1, "f") && OnPath(s, 2, "f") && OnPath(s, 3, "f");
    assert forall u: nat :: OnPath(s, u, "f") ==> u in s.Keys;
    assert HasNewest(s, "f", x, 1) ==> x == KeyOf(s[3]);
    assert HasNewest(s, "f", x, 2) ==> x == KeyOf(s[2]);
    if x.count > 0 && HasNewest(s, "f", x, 1) {
      assert x.count == 2 && !HasNewest(s, "f", x, 2);
    }
  }

  lemma BrokenOffMixed(s: Messages)
    requires IsBrokenOff(s)
    ensures StoredInOrder(s, [1, 2, 3], "box", "f") && IsTop(s, 3, "f")
    ensures !OlderWins(s, "f", 3) && !exists x :: NewestFull(s, "f", x)
  {
    hide StoredInOrder, IsTop, NumbersAre, NewestFull, OlderExact;
    BrokenOffStored(s);
    BrokenOffPasses(s);
    forall x
      ensures !NewestFull(s, "f", x)
    {
      BrokenOffDiffers(s, x);
    }
  }
}

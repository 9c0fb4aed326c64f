/** The cached index of the mailboxes: two tables, one row per file and one per block, and the
    index that they amount to. */
module Repository {
  import opened Basics
  import opened Records

  datatype FileName = FileName(mailFolder: string, localPath: string)
  datatype FileRow = FileRow(id: nat, blockCount: int, md5: string, size: nat)
  datatype BlockName = BlockName(fileId: nat, number: int)
  datatype BlockRow = BlockRow(uid: nat, md5: string, size: nat)

  /** What the tables say about one file. */
  datatype Entry = Entry(blockCount: int, md5: string, size: nat, blocks: map<int, BlockRow>)

  type Index = map<FileName, Entry>

  // ---------------------------------------------------------------------------------------
  // What each statement does to the index

  function NameOf(m: Metadata): FileName { FileName(m.mailFolder, m.localPath) }

  function RowOf(uid: nat, m: Metadata): BlockRow { BlockRow(uid, m.blockMd5, m.blockSize) }

  function BlocksOf(index: Index, name: FileName): map<int, BlockRow> {
    if name in index then index[name].blocks else map[]
  }

  /** The file takes over count, hash and size of the block just stored, and keeps its others. */
  function Upserted(index: Index, uid: nat, m: Metadata): Index {
    index[NameOf(m) := Entry(m.blockCount, m.fileMd5, m.fileSize,
                             BlocksOf(index, NameOf(m))[m.blockSeq := RowOf(uid, m)])]
  }

  predicate Mentions(e: Entry, uid: nat) { exists n :: n in e.blocks && e.blocks[n].uid == uid }

  /** Every file of the mailbox with a block of that uid goes, whole. */
  function Removed(index: Index, mailbox: string, uid: nat): Index {
    map name | name in index && !(name.mailFolder == mailbox && Mentions(index[name], uid)) :: index[name]
  }

  function Cleared(index: Index, mailbox: string): Index {
    map name | name in index && name.mailFolder != mailbox :: index[name]
  }

  ghost predicate IsCached(index: Index, mailbox: string, uid: nat) {
    exists name :: name in index && name.mailFolder == mailbox && Mentions(index[name], uid)
  }

  // ---------------------------------------------------------------------------------------
  // Records

  function Smallest(s: set<int>): (m: int)
    requires s != {}
    ensures m in s && forall x :: x in s ==> m <= x
  {
    SmallestExists(s);
    var m :| IsSmallest(s, m);
    m
  }

  predicate IsSmallest(s: set<int>, m: int) { m in s && forall x :: x in s ==> m <= x }

  lemma {:induction false} SmallestExists(s: set<int>)
    requires s != {}
    ensures exists m :: IsSmallest(s, m)
  {
    var any := AnElement(s);
    if s == {any} {
      assert IsSmallest(s, any);
    } else {
      var others := s - {any};
      SmallestExists(others);
      var m :| IsSmallest(others, m);
      hide Sorted, Smallest;
      var least := if m < any then m else any;
      forall x | x in s
        ensures least <= x
      {
        assert x == any || x in others;
      }
      assert IsSmallest(s, least);
    }
  }

  /** The elements in ascending order. */
  function Sorted(s: set<int>): (r: seq<int>)
    ensures |r| == |s| && forall x :: x in r <==> x in s
    decreases |s|
  {
    if s == {} then [] else [Smallest(s)] + Sorted(s - {Smallest(s)})
  }

  /** The file with its blocks in ascending order. */
  function RecordOf(name: FileName, e: Entry): FileRecord {
    var numbers := Sorted(e.blocks.Keys);
    FileRecord(name.mailFolder, name.localPath, e.blockCount, e.md5, e.size,
      seq(|numbers|, i requires 0 <= i < |numbers| =>
        BlockRecord(numbers[i], e.blocks[numbers[i]].uid, e.blocks[numbers[i]].md5, e.blocks[numbers[i]].size)))
  }

  lemma SortedNext(s: set<int>, low: int)
    requires low in s && forall x :: x in s ==> low <= x
    ensures |s| == |s - {low}| + 1 && Sorted(s) == [low] + Sorted(s - {low})
  {
    assert Smallest(s) == low;
  }

  /** Consecutive numbers are sorted into themselves. */
  lemma {:induction false} SortedRange(s: set<int>, low: int, n: nat)
    requires forall x :: x in s <==> low <= x < low + n
    ensures |s| == n && |Sorted(s)| == n
    ensures forall i :: 0 <= i < n ==> Sorted(s)[i] == low + i
    decreases n
  {
    hide Sorted;
    if s == {} {
      assert low !in s;
    } else {
      var any := AnElement(s);
      assert low <= any < low + n;
      var rest := s - {low};
      assert low in s && forall x :: x in rest <==> low + 1 <= x < low + 1 + (n - 1);
      SortedNext(s, low);
      SortedRange(rest, low + 1, n - 1);
      var sorted := [low] + Sorted(rest);
      forall i | 0 <= i < n
        ensures sorted[i] == low + i
      {
        if i > 0 { assert sorted[i] == Sorted(rest)[i - 1]; }
      }
    }
  }

  // ---------------------------------------------------------------------------------------
  // The tables

  ghost predicate TablesValid(files: map<FileName, FileRow>, blocks: map<BlockName, BlockRow>, nextId: nat) {
    && (forall f :: f in files ==> files[f].id < nextId)
    && (forall f, g :: f in files && g in files && files[f].id == files[g].id ==> f == g)
    && (forall b :: b in blocks ==> exists f :: f in files && files[f].id == b.fileId)
  }

  function BlocksOfFile(blocks: map<BlockName, BlockRow>, id: nat): map<int, BlockRow> {
    map b | b in blocks && b.fileId == id :: b.number := blocks[b]
  }

  /** The two tables, joined. */
  function Join(files: map<FileName, FileRow>, blocks: map<BlockName, BlockRow>): Index {
    map f | f in files :: Entry(files[f].blockCount, files[f].md5, files[f].size, BlocksOfFile(blocks, files[f].id))
  }

  class CacheRepository {
    var files: map<FileName, FileRow>
    var blocks: map<BlockName, BlockRow>
    var nextId: nat

    ghost predicate Valid()
      reads this
    {
      TablesValid(files, blocks, nextId)
    }

    function Contents(): Index
      reads this
    {
      Join(files, blocks)
    }

    constructor ()
      ensures Valid() && Contents() == map[]
    {
      files, blocks, nextId := map[], map[], 0;
    }

    method UpsertMailBlock(uid: nat, m: Metadata)
      requires Valid()
      modifies this
      ensures Valid() && Contents() == Upserted(old(Contents()), uid, m)
    {
      var name := NameOf(m);
      var id := nextId;
      if name in files {
        id := files[name].id;
      } else {
        nextId := nextId + 1;
      }
      files := files[name := FileRow(id, m.blockCount, m.fileMd5, m.fileSize)];
      blocks := blocks[BlockName(id, m.blockSeq) := RowOf(uid, m)];
      UpsertValid(old(files), old(blocks), old(nextId), uid, m);
      UpsertJoins(old(files), old(blocks), old(nextId), uid, m);
    }

    method RemoveMessageUid(mailbox: string, uid: nat)
      requires Valid()
      modifies this
      ensures Valid() && Contents() == Removed(old(Contents()), mailbox, uid)
    {
      var gone := set f | f in files && f.mailFolder == mailbox && Mentions(Join(files, blocks)[f], uid);
      DeleteValid(files, blocks, nextId, gone);
      DeleteJoins(files, blocks, nextId, gone);
      Delete(gone);
    }

    method ClearMailbox(mailbox: string)
      requires Valid()
      modifies this
      ensures Valid() && Contents() == Cleared(old(Contents()), mailbox)
    {
      var gone := set f | f in files && f.mailFolder == mailbox;
      DeleteValid(files, blocks, nextId, gone);
      DeleteJoins(files, blocks, nextId, gone);
      Delete(gone);
    }

    /** Rows of blocks go before the rows of their files. */
    method Delete(gone: set<FileName>)
      modifies this
      ensures blocks == WithoutFiles(old(files), old(blocks), gone)
      ensures files == old(files) - gone && nextId == old(nextId)
    {
      blocks := WithoutFiles(files, blocks, gone);
      files := files - gone;
    }

    method ListFiles(mailbox: string) returns (records: seq<FileRecord>)
      requires Valid()
      ensures Lists(records, Contents(), mailbox)
    {
      records := [];
      var todo := set f | f in files && f.mailFolder == mailbox;
      while todo != {}
        invariant todo <= files.Keys
        invariant forall f :: f in todo ==> f.mailFolder == mailbox
        invariant forall r :: r in records <==> ListedBut(r, Contents(), mailbox, todo)
      {
        var f := Pick(todo);
        todo := todo - {f};
        records := records + [RecordOf(f, Contents()[f])];
      }
    }

    method GetCachedUids(mailbox: string) returns (uids: set<nat>)
      requires Valid()
      ensures forall u: nat :: u in uids <==> IsCached(Contents(), mailbox, u)
    {
      uids := set f, b | f in files && f.mailFolder == mailbox && b in blocks && b.fileId == files[f].id :: blocks[b].uid;
      forall u: nat
        ensures u in uids <==> IsCached(Contents(), mailbox, u)
      {
        CachedInTables(files, blocks, mailbox, u);
      }
    }

    method FindFile(mailbox: string, localPath: string) returns (r: Option<FileRecord>)
      requires Valid()
      ensures r == Found(Contents(), mailbox, localPath)
    {
      var name := FileName(mailbox, localPath);
      if name !in files {
        return None;
      }
      r := Some(RecordOf(name, Contents()[name]));
    }
  }

  ghost predicate ListedBut(r: FileRecord, index: Index, mailbox: string, todo: set<FileName>) {
    exists f :: f in index && f.mailFolder == mailbox && f !in todo && r == RecordOf(f, index[f])
  }

  /** The records of the files of a mailbox, in some order. */
  ghost predicate Lists(records: seq<FileRecord>, index: Index, mailbox: string) {
    forall r :: r in records <==> ListedBut(r, index, mailbox, {})
  }

  lemma CachedInTables(files: map<FileName, FileRow>, blocks: map<BlockName, BlockRow>, mailbox: string, u: nat)
    ensures IsCached(Join(files, blocks), mailbox, u) <==>
            exists f, b :: f in files && f.mailFolder == mailbox && b in blocks && b.fileId == files[f].id && blocks[b].uid == u
  {
    var index := Join(files, blocks);
    if f, b :| f in files && f.mailFolder == mailbox && b in blocks && b.fileId == files[f].id && blocks[b].uid == u {
      BlockOfFile(blocks, files[f].id, b.number);
      assert b == BlockName(files[f].id, b.number);
      assert Mentions(index[f], u);
    }
    if f :| f in index && f.mailFolder == mailbox && Mentions(index[f], u) {
      var n :| n in index[f].blocks && index[f].blocks[n].uid == u;
      BlockOfFile(blocks, files[f].id, n);
      assert BlockName(files[f].id, n) in blocks;
    }
  }

  function Found(index: Index, mailbox: string, localPath: string): Option<FileRecord> {
    var name := FileName(mailbox, localPath);
    if name in index then Some(RecordOf(name, index[name])) else None
  }

  function WithoutFiles(files: map<FileName, FileRow>, blocks: map<BlockName, BlockRow>, gone: set<FileName>): map<BlockName, BlockRow> {
    var ids := set f | f in files && f in gone :: files[f].id;
    map b | b in blocks && b.fileId !in ids :: blocks[b]
  }

  function WithFile(files: map<FileName, FileRow>, id: nat, m: Metadata): map<FileName, FileRow> {
    files[NameOf(m) := FileRow(id, m.blockCount, m.fileMd5, m.fileSize)]
  }

  function WithBlock(blocks: map<BlockName, BlockRow>, id: nat, uid: nat, m: Metadata): map<BlockName, BlockRow> {
    blocks[BlockName(id, m.blockSeq) := RowOf(uid, m)]
  }

  function IdFor(files: map<FileName, FileRow>, nextId: nat, name: FileName): nat {
    if name in files then files[name].id else nextId
  }

  lemma UpsertValid(files: map<FileName, FileRow>, blocks: map<BlockName, BlockRow>, nextId: nat, uid: nat, m: Metadata)
    requires TablesValid(files, blocks, nextId)
    ensures var id := IdFor(files, nextId, NameOf(m));
            TablesValid(WithFile(files, id, m), WithBlock(blocks, id, uid, m), if NameOf(m) in files then nextId else nextId + 1)
  {
    var name := NameOf(m);
    var id := IdFor(files, nextId, name);
    var files', blocks' := WithFile(files, id, m), WithBlock(blocks, id, uid, m);
    assert forall f :: f in files ==> f in files' && files'[f].id == files[f].id;
    forall b | b in blocks'
      ensures exists f :: f in files' && files'[f].id == b.fileId
    {
      if b in blocks {
        var f :| f in files && files[f].id == b.fileId;
        assert f in files' && files'[f].id == b.fileId;
      } else {
        assert name in files' && files'[name].id == b.fileId;
      }
    }
  }

  /** The blocks of the file that is written to. */
  lemma UpsertBlocks(files: map<FileName, FileRow>, blocks: map<BlockName, BlockRow>, nextId: nat, uid: nat, m: Metadata)
    requires TablesValid(files, blocks, nextId)
    ensures var id := IdFor(files, nextId, NameOf(m));
            BlocksOfFile(WithBlock(blocks, id, uid, m), id) ==
            (if NameOf(m) in files then BlocksOfFile(blocks, id) else map[])[m.blockSeq := RowOf(uid, m)]
  {
    var id := IdFor(files, nextId, NameOf(m));
    if NameOf(m) !in files {
      assert forall b :: b in blocks ==> b.fileId != id;
      assert BlocksOfFile(blocks, id) == map[];
    }
    SetBlock(blocks, id, m.blockSeq, RowOf(uid, m));
  }

  lemma UpsertJoins(files: map<FileName, FileRow>, blocks: map<BlockName, BlockRow>, nextId: nat, uid: nat, m: Metadata)
    requires TablesValid(files, blocks, nextId)
    ensures var id := IdFor(files, nextId, NameOf(m));
            Join(WithFile(files, id, m), WithBlock(blocks, id, uid, m)) == Upserted(Join(files, blocks), uid, m)
  {
    hide BlocksOfFile, TablesValid, WithBlock, WithFile;
    var id := IdFor(files, nextId, NameOf(m));
    var now := Join(WithFile(files, id, m), WithBlock(blocks, id, uid, m));
    var after := Upserted(Join(files, blocks), uid, m);
    forall f
      ensures f in now <==> f in after
      ensures f in now ==> now[f] == after[f]
    {
      UpsertJoinsAt(files, blocks, nextId, uid, m, f);
    }
  }

  lemma UpsertJoinsAt(files: map<FileName, FileRow>, blocks: map<BlockName, BlockRow>, nextId: nat, uid: nat, m: Metadata,
                      f: FileName)
    requires TablesValid(files, blocks, nextId)
    ensures var id := IdFor(files, nextId, NameOf(m));
            var now := Join(WithFile(files, id, m), WithBlock(blocks, id, uid, m));
            var after := Upserted(Join(files, blocks), uid, m);
            (f in now <==> f in after) && (f in now ==> now[f] == after[f])
  {
    var name := NameOf(m);
    var id := IdFor(files, nextId, name);
    if f == name {
      UpsertBlocks(files, blocks, nextId, uid, m);
    } else if f in files {
      assert files[f].id != id;
      OtherBlock(blocks, files[f].id, id, m.blockSeq, RowOf(uid, m));
    }
    hide BlocksOfFile, TablesValid;
  }

  lemma SetBlock(blocks: map<BlockName, BlockRow>, id: nat, number: int, row: BlockRow)
    ensures BlocksOfFile(blocks[BlockName(id, number) := row], id) == BlocksOfFile(blocks, id)[number := row]
  {
    var a, b := BlocksOfFile(blocks[BlockName(id, number) := row], id), BlocksOfFile(blocks, id)[number := row];
    forall n
      ensures n in a <==> n in b
      ensures n in a ==> a[n] == b[n]
    {
      BlockOfFile(blocks, id, n);
      BlockOfFile(blocks[BlockName(id, number) := row], id, n);
    }
  }

  lemma BlockOfFile(blocks: map<BlockName, BlockRow>, id: nat, n: int)
    ensures n in BlocksOfFile(blocks, id) <==> BlockName(id, n) in blocks
    ensures n in BlocksOfFile(blocks, id) ==> BlocksOfFile(blocks, id)[n] == blocks[BlockName(id, n)]
  {
    if BlockName(id, n) in blocks {
      assert BlockName(id, n).number == n;
    }
  }

  lemma OtherBlock(blocks: map<BlockName, BlockRow>, id: nat, other: nat, number: int, row: BlockRow)
    requires id != other
    ensures BlocksOfFile(blocks[BlockName(other, number) := row], id) == BlocksOfFile(blocks, id)
  {
    var a, b := BlocksOfFile(blocks[BlockName(other, number) := row], id), BlocksOfFile(blocks, id);
    forall n
      ensures n in a <==> n in b
      ensures n in a ==> a[n] == b[n]
    {
      BlockOfFile(blocks, id, n);
      BlockOfFile(blocks[BlockName(other, number) := row], id, n);
    }
  }

  lemma DeleteValid(files: map<FileName, FileRow>, blocks: map<BlockName, BlockRow>, nextId: nat, gone: set<FileName>)
    requires TablesValid(files, blocks, nextId)
    ensures TablesValid(files - gone, WithoutFiles(files, blocks, gone), nextId)
  {
    var left := files - gone;
    forall b | b in WithoutFiles(files, blocks, gone)
      ensures exists f :: f in left && left[f].id == b.fileId
    {
      var f :| f in files && files[f].id == b.fileId;
      assert f in left && left[f].id == b.fileId;
    }
  }

  lemma KeptBlocks(files: map<FileName, FileRow>, blocks: map<BlockName, BlockRow>, nextId: nat, gone: set<FileName>, f: FileName)
    requires TablesValid(files, blocks, nextId) && f in files && f !in gone
    ensures BlocksOfFile(WithoutFiles(files, blocks, gone), files[f].id) == BlocksOfFile(blocks, files[f].id)
  {
    var kept, id := WithoutFiles(files, blocks, gone), files[f].id;
    var a, b := BlocksOfFile(kept, id), BlocksOfFile(blocks, id);
    assert forall n :: BlockName(id, n) in kept <==> BlockName(id, n) in blocks;
    hide WithoutFiles, TablesValid;
    forall n
      ensures n in a <==> n in b
      ensures n in a ==> a[n] == b[n]
    {
      BlockOfFile(blocks, id, n);
      BlockOfFile(kept, id, n);
    }
  }

  /** Deleting files with their blocks leaves the other files as they were. */
  lemma DeleteJoins(files: map<FileName, FileRow>, blocks: map<BlockName, BlockRow>, nextId: nat, gone: set<FileName>)
    requires TablesValid(files, blocks, nextId)
    ensures Join(files - gone, WithoutFiles(files, blocks, gone)) == Join(files, blocks) - gone
  {
    hide BlocksOfFile, TablesValid, WithoutFiles;
    forall f | f in files && f !in gone
      ensures BlocksOfFile(WithoutFiles(files, blocks, gone), files[f].id) == BlocksOfFile(blocks, files[f].id)
    {
      KeptBlocks(files, blocks, nextId, gone, f);
    }
  }

  // ---------------------------------------------------------------------------------------
  // What deleting leaves

  ghost predicate ListsUid(e: Entry, uid: nat) { exists n :: n in e.blocks && e.blocks[n].uid == uid }

  /** After a message is removed no file of its mailbox lists it, and what did not list it, or belongs to
      another mailbox, is untouched. */
  lemma RemovedForgets(index: Index, mailbox: string, uid: nat)
    ensures var left := Removed(index, mailbox, uid);
            && (forall name :: name in left ==> name in index && left[name] == index[name])
            && (forall name :: name in left && name.mailFolder == mailbox ==> !ListsUid(left[name], uid))
            && (forall name :: name in index && (name.mailFolder != mailbox || !ListsUid(index[name], uid)) ==> name in left)
  {
  }

  /** After a mailbox is cleared nothing of it is left, and all else is. */
  lemma ClearedForgets(index: Index, mailbox: string)
    ensures var left := Cleared(index, mailbox);
            && (forall name :: name in left ==> name in index && name.mailFolder != mailbox && left[name] == index[name])
            && (forall name :: name in index && name.mailFolder != mailbox ==> name in left)
  {
  }
}

/** Downloading a file block by block into a cache directory, and what is on disk at any moment. */
module Download {
  // Any number of runs, each of which may break off at any point, even with a file half written.

  import opened Basics
  import opened Records
  import opened Streaming

  /** The files of one download: the target, its temporary file, and in the cache directory the
      finished blocks and their temporary files, by block number. */
  datatype Disk = Disk(
    saved: Option<seq<byte>>,
    draft: Option<seq<byte>>,
    blocks: map<int, seq<byte>>,
    drafts: map<int, seq<byte>>)

  const EMPTY_DISK: Disk := Disk(None, None, map[], map[])

  /** Where a run is; `Idle` when none is under way. */
  datatype Stage =
    | Idle
    | AtBlock(i: nat)
    | Fetched(i: nat, payload: seq<byte>)
    | BlockDrafted(i: nat)
    | OutputDrafted
    | Moved

  datatype State = State(disk: Disk, stage: Stage)

  /** The next step of a run, which may meet an error of the transport, or the end of the program
      with the first bytes of an unfinished file written and some files already removed. */
  datatype Action =
    | Begin
    | Proceed(fetched: Option<seq<byte>>)
    | Crash(written: nat, removed: set<int>)

  // ---------------------------------------------------------------------------------------
  // Steps

  function Joined(blocks: map<int, seq<byte>>, list: seq<BlockRecord>): seq<byte>
    requires forall b :: b in list ==> b.number in blocks
  {
    if list == [] then []
    else
      var last := list[|list| - 1];
      Joined(blocks, list[..|list| - 1]) + blocks[last.number]
  }

  predicate AllThere(blocks: map<int, seq<byte>>, list: seq<BlockRecord>) {
    forall b :: b in list ==> b.number in blocks
  }

  function BeginStep(s: State): State {
    if s.stage != Idle || s.disk.saved.Some? then s
    else State(s.disk.(draft := None), AtBlock(0))
  }

  /** Blocks that are there are passed over; a block that cannot be fetched ends the run. */
  function BlockStep(file: FileRecord, s: State, i: nat, fetched: Option<seq<byte>>): State
    requires i < |file.blocks|
  {
    if file.blocks[i].number in s.disk.blocks then s.(stage := AtBlock(i + 1))
    else if fetched.None? then s.(stage := Idle)
    else s.(stage := Fetched(i, fetched.value))
  }

  function OutputStep(file: FileRecord, s: State): State {
    if AllThere(s.disk.blocks, file.blocks)
    then State(s.disk.(draft := Some(Joined(s.disk.blocks, file.blocks))), OutputDrafted)
    else s.(stage := Idle)
  }

  function ProceedStep(file: FileRecord, md5: seq<byte> -> string, s: State, fetched: Option<seq<byte>>): State {
    match s.stage
    case Idle => s
    case AtBlock(i) =>
      if i < |file.blocks| then BlockStep(file, s, i, fetched) else OutputStep(file, s)
    case Fetched(i, payload) =>
      if i >= |file.blocks| then s.(stage := Idle)
      else State(s.disk.(drafts := s.disk.drafts[file.blocks[i].number := payload]), BlockDrafted(i))
    case BlockDrafted(i) =>
      if i >= |file.blocks| || file.blocks[i].number !in s.disk.drafts then s.(stage := Idle)
      else
        var n := file.blocks[i].number;
        State(s.disk.(blocks := s.disk.blocks[n := s.disk.drafts[n]], drafts := s.disk.drafts - {n}), AtBlock(i + 1))
    case OutputDrafted =>
      if s.disk.draft.None? || md5(s.disk.draft.value) != file.md5 then s.(stage := Idle)
      else State(s.disk.(saved := s.disk.draft, draft := None), Moved)
    case Moved => State(s.disk.(blocks := map[], drafts := map[]), Idle)
  }

  /** What the unfinished step left behind. */
  function CrashStep(file: FileRecord, s: State, written: nat, removed: set<int>): State {
    var disk :=
      match s.stage
      case Fetched(i, payload) =>
        if i < |file.blocks|
        then s.disk.(drafts := s.disk.drafts[file.blocks[i].number := Take(payload, written)])
        else s.disk
      case AtBlock(i) =>
        if i >= |file.blocks| && AllThere(s.disk.blocks, file.blocks)
        then s.disk.(draft := Some(Take(Joined(s.disk.blocks, file.blocks), written)))
        else s.disk
      case Moved => s.disk.(blocks := s.disk.blocks - removed, drafts := s.disk.drafts - removed)
      case _ => s.disk;
    State(disk, Idle)
  }

  function Step(file: FileRecord, md5: seq<byte> -> string, s: State, a: Action): State {
    match a
    case Begin => BeginStep(s)
    case Proceed(fetched) => ProceedStep(file, md5, s, fetched)
    case Crash(written, removed) => CrashStep(file, s, written, removed)
  }

  function Run(file: FileRecord, md5: seq<byte> -> string, start: Disk, actions: seq<Action>): State {
    if actions == [] then State(start, Idle)
    else Step(file, md5, Run(file, md5, start, actions[..|actions| - 1]), actions[|actions| - 1])
  }

  // ---------------------------------------------------------------------------------------
  // Invariant

  /** The blocks of the file, in order, and each number once. */
  ghost predicate Lists(file: FileRecord, payloads: seq<seq<byte>>) {
    && |file.blocks| == |payloads|
    && forall i, j :: 0 <= i < j < |file.blocks| ==> file.blocks[i].number != file.blocks[j].number
  }

  ghost predicate Whole(file: FileRecord, payloads: seq<seq<byte>>, blocks: map<int, seq<byte>>)
    requires |file.blocks| == |payloads|
  {
    forall i :: 0 <= i < |payloads| && file.blocks[i].number in blocks ==> blocks[file.blocks[i].number] == payloads[i]
  }

  ghost predicate DiskSound(file: FileRecord, payloads: seq<seq<byte>>, disk: Disk)
    requires |file.blocks| == |payloads|
  {
    && Whole(file, payloads, disk.blocks)
    && (disk.saved.Some? ==> disk.saved.value == Concat(payloads))
  }

  ghost predicate HasFirst(file: FileRecord, disk: Disk, i: nat) {
    i <= |file.blocks| && forall k :: 0 <= k < i ==> file.blocks[k].number in disk.blocks
  }

  /** Every finished block is whole, and the file, once there, is the whole file. */
  ghost predicate Sound(file: FileRecord, payloads: seq<seq<byte>>, s: State)
    requires |file.blocks| == |payloads|
  {
    && DiskSound(file, payloads, s.disk)
    && match s.stage
       case Idle => true
       case AtBlock(i) => HasFirst(file, s.disk, i)
       case Fetched(i, payload) => HasFirst(file, s.disk, i) && i < |payloads| && payload == payloads[i]
       case BlockDrafted(i) =>
         && HasFirst(file, s.disk, i) && i < |payloads|
         && file.blocks[i].number in s.disk.drafts && s.disk.drafts[file.blocks[i].number] == payloads[i]
       case OutputDrafted => s.disk.draft == Some(Concat(payloads))
       case Moved => s.disk.saved.Some?
  }

  /** A transfer that succeeds delivers the block that was asked for. */
  ghost predicate Honest(payloads: seq<seq<byte>>, s: State, a: Action) {
    a.Proceed? && a.fetched.Some? && s.stage.AtBlock? && s.stage.i < |payloads| ==> a.fetched.value == payloads[s.stage.i]
  }

  ghost predicate AllHonest(file: FileRecord, md5: seq<byte> -> string, payloads: seq<seq<byte>>, start: Disk, actions: seq<Action>) {
    forall k :: 0 <= k < |actions| ==> Honest(payloads, Run(file, md5, start, actions[..k]), actions[k])
  }

  lemma {:induction false} JoinedIsConcat(file: FileRecord, payloads: seq<seq<byte>>, blocks: map<int, seq<byte>>, n: nat)
    requires |file.blocks| == |payloads| && Whole(file, payloads, blocks) && n <= |payloads|
    requires AllThere(blocks, file.blocks)
    ensures AllThere(blocks, file.blocks[..n]) && Joined(blocks, file.blocks[..n]) == Concat(payloads[..n])
  {
    if n > 0 {
      JoinedIsConcat(file, payloads, blocks, n - 1);
      assert file.blocks[..n][..n - 1] == file.blocks[..n - 1] && payloads[..n][..n - 1] == payloads[..n - 1];
      assert file.blocks[n - 1] in file.blocks;
    }
  }

  lemma BlockFinished(file: FileRecord, payloads: seq<seq<byte>>, s: State, i: nat)
    requires Lists(file, payloads) && Sound(file, payloads, s) && s.stage == BlockDrafted(i)
    ensures var n := file.blocks[i].number;
            Sound(file, payloads, State(s.disk.(blocks := s.disk.blocks[n := s.disk.drafts[n]], drafts := s.disk.drafts - {n}), AtBlock(i + 1)))
  {
    var blocks := s.disk.blocks[file.blocks[i].number := s.disk.drafts[file.blocks[i].number]];
    forall k | 0 <= k < |payloads| && file.blocks[k].number in blocks
      ensures blocks[file.blocks[k].number] == payloads[k]
    {
      if k != i { assert file.blocks[k].number != file.blocks[i].number; }
    }
  }

  lemma OutputSound(file: FileRecord, payloads: seq<seq<byte>>, s: State)
    requires Lists(file, payloads) && Sound(file, payloads, s)
    ensures Sound(file, payloads, OutputStep(file, s))
  {
    if AllThere(s.disk.blocks, file.blocks) {
      JoinedIsConcat(file, payloads, s.disk.blocks, |payloads|);
      assert file.blocks[..|payloads|] == file.blocks && payloads[..|payloads|] == payloads;
    }
  }

  lemma ProceedKeeps(file: FileRecord, md5: seq<byte> -> string, payloads: seq<seq<byte>>, s: State, fetched: Option<seq<byte>>)
    requires Lists(file, payloads) && Sound(file, payloads, s) && Honest(payloads, s, Proceed(fetched))
    ensures Sound(file, payloads, ProceedStep(file, md5, s, fetched))
  {
    match s.stage
    case AtBlock(i) =>
      if i >= |file.blocks| { OutputSound(file, payloads, s); }
    case BlockDrafted(i) => BlockFinished(file, payloads, s, i);
    case _ =>
  }

  lemma StepKeeps(file: FileRecord, md5: seq<byte> -> string, payloads: seq<seq<byte>>, s: State, a: Action)
    requires Lists(file, payloads) && Sound(file, payloads, s) && Honest(payloads, s, a)
    ensures Sound(file, payloads, Step(file, md5, s, a))
  {
    match a
    case Proceed(fetched) => ProceedKeeps(file, md5, payloads, s, fetched);
    case _ =>
  }

  /** However often a download is started and broken off, every finished block file holds its whole
      block, and the target, once it is there, is the whole file. */
  lemma {:induction false} EveryRunSound(file: FileRecord, md5: seq<byte> -> string, payloads: seq<seq<byte>>,
                                         start: Disk, actions: seq<Action>)
    requires Lists(file, payloads) && DiskSound(file, payloads, start)
    requires AllHonest(file, md5, payloads, start, actions)
    ensures Sound(file, payloads, Run(file, md5, start, actions))
  {
    if actions != [] {
      var before, last := actions[..|actions| - 1], actions[|actions| - 1];
      forall k | 0 <= k < |before|
        ensures Honest(payloads, Run(file, md5, start, before[..k]), before[k])
      {
        assert before[..k] == actions[..k];
        assert Honest(payloads, Run(file, md5, start, actions[..k]), actions[k]);
      }
      EveryRunSound(file, md5, payloads, start, before);
      StepKeeps(file, md5, payloads, Run(file, md5, start, before), last);
    }
  }

  // ---------------------------------------------------------------------------------------
  // A whole run

  /** The cached blocks after the first `n` are there, or `None` when one cannot be fetched. */
  function Gathered(file: FileRecord, blocks: map<int, seq<byte>>, fetch: BlockRecord -> Option<seq<byte>>, n: nat)
    : Option<map<int, seq<byte>>>
    requires n <= |file.blocks|
  {
    if n == 0 then Some(blocks)
    else
      var before := Gathered(file, blocks, fetch, n - 1);
      if before.None? then None else WithBlock(before.value, file.blocks[n - 1], fetch)
  }

  function WithBlock(blocks: map<int, seq<byte>>, block: BlockRecord, fetch: BlockRecord -> Option<seq<byte>>)
    : Option<map<int, seq<byte>>>
  {
    if block.number in blocks then Some(blocks)
    else
      var payload := fetch(block);
      if payload.None? then None else Some(blocks[block.number := payload.value])
  }

  /** What a run that is not broken off leaves under the target name. */
  function Downloaded(file: FileRecord, md5: seq<byte> -> string, disk: Disk, fetch: BlockRecord -> Option<seq<byte>>)
    : Option<seq<byte>>
  {
    if disk.saved.Some? then disk.saved
    else
      var blocks := Gathered(file, disk.blocks, fetch, |file.blocks|);
      if blocks.None? || !AllThere(blocks.value, file.blocks) then None
      else
        var content := Joined(blocks.value, file.blocks);
        if md5(content) == file.md5 then Some(content) else None
  }

  ghost predicate Fetches(file: FileRecord, payloads: seq<seq<byte>>, fetch: BlockRecord -> Option<seq<byte>>)
    requires |file.blocks| == |payloads|
  {
    forall i :: 0 <= i < |payloads| ==> fetch(file.blocks[i]) == Some(payloads[i])
  }

  lemma {:induction false} GatheredWhole(file: FileRecord, payloads: seq<seq<byte>>, blocks: map<int, seq<byte>>,
                                         fetch: BlockRecord -> Option<seq<byte>>, n: nat)
    requires Lists(file, payloads) && Fetches(file, payloads, fetch) && Whole(file, payloads, blocks) && n <= |payloads|
    ensures var r := Gathered(file, blocks, fetch, n);
            r.Some? && Whole(file, payloads, r.value) && forall k :: 0 <= k < n ==> file.blocks[k].number in r.value
  {
    if n > 0 {
      GatheredWhole(file, payloads, blocks, fetch, n - 1);
      var before := Gathered(file, blocks, fetch, n - 1).value;
      var block := file.blocks[n - 1];
      if block.number !in before {
        var after := before[block.number := payloads[n - 1]];
        forall k | 0 <= k < |payloads| && file.blocks[k].number in after
          ensures after[file.blocks[k].number] == payloads[k]
        {
          if k != n - 1 { assert file.blocks[k].number != block.number; }
        }
      }
    }
  }

  /** From whatever earlier runs left on disk, a run that is not broken off yields the file. */
  lemma DownloadedIsContent(file: FileRecord, md5: seq<byte> -> string, payloads: seq<seq<byte>>, disk: Disk,
                            fetch: BlockRecord -> Option<seq<byte>>)
    requires Lists(file, payloads) && Fetches(file, payloads, fetch) && DiskSound(file, payloads, disk)
    requires file.md5 == md5(Concat(payloads))
    ensures Downloaded(file, md5, disk, fetch) == Some(Concat(payloads))
  {
    if disk.saved.None? {
      GatheredWhole(file, payloads, disk.blocks, fetch, |payloads|);
      var blocks := Gathered(file, disk.blocks, fetch, |payloads|).value;
      JoinedIsConcat(file, payloads, blocks, |payloads|);
      assert file.blocks[..|payloads|] == file.blocks && payloads[..|payloads|] == payloads;
    }
  }

  lemma {:induction false} GatheredGrows(file: FileRecord, blocks: map<int, seq<byte>>, fetch: BlockRecord -> Option<seq<byte>>, n: nat)
    requires n <= |file.blocks| && Gathered(file, blocks, fetch, n).Some?
    ensures forall k :: k in blocks ==> k in Gathered(file, blocks, fetch, n).value
  {
    if n > 0 {
      GatheredGrows(file, blocks, fetch, n - 1);
    }
  }

  lemma {:induction false} GathersMissing(file: FileRecord, blocks: map<int, seq<byte>>, fetch: BlockRecord -> Option<seq<byte>>,
                                          other: BlockRecord -> Option<seq<byte>>, n: nat)
    requires n <= |file.blocks| && forall b :: b in file.blocks && b.number !in blocks ==> fetch(b) == other(b)
    ensures Gathered(file, blocks, fetch, n) == Gathered(file, blocks, other, n)
  {
    if n > 0 {
      GathersMissing(file, blocks, fetch, other, n - 1);
      var before := Gathered(file, blocks, fetch, n - 1);
      if before.Some? { GatheredGrows(file, blocks, fetch, n - 1); }
    }
  }

  /** A run resumes where earlier ones ended: nothing is fetched but the blocks that are not there, and
      nothing at all when the file is. */
  lemma FetchesOnlyMissing(file: FileRecord, md5: seq<byte> -> string, disk: Disk, fetch: BlockRecord -> Option<seq<byte>>,
                           other: BlockRecord -> Option<seq<byte>>)
    requires disk.saved.Some? || forall b :: b in file.blocks && b.number !in disk.blocks ==> fetch(b) == other(b)
    ensures Downloaded(file, md5, disk, fetch) == Downloaded(file, md5, disk, other)
    ensures disk.saved.Some? ==> Downloaded(file, md5, disk, fetch) == disk.saved
  {
    if disk.saved.None? {
      hide Gathered;
      GathersMissing(file, disk.blocks, fetch, other, |file.blocks|);
    }
  }

  /** Broken off as often as it may be, the download yields the file when it is run once more. */
  lemma InterruptedThenFinished(file: FileRecord, md5: seq<byte> -> string, payloads: seq<seq<byte>>, start: Disk,
                                actions: seq<Action>, fetch: BlockRecord -> Option<seq<byte>>)
    requires Lists(file, payloads) && Fetches(file, payloads, fetch) && DiskSound(file, payloads, start)
    requires AllHonest(file, md5, payloads, start, actions) && file.md5 == md5(Concat(payloads))
    ensures Downloaded(file, md5, Run(file, md5, start, actions).disk, fetch) == Some(Concat(payloads))
  {
    EveryRunSound(file, md5, payloads, start, actions);
    DownloadedIsContent(file, md5, payloads, Run(file, md5, start, actions).disk, fetch);
  }

  /** Whatever the transport delivers and wherever a run ends, no file gets the target name but one with
      the hash on record. */
  lemma {:induction false} SavedHasHash(file: FileRecord, md5: seq<byte> -> string, start: Disk, actions: seq<Action>)
    requires start.saved.None?
    ensures var saved := Run(file, md5, start, actions).disk.saved; saved.Some? ==> md5(saved.value) == file.md5
  {
    hide Joined;
    if actions != [] {
      SavedHasHash(file, md5, start, actions[..|actions| - 1]);
    }
  }

  lemma DownloadedHasHash(file: FileRecord, md5: seq<byte> -> string, disk: Disk, fetch: BlockRecord -> Option<seq<byte>>)
    requires disk.saved.None?
    ensures var r := Downloaded(file, md5, disk, fetch); r.Some? ==> md5(r.value) == file.md5
  {
    hide Joined, Gathered;
  }

  // ---------------------------------------------------------------------------------------
  // The program

  lemma RunMore(file: FileRecord, md5: seq<byte> -> string, start: Disk, trace: seq<Action>, a: Action)
    ensures Run(file, md5, start, trace + [a]) == Step(file, md5, Run(file, md5, start, trace), a)
  {
    assert (trace + [a])[..|trace|] == trace;
  }

  class DownloadDirectory {
    var disk: Disk

    constructor ()
      ensures disk == EMPTY_DISK
    {
      disk := EMPTY_DISK;
    }

    /** The loop over the blocks; `trace` lists the steps taken. */
    method FetchBlocks(file: FileRecord, md5: seq<byte> -> string, fetch: BlockRecord -> Option<seq<byte>>,
                       ghost start: Disk, ghost before: seq<Action>) returns (ok: bool, ghost trace: seq<Action>)
      requires Run(file, md5, start, before) == State(disk, AtBlock(0))
      modifies this
      ensures var r := Gathered(file, old(disk).blocks, fetch, |file.blocks|);
              ok == r.Some? && (ok ==> disk.blocks == r.value)
      ensures Run(file, md5, start, trace) == State(disk, if ok then AtBlock(|file.blocks|) else Idle)
      ensures disk.saved == old(disk).saved
    {
      trace := before;
      for i := 0 to |file.blocks|
        invariant Gathered(file, old(disk).blocks, fetch, i) == Some(disk.blocks)
        invariant Run(file, md5, start, trace) == State(disk, AtBlock(i))
        invariant disk.saved == old(disk).saved
      {
        hide Run, Gathered;
        GatheredNext(file, old(disk).blocks, fetch, i);
        var block := file.blocks[i];
        var n := block.number;
        RunMore(file, md5, start, trace, Proceed(fetch(block)));
        trace := trace + [Proceed(fetch(block))];
        if n in disk.blocks {
          continue;
        }
        var payload := fetch(block);
        if payload.None? {
          GatheredFails(file, old(disk).blocks, fetch, i + 1);
          return false, trace;
        }
        disk := disk.(drafts := disk.drafts[n := payload.value]);
        RunMore(file, md5, start, trace, Proceed(None));
        trace := trace + [Proceed(None)];
        disk := disk.(blocks := disk.blocks[n := disk.drafts[n]], drafts := disk.drafts - {n});
        RunMore(file, md5, start, trace, Proceed(None));
        trace := trace + [Proceed(None)];
      }
      ok := true;
    }

    /** Downloads the file unless it is there; `false` when that raises. */
    method DownloadFile(file: FileRecord, md5: seq<byte> -> string, fetch: BlockRecord -> Option<seq<byte>>)
      returns (ok: bool, ghost trace: seq<Action>)
      modifies this
      ensures Run(file, md5, old(disk), trace) == State(disk, Idle)
      ensures disk.saved == Downloaded(file, md5, old(disk), fetch) && ok == disk.saved.Some?
    {
      hide Run, Gathered, Joined;
      ghost var start := disk;
      trace := [];
      RunNothing(file, md5, start);
      if disk.saved.Some? {
        return true, trace;
      }
      disk := disk.(draft := None);
      RunMore(file, md5, start, [], Begin);
      trace := [] + [Begin];
      ok, trace := FetchBlocks(file, md5, fetch, start, trace);
      if !ok {
        return false, trace;
      }
      RunMore(file, md5, start, trace, Proceed(None));
      trace := trace + [Proceed(None)];
      if !AllThere(disk.blocks, file.blocks) {
        return false, trace;
      }
      disk := disk.(draft := Some(Joined(disk.blocks, file.blocks)));
      RunMore(file, md5, start, trace, Proceed(None));
      trace := trace + [Proceed(None)];
      if md5(disk.draft.value) != file.md5 {
        return false, trace;
      }
      disk := disk.(saved := disk.draft, draft := None);
      RunMore(file, md5, start, trace, Proceed(None));
      trace := trace + [Proceed(None)];
      disk := disk.(blocks := map[], drafts := map[]);
      ok := true;
    }
  }

  lemma RunNothing(file: FileRecord, md5: seq<byte> -> string, start: Disk)
    ensures Run(file, md5, start, []) == State(start, Idle)
  {
  }

  lemma GatheredNext(file: FileRecord, blocks: map<int, seq<byte>>, fetch: BlockRecord -> Option<seq<byte>>, i: nat)
    requires i < |file.blocks|
    ensures var before := Gathered(file, blocks, fetch, i);
            Gathered(file, blocks, fetch, i + 1) == if before.None? then None else WithBlock(before.value, file.blocks[i], fetch)
  {
  }

  lemma {:induction false} GatheredFails(file: FileRecord, blocks: map<int, seq<byte>>, fetch: BlockRecord -> Option<seq<byte>>,
                                         i: nat)
    requires i <= |file.blocks| && Gathered(file, blocks, fetch, i).None?
    ensures Gathered(file, blocks, fetch, |file.blocks|).None?
    decreases |file.blocks| - i
  {
    if i < |file.blocks| {
      GatheredFails(file, blocks, fetch, i + 1);
    }
  }
}

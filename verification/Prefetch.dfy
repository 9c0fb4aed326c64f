/** The prefetch queue, its sessions and the keys already claimed, all under one mutex. */
module Prefetch {
  // A session follows one stream: it may load blocks up to an allowance that the stream raises as it
  // delivers chunks, and has at most one task queued or running.

  import opened Basics
  import opened Text
  import opened Records
  import opened BlockCache

  /** The key of a block: the mailbox, a bar and the uid. */
  function MakeBlockCacheKey(mailbox: string, uid: nat): Key {
    Key(mailbox + "|" + Decimal(uid))
  }

  /** No two blocks of any two mailboxes share a key, whatever the mailbox names contain. */
  lemma BlockCacheKeyInjective(m1: string, u1: nat, m2: string, u2: nat)
    requires MakeBlockCacheKey(m1, u1) == MakeBlockCacheKey(m2, u2)
    ensures m1 == m2 && u1 == u2
  {
    var t1, t2 := m1 + "|" + Decimal(u1), m2 + "|" + Decimal(u2);
    assert t1[|m1|] == '|' && t2[|m2|] == '|';
    assert forall i :: |m1| < i < |t1| ==> t1[i] == Decimal(u1)[i - |m1| - 1];
    assert forall i :: |m2| < i < |t2| ==> t2[i] == Decimal(u2)[i - |m2| - 1];
    assert |m1| == |m2|;
    assert m1 == t1[..|m1|] == t2[..|m2|] == m2;
    assert Decimal(u1) == t1[|m1| + 1..] == t2[|m2| + 1..] == Decimal(u2);
    DecimalInjective(u1, u2);
  }

  datatype Task = Task(session: nat, key: Key, mailbox: string, file: FileRecord, block: nat)

  /** `first` and `advances` record where the session started and how often it was advanced. */
  datatype Session = Session(
    mailbox: string,
    file: FileRecord,
    next: nat,
    allowed: nat,
    busy: bool,
    active: bool,
    first: nat,
    advances: nat)

  /** `running` is the task that the worker has taken off the queue. */
  datatype State = State(
    queue: seq<Task>,
    sessions: map<nat, Session>,
    pending: set<Key>,
    nextId: nat,
    running: Option<Task>)

  const EMPTY_QUEUE: State := State([], map[], {}, 1, None)

  function TaskOf(id: nat, session: Session, block: nat): Task
    requires block < |session.file.blocks|
  {
    Task(id, MakeBlockCacheKey(session.mailbox, session.file.blocks[block].uid),
         session.mailbox, session.file, block)
  }

  predicate Wants(session: Session, block: nat) {
    block < |session.file.blocks| && block <= session.allowed
  }

  /** The search passes over a block that some task has claimed or the cache already holds.
      `cached` answers, block by block, what the cache says at the moment it is asked: the cache
      mutex is not held across the search. */
  predicate Skips(session: Session, pending: set<Key>, cached: set<nat>, block: nat) {
    && Wants(session, block)
    && (block in cached || MakeBlockCacheKey(session.mailbox, session.file.blocks[block].uid) in pending)
  }

  /** Where the search that begins at `from` stops. */
  function NextWanted(session: Session, pending: set<Key>, cached: set<nat>, from: nat): (r: nat)
    ensures from <= r && !Skips(session, pending, cached, r)
    ensures forall i :: from <= i < r ==> Skips(session, pending, cached, i)
    decreases |session.file.blocks| - from
  {
    if Skips(session, pending, cached, from) then NextWanted(session, pending, cached, from + 1) else from
  }

  function EnqueueNext(p: State, id: nat, cached: set<nat>): State {
    if id !in p.sessions || !p.sessions[id].active || p.sessions[id].busy then p
    else
      var session := p.sessions[id];
      var block := NextWanted(session, p.pending, cached, session.next);
      if Wants(session, block) then
        var task := TaskOf(id, session, block);
        p.(sessions := p.sessions[id := session.(next := block + 1, busy := true)],
           pending := p.pending + {task.key},
           queue := p.queue + [task])
      else
        p.(sessions := p.sessions[id := session.(next := block)])
  }

  /** The id of the session that `Start` opens, or 0 when there is no block to prefetch. */
  function StartId(p: State, file: FileRecord, first: nat): nat {
    if first >= |file.blocks| then 0 else p.nextId
  }

  function Start(p: State, mailbox: string, file: FileRecord, first: nat, cached: set<nat>): State {
    if first >= |file.blocks| then p
    else
      var session := Session(mailbox, file, first, first, false, true, first, 0);
      EnqueueNext(p.(sessions := p.sessions[p.nextId := session], nextId := p.nextId + 1), p.nextId, cached)
  }

  function Others(queue: seq<Task>, id: nat): (r: seq<Task>)
    ensures forall q :: q in r <==> q in queue && q.session != id
  {
    if queue == [] then []
    else (if queue[0].session == id then [] else [queue[0]]) + Others(queue[1..], id)
  }

  function KeysOf(queue: seq<Task>): set<Key> { set q | q in queue :: q.key }

  function KeysOfSession(tasks: seq<Task>, id: nat): set<Key> {
    set q | q in tasks && q.session == id :: q.key
  }

  function Stop(p: State, id: nat): State {
    if id == 0 then p
    else
      p.(sessions := p.sessions - {id},
         queue := Others(p.queue, id),
         pending := p.pending - KeysOfSession(p.queue, id))
  }

  /** One more block allowed, but none past the end of the file. */
  function Raise(session: Session): Session {
    session.(allowed := if session.allowed + 1 < |session.file.blocks| then session.allowed + 1 else session.allowed,
             advances := session.advances + 1)
  }

  function Advance(p: State, id: nat, cached: set<nat>): State {
    if id == 0 || id !in p.sessions || !p.sessions[id].active then p
    else EnqueueNext(p.(sessions := p.sessions[id := Raise(p.sessions[id])]), id, cached)
  }

  /** The worker takes a task; one whose session is gone is dropped on the spot. */
  function Pop(p: State): State
    requires p.queue != [] && p.running.None?
  {
    var task := p.queue[0];
    if task.session !in p.sessions || !p.sessions[task.session].active then
      p.(queue := p.queue[1..], pending := p.pending - {task.key})
    else
      p.(queue := p.queue[1..], running := Some(task))
  }

  /** The worker's load is over, well or badly. */
  function Finish(p: State, cached: set<nat>): State
    requires p.running.Some?
  {
    var task := p.running.value;
    var idle := p.(pending := p.pending - {task.key}, running := None);
    if task.session !in p.sessions then idle
    else
      EnqueueNext(idle.(sessions := p.sessions[task.session := p.sessions[task.session].(busy := false)]),
                  task.session, cached)
  }

  // ---------------------------------------------------------------------------------------
  // Invariant

  /** Every task that exists: the one the worker runs, then the queue. */
  function Tasks(p: State): seq<Task> {
    (if p.running.Some? then [p.running.value] else []) + p.queue
  }

  ghost predicate DistinctTasks(tasks: seq<Task>) {
    forall i, j :: 0 <= i < j < |tasks| ==> tasks[i].key != tasks[j].key && tasks[i].session != tasks[j].session
  }

  ghost predicate HasTask(tasks: seq<Task>, id: nat) {
    exists q :: q in tasks && q.session == id
  }

  ghost predicate TaskValid(task: Task) {
    && task.block < |task.file.blocks|
    && task.key == MakeBlockCacheKey(task.mailbox, task.file.blocks[task.block].uid)
  }

  /** No two tasks share a key or a session, and the pending keys are exactly the keys of tasks. */
  ghost predicate TasksValid(tasks: seq<Task>, pending: set<Key>, nextId: nat) {
    && DistinctTasks(tasks)
    && pending == KeysOf(tasks)
    && (forall q :: q in tasks ==> TaskValid(q) && 0 < q.session < nextId)
  }

  /** Bounds on a session, and that it never stalls with work left and no task. */
  ghost predicate SessionValid(session: Session) {
    && session.active
    && session.next <= session.allowed + 1 <= |session.file.blocks|
    && session.first <= session.allowed <= session.first + session.advances
    && (session.busy || session.next == session.allowed + 1)
  }

  /** A live session is busy exactly when one task bears its id. */
  ghost predicate SessionsValid(sessions: map<nat, Session>, tasks: seq<Task>, nextId: nat) {
    forall id :: id in sessions ==>
      0 < id < nextId && SessionValid(sessions[id]) && (sessions[id].busy <==> HasTask(tasks, id))
  }

  ghost predicate QueueLive(queue: seq<Task>, sessions: map<nat, Session>) {
    forall q :: q in queue ==> q.session in sessions
  }

  ghost predicate Valid(p: State) {
    && TasksValid(Tasks(p), p.pending, p.nextId)
    && SessionsValid(p.sessions, Tasks(p), p.nextId)
    && QueueLive(p.queue, p.sessions)
    && 0 < p.nextId
  }

  /** `Valid`, except that the idle session `id` may have work left. */
  ghost predicate ValidBut(p: State, id: nat) {
    && TasksValid(Tasks(p), p.pending, p.nextId)
    && SessionsValid(p.sessions - {id}, Tasks(p), p.nextId)
    && QueueLive(p.queue, p.sessions)
    && 0 < id < p.nextId
    && id in p.sessions && SessionValid(p.sessions[id].(busy := true)) && !p.sessions[id].busy
    && !HasTask(Tasks(p), id)
  }

  // ---------------------------------------------------------------------------------------
  // Task lists

  /** A task is known by its key, and by its session. */
  lemma SameTask(tasks: seq<Task>, q: Task, r: Task)
    requires DistinctTasks(tasks) && q in tasks && r in tasks && (q.key == r.key || q.session == r.session)
    ensures q == r
  {
    var i :| 0 <= i < |tasks| && tasks[i] == q;
    var j :| 0 <= j < |tasks| && tasks[j] == r;
    assert !(i < j) && !(j < i);
  }

  lemma AppendTask(tasks: seq<Task>, pending: set<Key>, nextId: nat, task: Task)
    requires TasksValid(tasks, pending, nextId) && TaskValid(task) && 0 < task.session < nextId
    requires task.key !in pending && !HasTask(tasks, task.session)
    ensures TasksValid(tasks + [task], pending + {task.key}, nextId)
    ensures forall id :: HasTask(tasks + [task], id) <==> HasTask(tasks, id) || task.session == id
  {
    var more := tasks + [task];
    assert more[|tasks|] == task;
    assert forall i :: 0 <= i < |tasks| ==> more[i] == tasks[i] && tasks[i] in tasks;
  }

  lemma ConsDistinct(first: Task, rest: seq<Task>)
    requires DistinctTasks(rest)
    requires forall q :: q in rest ==> q.key != first.key && q.session != first.session
    ensures DistinctTasks([first] + rest)
  {
    assert forall i :: 0 <= i < |rest| ==> rest[i] in rest;
  }

  lemma UnconsDistinct(first: Task, rest: seq<Task>)
    requires DistinctTasks([first] + rest)
    ensures DistinctTasks(rest)
    ensures forall q :: q in rest ==> q.key != first.key && q.session != first.session
  {
    var all := [first] + rest;
    assert forall i :: 0 <= i < |rest| ==> rest[i] == all[i + 1];
    forall q | q in rest
      ensures q.key != first.key && q.session != first.session
    {
      var i :| 0 <= i < |rest| && rest[i] == q;
      assert all[0] == first && all[i + 1] == q;
    }
  }

  lemma DropTask(tasks: seq<Task>, pending: set<Key>, nextId: nat)
    requires TasksValid(tasks, pending, nextId) && tasks != []
    ensures TasksValid(tasks[1..], pending - {tasks[0].key}, nextId)
    ensures forall id :: HasTask(tasks[1..], id) <==> HasTask(tasks, id) && tasks[0].session != id
  {
    assert tasks == [tasks[0]] + tasks[1..];
    UnconsDistinct(tasks[0], tasks[1..]);
  }

  lemma {:induction false} OthersDistinct(queue: seq<Task>, id: nat)
    requires DistinctTasks(queue)
    ensures DistinctTasks(Others(queue, id))
  {
    if queue != [] {
      OthersDistinct(queue[1..], id);
      var others := Others(queue[1..], id);
      assert forall i :: 0 <= i < |others| ==> others[i] in others;
    }
  }

  // ---------------------------------------------------------------------------------------
  // Every step keeps the invariant

  lemma EnqueueNextValid(p: State, id: nat, cached: set<nat>)
    requires ValidBut(p, id)
    ensures Valid(EnqueueNext(p, id, cached))
  {
    var session := p.sessions[id];
    var block := NextWanted(session, p.pending, cached, session.next);
    var n := EnqueueNext(p, id, cached);
    assert block > session.next ==> Skips(session, p.pending, cached, block - 1);
    if Wants(session, block) {
      var task := TaskOf(id, session, block);
      AppendTask(Tasks(p), p.pending, p.nextId, task);
      assert Tasks(n) == Tasks(p) + [task];
    } else {
      assert Tasks(n) == Tasks(p);
    }
    forall other | other in n.sessions && other != id
      ensures SessionValid(n.sessions[other]) && (n.sessions[other].busy <==> HasTask(Tasks(n), other))
    {
      assert other in p.sessions - {id};
    }
  }

  lemma StartValid(p: State, mailbox: string, file: FileRecord, first: nat, cached: set<nat>)
    requires Valid(p)
    ensures Valid(Start(p, mailbox, file, first, cached))
  {
    if first < |file.blocks| {
      var session := Session(mailbox, file, first, first, false, true, first, 0);
      var begun := p.(sessions := p.sessions[p.nextId := session], nextId := p.nextId + 1);
      assert begun.sessions - {p.nextId} == p.sessions;
      hide EnqueueNext, KeysOf, DistinctTasks;
      EnqueueNextValid(begun, p.nextId, cached);
    }
  }

  lemma AdvanceValid(p: State, id: nat, cached: set<nat>)
    requires Valid(p)
    ensures Valid(Advance(p, id, cached))
  {
    if id in p.sessions {
      var more := p.(sessions := p.sessions[id := Raise(p.sessions[id])]);
      assert Tasks(more) == Tasks(p);
      if p.sessions[id].busy {
        assert Advance(p, id, cached) == more;
        assert SessionsValid(more.sessions, Tasks(p), p.nextId);
      } else {
        assert more.sessions - {id} == p.sessions - {id};
        assert SessionsValid(p.sessions - {id}, Tasks(p), p.nextId);
        EnqueueNextValid(more, id, cached);
      }
    }
  }

  /** The tasks left after `id` is stopped: the running one, and of the queue those of other
      sessions. */
  lemma StopTasks(p: State, id: nat)
    requires Valid(p) && id != 0
    ensures DistinctTasks(Tasks(Stop(p, id)))
    ensures forall q :: q in Tasks(Stop(p, id)) <==> q in Tasks(p) && (p.running == Some(q) || q.session != id)
  {
    hide SessionsValid, QueueLive, KeysOf, DistinctTasks;
    if p.running.Some? {
      UnconsDistinct(p.running.value, p.queue);
      OthersDistinct(p.queue, id);
      ConsDistinct(p.running.value, Others(p.queue, id));
    } else {
      assert Tasks(p) == p.queue && Tasks(Stop(p, id)) == Others(p.queue, id);
      OthersDistinct(p.queue, id);
    }
  }

  lemma StopValid(p: State, id: nat)
    requires Valid(p)
    ensures Valid(Stop(p, id))
    ensures id != 0 ==> id !in Stop(p, id).sessions && forall q :: q in Stop(p, id).queue ==> q.session != id
  {
    if id != 0 {
      var n := Stop(p, id);
      StopTasks(p, id);
      forall q | q in Tasks(p)
        ensures q.key in n.pending <==> q in Tasks(n)
      {
        if r :| r in p.queue && r.session == id && r.key == q.key {
          SameTask(Tasks(p), q, r);
          if p.running.Some? && p.running.value == r {
            UnconsDistinct(r, p.queue);
          }
        }
      }
      assert n.pending == KeysOf(Tasks(n));
    }
  }

  lemma PopValid(p: State)
    requires Valid(p) && p.queue != [] && p.running.None?
    ensures Valid(Pop(p)) && Pop(p).running == Some(p.queue[0])
  {
    assert p.queue[0] in p.queue && p.queue[0].session in p.sessions;
    assert Tasks(Pop(p)) == Tasks(p);
  }

  lemma FinishValid(p: State, cached: set<nat>)
    requires Valid(p) && p.running.Some?
    ensures Valid(Finish(p, cached))
  {
    var task := p.running.value;
    var idle := p.(pending := p.pending - {task.key}, running := None);
    DropTask(Tasks(p), p.pending, p.nextId);
    assert Tasks(p)[1..] == p.queue == Tasks(idle);
    if task.session in p.sessions {
      assert HasTask(Tasks(p), task.session);
      var freed := idle.(sessions := p.sessions[task.session := p.sessions[task.session].(busy := false)]);
      assert Tasks(freed) == p.queue;
      EnqueueNextValid(freed, task.session, cached);
    }
  }

  // ---------------------------------------------------------------------------------------
  // Ids are used once

  /** From `p` to `n` no session appears under an id that was given out before. */
  ghost predicate NoRevival(p: State, n: State) {
    p.nextId <= n.nextId && forall id :: id in n.sessions ==> id in p.sessions || id >= p.nextId
  }

  lemma EnqueueNextIds(p: State, id: nat, cached: set<nat>)
    ensures EnqueueNext(p, id, cached).sessions.Keys == p.sessions.Keys
    ensures EnqueueNext(p, id, cached).nextId == p.nextId
  {
  }

  lemma StartRevivesNone(p: State, mailbox: string, file: FileRecord, first: nat, cached: set<nat>)
    ensures NoRevival(p, Start(p, mailbox, file, first, cached))
  {
    if first < |file.blocks| {
      var session := Session(mailbox, file, first, first, false, true, first, 0);
      EnqueueNextIds(p.(sessions := p.sessions[p.nextId := session], nextId := p.nextId + 1), p.nextId, cached);
    }
  }

  lemma AdvanceRevivesNone(p: State, id: nat, cached: set<nat>)
    ensures NoRevival(p, Advance(p, id, cached))
  {
    if id in p.sessions {
      EnqueueNextIds(p.(sessions := p.sessions[id := Raise(p.sessions[id])]), id, cached);
    }
  }

  lemma FinishRevivesNone(p: State, cached: set<nat>)
    requires p.running.Some?
    ensures NoRevival(p, Finish(p, cached))
  {
    var task := p.running.value;
    if task.session in p.sessions {
      var idle := p.(pending := p.pending - {task.key}, running := None);
      EnqueueNextIds(idle.(sessions := p.sessions[task.session := p.sessions[task.session].(busy := false)]),
                     task.session, cached);
    }
  }

  // ---------------------------------------------------------------------------------------
  // The worker drains its work

  /** Blocks that session `id` may still ask for. */
  function Backlog(p: State, id: nat): int {
    if id in p.sessions then p.sessions[id].allowed + 1 - p.sessions[id].next else 0
  }

  function Backlogs(p: State, below: nat): int {
    if below == 0 then 0 else Backlogs(p, below - 1) + Backlog(p, below - 1)
  }

  /** What the worker still has before it: queued tasks and blocks that may yet be queued. */
  function WorkLeft(p: State): int { Backlogs(p, p.nextId) + |p.queue| }

  lemma {:induction false} BacklogsBut(p: State, n: State, id: nat, below: nat)
    requires forall other :: other != id ==> Backlog(p, other) == Backlog(n, other)
    ensures Backlogs(n, below) == Backlogs(p, below) + if id < below then Backlog(n, id) - Backlog(p, id) else 0
  {
    if below > 0 {
      BacklogsBut(p, n, id, below - 1);
    }
  }

  lemma {:induction false} BacklogsNonNegative(p: State, below: nat)
    requires Valid(p)
    ensures 0 <= Backlogs(p, below)
  {
    if below > 0 {
      BacklogsNonNegative(p, below - 1);
    }
  }

  /** With no session started or advanced, every task the worker takes and finishes leaves
      strictly less work, so it comes to rest; and it rests only when no session wants a block. */
  lemma WorkerDrains(p: State, cached: set<nat>)
    requires Valid(p) && p.queue != [] && p.running.None?
    ensures 0 <= WorkLeft(Finish(Pop(p), cached)) < WorkLeft(p)
  {
    PopValid(p);
    FinishValid(Pop(p), cached);
    var q, n := Pop(p), Finish(Pop(p), cached);
    BacklogsNonNegative(n, n.nextId);
    var id := p.queue[0].session;
    BacklogsBut(p, n, id, p.nextId);
  }

  lemma RestMeansDone(p: State, id: nat)
    requires Valid(p) && p.queue == [] && p.running.None? && id in p.sessions
    ensures p.sessions[id].next == p.sessions[id].allowed + 1
  {
    assert Tasks(p) == [];
  }

  /** The worker, left alone: it takes and finishes one task after the other, and each time the cache
      may answer differently which blocks of the mailbox it holds. */
  function Drained(p: State, answers: seq<set<nat>>): (r: State)
    requires Valid(p) && p.running.None?
    ensures Valid(r) && r.running.None?
    decreases |answers|
  {
    if p.queue == [] || answers == [] then p
    else
      PopValid(p);
      FinishValid(Pop(p), answers[0]);
      Drained(Finish(Pop(p), answers[0]), answers[1..])
  }

  /** Left alone for as many tasks as there is work, whatever the cache answers meanwhile, it comes to
      rest with every session served up to its allowance. */
  lemma {:induction false} DrainedServesAll(p: State, answers: seq<set<nat>>)
    requires Valid(p) && p.running.None? && |answers| >= WorkLeft(p)
    ensures var r := Drained(p, answers);
            r.queue == [] && forall id :: id in r.sessions ==> r.sessions[id].next == r.sessions[id].allowed + 1
    decreases |answers|
  {
    hide Valid, WorkLeft;
    if p.queue != [] {
      WorkerDrains(p, if answers == [] then {} else answers[0]);
      PopValid(p);
      FinishValid(Pop(p), answers[0]);
      DrainedServesAll(Finish(Pop(p), answers[0]), answers[1..]);
    } else {
      forall id | id in p.sessions
        ensures p.sessions[id].next == p.sessions[id].allowed + 1
      {
        RestMeansDone(p, id);
      }
    }
  }

  // ---------------------------------------------------------------------------------------
  // What is queued

  function KeyAt(session: Session, n: nat): Key
    requires n < |session.file.blocks|
  {
    MakeBlockCacheKey(session.mailbox, session.file.blocks[n].uid)
  }

  /** Block `n` is one that the session may ask for, the cache lacks and no task has claimed. */
  ghost predicate Lacking(p: State, session: Session, cached: set<nat>, n: nat) {
    && session.next <= n <= session.allowed && n < |session.file.blocks|
    && n !in cached && KeyAt(session, n) !in p.pending
  }

  ghost predicate FirstLacking(p: State, session: Session, cached: set<nat>, n: nat) {
    Lacking(p, session, cached, n) && forall m: nat :: Lacking(p, session, cached, m) ==> n <= m
  }

  ghost predicate Idle(p: State, id: nat) { id in p.sessions && p.sessions[id].active && !p.sessions[id].busy }

  /** For an idle session one task is queued, at the end, and that for the first block that is
      allowed, not cached and not claimed; when there is none, nothing is. */
  lemma EnqueueQueues(p: State, id: nat, cached: set<nat>)
    requires Idle(p, id)
    ensures var session, r := p.sessions[id], EnqueueNext(p, id, cached);
            && (forall n: nat :: FirstLacking(p, session, cached, n) ==>
                  && r.queue == p.queue + [Task(id, KeyAt(session, n), session.mailbox, session.file, n)]
                  && r.pending == p.pending + {KeyAt(session, n)}
                  && r.sessions == p.sessions[id := session.(next := n + 1, busy := true)])
            && ((forall n: nat :: !Lacking(p, session, cached, n)) ==>
                  && r.queue == p.queue && r.pending == p.pending
                  && id in r.sessions && r.sessions == p.sessions[id := session.(next := r.sessions[id].next)])
  {
    var session := p.sessions[id];
    var stop := NextWanted(session, p.pending, cached, session.next);
    forall n: nat | Lacking(p, session, cached, n)
      ensures stop <= n && Lacking(p, session, cached, stop)
    {
      assert !Skips(session, p.pending, cached, n);
    }
    if Wants(session, stop) { assert Lacking(p, session, cached, stop); }
  }

  lemma {:induction false} FirstOne(p: State, session: Session, cached: set<nat>, n: nat) returns (first: nat)
    requires Lacking(p, session, cached, n)
    ensures FirstLacking(p, session, cached, first) && first <= n
    decreases n
  {
    if m: nat :| m < n && Lacking(p, session, cached, m) {
      first := FirstOne(p, session, cached, m);
    } else {
      first := n;
    }
  }

  /** A new session is allowed its first block, and that is queued at once unless it is cached or
      claimed. */
  lemma StartQueues(p: State, mailbox: string, file: FileRecord, first: nat, cached: set<nat>)
    requires first < |file.blocks| && p.nextId !in p.sessions
    ensures var r, id := Start(p, mailbox, file, first, cached), p.nextId;
            && id in r.sessions && r.sessions[id].mailbox == mailbox && r.sessions[id].file == file
            && r.sessions[id].first == r.sessions[id].allowed == first && r.nextId == id + 1
    ensures var key := MakeBlockCacheKey(mailbox, file.blocks[first].uid);
            Start(p, mailbox, file, first, cached).queue ==
            if first !in cached && key !in p.pending then p.queue + [Task(p.nextId, key, mailbox, file, first)] else p.queue
  {
    hide EnqueueNext, MakeBlockCacheKey;
    var session := Session(mailbox, file, first, first, false, true, first, 0);
    var begun := p.(sessions := p.sessions[p.nextId := session], nextId := p.nextId + 1);
    EnqueueQueues(begun, p.nextId, cached);
    EnqueueNextIds(begun, p.nextId, cached);
    if Lacking(begun, session, cached, first) { assert FirstLacking(begun, session, cached, first); }
  }

  /** Each advance allows one more block, as long as the file has one. */
  lemma AdvanceRaises(p: State, id: nat, cached: set<nat>)
    requires id != 0 && id in p.sessions && p.sessions[id].active
    ensures var before, r := p.sessions[id], Advance(p, id, cached);
            && id in r.sessions
            && r.sessions[id].allowed == before.allowed + (if before.allowed + 1 < |before.file.blocks| then 1 else 0)
  {
  }

  /** In the course of the worker's tasks, block `n` of the session is taken as a task, or it is passed
      over, because the cache has it or another task has claimed it when the session is served. */
  ghost predicate TakenOrPassed(p: State, answers: seq<set<nat>>, id: nat, n: nat)
    requires Valid(p) && p.running.None?
    decreases |answers|
  {
    && p.queue != [] && answers != []
    && (var task := p.queue[0];
        PopValid(p); FinishValid(Pop(p), answers[0]);
        || (task.session == id && task.block == n)
        || (task.session == id && id in p.sessions && n < |p.sessions[id].file.blocks|
            && (n in answers[0] || KeyAt(p.sessions[id], n) in p.pending - {task.key}))
        || TakenOrPassed(Finish(Pop(p), answers[0]), answers[1..], id, n))
  }

  ghost predicate Queued(p: State, id: nat, n: nat) { exists q :: q in p.queue && q.session == id && q.block == n }

  /** What one cycle does to the sessions and tasks that it is not about. */
  lemma CycleKeeps(p: State, cached: set<nat>, id: nat)
    requires Valid(p) && p.running.None? && p.queue != [] && p.queue[0].session != id
    ensures var r := Finish(Pop(p), cached);
            && (id in p.sessions ==> id in r.sessions && r.sessions[id] == p.sessions[id])
            && (forall n: nat :: Queued(p, id, n) ==> Queued(r, id, n))
  {
    PopValid(p);
    var r := Finish(Pop(p), cached);
    forall q | q in p.queue && q.session == id
      ensures q in r.queue
    {
      assert q in p.queue[1..];
    }
  }

  lemma {:induction false} QueuedIsTaken(p: State, answers: seq<set<nat>>, id: nat, n: nat)
    requires Valid(p) && p.running.None? && |answers| >= WorkLeft(p) && Queued(p, id, n)
    ensures TakenOrPassed(p, answers, id, n)
    decreases |answers|
  {
    var q :| q in p.queue && q.session == id && q.block == n;
    WorkerDrains(p, if answers == [] then {} else answers[0]);
    PopValid(p);
    FinishValid(Pop(p), answers[0]);
    if p.queue[0].session == id {
      OneTaskEach(p, q);
    } else {
      CycleKeeps(p, answers[0], id);
      hide Valid, WorkLeft;
      QueuedIsTaken(Finish(Pop(p), answers[0]), answers[1..], id, n);
    }
  }

  lemma OneTaskEach(p: State, q: Task)
    requires Valid(p) && p.running.None? && q in p.queue && p.queue[0].session == q.session
    ensures q == p.queue[0]
  {
    assert Tasks(p) == p.queue;
  }

  /** What one cycle does to the session that it serves. */
  lemma CycleServes(p: State, cached: set<nat>, n: nat)
    requires Valid(p) && p.running.None? && p.queue != []
    requires var id := p.queue[0].session; id in p.sessions && p.sessions[id].next <= n <= p.sessions[id].allowed
    ensures var id, r := p.queue[0].session, Finish(Pop(p), cached);
            && n < |p.sessions[id].file.blocks|
            && (|| n in cached || KeyAt(p.sessions[id], n) in p.pending - {p.queue[0].key}
                || Queued(r, id, n)
                || (id in r.sessions && r.sessions[id].next <= n <= r.sessions[id].allowed))
  {
    var id, task := p.queue[0].session, p.queue[0];
    PopValid(p);
    var idle := Pop(p).(pending := p.pending - {task.key}, running := None,
                        sessions := p.sessions[id := p.sessions[id].(busy := false)]);
    EnqueueQueues(idle, id, cached);
    var session, r := idle.sessions[id], Finish(Pop(p), cached);
    assert Pop(p).running == Some(task) && r == EnqueueNext(idle, id, cached);
    hide EnqueueNext, KeyAt;
    if Lacking(idle, session, cached, n) {
      var first := FirstOne(idle, session, cached, n);
      if first == n {
        assert r.queue[|r.queue| - 1] in r.queue;
      }
    }
  }

  /** Left alone, the worker takes every block from where a session is up to its allowance, but for
      those that are cached or claimed when it comes to them. */
  lemma {:induction false} DrainedTakesEach(p: State, answers: seq<set<nat>>, id: nat, n: nat)
    requires Valid(p) && p.running.None? && |answers| >= WorkLeft(p)
    requires id in p.sessions && p.sessions[id].next <= n <= p.sessions[id].allowed
    ensures TakenOrPassed(p, answers, id, n)
    decreases |answers|
  {
    BusyIsQueued(p, id);
    WorkerDrains(p, if answers == [] then {} else answers[0]);
    PopValid(p);
    FinishValid(Pop(p), answers[0]);
    var r := Finish(Pop(p), answers[0]);
    if p.queue[0].session == id {
      CycleServes(p, answers[0], n);
    } else {
      CycleKeeps(p, answers[0], id);
    }
    hide Valid, WorkLeft, Pop, Finish, KeyAt;
    assert r.running.None?;
    if Queued(r, id, n) {
      QueuedIsTaken(r, answers[1..], id, n);
    } else if id in r.sessions && r.sessions[id].next <= n <= r.sessions[id].allowed {
      DrainedTakesEach(r, answers[1..], id, n);
    }
  }

  lemma BusyIsQueued(p: State, id: nat)
    requires Valid(p) && p.running.None? && id in p.sessions && p.sessions[id].next <= p.sessions[id].allowed
    ensures p.queue != []
  {
    assert Tasks(p) == p.queue;
    assert HasTask(Tasks(p), id);
  }

  lemma {:induction false} OthersSnoc(tasks: seq<Task>, task: Task, id: nat)
    ensures Others(tasks + [task], id) == Others(tasks, id) + if task.session == id then [] else [task]
  {
    if tasks != [] {
      OthersSnoc(tasks[1..], task, id);
      assert (tasks + [task])[1..] == tasks[1..] + [task];
    }
  }

  lemma RemoveNext(tasks: seq<Task>, i: nat, id: nat)
    requires i < |tasks|
    ensures KeysOfSession(tasks[..i + 1], id) ==
            KeysOfSession(tasks[..i], id) + if tasks[i].session == id then {tasks[i].key} else {}
    ensures Others(tasks[..i + 1], id) == Others(tasks[..i], id) + if tasks[i].session == id then [] else [tasks[i]]
  {
    assert tasks[..i + 1] == tasks[..i] + [tasks[i]];
    OthersSnoc(tasks[..i], tasks[i], id);
  }

  // ---------------------------------------------------------------------------------------
  // The object

  /** The fields under the prefetch mutex; `running` is the worker's own task variable. */
  class PrefetchQueue {
    var queue: seq<Task>
    var sessions: map<nat, Session>
    var pending: set<Key>
    var nextId: nat
    var running: Option<Task>

    ghost function Contents(): State
      reads this
    {
      State(queue, sessions, pending, nextId, running)
    }

    constructor ()
      ensures Contents() == EMPTY_QUEUE && Valid(Contents())
    {
      queue, sessions, pending, nextId, running := [], map[], {}, 1, None;
    }

    method StartPrefetchSession(mailbox: string, file: FileRecord, first: nat, cached: set<nat>) returns (id: nat)
      requires Valid(Contents())
      modifies this
      ensures Valid(Contents())
      ensures Contents() == Start(old(Contents()), mailbox, file, first, cached)
      ensures id == StartId(old(Contents()), file, first)
    {
      StartValid(Contents(), mailbox, file, first, cached);
      if first >= |file.blocks| {
        return 0;
      }
      id := nextId;
      nextId := nextId + 1;
      sessions := sessions[id := Session(mailbox, file, first, first, false, true, first, 0)];
      EnqueueNextPrefetchLocked(id, cached);
    }

    method StopPrefetchSession(id: nat)
      requires Valid(Contents())
      modifies this
      ensures Valid(Contents())
      ensures Contents() == Stop(old(Contents()), id)
    {
      StopValid(Contents(), id);
      if id == 0 {
        return;
      }
      sessions := sessions - {id};
      var keys;
      queue, keys := RemoveTasks(queue, id);
      pending := pending - keys;
    }

    /** Walks the queue, takes out the tasks of one session and collects their keys. */
    static method RemoveTasks(tasks: seq<Task>, id: nat) returns (kept: seq<Task>, keys: set<Key>)
      ensures kept == Others(tasks, id)
      ensures keys == KeysOfSession(tasks, id)
    {
      var i := 0;
      kept, keys := [], {};
      while i < |tasks|
        invariant 0 <= i <= |tasks| && kept == Others(tasks[..i], id)
        invariant keys == KeysOfSession(tasks[..i], id)
      {
        RemoveNext(tasks, i, id);
        var task := tasks[i];
        i := i + 1;
        if task.session == id {
          keys := keys + {task.key};
          continue;
        }
        kept := kept + [task];
      }
      assert tasks[..i] == tasks;
    }

    method AdvancePrefetchSession(id: nat, cached: set<nat>)
      requires Valid(Contents())
      modifies this
      ensures Valid(Contents())
      ensures Contents() == Advance(old(Contents()), id, cached)
    {
      AdvanceValid(Contents(), id, cached);
      if id == 0 || id !in sessions || !sessions[id].active {
        return;
      }
      sessions := sessions[id := Raise(sessions[id])];
      EnqueueNextPrefetchLocked(id, cached);
    }

    /** Walks over claimed and cached blocks and queues the first one that is neither. */
    method EnqueueNextPrefetchLocked(id: nat, cached: set<nat>)
      modifies this`queue, this`sessions, this`pending
      ensures Contents() == EnqueueNext(old(Contents()), id, cached)
    {
      if id !in sessions || !sessions[id].active || sessions[id].busy {
        return;
      }
      var session := sessions[id];
      ghost var stop := NextWanted(session, pending, cached, session.next);
      while session.next < |session.file.blocks| && session.next <= session.allowed
        invariant session == old(sessions[id]).(next := session.next)
        invariant NextWanted(old(sessions[id]), pending, cached, session.next) == stop
        invariant Contents() == old(Contents())
        decreases |session.file.blocks| - session.next
      {
        var block := session.next;
        session := session.(next := session.next + 1);
        var key := MakeBlockCacheKey(session.mailbox, session.file.blocks[block].uid);
        if key in pending || block in cached {
          continue;
        }
        sessions := sessions[id := session.(busy := true)];
        pending := pending + {key};
        queue := queue + [Task(id, key, session.mailbox, session.file, block)];
        return;
      }
      sessions := sessions[id := session];
    }

    /** The worker's wake-up: takes the next task, or drops it when its session is gone. */
    method TakeTask() returns (task: Option<Task>)
      requires queue != [] && running.None?
      modifies this
      ensures Contents() == Pop(old(Contents())) && task == running
      ensures old(Valid(Contents())) ==> Valid(Contents()) && task == Some(old(queue[0]))
    {
      if Valid(Contents()) {
        PopValid(Contents());
      }
      var next := queue[0];
      queue := queue[1..];
      if next.session !in sessions || !sessions[next.session].active {
        pending := pending - {next.key};
        return None;
      }
      running := Some(next);
      return running;
    }

    /** The worker's report after a load, whether it succeeded or not. */
    method FinishTask(cached: set<nat>)
      requires Valid(Contents()) && running.Some?
      modifies this
      ensures Valid(Contents())
      ensures Contents() == Finish(old(Contents()), cached)
    {
      FinishValid(Contents(), cached);
      var task := running.value;
      running := None;
      pending := pending - {task.key};
      if task.session in sessions {
        sessions := sessions[task.session := sessions[task.session].(busy := false)];
        if sessions[task.session].active {
          EnqueueNextPrefetchLocked(task.session, cached);
        }
      }
    }
  }
}

/** The download server as a whole: request threads, the prefetch worker and what they share. */
module Server {
  // Request threads stream ranges of files while the prefetch worker runs ahead of them; both use the
  // block cache and the prefetch queue. Each critical section, each end of a fetch and each write to
  // a client is one step, and any enabled step may come next.

  import opened Basics
  import opened Records
  import opened Streaming
  import opened BlockCache
  import P = Prefetch

  /** What stays fixed during a run: the block that each key names on the mail server, and the
      configured block size that stands in for sizes missing from the index. */
  datatype World = World(store: map<Key, Block>, fallback: nat)

  /** How a stream ends: all bytes written, the client gone, a block too short, a load failed. */
  datatype StreamEnd = Completed | Disconnected | Short | LoadFailed

  datatype Position = Looping | Loading | Advancing | Closing(end: StreamEnd) | Finished(end: StreamEnd)

  /** A request thread inside its stream loop; `sent` is what the client accepted so far, in
      `chunks` pieces, and `origin` the block the stream began with. */
  datatype Stream = Stream(
    mailbox: string,
    file: FileRecord,
    first: nat,
    last: nat,
    origin: nat,
    block: nat,
    within: nat,
    remaining: nat,
    session: nat,
    sent: seq<byte>,
    chunks: nat,
    at: Position)

  datatype State = State(cache: Machine, prefetch: P.State, streams: map<Thread, Stream>)

  const START: State := State(EMPTY_CACHE, P.EMPTY_QUEUE, map[])

  /** The prefetch worker's thread; request threads have other numbers. */
  const WORKER: Thread := 0

  datatype Action =
    | Open(thread: Thread, mailbox: string, file: FileRecord, range: ByteRange, cached: set<nat>)
    | LoadNext(thread: Thread)
    | LeaveLoop(thread: Thread)
    | FetchSucceeds(thread: Thread)
    | FetchFails(thread: Thread, error: string)
    | SettleLoad(thread: Thread)
    | WakeWaiter(thread: Thread)
    | Deliver(thread: Thread, accepted: bool)
    | AdvanceSession(thread: Thread, cached: set<nat>)
    | Close(thread: Thread)
    | TakeTask
    | LoadTask
    | FinishTask(cached: set<nat>)

  function BlockKey(s: Stream): Key
    requires s.block < |s.file.blocks|
  {
    P.MakeBlockCacheKey(s.mailbox, s.file.blocks[s.block].uid)
  }

  // ---------------------------------------------------------------------------------------
  // Steps of one stream

  function OpenStream(w: World, mailbox: string, file: FileRecord, range: ByteRange): Stream
    requires range.first <= range.last
  {
    var (block, within) := Locate(file, w.fallback, range.first);
    Stream(mailbox, file, range.first, range.last, block, block, within, range.last - range.first + 1,
           0, [], 0, Looping)
  }

  /** The stream after its load returned: it stops, or the client has taken the next chunk. */
  function AfterLoad(s: Stream, outcome: Outcome, accepted: bool): Stream {
    if outcome.Failed? then s.(at := Closing(LoadFailed))
    else
      var payload := outcome.block.payload;
      if |payload| <= s.within then s.(at := Closing(Short))
      else if !accepted then s.(at := Closing(Disconnected))
      else
        var size := Min(s.remaining, |payload| - s.within);
        s.(sent := s.sent + payload[s.within..s.within + size],
           remaining := s.remaining - size, chunks := s.chunks + 1, at := Advancing)
  }

  function LeftLoop(s: Stream): Stream {
    s.(at := Closing(if s.remaining == 0 then Completed else Short))
  }

  function NextBlock(s: Stream): Stream { s.(block := s.block + 1, within := 0, at := Looping) }

  // ---------------------------------------------------------------------------------------
  // Steps of the system; one that is not enabled changes nothing

  function OpenStep(w: World, s: State, t: Thread, mailbox: string, file: FileRecord, range: ByteRange,
                    cached: set<nat>): State {
    if t == WORKER || t in s.streams || range.first > range.last then s
    else Admit(s, t, OpenStream(w, mailbox, file, range), cached)
  }

  function InSession(s: Stream, id: nat): Stream { s.(session := id) }

  /** The stream asks for a session that begins after its own first block. */
  function Admit(s: State, t: Thread, stream: Stream, cached: set<nat>): State {
    s.(prefetch := P.Start(s.prefetch, stream.mailbox, stream.file, stream.block + 1, cached),
       streams := s.streams[t := InSession(stream, P.StartId(s.prefetch, stream.file, stream.block + 1))])
  }

  predicate WantsBlock(s: Stream) { s.remaining > 0 && s.block < |s.file.blocks| }

  function LoadNextStep(s: State, t: Thread): State {
    if t in s.streams && s.streams[t].at == Looping && t !in s.cache.phases && WantsBlock(s.streams[t])
    then s.(cache := Begin(s.cache, t, BlockKey(s.streams[t])),
            streams := s.streams[t := s.streams[t].(at := Loading)])
    else s
  }

  function LeaveLoopStep(s: State, t: Thread): State {
    if t in s.streams && s.streams[t].at == Looping && !WantsBlock(s.streams[t])
    then s.(streams := s.streams[t := LeftLoop(s.streams[t])])
    else s
  }

  predicate CanFetch(m: Machine, t: Thread) {
    t in m.phases && m.phases[t].Fetching? && m.phases[t].load in m.tables.states
  }

  function FetchSucceedsStep(w: World, s: State, t: Thread): State {
    if CanFetch(s.cache, t) && s.cache.phases[t].key in w.store
    then s.(cache := FetchEnds(s.cache, t, Loaded(w.store[s.cache.phases[t].key])))
    else s
  }

  function FetchFailsStep(s: State, t: Thread, error: string): State {
    if CanFetch(s.cache, t) then s.(cache := FetchEnds(s.cache, t, Failed(error))) else s
  }

  function SettleStep(s: State, t: Thread): State {
    if t in s.cache.phases && s.cache.phases[t].Settling? then s.(cache := Settle(s.cache, t)) else s
  }

  function WakeStep(s: State, t: Thread): State {
    if CanWake(s.cache, t) then s.(cache := Wake(s.cache, t)) else s
  }

  function DeliverStep(s: State, t: Thread, accepted: bool): State {
    if t in s.streams && s.streams[t].at == Loading && t in s.cache.phases && s.cache.phases[t].Returned?
    then s.(cache := Leave(s.cache, t),
            streams := s.streams[t := AfterLoad(s.streams[t], s.cache.phases[t].outcome, accepted)])
    else s
  }

  function AdvanceStep(s: State, t: Thread, cached: set<nat>): State {
    if t in s.streams && s.streams[t].at == Advancing
    then s.(prefetch := P.Advance(s.prefetch, s.streams[t].session, cached),
            streams := s.streams[t := NextBlock(s.streams[t])])
    else s
  }

  function CloseStep(s: State, t: Thread): State {
    if t in s.streams && s.streams[t].at.Closing?
    then s.(prefetch := P.Stop(s.prefetch, s.streams[t].session),
            streams := s.streams[t := s.streams[t].(at := Finished(s.streams[t].at.end))])
    else s
  }

  function TakeTaskStep(s: State): State {
    if s.prefetch.queue != [] && s.prefetch.running.None? then s.(prefetch := P.Pop(s.prefetch)) else s
  }

  function LoadTaskStep(s: State): State {
    if s.prefetch.running.Some? && WORKER !in s.cache.phases
    then s.(cache := Begin(s.cache, WORKER, s.prefetch.running.value.key))
    else s
  }

  function FinishTaskStep(s: State, cached: set<nat>): State {
    if s.prefetch.running.Some? && WORKER in s.cache.phases && s.cache.phases[WORKER].Returned?
    then s.(cache := Leave(s.cache, WORKER), prefetch := P.Finish(s.prefetch, cached))
    else s
  }

  function Step(w: World, s: State, a: Action): State {
    match a
    case Open(t, mailbox, file, range, cached) => OpenStep(w, s, t, mailbox, file, range, cached)
    case LoadNext(t) => LoadNextStep(s, t)
    case LeaveLoop(t) => LeaveLoopStep(s, t)
    case FetchSucceeds(t) => FetchSucceedsStep(w, s, t)
    case FetchFails(t, error) => FetchFailsStep(s, t, error)
    case SettleLoad(t) => SettleStep(s, t)
    case WakeWaiter(t) => WakeStep(s, t)
    case Deliver(t, accepted) => DeliverStep(s, t, accepted)
    case AdvanceSession(t, cached) => AdvanceStep(s, t, cached)
    case Close(t) => CloseStep(s, t)
    case TakeTask => TakeTaskStep(s)
    case LoadTask => LoadTaskStep(s)
    case FinishTask(cached) => FinishTaskStep(s, cached)
  }

  /** The state after a run of actions. */
  function Run(w: World, actions: seq<Action>): State {
    if actions == [] then START
    else Step(w, Run(w, actions[..|actions| - 1]), actions[|actions| - 1])
  }

  // ---------------------------------------------------------------------------------------
  // Invariant

  function Payload(w: World, mailbox: string, block: BlockRecord): seq<byte> {
    var key := P.MakeBlockCacheKey(mailbox, block.uid);
    if key in w.store then w.store[key].payload else []
  }

  function Payloads(w: World, mailbox: string, file: FileRecord): (r: seq<seq<byte>>)
    ensures |r| == |file.blocks|
    ensures forall i :: 0 <= i < |r| ==> r[i] == Payload(w, mailbox, file.blocks[i])
  {
    seq(|file.blocks|, i requires 0 <= i < |file.blocks| => Payload(w, mailbox, file.blocks[i]))
  }

  /** The bytes of the file: the payloads of its blocks, one after the other. */
  function Content(w: World, mailbox: string, file: FileRecord): seq<byte> {
    Concat(Payloads(w, mailbox, file))
  }

  /** The index entry is right about the file, and the range lies inside it. */
  ghost predicate Sound(w: World, s: Stream) {
    && WellRecorded(s.file, w.fallback, Payloads(w, s.mailbox, s.file))
    && s.first <= s.last < s.file.size
  }

  /** The bytes sent so far are the first bytes of the range. */
  ghost predicate SentPrefix(content: seq<byte>, s: Stream) {
    && s.first + |s.sent| + s.remaining == s.last + 1 <= |content|
    && s.sent == content[s.first..s.first + |s.sent|]
  }

  /** The next byte of the range is the one the stream points at. */
  ghost predicate AtNextByte(payloads: seq<seq<byte>>, s: Stream) {
    && s.block < |payloads| && s.within < |payloads[s.block]|
    && s.first + |s.sent| == |Concat(payloads[..s.block])| + s.within
  }

  ghost predicate Sending(w: World, s: Stream) {
    var payloads := Payloads(w, s.mailbox, s.file);
    && SentPrefix(Concat(payloads), s)
    && match s.at
       case Looping => s.remaining > 0 ==> AtNextByte(payloads, s)
       case Loading => s.remaining > 0 && AtNextByte(payloads, s)
       case Advancing =>
         s.block < |payloads| && (s.remaining > 0 ==> s.first + |s.sent| == |Concat(payloads[..s.block + 1])|)
       case Closing(end) => end != Short && (end.Completed? ==> s.remaining == 0)
       case Finished(end) => end != Short && (end.Completed? ==> s.remaining == 0)
  }

  ghost predicate Transfers(w: World, s: Stream) {
    && (s.at == Loading ==> s.block < |s.file.blocks|)
    && (Sound(w, s) ==> Sending(w, s))
  }

  ghost predicate AllTransfer(w: World, streams: map<Thread, Stream>) {
    forall t :: t in streams ==> Transfers(w, streams[t])
  }

  /** Session `session` was opened by this stream, and is advanced once a delivered chunk. */
  ghost predicate Fits(s: Stream, session: P.Session) {
    && session.mailbox == s.mailbox && session.file == s.file
    && session.first == s.origin + 1
    && session.advances + (if s.at == Advancing then 1 else 0) == s.chunks
  }

  ghost predicate Running(streams: map<Thread, Stream>, t: Thread) {
    t in streams && !streams[t].at.Finished?
  }

  ghost predicate Owns(streams: map<Thread, Stream>, t: Thread, id: nat) {
    Running(streams, t) && streams[t].session == id
  }

  ghost predicate AllFit(streams: map<Thread, Stream>, sessions: map<nat, P.Session>) {
    forall t :: Running(streams, t) && streams[t].session != 0 ==>
      streams[t].session in sessions && Fits(streams[t], sessions[streams[t].session])
  }

  ghost predicate AllOwned(streams: map<Thread, Stream>, sessions: map<nat, P.Session>) {
    forall id :: id in sessions ==> id != 0 && exists t :: Owns(streams, t, id)
  }

  ghost predicate NoneShared(streams: map<Thread, Stream>) {
    forall t, u, id :: id != 0 && Owns(streams, t, id) && Owns(streams, u, id) ==> t == u
  }

  /** The sessions are those of the running streams, one each. */
  ghost predicate Linked(streams: map<Thread, Stream>, sessions: map<nat, P.Session>) {
    AllFit(streams, sessions) && AllOwned(streams, sessions) && NoneShared(streams)
  }

  /** A thread is inside a load exactly when it should be, and for the block it needs. */
  ghost predicate ThreadsFit(phases: map<Thread, Phase>, streams: map<Thread, Stream>, running: Option<P.Task>) {
    && WORKER !in streams
    && (forall t :: t in phases && t != WORKER ==>
          && t in streams && streams[t].at == Loading && streams[t].block < |streams[t].file.blocks|
          && phases[t].key == BlockKey(streams[t]))
    && (forall t :: t in streams && streams[t].at == Loading ==> t in phases)
    && (WORKER in phases ==> running.Some? && phases[WORKER].key == running.value.key)
  }

  /** The streams agree with the cache and the prefetch queue. */
  ghost predicate StreamsValid(w: World, streams: map<Thread, Stream>, phases: map<Thread, Phase>, p: P.State) {
    && AllTransfer(w, streams)
    && Linked(streams, p.sessions)
    && ThreadsFit(phases, streams, p.running)
  }

  ghost predicate Valid(w: World, s: State) {
    && MachineValid(s.cache, w.store)
    && P.Valid(s.prefetch)
    && StreamsValid(w, s.streams, s.cache.phases, s.prefetch)
  }

  // ---------------------------------------------------------------------------------------
  // One stream

  lemma OpenSending(w: World, mailbox: string, file: FileRecord, range: ByteRange)
    requires range.first <= range.last
    ensures var s := OpenStream(w, mailbox, file, range); Sound(w, s) ==> Sending(w, s)
  {
    var s := OpenStream(w, mailbox, file, range);
    if Sound(w, s) {
      LocateHoldsByte(file, w.fallback, Payloads(w, mailbox, file), range.first);
    }
  }

  /** Taking as much of the block as the range still needs. */
  lemma ChunkSending(payloads: seq<seq<byte>>, s: Stream, n: Stream)
    requires SentPrefix(Concat(payloads), s) && AtNextByte(payloads, s)
    requires var size := Min(s.remaining, |payloads[s.block]| - s.within);
             && n.first == s.first && n.last == s.last && n.remaining == s.remaining - size
             && n.sent == s.sent + payloads[s.block][s.within..s.within + size]
    ensures SentPrefix(Concat(payloads), n)
    ensures n.remaining > 0 ==> n.first + |n.sent| == |Concat(payloads[..s.block + 1])|
  {
    var size := Min(s.remaining, |payloads[s.block]| - s.within);
    ConcatNext(payloads, s.block);
    ChunkContinues(payloads, s.block, s.within, size, s.first, s.sent);
  }

  lemma AfterLoadSending(w: World, s: Stream, outcome: Outcome, accepted: bool)
    requires Sending(w, s) && s.at == Loading && s.block < |s.file.blocks|
    requires Genuine(w.store, BlockKey(s), outcome)
    ensures Sending(w, AfterLoad(s, outcome, accepted))
  {
    if outcome.Loaded? && accepted {
      var payloads := Payloads(w, s.mailbox, s.file);
      assert payloads[s.block] == outcome.block.payload;
      ChunkSending(payloads, s, AfterLoad(s, outcome, accepted));
    }
  }

  lemma AdvanceSending(w: World, s: Stream)
    requires Sound(w, s) && Sending(w, s) && s.at == Advancing
    ensures Sending(w, NextBlock(s))
  {
    var payloads := Payloads(w, s.mailbox, s.file);
    if s.remaining > 0 {
      assert payloads[..|payloads|] == payloads;
    }
  }

  // ---------------------------------------------------------------------------------------
  // What prefetch steps do to sessions

  /** The same sessions, as far as their streams are concerned. */
  ghost predicate SameSessions(a: map<nat, P.Session>, b: map<nat, P.Session>) {
    && a.Keys == b.Keys
    && forall id :: id in a ==> SameOwner(a[id], b[id]) && a[id].advances == b[id].advances
  }

  ghost predicate SameOwner(a: P.Session, b: P.Session) {
    a.mailbox == b.mailbox && a.file == b.file && a.first == b.first
  }

  lemma EnqueueSessions(p: P.State, id: nat, cached: set<nat>)
    ensures SameSessions(p.sessions, P.EnqueueNext(p, id, cached).sessions)
  {
  }

  lemma StartSessions(p: P.State, mailbox: string, file: FileRecord, first: nat, cached: set<nat>)
    requires P.Valid(p)
    ensures var n, id := P.Start(p, mailbox, file, first, cached), P.StartId(p, file, first);
            && id !in p.sessions && n.running == p.running
            && (id == 0 ==> n.sessions == p.sessions)
            && (id != 0 ==>
                  && id in n.sessions && SameSessions(p.sessions, n.sessions - {id})
                  && n.sessions[id].mailbox == mailbox && n.sessions[id].file == file
                  && n.sessions[id].first == first && n.sessions[id].advances == 0)
  {
    if first < |file.blocks| {
      var session := P.Session(mailbox, file, first, first, false, true, first, 0);
      var begun := p.(sessions := p.sessions[p.nextId := session], nextId := p.nextId + 1);
      EnqueueSessions(begun, p.nextId, cached);
    }
  }

  lemma AdvanceSessions(p: P.State, id: nat, cached: set<nat>)
    requires P.Valid(p) && id in p.sessions
    ensures var n := P.Advance(p, id, cached);
            && n.sessions.Keys == p.sessions.Keys
            && SameSessions(p.sessions - {id}, n.sessions - {id})
            && SameOwner(p.sessions[id], n.sessions[id])
            && n.sessions[id].advances == p.sessions[id].advances + 1
  {
    EnqueueSessions(p.(sessions := p.sessions[id := P.Raise(p.sessions[id])]), id, cached);
  }

  lemma FinishSessions(p: P.State, cached: set<nat>)
    requires p.running.Some?
    ensures SameSessions(p.sessions, P.Finish(p, cached).sessions)
  {
    var task := p.running.value;
    if task.session in p.sessions {
      var idle := p.(pending := p.pending - {task.key}, running := None);
      EnqueueSessions(idle.(sessions := p.sessions[task.session := p.sessions[task.session].(busy := false)]),
                      task.session, cached);
    }
  }

  // ---------------------------------------------------------------------------------------
  // Streams and their sessions

  lemma LinkedSame(streams: map<Thread, Stream>, a: map<nat, P.Session>, b: map<nat, P.Session>)
    requires Linked(streams, a) && SameSessions(a, b)
    ensures Linked(streams, b)
  {
  }

  /** A stream that runs on in its session owns what it owned. */
  lemma OwnersStay(streams: map<Thread, Stream>, t: Thread, stream: Stream, sessions: map<nat, P.Session>)
    requires AllOwned(streams, sessions) && NoneShared(streams)
    requires Running(streams, t) && !stream.at.Finished? && stream.session == streams[t].session
    ensures AllOwned(streams[t := stream], sessions) && NoneShared(streams[t := stream])
  {
    var n := streams[t := stream];
    forall u, id
      ensures Owns(n, u, id) <==> Owns(streams, u, id)
    {
    }
    assert NoneShared(n);
  }

  /** A stream goes on without any effect on its session. */
  lemma LinkedMove(streams: map<Thread, Stream>, sessions: map<nat, P.Session>, t: Thread, stream: Stream)
    requires Linked(streams, sessions) && Running(streams, t) && !stream.at.Finished?
    requires stream.session == streams[t].session
    requires stream.session != 0 && stream.session in sessions ==> Fits(stream, sessions[stream.session])
    ensures Linked(streams[t := stream], sessions)
  {
    OwnersStay(streams, t, stream, sessions);
    assert forall u :: Running(streams[t := stream], u) <==> Running(streams, u);
  }

  lemma LinkedOpen(streams: map<Thread, Stream>, a: map<nat, P.Session>, b: map<nat, P.Session>, t: Thread, stream: Stream)
    requires Linked(streams, a) && t !in streams && !stream.at.Finished?
    requires stream.session !in a
    requires if stream.session == 0 then b == a
             else stream.session in b && SameSessions(a, b - {stream.session}) && Fits(stream, b[stream.session])
    ensures Linked(streams[t := stream], b)
  {
    OpenFits(streams, a, b, t, stream);
    OpenOwned(streams, a, b, t, stream);
  }

  lemma OpenFits(streams: map<Thread, Stream>, a: map<nat, P.Session>, b: map<nat, P.Session>, t: Thread, stream: Stream)
    requires AllFit(streams, a) && t !in streams && stream.session !in a
    requires if stream.session == 0 then b == a
             else stream.session in b && SameSessions(a, b - {stream.session}) && Fits(stream, b[stream.session])
    ensures AllFit(streams[t := stream], b)
  {
    assert forall u :: u != t ==> (Running(streams[t := stream], u) <==> Running(streams, u));
  }

  lemma OpenOwned(streams: map<Thread, Stream>, a: map<nat, P.Session>, b: map<nat, P.Session>, t: Thread, stream: Stream)
    requires Linked(streams, a) && t !in streams && !stream.at.Finished? && stream.session !in a
    requires if stream.session == 0 then b == a else b.Keys == a.Keys + {stream.session}
    ensures AllOwned(streams[t := stream], b) && NoneShared(streams[t := stream])
  {
    var n := streams[t := stream];
    forall u, id
      ensures Owns(n, u, id) <==> Owns(streams, u, id) || (u == t && id == stream.session)
      ensures id != 0 && Owns(streams, u, id) ==> id in a
    {
    }
    assert forall u, id :: id != 0 && Owns(n, u, id) ==> (id in a && Owns(streams, u, id)) || u == t;
    forall id | id in b
      ensures exists u :: Owns(n, u, id)
    {
      if id in a {
        var u :| Owns(streams, u, id);
        assert Owns(n, u, id);
      } else {
        assert Owns(n, t, id);
      }
    }
  }

  lemma LinkedAdvance(streams: map<Thread, Stream>, a: map<nat, P.Session>, b: map<nat, P.Session>, t: Thread, stream: Stream)
    requires Linked(streams, a) && Running(streams, t) && !stream.at.Finished?
    requires stream.session == streams[t].session
    requires if stream.session == 0 then b == a
             else stream.session in b && a.Keys == b.Keys
                  && SameSessions(a - {stream.session}, b - {stream.session}) && Fits(stream, b[stream.session])
    ensures Linked(streams[t := stream], b)
  {
    var n, id := streams[t := stream], stream.session;
    OwnersStay(streams, t, stream, a);
    forall u | Running(n, u) && n[u].session != 0
      ensures n[u].session in b && Fits(n[u], b[n[u].session])
    {
      if u != t && id != 0 {
        assert Owns(streams, u, n[u].session) && Owns(streams, t, id);
        assert n[u].session in a - {id};
      }
    }
  }

  lemma LinkedClose(streams: map<Thread, Stream>, a: map<nat, P.Session>, t: Thread, stream: Stream)
    requires Linked(streams, a) && Running(streams, t) && stream.at.Finished?
    ensures Linked(streams[t := stream], if streams[t].session == 0 then a else a - {streams[t].session})
  {
    var n, id := streams[t := stream], streams[t].session;
    assert Owns(streams, t, id);
    assert forall u, k :: Owns(n, u, k) <==> Owns(streams, u, k) && u != t;
    assert forall u :: Running(n, u) <==> Owns(n, u, if u in n then n[u].session else 0);
  }

  // ---------------------------------------------------------------------------------------
  // Threads

  /** Only thread `t` enters or leaves a load; the others stay in theirs. */
  ghost predicate OnlyChanges(a: map<Thread, Phase>, b: map<Thread, Phase>, t: Thread) {
    forall u :: u != t ==> (u in a <==> u in b) && (u in a ==> a[u].key == b[u].key)
  }

  lemma ThreadsMove(a: map<Thread, Phase>, b: map<Thread, Phase>, streams: map<Thread, Stream>,
                    running: Option<P.Task>, t: Thread, stream: Stream)
    requires ThreadsFit(a, streams, running) && t != WORKER && OnlyChanges(a, b, t)
    requires stream.at == Loading <==> t in b
    requires t in b ==> stream.block < |stream.file.blocks| && b[t].key == BlockKey(stream)
    ensures ThreadsFit(b, streams[t := stream], running)
  {
    hide BlockKey;
    var n := streams[t := stream];
    forall u | u in b && u != WORKER
      ensures u in n && n[u].at == Loading && n[u].block < |n[u].file.blocks| && b[u].key == BlockKey(n[u])
    {
      if u != t { assert u in a && n[u] == streams[u]; }
    }
    forall u | u in n && n[u].at == Loading
      ensures u in b
    {
      if u != t { assert n[u] == streams[u]; }
    }
  }

  lemma ThreadFacts(phases: map<Thread, Phase>, streams: map<Thread, Stream>, running: Option<P.Task>, t: Thread)
    requires ThreadsFit(phases, streams, running) && t in streams
    ensures t != WORKER && (t in phases <==> streams[t].at == Loading)
  {
  }

  lemma StreamTransfers(w: World, streams: map<Thread, Stream>, t: Thread)
    requires AllTransfer(w, streams) && t in streams
    ensures Transfers(w, streams[t])
  {
  }

  lemma ThreadsWorker(a: map<Thread, Phase>, b: map<Thread, Phase>, streams: map<Thread, Stream>,
                      before: Option<P.Task>, after: Option<P.Task>)
    requires ThreadsFit(a, streams, before) && OnlyChanges(a, b, WORKER)
    requires WORKER in b ==> after.Some? && b[WORKER].key == after.value.key
    ensures ThreadsFit(b, streams, after)
  {
  }

  lemma BeginChanges(m: Machine, t: Thread, key: Key)
    ensures OnlyChanges(m.phases, Begin(m, t, key).phases, t)
    ensures t in Begin(m, t, key).phases && Begin(m, t, key).phases[t].key == key
  {
  }

  lemma TransfersMove(w: World, streams: map<Thread, Stream>, t: Thread, stream: Stream)
    requires AllTransfer(w, streams) && Transfers(w, stream)
    ensures AllTransfer(w, streams[t := stream])
  {
  }

  // ---------------------------------------------------------------------------------------
  // Every step keeps the invariant

  lemma OpenKeeps(w: World, s: State, t: Thread, mailbox: string, file: FileRecord, range: ByteRange, cached: set<nat>)
    requires Valid(w, s)
    ensures Valid(w, OpenStep(w, s, t, mailbox, file, range, cached))
  {
    if !(t == WORKER || t in s.streams || range.first > range.last) {
      OpenSending(w, mailbox, file, range);
      AdmitKeeps(w, s, t, OpenStream(w, mailbox, file, range), cached);
    }
  }

  lemma AdmitKeeps(w: World, s: State, t: Thread, begun: Stream, cached: set<nat>)
    requires Valid(w, s) && t != WORKER && t !in s.streams && Transfers(w, begun)
    requires begun.at == Looping && begun.chunks == 0 && begun.origin == begun.block
    ensures Valid(w, Admit(s, t, begun, cached))
  {
    hide MachineValid, P.Valid, Linked, ThreadsFit;
    var n := Admit(s, t, begun, cached);
    assert n.cache == s.cache;
    assert P.Valid(n.prefetch) by {
      P.StartValid(s.prefetch, begun.mailbox, begun.file, begun.block + 1, cached);
    }
    assert AllTransfer(w, n.streams) by {
      AdmitFits(w, s, t, begun);
    }
    assert ThreadsFit(n.cache.phases, n.streams, s.prefetch.running) by {
      AdmitFits(w, s, t, begun);
    }
    assert Linked(n.streams, n.prefetch.sessions) && n.prefetch.running == s.prefetch.running by {
      AdmitLinked(s.prefetch, s.streams, t, begun, cached);
    }
  }

  lemma AdmitFits(w: World, s: State, t: Thread, begun: Stream)
    requires AllTransfer(w, s.streams) && ThreadsFit(s.cache.phases, s.streams, s.prefetch.running)
    requires t != WORKER && t !in s.streams && begun.at == Looping && Transfers(w, begun)
    ensures var streams := s.streams[t := InSession(begun, P.StartId(s.prefetch, begun.file, begun.block + 1))];
            AllTransfer(w, streams) && ThreadsFit(s.cache.phases, streams, s.prefetch.running)
  {
    var stream := InSession(begun, P.StartId(s.prefetch, begun.file, begun.block + 1));
    TransfersIgnoresSession(w, begun, stream.session);
    TransfersMove(w, s.streams, t, stream);
    ThreadsMove(s.cache.phases, s.cache.phases, s.streams, s.prefetch.running, t, stream);
  }

  lemma AdmitLinked(p: P.State, streams: map<Thread, Stream>, t: Thread, begun: Stream, cached: set<nat>)
    requires P.Valid(p) && Linked(streams, p.sessions) && t !in streams
    requires begun.at == Looping && begun.chunks == 0 && begun.origin == begun.block
    ensures var n := P.Start(p, begun.mailbox, begun.file, begun.block + 1, cached);
            n.running == p.running
            && Linked(streams[t := InSession(begun, P.StartId(p, begun.file, begun.block + 1))], n.sessions)
  {
    StartSessions(p, begun.mailbox, begun.file, begun.block + 1, cached);
    LinkedOpen(streams, p.sessions, P.Start(p, begun.mailbox, begun.file, begun.block + 1, cached).sessions,
               t, InSession(begun, P.StartId(p, begun.file, begun.block + 1)));
  }

  lemma TransfersIgnoresSession(w: World, s: Stream, id: nat)
    ensures Transfers(w, InSession(s, id)) == Transfers(w, s)
  {
  }

  lemma LoadNextTransfers(w: World, s: Stream)
    requires Transfers(w, s) && s.at == Looping && WantsBlock(s)
    ensures Transfers(w, s.(at := Loading))
    ensures forall session :: Fits(s, session) ==> Fits(s.(at := Loading), session)
  {
  }

  lemma LoadNextKeeps(w: World, s: State, t: Thread)
    requires Valid(w, s)
    ensures Valid(w, LoadNextStep(s, t))
  {
    if t in s.streams && s.streams[t].at == Looping && t !in s.cache.phases && WantsBlock(s.streams[t]) {
      var key, stream := BlockKey(s.streams[t]), s.streams[t].(at := Loading);
      BeginKeeps(s.cache, w.store, t, key);
      BeginChanges(s.cache, t, key);
      LoadNextTransfers(w, s.streams[t]);
      TransfersMove(w, s.streams, t, stream);
      assert Running(s.streams, t);
      LinkedMove(s.streams, s.prefetch.sessions, t, stream);
      ThreadsMove(s.cache.phases, Begin(s.cache, t, key).phases, s.streams, s.prefetch.running, t, stream);
    }
  }

  lemma LeaveLoopTransfers(w: World, s: Stream)
    requires Transfers(w, s) && s.at == Looping && !WantsBlock(s)
    ensures Transfers(w, LeftLoop(s))
    ensures forall session :: Fits(s, session) ==> Fits(LeftLoop(s), session)
  {
  }

  lemma LeaveLoopKeeps(w: World, s: State, t: Thread)
    requires Valid(w, s)
    ensures Valid(w, LeaveLoopStep(s, t))
  {
    if t in s.streams && s.streams[t].at == Looping && !WantsBlock(s.streams[t]) {
      var stream := LeftLoop(s.streams[t]);
      LeaveLoopTransfers(w, s.streams[t]);
      TransfersMove(w, s.streams, t, stream);
      assert Running(s.streams, t);
      LinkedMove(s.streams, s.prefetch.sessions, t, stream);
      ThreadsMove(s.cache.phases, s.cache.phases, s.streams, s.prefetch.running, t, stream);
    }
  }

  lemma AfterLoadTransfers(w: World, s: Stream, outcome: Outcome, accepted: bool)
    requires Transfers(w, s) && s.at == Loading && s.block < |s.file.blocks|
    requires Genuine(w.store, BlockKey(s), outcome)
    ensures Transfers(w, AfterLoad(s, outcome, accepted))
    ensures var n := AfterLoad(s, outcome, accepted);
            && n.at != Loading && !n.at.Finished? && n.session == s.session
            && (forall session :: Fits(s, session) ==> Fits(n, session))
  {
    if Sound(w, s) {
      AfterLoadSending(w, s, outcome, accepted);
    }
  }

  lemma DeliverKeeps(w: World, s: State, t: Thread, accepted: bool)
    requires Valid(w, s)
    ensures Valid(w, DeliverStep(s, t, accepted))
  {
    hide MachineValid, P.Valid, Linked, ThreadsFit, AllTransfer, Genuine, Transfers, Fits, AfterLoad;
    if t in s.streams && s.streams[t].at == Loading && t in s.cache.phases && s.cache.phases[t].Returned? {
      var phase := s.cache.phases[t];
      var stream := AfterLoad(s.streams[t], phase.outcome, accepted);
      LeaveKeeps(s.cache, w.store, t);
      ReturnedGenuine(s.cache, w.store, t);
      ThreadFacts(s.cache.phases, s.streams, s.prefetch.running, t);
      ThreadKey(s.cache.phases, s.streams, s.prefetch.running, t);
      StreamTransfers(w, s.streams, t);
      AfterLoadTransfers(w, s.streams[t], phase.outcome, accepted);
      TransfersMove(w, s.streams, t, stream);
      if stream.session != 0 { OwnSessionFits(s.streams, s.prefetch.sessions, t); }
      LinkedMove(s.streams, s.prefetch.sessions, t, stream);
      ThreadsMove(s.cache.phases, s.cache.phases - {t}, s.streams, s.prefetch.running, t, stream);
    }
  }

  lemma ReturnedGenuine(m: Machine, store: map<Key, Block>, t: Thread)
    requires MachineValid(m, store) && t in m.phases && m.phases[t].Returned?
    ensures Genuine(store, m.phases[t].key, m.phases[t].outcome)
  {
    assert PhaseValid(m, store, t);
  }

  lemma ThreadKey(phases: map<Thread, Phase>, streams: map<Thread, Stream>, running: Option<P.Task>, t: Thread)
    requires ThreadsFit(phases, streams, running) && t in streams && t in phases
    ensures streams[t].block < |streams[t].file.blocks| && phases[t].key == BlockKey(streams[t])
  {
  }

  lemma OwnSessionFits(streams: map<Thread, Stream>, sessions: map<nat, P.Session>, t: Thread)
    requires Linked(streams, sessions) && Running(streams, t) && streams[t].session != 0
    ensures streams[t].session in sessions && Fits(streams[t], sessions[streams[t].session])
  {
  }

  /** A step inside the cache that moves no thread in or out of a load. */
  lemma CacheStepKeeps(w: World, s: State, n: State)
    requires Valid(w, s) && n.prefetch == s.prefetch && n.streams == s.streams
    requires MachineValid(n.cache, w.store)
    requires n.cache.phases.Keys == s.cache.phases.Keys
    requires forall t :: t in s.cache.phases ==> n.cache.phases[t].key == s.cache.phases[t].key
    ensures Valid(w, n)
  {
  }

  lemma FetchKeeps(w: World, s: State, t: Thread, outcome: Outcome)
    requires Valid(w, s) && CanFetch(s.cache, t) && Genuine(w.store, s.cache.phases[t].key, outcome)
    ensures Valid(w, s.(cache := FetchEnds(s.cache, t, outcome)))
  {
    hide MachineValid, P.Valid, Linked, ThreadsFit, Genuine;
    FetchEndsKeeps(s.cache, w.store, t, outcome);
    CacheStepKeeps(w, s, s.(cache := FetchEnds(s.cache, t, outcome)));
  }

  lemma SettleStepKeeps(w: World, s: State, t: Thread)
    requires Valid(w, s)
    ensures Valid(w, SettleStep(s, t))
  {
    hide MachineValid, P.Valid, Linked, ThreadsFit;
    if t in s.cache.phases && s.cache.phases[t].Settling? {
      SettleKeeps(s.cache, w.store, t);
      CacheStepKeeps(w, s, SettleStep(s, t));
    }
  }

  lemma WakeStepKeeps(w: World, s: State, t: Thread)
    requires Valid(w, s)
    ensures Valid(w, WakeStep(s, t))
  {
    hide MachineValid, P.Valid, Linked, ThreadsFit;
    if CanWake(s.cache, t) {
      WakeKeeps(s.cache, w.store, t);
      CacheStepKeeps(w, s, WakeStep(s, t));
    }
  }

  lemma AdvanceTransfers(w: World, s: Stream)
    requires Transfers(w, s) && s.at == Advancing
    ensures Transfers(w, NextBlock(s))
  {
    if Sound(w, s) {
      AdvanceSending(w, s);
    }
  }

  lemma AdvanceLinked(streams: map<Thread, Stream>, p: P.State, t: Thread, cached: set<nat>)
    requires P.Valid(p) && Linked(streams, p.sessions) && t in streams && streams[t].at == Advancing
    ensures Linked(streams[t := NextBlock(streams[t])], P.Advance(p, streams[t].session, cached).sessions)
  {
    assert Running(streams, t);
    var id := streams[t].session;
    if id != 0 {
      AdvanceSessions(p, id, cached);
    }
    LinkedAdvance(streams, p.sessions, P.Advance(p, id, cached).sessions, t, NextBlock(streams[t]));
  }

  lemma AdvanceKeeps(w: World, s: State, t: Thread, cached: set<nat>)
    requires Valid(w, s)
    ensures Valid(w, AdvanceStep(s, t, cached))
  {
    hide MachineValid, P.Valid, Linked, ThreadsFit, AllTransfer;
    if t in s.streams && s.streams[t].at == Advancing {
      ThreadFacts(s.cache.phases, s.streams, s.prefetch.running, t);
      StreamTransfers(w, s.streams, t);
      var id, stream := s.streams[t].session, NextBlock(s.streams[t]);
      P.AdvanceValid(s.prefetch, id, cached);
      AdvanceTransfers(w, s.streams[t]);
      TransfersMove(w, s.streams, t, stream);
      AdvanceLinked(s.streams, s.prefetch, t, cached);
      AdvanceRunning(s.prefetch, id, cached);
      ThreadsMove(s.cache.phases, s.cache.phases, s.streams, s.prefetch.running, t, stream);
    }
  }

  lemma AdvanceRunning(p: P.State, id: nat, cached: set<nat>)
    ensures P.Advance(p, id, cached).running == p.running
  {
  }

  lemma CloseKeeps(w: World, s: State, t: Thread)
    requires Valid(w, s)
    ensures Valid(w, CloseStep(s, t))
  {
    hide MachineValid, P.Valid, Linked, ThreadsFit, AllTransfer;
    if t in s.streams && s.streams[t].at.Closing? {
      ThreadFacts(s.cache.phases, s.streams, s.prefetch.running, t);
      StreamTransfers(w, s.streams, t);
      var stream := s.streams[t].(at := Finished(s.streams[t].at.end));
      P.StopValid(s.prefetch, s.streams[t].session);
      TransfersMove(w, s.streams, t, stream);
      assert Running(s.streams, t);
      LinkedClose(s.streams, s.prefetch.sessions, t, stream);
      ThreadsMove(s.cache.phases, s.cache.phases, s.streams, s.prefetch.running, t, stream);
    }
  }

  lemma TakeTaskKeeps(w: World, s: State)
    requires Valid(w, s)
    ensures Valid(w, TakeTaskStep(s))
  {
    hide MachineValid, P.Valid, Linked;
    if s.prefetch.queue != [] && s.prefetch.running.None? {
      P.PopValid(s.prefetch);
      LinkedSame(s.streams, s.prefetch.sessions, P.Pop(s.prefetch).sessions);
      ThreadsWorker(s.cache.phases, s.cache.phases, s.streams, None, P.Pop(s.prefetch).running);
    }
  }

  lemma LoadTaskKeeps(w: World, s: State)
    requires Valid(w, s)
    ensures Valid(w, LoadTaskStep(s))
  {
    hide MachineValid, P.Valid, Linked, ThreadsFit;
    if s.prefetch.running.Some? && WORKER !in s.cache.phases {
      var key := s.prefetch.running.value.key;
      BeginKeeps(s.cache, w.store, WORKER, key);
      BeginChanges(s.cache, WORKER, key);
      ThreadsWorker(s.cache.phases, Begin(s.cache, WORKER, key).phases, s.streams, s.prefetch.running, s.prefetch.running);
    }
  }

  lemma FinishTaskKeeps(w: World, s: State, cached: set<nat>)
    requires Valid(w, s)
    ensures Valid(w, FinishTaskStep(s, cached))
  {
    hide MachineValid, P.Valid, Linked, ThreadsFit;
    if s.prefetch.running.Some? && WORKER in s.cache.phases && s.cache.phases[WORKER].Returned? {
      LeaveKeeps(s.cache, w.store, WORKER);
      P.FinishValid(s.prefetch, cached);
      FinishSessions(s.prefetch, cached);
      LinkedSame(s.streams, s.prefetch.sessions, P.Finish(s.prefetch, cached).sessions);
      ThreadsWorker(s.cache.phases, s.cache.phases - {WORKER}, s.streams, s.prefetch.running,
                    P.Finish(s.prefetch, cached).running);
    }
  }

  lemma StepKeeps(w: World, s: State, a: Action)
    requires Valid(w, s)
    ensures Valid(w, Step(w, s, a))
  {
    hide Valid;
    match a
    case Open(t, mailbox, file, range, cached) => OpenKeeps(w, s, t, mailbox, file, range, cached);
    case LoadNext(t) => LoadNextKeeps(w, s, t);
    case LeaveLoop(t) => LeaveLoopKeeps(w, s, t);
    case FetchSucceeds(t) =>
      if CanFetch(s.cache, t) && s.cache.phases[t].key in w.store {
        FetchKeeps(w, s, t, Loaded(w.store[s.cache.phases[t].key]));
      }
    case FetchFails(t, error) =>
      if CanFetch(s.cache, t) { FetchKeeps(w, s, t, Failed(error)); }
    case SettleLoad(t) => SettleStepKeeps(w, s, t);
    case WakeWaiter(t) => WakeStepKeeps(w, s, t);
    case Deliver(t, accepted) => DeliverKeeps(w, s, t, accepted);
    case AdvanceSession(t, cached) => AdvanceKeeps(w, s, t, cached);
    case Close(t) => CloseKeeps(w, s, t);
    case TakeTask => TakeTaskKeeps(w, s);
    case LoadTask => LoadTaskKeeps(w, s);
    case FinishTask(cached) => FinishTaskKeeps(w, s, cached);
  }

  lemma {:induction false} EveryRunValid(w: World, actions: seq<Action>)
    ensures Valid(w, Run(w, actions))
  {
    if actions == [] {
      EmptyValid(w.store);
    } else {
      EveryRunValid(w, actions[..|actions| - 1]);
      StepKeeps(w, Run(w, actions[..|actions| - 1]), actions[|actions| - 1]);
    }
  }

  // ---------------------------------------------------------------------------------------
  // What holds in every run

  /** Whatever the interleaving, what a client has received is the beginning of its range, and all
      of it once the stream reports success; no stream stops because a block is too short. */
  lemma StreamDeliversRange(w: World, actions: seq<Action>, t: Thread)
    requires t in Run(w, actions).streams
    requires Sound(w, Run(w, actions).streams[t])
    ensures var s := Run(w, actions).streams[t];
            var content := Content(w, s.mailbox, s.file);
            && s.last < |content|
            && s.sent <= content[s.first..s.last + 1]
            && (s.at == Finished(Completed) ==> s.sent == content[s.first..s.last + 1])
            && s.at != Finished(Short)
  {
    EveryRunValid(w, actions);
    var s := Run(w, actions).streams[t];
    assert Transfers(w, s);
    var content := Content(w, s.mailbox, s.file);
    PartSoFar(content, s.first, s.last + 1, s.sent);
  }

  predicate Asks(s: Stream, mailbox: string, file: FileRecord, first: nat, last: nat) {
    s.mailbox == mailbox && s.file == file && s.first == first && s.last == last
  }

  lemma StepKeepsRequest(w: World, s: State, a: Action, t: Thread)
    requires t in s.streams
    ensures var n, was := Step(w, s, a).streams, s.streams[t];
            t in n && Asks(n[t], was.mailbox, was.file, was.first, was.last)
  {
    hide OpenStream, AfterLoad;
    if a.Deliver? && a.thread == t && t in s.cache.phases && s.cache.phases[t].Returned? {
      AfterLoadKeepsRequest(s.streams[t], s.cache.phases[t].outcome, a.accepted);
    }
  }

  lemma AfterLoadKeepsRequest(s: Stream, outcome: Outcome, accepted: bool)
    ensures Asks(AfterLoad(s, outcome, accepted), s.mailbox, s.file, s.first, s.last)
  {
  }

  /** Once opened, a stream is about the mailbox, file and range it was opened for, whatever happens. */
  lemma {:induction false} OpenedStays(w: World, before: seq<Action>, after: seq<Action>, t: Thread, mailbox: string,
                                       file: FileRecord, range: ByteRange, cached: set<nat>)
    requires t != 0 && t !in Run(w, before).streams && range.first <= range.last
    ensures var streams := Run(w, before + [Open(t, mailbox, file, range, cached)] + after).streams;
            t in streams && Asks(streams[t], mailbox, file, range.first, range.last)
  {
    var begun := before + [Open(t, mailbox, file, range, cached)];
    if after == [] {
      assert begun + after == begun && begun[..|begun| - 1] == before;
    } else {
      var rest, last := after[..|after| - 1], after[|after| - 1];
      OpenedStays(w, before, rest, t, mailbox, file, range, cached);
      assert (begun + after)[..|begun + after| - 1] == begun + rest;
      StepKeepsRequest(w, Run(w, begun + rest), last, t);
    }
  }

  /** Whoever asks for a range of a well recorded file receives, whatever the interleaving, the beginning
      of just that range of just that file, and all of it once the stream reports success. */
  lemma OpenedDelivers(w: World, before: seq<Action>, after: seq<Action>, t: Thread, mailbox: string,
                       file: FileRecord, range: ByteRange, cached: set<nat>)
    requires t != 0 && t !in Run(w, before).streams && range.first <= range.last < file.size
    requires WellRecorded(file, w.fallback, Payloads(w, mailbox, file))
    ensures var streams := Run(w, before + [Open(t, mailbox, file, range, cached)] + after).streams;
            var content := Content(w, mailbox, file);
            && t in streams && range.last < |content|
            && streams[t].sent <= content[range.first..range.last + 1]
            && (streams[t].at == Finished(Completed) ==> streams[t].sent == content[range.first..range.last + 1])
            && streams[t].at != Finished(Short)
  {
    hide Run, Content, WellRecorded, Payloads;
    OpenedStays(w, before, after, t, mailbox, file, range, cached);
    StreamDeliversRange(w, before + [Open(t, mailbox, file, range, cached)] + after, t);
  }

  ghost predicate Fetches(m: Machine, t: Thread, key: Key) {
    t in m.phases && m.phases[t].Fetching? && m.phases[t].key == key
  }

  /** The cache is an exact LRU cache of at most 32 blocks, all genuine, no key is both cached and
      loading, and no key is fetched by two threads at once. */
  lemma CacheInEveryRun(w: World, actions: seq<Action>)
    ensures var m := Run(w, actions).cache;
            && TablesValid(m.tables)
            && m.tables.order == Take(Recency(m.touched), 32)
            && (forall k :: k in m.tables.entries ==> k in w.store && m.tables.entries[k] == w.store[k])
            && (forall t, u, key :: Fetches(m, t, key) && Fetches(m, u, key) ==> t == u)
  {
    EveryRunValid(w, actions);
    var m := Run(w, actions).cache;
    forall t, u, key | Fetches(m, t, key) && Fetches(m, u, key)
      ensures t == u
    {
      SingleFlight(m, w.store, t, u);
    }
  }

  /** Prefetching stays within the chunks the client has taken: at most one block further than the
      first block of the stream and one more for each delivered chunk. */
  lemma PrefetchStaysNear(w: World, actions: seq<Action>, t: Thread)
    requires Running(Run(w, actions).streams, t) && Run(w, actions).streams[t].session != 0
    ensures var s, sessions := Run(w, actions).streams[t], Run(w, actions).prefetch.sessions;
            && s.session in sessions
            && sessions[s.session].next <= sessions[s.session].allowed + 1 <= |s.file.blocks|
            && sessions[s.session].allowed <= s.origin + 1 + s.chunks
  {
    EveryRunValid(w, actions);
  }

  /** The keys claimed for prefetching are those of the tasks that exist, one task per key and per
      session, and a session lives only as long as a stream that uses it. */
  lemma PrefetchInEveryRun(w: World, actions: seq<Action>)
    ensures var s := Run(w, actions);
            && P.DistinctTasks(P.Tasks(s.prefetch))
            && s.prefetch.pending == P.KeysOf(P.Tasks(s.prefetch))
            && (forall id :: id in s.prefetch.sessions ==>
                  && (s.prefetch.sessions[id].busy <==> P.HasTask(P.Tasks(s.prefetch), id))
                  && exists t :: Owns(s.streams, t, id))
            && ((forall t :: t in s.streams ==> s.streams[t].at.Finished?) ==>
                  s.prefetch.sessions == map[] && s.prefetch.queue == [])
  {
    EveryRunValid(w, actions);
    var s := Run(w, actions);
    assert s.prefetch.queue == [] || s.prefetch.queue[0].session in s.prefetch.sessions;
  }

  /** A step brings back no session that was closed. */
  lemma StepRevivesNone(w: World, s: State, a: Action)
    ensures P.NoRevival(s.prefetch, Step(w, s, a).prefetch)
  {
    match a
    case Open(t, mailbox, file, range, cached) =>
      if !(t == WORKER || t in s.streams || range.first > range.last) {
        var stream := OpenStream(w, mailbox, file, range);
        P.StartRevivesNone(s.prefetch, stream.mailbox, stream.file, stream.block + 1, cached);
      }
    case AdvanceSession(t, cached) =>
      if t in s.streams { P.AdvanceRevivesNone(s.prefetch, s.streams[t].session, cached); }
    case FinishTask(cached) =>
      if s.prefetch.running.Some? { P.FinishRevivesNone(s.prefetch, cached); }
    case _ =>
  }

  lemma {:induction false} ClosedStaysClosed(w: World, before: seq<Action>, after: seq<Action>, id: nat)
    requires id < Run(w, before).prefetch.nextId && id !in Run(w, before).prefetch.sessions
    ensures var p := Run(w, before + after).prefetch; id !in p.sessions && id < p.nextId
  {
    if after == [] {
      assert before + after == before;
    } else {
      var rest, last := after[..|after| - 1], after[|after| - 1];
      ClosedStaysClosed(w, before, rest, id);
      assert (before + after)[..|before + after| - 1] == before + rest;
      StepRevivesNone(w, Run(w, before + rest), last);
    }
  }

  /** Once a session is stopped, no task of it is ever queued again. */
  lemma StoppedForGood(w: World, before: seq<Action>, after: seq<Action>, id: nat)
    requires id < Run(w, before).prefetch.nextId && id !in Run(w, before).prefetch.sessions
    ensures forall q :: q in Run(w, before + after).prefetch.queue ==> q.session != id
  {
    ClosedStaysClosed(w, before, after, id);
    EveryRunValid(w, before + after);
  }

  /** What an unfinished stream does next. */
  function NextMove(s: State, t: Thread): Action
    requires t in s.streams
  {
    var stream := s.streams[t];
    if stream.at.Looping? then
      if WantsBlock(stream) then LoadNext(t) else LeaveLoop(t)
    else if stream.at.Loading? && t in s.cache.phases then
      match s.cache.phases[t]
      case Fetching(_, _) => FetchFails(t, "")
      case Settling(_, _, _) => SettleLoad(t)
      case Waiting(_, _) => WakeWaiter(t)
      case Returned(_, _, _) => Deliver(t, true)
    else if stream.at.Advancing? then AdvanceSession(t, {})
    else Close(t)
  }

  /** Thread `t` waits for a block that another thread is fetching at this moment. */
  ghost predicate WaitsForFetch(m: Machine, t: Thread) {
    && t in m.phases && m.phases[t].Waiting? && m.phases[t].load in m.tables.states
    && CanFetch(m, m.tables.states[m.phases[t].load].owner)
  }

  lemma LoadingCanMove(w: World, s: State, t: Thread)
    requires MachineValid(s.cache, w.store) && t in s.streams && s.streams[t].at == Loading && t in s.cache.phases
    ensures WaitsForFetch(s.cache, t) || Step(w, s, NextMove(s, t)).cache.phases != s.cache.phases
  {
    var a := NextMove(s, t);
    assert PhaseValid(s.cache, w.store, t);
    match s.cache.phases[t]
    case Fetching(_, _) =>
      assert Step(w, s, a) == FetchFailsStep(s, t, "");
      assert Step(w, s, a).cache.phases[t].Settling?;
    case Settling(_, _, _) =>
      assert Step(w, s, a) == SettleStep(s, t);
      assert Step(w, s, a).cache.phases[t].Returned?;
    case Waiting(_, _) =>
      WaiterHasOwner(s.cache, w.store, t);
      if CanWake(s.cache, t) {
        assert Step(w, s, a) == WakeStep(s, t);
        assert Step(w, s, a).cache.phases[t].Returned?;
      }
    case Returned(_, _, _) =>
      assert Step(w, s, a) == DeliverStep(s, t, true);
      assert t !in Step(w, s, a).cache.phases;
  }

  lemma OutsideCanMove(w: World, s: State, t: Thread)
    requires t in s.streams && t !in s.cache.phases && (s.streams[t].at.Looping? || s.streams[t].at.Advancing? || s.streams[t].at.Closing?)
    ensures t in Step(w, s, NextMove(s, t)).streams && Step(w, s, NextMove(s, t)).streams[t].at != s.streams[t].at
  {
    var a := NextMove(s, t);
    match s.streams[t].at
    case Looping =>
      assert Step(w, s, a) == if WantsBlock(s.streams[t]) then LoadNextStep(s, t) else LeaveLoopStep(s, t);
    case Advancing =>
      assert Step(w, s, a) == AdvanceStep(s, t, {});
    case Closing(_) =>
      assert Step(w, s, a) == CloseStep(s, t);
  }

  /** An unfinished stream is never stuck: its next step moves it, or it waits for a fetch that is
      under way. */
  lemma StreamCanMove(w: World, s: State, t: Thread)
    requires Valid(w, s) && Running(s.streams, t)
    ensures || WaitsForFetch(s.cache, t)
            || Step(w, s, NextMove(s, t)).cache.phases != s.cache.phases
            || (t in Step(w, s, NextMove(s, t)).streams && Step(w, s, NextMove(s, t)).streams[t].at != s.streams[t].at)
  {
    assert t != WORKER;
    if s.streams[t].at == Loading {
      LoadingCanMove(w, s, t);
    } else {
      assert t !in s.cache.phases;
      OutsideCanMove(w, s, t);
    }
  }
}

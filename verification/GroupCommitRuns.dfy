/** Write as a protocol: every interleaving of writers, of which the one at the front of the queue works for a group. */
module GroupCommitRuns {
  import opened Bytes
  import opened MemTables
  import opened WriteBatches
  import opened GroupCommit
  import LF = LogFormat

  // Threads are numbered in the order in which they entered the queue.

  /** A group: the threads [from, to), and the operations of their batches, numbered from `before` + 1 on. tmp tells
      whether they were put together in the temporary batch; handed is what iterating over that batch hands out. */
  datatype Group = Group(from: nat, to: nat, before: nat, ops: seq<Op>, tmp: bool, handed: Unpacked)

  /** Where a thread is in Write. */
  datatype Pc =
    | Waiting
    | MakingRoom
    | Logging(g: Group)
    | Syncing(g: Group)
    | Inserting(g: Group, k: nat)
    | Committing(g: Group, status: Status, syncError: bool, inserted: bool)
    | Returned(status: Status)

  /** What became of a group once it was done: its status, and whether it came to be inserted into the memtable. */
  datatype Commit = Commit(g: Group, status: Status, applied: bool)

  /** What an attempt to log a group left: bytes in a file, of which record `start` is the first and which held `prior`
      when it was opened, and whether they are known to be on disk. ok tells how the attempt ended; the writer took
      itself to be at offset before, and at next afterwards. */
  datatype Record = Record(g: Group, onDisk: bool, ok: bool, start: nat, prior: seq<Byte>, offset: nat,
                           bytes: seq<Byte>, next: nat)

  /** What the threads share: the queue, each writer's done flag with its status, the last sequence number, the records
      of all log files (those from fileStart on are in the current one, which held `prior` at first and in which the
      writer takes itself to be at offset), every entry added to a memtable so far, the temporary batch, and the
      background error. base is the last sequence number at the start; syncFailed and commits only record what happened:
      whether a sync ever failed, and the groups that are done. */
  datatype State = State(
    base: nat, crc: LF.Checksum, writers: seq<Writer>, pcs: seq<Pc>, done: seq<Option<Status>>, queue: seq<nat>,
    last: nat, log: seq<Record>, fileStart: nat, prior: seq<Byte>, offset: nat, mem: seq<Entry>, tmp: seq<Op>,
    bgError: Option<Status>, syncFailed: bool, commits: seq<Commit>)

  datatype Event =
    | Enqueue(w: Writer)
    | Wake(t: nat)
    | Lead(t: nat)
    | SwitchLog(t: nat)
    | Room(t: nat, status: Status)
    | Append(t: nat, status: Status, bytes: seq<Byte>, next: nat)
    | Sync(t: nat, status: Status)
    | Insert(t: nat)
    | Finish(t: nat)
    | BackgroundError(status: Status)

  /** The entries for the first n of some operations. */
  function EntriesOf(ops: seq<Op>, before: nat, n: nat): (s: seq<Entry>)
    requires n <= |ops|
    ensures |s| == n
  {
    if n == 0 then [] else EntriesOf(ops, before, n - 1) + [EntryFor(ops[n - 1], before + n)]
  }

  function EntriesFor(ops: seq<Op>, before: nat): seq<Entry> {
    EntriesOf(ops, before, |ops|)
  }

  /** As long as the numbers fit 64 bits, these are the entries that inserting the batch numbers. */
  lemma {:induction false} EntriesAreNumbered(ops: seq<Op>, before: nat, n: nat)
    requires n <= |ops| && before + n < POW64
    ensures EntriesOf(ops, before, n) == Numbered(ops, before + 1)[..n]
  {
    hide Numbered;
    if n > 0 {
      EntriesAreNumbered(ops, before, n - 1);
      NumberedAt(ops, before + 1, n - 1);
      assert (before + 1 + (n - 1)) % POW64 == before + n;
      var s := Numbered(ops, before + 1);
      assert s[..n] == s[..n - 1] + [s[n - 1]];
    }
  }

  /** Syncing the current log file brings its records to disk. */
  function OnDisk(log: seq<Record>, from: nat): (r: seq<Record>)
    ensures |r| == |log|
    ensures forall i :: 0 <= i < |r| ==> r[i] == if i < from then log[i] else log[i].(onDisk := true)
  {
    seq(|log|, i requires 0 <= i < |log| => if i < from then log[i] else log[i].(onDisk := true))
  }

  ghost predicate Shaped(s: State) {
    && |s.pcs| == |s.done| == |s.writers|
    && forall i :: 0 <= i < |s.queue| ==> s.queue[i] < |s.writers|
  }

  /** The writers in the queue. */
  ghost function Queue(s: State): (ws: seq<Writer>)
    requires Shaped(s)
    ensures |ws| == |s.queue| && forall i :: 0 <= i < |ws| ==> ws[i] == s.writers[s.queue[i]]
  {
    seq(|s.queue|, i requires 0 <= i < |s.queue| => s.writers[s.queue[i]])
  }

  /** The group the front writer forms, under the mutex. */
  ghost function Formed(s: State, t: nat): Group
    requires Shaped(s) && s.queue != [] && Queue(s)[0].batch.Some?
  {
    var n := GroupSize(Queue(s));
    var tmp := UsesTmp(Queue(s)[..n]);
    var ops := if tmp then s.tmp + GroupOps(Queue(s)[..n]) else GroupOps(Queue(s)[..n]);
    Group(t, s.queue[n - 1] + 1, s.last, ops, tmp, Unpack(Rep(s.last + 1, ops)))
  }

  /** The leader pops the first n writers, tells them the status, and returns. */
  ghost function Retired(s: State, t: nat, n: nat, c: Commit): State
    requires Shaped(s) && 0 < n <= |s.queue| && t < |s.pcs|
  {
    s.(queue := s.queue[n..],
       done := seq(|s.done|, i requires 0 <= i < |s.done| =>
                 if i in s.queue[..n] && i != t then Some(c.status) else s.done[i]),
       pcs := s.pcs[t := Returned(c.status)],
       commits := s.commits + [c])
  }

  /** What is committed when nothing is logged: a writer without a batch, or one that found no room. */
  function Alone(s: State, t: nat): Group {
    Group(t, t + 1, s.last, [], false, Unpacked([], OK))
  }

  function NewRecord(s: State, g: Group, ok: bool, bytes: seq<Byte>, next: nat): Record {
    Record(g, false, ok, s.fileStart, s.prior, s.offset, bytes, next)
  }

  function At(s: State, t: nat, pc: Pc): State
    requires t < |s.pcs|
  {
    s.(pcs := s.pcs[t := pc])
  }

  /** One step of one thread: what it does between two moments at which others can see it. Inserting goes by what the
      batch, read back, hands out; that may end in an error, and the last sequence number moves on all the same. The
      count of a batch is read as a signed word, and the sequence number must not go back, so no batch comes with more
      operations than that; GroupCounts says that then no group has more. */
  ghost predicate Step(s: State, e: Event, s': State)
    requires Shaped(s)
  {
    match e
    case Enqueue(w) =>
      && Countable(w)
      && s' == s.(writers := s.writers + [w], pcs := s.pcs + [Waiting], done := s.done + [None],
                  queue := s.queue + [|s.writers|])
    case Wake(t) =>
      && t < |s.pcs| && s.pcs[t] == Waiting && s.done[t].Some?
      && s' == At(s, t, Returned(s.done[t].value))
    case Lead(t) =>
      && t < |s.pcs| && s.pcs[t] == Waiting && s.done[t] == None && s.queue != [] && s.queue[0] == t
      && s' == At(s, t, MakingRoom)
    case SwitchLog(t) =>
      && t < |s.pcs| && s.pcs[t] == MakingRoom
      && s' == s.(fileStart := |s.log|, prior := [], offset := 0)
    case Room(t, status) =>
      && t < |s.pcs| && s.pcs[t] == MakingRoom && s.queue != []
      && (s.bgError.Some? ==> status == s.bgError.value)
      && if status == OK && s.writers[t].batch.Some? then
           && Queue(s)[0].batch.Some?
           && var g := Formed(s, t);
              s' == At(s, t, Logging(g)).(tmp := if g.tmp then g.ops else s.tmp)
         else s' == Retired(s, t, 1, Commit(Alone(s, t), status, false))
    case Append(t, status, bytes, next) =>
      && t < |s.pcs| && s.pcs[t].Logging?
      && LF.Leaves(s.crc, s.offset, Rep(s.pcs[t].g.before + 1, s.pcs[t].g.ops), status == OK, bytes, next)
      && var g := s.pcs[t].g;
         s' == At(s, t, if status != OK then Committing(g, status, false, false)
                        else if s.writers[t].sync then Syncing(g) else Inserting(g, 0)).(
                 log := s.log + [NewRecord(s, g, status == OK, bytes, next)], offset := next)
    case Sync(t, status) =>
      && t < |s.pcs| && s.pcs[t].Syncing?
      && var g := s.pcs[t].g;
         s' == At(s, t, if status != OK then Committing(g, status, true, false) else Inserting(g, 0)).(
                 log := if status != OK then s.log else OnDisk(s.log, s.fileStart))
    case Insert(t) =>
      && t < |s.pcs| && s.pcs[t].Inserting?
      && var (g, k) := (s.pcs[t].g, s.pcs[t].k);
         if k < |g.handed.ops| then
           s' == At(s, t, Inserting(g, k + 1)).(mem := s.mem + [EntryFor(g.handed.ops[k], g.before + k + 1)])
         else s' == At(s, t, Committing(g, g.handed.status, false, true))
    case Finish(t) =>
      && t < |s.pcs| && s.pcs[t].Committing?
      && var (g, status, syncError) := (s.pcs[t].g, s.pcs[t].status, s.pcs[t].syncError);
         && g.from < g.to && g.to - g.from <= |s.queue|
         && s' == Retired(s, t, g.to - g.from, Commit(g, status, s.pcs[t].inserted)).(
              bgError := if syncError && s.bgError == None then Some(status) else s.bgError,
              syncFailed := s.syncFailed || syncError,
              tmp := if g.tmp then [] else s.tmp,
              last := g.before + |g.ops|)
    case BackgroundError(status) =>
      s' == s.(bgError := if s.bgError == None && status != OK then Some(status) else s.bgError)
  }

  ghost predicate Initial(s: State) {
    && s.writers == [] && s.pcs == [] && s.done == [] && s.queue == [] && s.last == s.base
    && s.log == [] && s.fileStart == 0 && s.offset % LF.BLOCK_SIZE == |s.prior| % LF.BLOCK_SIZE
    && s.mem == [] && s.tmp == []
    && s.bgError == None && !s.syncFailed && s.commits == []
  }

  // ----- The queue -----

  /** The first thread that is still in the queue. */
  function Front(s: State): int {
    |s.writers| - |s.queue|
  }

  /** The threads in the queue are the last ones that came, in order. Those before them are done; of those in the queue,
      all but the first wait. */
  ghost predicate InLine(count: nat, pcs: seq<Pc>, done: seq<Option<Status>>, queue: seq<nat>) {
    && |pcs| == |done| == count && |queue| <= count
    && var front := count - |queue|;
       && (forall i :: 0 <= i < |queue| ==> queue[i] == front + i)
       && (forall t :: 0 <= t < front ==> pcs[t].Returned? || (pcs[t] == Waiting && done[t].Some?))
       && (forall t :: front < t < count ==> pcs[t] == Waiting && done[t] == None)
       && (queue != [] ==> !pcs[front].Returned? && done[front] == None)
  }

  ghost predicate Queued(s: State) {
    Shaped(s) && InLine(|s.writers|, s.pcs, s.done, s.queue)
  }

  lemma ActiveIsFront(s: State, t: nat)
    requires Queued(s) && t < |s.pcs| && s.pcs[t] != Waiting && !s.pcs[t].Returned?
    ensures t == Front(s) && s.queue != [] && s.queue[0] == t
  {
  }

  lemma WaitingWhere(s: State, t: nat)
    requires Queued(s) && t < |s.pcs| && s.pcs[t] == Waiting
    ensures s.done[t].Some? ==> t < Front(s)
    ensures s.queue != [] && s.queue[0] == t ==> t == Front(s)
  {
  }

  lemma PcChanges(s: State, t: nat, pc: Pc)
    requires Queued(s) && t < |s.pcs|
    requires if t == Front(s) then !pc.Returned? else t < Front(s) && pc.Returned?
    ensures Queued(At(s, t, pc))
  {
  }

  lemma Retires(s: State, t: nat, n: nat, c: Commit)
    requires Queued(s) && 0 < n <= |s.queue| && t == Front(s)
    ensures Queued(Retired(s, t, n, c)) && Front(Retired(s, t, n, c)) == t + n
    ensures forall i :: 0 <= i < |s.done| ==>
              Retired(s, t, n, c).done[i] == if t < i < t + n then Some(c.status) else s.done[i]
  {
    var popped := s.queue[..n];
    forall i | 0 <= i < |s.done| ensures i in popped <==> t <= i < t + n {
      if t <= i < t + n {
        assert popped[i - t] == i;
      }
    }
  }

  lemma Enqueues(s: State, w: Writer, s': State)
    requires Queued(s) && Step(s, Enqueue(w), s')
    ensures Queued(s')
  {
  }

  lemma QueuedStep(s: State, e: Event, s': State)
    requires Queued(s) && Step(s, e, s')
    ensures Queued(s')
  {
    hide Formed, EntriesOf, Queue, Retired, InLine, OnDisk;
    if e.Enqueue? {
      Enqueues(s, e.w, s');
    } else if e.Wake? || e.Lead? {
      QueuedAtRest(s, e, s');
    } else if e.Finish? || (e.Room? && s'.commits != s.commits) {
      QueuedRetires(s, e, s');
    } else if !e.BackgroundError? {
      StepAtFront(s, e, s');
      hide Step;
      ActiveIsFront(s, e.t);
      PcChanges(s, e.t, s'.pcs[e.t]);
    }
  }

  lemma QueuedAtRest(s: State, e: Event, s': State)
    requires Queued(s) && Step(s, e, s') && (e.Wake? || e.Lead?)
    ensures Queued(s')
  {
    hide InLine;
    WaitingWhere(s, e.t);
    PcChanges(s, e.t, s'.pcs[e.t]);
  }

  lemma QueuedRetires(s: State, e: Event, s': State)
    requires Queued(s) && Step(s, e, s') && (e.Finish? || (e.Room? && s'.commits != s.commits))
    ensures Queued(s')
  {
    hide Formed, EntriesOf, Queue, Retired, InLine, OnDisk;
    ActiveIsFront(s, e.t);
    if e.Finish? {
      var g := s.pcs[e.t].g;
      Retires(s, e.t, g.to - g.from, Commit(g, s.pcs[e.t].status, s.pcs[e.t].inserted));
    } else {
      Retires(s, e.t, 1, Commit(Alone(s, e.t), e.status, false));
    }
  }

  /** A step of the front thread that leaves it at the front. */
  ghost predicate AtFront(s: State, e: Event, s': State) {
    e.SwitchLog? || e.Append? || e.Sync? || e.Insert? || (e.Room? && s'.commits == s.commits)
  }

  /** Of what the threads share such a step changes no more than the thread's own place, the log, the memtable and the
      temporary batch. */
  lemma StepAtFront(s: State, e: Event, s': State)
    requires Shaped(s) && Step(s, e, s') && AtFront(s, e, s')
    ensures e.t < |s.pcs| == |s'.pcs| && s.pcs[e.t] != Waiting && !s.pcs[e.t].Returned? && !s'.pcs[e.t].Returned?
    ensures s' == At(s, e.t, s'.pcs[e.t]).(log := s'.log, fileStart := s'.fileStart, prior := s'.prior,
                                             offset := s'.offset, mem := s'.mem, tmp := s'.tmp)
  {
    hide Formed, OnDisk, EntriesOf, Queue, LF.Leaves, Rep;
  }

  // ----- The group in hand -----

  predicate HasGroup(pc: Pc) {
    pc.Logging? || pc.Syncing? || pc.Inserting? || pc.Committing?
  }

  /** What the front thread is doing, if there is one. */
  function FrontPc(count: nat, pcs: seq<Pc>, queue: seq<nat>): Pc {
    if queue != [] && |queue| <= count <= |pcs| then pcs[count - |queue|] else Waiting
  }

  /** The group consists of threads at the front, in queue order, and carries no sync for a leader that has not asked
      for one. */
  ghost predicate GroupOk(writers: seq<Writer>, g: Group) {
    && g.from < g.to <= |writers| && writers[g.from].batch.Some?
    && g.ops == GroupOps(writers[g.from..g.to]) && g.tmp == UsesTmp(writers[g.from..g.to])
    && g.handed == Unpack(Rep(g.before + 1, g.ops)) && |g.ops| < MAX_COUNT
    && NoSyncBehind(writers, g.from, g.to)
  }

  ghost predicate NoSyncBehind(writers: seq<Writer>, from: nat, to: nat) {
    from < to <= |writers| && forall i :: from < i < to && writers[i].sync ==> writers[from].sync
  }

  /** Between groups the temporary batch is empty. */
  ghost predicate InHand(writers: seq<Writer>, front: int, pc: Pc, last: nat, tmp: seq<Op>) {
    if HasGroup(pc) then
      && GroupOk(writers, pc.g) && pc.g.from == front && pc.g.before == last
      && tmp == (if pc.g.tmp then pc.g.ops else [])
      && (pc.Inserting? ==> pc.k <= |pc.g.handed.ops|)
      && (pc.Syncing? ==> writers[front].sync)
      && (pc.Committing? && pc.inserted ==> pc.status == pc.g.handed.status)
      && (pc.Committing? && (pc.syncError || !pc.inserted) ==> pc.status != OK && !pc.inserted)
    else tmp == []
  }

  ghost predicate Working(s: State)
    requires Shaped(s)
  {
    && InHand(s.writers, Front(s), FrontPc(|s.writers|, s.pcs, s.queue), s.last, s.tmp)
    && forall w <- s.writers :: Countable(w)
  }

  predicate Countable(w: Writer) {
    w.batch.Some? ==> |w.batch.value| < MAX_COUNT
  }

  lemma QueueIsSlice(s: State, n: nat)
    requires Queued(s) && n <= |s.queue|
    ensures Queue(s)[..n] == s.writers[Front(s)..Front(s) + n]
  {
  }

  lemma FormedOk(s: State, t: nat)
    requires Queued(s) && s.queue != [] && t == Front(s) && s.writers[t].batch.Some? && s.tmp == []
    requires Countable(s.writers[t])
    ensures Queue(s)[0].batch.Some? && GroupOk(s.writers, Formed(s, t))
    ensures var g := Formed(s, t); g.from == t && g.before == s.last && g.to - g.from <= |s.queue|
  {
    hide GroupOps, UsesTmp, GroupSize, InLine, Unpack, Formed, Queue, NoSyncBehind;
    FormedFields(s, t);
    FormedSync(s, t);
    FormedCount(s, t);
  }

  lemma FormedCount(s: State, t: nat)
    requires Queued(s) && s.queue != [] && t == Front(s) && s.writers[t].batch.Some? && Countable(s.writers[t])
    ensures Queue(s)[0] == s.writers[t]
    ensures var n := GroupSize(Queue(s)); t + n <= |s.writers| && |GroupOps(s.writers[t..t + n])| < MAX_COUNT
  {
    hide GroupOps, GroupSize, InLine, Queue;
    FrontIsFirst(s);
    GroupCounts(Queue(s));
    var n := GroupSize(Queue(s));
    LastOfQueue(s, n);
    QueueIsSlice(s, n);
  }

  lemma FormedFields(s: State, t: nat)
    requires Queued(s) && s.queue != [] && t == Front(s) && s.writers[t].batch.Some? && s.tmp == []
    ensures Queue(s)[0] == s.writers[t]
    ensures var n := GroupSize(Queue(s));
            && 0 < n <= |s.queue| && t + n <= |s.writers|
            && var ops := GroupOps(s.writers[t..t + n]);
               Formed(s, t) == Group(t, t + n, s.last, ops, UsesTmp(s.writers[t..t + n]), Unpack(Rep(s.last + 1, ops)))
  {
    hide GroupOps, UsesTmp, GroupSize, InLine, Unpack, Rep, Queue;
    FrontIsFirst(s);
    var n := GroupSize(Queue(s));
    LastOfQueue(s, n);
    QueueIsSlice(s, n);
    assert [] + GroupOps(s.writers[t..t + n]) == GroupOps(s.writers[t..t + n]);
  }

  lemma FormedSync(s: State, t: nat)
    requires Queued(s) && s.queue != [] && t == Front(s) && s.writers[t].batch.Some?
    ensures Queue(s)[0] == s.writers[t] && NoSyncBehind(s.writers, t, t + GroupSize(Queue(s)))
  {
    hide GroupSize, InLine, Queue;
    FrontIsFirst(s);
    var ws := Queue(s);
    var n := GroupSize(ws);
    LastOfQueue(s, n);
    QueueIsSlice(s, n);
    SyncRule(ws);
    forall i | t < i < t + n && s.writers[i].sync ensures s.writers[t].sync {
      assert s.writers[t..t + n][i - t] == s.writers[i] && ws[..n][i - t] == ws[i - t];
    }
  }

  lemma FrontIsFirst(s: State)
    requires Queued(s) && s.queue != []
    ensures s.queue[0] == Front(s) && 0 <= Front(s) < |s.writers| && Queue(s)[0] == s.writers[Front(s)]
  {
  }

  lemma LastOfQueue(s: State, n: nat)
    requires Queued(s) && 0 < n <= |s.queue|
    ensures s.queue[n - 1] == Front(s) + n - 1 && Front(s) >= 0
  {
  }

  lemma SyncRule(ws: seq<Writer>)
    requires ws != [] && ws[0].batch.Some?
    ensures forall k :: 0 < k < GroupSize(ws) && ws[k].sync ==> ws[0].sync
  {
    var size := ByteSize(ws[0].batch.value);
    GroupRules(ws, 1, size, MaxSize(size));
  }

  lemma GroupStays(writers: seq<Writer>, w: Writer, g: Group)
    requires GroupOk(writers, g)
    ensures GroupOk(writers + [w], g) && g.from < |writers|
  {
    assert (writers + [w])[g.from..g.to] == writers[g.from..g.to];
  }

  lemma FrontAfter(s: State, t: nat, n: nat, c: Commit)
    requires Queued(s) && 0 < n <= |s.queue| && t == Front(s)
    ensures var r := Retired(s, t, n, c); FrontPc(|r.writers|, r.pcs, r.queue) == Waiting
  {
  }

  /** The front thread's place after a step that leaves it at the front. */
  lemma FrontMoves(s: State, e: Event, s': State)
    requires Queued(s) && Queued(s') && Step(s, e, s')
    requires e.SwitchLog? || e.Append? || e.Sync? || e.Insert? || (e.Room? && s'.commits == s.commits)
    ensures e.t == Front(s) == Front(s') && s.writers == s'.writers && s.queue == s'.queue && e.t < |s.writers|
    ensures FrontPc(|s.writers|, s.pcs, s.queue) == s.pcs[e.t] && FrontPc(|s.writers|, s'.pcs, s.queue) == s'.pcs[e.t]
  {
    StepAtFront(s, e, s');
    hide InLine, Step;
    ActiveIsFront(s, e.t);
  }

  /** A step that leaves the front thread alone, or only brings it to the front. */
  lemma FrontRests(s: State, e: Event, s': State)
    requires Queued(s) && Queued(s') && Step(s, e, s') && (e.Wake? || e.Lead? || e.BackgroundError?)
    ensures Front(s) == Front(s') && s.writers == s'.writers && s.queue == s'.queue
    ensures var pc, pc' := FrontPc(|s.writers|, s.pcs, s.queue), FrontPc(|s.writers|, s'.pcs, s.queue);
            pc == pc' || (pc == Waiting && pc' == MakingRoom)
  {
    if !e.BackgroundError? {
      WaitingWhere(s, e.t);
    }
  }

  /** A group is done and its threads have left the queue. */
  lemma FrontLeaves(s: State, e: Event, s': State)
    requires Queued(s) && Queued(s') && Step(s, e, s') && (e.Finish? || (e.Room? && s'.commits != s.commits))
    ensures e.t == Front(s) && s.writers == s'.writers && e.t < |s.writers|
    ensures FrontPc(|s.writers|, s.pcs, s.queue) == s.pcs[e.t] && FrontPc(|s.writers|, s'.pcs, s'.queue) == Waiting
  {
    ActiveIsFront(s, e.t);
    hide InLine, Formed;
    var t := e.t;
    if e.Finish? {
      var g := s.pcs[t].g;
      FrontAfter(s, t, g.to - g.from, Commit(g, s.pcs[t].status, s.pcs[t].inserted));
    } else {
      FrontAfter(s, t, 1, Commit(Alone(s, t), e.status, false));
    }
  }

  lemma WorkingStep(s: State, e: Event, s': State)
    requires Queued(s) && Queued(s') && Step(s, e, s') && Working(s)
    ensures Working(s')
  {
    hide InLine, FrontPc, GroupOk, Formed, OnDisk, LF.Leaves, Rep;
    if e.Enqueue? {
      EnqueueKeepsFront(s, e.w, s');
      var pc := FrontPc(|s.writers|, s.pcs, s.queue);
      if HasGroup(pc) {
        GroupStays(s.writers, e.w, pc.g);
      }
    } else if e.Wake? || e.Lead? || e.BackgroundError? {
      FrontRests(s, e, s');
    } else if e.Finish? || (e.Room? && s'.commits != s.commits) {
      FrontLeaves(s, e, s');
    } else {
      FrontMoves(s, e, s');
      if e.Room? {
        FormedOk(s, e.t);
      }
    }
  }

  lemma EnqueueKeepsFront(s: State, w: Writer, s': State)
    requires Queued(s) && Step(s, Enqueue(w), s')
    ensures Front(s') == Front(s) && FrontPc(|s'.writers|, s'.pcs, s'.queue) == FrontPc(|s.writers|, s.pcs, s.queue)
  {
  }

  // ----- The groups that are done -----

  function NextThread(commits: seq<Commit>): nat {
    if commits == [] then 0 else commits[|commits| - 1].g.to
  }

  function NextSequence(base: nat, commits: seq<Commit>): nat {
    if commits == [] then base
    else commits[|commits| - 1].g.before + |commits[|commits| - 1].g.ops|
  }

  /** Each group begins where the one before it ends, in the queue and in the sequence numbers. */
  ghost predicate Chain(base: nat, commits: seq<Commit>) {
    forall i :: 0 <= i < |commits| ==> InChain(base, commits, i)
  }

  ghost predicate InChain(base: nat, commits: seq<Commit>, i: nat)
    requires i < |commits|
  {
    && commits[i].g.from < commits[i].g.to
    && commits[i].g.from == NextThread(commits[..i]) && commits[i].g.before == NextSequence(base, commits[..i])
  }

  /** A group that succeeded was inserted; one that was inserted has the status its insertion ended with; one that was
      not inserted failed, or was a call without a batch. */
  ghost predicate CommitOk(writers: seq<Writer>, c: Commit) {
    && NoSyncBehind(writers, c.g.from, c.g.to)
    && if c.applied then c.status == c.g.handed.status && GroupOk(writers, c.g)
       else c.status != OK || (IsAlone(c.g) && writers[c.g.from].batch == None)
  }

  predicate IsAlone(g: Group) {
    g == Group(g.from, g.from + 1, g.before, [], false, Unpacked([], OK))
  }

  /** Every thread of the group has been told, or has returned, its status. */
  ghost predicate Told(pcs: seq<Pc>, done: seq<Option<Status>>, c: Commit) {
    && c.g.from < c.g.to <= |pcs| && c.g.to <= |done|
    && pcs[c.g.from] == Returned(c.status)
    && forall t :: c.g.from < t < c.g.to ==>
         done[t] == Some(c.status) && (pcs[t] == Waiting || pcs[t] == Returned(c.status))
  }

  ghost predicate History(s: State)
    requires Shaped(s)
  {
    && Chain(s.base, s.commits) && NextThread(s.commits) == Front(s) && NextSequence(s.base, s.commits) == s.last
    && (forall i :: 0 <= i < |s.commits| ==> CommitOk(s.writers, s.commits[i]))
    && (forall i :: 0 <= i < |s.commits| ==> Told(s.pcs, s.done, s.commits[i]))
  }

  lemma {:induction false} ChainAscends(base: nat, commits: seq<Commit>, i: nat, j: nat)
    requires Chain(base, commits) && i < j < |commits|
    ensures commits[i].g.to <= commits[j].g.from
    ensures commits[i].g.before + |commits[i].g.ops| <= commits[j].g.before
    decreases j
  {
    assert InChain(base, commits, j) && InChain(base, commits, j - 1);
    if i < j - 1 {
      ChainAscends(base, commits, i, j - 1);
    }
    assert commits[..j][|commits[..j]| - 1] == commits[j - 1];
  }

  lemma ChainMore(base: nat, commits: seq<Commit>, c: Commit)
    requires Chain(base, commits) && c.g.from < c.g.to
    requires c.g.from == NextThread(commits) && c.g.before == NextSequence(base, commits)
    ensures Chain(base, commits + [c])
  {
    var more := commits + [c];
    forall i | 0 <= i < |more| ensures InChain(base, more, i) {
      assert more[..i] == if i < |commits| then commits[..i] else commits;
      assert i < |commits| ==> InChain(base, commits, i);
    }
  }

  lemma ToldBefore(s: State, i: nat)
    requires Queued(s) && History(s) && i < |s.commits|
    ensures s.commits[i].g.to <= Front(s)
  {
    hide InLine, CommitOk, Told;
    assert InChain(s.base, s.commits, |s.commits| - 1);
    if i < |s.commits| - 1 {
      ChainAscends(s.base, s.commits, i, |s.commits| - 1);
    }
  }

  lemma CommitStays(writers: seq<Writer>, w: Writer, c: Commit)
    requires CommitOk(writers, c)
    ensures CommitOk(writers + [w], c)
  {
    if c.applied {
      GroupStays(writers, w, c.g);
    }
  }

  /** The commit that a retiring step adds. */
  ghost function Added(s: State, e: Event): Commit
    requires (e.Finish? || e.Room?) && e.t < |s.pcs| && (e.Finish? ==> s.pcs[e.t].Committing?)
  {
    if e.Finish? then Commit(s.pcs[e.t].g, s.pcs[e.t].status, s.pcs[e.t].inserted)
    else Commit(Alone(s, e.t), e.status, false)
  }

  /** What a retiring step does to the queue and the threads. */
  lemma RetiringStep(s: State, e: Event, s': State)
    requires Queued(s) && Step(s, e, s') && (e.Finish? || (e.Room? && s'.commits != s.commits))
    ensures e.t < |s.pcs| && (e.Finish? ==> s.pcs[e.t].Committing?)
    ensures var c := Added(s, e);
            && c.g.from < c.g.to && c.g.to - c.g.from <= |s.queue| && e.t == Front(s)
            && s'.commits == s.commits + [c] && s'.writers == s.writers && s'.base == s.base
            && s'.pcs == s.pcs[e.t := Returned(c.status)] && |s'.done| == |s.done|
            && Front(s') == e.t + (c.g.to - c.g.from)
            && (forall i :: 0 <= i < |s.done| ==>
                 s'.done[i] == if e.t < i < e.t + (c.g.to - c.g.from) then Some(c.status) else s.done[i])
            && s'.last == c.g.before + |c.g.ops|
  {
    hide Formed, Queue, InLine;
    ActiveIsFront(s, e.t);
    var c := Added(s, e);
    Retires(s, e.t, c.g.to - c.g.from, c);
  }

  lemma HistoryMore(s: State, e: Event, s': State)
    requires Queued(s) && Queued(s') && Step(s, e, s') && Working(s) && History(s)
    requires e.Finish? || (e.Room? && s'.commits != s.commits)
    ensures History(s')
  {
    hide Step, CommitOk, Told, Chain, Working, Shaped, Queued, NextThread, NextSequence;
    QueuedShape(s);
    QueuedShape(s');
    ChainAfter(s, e, s');
    OkAfter(s, e, s');
    ToldAfter(s, e, s');
  }

  lemma ChainAfter(s: State, e: Event, s': State)
    requires Queued(s) && Queued(s') && Step(s, e, s') && Working(s) && History(s)
    requires e.Finish? || (e.Room? && s'.commits != s.commits)
    ensures Chain(s'.base, s'.commits)
    ensures NextThread(s'.commits) == Front(s') && NextSequence(s'.base, s'.commits) == s'.last
  {
    hide Step, CommitOk, Told, Chain, Working, Shaped, Queued, Added, NextThread, NextSequence;
    QueuedShape(s);
    RetiringStep(s, e, s');
    AddedOk(s, e, s');
    ChainMore(s.base, s.commits, Added(s, e));
    NextAfter(s.base, s.commits, Added(s, e));
  }

  lemma OkAfter(s: State, e: Event, s': State)
    requires Queued(s) && Queued(s') && Step(s, e, s') && Working(s) && History(s)
    requires e.Finish? || (e.Room? && s'.commits != s.commits)
    ensures forall i :: 0 <= i < |s'.commits| ==> CommitOk(s'.writers, s'.commits[i])
  {
    hide Step, CommitOk, Told, Chain, Working, Shaped, Queued, Added, NextThread, NextSequence;
    QueuedShape(s);
    RetiringStep(s, e, s');
    AddedOk(s, e, s');
    forall i | 0 <= i < |s'.commits| ensures CommitOk(s'.writers, s'.commits[i]) {
      assert s'.commits[i] == if i < |s.commits| then s.commits[i] else Added(s, e);
    }
  }

  lemma NextAfter(base: nat, commits: seq<Commit>, c: Commit)
    ensures NextThread(commits + [c]) == c.g.to && NextSequence(base, commits + [c]) == c.g.before + |c.g.ops|
  {
  }

  lemma ToldAfter(s: State, e: Event, s': State)
    requires Queued(s) && Step(s, e, s') && Working(s) && History(s)
    requires e.Finish? || (e.Room? && s'.commits != s.commits)
    ensures forall i :: 0 <= i < |s'.commits| ==> Told(s'.pcs, s'.done, s'.commits[i])
  {
    hide InLine, Step, CommitOk, Told, Chain, InHand, Added, NextThread, NextSequence;
    RetiringStep(s, e, s');
    FollowersWait(s);
    AddedOk(s, e, s');
    var c := Added(s, e);
    assert OnlyReturns(s.pcs, s.done, s'.pcs, s'.done, Front(s));
    ToldNew(s.pcs, s'.pcs, s'.done, c);
    hide OnlyReturns;
    forall i | 0 <= i < |s'.commits| ensures Told(s'.pcs, s'.done, s'.commits[i]) {
      if i < |s.commits| {
        ToldBefore(s, i);
        ToldStays(s.pcs, s.done, s'.pcs, s'.done, Front(s), s.commits[i]);
      }
    }
  }

  /** Nothing changes for threads that were told, but that they may return. */
  ghost predicate OnlyReturns(pcs: seq<Pc>, done: seq<Option<Status>>, pcs': seq<Pc>, done': seq<Option<Status>>,
                              front: nat)
  {
    && front <= |pcs| <= |pcs'| && front <= |done| <= |done'|
    && forall t :: 0 <= t < front ==>
         && done'[t] == done[t]
         && (pcs'[t] == pcs[t] || (pcs[t] == Waiting && done[t].Some? && pcs'[t] == Returned(done[t].value)))
  }

  lemma ToldStays(pcs: seq<Pc>, done: seq<Option<Status>>, pcs': seq<Pc>, done': seq<Option<Status>>, front: nat,
                  c: Commit)
    requires Told(pcs, done, c) && c.g.to <= front && OnlyReturns(pcs, done, pcs', done', front)
    ensures Told(pcs', done', c)
  {
  }

  lemma ToldNew(pcs: seq<Pc>, pcs': seq<Pc>, done': seq<Option<Status>>, c: Commit)
    requires c.g.from < c.g.to <= |pcs| == |done'| && pcs' == pcs[c.g.from := Returned(c.status)]
    requires forall t :: c.g.from < t < c.g.to ==> pcs[t] == Waiting && done'[t] == Some(c.status)
    ensures Told(pcs', done', c)
  {
  }

  lemma FollowersWait(s: State)
    requires Queued(s)
    ensures forall t :: Front(s) < t < |s.writers| ==> s.pcs[t] == Waiting
  {
  }

  lemma AddedOk(s: State, e: Event, s': State)
    requires Queued(s) && Step(s, e, s') && Working(s) && (e.Finish? || (e.Room? && s'.commits != s.commits))
    ensures e.t < |s.pcs| && (e.Finish? ==> s.pcs[e.t].Committing?)
    ensures var c := Added(s, e); CommitOk(s.writers, c) && c.g.from == e.t && c.g.before == s.last
  {
    ActiveIsFront(s, e.t);
    hide InLine, Formed;
  }

  lemma HistoryStep(s: State, e: Event, s': State)
    requires Queued(s) && Queued(s') && Step(s, e, s') && Working(s) && History(s)
    ensures History(s')
  {
    if e.Finish? || (e.Room? && s'.commits != s.commits) {
      HistoryMore(s, e, s');
    } else {
      Unretired(s, e, s');
      hide InLine, Step, CommitOk, Told, Chain, InHand, Shaped, OnlyReturns;
      forall i | 0 <= i < |s.commits|
        ensures CommitOk(s'.writers, s.commits[i]) && Told(s'.pcs, s'.done, s.commits[i])
      {
        ToldBefore(s, i);
        ToldStays(s.pcs, s.done, s'.pcs, s'.done, Front(s), s.commits[i]);
        if e.Enqueue? {
          CommitStays(s.writers, e.w, s.commits[i]);
        }
      }
    }
  }

  /** What any other step does: only the front thread and threads that were told move. */
  lemma Unretired(s: State, e: Event, s': State)
    requires Queued(s) && Step(s, e, s') && !e.Finish? && !(e.Room? && s'.commits != s.commits)
    ensures s'.commits == s.commits && Front(s') == Front(s) && s'.last == s.last && s'.base == s.base
    ensures s'.writers == if e.Enqueue? then s.writers + [e.w] else s.writers
    ensures OnlyReturns(s.pcs, s.done, s'.pcs, s'.done, Front(s))
  {
    hide InLine, Formed;
    if e.Wake? || e.Lead? {
      WaitingWhere(s, e.t);
    } else if !e.Enqueue? && !e.BackgroundError? {
      StepAtFront(s, e, s');
      hide Step;
      ActiveIsFront(s, e.t);
    }
  }

  // ----- The memtable -----

  /** What the group of a commit added to the memtable. */
  function CommitEntries(c: Commit): seq<Entry> {
    if c.applied then EntriesFor(c.g.handed.ops, c.g.before) else []
  }

  /** The entries of the groups that were inserted. */
  function AppliedEntries(commits: seq<Commit>): seq<Entry> {
    if commits == [] then []
    else AppliedEntries(commits[..|commits| - 1]) + CommitEntries(commits[|commits| - 1])
  }

  /** What the front thread has added of its group so far. */
  function AddedSoFar(pc: Pc): seq<Entry> {
    if pc.Inserting? && pc.k <= |pc.g.handed.ops| then EntriesOf(pc.g.handed.ops, pc.g.before, pc.k)
    else if pc.Committing? && pc.inserted then EntriesFor(pc.g.handed.ops, pc.g.before)
    else []
  }

  ghost predicate Applied(s: State) {
    s.mem == AppliedEntries(s.commits) + AddedSoFar(FrontPc(|s.writers|, s.pcs, s.queue))
  }

  lemma AppliedMore(commits: seq<Commit>, c: Commit)
    ensures AppliedEntries(commits + [c]) == AppliedEntries(commits) + CommitEntries(c)
  {
    assert (commits + [c])[..|commits|] == commits;
  }

  lemma AppliedStep(s: State, e: Event, s': State)
    requires Queued(s) && Queued(s') && Step(s, e, s') && Working(s) && Applied(s)
    ensures Applied(s')
  {
    hide InLine, FrontPc, Formed, Queue, AppliedEntries, GroupOk, OnDisk, LF.Leaves, Rep;
    if e.Finish? || (e.Room? && s'.commits != s.commits) {
      RetiringStep(s, e, s');
      FrontLeaves(s, e, s');
      var c := Added(s, e);
      AppliedMore(s.commits, c);
      assert s'.mem == s.mem;
      assert s'.mem == AppliedEntries(s'.commits) + [];
    } else if e.Enqueue? {
      EnqueueKeepsFront(s, e.w, s');
    } else if e.Wake? || e.Lead? || e.BackgroundError? {
      FrontRests(s, e, s');
    } else {
      FrontMoves(s, e, s');
      Inserts(s, e, s');
    }
  }

  /** A step of the front thread adds at most the next entry. */
  lemma Inserts(s: State, e: Event, s': State)
    requires Queued(s) && Queued(s') && Step(s, e, s') && Working(s)
    requires e.SwitchLog? || e.Append? || e.Sync? || e.Insert? || (e.Room? && s'.commits == s.commits)
    ensures e.t < |s.pcs| && e.t < |s'.pcs| && s'.commits == s.commits
    ensures (s'.mem == s.mem && AddedSoFar(s'.pcs[e.t]) == AddedSoFar(s.pcs[e.t]))
         || exists x :: s'.mem == s.mem + [x] && AddedSoFar(s'.pcs[e.t]) == AddedSoFar(s.pcs[e.t]) + [x]
  {
    if e.Insert? {
      InsertsOne(s, e, s');
    } else {
      InsertsNothing(s, e, s');
    }
  }

  lemma InsertsNothing(s: State, e: Event, s': State)
    requires Queued(s) && Step(s, e, s')
    requires e.SwitchLog? || e.Append? || e.Sync? || (e.Room? && s'.commits == s.commits)
    ensures e.t < |s.pcs| && e.t < |s'.pcs| && s'.commits == s.commits
    ensures s'.mem == s.mem && AddedSoFar(s'.pcs[e.t]) == AddedSoFar(s.pcs[e.t])
  {
    hide InLine, Formed, Queue, OnDisk, EntriesOf;
    if e.Append? || e.Sync? {
      NoEntries(s.pcs[e.t].g.handed.ops, s.pcs[e.t].g.before);
    }
  }

  lemma InsertsOne(s: State, e: Event, s': State)
    requires Queued(s) && Queued(s') && Step(s, e, s') && Working(s) && e.Insert?
    ensures e.t < |s.pcs| && e.t < |s'.pcs| && s'.commits == s.commits
    ensures (s'.mem == s.mem && AddedSoFar(s'.pcs[e.t]) == AddedSoFar(s.pcs[e.t]))
         || exists x :: s'.mem == s.mem + [x] && AddedSoFar(s'.pcs[e.t]) == AddedSoFar(s.pcs[e.t]) + [x]
  {
    hide Step, Working, Queued, EntriesOf, Shaped, InsertsNext, AddedSoFar;
    QueuedShape(s);
    InsertsWithin(s, e, s');
    InsertFacts(s, e, s');
    OneMoreAdded(s.pcs[e.t], s'.pcs[e.t], s.mem, s'.mem);
  }

  lemma InsertsWithin(s: State, e: Event, s': State)
    requires Queued(s) && Queued(s') && Step(s, e, s') && Working(s) && e.Insert?
    ensures e.t < |s.pcs| && s.pcs[e.t].Inserting? && s.pcs[e.t].k <= |s.pcs[e.t].g.handed.ops|
  {
    hide InLine, GroupOk, EntriesOf, FrontPc;
    FrontMoves(s, e, s');
  }

  /** What inserting does: the next of what is handed out, or the end of it. */
  ghost predicate InsertsNext(pc: Pc, pc': Pc, mem: seq<Entry>, mem': seq<Entry>) {
    && pc.Inserting? && pc.k <= |pc.g.handed.ops|
    && var (g, k) := (pc.g, pc.k);
       if k < |g.handed.ops| then
         pc' == Inserting(g, k + 1) && mem' == mem + [EntryFor(g.handed.ops[k], g.before + k + 1)]
       else pc' == Committing(g, g.handed.status, false, true) && mem' == mem
  }

  lemma InsertFacts(s: State, e: Event, s': State)
    requires Queued(s) && Step(s, e, s') && e.Insert? && e.t < |s.pcs| && s.pcs[e.t].Inserting?
    requires s.pcs[e.t].k <= |s.pcs[e.t].g.handed.ops|
    ensures e.t < |s.pcs| == |s'.pcs| && s'.commits == s.commits
    ensures InsertsNext(s.pcs[e.t], s'.pcs[e.t], s.mem, s'.mem)
  {
    hide InLine, EntriesOf;
  }

  lemma OneMoreAdded(pc: Pc, pc': Pc, mem: seq<Entry>, mem': seq<Entry>)
    requires InsertsNext(pc, pc', mem, mem')
    ensures (mem' == mem && AddedSoFar(pc') == AddedSoFar(pc))
         || exists x :: mem' == mem + [x] && AddedSoFar(pc') == AddedSoFar(pc) + [x]
  {
    hide EntriesOf, EntryFor;
    if pc.k < |pc.g.handed.ops| {
      OneEntry(pc.g.handed.ops, pc.g.before, pc.k);
    }
  }

  lemma NoEntries(ops: seq<Op>, before: nat)
    ensures EntriesOf(ops, before, 0) == []
  {
  }

  lemma OneEntry(ops: seq<Op>, before: nat, k: nat)
    requires k < |ops|
    ensures EntriesOf(ops, before, k + 1) == EntriesOf(ops, before, k) + [EntryFor(ops[k], before + k + 1)]
  {
  }

  // ----- The log -----

  ghost predicate Before(a: Group, b: Group) {
    a.to <= b.from && a.before + |a.ops| <= b.before
  }

  /** The records are groups in queue order, each one done or in hand. */
  ghost predicate Logged(writers: seq<Writer>, front: int, pc: Pc, last: nat, log: seq<Record>) {
    && (forall i, j :: 0 <= i < j < |log| ==> Before(log[i].g, log[j].g))
    && (forall i :: 0 <= i < |log| ==> GroupOk(writers, log[i].g))
    && (forall i :: 0 <= i < |log| ==>
          || (log[i].g.to <= front && log[i].g.before + |log[i].g.ops| <= last)
          || (i == |log| - 1 && HasGroup(pc) && !pc.Logging? && log[i].g == pc.g))
  }

  /** A group is logged before any of it is applied; and synced before, if its leader asked for it. */
  ghost predicate LogFirst(sync: bool, pc: Pc, log: seq<Record>, fileStart: nat) {
    && fileStart <= |log|
    && (pc.Syncing? || pc.Inserting? || (pc.Committing? && pc.inserted) ==>
          log != [] && log[|log| - 1].g == pc.g && log[|log| - 1].ok)
    && (pc.Syncing? ==> fileStart < |log|)
    && ((pc.Inserting? || (pc.Committing? && pc.inserted)) && sync ==> log != [] && log[|log| - 1].onDisk)
  }

  /** The record of a group that was applied is in the log, with success, and on disk if the leader asked for a sync. */
  ghost predicate OnRecord(writers: seq<Writer>, log: seq<Record>, c: Commit) {
    c.applied ==>
      (c.g.from < |writers| &&
       exists i :: 0 <= i < |log| && log[i].g == c.g && log[i].ok && (writers[c.g.from].sync ==> log[i].onDisk))
  }

  /** The front thread has a group, and asks for a sync. */
  predicate Asked(s: State) {
    && HasGroup(FrontPc(|s.writers|, s.pcs, s.queue))
    && 0 <= Front(s) < |s.writers| && s.writers[Front(s)].sync
  }

  ghost predicate LogOk(s: State)
    requires Shaped(s)
  {
    var pc := FrontPc(|s.writers|, s.pcs, s.queue);
    && Logged(s.writers, Front(s), pc, s.last, s.log)
    && LogFirst(Asked(s), pc, s.log, s.fileStart)
    && forall i :: 0 <= i < |s.commits| ==> OnRecord(s.writers, s.log, s.commits[i])
  }

  /** The log stays as it is while the front thread moves on, or leaves with its group. */
  lemma LoggedStays(writers: seq<Writer>, front: int, pc: Pc, last: nat, front': int, pc': Pc, last': nat,
                    log: seq<Record>)
    requires Logged(writers, front, pc, last, log) && front <= front' && last <= last'
    requires HasGroup(pc) && !pc.Logging? ==>
               || (HasGroup(pc') && !pc'.Logging? && pc'.g == pc.g)
               || (pc.g.to <= front' && pc.g.before + |pc.g.ops| <= last')
    ensures Logged(writers, front', pc', last', log)
  {
    hide GroupOk, Before;
  }

  /** The group in hand is added to the log. */
  lemma LoggedMore(writers: seq<Writer>, front: int, pc: Pc, last: nat, pc': Pc, log: seq<Record>, r: Record)
    requires Logged(writers, front, pc, last, log) && pc.Logging? && GroupOk(writers, pc.g)
    requires pc.g.from == front && pc.g.before == last && HasGroup(pc') && !pc'.Logging? && pc'.g == pc.g
    requires r.g == pc.g
    ensures Logged(writers, front, pc', last, log + [r])
  {
    hide GroupOk;
    forall i | 0 <= i < |log| ensures Before(log[i].g, pc.g) {
      assert log[i].g.to <= front;
    }
  }

  /** Syncing changes no group. */
  lemma LoggedSame(writers: seq<Writer>, front: int, pc: Pc, last: nat, log: seq<Record>, log': seq<Record>)
    requires Logged(writers, front, pc, last, log) && |log| == |log'|
    requires forall i :: 0 <= i < |log| ==> log'[i].g == log[i].g
    ensures Logged(writers, front, pc, last, log')
  {
    hide GroupOk, Before;
    forall i | 0 <= i < |log'| ensures GroupOk(writers, log'[i].g) {
      assert GroupOk(writers, log[i].g);
    }
    forall i, j | 0 <= i < j < |log'| ensures Before(log'[i].g, log'[j].g) {
      assert Before(log[i].g, log[j].g);
    }
  }

  lemma LogStep(s: State, e: Event, s': State)
    requires Queued(s) && Queued(s') && Step(s, e, s') && Working(s) && History(s) && LogOk(s)
    ensures LogOk(s')
  {
    hide LogOk, Working, History, InLine, Formed;
    if e.Finish? || (e.Room? && s'.commits != s.commits) {
      LogRetires(s, e, s');
    } else if e.Enqueue? {
      LogEnqueues(s, e.w, s');
    } else if e.Wake? || e.Lead? || e.BackgroundError? {
      LogRests(s, e, s');
    } else if e.Append? {
      LogAppends(s, e, s');
    } else if e.Sync? {
      LogSyncs(s, e, s');
    } else {
      LogMoves(s, e, s');
    }
  }

  lemma LogRests(s: State, e: Event, s': State)
    requires Queued(s) && Queued(s') && Step(s, e, s') && LogOk(s) && (e.Wake? || e.Lead? || e.BackgroundError?)
    ensures LogOk(s')
  {
    hide InLine, FrontPc, Step, Queued, Shaped, Logged, LogFirst, OnRecord;
    QueuedShape(s);
    QueuedShape(s');
    FrontRests(s, e, s');
    RestFacts(s, e, s');
    var pc, pc' := FrontPc(|s.writers|, s.pcs, s.queue), FrontPc(|s.writers|, s'.pcs, s.queue);
    LoggedStays(s.writers, Front(s), pc, s.last, Front(s), pc', s.last, s.log);
    LogFirstMoves(Asked(s), Asked(s'), pc, pc', s.log, s.fileStart, s.fileStart);
  }

  lemma QueuedShape(s: State)
    requires Queued(s)
    ensures Shaped(s)
  {
  }

  lemma RestFacts(s: State, e: Event, s': State)
    requires Shaped(s) && Step(s, e, s') && (e.Wake? || e.Lead? || e.BackgroundError?)
    ensures s'.log == s.log && s'.last == s.last && s'.commits == s.commits && s'.fileStart == s.fileStart
  {
    hide Formed, Retired, OnDisk, EntriesOf, Queue;
  }

  /** The front thread moves on with no change to the log: before its group is logged, or while it is inserted. */
  lemma LogFirstMoves(sync: bool, sync': bool, pc: Pc, pc': Pc, log: seq<Record>, fileStart: nat, fileStart': nat)
    requires LogFirst(sync, pc, log, fileStart) && (fileStart' == fileStart || fileStart' <= |log|)
    requires || (pc' == pc && fileStart' == fileStart && sync' == sync) || !HasGroup(pc') || pc'.Logging?
             || (pc.Inserting? && (pc'.Inserting? || pc'.Committing?) && pc'.g == pc.g && sync' == sync)
    ensures LogFirst(sync', pc', log, fileStart')
  {
  }

  lemma LogMoves(s: State, e: Event, s': State)
    requires Queued(s) && Queued(s') && Step(s, e, s') && LogOk(s)
    requires e.SwitchLog? || e.Insert? || (e.Room? && s'.commits == s.commits)
    ensures LogOk(s')
  {
    hide InLine, FrontPc, OnRecord, Logged, LogFirst, Step, Queued, Shaped;
    QueuedShape(s);
    QueuedShape(s');
    FrontMoves(s, e, s');
    MoveFacts(s, e, s');
    LoggedStays(s.writers, Front(s), s.pcs[e.t], s.last, Front(s), s'.pcs[e.t], s.last, s.log);
    LogFirstMoves(Asked(s), Asked(s'), s.pcs[e.t], s'.pcs[e.t], s.log, s.fileStart, s'.fileStart);
  }

  lemma MoveFacts(s: State, e: Event, s': State)
    requires Queued(s) && Step(s, e, s') && (e.SwitchLog? || e.Insert? || (e.Room? && s'.commits == s.commits))
    ensures e.t < |s.pcs| == |s'.pcs| && s'.log == s.log && s'.last == s.last && s'.commits == s.commits
    ensures s'.fileStart == if e.SwitchLog? then |s.log| else s.fileStart
    ensures var pc, pc' := s.pcs[e.t], s'.pcs[e.t];
            if e.Insert? then pc.Inserting? && (pc'.Inserting? || (pc'.Committing? && pc'.inserted)) && pc'.g == pc.g
            else pc == MakingRoom && (pc' == MakingRoom || pc'.Logging?)
  {
    hide InLine, EntriesOf, Queue, GroupSize, GroupOps, UsesTmp;
  }

  lemma LogEnqueues(s: State, w: Writer, s': State)
    requires Queued(s) && Step(s, Enqueue(w), s') && Working(s) && LogOk(s) && History(s)
    ensures Queued(s') && LogOk(s')
  {
    Enqueues(s, w, s');
    EnqueueKeepsFront(s, w, s');
    hide InLine, FrontPc, GroupOk, Before, Chain, CommitOk, Told;
    forall i | 0 <= i < |s.log| ensures GroupOk(s'.writers, s.log[i].g) {
      GroupStays(s.writers, w, s.log[i].g);
    }
    FrontInRange(s);
  }

  lemma FrontInRange(s: State)
    requires Queued(s)
    ensures 0 <= Front(s) <= |s.writers|
    ensures HasGroup(FrontPc(|s.writers|, s.pcs, s.queue)) ==> Front(s) < |s.writers|
  {
  }

  /** The group in hand comes after all that is logged. */
  lemma LogAppends(s: State, e: Event, s': State)
    requires Queued(s) && Queued(s') && Step(s, e, s') && Working(s) && LogOk(s) && e.Append?
    ensures LogOk(s')
  {
    assert Shaped(s) && Shaped(s');
    hide InLine, FrontPc, GroupOk, Step, Queued, OnRecord, Shaped, Logged, LogFirst;
    FrontMoves(s, e, s');
    AppendFacts(s, e, s');
    LoggedMore(s.writers, Front(s), s.pcs[e.t], s.last, s'.pcs[e.t], s.log,
               NewRecord(s, s.pcs[e.t].g, e.status == OK, e.bytes, e.next));
    LogFirstMore(s.writers[e.t].sync, s.pcs[e.t], s'.pcs[e.t], s.log, s'.log, s.fileStart);
    forall i | 0 <= i < |s.commits| ensures OnRecord(s.writers, s'.log, s.commits[i]) {
      RecordStays(s.writers, s.log, s'.log, s.commits[i]);
    }
  }

  lemma LogFirstMore(sync: bool, pc: Pc, pc': Pc, log: seq<Record>, log': seq<Record>, fileStart: nat)
    requires LogFirst(sync, pc, log, fileStart) && pc.Logging?
    requires |log'| == |log| + 1 && log'[|log|].g == pc.g && (log'[|log|].ok || pc'.Committing?)
    requires || (pc'.Committing? && !pc'.inserted) || (pc'.Syncing? && pc'.g == pc.g)
             || (!sync && pc'.Inserting? && pc'.g == pc.g)
    ensures LogFirst(sync, pc', log', fileStart)
  {
  }

  lemma AppendFacts(s: State, e: Event, s': State)
    requires Queued(s) && Step(s, e, s') && e.Append?
    ensures e.t < |s.pcs| == |s'.pcs| && s.pcs[e.t].Logging?
    ensures s'.commits == s.commits && s'.last == s.last && s'.fileStart == s.fileStart
    ensures var g := s.pcs[e.t].g;
            && s'.log == s.log + [NewRecord(s, g, e.status == OK, e.bytes, e.next)]
            && s'.pcs[e.t] == if e.status != OK then Committing(g, e.status, false, false)
                              else if s.writers[e.t].sync then Syncing(g) else Inserting(g, 0)
  {
    hide InLine;
  }

  lemma RecordStays(writers: seq<Writer>, log: seq<Record>, log': seq<Record>, c: Commit)
    requires OnRecord(writers, log, c) && |log| <= |log'|
    requires forall i :: 0 <= i < |log| ==>
               log'[i].g == log[i].g && log'[i].ok == log[i].ok && (log[i].onDisk ==> log'[i].onDisk)
    ensures OnRecord(writers, log', c)
  {
    if c.applied {
      var i :| 0 <= i < |log| && log[i].g == c.g && log[i].ok && (writers[c.g.from].sync ==> log[i].onDisk);
      assert log'[i].g == c.g && log'[i].ok;
    }
  }

  lemma LogSyncs(s: State, e: Event, s': State)
    requires Queued(s) && Queued(s') && Step(s, e, s') && Working(s) && LogOk(s) && e.Sync?
    ensures LogOk(s')
  {
    assert Shaped(s) && Shaped(s');
    hide InLine, FrontPc, GroupOk, Step, Queued, OnRecord, Shaped, Logged, LogFirst;
    FrontMoves(s, e, s');
    SyncFacts(s, e, s');
    LogFirstSynced(s.writers[e.t].sync, s.pcs[e.t], s'.pcs[e.t], s.log, s'.log, s.fileStart);
    LoggedStays(s.writers, Front(s), s.pcs[e.t], s.last, Front(s), s'.pcs[e.t], s.last, s.log);
    LoggedSame(s.writers, Front(s), s'.pcs[e.t], s.last, s.log, s'.log);
    forall i | 0 <= i < |s.commits| ensures OnRecord(s.writers, s'.log, s.commits[i]) {
      RecordStays(s.writers, s.log, s'.log, s.commits[i]);
    }
  }

  lemma LogFirstSynced(sync: bool, pc: Pc, pc': Pc, log: seq<Record>, log': seq<Record>, fileStart: nat)
    requires LogFirst(sync, pc, log, fileStart) && pc.Syncing? && |log'| == |log|
    requires forall i :: 0 <= i < |log| ==>
             && log'[i].g == log[i].g && log'[i].ok == log[i].ok
             && (pc'.Inserting? && i >= fileStart ==> log'[i].onDisk)
    requires (pc'.Committing? && !pc'.inserted) || (pc'.Inserting? && pc'.g == pc.g)
    ensures LogFirst(sync, pc', log', fileStart)
  {
    assert log'[|log| - 1].g == log[|log| - 1].g;
  }

  lemma SyncFacts(s: State, e: Event, s': State)
    requires Queued(s) && Step(s, e, s') && e.Sync?
    ensures e.t < |s.pcs| == |s'.pcs| && s.pcs[e.t].Syncing? && |s'.log| == |s.log|
    ensures s'.commits == s.commits && s'.last == s.last && s'.fileStart == s.fileStart
    ensures forall i :: 0 <= i < |s.log| ==>
              && s'.log[i].g == s.log[i].g && s'.log[i].ok == s.log[i].ok && (s.log[i].onDisk ==> s'.log[i].onDisk)
              && (e.status == OK && i >= s.fileStart ==> s'.log[i].onDisk)
    ensures var g := s.pcs[e.t].g;
            s'.pcs[e.t] == if e.status != OK then Committing(g, e.status, true, false) else Inserting(g, 0)
  {
    hide InLine;
  }

  lemma LogRetires(s: State, e: Event, s': State)
    requires Queued(s) && Queued(s') && Step(s, e, s') && Working(s) && LogOk(s)
    requires e.Finish? || (e.Room? && s'.commits != s.commits)
    ensures LogOk(s')
  {
    hide InLine, FrontPc, Step, Queued, Working, Shaped, Logged, LogFirst, OnRecord;
    QueuedShape(s);
    QueuedShape(s');
    RetireFacts(s, e, s');
    RetiredOnRecord(s, e, s');
    RetiredLogged(s, e, s');
    FrontLeaves(s, e, s');
    LogFirstMoves(Asked(s), Asked(s'), s.pcs[e.t], Waiting, s.log, s.fileStart, s.fileStart);
  }

  /** The records are in order, and those of the group that leaves are now done. */
  lemma RetiredLogged(s: State, e: Event, s': State)
    requires Queued(s) && Queued(s') && Step(s, e, s') && Working(s) && LogOk(s)
    requires e.Finish? || (e.Room? && s'.commits != s.commits)
    ensures Logged(s'.writers, Front(s'), Waiting, s'.last, s.log)
  {
    RetireFacts(s, e, s');
    assert Shaped(s) && Shaped(s');
    hide InLine, FrontPc, GroupOk, Step, Queued, CommitOk, Shaped, Logged, OnRecord, LogFirst;
    RetiringStep(s, e, s');
    FrontLeaves(s, e, s');
    AddedOk(s, e, s');
    LoggedStays(s.writers, Front(s), s.pcs[e.t], s.last, Front(s'), Waiting, s'.last, s.log);
  }

  /** A group that was inserted is in the last record. */
  lemma RetiringRecord(s: State, e: Event, s': State)
    requires Queued(s) && Queued(s') && Step(s, e, s') && Working(s) && LogOk(s) && e.Finish?
    ensures e.t < |s.pcs| && s.pcs[e.t].Committing? && s'.writers == s.writers
    ensures s.pcs[e.t].inserted ==>
              var g := s.pcs[e.t].g;
              && g.from < |s.writers| && s.log != [] && s.log[|s.log| - 1].g == g && s.log[|s.log| - 1].ok
              && (s.writers[g.from].sync ==> s.log[|s.log| - 1].onDisk)
  {
    RetireFacts(s, e, s');
    FrontLeaves(s, e, s');
    hide InLine, FrontPc, Step, Queued, Logged, OnRecord;
  }

  lemma RetiredOnRecord(s: State, e: Event, s': State)
    requires Queued(s) && Queued(s') && Step(s, e, s') && Working(s) && LogOk(s)
    requires e.Finish? || (e.Room? && s'.commits != s.commits)
    ensures forall i :: 0 <= i < |s'.commits| ==> OnRecord(s'.writers, s.log, s'.commits[i])
  {
    hide Step, Queued, Working, LogOk, OnRecord, Shaped;
    QueuedShape(s);
    EarlierOnRecord(s);
    AddedOnRecord(s, e, s');
    var c := Added(s, e);
    forall i | 0 <= i < |s'.commits| ensures OnRecord(s'.writers, s.log, s'.commits[i]) {
      assert s'.commits[i] == if i < |s.commits| then s.commits[i] else c;
    }
  }

  lemma EarlierOnRecord(s: State)
    requires Shaped(s) && LogOk(s)
    ensures forall i :: 0 <= i < |s.commits| ==> OnRecord(s.writers, s.log, s.commits[i])
  {
    hide Logged, LogFirst, OnRecord, FrontPc, Asked, Shaped;
  }

  lemma AddedOnRecord(s: State, e: Event, s': State)
    requires Queued(s) && Queued(s') && Step(s, e, s') && Working(s) && LogOk(s)
    requires e.Finish? || (e.Room? && s'.commits != s.commits)
    ensures e.t < |s.pcs| && (e.Finish? ==> s.pcs[e.t].Committing?) && s'.writers == s.writers
    ensures s'.commits == s.commits + [Added(s, e)] && OnRecord(s.writers, s.log, Added(s, e))
  {
    hide Step, Queued, Working, LogOk, OnRecord, Shaped;
    QueuedShape(s);
    RetiringStep(s, e, s');
    var c := Added(s, e);
    if c.applied {
      RetiringRecord(s, e, s');
      NewOnRecord(s.writers, s.log, c);
    } else {
      NotApplied(s.writers, s.log, c);
    }
  }

  lemma NewOnRecord(writers: seq<Writer>, log: seq<Record>, c: Commit)
    requires c.g.from < |writers| && log != [] && log[|log| - 1].g == c.g && log[|log| - 1].ok
    requires writers[c.g.from].sync ==> log[|log| - 1].onDisk
    ensures OnRecord(writers, log, c)
  {
  }

  lemma NotApplied(writers: seq<Writer>, log: seq<Record>, c: Commit)
    requires !c.applied
    ensures OnRecord(writers, log, c)
  {
  }

  lemma RetireFacts(s: State, e: Event, s': State)
    requires Queued(s) && Step(s, e, s') && (e.Finish? || (e.Room? && s'.commits != s.commits))
    ensures s'.log == s.log && s'.fileStart == s.fileStart
    ensures e.t < |s.pcs| && if e.Finish? then s.pcs[e.t].Committing? else s.pcs[e.t] == MakingRoom
  {
    hide InLine, Formed;
  }

  // ----- The log files -----

  /** The bytes are what the attempt may have left. */
  ghost predicate Attempted(crc: LF.Checksum, r: Record) {
    LF.Leaves(crc, r.offset, Rep(r.g.before + 1, r.g.ops), r.ok, r.bytes, r.next)
  }

  /** A record is the first of its file, or goes on where the one before it ended. */
  ghost predicate InFile(log: seq<Record>, i: nat)
    requires i < |log|
  {
    && log[i].start <= i
    && if log[i].start == i then log[i].offset % LF.BLOCK_SIZE == |log[i].prior| % LF.BLOCK_SIZE
       else log[i - 1].start == log[i].start && log[i - 1].prior == log[i].prior && log[i].offset == log[i - 1].next
  }

  /** So does the writer. */
  ghost predicate WriterAt(log: seq<Record>, start: nat, prior: seq<Byte>, offset: nat) {
    && start <= |log|
    && if start == |log| then offset % LF.BLOCK_SIZE == |prior| % LF.BLOCK_SIZE
       else log[|log| - 1].start == start && log[|log| - 1].prior == prior && offset == log[|log| - 1].next
  }

  ghost predicate Filed(s: State) {
    && (forall i :: 0 <= i < |s.log| ==> Attempted(s.crc, s.log[i]) && InFile(s.log, i))
    && WriterAt(s.log, s.fileStart, s.prior, s.offset)
  }

  lemma FiledStep(s: State, e: Event, s': State)
    requires Shaped(s) && Step(s, e, s') && Filed(s)
    ensures Filed(s')
  {
    hide Step, Attempted, InFile, WriterAt;
    FileFacts(s, e, s');
    if e.SwitchLog? {
      NewFile(s.log);
    } else if e.Append? {
      forall i | 0 <= i < |s.log| ensures Attempted(s.crc, s'.log[i]) && InFile(s'.log, i) {
        InFileSame(s.log, s'.log, i);
      }
      AppendedInFile(s, e, s');
    } else {
      forall i | 0 <= i < |s.log| ensures Attempted(s.crc, s'.log[i]) && InFile(s'.log, i) {
        InFileSame(s.log, s'.log, i);
        AttemptedSame(s.crc, s.log[i], s'.log[i]);
      }
      WriterStays(s.log, s'.log, s.fileStart, s.prior, s.offset);
    }
  }

  /** What becomes of the log and its file. */
  lemma FileFacts(s: State, e: Event, s': State)
    requires Shaped(s) && Step(s, e, s')
    ensures s'.crc == s.crc
    ensures e.SwitchLog? ==> s'.log == s.log && s'.fileStart == |s.log| && s'.prior == [] && s'.offset == 0
    ensures !e.SwitchLog? ==> s'.fileStart == s.fileStart && s'.prior == s.prior
    ensures !e.SwitchLog? && !e.Append? ==>
              && s'.offset == s.offset && |s'.log| == |s.log|
              && forall i :: 0 <= i < |s.log| ==> SameBytes(s.log[i], s'.log[i])
    ensures e.Append? ==>
              && e.t < |s.pcs| && s.pcs[e.t].Logging? && s'.offset == e.next
              && var g := s.pcs[e.t].g;
                 && s'.log == s.log + [NewRecord(s, g, e.status == OK, e.bytes, e.next)]
                 && LF.Leaves(s.crc, s.offset, Rep(g.before + 1, g.ops), e.status == OK, e.bytes, e.next)
  {
    hide Formed, EntriesOf, Queue, LF.Leaves, Rep;
  }

  /** Syncing changes no more of a record than that it is on disk. */
  predicate SameBytes(a: Record, b: Record) {
    b == a.(onDisk := b.onDisk)
  }

  lemma InFileSame(log: seq<Record>, log': seq<Record>, i: nat)
    requires i < |log| <= |log'| && InFile(log, i)
    requires forall k :: 0 <= k < |log| ==> SameBytes(log[k], log'[k])
    ensures InFile(log', i)
  {
    assert SameBytes(log[i], log'[i]) && (i > 0 ==> SameBytes(log[i - 1], log'[i - 1]));
  }

  lemma AttemptedSame(crc: LF.Checksum, a: Record, b: Record)
    requires Attempted(crc, a) && SameBytes(a, b)
    ensures Attempted(crc, b)
  {
    hide LF.Leaves;
  }

  lemma NewFile(log: seq<Record>)
    ensures WriterAt(log, |log|, [], 0)
  {
  }

  lemma WriterStays(log: seq<Record>, log': seq<Record>, start: nat, prior: seq<Byte>, offset: nat)
    requires WriterAt(log, start, prior, offset) && |log'| == |log|
    requires forall k :: 0 <= k < |log| ==> SameBytes(log[k], log'[k])
    ensures WriterAt(log', start, prior, offset)
  {
    assert |log| > 0 ==> SameBytes(log[|log| - 1], log'[|log| - 1]);
  }

  lemma AppendedInFile(s: State, e: Event, s': State)
    requires e.Append? && e.t < |s.pcs| && s.pcs[e.t].Logging? && WriterAt(s.log, s.fileStart, s.prior, s.offset)
    requires var g := s.pcs[e.t].g;
             && s'.log == s.log + [NewRecord(s, g, e.status == OK, e.bytes, e.next)]
             && LF.Leaves(s.crc, s.offset, Rep(g.before + 1, g.ops), e.status == OK, e.bytes, e.next)
    ensures Attempted(s.crc, s'.log[|s.log|]) && InFile(s'.log, |s.log|)
    ensures WriterAt(s'.log, s.fileStart, s.prior, e.next)
  {
    hide LF.Leaves;
  }

  // ----- After a failed sync -----

  ghost predicate FailStop(s: State) {
    && (s.bgError.Some? ==> s.bgError.value != OK)
    && (s.syncFailed ==> s.bgError.Some? && !HasGroup(FrontPc(|s.writers|, s.pcs, s.queue)))
  }

  lemma FailStopStep(s: State, e: Event, s': State)
    requires Queued(s) && Queued(s') && Step(s, e, s') && Working(s) && FailStop(s)
    ensures FailStop(s')
  {
    hide InLine, FrontPc, GroupOk, Formed, EntriesOf, OnDisk;
    if e.Finish? || (e.Room? && s'.commits != s.commits) {
      FrontLeaves(s, e, s');
    } else if e.Enqueue? {
      EnqueueKeepsFront(s, e.w, s');
    } else if e.Wake? || e.Lead? || e.BackgroundError? {
      FrontRests(s, e, s');
    } else {
      FrontMoves(s, e, s');
    }
  }

  // ----- Runs -----

  ghost predicate Sound(s: State) {
    Queued(s) && Working(s) && History(s) && Applied(s) && LogOk(s) && FailStop(s) && Filed(s)
  }

  lemma InitiallySound(s: State)
    requires Initial(s)
    ensures Sound(s)
  {
  }

  lemma StepIsSound(s: State, e: Event, s': State)
    requires Sound(s) && Step(s, e, s')
    ensures Sound(s')
  {
    hide Step, InLine, Working, History, Applied, LogOk, FailStop, Filed;
    QueuedStep(s, e, s');
    WorkingStep(s, e, s');
    HistoryStep(s, e, s');
    AppliedStep(s, e, s');
    LogStep(s, e, s');
    FailStopStep(s, e, s');
    FiledStep(s, e, s');
  }

  ghost predicate Run(states: seq<State>, events: seq<Event>) {
    && |states| == |events| + 1 && Initial(states[0])
    && (forall k :: 0 <= k < |events| ==> Shaped(states[k]))
    && forall k, n :: 0 <= k < |events| && n == k + 1 ==> Step(states[k], events[k], states[n])
  }

  lemma RunStep(states: seq<State>, events: seq<Event>, k: nat)
    requires Run(states, events) && k < |events|
    ensures Shaped(states[k]) && Step(states[k], events[k], states[k + 1])
  {
  }

  lemma {:induction false} RunIsSound(states: seq<State>, events: seq<Event>, k: nat)
    requires Run(states, events) && k < |states|
    ensures Sound(states[k])
  {
    hide Sound, Step, Shaped;
    if k == 0 {
      InitiallySound(states[0]);
    } else {
      RunIsSound(states, events, k - 1);
      RunStep(states, events, k - 1);
      StepIsSound(states[k - 1], events[k - 1], states[k]);
    }
  }

  /** Only one thread is ever past the queue, and it is the one at the front. */
  lemma OneLeader(s: State, t: nat, u: nat)
    requires Sound(s) && t < |s.pcs| && u < |s.pcs|
    requires s.pcs[t] != Waiting && !s.pcs[t].Returned? && s.pcs[u] != Waiting && !s.pcs[u].Returned?
    ensures t == u && s.queue != [] && s.queue[0] == t
  {
    ActiveIsFront(s, t);
    ActiveIsFront(s, u);
  }

  /** Threads leave in the order in which they came: those that are done and then those in the queue are all of them. */
  lemma Fifo(s: State, t: nat)
    requires Sound(s) && t < |s.writers|
    ensures t in s.queue <==> t >= NextThread(s.commits)
    ensures t < NextThread(s.commits) ==> s.pcs[t].Returned? || (s.pcs[t] == Waiting && s.done[t].Some?)
    ensures forall i, j :: 0 <= i < j < |s.queue| ==> s.queue[i] < s.queue[j]
  {
    if t >= Front(s) {
      assert s.queue[t - Front(s)] == t;
    }
  }

  /** Every thread that has returned belongs to exactly one group, and returned that group's status. */
  lemma ReturnedOnce(s: State, t: nat)
    requires Sound(s) && t < |s.pcs| && s.pcs[t].Returned?
    ensures exists i ::
              && 0 <= i < |s.commits| && s.commits[i].g.from <= t < s.commits[i].g.to
              && s.pcs[t] == Returned(s.commits[i].status)
    ensures forall i, j :: 0 <= i < j < |s.commits| ==>
              !(s.commits[i].g.from <= t < s.commits[i].g.to && s.commits[j].g.from <= t < s.commits[j].g.to)
  {
    hide Working, Applied, LogOk, FailStop, Filed, CommitOk;
    var i := Covering(s.base, s.commits, |s.commits|, t);
    assert Told(s.pcs, s.done, s.commits[i]);
    forall i, j | 0 <= i < j < |s.commits| ensures s.commits[i].g.to <= s.commits[j].g.from {
      ChainAscends(s.base, s.commits, i, j);
    }
  }

  lemma {:induction false} Covering(base: nat, commits: seq<Commit>, n: nat, t: nat) returns (i: nat)
    requires Chain(base, commits) && n <= |commits| && t < NextThread(commits[..n])
    ensures i < n && commits[i].g.from <= t < commits[i].g.to
  {
    var c := commits[..n][n - 1];
    assert InChain(base, commits, n - 1);
    if c.g.from <= t {
      i := n - 1;
    } else {
      i := Covering(base, commits, n - 1, t);
    }
  }

  /** Done groups have disjoint, ascending ranges of threads and of sequence numbers, and the records of the log are in
      the same order. */
  lemma GroupsAscend(s: State)
    requires Sound(s)
    ensures forall i, j :: 0 <= i < j < |s.commits| ==> Before(s.commits[i].g, s.commits[j].g)
    ensures forall i, j :: 0 <= i < j < |s.log| ==> Before(s.log[i].g, s.log[j].g)
    ensures forall i :: 0 <= i < |s.log| ==> s.log[i].g.ops == GroupOps(s.writers[s.log[i].g.from..s.log[i].g.to])
  {
    hide InLine, Working, Applied, FailStop, Filed, CommitOk, Told, OnRecord, LogFirst;
    forall i, j | 0 <= i < j < |s.commits| ensures Before(s.commits[i].g, s.commits[j].g) {
      ChainAscends(s.base, s.commits, i, j);
    }
  }

  /** What was inserted was logged before, with the whole batches of the group in queue order. */
  lemma LoggedBeforeApplied(s: State, i: nat)
    requires Sound(s) && i < |s.commits| && s.commits[i].applied
    ensures exists k :: 0 <= k < |s.log| && s.log[k].g == s.commits[i].g
    ensures var g := s.commits[i].g; g.to <= |s.writers| && g.ops == GroupOps(s.writers[g.from..g.to])
  {
    assert CommitOk(s.writers, s.commits[i]) && OnRecord(s.writers, s.log, s.commits[i]);
    hide Sound;
    var k :| 0 <= k < |s.log| && s.log[k].g == s.commits[i].g;
  }

  /** A writer that asked for a sync and was told that all is well finds its batch in a record that is on disk. */
  lemma SyncedIsOnDisk(s: State, t: nat)
    requires Sound(s) && t < |s.pcs| && s.pcs[t] == Returned(OK) && s.writers[t].sync && s.writers[t].batch.Some?
    ensures exists i :: 0 <= i < |s.log| && s.log[i].onDisk && s.log[i].ok && s.log[i].g.from <= t < s.log[i].g.to
  {
    ReturnedOnce(s, t);
    var i :|
      && 0 <= i < |s.commits| && s.commits[i].g.from <= t < s.commits[i].g.to
      && s.pcs[t] == Returned(s.commits[i].status);
    assert CommitOk(s.writers, s.commits[i]) && OnRecord(s.writers, s.log, s.commits[i]);
    hide Sound, GroupOk;
    CoveredBySync(s.writers, s.log, s.commits[i], t);
  }

  lemma CoveredBySync(writers: seq<Writer>, log: seq<Record>, c: Commit, t: nat)
    requires CommitOk(writers, c) && OnRecord(writers, log, c) && c.status == OK
    requires c.g.from <= t < c.g.to <= |writers| && writers[t].sync && writers[t].batch.Some?
    ensures exists k :: 0 <= k < |log| && log[k].onDisk && log[k].ok && log[k].g.from <= t < log[k].g.to
  {
    hide GroupOk;
    assert c.applied && writers[c.g.from].sync;
    var k :| 0 <= k < |log| && log[k].g == c.g && log[k].ok && (writers[c.g.from].sync ==> log[k].onDisk);
    assert log[k].g.from <= t < log[k].g.to;
  }

  /** Between groups the temporary batch is empty. */
  lemma TmpEmptyBetweenGroups(s: State)
    requires Sound(s) && forall t :: 0 <= t < |s.pcs| ==> !HasGroup(s.pcs[t])
    ensures s.tmp == []
  {
  }

  // ----- What readers see -----

  /** The entries with a sequence number up to r. */
  function UpTo(entries: seq<Entry>, r: nat): seq<Entry> {
    if entries == [] then []
    else
      var last := entries[|entries| - 1];
      UpTo(entries[..|entries| - 1], r) + if last.sequence <= r then [last] else []
  }

  lemma UpToMore(s: seq<Entry>, x: Entry, r: nat)
    ensures UpTo(s + [x], r) == UpTo(s, r) + if x.sequence <= r then [x] else []
  {
    assert (s + [x])[..|s|] == s;
  }

  lemma {:induction false} UpToAppend(a: seq<Entry>, b: seq<Entry>, r: nat)
    ensures UpTo(a + b, r) == UpTo(a, r) + UpTo(b, r)
  {
    hide UpTo;
    NothingUpTo(r);
    if b == [] {
      assert a + b == a;
    } else {
      var b', x := b[..|b| - 1], b[|b| - 1];
      UpToAppend(a, b', r);
      UpToMore(a + b', x, r);
      UpToMore(b', x, r);
      assert b' + [x] == b;
      assert a + b' + [x] == a + b;
    }
  }

  lemma {:induction false} GroupUpTo(ops: seq<Op>, before: nat, n: nat, r: nat)
    requires n <= |ops|
    ensures r >= before + n ==> UpTo(EntriesOf(ops, before, n), r) == EntriesOf(ops, before, n)
    ensures r <= before ==> UpTo(EntriesOf(ops, before, n), r) == []
  {
    hide EntriesOf, UpTo;
    NoEntries(ops, before);
    NothingUpTo(r);
    if n > 0 {
      GroupUpTo(ops, before, n - 1, r);
      OneEntry(ops, before, n - 1);
      UpToMore(EntriesOf(ops, before, n - 1), EntryFor(ops[n - 1], before + n), r);
    }
  }

  lemma NothingUpTo(r: nat)
    ensures UpTo([], r) == []
  {
  }

  lemma AppliedPrefix(commits: seq<Commit>, n: nat)
    requires 0 < n <= |commits|
    ensures AppliedEntries(commits[..n]) == AppliedEntries(commits[..n - 1]) + CommitEntries(commits[n - 1])
  {
    assert commits[..n][..n - 1] == commits[..n - 1];
  }

  /** The batches of a group hand out no more than was counted. */
  predicate Tidy(c: Commit) {
    c.applied ==> |c.g.handed.ops| <= |c.g.ops|
  }

  lemma CommitUpTo(c: Commit, r: nat)
    requires Tidy(c)
    ensures r >= c.g.before + |c.g.ops| ==> UpTo(CommitEntries(c), r) == CommitEntries(c)
    ensures r <= c.g.before ==> UpTo(CommitEntries(c), r) == []
  {
    hide EntriesOf, UpTo;
    NothingUpTo(r);
    GroupUpTo(c.g.handed.ops, c.g.before, |c.g.handed.ops|, r);
  }

  lemma LastOf(base: nat, commits: seq<Commit>, n: nat)
    requires Chain(base, commits) && 0 < n <= |commits|
    ensures var c := commits[n - 1];
            && c.g.before == NextSequence(base, commits[..n - 1])
            && c.g.before + |c.g.ops| == NextSequence(base, commits[..n])
  {
    assert InChain(base, commits, n - 1);
  }

  lemma {:induction false} SequencesAscend(base: nat, commits: seq<Commit>, n: nat, m: nat)
    requires Chain(base, commits) && n <= m <= |commits|
    ensures NextSequence(base, commits[..n]) <= NextSequence(base, commits[..m])
    decreases m
  {
    if n < m {
      SequencesAscend(base, commits, n, m - 1);
      LastOf(base, commits, m);
    }
  }

  /** What was visible when the first n groups were done is just what they had applied, however many follow. */
  lemma {:induction false} CommitsUpTo(base: nat, commits: seq<Commit>, n: nat, m: nat)
    requires Chain(base, commits) && n <= m <= |commits| && forall c <- commits :: Tidy(c)
    ensures UpTo(AppliedEntries(commits[..m]), NextSequence(base, commits[..n])) == AppliedEntries(commits[..n])
    decreases m
  {
    hide UpTo, AppliedEntries, CommitEntries, Chain, NextSequence, Tidy;
    var r := NextSequence(base, commits[..n]);
    if n < m {
      CommitsUpTo(base, commits, n, m - 1);
      LastOf(base, commits, m);
      SequencesAscend(base, commits, n, m - 1);
      AppliedPrefix(commits, m);
      CommitUpTo(commits[m - 1], r);
      UpToAppend(AppliedEntries(commits[..m - 1]), CommitEntries(commits[m - 1]), r);
    } else {
      AllUpTo(base, commits, n, r);
    }
  }

  /** Everything applied by the first groups is visible from their last sequence number on. */
  lemma {:induction false} AllUpTo(base: nat, commits: seq<Commit>, n: nat, r: nat)
    requires Chain(base, commits) && n <= |commits| && r >= NextSequence(base, commits[..n])
    requires forall c <- commits :: Tidy(c)
    ensures UpTo(AppliedEntries(commits[..n]), r) == AppliedEntries(commits[..n])
    decreases n
  {
    hide UpTo, CommitEntries, Chain, NextSequence, Tidy;
    if n > 0 {
      LastOf(base, commits, n);
      SequencesAscend(base, commits, n - 1, n);
      AllUpTo(base, commits, n - 1, r);
      AppliedPrefix(commits, n);
      CommitUpTo(commits[n - 1], r);
      UpToAppend(AppliedEntries(commits[..n - 1]), CommitEntries(commits[n - 1]), r);
    } else {
      assert commits[..0] == [];
      NothingUpTo(r);
    }
  }

  /** The groups that are done are never changed, only added to. */
  lemma {:induction false} CommitsGrow(states: seq<State>, events: seq<Event>, i: nat, j: nat)
    requires Run(states, events) && i <= j < |states|
    ensures states[i].base == states[j].base && states[i].commits <= states[j].commits
    decreases j
  {
    hide Step, Sound, Initial, Shaped;
    if i < j {
      CommitsGrow(states, events, i, j - 1);
      RunIsSound(states, events, j - 1);
      RunStep(states, events, j - 1);
      CommitsStep(states[j - 1], events[j - 1], states[j]);
    }
  }

  lemma CommitsStep(s: State, e: Event, s': State)
    requires Sound(s) && Step(s, e, s')
    ensures s.base == s'.base && s.commits <= s'.commits
  {
    hide InLine, Working, History, Applied, LogOk, FailStop, Filed, Step;
    if e.Finish? || (e.Room? && s'.commits != s.commits) {
      RetiringStep(s, e, s');
    } else {
      Unretired(s, e, s');
    }
  }

  /** No key or value of a writer is too long for its 32-bit size. */
  ghost predicate AllFit(writers: seq<Writer>) {
    forall w <- writers :: w.batch.Some? ==> forall op <- w.batch.value :: op.Fits()
  }

  lemma {:induction false} GroupFits(ws: seq<Writer>)
    requires AllFit(ws)
    ensures forall op <- GroupOps(ws) :: op.Fits()
  {
    if ws != [] {
      GroupFits(ws[..|ws| - 1]);
      assert ws[|ws| - 1] in ws;
    }
  }

  predicate OpsFit(ops: seq<Op>) {
    forall op <- ops :: op.Fits()
  }

  /** A group's batch hands out just its operations, and inserting it succeeds, exactly if they fit. */
  lemma YieldsItsOps(writers: seq<Writer>, g: Group)
    requires GroupOk(writers, g)
    ensures g.handed == Unpacked(g.ops, OK) <==> OpsFit(g.ops)
  {
    hide Unpack, Rep, GroupOps, UsesTmp;
    BatchRoundTrip(g.before + 1, g.ops);
  }

  /** The group's batch hands out nothing at all, or what it should. */
  predicate Atomic(g: Group) {
    g.handed.ops == [] || OpsFit(g.ops)
  }

  ghost predicate AllAtomic(commits: seq<Commit>) {
    forall c <- commits :: c.applied ==> Atomic(c.g)
  }

  /** So it is for every group if all that the writers want to write fits. */
  lemma {:induction false} FittingIsAtomic(writers: seq<Writer>, commits: seq<Commit>)
    requires AllFit(writers) && forall c <- commits :: CommitOk(writers, c)
    ensures AllAtomic(commits)
  {
    hide AllFit, GroupOps, UsesTmp, Unpack, Rep;
    forall c | c in commits && c.applied ensures Atomic(c.g) {
      AllFitIn(writers, c.g.from, c.g.to);
      GroupFits(writers[c.g.from..c.g.to]);
    }
  }

  lemma AllFitIn(writers: seq<Writer>, from: nat, to: nat)
    requires AllFit(writers) && from <= to <= |writers|
    ensures AllFit(writers[from..to])
  {
  }

  /** The entries that should be there of a group. */
  function Whole(c: Commit): seq<Entry> {
    if c.status == OK then EntriesFor(c.g.ops, c.g.before) else []
  }

  lemma {:induction false} ParsedFit(s: seq<Byte>)
    ensures OpsFit(ParseOps(s).ops)
    decreases |s|
  {
    hide ParseOp;
    if s != [] {
      OneFits(s);
      match ParseOp(s)
      case Bad(_) =>
      case One(op, rest) => ParsedFit(rest);
    }
  }

  lemma OneFits(s: seq<Byte>)
    requires s != []
    ensures ParseOp(s).One? ==> ParseOp(s).op.Fits()
  {
  }

  /** What is handed out fits; and as many are handed out as there should be, if all went well. */
  lemma HandedOut(writers: seq<Writer>, g: Group)
    requires GroupOk(writers, g)
    ensures OpsFit(g.handed.ops) && (g.handed.status == OK && |g.handed.ops| == 0 ==> g.ops == [])
    ensures g.handed.status == OK ==> |g.handed.ops| >= |g.ops|
  {
    hide ParseOps, EncodeOps, LE, GroupOps, UsesTmp, CountOf, SequenceOf;
    var rep := Rep(g.before + 1, g.ops);
    RepHeader(g.before + 1, g.ops);
    ParsedFit(rep[HEADER..]);
  }

  lemma {:induction false} SameEntries(a: seq<Op>, b: seq<Op>, before: nat, n: nat)
    requires n <= |a| && n <= |b| && EntriesOf(a, before, n) == EntriesOf(b, before, n)
    ensures a[..n] == b[..n]
  {
    if n > 0 {
      var x, y := EntriesOf(a, before, n), EntriesOf(b, before, n);
      assert x[..n - 1] == EntriesOf(a, before, n - 1) && y[..n - 1] == EntriesOf(b, before, n - 1);
      assert x[n - 1] == EntryFor(a[n - 1], before + n) && y[n - 1] == EntryFor(b[n - 1], before + n);
      SameEntries(a, b, before, n - 1);
      assert a[n - 1] == b[n - 1];
      assert a[..n] == a[..n - 1] + [a[n - 1]] && b[..n] == b[..n - 1] + [b[n - 1]];
    }
  }

  lemma {:induction false} FirstUpTo(ops: seq<Op>, before: nat, n: nat, m: nat)
    requires n <= |ops|
    ensures UpTo(EntriesOf(ops, before, n), before + m) == EntriesOf(ops, before, if n < m then n else m)
  {
    hide EntriesOf, UpTo;
    NoEntries(ops, before);
    NothingUpTo(before + m);
    if n > 0 {
      FirstUpTo(ops, before, n - 1, m);
      OneEntry(ops, before, n - 1);
      UpToMore(EntriesOf(ops, before, n - 1), EntryFor(ops[n - 1], before + n), before + m);
    }
  }

  /** Once a group is done, readers see of it what they should, exactly if its batch hands out nothing or its operations
      fit. */
  lemma SeenWhole(writers: seq<Writer>, c: Commit)
    requires CommitOk(writers, c) && c.applied
    ensures UpTo(CommitEntries(c), c.g.before + |c.g.ops|) == Whole(c) <==> Atomic(c.g)
  {
    hide GroupOk, UpTo, EntriesOf, OpsFit;
    var g, h, n := c.g, c.g.handed.ops, |c.g.ops|;
    YieldsItsOps(writers, g);
    HandedOut(writers, g);
    FirstUpTo(h, g.before, |h|, n);
    NoOpsFit(g.ops);
    if Whole(c) == EntriesOf(h, g.before, if |h| < n then |h| else n) && h != [] {
      if c.status == OK {
        SameEntries(h, g.ops, g.before, n);
        FirstOpsFit(h, n);
        assert g.ops[..n] == g.ops;
      }
    }
  }

  lemma NoOpsFit(ops: seq<Op>)
    ensures ops == [] ==> OpsFit(ops)
  {
  }

  lemma FirstOpsFit(ops: seq<Op>, n: nat)
    requires OpsFit(ops) && n <= |ops|
    ensures OpsFit(ops[..n])
  {
  }

  /** The entries of the batches, whole, of every group that succeeded. */
  function WholeBatches(commits: seq<Commit>): seq<Entry> {
    if commits == [] then []
    else
      var c := commits[|commits| - 1];
      WholeBatches(commits[..|commits| - 1]) + Whole(c)
  }

  lemma {:induction false} AppliedWhole(writers: seq<Writer>, commits: seq<Commit>)
    requires AllAtomic(commits) && forall c <- commits :: CommitOk(writers, c)
    ensures AppliedEntries(commits) == WholeBatches(commits) && forall c <- commits :: Tidy(c)
  {
    hide GroupOk, EntriesOf, CommitOk, Atomic, Whole;
    if commits != [] {
      var c := commits[|commits| - 1];
      AppliedWhole(writers, commits[..|commits| - 1]);
      CommitWhole(writers, c);
      assert forall d <- commits :: d in commits[..|commits| - 1] || d == c;
    }
  }

  lemma CommitWhole(writers: seq<Writer>, c: Commit)
    requires CommitOk(writers, c) && (c.applied ==> Atomic(c.g))
    ensures CommitEntries(c) == Whole(c) && Tidy(c)
  {
    hide GroupOk, OpsFit;
    if c.applied {
      YieldsItsOps(writers, c.g);
      HandedOut(writers, c.g);
    }
  }

  /** If every key and value fits its size: what a reader sees at the last sequence number it met is at every later
      moment exactly the batches, whole, of the groups that had succeeded by then, whatever is being inserted. */
  lemma NoPartialBatch(states: seq<State>, events: seq<Event>, i: nat, j: nat)
    requires Run(states, events) && i <= j < |states| && AllFit(states[j].writers)
    ensures UpTo(states[j].mem, states[i].last) == WholeBatches(states[i].commits)
  {
    hide Run, Sound, AllFit, UpTo, WholeBatches, NextSequence;
    RunIsSound(states, events, i);
    RunIsSound(states, events, j);
    CommitsGrow(states, events, i, j);
    LastIsNext(states[i]);
    assert states[j].commits[..|states[i].commits|] == states[i].commits;
    AtomicIn(states[j]);
    WholeUpTo(states[j], |states[i].commits|);
  }

  lemma AtomicIn(s: State)
    requires Sound(s) && AllFit(s.writers)
    ensures AllAtomic(s.commits)
  {
    hide AllFit, CommitOk, InLine, LogOk, Applied, Working;
    FittingIsAtomic(s.writers, s.commits);
  }

  lemma LastIsNext(s: State)
    requires Sound(s)
    ensures s.last == NextSequence(s.base, s.commits)
  {
  }

  lemma WholeUpTo(s: State, n: nat)
    requires Sound(s) && AllAtomic(s.commits) && n <= |s.commits|
    ensures UpTo(s.mem, NextSequence(s.base, s.commits[..n])) == WholeBatches(s.commits[..n])
  {
    hide InLine, LogOk, FailStop, Filed, UpTo, AppliedEntries, CommitOk, Told, AllAtomic, WholeBatches, Tidy;
    var r, m := NextSequence(s.base, s.commits[..n]), |s.commits|;
    assert s.commits[..m] == s.commits;
    AppliedWhole(s.writers, s.commits);
    AtomicFirst(s.commits, n);
    AppliedWhole(s.writers, s.commits[..n]);
    CommitsUpTo(s.base, s.commits, n, m);
    SequencesAscend(s.base, s.commits, n, m);
    InHandInvisible(s, r);
    UpToAppend(AppliedEntries(s.commits), AddedSoFar(FrontPc(|s.writers|, s.pcs, s.queue)), r);
  }

  lemma AtomicFirst(commits: seq<Commit>, n: nat)
    requires AllAtomic(commits) && n <= |commits|
    ensures AllAtomic(commits[..n])
  {
  }

  /** What is seen at the last number of a group does not depend on what came after it. */
  lemma {:induction false} LaterUnseen(base: nat, commits: seq<Commit>, n: nat, m: nat)
    requires Chain(base, commits) && n <= m <= |commits|
    ensures var r := NextSequence(base, commits[..n]);
            UpTo(AppliedEntries(commits[..m]), r) == UpTo(AppliedEntries(commits[..n]), r)
    decreases m
  {
    hide UpTo, AppliedEntries, CommitEntries, Chain, NextSequence;
    var r := NextSequence(base, commits[..n]);
    if n < m {
      LaterUnseen(base, commits, n, m - 1);
      LastOf(base, commits, m);
      SequencesAscend(base, commits, n, m - 1);
      AppliedPrefix(commits, m);
      CommitUnseen(commits[m - 1], r);
      UpToAppend(AppliedEntries(commits[..m - 1]), CommitEntries(commits[m - 1]), r);
    }
  }

  lemma CommitUnseen(c: Commit, r: nat)
    requires r <= c.g.before
    ensures UpTo(CommitEntries(c), r) == []
  {
    hide EntriesOf, UpTo;
    NothingUpTo(r);
    GroupUpTo(c.g.handed.ops, c.g.before, |c.g.handed.ops|, r);
  }

  /** A reader at the last number of a group that is not atomic, with none before it that is not, sees a part. */
  lemma PartIsSeen(s: State, n: nat)
    requires Sound(s) && n < |s.commits| && AllAtomic(s.commits[..n])
    requires s.commits[n].applied && !Atomic(s.commits[n].g)
    ensures UpTo(s.mem, NextSequence(s.base, s.commits[..n + 1])) != WholeBatches(s.commits[..n + 1])
  {
    hide InLine, LogOk, FailStop, Filed, UpTo, AppliedEntries, CommitEntries, CommitOk, Told, AllAtomic, Atomic,
         WholeBatches, Tidy, Whole;
    var c, m := s.commits[n], |s.commits|;
    var r := NextSequence(s.base, s.commits[..n + 1]);
    assert s.commits[..m] == s.commits && CommitOk(s.writers, c);
    AppliedWhole(s.writers, s.commits[..n]);
    LastOf(s.base, s.commits, n + 1);
    SequencesAscend(s.base, s.commits, n + 1, m);
    InHandInvisible(s, r);
    UpToAppend(AppliedEntries(s.commits), AddedSoFar(FrontPc(|s.writers|, s.pcs, s.queue)), r);
    LaterUnseen(s.base, s.commits, n + 1, m);
    AppliedPrefix(s.commits, n + 1);
    UpToAppend(AppliedEntries(s.commits[..n]), CommitEntries(c), r);
    SequencesAscend(s.base, s.commits, n, n + 1);
    EarlierSeen(s.base, s.commits, n, r);
    SeenWhole(s.writers, c);
    WholePrefix(s.commits, n);
    var w := WholeBatches(s.commits[..n]);
    assert (w + UpTo(CommitEntries(c), r))[|w|..] == UpTo(CommitEntries(c), r) && (w + Whole(c))[|w|..] == Whole(c);
  }

  /** All that tidy groups added is seen later on. */
  lemma EarlierSeen(base: nat, commits: seq<Commit>, n: nat, r: nat)
    requires Chain(base, commits) && n <= |commits| && r >= NextSequence(base, commits[..n])
    requires forall c <- commits[..n] :: Tidy(c)
    ensures UpTo(AppliedEntries(commits[..n]), r) == AppliedEntries(commits[..n])
  {
    hide UpTo, AppliedEntries, Chain, NextSequence, Tidy;
    ChainFirst(base, commits, n);
    assert commits[..n][..n] == commits[..n];
    AllUpTo(base, commits[..n], n, r);
  }

  lemma ChainFirst(base: nat, commits: seq<Commit>, n: nat)
    requires Chain(base, commits) && n <= |commits|
    ensures Chain(base, commits[..n])
  {
    forall i | 0 <= i < n ensures InChain(base, commits[..n], i) {
      assert commits[..n][..i] == commits[..i] && InChain(base, commits, i);
    }
  }

  lemma WholePrefix(commits: seq<Commit>, n: nat)
    requires n < |commits|
    ensures WholeBatches(commits[..n + 1]) == WholeBatches(commits[..n]) + Whole(commits[n])
  {
    assert commits[..n + 1][..n] == commits[..n];
  }

  /** Readers at the last number of every group so far see whole batches exactly if all groups are atomic. */
  lemma WholeExactly(s: State)
    requires Sound(s)
    ensures (forall n :: 0 <= n <= |s.commits| ==>
              UpTo(s.mem, NextSequence(s.base, s.commits[..n])) == WholeBatches(s.commits[..n]))
            <==> AllAtomic(s.commits)
  {
    hide Sound, UpTo, NextSequence, WholeBatches, AllAtomic, Atomic;
    if AllAtomic(s.commits) {
      forall n | 0 <= n <= |s.commits|
        ensures UpTo(s.mem, NextSequence(s.base, s.commits[..n])) == WholeBatches(s.commits[..n])
      {
        WholeUpTo(s, n);
      }
    } else {
      assert s.commits[..|s.commits|] == s.commits;
      var n := FirstPart(s.commits, |s.commits|);
      PartIsSeen(s, n);
    }
  }

  lemma {:induction false} FirstPart(commits: seq<Commit>, m: nat) returns (n: nat)
    requires m <= |commits| && !AllAtomic(commits[..m])
    ensures n < m && AllAtomic(commits[..n]) && commits[n].applied && !Atomic(commits[n].g)
  {
    hide Atomic;
    assert commits[..m][..m - 1] == commits[..m - 1];
    if AllAtomic(commits[..m - 1]) {
      n := m - 1;
      assert forall c <- commits[..m] :: c in commits[..m - 1] || c == commits[m - 1];
    } else {
      n := FirstPart(commits, m - 1);
    }
  }

  lemma InHandInvisible(s: State, r: nat)
    requires Queued(s) && Working(s) && r <= s.last
    ensures UpTo(AddedSoFar(FrontPc(|s.writers|, s.pcs, s.queue)), r) == []
  {
    var pc := FrontPc(|s.writers|, s.pcs, s.queue);
    hide InLine, FrontPc, GroupOk, UpTo, EntriesOf;
    NothingUpTo(r);
    if pc.Inserting? {
      GroupUpTo(pc.g.handed.ops, pc.g.before, pc.k, r);
    } else if pc.Committing? {
      GroupUpTo(pc.g.handed.ops, pc.g.before, |pc.g.handed.ops|, r);
    }
  }

  // ----- A key that does not fit -----

  const DELETES: seq<Op> := [Delete([]), Delete([])]

  /** A deletion of nothing and of a key of 2^32 bytes, whose size is written as 0. */
  function Oversized(key: seq<Byte>): seq<Op> {
    [Delete([]), Delete(key)]
  }

  /** Read back, the second operation deletes nothing as well, and the bytes of the key are left over. */
  lemma OversizedHandsOut(key: seq<Byte>)
    requires |key| == POW32 && key[0] == 0xff
    ensures Unpack(Rep(1, Oversized(key))).ops == DELETES && Unpack(Rep(1, Oversized(key))).status != OK
  {
    var ops, op := Oversized(key), Delete([]);
    RepHeader(1, ops);
    var tail := EncodeOp(op) + key;
    OversizedEncoded(key);
    hide EncodeOps, EncodeOp, Rep, ParseOp;
    ParsesOp(op, tail);
    ParsesOp(op, key);
    UnknownTag(key);
    ParseOpsStep(EncodeOp(op) + tail);
    ParseOpsStep(tail);
    ParseOpsStep(key);
    assert [op] + ([op] + []) == DELETES;
  }

  lemma OversizedEncoded(key: seq<Byte>)
    requires |key| == POW32
    ensures EncodeOps(Oversized(key)) == EncodeOp(Delete([])) + (EncodeOp(Delete([])) + key)
  {
    hide EncodeOps;
    var ops := Oversized(key);
    EncodeOpsStep(ops);
    EncodeOpsStep(ops[1..]);
    NoOps();
    assert ops[1..][1..] == [];
    assert EncodeOp(Delete(key)) == EncodeOp(Delete([])) + key;
    assert EncodeOp(Delete(key)) + [] == EncodeOp(Delete(key));
  }

  lemma UnknownTag(s: seq<Byte>)
    requires s != [] && s[0] == 0xff
    ensures ParseOp(s).Bad?
  {
  }

  lemma ParseOpsStep(s: seq<Byte>)
    requires s != []
    ensures match ParseOp(s)
            case Bad(message) => ParseOps(s) == Unpacked([], Corruption(message))
            case One(op, rest) => ParseOps(s) == Unpacked([op] + ParseOps(rest).ops, ParseOps(rest).status)
  {
  }

  /** The run of one writer with that batch: queue, lead, log, three turns of inserting, done. */
  ghost function OversizedStates(crc: LF.Checksum, key: seq<Byte>): seq<State> {
    var w := Writer(Some(Oversized(key)), false);
    var g := Group(0, 1, 0, Oversized(key), false, Unpack(Rep(1, Oversized(key))));
    var e1, e2 := EntryFor(Delete([]), 1), EntryFor(Delete([]), 2);
    var start := State(0, crc, [], [], [], [], 0, [], 0, [], 0, [], [], None, false, []);
    var queued := start.(writers := [w], pcs := [Waiting], done := [None], queue := [0]);
    var bytes := LF.Emit(crc, 0, Rep(1, Oversized(key)), true);
    var r := Record(g, false, true, 0, [], 0, bytes, |bytes|);
    var logged := queued.(pcs := [Inserting(g, 0)], log := [r], offset := r.next);
    var c := Commit(g, g.handed.status, true);
    [start,
     queued,
     queued.(pcs := [MakingRoom]),
     queued.(pcs := [Logging(g)]),
     logged,
     logged.(pcs := [Inserting(g, 1)], mem := [e1]),
     logged.(pcs := [Inserting(g, 2)], mem := [e1, e2]),
     logged.(pcs := [Committing(g, g.handed.status, false, true)], mem := [e1, e2]),
     logged.(pcs := [Returned(g.handed.status)], mem := [e1, e2], queue := [], last := 2, commits := [c])]
  }

  function OversizedEvents(crc: LF.Checksum, key: seq<Byte>): seq<Event> {
    var bytes := LF.Emit(crc, 0, Rep(1, Oversized(key)), true);
    [Enqueue(Writer(Some(Oversized(key)), false)), Lead(0), Room(0, OK), Append(0, OK, bytes, |bytes|),
     Insert(0), Insert(0), Insert(0), Finish(0)]
  }

  lemma OversizedForms(key: seq<Byte>, s: State)
    requires Shaped(s) && s.queue == [0] && s.writers == [Writer(Some(Oversized(key)), false)] && s.last == 0
    ensures Queue(s)[0].batch.Some?
    ensures Formed(s, 0) == Group(0, 1, 0, Oversized(key), false, Unpack(Rep(1, Oversized(key))))
  {
    hide Unpack, Rep, ByteSize;
    var ws := Queue(s);
    assert ws == s.writers && ws[..1] == ws;
    assert GroupOps(ws[..0]) == [] && [] + Oversized(key) == Oversized(key);
  }

  lemma OversizedInserts(crc: LF.Checksum, key: seq<Byte>, k: nat)
    requires |key| == POW32 && key[0] == 0xff && 4 <= k < 7
    ensures var h := OversizedStates(crc, key); Shaped(h[k]) && Step(h[k], Insert(0), h[k + 1])
  {
    hide Unpack, Rep, ParseOps, LF.Emit, LF.Leaves;
    OversizedHandsOut(key);
  }

  lemma OversizedStarts(crc: LF.Checksum, key: seq<Byte>, k: nat)
    requires |key| == POW32 && k < 3
    ensures var h := OversizedStates(crc, key); Shaped(h[k]) && Step(h[k], OversizedEvents(crc, key)[k], h[k + 1])
  {
    hide Unpack, Rep, Formed, LF.Emit, LF.Leaves;
    if k == 2 {
      OversizedForms(key, OversizedStates(crc, key)[2]);
    }
  }

  lemma OversizedCommits(crc: LF.Checksum, key: seq<Byte>, k: nat)
    requires |key| == POW32 && (k == 3 || k == 7)
    ensures var h := OversizedStates(crc, key); Shaped(h[k]) && Step(h[k], OversizedEvents(crc, key)[k], h[k + 1])
  {
    hide Unpack, Rep, Formed, OnDisk, GroupSize, LF.Emit, LF.Leaves;
    LF.LeavesWhole(crc, 0, Rep(1, Oversized(key)));
  }

  lemma OversizedRun(crc: LF.Checksum, key: seq<Byte>)
    requires |key| == POW32 && key[0] == 0xff
    ensures Run(OversizedStates(crc, key), OversizedEvents(crc, key))
  {
    hide Unpack, Rep, Step, Shaped, LF.Emit;
    var h, es := OversizedStates(crc, key), OversizedEvents(crc, key);
    forall k | 0 <= k < 8 ensures Shaped(h[k]) && Step(h[k], es[k], h[k + 1]) {
      if k < 3 {
        OversizedStarts(crc, key, k);
      } else if 4 <= k < 7 {
        OversizedInserts(crc, key, k);
      } else {
        OversizedCommits(crc, key, k);
      }
    }
  }

  lemma SeenAtTwo(e1: Entry, e2: Entry)
    requires e1.sequence == 1 && e2.sequence == 2
    ensures UpTo([e1, e2], 2) == [e1, e2]
  {
    assert [e1, e2][..1] == [e1] && [e1][..0] == [];
    assert UpTo([], 2) == [] && UpTo([e1], 2) == [] + [e1] && UpTo([e1, e2], 2) == [e1] + [e2];
  }

  /** Such a write fails, and yet readers at the last sequence number see what was inserted of it. */
  lemma PartOfABatch(crc: LF.Checksum, key: seq<Byte>)
    requires |key| == POW32 && key[0] == 0xff
    ensures Run(OversizedStates(crc, key), OversizedEvents(crc, key)) && |OversizedStates(crc, key)| == 9
    ensures var s := OversizedStates(crc, key)[8];
            && !AllFit(s.writers) && |s.pcs| == 1 && s.pcs[0] != Returned(OK)
            && UpTo(s.mem, s.last) == s.mem != [] && WholeBatches(s.commits) == []
  {
    OversizedHandsOut(key);
    OversizedRun(crc, key);
    hide Unpack, Rep, Run, EntriesFor;
    var s := OversizedStates(crc, key)[8];
    var w := s.writers[0];
    assert w in s.writers && Delete(key) == w.batch.value[1] && !Delete(key).Fits();
    SeenAtTwo(s.mem[0], s.mem[1]);
    assert s.commits[..0] == [];
  }

  // ----- Somebody can always go on -----

  /** The thread that moves, if it is one of those in Write. */
  function Mover(e: Event): Option<nat> {
    match e
    case Enqueue(_) => None
    case BackgroundError(_) => None
    case _ => Some(e.t)
  }

  ghost predicate CanStep(s: State, t: nat)
    requires Shaped(s)
  {
    exists e, s' :: Mover(e) == Some(t) && Step(s, e, s')
  }

  /** No writer is ever stuck for good: one that was told can return, and for one that is queued the writer at the front
      can go on. */
  lemma SomeoneCanStep(s: State, t: nat)
    requires Sound(s) && t < |s.writers| && !s.pcs[t].Returned?
    ensures t < Front(s) || s.queue != []
    ensures CanStep(s, if t < Front(s) then t else s.queue[0])
  {
    hide History, Applied, LogOk, FailStop, Filed, GroupOk, Formed, OnDisk;
    if t < Front(s) {
      CanDo(s, Wake(t), At(s, t, Returned(s.done[t].value)));
    } else {
      FrontCanStep(s);
    }
  }

  lemma CanDo(s: State, e: Event, s': State)
    requires Shaped(s) && Mover(e).Some? && Step(s, e, s')
    ensures CanStep(s, Mover(e).value)
  {
  }

  lemma FrontCanStep(s: State)
    requires Queued(s) && Working(s) && s.queue != []
    ensures CanStep(s, s.queue[0])
  {
    FrontIsFirst(s);
    var t: nat := s.queue[0];
    FrontPcIs(s, t);
    FrontNotDone(s);
    hide InLine, FrontPc, Queue, CanStep, Step, Shaped, Queued;
    match s.pcs[t]
    case Waiting => FrontCanLead(s, t);
    case MakingRoom => FrontCanMakeRoom(s, t);
    case Logging(_) => FrontCanLog(s, t);
    case Syncing(_) => FrontCanLog(s, t);
    case Inserting(_, _) => FrontCanInsert(s, t);
    case Committing(g, _, _, _) => FrontCanFinish(s, t);
  }

  lemma FrontCanLead(s: State, t: nat)
    requires Queued(s) && s.queue != [] && s.queue[0] == t < |s.pcs| && s.pcs[t] == Waiting && s.done[t] == None
    ensures CanStep(s, t)
  {
    hide InLine, CanStep;
    CanDo(s, Lead(t), At(s, t, MakingRoom));
  }

  lemma FrontCanLog(s: State, t: nat)
    requires Shaped(s) && t < |s.pcs| && (s.pcs[t].Logging? || s.pcs[t].Syncing?)
    ensures CanStep(s, t)
  {
    hide CanStep, OnDisk;
    var g := s.pcs[t].g;
    if s.pcs[t].Logging? {
      var pc := if s.writers[t].sync then Syncing(g) else Inserting(g, 0);
      var rep := Rep(g.before + 1, g.ops);
      LF.LeavesWhole(s.crc, s.offset, rep);
      hide LF.Emit, LF.Leaves, Rep;
      var bytes := LF.Emit(s.crc, s.offset, rep, true);
      var next := s.offset + |bytes|;
      CanDo(s, Append(t, OK, bytes, next),
            At(s, t, pc).(log := s.log + [NewRecord(s, g, true, bytes, next)], offset := next));
    } else {
      CanDo(s, Sync(t, OK), At(s, t, Inserting(g, 0)).(log := OnDisk(s.log, s.fileStart)));
    }
  }

  lemma FrontCanInsert(s: State, t: nat)
    requires Shaped(s) && t < |s.pcs| && s.pcs[t].Inserting?
    ensures CanStep(s, t)
  {
    hide CanStep;
    var (g, k) := (s.pcs[t].g, s.pcs[t].k);
    if k < |g.handed.ops| {
      var x := EntryFor(g.handed.ops[k], g.before + k + 1);
      CanDo(s, Insert(t), At(s, t, Inserting(g, k + 1)).(mem := s.mem + [x]));
    } else {
      CanDo(s, Insert(t), At(s, t, Committing(g, g.handed.status, false, true)));
    }
  }

  lemma FrontCanFinish(s: State, t: nat)
    requires Shaped(s) && t < |s.pcs| && s.pcs[t].Committing?
    requires var g := s.pcs[t].g; g.from < g.to && g.to - g.from <= |s.queue|
    ensures CanStep(s, t)
  {
    hide CanStep;
    var pc := s.pcs[t];
    var r := Retired(s, t, pc.g.to - pc.g.from, Commit(pc.g, pc.status, pc.inserted));
    hide Retired;
    CanDo(s, Finish(t), r.(bgError := if pc.syncError && s.bgError == None then Some(pc.status) else s.bgError,
                           syncFailed := s.syncFailed || pc.syncError, tmp := if pc.g.tmp then [] else s.tmp,
                           last := pc.g.before + |pc.g.ops|));
  }

  lemma FrontNotDone(s: State)
    requires Queued(s) && s.queue != []
    ensures s.queue[0] < |s.pcs| && s.done[s.queue[0]] == None && !s.pcs[s.queue[0]].Returned?
  {
  }

  lemma FrontCanMakeRoom(s: State, t: nat)
    requires Queued(s) && s.queue != [] && s.queue[0] == t == Front(s) && s.pcs[t] == MakingRoom
    ensures CanStep(s, t)
  {
    hide InLine, Queue, CanStep, Formed, Retired, GroupSize;
    FrontIsFirst(s);
    var status := if s.bgError.Some? then s.bgError.value else OK;
    if status == OK && s.writers[t].batch.Some? {
      var g := Formed(s, t);
      CanDo(s, Room(t, OK), At(s, t, Logging(g)).(tmp := if g.tmp then g.ops else s.tmp));
    } else {
      CanDo(s, Room(t, status), Retired(s, t, 1, Commit(Alone(s, t), status, false)));
    }
  }

  /** Once a sync has failed nothing more is logged or applied. */
  lemma NothingAfterFailedSync(s: State, e: Event, s': State)
    requires Sound(s) && Step(s, e, s') && s.syncFailed
    ensures s'.log == s.log && s'.mem == s.mem && s'.syncFailed
  {
    hide InLine, Working, History, Applied, LogOk, Formed;
    if e.Append? || e.Sync? || e.Insert? || e.Finish? {
      ActiveIsFront(s, e.t);
      FrontPcIs(s, e.t);
    }
  }

  lemma FrontPcIs(s: State, t: nat)
    requires Queued(s) && t == Front(s) && s.queue != [] && t < |s.pcs|
    ensures FrontPc(|s.writers|, s.pcs, s.queue) == s.pcs[t]
  {
  }
}

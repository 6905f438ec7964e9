/** Runs in which a sync write succeeds and its record is lost all the same: what an attempt before it left in the file,
    or did not leave, hides it from recovery. */
module LostWrites {
  import opened Bytes
  import opened DbFormat
  import opened MemTables
  import opened WriteBatches
  import opened GroupCommit
  import opened GroupCommitRuns
  import LF = LogFormat
  import LogTheorems
  import Rec = Recovery
  import Durability

  ghost predicate Reachable(s: State) {
    exists states: seq<State>, events: seq<Event> :: EndsIn(states, events, s)
  }

  ghost predicate EndsIn(states: seq<State>, events: seq<Event>, s: State) {
    Run(states, events) && states[|events|] == s
  }

  lemma Starts(s: State)
    requires Initial(s)
    ensures Reachable(s)
  {
    var states: seq<State>, events: seq<Event> := [s], [];
    assert EndsIn(states, events, s);
  }

  lemma StepsOn(s: State, e: Event, s': State)
    requires Reachable(s) && Shaped(s) && Step(s, e, s')
    ensures Reachable(s')
  {
    hide Step, Shaped, Initial;
    var states: seq<State>, events: seq<Event> :| EndsIn(states, events, s);
    var states', events' := states + [s'], events + [e];
    forall k, n | 0 <= k < |events'| && n == k + 1 ensures Step(states'[k], events'[k], states'[n]) {
      if k < |events| {
        assert Step(states[k], events[k], states[n]);
      }
    }
    assert EndsIn(states', events', s');
  }

  lemma ReachableIsSound(s: State)
    requires Reachable(s)
    ensures Sound(s) && Shaped(s)
  {
    hide Sound, Run;
    var states: seq<State>, events: seq<Event> :| EndsIn(states, events, s);
    RunLength(states, events);
    RunIsSound(states, events, |events|);
    SoundIsShaped(s);
  }

  lemma RunLength(states: seq<State>, events: seq<Event>)
    requires Run(states, events)
    ensures |states| == |events| + 1
  {
  }

  lemma SoundIsShaped(s: State)
    requires Sound(s)
    ensures Shaped(s)
  {
  }

  // ----- One writer after another -----

  /** Nobody is in Write, and the log can be written to. */
  ghost predicate Idle(s: State) {
    s.queue == [] && s.tmp == [] && s.bgError == None && |s.pcs| == |s.done| == |s.writers|
  }

  /** A write of one operation. */
  function Lone(op: Op, sync: bool): Writer {
    Writer(Some([op]), sync)
  }

  function GroupOfOne(s: State, op: Op): Group {
    Group(|s.writers|, |s.writers| + 1, s.last, [op], false, Unpack(Rep(s.last + 1, [op])))
  }

  /** What that write leaves, alone in the queue, if appending to the log ends like this. */
  function After(s: State, op: Op, sync: bool, status: Status, bytes: seq<Byte>, next: nat): State {
    var g := GroupOfOne(s, op);
    var log := s.log + [NewRecord(s, g, status == OK, bytes, next)];
    s.(writers := s.writers + [Lone(op, sync)], pcs := s.pcs + [Returned(status)], done := s.done + [None],
       last := s.last + 1, offset := next,
       log := if status == OK && sync then OnDisk(log, s.fileStart) else log,
       mem := if status == OK then s.mem + [EntryFor(op, s.last + 1)] else s.mem,
       commits := s.commits + [Commit(g, status, status == OK)])
  }

  /** The writer is alone in the queue, with its group in hand. */
  ghost predicate Alone(s: State, op: Op, sync: bool, pc: Pc) {
    && |s.pcs| == |s.done| == |s.writers| > 0
    && var t := |s.writers| - 1;
       s.queue == [t] && s.writers[t] == Lone(op, sync) && s.pcs[t] == pc && s.done[t] == None && s.tmp == []
       && s.bgError == None
  }

  lemma Arrives(s: State, op: Op, sync: bool, s': State)
    requires Reachable(s) && Idle(s)
    requires s' == s.(writers := s.writers + [Lone(op, sync)], pcs := s.pcs + [Waiting], done := s.done + [None],
                      queue := [|s.writers|])
    ensures Reachable(s') && Alone(s', op, sync, Waiting)
  {
    hide Reachable;
    assert Step(s, Enqueue(Lone(op, sync)), s');
    StepsOn(s, Enqueue(Lone(op, sync)), s');
  }

  /** The group such a writer forms. */
  function Own(s: State, op: Op): Group
    requires s.writers != []
  {
    Group(|s.writers| - 1, |s.writers|, s.last, [op], false, Unpack(Rep(s.last + 1, [op])))
  }

  lemma FormsOwn(s: State, op: Op, sync: bool)
    requires Alone(s, op, sync, MakingRoom)
    ensures Shaped(s) && |s.writers| >= 1 && Queue(s) == [Lone(op, sync)] && Formed(s, |s.writers| - 1) == Own(s, op)
  {
    hide Unpack, Rep, ByteSize, GroupOps, UsesTmp, GroupSize;
    var ws, w := Queue(s), Lone(op, sync);
    assert ws == [w] && ws[..1] == ws;
    GroupIsOwn(w);
    assert [] + [op] == [op];
  }

  lemma GroupIsOwn(w: Writer)
    requires w.batch.Some?
    ensures GroupSize([w]) == 1 && GroupOps([w]) == w.batch.value && !UsesTmp([w])
  {
    hide ByteSize;
    assert [w][..0] == [] && [] + w.batch.value == w.batch.value;
  }

  /** It leads, finds room, and forms its group. */
  lemma GetsToLog(s: State, op: Op, sync: bool, s': State)
    requires s.writers != [] && Reachable(s) && Alone(s, op, sync, Waiting)
    requires |s.pcs| == |s.writers| && s' == At(s, |s.writers| - 1, Logging(Own(s, op)))
    ensures Reachable(s') && Alone(s', op, sync, Logging(Own(s, op))) && s'.writers == s.writers && s'.last == s.last
  {
    hide Reachable, Formed, Unpack, Rep, Queue, Retired;
    var t := |s.writers| - 1;
    var s1 := At(s, t, MakingRoom);
    assert Step(s, Lead(t), s1);
    StepsOn(s, Lead(t), s1);
    FormsOwn(s1, op, sync);
    assert Own(s1, op) == Own(s, op);
    assert s' == At(s1, t, Logging(Own(s, op)));
    assert Step(s1, Room(t, OK), s');
    StepsOn(s1, Room(t, OK), s');
  }

  /** Its batch is appended to the log, or some of it. */
  lemma Logs(s: State, op: Op, sync: bool, status: Status, bytes: seq<Byte>, next: nat, s': State)
    requires s.writers != [] && Reachable(s) && Alone(s, op, sync, Logging(Own(s, op)))
    requires LF.Leaves(s.crc, s.offset, Rep(s.last + 1, [op]), status == OK, bytes, next)
    requires var g := Own(s, op);
             s' == At(s, |s.writers| - 1, if status != OK then Committing(g, status, false, false)
                                          else if sync then Syncing(g) else Inserting(g, 0)).(
                     log := s.log + [NewRecord(s, g, status == OK, bytes, next)], offset := next)
    ensures Reachable(s') && Shaped(s')
  {
    hide Reachable, LF.Leaves, Unpack, Rep;
    var e := Append(|s.writers| - 1, status, bytes, next);
    assert Step(s, e, s');
    StepsOn(s, e, s');
  }

  lemma Syncs(s: State, op: Op, sync: bool, g: Group, s': State)
    requires Reachable(s) && Alone(s, op, sync, Syncing(g))
    requires s' == At(s, |s.writers| - 1, Inserting(g, 0)).(log := OnDisk(s.log, s.fileStart))
    ensures Reachable(s')
  {
    hide Reachable, OnDisk;
    var e := Sync(|s.writers| - 1, OK);
    assert Step(s, e, s');
    StepsOn(s, e, s');
  }

  /** Its operation is inserted. */
  lemma InsertsOne(s: State, op: Op, sync: bool, g: Group, s': State)
    requires Reachable(s) && Alone(s, op, sync, Inserting(g, 0)) && g.handed == Unpacked([op], OK)
    requires s' == At(s, |s.writers| - 1, Committing(g, OK, false, true)).(
                     mem := s.mem + [EntryFor(op, g.before + 1)])
    ensures Reachable(s')
  {
    hide Reachable;
    var t := |s.writers| - 1;
    var s1 := At(s, t, Inserting(g, 1)).(mem := s.mem + [EntryFor(op, g.before + 1)]);
    assert Step(s, Insert(t), s1);
    StepsOn(s, Insert(t), s1);
    assert s' == At(s1, t, Committing(g, OK, false, true));
    assert Step(s1, Insert(t), s');
    StepsOn(s1, Insert(t), s');
  }

  /** It returns. */
  lemma Departs(s: State, op: Op, sync: bool, g: Group, status: Status, inserted: bool, s': State)
    requires Reachable(s) && Alone(s, op, sync, Committing(g, status, false, inserted))
    requires g.to == g.from + 1 && !g.tmp && |g.ops| == 1
    requires s' == At(s, |s.writers| - 1, Returned(status)).(
                     queue := [], last := g.before + 1, commits := s.commits + [Commit(g, status, inserted)])
    ensures Reachable(s') && Idle(s')
  {
    hide Reachable;
    var t := |s.writers| - 1;
    var r := Retired(s, t, 1, Commit(g, status, inserted));
    assert r.done == s.done && r.queue == [];
    assert Step(s, Finish(t), s');
    StepsOn(s, Finish(t), s');
  }

  lemma HandsOutOne(sequence: nat, op: Op)
    requires op.Fits()
    ensures Unpack(Rep(sequence, [op])) == Unpacked([op], OK)
  {
    hide Unpack, Rep;
    BatchRoundTrip(sequence, [op]);
  }

  /** What it is like when the append is done. */
  function Appended(s: State, op: Op, sync: bool, status: Status, bytes: seq<Byte>, next: nat): State {
    var g := GroupOfOne(s, op);
    var pc := if status != OK then Committing(g, status, false, false)
              else if sync then Syncing(g) else Inserting(g, 0);
    s.(writers := s.writers + [Lone(op, sync)], pcs := s.pcs + [pc], done := s.done + [None], queue := [|s.writers|],
       log := s.log + [NewRecord(s, g, status == OK, bytes, next)], offset := next)
  }

  lemma AppendsAlone(s: State, op: Op, sync: bool, status: Status, bytes: seq<Byte>, next: nat)
    requires Reachable(s) && Idle(s) && LF.Leaves(s.crc, s.offset, Rep(s.last + 1, [op]), status == OK, bytes, next)
    ensures Reachable(Appended(s, op, sync, status, bytes, next))
  {
    hide LF.Leaves, Rep, Unpack, Reachable, Step;
    var t, g := |s.writers|, GroupOfOne(s, op);
    var s1 := s.(writers := s.writers + [Lone(op, sync)], pcs := s.pcs + [Waiting], done := s.done + [None],
                 queue := [t]);
    Arrives(s, op, sync, s1);
    assert Own(s1, op) == g;
    var s2 := At(s1, t, Logging(g));
    GetsToLog(s1, op, sync, s2);
    var s' := Appended(s, op, sync, status, bytes, next);
    assert At(s2, t, s'.pcs[t]).pcs == s'.pcs;
    Logs(s2, op, sync, status, bytes, next, s');
  }

  /** Whatever is left in the file, such a write comes to its end. */
  lemma WritesAlone(s: State, op: Op, sync: bool, status: Status, bytes: seq<Byte>, next: nat)
    requires Reachable(s) && Idle(s) && op.Fits()
    requires LF.Leaves(s.crc, s.offset, Rep(s.last + 1, [op]), status == OK, bytes, next)
    ensures var s' := After(s, op, sync, status, bytes, next); Reachable(s') && Idle(s')
  {
    hide LF.Leaves, Rep, Unpack, Reachable, OnDisk, Step;
    AppendsAlone(s, op, sync, status, bytes, next);
    var t, g, s3 := |s.writers|, GroupOfOne(s, op), Appended(s, op, sync, status, bytes, next);
    var s' := After(s, op, sync, status, bytes, next);
    if status == OK {
      HandsOutOne(s.last + 1, op);
      var s4 := if sync then At(s3, t, Inserting(g, 0)).(log := OnDisk(s3.log, s3.fileStart)) else s3;
      if sync {
        Syncs(s3, op, sync, g, s4);
      }
      var s5 := At(s4, t, Committing(g, OK, false, true)).(mem := s.mem + [EntryFor(op, s.last + 1)]);
      InsertsOne(s4, op, sync, g, s5);
      assert At(s5, t, Returned(OK)).pcs == s.pcs + [Returned(OK)];
      Departs(s5, op, sync, g, OK, true, s');
    } else {
      assert At(s3, t, Returned(status)).pcs == s.pcs + [Returned(status)];
      Departs(s3, op, sync, g, status, false, s');
    }
  }

  // ----- Lost -----

  lemma SizeOfDelete(sequence: nat, key: seq<Byte>)
    requires |key| < POW32
    ensures |Rep(sequence, [Delete(key)])| == 13 + |Varint(|key|)| + |key|
  {
    hide Varint, EncodeOp, EncodeOps, LE;
    var ops := [Delete(key)];
    EncodeOpsStep(ops);
    NoOps();
    assert ops[1..] == [];
    SizeOfOp(key);
  }

  lemma SizeOfOp(key: seq<Byte>)
    requires |key| < POW32
    ensures |EncodeOp(Delete(key))| == 1 + |Varint(|key|)| + |key|
  {
    hide Varint;
    assert |key| % POW32 == |key|;
  }

  /** A record that the block has room for is one fragment. */
  lemma EmitInBlock(crc: LF.Checksum, pos: nat, data: seq<Byte>)
    requires pos % LF.BLOCK_SIZE + LF.HEADER_SIZE + |data| <= LF.BLOCK_SIZE
    ensures LF.Trailer(pos) == [] && LF.FragmentLength(pos, data) == |data|
    ensures LF.Emit(crc, pos, data, true) == LF.Fragment(crc, pos, data, true)
    ensures |LF.Emit(crc, pos, data, true)| == LF.HEADER_SIZE + |data|
  {
    LF.EmitUnfolds(crc, pos, data, true);
    hide LF.Emit;
  }

  /** Nothing has happened, and the log file is new and empty. */
  function Fresh(crc: LF.Checksum): State {
    State(0, crc, [], [], [], [], 0, [], 0, [], 0, [], [], None, false, [])
  }

  lemma FreshStarts(crc: LF.Checksum)
    ensures Reachable(Fresh(crc)) && Idle(Fresh(crc))
  {
    Starts(Fresh(crc));
  }

  /** An append that fails after the header may leave just that. */
  lemma LeavesHeader(crc: LF.Checksum, data: seq<Byte>)
    requires |data| <= LF.BLOCK_SIZE - LF.HEADER_SIZE
    ensures LF.Leaves(crc, 0, data, false, LF.Fragment(crc, 0, data, true)[..LF.HEADER_SIZE], LF.HEADER_SIZE + |data|)
  {
    EmitInBlock(crc, 0, data);
    assert LF.Tried(0, data, LF.HEADER_SIZE, LF.HEADER_SIZE + |data|);
    hide LF.Tried, LF.Emit, LF.Fragment, LF.Trailer;
    var s := LF.Fragment(crc, 0, data, true);
    assert s[0..] == s && s[..LF.HEADER_SIZE][0..] == s[..LF.HEADER_SIZE];
    assert LF.LeavesAfter(crc, 0, data, 0, false, s[..LF.HEADER_SIZE], LF.HEADER_SIZE + |data|);
  }

  /** All of a record may be there and nothing of the trailer before it. */
  lemma LeavesNoTrailer(crc: LF.Checksum, pos: nat, data: seq<Byte>)
    ensures LF.Leaves(crc, pos, data, true, LF.Body(crc, pos, data), pos + |LF.Emit(crc, pos, data, true)|)
  {
    hide LF.Tried, LF.Emit, LF.Body;
    var b := LF.Body(crc, pos, data);
    assert LF.Trailer(pos)[..0] == [] && b[0..] == b;
    assert LF.LeavesAfter(crc, pos, data, 0, true, b, pos + |LF.Emit(crc, pos, data, true)|);
  }

  /** The records of two such writes, the first of which is not synced. */
  lemma TwoWrites(crc: LF.Checksum, op0: Op, status: Status, bytes0: seq<Byte>, next0: nat, op1: Op,
                  bytes1: seq<Byte>, next1: nat) returns (s: State)
    requires op0.Fits() && op1.Fits()
    requires LF.Leaves(crc, 0, Rep(1, [op0]), status == OK, bytes0, next0)
    requires LF.Leaves(crc, next0, Rep(2, [op1]), true, bytes1, next1)
    ensures Reachable(s) && s.crc == crc && s.writers == [Lone(op0, false), Lone(op1, true)]
    ensures s.pcs == [Returned(status), Returned(OK)] && |s.log| == 2 && Durability.OneFile(s.log, 0, 2)
    ensures s.log[1].onDisk && s.log[1].ok && Durability.FileOf(s.log, 0, 2) == bytes0 + bytes1
  {
    hide LF.Leaves, Rep, Reachable, Unpack;
    FreshStarts(crc);
    var s0 := Fresh(crc);
    WritesAlone(s0, op0, false, status, bytes0, next0);
    var s1 := After(s0, op0, false, status, bytes0, next0);
    WritesAlone(s1, op1, true, OK, bytes1, next1);
    s := After(s1, op1, true, OK, bytes1, next1);
    assert s.log[0].bytes == bytes0 && s.log[1].bytes == bytes1 && s.log[0].prior == [];
    assert Durability.BytesOf(s.log, 0, 0) == [] && Durability.BytesOf(s.log, 0, 1) == [] + bytes0;
    assert Durability.BytesOf(s.log, 0, 2) == [] + bytes0 + bytes1;
  }

  /** A write fails when only the header of its record is in the log. The sync write after it succeeds, and recovery
      does not find it, nor anything else, and reports nothing. */
  lemma LostBehindTornRecord(crc: LF.Checksum, o: Rec.Options, lastLog: bool, error: Status) returns (s: State)
    requires crc.Sound() && error != OK
    ensures Reachable(s) && s.crc == crc &&
            s.writers == [Lone(Delete(seq(1000, _ => 0)), false), Lone(Delete([]), true)]
    ensures s.pcs == [Returned(error), Returned(OK)] && |s.log| == 2 && Durability.OneFile(s.log, 0, 2) &&
            s.log[1].onDisk
    ensures var file := Durability.FileOf(s.log, 0, 2);
            && LF.ReadFile(crc, true, 0, file) == LF.Contents([], 0)
            && var r := Durability.Recovered(crc, o, lastLog, file, 0);
               (Rec.AllWritten(o) ==> r.status == OK) && (r.status == OK ==> r.Entries() == [])
  {
    hide LF.Leaves, LF.Emit, LF.Fragment, LF.Log, LF.ReadFile, Rep, Reachable, Rec.Finish, Rec.Replay;
    var key: seq<Byte> := seq(1000, _ => 0);
    var rep0, rep1 := Rep(1, [Delete(key)]), Rep(2, [Delete([])]);
    SizeOfDelete(1, key);
    SizeOfDelete(2, []);
    assert |Varint(1000)| == 2 && |Varint(0)| == 1 by { assert Varint(7) == [7]; }
    var bytes0, next0 := LF.Fragment(crc, 0, rep0, true)[..LF.HEADER_SIZE], LF.HEADER_SIZE + |rep0|;
    LeavesHeader(crc, rep0);
    LF.LeavesWhole(crc, next0, rep1);
    EmitInBlock(crc, next0, rep1);
    EmitInBlock(crc, 0, rep0);
    var bytes1 := LF.Emit(crc, next0, rep1, true);
    s := TwoWrites(crc, Delete(key), error, bytes0, next0, Delete([]), bytes1, next0 + |bytes1|);
    LogTheorems.NoLog(crc, 0);
    LogTheorems.TornRecordHides(crc, true, [], rep0, LF.HEADER_SIZE, bytes1);
    assert [] + (bytes0 + bytes1) == bytes0 + bytes1;
    Rec.RecoversWhatIsRead(crc, o, lastLog, bytes0 + bytes1, [], 0);
  }

  /** Two writes succeed, and so does the sync of the second; but the one byte of trailer between them did not come to
      be written, which nobody looks at. Recovery finds the first and not the second, and reports nothing. */
  lemma LostBehindMissingTrailer(crc: LF.Checksum, o: Rec.Options, lastLog: bool) returns (s: State)
    requires crc.Sound()
    ensures Reachable(s) && s.crc == crc &&
            s.writers == [Lone(Delete(seq(32744, _ => 0)), false), Lone(Delete([]), true)]
    ensures s.pcs == [Returned(OK), Returned(OK)] && |s.log| == 2 && Durability.OneFile(s.log, 0, 2) && s.log[1].onDisk
    ensures var file, op := Durability.FileOf(s.log, 0, 2), Delete(seq(32744, _ => 0));
            && LF.ReadFile(crc, true, 0, file) == LF.Contents([Rep(1, [op])], 0)
            && var r := Durability.Recovered(crc, o, lastLog, file, 0);
               (Rec.AllWritten(o) ==> r.status == OK) && (r.status == OK ==> r.Entries() == [EntryFor(op, 1)])
  {
    hide LF.Leaves, LF.Emit, LF.Body, LF.Log, LF.ReadFile, Rep, Reachable, Rec.Finish, Rec.Replay;
    var key: seq<Byte> := seq(32744, _ => 0);
    var op := Delete(key);
    var rep0, rep1 := Rep(1, [op]), Rep(2, [Delete([])]);
    SizeOfDelete(1, key);
    SizeOfDelete(2, []);
    assert |Varint(32744)| == 3 by { assert Varint(1) == [1] && |Varint(255)| == 2; }
    assert |Varint(0)| == 1;
    LF.LeavesWhole(crc, 0, rep0);
    EmitInBlock(crc, 0, rep0);
    var bytes0, pos := LF.Emit(crc, 0, rep0, true), 32767;
    LeavesNoTrailer(crc, pos, rep1);
    var bytes1 := LF.Body(crc, pos, rep1);
    s := TwoWrites(crc, op, OK, bytes0, pos, Delete([]), bytes1, pos + |LF.Emit(crc, pos, rep1, true)|);
    OneRecord(crc, rep0);
    assert |LF.Trailer(32767)| == 1;
    LogTheorems.LastByteOfTrailer(crc, pos, rep1, 0);
    LogTheorems.MissingTrailerHides(crc, true, [rep0], rep1, 0);
    assert LF.Trailer(pos)[..0] + bytes1 == bytes1;
    FirstBatch(op);
    Rec.RecoversWhatIsRead(crc, o, lastLog, bytes0 + bytes1, [Rec.Batch(1, [op])], 0);
  }

  lemma OneRecord(crc: LF.Checksum, record: seq<Byte>)
    ensures LF.Log(crc, 0, [record]) == LF.Emit(crc, 0, record, true)
  {
    hide LF.Emit;
    assert [record][1..] == [];
  }

  lemma FirstBatch(op: Op)
    requires op.Fits()
    ensures Rec.Loggable([Rec.Batch(1, [op])]) && Rec.Follows(0, [Rec.Batch(1, [op])])
    ensures Rec.Records([Rec.Batch(1, [op])]) == [Rep(1, [op])]
    ensures Rec.AllEntries([Rec.Batch(1, [op])]) == [EntryFor(op, 1)]
  {
    hide Rep;
    var b := Rec.Batch(1, [op]);
    assert [b][1..] == [] && [op][1..] == [];
    assert Rec.AllEntries([b]) == b.Entries() + [] && Numbered([op], 1) == [EntryFor(op, 1)] + [];
  }
}

/** Recovering the contents of a log: batches are replayed into memtables, which are written out whenever they grow. */
module Recovery {
  import opened Bytes
  import opened DbFormat
  import opened MemTables
  import opened WriteBatches
  import LF = LogFormat
  import LogIO
  import LogTheorems

  /** spills says of a memtable whether it has outgrown the write buffer; written, how writing it to a table ends;
      appendable, whether the log can be opened for more to be appended. */
  datatype Options = Options(paranoid: bool, reuseLogs: bool, appendable: bool, spills: seq<Entry> -> bool,
                             written: seq<Entry> -> Status)

  datatype Recovered = Recovered(tables: seq<seq<Entry>>, mem: Option<seq<Entry>>, maxSequence: nat, status: Status)
  {
    /** Everything recovered, in the order it was replayed. */
    function Entries(): seq<Entry> {
      Flat(tables) + if mem.Some? then mem.value else []
    }
  }

  function Flat(tables: seq<seq<Entry>>): seq<Entry> {
    if tables == [] then [] else Flat(tables[..|tables| - 1]) + tables[|tables| - 1]
  }

  /** The count field is read as a signed integer. */
  function Signed(count: nat): int {
    if count < 0x8000_0000 then count else count - POW32
  }

  function LastSequenceOf(rep: seq<Byte>): nat
    requires |rep| >= HEADER
  {
    (SequenceOf(rep) + Signed(CountOf(rep)) - 1) % POW64
  }

  /** A corruption noted by the reporter fails the recovery only in paranoid mode. */
  function Noted(o: Options, r: Recovered, corrupt: bool, message: string): Recovered {
    if corrupt && o.paranoid && r.status == OK then r.(status := Corruption(message)) else r
  }

  /** A memtable goes to a table, or is lost with the error that says so. */
  function WriteTable(o: Options, r: Recovered, mem: seq<Entry>): Recovered {
    if o.written(mem) == OK then r.(tables := r.tables + [mem], mem := None)
    else r.(mem := None, status := o.written(mem))
  }

  /** One record replayed. */
  function Step(o: Options, r: Recovered, record: seq<Byte>): Recovered {
    if |record| < HEADER then Noted(o, r, true, "log record too small")
    else
      var u := Unpack(record);
      var mem := (if r.mem.Some? then r.mem.value else []) + Numbered(u.ops, SequenceOf(record));
      if u.status != OK && o.paranoid then r.(mem := Some(mem), status := u.status)
      else
        var last := LastSequenceOf(record);
        var r' := r.(maxSequence := if last > r.maxSequence then last else r.maxSequence);
        if o.spills(mem) then WriteTable(o, r', mem) else r'.(mem := Some(mem))
  }

  function Replay(crc: LF.Checksum, o: Options, file: seq<Byte>, pos: nat, r: Recovered): Recovered
    decreases |file| - pos
  {
    var q := LF.ReadFrom(crc, true, 0, file, pos, LF.FRESH);
    var r0 := Noted(o, r, q.reports > 0, "corrupted log");
    if q.record == None || r0.status != OK then r0
    else
      LF.ReadWithin(crc, true, 0, file, pos, LF.FRESH);
      var r1 := Step(o, r0, q.record.value);
      if r1.status != OK then r1 else Replay(crc, o, file, q.next, r1)
  }

  /** The memtable left at the end is kept, if the log is, or else written out like the others. */
  function Finish(o: Options, lastLog: bool, r: Recovered): Recovered {
    if r.status == OK && o.reuseLogs && lastLog && r.tables == [] && o.appendable then
      r.(mem := if r.mem.Some? then r.mem else Some([]))
    else if r.mem.Some? && r.status == OK then WriteTable(o, r, r.mem.value)
    else r.(mem := None)
  }

  /** Replays what the file holds. A file that cannot be opened is an error only in paranoid mode. */
  method RecoverLogFile(crc: LF.Checksum, o: Options, opening: Status, contents: seq<Byte>, lastLog: bool,
                        maxSequence: nat)
    returns (r: Recovered)
    ensures opening == OK ==>
              r == Finish(o, lastLog, Replay(crc, o, contents, 0, Recovered([], None, maxSequence, OK)))
    ensures opening != OK ==> r == Recovered([], None, maxSequence, if o.paranoid then opening else OK)
  {
    hide Replay, Step, Finish, LF.ReadFrom;
    if opening != OK {
      return Recovered([], None, maxSequence, if o.paranoid then opening else OK);
    }
    var file := new LogIO.SequentialFile(contents, _ => None);
    var reader := new LogIO.Reader(crc, file, true, 0);
    var batch := new WriteBatch();
    r := Recovered([], None, maxSequence, OK);
    ghost var all := Replay(crc, o, contents, 0, r);
    while true
      invariant Reading(reader, crc, file, contents) && fresh(reader) && fresh(file) && fresh(batch)
      invariant all == if r.status == OK then Replay(crc, o, contents, reader.Pos(), r) else r
      decreases |contents| - reader.Pos()
    {
      ReplayStep(crc, o, contents, reader.Pos(), r);
      ReadMovesOn(crc, contents, reader.Pos());
      var before := reader.reports;
      var ok, record, _ := reader.ReadRecord();
      r := Noted(o, r, reader.reports > before, "corrupted log");
      if !ok || r.status != OK {
        break;
      }
      r := ReplayRecord(batch, o, r, record);
    }
    r := Finish(o, lastLog, r);
  }

  ghost predicate Reading(reader: LogIO.Reader, crc: LF.Checksum, file: LogIO.SequentialFile, contents: seq<Byte>)
    reads reader, reader.file
  {
    && reader.Valid() && reader.file == file && file.contents == contents && reader.crc == crc && file.Reliable()
    && reader.checksum && reader.initialOffset == 0 && !reader.resyncing && reader.lastRecordOffset >= 0
  }

  lemma ReadMovesOn(crc: LF.Checksum, file: seq<Byte>, pos: nat)
    ensures var q := LF.ReadFrom(crc, true, 0, file, pos, LF.FRESH);
            q.start >= 0 && (q.record.Some? ==> pos < q.next <= |file|)
  {
    LF.StartsInFile(crc, true, 0, file, pos, LF.FRESH);
    LF.ReadWithin(crc, true, 0, file, pos, LF.FRESH);
  }

  lemma ReplayStep(crc: LF.Checksum, o: Options, file: seq<Byte>, pos: nat, r: Recovered)
    ensures var q := LF.ReadFrom(crc, true, 0, file, pos, LF.FRESH);
            var r0 := Noted(o, r, q.reports > 0, "corrupted log");
            Replay(crc, o, file, pos, r) ==
            if q.record == None || r0.status != OK then r0
            else
              var r1 := Step(o, r0, q.record.value);
              if r1.status != OK then r1 else Replay(crc, o, file, q.next, r1)
  {
    hide LF.ReadFrom, Step;
  }

  /** The body of that loop for one record. */
  method ReplayRecord(batch: WriteBatch, o: Options, r: Recovered, record: seq<Byte>) returns (r': Recovered)
    modifies batch
    ensures r' == Step(o, r, record)
  {
    r' := r;
    if |record| < HEADER {
      return Noted(o, r, true, "log record too small");
    }
    batch.SetContents(record);
    if r'.mem == None {
      r' := r'.(mem := Some([]));
    }
    var mem, status := batch.InsertInto(r'.mem.value);
    r' := r'.(mem := Some(mem));
    if status != OK && o.paranoid {
      return r'.(status := status);
    }
    var last := LastSequenceOf(batch.rep);
    if last > r'.maxSequence {
      r' := r'.(maxSequence := last);
    }
    if o.spills(mem) {
      r' := WriteTable(o, r', mem);
    }
  }

  // ----- A log of batches, cut off anywhere -----

  /** A batch as it was logged, with the number of its first operation. */
  datatype Batch = Batch(sequence: nat, ops: seq<Op>)
  {
    /** Strings and counts fit their fields, and no sequence number is beyond the last there is. */
    ghost predicate Writable() {
      && 0 < sequence && sequence + |ops| <= MAX_SEQUENCE + 1
      && |ops| < 0x8000_0000 && forall op <- ops :: op.Fits()
    }

    function Last(): int {
      sequence + |ops| - 1
    }

    function Entries(): seq<Entry> {
      Numbered(ops, sequence)
    }
  }

  function Records(batches: seq<Batch>): (s: seq<seq<Byte>>)
    ensures |s| == |batches|
  {
    if batches == [] then [] else [Rep(batches[0].sequence, batches[0].ops)] + Records(batches[1..])
  }

  lemma {:induction false} FirstRecords(batches: seq<Batch>, n: nat)
    requires n <= |batches|
    ensures Records(batches)[..n] == Records(batches[..n])
  {
    hide Rep;
    if n > 0 {
      FirstRecords(batches[1..], n - 1);
      assert batches[..n][1..] == batches[1..][..n - 1];
    }
  }

  function AllEntries(batches: seq<Batch>): seq<Entry> {
    if batches == [] then [] else batches[0].Entries() + AllEntries(batches[1..])
  }

  /** Batches as writers log them: their ranges ascend, perhaps with gaps where a write failed. */
  ghost predicate Loggable(batches: seq<Batch>) {
    && (forall b <- batches :: b.Writable())
    && forall i, j :: 0 <= i < j < |batches| ==> batches[i].Last() < batches[j].sequence
  }

  /** No number so far is as high as those of the batches to come. */
  predicate Follows(maxSequence: nat, batches: seq<Batch>) {
    batches != [] ==> maxSequence < batches[0].sequence
  }

  /** A whole batch is added to what is recovered. */
  lemma StepsBatch(o: Options, r: Recovered, b: Batch)
    requires r.status == OK && b.Writable() && r.maxSequence < b.sequence
    ensures AllWritten(o) ==> Step(o, r, Rep(b.sequence, b.ops)).status == OK
    ensures var q := Step(o, r, Rep(b.sequence, b.ops));
            q.status == OK ==> q.maxSequence == b.Last() && q.Entries() == r.Entries() + b.Entries()
  {
    BatchFields(b.sequence, b.ops);
    hide Rep, Numbered;
    StepEffect(o, r, Rep(b.sequence, b.ops), b.ops);
  }

  lemma BatchFields(next: nat, ops: seq<Op>)
    requires 0 < next && next + |ops| <= MAX_SEQUENCE + 1 && |ops| < 0x8000_0000 && forall op <- ops :: op.Fits()
    ensures var rep := Rep(next, ops);
            Unpack(rep) == Unpacked(ops, OK) && SequenceOf(rep) == next && LastSequenceOf(rep) == next + |ops| - 1
  {
    hide Rep, Unpack, SequenceOf, CountOf, LastSequenceOf;
    BatchRoundTrip(next, ops);
    RepHeader(next, ops);
    assert CountOf(Rep(next, ops)) == |ops|;
    LastNumber(Rep(next, ops), |ops|);
  }

  lemma LastNumber(rep: seq<Byte>, count: nat)
    requires |rep| >= HEADER && CountOf(rep) == count < 0x8000_0000
    requires 0 < SequenceOf(rep) && SequenceOf(rep) + count <= MAX_SEQUENCE + 1
    ensures LastSequenceOf(rep) == SequenceOf(rep) + count - 1
  {
    hide SequenceOf, CountOf;
  }

  /** Every table that is begun is written. */
  ghost predicate AllWritten(o: Options) {
    forall mem :: o.written(mem) == OK
  }

  lemma StepEffect(o: Options, r: Recovered, record: seq<Byte>, ops: seq<Op>)
    requires r.status == OK && |record| >= HEADER && Unpack(record) == Unpacked(ops, OK)
    ensures AllWritten(o) ==> Step(o, r, record).status == OK
    ensures var q := Step(o, r, record);
            q.status == OK ==>
            && q.Entries() == r.Entries() + Numbered(ops, SequenceOf(record))
            && q.maxSequence == if LastSequenceOf(record) > r.maxSequence then LastSequenceOf(record) else r.maxSequence
  {
    hide Unpack, Numbered, SequenceOf, LastSequenceOf;
    var q, more := Step(o, r, record), Numbered(ops, SequenceOf(record));
    var mem := (if r.mem.Some? then r.mem.value else []) + more;
    if o.spills(mem) && q.status == OK {
      assert q.tables[..|q.tables| - 1] == r.tables;
      hide Flat;
      FlatMore(r.tables, mem);
      assert Flat(r.tables) + mem + [] == Flat(r.tables) + mem;
    }
    hide Flat;
    assert r.Entries() + more == Flat(r.tables) + mem;
  }

  lemma FlatMore(tables: seq<seq<Entry>>, mem: seq<Entry>)
    ensures Flat(tables + [mem]) == Flat(tables) + mem
  {
    assert (tables + [mem])[..|tables|] == tables;
  }

  /** What replay makes of the first k batches. */
  ghost predicate HasReplayed(o: Options, q: Recovered, r: Recovered, batches: seq<Batch>, k: nat)
    requires k <= |batches|
  {
    && (AllWritten(o) ==> q.status == OK)
    && (q.status == OK ==>
         && q.Entries() == r.Entries() + AllEntries(batches[..k])
         && q.maxSequence == if k == 0 then r.maxSequence else batches[k - 1].Last())
  }

  lemma ReplaysNothing(o: Options, r: Recovered, batches: seq<Batch>)
    requires r.status == OK
    ensures HasReplayed(o, r, r, batches, 0)
  {
    assert AllEntries(batches[..0]) == [];
    assert r.Entries() + [] == r.Entries();
  }

  lemma ReplaysOneMore(o: Options, q: Recovered, r1: Recovered, r: Recovered, batches: seq<Batch>, k: nat)
    requires batches != [] && k < |batches|
    requires r1.Entries() == r.Entries() + batches[0].Entries() && r1.maxSequence == batches[0].Last()
    requires HasReplayed(o, q, r1, batches[1..], k)
    ensures HasReplayed(o, q, r, batches, k + 1)
  {
    var first, more := batches[0].Entries(), AllEntries(batches[1..][..k]);
    assert batches[..k + 1][1..] == batches[1..][..k];
    assert AllEntries(batches[..k + 1]) == first + more;
    hide Numbered, AllEntries, Flat, Recovered.Entries;
    assert r.Entries() + first + more == r.Entries() + (first + more);
    assert k > 0 ==> batches[1..][k - 1] == batches[k];
  }

  lemma FailedReplay(o: Options, q: Recovered, r: Recovered, batches: seq<Batch>, k: nat)
    requires k <= |batches| && q.status != OK && !AllWritten(o)
    ensures HasReplayed(o, q, r, batches, k)
  {
  }

  lemma LoggableRest(batches: seq<Batch>)
    requires batches != [] && Loggable(batches)
    ensures batches[0].Writable() && Loggable(batches[1..]) &&
            Follows(batches[0].sequence + |batches[0].ops| - 1, batches[1..])
  {
    assert batches[0] in batches;
  }

  lemma {:induction false} ReplaysLog(crc: LF.Checksum, o: Options, file: seq<Byte>, pos: nat, batches: seq<Batch>,
                                      r: Recovered)
    requires crc.Sound() && r.status == OK && Follows(r.maxSequence, batches) && Loggable(batches)
    requires LogTheorems.Holds(file, pos, LF.Log(crc, pos, Records(batches)))
    ensures HasReplayed(o, Replay(crc, o, file, pos, r), r, batches,
                        LogTheorems.Fitting(crc, pos, Records(batches), |file|))
    decreases |batches|
  {
    hide Replay, Step, Rep, LF.ReadFrom, LF.Log, LF.Emit, LF.Trailer, Loggable, HasReplayed, Records,
         LogTheorems.Holds, LogTheorems.Fitting;
    ReplayStep(crc, o, file, pos, r);
    ReplaysNothing(o, r, batches);
    FirstRead(crc, file, pos, batches);
    if batches != [] {
      var b := batches[0];
      var pos' := pos + |LF.Emit(crc, pos, Rep(b.sequence, b.ops), true)|;
      LoggableRest(batches);
      if pos' <= |file| {
        StepsBatch(o, r, b);
        var r1 := Step(o, r, Rep(b.sequence, b.ops));
        if r1.status == OK {
          ReplaysLog(crc, o, file, pos', batches[1..], r1);
          ReplaysOneMore(o, Replay(crc, o, file, pos', r1), r1, r, batches,
                         LogTheorems.Fitting(crc, pos', Records(batches[1..]), |file|));
        } else {
          FailedReplay(o, r1, r, batches, LogTheorems.Fitting(crc, pos, Records(batches), |file|));
        }
      }
    }
  }

  /** The next batch is read if all of it is there. */
  lemma FirstRead(crc: LF.Checksum, file: seq<Byte>, pos: nat, batches: seq<Batch>)
    requires crc.Sound() && LogTheorems.Holds(file, pos, LF.Log(crc, pos, Records(batches)))
    ensures var q := LF.ReadFrom(crc, true, 0, file, pos, LF.FRESH);
            var fitting := LogTheorems.Fitting(crc, pos, Records(batches), |file|);
            if batches == [] then q.record == None && q.reports == 0 && fitting == 0
            else
              var record, more := Rep(batches[0].sequence, batches[0].ops), Records(batches[1..]);
              var pos' := pos + |LF.Emit(crc, pos, record, true)|;
              if |file| < pos' then q.record == None && q.reports == 0 && fitting == 0
              else
                && q.record == Some(record) && q.next == pos' && q.reports == 0
                && LogTheorems.Holds(file, pos', LF.Log(crc, pos', more))
                && fitting == 1 + LogTheorems.Fitting(crc, pos', more, |file|)
  {
    hide Rep, LF.ReadFrom, LF.Emit, LF.Trailer;
    if batches == [] {
      AtTheEnd(crc, file, pos);
    } else {
      var record, more := Rep(batches[0].sequence, batches[0].ops), Records(batches[1..]);
      var s := LF.Emit(crc, pos, record, true);
      assert Records(batches) == [record] + more && Records(batches)[1..] == more;
      LogTheorems.WholeOrCut(file, pos, s, LF.Log(crc, pos + |s|, more));
      if |file| < pos + |s| {
        LogTheorems.CutRecord(crc, true, 0, file, pos, record, true, LF.FRESH);
      } else {
        LogTheorems.ReadsRecord(crc, true, 0, file, pos, record, true, LF.FRESH);
        assert LF.FRESH.scratch + record == record;
      }
    }
  }

  lemma AtTheEnd(crc: LF.Checksum, file: seq<Byte>, pos: nat)
    requires pos == |file|
    ensures var q := LF.ReadFrom(crc, true, 0, file, pos, LF.FRESH); q.record == None && q.reports == 0
  {
    LF.ReadFromStep(crc, true, 0, file, pos, LF.FRESH);
  }

  lemma FinishKeeps(o: Options, lastLog: bool, r: Recovered)
    requires r.status == OK
    ensures AllWritten(o) ==> Finish(o, lastLog, r).status == OK
    ensures var q := Finish(o, lastLog, r);
            q.status == OK ==> q.Entries() == r.Entries() && q.maxSequence == r.maxSequence
  {
    var q := Finish(o, lastLog, r);
    if q.mem == None && r.mem.Some? && q.status == OK {
      assert q.tables[..|q.tables| - 1] == r.tables;
    }
  }

  lemma FinishFails(o: Options, lastLog: bool, r: Recovered)
    requires r.status != OK
    ensures Finish(o, lastLog, r).status == r.status
  {
  }

  /** Wherever the log is cut, recovery (if the tables it writes can be written) succeeds with the operations of the
      batches that are all there, numbered as they were when they were logged, and with the last of their sequence
      numbers; no matter which numbers no batch has, and how often the memtable was written out on the way. */
  lemma CrashRecovery(crc: LF.Checksum, o: Options, lastLog: bool, batches: seq<Batch>, cut: nat, maxSequence: nat)
    requires crc.Sound() && Loggable(batches) && Follows(maxSequence, batches)
    requires cut <= |LF.Log(crc, 0, Records(batches))|
    ensures var log := LF.Log(crc, 0, Records(batches));
            var k := LogTheorems.Fitting(crc, 0, Records(batches), cut);
            var r := Finish(o, lastLog, Replay(crc, o, log[..cut], 0, Recovered([], None, maxSequence, OK)));
            && (AllWritten(o) ==> r.status == OK)
            && (r.status == OK ==>
                 && r.Entries() == AllEntries(batches[..k])
                 && r.maxSequence == if k == 0 then maxSequence else batches[k - 1].Last())
  {
    hide LF.Log, Replay, LogTheorems.Fitting, Loggable, Finish, Records, AllEntries, Recovered.Entries;
    var log := LF.Log(crc, 0, Records(batches));
    var file, r := log[..cut], Recovered([], None, maxSequence, OK);
    NothingYet(r);
    assert file[0..] == file;
    ReplaysLog(crc, o, file, 0, batches, r);
    var q := Replay(crc, o, file, 0, r);
    if q.status == OK {
      FinishKeeps(o, lastLog, q);
    } else {
      FinishFails(o, lastLog, q);
    }
    var all := AllEntries(batches[..LogTheorems.Fitting(crc, 0, Records(batches), cut)]);
    assert [] + all == all;
  }

  /** Of a file from which the reader gets just some batches, and no report, just those are recovered. */
  lemma {:induction false} ReplaysWhatIsRead(crc: LF.Checksum, o: Options, file: seq<Byte>, pos: nat,
                                             batches: seq<Batch>, r: Recovered)
    requires r.status == OK && Follows(r.maxSequence, batches) && Loggable(batches)
    requires LF.ReadAll(crc, true, 0, file, pos, false) == LF.Contents(Records(batches), 0)
    ensures HasReplayed(o, Replay(crc, o, file, pos, r), r, batches, |batches|)
    decreases |batches|
  {
    hide Replay, Step, Rep, LF.ReadFrom, LF.ReadAll, Loggable, HasReplayed;
    ReplayStep(crc, o, file, pos, r);
    ReplaysNothing(o, r, batches);
    LF.ReadAllStep(crc, true, 0, file, pos, false);
    if batches != [] {
      var b := batches[0];
      var q := LF.ReadFrom(crc, true, 0, file, pos, LF.FRESH);
      assert LF.FRESH.(resyncing := false) == LF.FRESH;
      assert Records(batches)[0] == Rep(b.sequence, b.ops) && Records(batches)[1..] == Records(batches[1..]);
      assert q.record == Some(Rep(b.sequence, b.ops));
      LoggableRest(batches);
      StepsBatch(o, r, b);
      var r1 := Step(o, r, Rep(b.sequence, b.ops));
      if r1.status == OK {
        ReplaysWhatIsRead(crc, o, file, q.next, batches[1..], r1);
        ReplaysOneMore(o, Replay(crc, o, file, q.next, r1), r1, r, batches, |batches| - 1);
      } else {
        FailedReplay(o, r1, r, batches, |batches|);
      }
    }
  }

  lemma RecoversWhatIsRead(crc: LF.Checksum, o: Options, lastLog: bool, file: seq<Byte>, batches: seq<Batch>,
                           maxSequence: nat)
    requires Follows(maxSequence, batches) && Loggable(batches)
    requires LF.ReadFile(crc, true, 0, file) == LF.Contents(Records(batches), 0)
    ensures var r := Finish(o, lastLog, Replay(crc, o, file, 0, Recovered([], None, maxSequence, OK)));
            (AllWritten(o) ==> r.status == OK) && (r.status == OK ==> r.Entries() == AllEntries(batches))
  {
    hide LF.ReadAll, Replay, Records, Loggable, Finish, Follows;
    var r := Recovered([], None, maxSequence, OK);
    assert LF.SkipTarget(0) == 0;
    ReplaysWhatIsRead(crc, o, file, 0, batches, r);
    var q := Replay(crc, o, file, 0, r);
    assert batches[..|batches|] == batches && [] + AllEntries(batches) == AllEntries(batches);
    if q.status == OK {
      FinishKeeps(o, lastLog, q);
    } else {
      FinishFails(o, lastLog, q);
    }
  }

  // ----- A log of batches that something else follows -----

  /** A record, whatever is in it, adds to what is recovered, and is an error only in paranoid mode. */
  lemma StepGrows(o: Options, r: Recovered, record: seq<Byte>)
    requires r.status == OK
    ensures var q := Step(o, r, record);
            (q.status == OK ==> r.Entries() <= q.Entries()) && (AllWritten(o) && !o.paranoid ==> q.status == OK)
  {
    hide Unpack, Numbered, SequenceOf, LastSequenceOf, Flat, Recovered.Entries;
    if |record| >= HEADER {
      var more, q := Numbered(Unpack(record).ops, SequenceOf(record)), Step(o, r, record);
      if q.status == OK {
        MemGrows(o, r, more, q);
      }
    } else {
      SameEntries(r, Step(o, r, record));
    }
  }

  lemma SameEntries(r: Recovered, q: Recovered)
    requires q.tables == r.tables && q.mem == r.mem
    ensures q.Entries() == r.Entries()
  {
  }

  /** The memtable has got more entries, whether it is kept or written to a table. */
  lemma MemGrows(o: Options, r: Recovered, more: seq<Entry>, q: Recovered)
    requires var mem := (if r.mem.Some? then r.mem.value else []) + more;
             (q.tables == r.tables && q.mem == Some(mem)) || (q.tables == r.tables + [mem] && q.mem == None)
    ensures q.Entries() == r.Entries() + more
  {
    hide Flat;
    var mem := (if r.mem.Some? then r.mem.value else []) + more;
    FlatMore(r.tables, mem);
    assert r.Entries() + more == Flat(r.tables) + mem;
    assert Flat(r.tables) + mem + [] == Flat(r.tables) + mem;
  }

  lemma {:induction false} ReplayGrows(crc: LF.Checksum, o: Options, file: seq<Byte>, pos: nat, r: Recovered)
    requires r.status == OK
    ensures var q := Replay(crc, o, file, pos, r);
            (q.status == OK ==> r.Entries() <= q.Entries()) && (AllWritten(o) && !o.paranoid ==> q.status == OK)
    decreases |file| - pos
  {
    hide Replay, Step, LF.ReadFrom, Recovered.Entries;
    ReplayStep(crc, o, file, pos, r);
    ReadMovesOn(crc, file, pos);
    var q := LF.ReadFrom(crc, true, 0, file, pos, LF.FRESH);
    var r0 := Noted(o, r, q.reports > 0, "corrupted log");
    if q.record.Some? && r0.status == OK {
      StepGrows(o, r, q.record.value);
      var r1 := Step(o, r, q.record.value);
      if r1.status == OK {
        ReplayGrows(crc, o, file, q.next, r1);
      }
    }
  }

  /** Whatever follows whole batches in the file, they are replayed first and stay. */
  lemma {:induction false} ReplaysFirst(crc: LF.Checksum, o: Options, file: seq<Byte>, pos: nat, batches: seq<Batch>,
                                        r: Recovered)
    requires crc.Sound() && r.status == OK && Follows(r.maxSequence, batches) && Loggable(batches)
    requires pos <= |file| && LF.Log(crc, pos, Records(batches)) <= file[pos..]
    ensures var q := Replay(crc, o, file, pos, r);
            && (q.status == OK ==> r.Entries() + AllEntries(batches) <= q.Entries())
            && (AllWritten(o) && !o.paranoid ==> q.status == OK)
    decreases |batches|
  {
    hide Replay, Step, Rep, LF.ReadFrom, LF.Log, LF.Emit, LF.Trailer, Loggable, Records, Recovered.Entries,
         Batch.Entries;
    if batches == [] {
      ReplayGrows(crc, o, file, pos, r);
      assert r.Entries() + [] == r.Entries();
    } else {
      var b := batches[0];
      FirstWhole(crc, file, pos, batches);
      ReplayStep(crc, o, file, pos, r);
      LoggableRest(batches);
      StepsBatch(o, r, b);
      var r1, pos' := Step(o, r, Rep(b.sequence, b.ops)), pos + |LF.Emit(crc, pos, Rep(b.sequence, b.ops), true)|;
      if r1.status == OK {
        ReplaysFirst(crc, o, file, pos', batches[1..], r1);
        assert r.Entries() + (b.Entries() + AllEntries(batches[1..])) == r1.Entries() + AllEntries(batches[1..]);
      }
    }
  }

  lemma FirstWhole(crc: LF.Checksum, file: seq<Byte>, pos: nat, batches: seq<Batch>)
    requires crc.Sound() && batches != [] && pos <= |file| && LF.Log(crc, pos, Records(batches)) <= file[pos..]
    ensures var record := Rep(batches[0].sequence, batches[0].ops);
            var q, pos' := LF.ReadFrom(crc, true, 0, file, pos, LF.FRESH), pos + |LF.Emit(crc, pos, record, true)|;
            && q.record == Some(record) && q.next == pos' && q.reports == 0
            && pos' <= |file| && LF.Log(crc, pos', Records(batches[1..])) <= file[pos'..]
  {
    hide Rep, LF.ReadFrom, LF.Emit, LF.Trailer, LF.Log;
    var record, more := Rep(batches[0].sequence, batches[0].ops), Records(batches[1..]);
    var s := LF.Emit(crc, pos, record, true);
    assert Records(batches) == [record] + more && Records(batches)[1..] == more;
    LogTheorems.LogUnfolds(crc, pos, Records(batches));
    LogTheorems.PrefixSplit(file, pos, s, LF.Log(crc, pos + |s|, more));
    LogTheorems.ReadsRecord(crc, true, 0, file, pos, record, true, LF.FRESH);
    assert LF.FRESH.scratch + record == record;
  }

  /** Let anything follow a log of batches, and cut the file off anywhere: recovery keeps the batches that are all
      there, whatever it makes of the rest, unless it ends with an error. */
  lemma RecoversFirst(crc: LF.Checksum, o: Options, lastLog: bool, batches: seq<Batch>, more: seq<Byte>, cut: nat,
                      maxSequence: nat)
    requires crc.Sound() && Loggable(batches) && Follows(maxSequence, batches)
    requires cut <= |LF.Log(crc, 0, Records(batches)) + more|
    ensures var file := (LF.Log(crc, 0, Records(batches)) + more)[..cut];
            var k := LogTheorems.Fitting(crc, 0, Records(batches), cut);
            var r := Finish(o, lastLog, Replay(crc, o, file, 0, Recovered([], None, maxSequence, OK)));
            && (AllWritten(o) && (more == [] || !o.paranoid) ==> r.status == OK)
            && (r.status == OK ==> AllEntries(batches[..k]) <= r.Entries())
            && (r.status == OK && more == [] ==> AllEntries(batches[..k]) == r.Entries())
  {
    hide LF.Log, Replay, LogTheorems.Fitting, Loggable, Finish, Recovered.Entries;
    var log := LF.Log(crc, 0, Records(batches));
    var file, r := (log + more)[..cut], Recovered([], None, maxSequence, OK);
    if cut <= |log| {
      assert file == log[..cut];
      CrashRecovery(crc, o, lastLog, batches, cut, maxSequence);
    } else {
      LogTheorems.AllFit(crc, 0, Records(batches), cut);
      assert batches[..|batches|] == batches;
      assert file[0..] == file && log <= file;
      ReplaysFirst(crc, o, file, 0, batches, r);
      NothingYet(r);
      assert [] + AllEntries(batches) == AllEntries(batches);
      var q := Replay(crc, o, file, 0, r);
      if q.status == OK {
        FinishKeeps(o, lastLog, q);
      } else {
        FinishFails(o, lastLog, q);
      }
    }
  }

  lemma NothingYet(r: Recovered)
    requires r.tables == [] && r.mem == None
    ensures r.Entries() == []
  {
  }

  lemma {:induction false} EntriesWithin(batches: seq<Batch>, i: nat)
    requires Loggable(batches) && i < |AllEntries(batches)|
    ensures batches != [] && batches[0].sequence <= AllEntries(batches)[i].sequence <= MAX_SEQUENCE
  {
    hide Numbered;
    LoggableRest(batches);
    hide Loggable;
    var b := batches[0];
    if i < |b.ops| {
      NumberedAt(b.ops, b.sequence, i);
    } else {
      EntriesWithin(batches[1..], i - |b.ops|);
    }
  }

  /** Recovered entries carry ascending sequence numbers, so no two of them compete for one place in a memtable. */
  lemma {:induction false} RecoveredAscend(batches: seq<Batch>, i: nat, j: nat)
    requires Loggable(batches) && i < j < |AllEntries(batches)|
    ensures batches != []
    ensures var s := AllEntries(batches); batches[0].sequence <= s[i].sequence < s[j].sequence <= MAX_SEQUENCE
  {
    hide Numbered;
    EntriesWithin(batches, i);
    EntriesWithin(batches, j);
    LoggableRest(batches);
    hide Loggable;
    var b := batches[0];
    if i < |b.ops| {
      NumberedAt(b.ops, b.sequence, i);
      if j < |b.ops| {
        NumberedAt(b.ops, b.sequence, j);
      } else {
        EntriesWithin(batches[1..], j - |b.ops|);
      }
    } else {
      RecoveredAscend(batches[1..], i - |b.ops|, j - |b.ops|);
    }
  }
}

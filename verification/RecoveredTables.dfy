/** Where recovery puts what it finds, for any file at all: which entries go to which table, what is kept in memory, and
    when recovery fails. */
module RecoveredTables {
  import opened Bytes
  import opened DbFormat
  import opened MemTables
  import opened WriteBatches
  import opened Recovery
  import LF = LogFormat
  import LogTheorems

  /** The entries a record holds, up to the first operation that cannot be read. */
  function PartOf(record: seq<Byte>): seq<Entry>
    requires |record| >= HEADER
  {
    Numbered(Unpack(record).ops, SequenceOf(record))
  }

  /** The entries of the records that are long enough for a batch, record by record. */
  function Parts(records: seq<seq<Byte>>): seq<seq<Entry>> {
    if records == [] then []
    else (if |records[0]| < HEADER then [] else [PartOf(records[0])]) + Parts(records[1..])
  }

  /** The highest number a batch ends with, if that is more than `least`. */
  function Highest(records: seq<seq<Byte>>, least: nat): nat {
    if records == [] then least
    else if |records[0]| < HEADER || LastSequenceOf(records[0]) <= least then Highest(records[1..], least)
    else Highest(records[1..], LastSequenceOf(records[0]))
  }

  /** Every record is a batch that can be read to its end. */
  predicate AllWhole(records: seq<seq<Byte>>) {
    forall record <- records :: |record| >= HEADER && Unpack(record).status == OK
  }

  /** A memtable that takes in the parts one after the other has outgrown the write buffer after none of them. */
  ghost predicate NeverFull(o: Options, parts: seq<seq<Entry>>) {
    forall j :: 0 < j <= |parts| ==> !o.spills(Flat(parts[..j]))
  }

  /** It has outgrown the buffer with the last of the parts, and not before. */
  ghost predicate FullAtLast(o: Options, parts: seq<seq<Entry>>) {
    parts != [] && o.spills(Flat(parts)) && NeverFull(o, parts[..|parts| - 1])
  }

  /** Each table holds as many parts as it took to fill a memtable, and the memtable what came after. */
  ghost predicate Laid(o: Options, parts: seq<seq<Entry>>, tables: seq<seq<Entry>>, mem: Option<seq<Entry>>)
    decreases |tables|
  {
    if tables == [] then
      NeverFull(o, parts) && if parts == [] then mem == None else mem == Some(Flat(parts))
    else
      exists n: nat ::
        && n <= |parts| && FullAtLast(o, parts[..n]) && tables[0] == Flat(parts[..n])
        && Laid(o, parts[n..], tables[1..], mem)
  }

  // ----- One record more -----

  lemma {:induction false} FlatSplit(parts: seq<seq<Entry>>, n: nat)
    requires n <= |parts|
    ensures Flat(parts) == Flat(parts[..n]) + Flat(parts[n..])
    decreases |parts|
  {
    if n == |parts| {
      assert parts[..n] == parts && parts[n..] == [];
    } else {
      var m := |parts| - 1;
      FlatSplit(parts[..m], n);
      assert parts[..m][..n] == parts[..n] && parts[..m][n..] == parts[n..m];
      assert parts[n..][..m - n] == parts[n..m] && parts[n..][m - n] == parts[m];
      Regroup(Flat(parts[..n]), Flat(parts[n..m]), parts[m]);
    }
  }

  lemma Regroup(a: seq<Entry>, b: seq<Entry>, c: seq<Entry>)
    ensures a + b + c == a + (b + c)
  {
  }

  lemma NeverFullMore(o: Options, parts: seq<seq<Entry>>, part: seq<Entry>)
    requires NeverFull(o, parts) && !o.spills(Flat(parts) + part)
    ensures NeverFull(o, parts + [part])
  {
    FlatMore(parts, part);
    hide Flat;
    forall j | 0 < j <= |parts| + 1 ensures !o.spills(Flat((parts + [part])[..j])) {
      assert (parts + [part])[..j] == if j <= |parts| then parts[..j] else parts + [part];
    }
  }

  function InHand(mem: Option<seq<Entry>>): seq<Entry> {
    if mem.Some? then mem.value else []
  }

  lemma {:induction false} LaysMore(o: Options, parts: seq<seq<Entry>>, tables: seq<seq<Entry>>,
                                    mem: Option<seq<Entry>>, part: seq<Entry>)
    requires Laid(o, parts, tables, mem)
    ensures var m := InHand(mem) + part;
            if o.spills(m) then Laid(o, parts + [part], tables + [m], None)
            else Laid(o, parts + [part], tables, Some(m))
    decreases |tables|
  {
    hide Flat, NeverFull;
    var more, m := parts + [part], InHand(mem) + part;
    if tables == [] {
      NothingFlat();
      FlatMore(parts, part);
      assert InHand(mem) == Flat(parts);
      assert more[..|parts|] == parts && more[..|more|] == more && more[|more|..] == [];
      if o.spills(m) {
        assert FullAtLast(o, more);
        assert [m][1..] == [] && Laid(o, [], [], None) by { NeverFullNothing(o); }
        assert FullAtLast(o, more[..|more|]) && Laid(o, more[|more|..], [m][1..], None);
        assert [] + [m] == [m];
      } else {
        NeverFullMore(o, parts, part);
      }
    } else {
      var n: nat :| n <= |parts| && FullAtLast(o, parts[..n]) && tables[0] == Flat(parts[..n]) &&
                    Laid(o, parts[n..], tables[1..], mem);
      LaysMore(o, parts[n..], tables[1..], mem, part);
      assert more[..n] == parts[..n] && more[n..] == parts[n..] + [part];
      assert (tables + [m])[1..] == tables[1..] + [m] && (tables + [m])[0] == tables[0];
      hide FullAtLast;
    }
  }

  lemma NothingFlat()
    ensures Flat([]) == []
  {
  }

  lemma NeverFullNothing(o: Options)
    ensures NeverFull(o, [])
  {
  }

  /** Nothing is lost and nothing added: tables and memtable together hold all the parts. */
  lemma {:induction false} LaidHoldsAll(o: Options, parts: seq<seq<Entry>>, tables: seq<seq<Entry>>,
                                        mem: Option<seq<Entry>>)
    requires Laid(o, parts, tables, mem)
    ensures Flat(tables) + InHand(mem) == Flat(parts)
    decreases |tables|
  {
    hide Flat, NeverFull;
    NothingFlat();
    if tables == [] {
      assert [] + InHand(mem) == InHand(mem);
    } else {
      var n: nat :| n <= |parts| && FullAtLast(o, parts[..n]) && tables[0] == Flat(parts[..n]) &&
                    Laid(o, parts[n..], tables[1..], mem);
      LaidHoldsAll(o, parts[n..], tables[1..], mem);
      FlatSplit(parts, n);
      FlatSplit(tables, 1);
      assert tables[..1] == [tables[0]];
      FlatMore([], tables[0]);
      assert [] + [tables[0]] == [tables[0]] && [] + tables[0] == tables[0];
      Regroup(tables[0], Flat(tables[1..]), InHand(mem));
    }
  }

  /** No table was filled exactly if the memtable was never full. */
  lemma NoTables(o: Options, parts: seq<seq<Entry>>, tables: seq<seq<Entry>>, mem: Option<seq<Entry>>)
    requires Laid(o, parts, tables, mem)
    ensures tables == [] <==> NeverFull(o, parts)
  {
    hide Flat;
    if tables != [] {
      var n: nat :| n <= |parts| && FullAtLast(o, parts[..n]) && tables[0] == Flat(parts[..n]) &&
                    Laid(o, parts[n..], tables[1..], mem);
      assert o.spills(Flat(parts[..n]));
    }
  }

  // ----- All of the file -----

  /** What replaying these records has come to. */
  ghost predicate Replayed(o: Options, parts: seq<seq<Entry>>, r: Recovered) {
    Laid(o, parts, r.tables, r.mem)
  }

  lemma StepLays(o: Options, r: Recovered, record: seq<Byte>, parts: seq<seq<Entry>>)
    requires r.status == OK && Replayed(o, parts, r)
    ensures var q := Step(o, r, record);
            && (q.status == OK ==> Replayed(o, parts + Parts([record]), q) &&
                                   q.maxSequence == Highest([record], r.maxSequence))
            && (o.paranoid && !AllWhole([record]) ==> q.status != OK)
            && (AllWritten(o) && (!o.paranoid || AllWhole([record])) ==> q.status == OK)
  {
    hide Laid, Unpack, Numbered, SequenceOf, LastSequenceOf, Flat;
    assert [record][1..] == [] && Parts([]) == [] && Highest([], r.maxSequence) == r.maxSequence;
    if |record| < HEADER {
      assert parts + [] == parts && [] + Parts([]) == [];
    } else {
      assert [PartOf(record)] + [] == [PartOf(record)];
      LaysMore(o, parts, r.tables, r.mem, PartOf(record));
      assert record in [record];
    }
  }

  lemma OneRecordMore(records: seq<seq<Byte>>, least: nat)
    requires records != []
    ensures Parts(records) == Parts([records[0]]) + Parts(records[1..])
    ensures Highest(records, least) == Highest(records[1..], Highest([records[0]], least))
    ensures AllWhole(records) <==> AllWhole([records[0]]) && AllWhole(records[1..])
  {
    hide Unpack, Numbered, SequenceOf, LastSequenceOf;
    var one := [records[0]];
    assert one[1..] == [] && Parts([]) == [];
    assert Parts(one) == (if |records[0]| < HEADER then [] else [PartOf(records[0])]) + [];
    assert records == one + records[1..];
  }

  lemma {:induction false} ReplaysAll(crc: LF.Checksum, o: Options, file: seq<Byte>, pos: nat, r: Recovered,
                                      parts: seq<seq<Entry>>)
    requires r.status == OK && Replayed(o, parts, r)
    ensures var q, c := Replay(crc, o, file, pos, r), LF.ReadAll(crc, true, 0, file, pos, false);
            && (q.status == OK ==>
                 Replayed(o, parts + Parts(c.records), q) && q.maxSequence == Highest(c.records, r.maxSequence))
            && (o.paranoid && !(c.reports == 0 && AllWhole(c.records)) ==> q.status != OK)
            && (AllWritten(o) && (!o.paranoid || (c.reports == 0 && AllWhole(c.records))) ==> q.status == OK)
    decreases |file| - pos
  {
    hide Replay, Replayed, Step, LF.ReadFrom, LF.ReadAll, Highest, AllWhole, Parts, AllWritten;
    ReplayStep(crc, o, file, pos, r);
    LF.ReadAllStep(crc, true, 0, file, pos, false);
    NoRecords(r.maxSequence, parts);
    assert LF.FRESH.(resyncing := false) == LF.FRESH;
    var f, c := LF.ReadFrom(crc, true, 0, file, pos, LF.FRESH), LF.ReadAll(crc, true, 0, file, pos, false);
    if f.record.Some? {
      var record := f.record.value;
      var rest := LF.ReadAll(crc, true, 0, file, f.next, false).records;
      assert c.records[0] == record && c.records[1..] == rest;
      OneRecordMore(c.records, r.maxSequence);
      StepLays(o, r, record, parts);
      var r1 := Step(o, r, record);
      if r1.status == OK && !(o.paranoid && f.reports > 0) {
        ReplaysAll(crc, o, file, f.next, r1, parts + Parts([record]));
        RegroupParts(parts, Parts([record]), Parts(rest));
      }
    }
  }

  lemma RegroupParts(a: seq<seq<Entry>>, b: seq<seq<Entry>>, c: seq<seq<Entry>>)
    ensures a + b + c == a + (b + c)
  {
  }

  lemma NoRecords(least: nat, parts: seq<seq<Entry>>)
    ensures parts + Parts([]) == parts && Highest([], least) == least && AllWhole([])
  {
  }

  /** Every table but perhaps the last was written because its memtable had outgrown the buffer, and that one is not
      empty of parts. */
  ghost predicate InTables(o: Options, parts: seq<seq<Entry>>, tables: seq<seq<Entry>>) {
    || Laid(o, parts, tables, None)
    || (tables != [] && Laid(o, parts, tables[..|tables| - 1], Some(tables[|tables| - 1])))
  }

  /** What the recovery of a log ends with from which the reader gets these records and this many reports. */
  ghost predicate Recovers(o: Options, lastLog: bool, records: seq<seq<Byte>>, reports: nat, least: nat, r: Recovered) {
    var parts, sound := Parts(records), reports == 0 && AllWhole(records);
    && (o.paranoid && !sound ==> r.status != OK)
    && (AllWritten(o) && (!o.paranoid || sound) ==> r.status == OK)
    && (r.status == OK ==>
         && r.maxSequence == Highest(records, least)
         && (r.mem.Some? <==> o.reuseLogs && o.appendable && lastLog && NeverFull(o, parts))
         && if r.mem.Some? then r.tables == [] && r.mem.value == Flat(parts)
            else Flat(r.tables) == Flat(parts) && InTables(o, parts, r.tables))
  }

  lemma FinishPlaces(o: Options, lastLog: bool, parts: seq<seq<Entry>>, q: Recovered)
    requires q.status == OK && Replayed(o, parts, q)
    ensures var r := Finish(o, lastLog, q);
            && (AllWritten(o) ==> r.status == OK) && r.maxSequence == q.maxSequence
            && (r.status == OK ==>
                 && (r.mem.Some? <==> o.reuseLogs && o.appendable && lastLog && NeverFull(o, parts))
                 && if r.mem.Some? then r.tables == [] && r.mem.value == Flat(parts)
                    else Flat(r.tables) == Flat(parts) && InTables(o, parts, r.tables))
  {
    hide Flat, Laid, NeverFull;
    var r := Finish(o, lastLog, q);
    NoTables(o, parts, q.tables, q.mem);
    LaidHoldsAll(o, parts, q.tables, q.mem);
    NothingFlat();
    assert [] + InHand(q.mem) == InHand(q.mem) && Flat(q.tables) + [] == Flat(q.tables);
    if q.mem.Some? && r.mem == None && r.status == OK {
      FlatMore(q.tables, q.mem.value);
      assert r.tables[..|r.tables| - 1] == q.tables;
    }
  }

  /** Whatever is in the file, recovery makes of it what the reader gets from it. In paranoid mode it fails exactly if
      the reader complains or a record is not a whole batch, and in any mode if a table cannot be written. Otherwise
      every entry is in a table, unless the log is reused and the memtable never outgrew the buffer. */
  lemma RecoveryIsExact(crc: LF.Checksum, o: Options, lastLog: bool, file: seq<Byte>, least: nat)
    ensures var c := LF.ReadFile(crc, true, 0, file);
            Recovers(o, lastLog, c.records, c.reports, least,
                     Finish(o, lastLog, Replay(crc, o, file, 0, Recovered([], None, least, OK))))
  {
    hide Replay, Replayed, Finish, LF.ReadAll, Highest, AllWhole, Parts, AllWritten, NeverFull, InTables, Flat;
    var r := Recovered([], None, least, OK);
    assert LF.SkipTarget(0) == 0;
    NothingLaid(o, r);
    ReplaysAll(crc, o, file, 0, r, []);
    var q, c := Replay(crc, o, file, 0, r), LF.ReadFile(crc, true, 0, file);
    assert [] + Parts(c.records) == Parts(c.records);
    if q.status == OK {
      FinishPlaces(o, lastLog, Parts(c.records), q);
    } else {
      FinishFails(o, lastLog, q);
    }
  }

  lemma NothingLaid(o: Options, r: Recovered)
    requires r.tables == [] && r.mem == None
    ensures Replayed(o, [], r)
  {
  }

  /** RecoverLogFile on a file that can be opened. */
  method RecoverOpened(crc: LF.Checksum, o: Options, contents: seq<Byte>, lastLog: bool, maxSequence: nat)
    returns (r: Recovered)
    ensures var c := LF.ReadFile(crc, true, 0, contents);
            Recovers(o, lastLog, c.records, c.reports, maxSequence, r)
  {
    hide LF.ReadFile, Recovers, Replay, Finish;
    RecoveryIsExact(crc, o, lastLog, contents, maxSequence);
    r := RecoverLogFile(crc, o, OK, contents, lastLog, maxSequence);
  }

  // ----- A log of batches -----

  /** The parts are the entries of the batches, one after the other. */
  lemma {:induction false} PartsOfBatches(batches: seq<Batch>, j: nat)
    requires (forall b <- batches :: b.Writable()) && j <= |batches|
    ensures AllWhole(Records(batches)) && |Parts(Records(batches))| == |batches|
    ensures Flat(Parts(Records(batches))[..j]) == AllEntries(batches[..j])
    decreases |batches|
  {
    hide Unpack, Numbered, Rep, SequenceOf, LastSequenceOf, Flat, AllEntries, Parts, AllWhole;
    NothingFlat();
    NoBatches();
    if batches != [] {
      var b, records := batches[0], Records(batches);
      assert b in batches;
      BatchFields(b.sequence, b.ops);
      HasHeader(b);
      PartsOfBatches(batches[1..], if j == 0 then 0 else j - 1);
      assert records == [Rep(b.sequence, b.ops)] + Records(batches[1..]);
      OneRecordMore(records, 0);
      var part := PartOf(records[0]);
      FirstPart(records[0]);
      if j > 0 {
        FirstParts(part, Parts(records[1..]), j);
        FirstEntries(batches, j);
      }
    }
  }

  lemma FirstParts(part: seq<Entry>, more: seq<seq<Entry>>, j: nat)
    requires 0 < j <= 1 + |more|
    ensures Flat(([part] + more)[..j]) == part + Flat(more[..j - 1])
  {
    assert ([part] + more)[..j] == [part] + more[..j - 1];
    FlatFirst(part, more[..j - 1]);
  }

  lemma FirstEntries(batches: seq<Batch>, j: nat)
    requires 0 < j <= |batches|
    ensures AllEntries(batches[..j]) == batches[0].Entries() + AllEntries(batches[1..][..j - 1])
  {
    assert batches[..j][1..] == batches[1..][..j - 1];
    hide Batch.Entries;
  }

  lemma FirstPart(record: seq<Byte>)
    requires |record| >= HEADER
    ensures Parts([record]) == [PartOf(record)] && (Unpack(record).status == OK ==> AllWhole([record]))
  {
    hide Unpack, Numbered, SequenceOf;
    var one := [record];
    assert one[1..] == [];
    assert [PartOf(record)] + [] == [PartOf(record)];
  }

  lemma FlatFirst(part: seq<Entry>, parts: seq<seq<Entry>>)
    ensures Flat([part] + parts) == part + Flat(parts)
  {
    hide Flat;
    var all := [part] + parts;
    FlatSplit(all, 1);
    assert all[..1] == [] + [part] && all[1..] == parts;
    FlatMore([], part);
    NothingFlat();
    assert [] + part == part;
  }

  lemma NoBatches()
    ensures AllEntries([]) == [] && Parts([]) == [] && AllWhole([])
  {
  }

  lemma HasHeader(b: Batch)
    ensures |Rep(b.sequence, b.ops)| >= HEADER
  {
  }

  /** Of a log of batches, cut off anywhere, the entries of the whole batches are kept in memory if the log is reused
      and no memtable grew too large on the way; if not, all of them are in tables. */
  lemma CrashRecoveryPlaces(crc: LF.Checksum, o: Options, lastLog: bool, batches: seq<Batch>, cut: nat, least: nat)
    requires crc.Sound() && Loggable(batches) && cut <= |LF.Log(crc, 0, Records(batches))|
    ensures var k := LogTheorems.Fitting(crc, 0, Records(batches), cut);
            var file := LF.Log(crc, 0, Records(batches))[..cut];
            var r := Finish(o, lastLog, Replay(crc, o, file, 0, Recovered([], None, least, OK)));
            var all := AllEntries(batches[..k]);
            && (AllWritten(o) ==> r.status == OK)
            && (r.status == OK ==>
                 && (r.mem.Some? <==> && o.reuseLogs && o.appendable && lastLog
                                      && forall j :: 0 < j <= k ==> !o.spills(AllEntries(batches[..j])))
                 && if r.mem.Some? then r.tables == [] && r.mem.value == all else Flat(r.tables) == all)
  {
    hide LF.Log, LF.ReadAll, Replay, Finish, Records, Parts, Flat, AllWhole, AllEntries, LogTheorems.Fitting, InTables;
    var k := LogTheorems.Fitting(crc, 0, Records(batches), cut);
    var file, some := LF.Log(crc, 0, Records(batches))[..cut], batches[..k];
    LogTheorems.CutLog(crc, true, Records(batches), cut);
    FirstRecords(batches, k);
    RecoveryIsExact(crc, o, lastLog, file, least);
    forall j | 0 <= j <= k
      ensures |Parts(Records(some))| == k && Flat(Parts(Records(some))[..j]) == AllEntries(batches[..j])
      ensures AllWhole(Records(some))
    {
      PartsOfBatches(some, j);
      assert some[..j] == batches[..j];
    }
    assert Parts(Records(some))[..k] == Parts(Records(some));
  }
}

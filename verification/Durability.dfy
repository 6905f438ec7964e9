/** What the log of a run of writers gives back after a crash: every batch known to be on disk is recovered, whole. */
module Durability {
  import opened Bytes
  import opened DbFormat
  import opened MemTables
  import opened WriteBatches
  import opened GroupCommit
  import Runs = GroupCommitRuns
  import LF = LogFormat
  import LogTheorems
  import Rec = Recovery

  /** The batches of the records [a, b), which is what some log file of the run holds. */
  function Logged(log: seq<Runs.Record>, a: nat, b: nat): (s: seq<Rec.Batch>)
    requires a <= b <= |log|
    ensures |s| == b - a
    ensures forall i :: 0 <= i < |s| ==> s[i] == Rec.Batch(log[a + i].g.before + 1, log[a + i].g.ops)
  {
    seq(b - a, i requires 0 <= i < b - a => Rec.Batch(log[a + i].g.before + 1, log[a + i].g.ops))
  }

  ghost predicate InRange(log: seq<Runs.Record>) {
    forall r <- log :: r.g.before + |r.g.ops| <= MAX_SEQUENCE
  }

  /** The batches of a run are what recovery asks of a log. */
  lemma RunIsLoggable(s: Runs.State, a: nat, b: nat)
    requires Runs.Sound(s) && Runs.AllFit(s.writers) && InRange(s.log) && a <= b <= |s.log|
    ensures Rec.Loggable(Logged(s.log, a, b))
  {
    hide Runs.Sound, Runs.AllFit, InRange;
    var batches := Logged(s.log, a, b);
    forall i | 0 <= i < |batches| ensures batches[i].Writable() {
      RecordWritable(s, a + i);
    }
    forall i, j | 0 <= i < j < |batches| ensures batches[i].Last() < batches[j].sequence {
      RecordsAscend(s, a + i, a + j);
    }
  }

  lemma RecordsAscend(s: Runs.State, i: nat, j: nat)
    requires Runs.Sound(s) && i < j < |s.log|
    ensures s.log[i].g.before + |s.log[i].g.ops| <= s.log[j].g.before
  {
    hide Runs.Sound;
    Runs.GroupsAscend(s);
    assert Runs.Before(s.log[i].g, s.log[j].g);
  }

  lemma RecordWritable(s: Runs.State, i: nat)
    requires Runs.Sound(s) && Runs.AllFit(s.writers) && InRange(s.log) && i < |s.log|
    ensures Rec.Batch(s.log[i].g.before + 1, s.log[i].g.ops).Writable()
  {
    hide Runs.Sound, GroupOps, UsesTmp, Unpack, Rep, Runs.AllFit;
    var g := s.log[i].g;
    RecordIsGroup(s, i);
    assert s.log[i] in s.log;
    FitsIn(s.writers, g.from, g.to);
    Runs.GroupFits(s.writers[g.from..g.to]);
  }

  lemma FitsIn(writers: seq<Writer>, from: nat, to: nat)
    requires Runs.AllFit(writers) && from <= to <= |writers|
    ensures Runs.AllFit(writers[from..to])
  {
  }

  // ----- Log files -----

  /** The attempt to log the group succeeded, and all of it is there, with the trailer before it if one was due. */
  ghost predicate Clean(crc: LF.Checksum, r: Runs.Record) {
    r.ok && r.bytes == LF.Emit(crc, r.offset, Rep(r.g.before + 1, r.g.ops), true)
  }

  /** An attempt that succeeded is clean unless bytes of a trailer are missing; and where none was due none are. */
  lemma SuccessIsClean(crc: LF.Checksum, r: Runs.Record)
    requires Runs.Attempted(crc, r) && r.ok
    ensures Clean(crc, r) <==> |r.bytes| == |LF.Emit(crc, r.offset, Rep(r.g.before + 1, r.g.ops), true)|
    ensures LF.Trailer(r.offset) == [] ==> Clean(crc, r)
  {
    hide LF.Emit, LF.Leaves, LF.Trailer, Rep;
    LF.LeavesAll(crc, r.offset, Rep(r.g.before + 1, r.g.ops), r.ok, r.bytes, r.next);
  }

  /** What the attempts [a, b) left. */
  function BytesOf(log: seq<Runs.Record>, a: nat, b: nat): seq<Byte>
    requires a <= b <= |log|
  {
    if a == b then [] else BytesOf(log, a, b - 1) + log[b - 1].bytes
  }

  /** The log file that record a is the first of, when the attempts up to b have been made. */
  function FileOf(log: seq<Runs.Record>, a: nat, b: nat): seq<Byte>
    requires a < |log| && a <= b <= |log|
  {
    log[a].prior + BytesOf(log, a, b)
  }

  /** The attempts [a, e) went to the file that record a is the first of. */
  ghost predicate OneFile(log: seq<Runs.Record>, a: nat, e: nat) {
    a < e <= |log| && forall i :: a <= i < e ==> log[i].start == a
  }

  ghost predicate AllClean(crc: LF.Checksum, log: seq<Runs.Record>, a: nat, b: nat)
    requires a <= b <= |log|
  {
    forall i :: a <= i < b ==> Clean(crc, log[i])
  }

  lemma {:induction false} RecordsOf(first: seq<Rec.Batch>, second: seq<Rec.Batch>)
    ensures Rec.Records(first + second) == Rec.Records(first) + Rec.Records(second)
  {
    hide Rec.Records, Rep;
    if first == [] {
      assert first + second == second && [] + Rec.Records(second) == Rec.Records(second);
      NoRecords();
    } else {
      RecordsOf(first[1..], second);
      RecordsFirst(first);
      RecordsFirst(first + second);
      assert (first + second)[1..] == first[1..] + second;
      Regroup([Rep(first[0].sequence, first[0].ops)], Rec.Records(first[1..]), Rec.Records(second));
    }
  }

  lemma Regroup(a: seq<seq<Byte>>, b: seq<seq<Byte>>, c: seq<seq<Byte>>)
    ensures a + b + c == a + (b + c)
  {
  }

  lemma NoRecords()
    ensures Rec.Records([]) == []
  {
  }

  lemma RecordsFirst(batches: seq<Rec.Batch>)
    requires batches != []
    ensures Rec.Records(batches) == [Rep(batches[0].sequence, batches[0].ops)] + Rec.Records(batches[1..])
  {
    hide Rep;
  }

  /** The attempts [a, e) went to one file, which was a whole log of earlier batches when it was opened (a reused log,
      or a new and empty one), and those before b are clean. */
  ghost predicate LogFile(s: Runs.State, a: nat, b: nat, e: nat, earlier: seq<Rec.Batch>) {
    && OneFile(s.log, a, e) && a <= b <= e && AllClean(s.crc, s.log, a, b)
    && s.log[a].prior == LF.Log(s.crc, 0, Rec.Records(earlier))
    && Rec.Loggable(earlier) && (earlier != [] ==> earlier[|earlier| - 1].Last() <= s.log[a].g.before)
  }

  /** Where the writer takes itself to be after the attempts up to b. */
  function At(log: seq<Runs.Record>, a: nat, b: nat): nat
    requires a < |log| && a <= b <= |log|
  {
    if a == b then log[a].offset else log[b - 1].next
  }

  /** As long as the attempts are clean, the file is a whole log of batches, and the writer is in step with it. */
  lemma {:induction false} CleanFile(s: Runs.State, a: nat, b: nat, e: nat, earlier: seq<Rec.Batch>)
    requires Runs.Filed(s) && LogFile(s, a, b, e, earlier)
    ensures FileOf(s.log, a, b) == LF.Log(s.crc, 0, Rec.Records(earlier + Logged(s.log, a, b)))
    ensures At(s.log, a, b) % LF.BLOCK_SIZE == |FileOf(s.log, a, b)| % LF.BLOCK_SIZE
    decreases b
  {
    hide LF.Log, LF.Emit, LF.Leaves, Rep, Rec.Records, Runs.Filed, FileOf, Logged, Rec.Loggable, At;
    if a == b {
      Opened(s, a, e, earlier);
    } else {
      CleanFile(s, a, b - 1, e, earlier);
      CleanMore(s, a, b, e, earlier);
      LoggedMore(s, a, b, earlier);
    }
  }

  lemma Opened(s: Runs.State, a: nat, e: nat, earlier: seq<Rec.Batch>)
    requires Runs.Filed(s) && LogFile(s, a, a, e, earlier)
    ensures FileOf(s.log, a, a) == LF.Log(s.crc, 0, Rec.Records(earlier + Logged(s.log, a, a)))
    ensures At(s.log, a, a) % LF.BLOCK_SIZE == |FileOf(s.log, a, a)| % LF.BLOCK_SIZE
  {
    hide LF.Log, LF.Leaves, Rec.Records, Rec.Loggable;
    assert Runs.InFile(s.log, a);
    assert s.log[a].prior + [] == s.log[a].prior;
    assert earlier + Logged(s.log, a, a) == earlier;
  }

  /** A clean attempt adds what it would have added to the file at its end. */
  lemma CleanMore(s: Runs.State, a: nat, b: nat, e: nat, earlier: seq<Rec.Batch>)
    requires Runs.Filed(s) && LogFile(s, a, b, e, earlier) && a < b
    requires At(s.log, a, b - 1) % LF.BLOCK_SIZE == |FileOf(s.log, a, b - 1)| % LF.BLOCK_SIZE
    ensures var before, r := FileOf(s.log, a, b - 1), s.log[b - 1];
            FileOf(s.log, a, b) == before + LF.Emit(s.crc, |before|, Rep(r.g.before + 1, r.g.ops), true)
    ensures At(s.log, a, b) % LF.BLOCK_SIZE == |FileOf(s.log, a, b)| % LF.BLOCK_SIZE
  {
    hide LF.Emit, Rep, FileOf, At, LogFile, Runs.Filed;
    InsideFile(s, a, b, e, earlier);
    var r, before := s.log[b - 1], FileOf(s.log, a, b - 1);
    GoesOn(s, a, b, e, earlier);
    var rep := Rep(r.g.before + 1, r.g.ops);
    LF.EmitMoves(s.crc, r.offset, |before|, rep, true);
    LF.SameOffset(r.offset, |before|, |r.bytes|);
    assert |before + r.bytes| == |before| + |r.bytes|;
  }

  lemma GoesOn(s: Runs.State, a: nat, b: nat, e: nat, earlier: seq<Rec.Batch>)
    requires Runs.Filed(s) && LogFile(s, a, b, e, earlier) && a < b
    ensures var r := s.log[b - 1];
            && FileOf(s.log, a, b) == FileOf(s.log, a, b - 1) + r.bytes && r.offset == At(s.log, a, b - 1)
            && r.bytes == LF.Emit(s.crc, r.offset, Rep(r.g.before + 1, r.g.ops), true)
            && At(s.log, a, b) == r.offset + |r.bytes|
  {
    hide LF.Emit, LF.Leaves, Rep, LogFile, Runs.Filed, FileOf;
    InsideFile(s, a, b, e, earlier);
    var r := s.log[b - 1];
    LastAttempt(s, a, b, e, earlier);
    LF.LeavesAll(s.crc, r.offset, Rep(r.g.before + 1, r.g.ops), r.ok, r.bytes, r.next);
    FileMore(s.log, a, b);
  }

  lemma LastAttempt(s: Runs.State, a: nat, b: nat, e: nat, earlier: seq<Rec.Batch>)
    requires Runs.Filed(s) && LogFile(s, a, b, e, earlier) && a < b
    ensures Runs.Attempted(s.crc, s.log[b - 1]) && Clean(s.crc, s.log[b - 1])
    ensures s.log[b - 1].offset == At(s.log, a, b - 1)
  {
    hide LF.Log, Rec.Records, Rec.Loggable, Runs.Attempted, Clean;
    assert Runs.InFile(s.log, b - 1);
  }

  lemma FileMore(log: seq<Runs.Record>, a: nat, b: nat)
    requires a < b <= |log|
    ensures FileOf(log, a, b) == FileOf(log, a, b - 1) + log[b - 1].bytes
  {
    assert log[a].prior + (BytesOf(log, a, b - 1) + log[b - 1].bytes) ==
           log[a].prior + BytesOf(log, a, b - 1) + log[b - 1].bytes;
  }

  /** One batch more is one record more. */
  lemma LoggedMore(s: Runs.State, a: nat, b: nat, earlier: seq<Rec.Batch>)
    requires a < b <= |s.log|
    ensures var r, log := s.log[b - 1], LF.Log(s.crc, 0, Rec.Records(earlier + Logged(s.log, a, b - 1)));
            LF.Log(s.crc, 0, Rec.Records(earlier + Logged(s.log, a, b))) ==
            log + LF.Emit(s.crc, |log|, Rep(r.g.before + 1, r.g.ops), true)
  {
    hide LF.Log, LF.Emit, Rep;
    var r := s.log[b - 1];
    var first, one := earlier + Logged(s.log, a, b - 1), Rec.Batch(r.g.before + 1, r.g.ops);
    assert earlier + Logged(s.log, a, b) == first + [one];
    RecordsOf(first, [one]);
    assert Rec.Records([one]) == [Rep(r.g.before + 1, r.g.ops)] by { assert [one][1..] == []; }
    var records := Rec.Records(first + [one]);
    LogTheorems.OneMoreRecord(s.crc, records, |first|);
    assert records[..|first|] == Rec.Records(first) && records[..|first| + 1] == records;
  }

  lemma {:induction false} BytesSplit(log: seq<Runs.Record>, a: nat, b: nat, e: nat)
    requires a <= b <= e <= |log|
    ensures BytesOf(log, a, e) == BytesOf(log, a, b) + BytesOf(log, b, e)
    decreases e
  {
    if b < e {
      BytesSplit(log, a, b, e - 1);
      assert BytesOf(log, a, b) + BytesOf(log, b, e - 1) + log[e - 1].bytes ==
             BytesOf(log, a, b) + (BytesOf(log, b, e - 1) + log[e - 1].bytes);
    } else {
      assert BytesOf(log, a, b) + [] == BytesOf(log, a, b);
    }
  }

  /** The batches of a reused file come before those of the run. */
  lemma AllLoggable(s: Runs.State, a: nat, b: nat, e: nat, earlier: seq<Rec.Batch>)
    requires Runs.Sound(s) && Runs.AllFit(s.writers) && InRange(s.log) && LogFile(s, a, b, e, earlier)
    ensures Rec.Loggable(earlier + Logged(s.log, a, b))
  {
    hide Runs.Sound, Runs.AllFit, InRange, LF.Log, Rec.Records, AllClean, Logged;
    RunIsLoggable(s, a, b);
    var more := Logged(s.log, a, b);
    if more != [] && earlier != [] {
      FirstOfRun(s.log, a, b);
    }
    LoggableBoth(earlier, more);
  }

  lemma FirstOfRun(log: seq<Runs.Record>, a: nat, b: nat)
    requires a < b <= |log|
    ensures Logged(log, a, b)[0].sequence == log[a].g.before + 1
  {
  }

  lemma LoggableBoth(first: seq<Rec.Batch>, second: seq<Rec.Batch>)
    requires Rec.Loggable(first) && Rec.Loggable(second)
    requires first != [] && second != [] ==> first[|first| - 1].Last() < second[0].sequence
    ensures Rec.Loggable(first + second)
  {
    var all := first + second;
    forall i, j | 0 <= i < j < |all| ensures all[i].Last() < all[j].sequence {
      if i < |first| <= j {
        LastIsHighest(first, i);
        FirstIsLowest(second, j - |first|);
      }
    }
    forall x | x in all ensures x.Writable() {
      assert x in first || x in second;
    }
  }

  lemma FirstIsLowest(batches: seq<Rec.Batch>, i: nat)
    requires Rec.Loggable(batches) && i < |batches|
    ensures batches[0].sequence <= batches[i].sequence
  {
    assert batches[0] in batches && batches[0].Writable();
  }

  lemma LastIsHighest(batches: seq<Rec.Batch>, i: nat)
    requires Rec.Loggable(batches) && i < |batches|
    ensures batches[i].Last() <= batches[|batches| - 1].Last()
  {
    var last := batches[|batches| - 1];
    assert last in batches && last.Writable();
  }

  // ----- What is recovered -----

  lemma SizeAscends(crc: LF.Checksum, records: seq<seq<Byte>>, n: nat, m: nat)
    requires n <= m <= |records|
    ensures |LF.Log(crc, 0, records[..n])| <= |LF.Log(crc, 0, records[..m])|
  {
    hide LF.Log;
    LogTheorems.ReopenedWriter(crc, 0, records[..n], records[n..m]);
    assert records[..n] + records[n..m] == records[..m];
  }

  /** The cut leaves every clean record that is known to be on disk. */
  ghost predicate KeepsOnDisk(log: seq<Runs.Record>, a: nat, b: nat, e: nat, cut: nat) {
    && a < |log| && a <= b <= e <= |log| && cut <= |FileOf(log, a, e)|
    && forall i :: a <= i < b && log[i].onDisk ==> |FileOf(log, a, i + 1)| <= cut
  }

  /** The file cut off there. */
  function CutFile(log: seq<Runs.Record>, a: nat, e: nat, cut: nat): seq<Byte> {
    if a < |log| && a <= e <= |log| && cut <= |FileOf(log, a, e)| then FileOf(log, a, e)[..cut] else []
  }

  /** What the recovery of a log file comes to. */
  function Recovered(crc: LF.Checksum, o: Rec.Options, lastLog: bool, file: seq<Byte>, maxSequence: nat): Rec.Recovered
  {
    Rec.Finish(o, lastLog, Rec.Replay(crc, o, file, 0, Rec.Recovered([], None, maxSequence, OK)))
  }

  /** Take any log file that a run of writers leaves, a reused one or not, up to the first attempt in it that failed or
      is short of a trailer, and whatever else is in it; cut it off after what is known to be on disk up to there.
      Recovery, if it ends well, gives the entries of some first batches, whole, and none that is on disk up to there is
      missing from them. Without anything else in the file it gives just those entries, and ends well if tables can be
      written. */
  lemma OnDiskIsRecovered(o: Rec.Options, lastLog: bool, s: Runs.State, a: nat, b: nat, e: nat,
                          earlier: seq<Rec.Batch>, cut: nat, maxSequence: nat) returns (k: nat)
    requires s.crc.Sound() && Runs.Sound(s) && Runs.AllFit(s.writers) && InRange(s.log)
    requires LogFile(s, a, b, e, earlier) && Rec.Follows(maxSequence, earlier + Logged(s.log, a, b))
    requires KeepsOnDisk(s.log, a, b, e, cut)
    ensures k <= |earlier| + (b - a) && forall i :: a <= i < b && s.log[i].onDisk ==> |earlier| + (i - a) < k
    ensures var r := Recovered(s.crc, o, lastLog, CutFile(s.log, a, e, cut), maxSequence);
            && (Rec.AllWritten(o) && (b == e || !o.paranoid) ==> r.status == OK)
            && (r.status == OK ==> Rec.AllEntries((earlier + Logged(s.log, a, b))[..k]) <= r.Entries())
            && (r.status == OK && b == e ==> Rec.AllEntries((earlier + Logged(s.log, a, b))[..k]) == r.Entries())
  {
    hide Runs.Sound, Runs.AllFit, InRange, Rec.Loggable, Rec.Follows, LF.Log, Rec.Replay, Rec.Finish, Logged, AllClean,
         KeepsOnDisk, CutFile, LogTheorems.Fitting, Rec.Records, Rec.AllEntries, BytesOf, FileOf, Rec.Recovered.Entries,
         Runs.Filed;
    InsideFile(s, a, b, e, earlier);
    CutAt(s.log, a, b, e, cut);
    var all, more := earlier + Logged(s.log, a, b), BytesOf(s.log, b, e);
    AllLoggable(s, a, b, e, earlier);
    SoundIsFiled(s);
    CleanFile(s, a, b, e, earlier);
    FileSplit(s.log, a, b, e);
    Rec.RecoversFirst(s.crc, o, lastLog, all, more, cut, maxSequence);
    k := LogTheorems.Fitting(s.crc, 0, Rec.Records(all), cut);
    NothingElse(s.log, b);
    OnDiskFits(s, a, b, e, earlier, cut);
  }

  lemma FileSplit(log: seq<Runs.Record>, a: nat, b: nat, e: nat)
    requires a < |log| && a <= b <= e <= |log|
    ensures FileOf(log, a, e) == FileOf(log, a, b) + BytesOf(log, b, e)
  {
    BytesSplit(log, a, b, e);
    assert log[a].prior + (BytesOf(log, a, b) + BytesOf(log, b, e)) ==
           log[a].prior + BytesOf(log, a, b) + BytesOf(log, b, e);
  }

  lemma CutAt(log: seq<Runs.Record>, a: nat, b: nat, e: nat, cut: nat)
    requires KeepsOnDisk(log, a, b, e, cut)
    ensures a < |log| && a <= b <= e <= |log| && cut <= |FileOf(log, a, e)|
    ensures CutFile(log, a, e, cut) == FileOf(log, a, e)[..cut]
  {
  }

  lemma NothingElse(log: seq<Runs.Record>, b: nat)
    requires b <= |log|
    ensures BytesOf(log, b, b) == []
  {
  }

  lemma SoundIsFiled(s: Runs.State)
    requires Runs.Sound(s)
    ensures Runs.Filed(s)
  {
  }

  lemma OnDiskFits(s: Runs.State, a: nat, b: nat, e: nat, earlier: seq<Rec.Batch>, cut: nat)
    requires Runs.Filed(s) && LogFile(s, a, b, e, earlier) && KeepsOnDisk(s.log, a, b, e, cut)
    ensures var k := LogTheorems.Fitting(s.crc, 0, Rec.Records(earlier + Logged(s.log, a, b)), cut);
            k <= |earlier| + (b - a) && forall i :: a <= i < b && s.log[i].onDisk ==> |earlier| + (i - a) < k
  {
    hide LF.Log, LogTheorems.Fitting, Rec.Records, Runs.Filed, FileOf, LogFile, Logged;
    InsideFile(s, a, b, e, earlier);
    forall i | a <= i < b && s.log[i].onDisk
      ensures |earlier| + (i - a) < LogTheorems.Fitting(s.crc, 0, Rec.Records(earlier + Logged(s.log, a, b)), cut)
    {
      OneFits(s, a, b, e, earlier, cut, i);
    }
  }

  lemma InsideFile(s: Runs.State, a: nat, b: nat, e: nat, earlier: seq<Rec.Batch>)
    requires LogFile(s, a, b, e, earlier)
    ensures a <= b <= e <= |s.log| && a < e
  {
  }

  lemma OneFits(s: Runs.State, a: nat, b: nat, e: nat, earlier: seq<Rec.Batch>, cut: nat, i: nat)
    requires Runs.Filed(s) && LogFile(s, a, b, e, earlier) && a <= i < b && |FileOf(s.log, a, i + 1)| <= cut
    ensures |earlier| + (i - a) < LogTheorems.Fitting(s.crc, 0, Rec.Records(earlier + Logged(s.log, a, b)), cut)
  {
    hide LF.Log, LogTheorems.Fitting, Rec.Records, Runs.Filed, FileOf, LogFile;
    InsideFile(s, a, b, e, earlier);
    Narrower(s, a, i + 1, b, e, earlier);
    CleanFile(s, a, i + 1, e, earlier);
    var all := earlier + Logged(s.log, a, b);
    var n, records := |earlier| + (i - a) + 1, Rec.Records(all);
    var k := LogTheorems.Fitting(s.crc, 0, records, cut);
    LogTheorems.FittingIsLongest(s.crc, 0, records, cut);
    Rec.FirstRecords(all, n);
    assert all[..n] == earlier + Logged(s.log, a, i + 1);
    if k < n {
      SizeAscends(s.crc, records, k + 1, n);
    }
  }

  lemma Narrower(s: Runs.State, a: nat, c: nat, b: nat, e: nat, earlier: seq<Rec.Batch>)
    requires LogFile(s, a, b, e, earlier) && a <= c <= b
    ensures LogFile(s, a, c, e, earlier)
  {
    hide LF.Log, Rec.Records, Rec.Loggable, Clean;
  }

  lemma {:induction false} HoldsEach(batches: seq<Rec.Batch>, i: nat, q: nat)
    requires i < |batches| && q < |batches[i].ops|
    ensures Numbered(batches[i].ops, batches[i].sequence)[q] in Rec.AllEntries(batches)
  {
    hide Numbered;
    if i > 0 {
      HoldsEach(batches[1..], i - 1, q);
    }
  }

  /** Where the operations of one writer stand among those of its group. */
  lemma {:induction false} OpsWithin(ws: seq<Writer>, t: nat, q: nat)
    requires t < |ws| && q < |OpsOf(ws[t])|
    ensures |GroupOps(ws[..t])| + q < |GroupOps(ws)| && GroupOps(ws)[|GroupOps(ws[..t])| + q] == OpsOf(ws[t])[q]
  {
    hide OpsOf;
    var last := |ws| - 1;
    if t < last {
      OpsWithin(ws[..last], t, q);
      assert ws[..last][..t] == ws[..t];
    }
  }

  /** The number of the first operation of thread t in group g. */
  function FirstNumber(writers: seq<Writer>, g: Runs.Group, t: nat): nat {
    if g.from <= t <= |writers| then g.before + 1 + |GroupOps(writers[g.from..t])| else 0
  }

  /** The operations, numbered from `first` on, are among the entries. */
  ghost predicate AllAmong(ops: seq<Op>, first: nat, entries: seq<Entry>) {
    forall q :: 0 <= q < |ops| ==> EntryFor(ops[q], first + q) in entries
  }

  /** A sync write that was told that all is well is in a record on disk. If no earlier attempt in the same file failed
      or is short of a trailer, and neither is its own, each of its operations is among the entries recovered from the
      file, under the number it was given, wherever the file is cut off after what is known to be on disk, and whatever
      was written behind it. */
  lemma SyncedIsRecovered(o: Rec.Options, lastLog: bool, s: Runs.State, a: nat, b: nat, e: nat,
                          earlier: seq<Rec.Batch>, cut: nat, maxSequence: nat, t: nat) returns (i: nat)
    requires s.crc.Sound() && Runs.Sound(s) && Runs.AllFit(s.writers) && InRange(s.log)
    requires LogFile(s, a, b, e, earlier) && Rec.Follows(maxSequence, earlier + Logged(s.log, a, b))
    requires KeepsOnDisk(s.log, a, b, e, cut)
    requires t < |s.pcs| == |s.writers|
    requires s.pcs[t] == Runs.Returned(OK) && s.writers[t].sync && s.writers[t].batch.Some?
    ensures i < |s.log| && s.log[i].onDisk && s.log[i].ok && s.log[i].g.from <= t < s.log[i].g.to
    ensures a <= i < b ==>
              var r := Recovered(s.crc, o, lastLog, CutFile(s.log, a, e, cut), maxSequence);
              && (Rec.AllWritten(o) && (b == e || !o.paranoid) ==> r.status == OK)
              && (r.status == OK ==>
                   AllAmong(OpsOf(s.writers[t]), FirstNumber(s.writers, s.log[i].g, t), r.Entries()))
  {
    hide Runs.Sound, Runs.AllFit, Runs.GroupOk, InRange, Recovered, KeepsOnDisk, LF.Log, Rec.Follows, Logged,
         Rec.Records, Rec.AllEntries, LogFile, Rec.Loggable, FileOf, CutFile, Rec.Recovered.Entries, FirstNumber,
         AllAmong;
    InsideFile(s, a, b, e, earlier);
    Runs.SyncedIsOnDisk(s, t);
    i :| 0 <= i < |s.log| && s.log[i].onDisk && s.log[i].ok && s.log[i].g.from <= t < s.log[i].g.to;
    RecordIsGroup(s, i);
    var k := OnDiskIsRecovered(o, lastLog, s, a, b, e, earlier, cut, maxSequence);
    if a <= i < b {
      BatchIsAmong(s, a, b, earlier, k, i, t);
      var r := Recovered(s.crc, o, lastLog, CutFile(s.log, a, e, cut), maxSequence);
      if r.status == OK {
        AmongMore(OpsOf(s.writers[t]), FirstNumber(s.writers, s.log[i].g, t),
                  Rec.AllEntries((earlier + Logged(s.log, a, b))[..k]), r.Entries());
      }
    }
  }

  lemma AmongMore(ops: seq<Op>, first: nat, some: seq<Entry>, all: seq<Entry>)
    requires AllAmong(ops, first, some) && some <= all
    ensures AllAmong(ops, first, all)
  {
  }

  /** The operations of a writer are among the entries of the first k batches if its record is. */
  lemma BatchIsAmong(s: Runs.State, a: nat, b: nat, earlier: seq<Rec.Batch>, k: nat, i: nat, t: nat)
    requires a <= i < b <= |s.log| && |earlier| + (i - a) < k <= |earlier| + (b - a) && InRange(s.log)
    requires Runs.GroupOk(s.writers, s.log[i].g) && s.log[i].g.from <= t < s.log[i].g.to <= |s.writers|
    requires s.writers[t].batch.Some?
    ensures AllAmong(OpsOf(s.writers[t]), FirstNumber(s.writers, s.log[i].g, t),
                     Rec.AllEntries((earlier + Logged(s.log, a, b))[..k]))
  {
    hide GroupOps, Logged, InRange, Runs.GroupOk, Rec.AllEntries, EntryFor, FirstNumber;
    var ops, first := s.writers[t].batch.value, FirstNumber(s.writers, s.log[i].g, t);
    forall q | 0 <= q < |ops|
      ensures EntryFor(ops[q], first + q) in Rec.AllEntries((earlier + Logged(s.log, a, b))[..k])
    {
      OneIsAmong(s, a, b, earlier, k, i, t, q);
    }
  }

  lemma OneIsAmong(s: Runs.State, a: nat, b: nat, earlier: seq<Rec.Batch>, k: nat, i: nat, t: nat, q: nat)
    requires a <= i < b <= |s.log| && |earlier| + (i - a) < k <= |earlier| + (b - a) && InRange(s.log)
    requires Runs.GroupOk(s.writers, s.log[i].g) && s.log[i].g.from <= t < s.log[i].g.to <= |s.writers|
    requires s.writers[t].batch.Some? && q < |s.writers[t].batch.value|
    ensures EntryFor(s.writers[t].batch.value[q], FirstNumber(s.writers, s.log[i].g, t) + q) in
            Rec.AllEntries((earlier + Logged(s.log, a, b))[..k])
  {
    hide GroupOps, Logged, Runs.GroupOk, Rec.AllEntries, Numbered, EntryFor;
    var g := s.log[i].g;
    assert s.log[i] in s.log;
    OpOfWriter(s.writers, g, t, q);
    LoggedAt(s.log, a, b, earlier, k, i);
    HoldsEach((earlier + Logged(s.log, a, b))[..k], |earlier| + (i - a), |GroupOps(s.writers[g.from..t])| + q);
  }

  lemma LoggedAt(log: seq<Runs.Record>, a: nat, b: nat, earlier: seq<Rec.Batch>, k: nat, i: nat)
    requires a <= i < b <= |log| && |earlier| + (i - a) < k <= |earlier| + (b - a)
    ensures (earlier + Logged(log, a, b))[..k][|earlier| + (i - a)] == Rec.Batch(log[i].g.before + 1, log[i].g.ops)
  {
  }

  lemma RecordIsGroup(s: Runs.State, i: nat)
    requires Runs.Sound(s) && i < |s.log|
    ensures Runs.GroupOk(s.writers, s.log[i].g) && s.log[i].g.to <= |s.writers|
  {
  }

  lemma OpOfWriter(writers: seq<Writer>, g: Runs.Group, t: nat, q: nat)
    requires Runs.GroupOk(writers, g) && g.from <= t < g.to && g.before + |g.ops| <= MAX_SEQUENCE
    requires writers[t].batch.Some? && q < |writers[t].batch.value|
    ensures var j := |GroupOps(writers[g.from..t])| + q;
            && j < |g.ops|
            && Numbered(g.ops, g.before + 1)[j] == EntryFor(writers[t].batch.value[q], g.before + 1 + j)
  {
    hide GroupOps, UsesTmp, Unpack, Rep, Numbered;
    var ws := writers[g.from..g.to];
    assert ws[..t - g.from] == writers[g.from..t] && ws[t - g.from] == writers[t];
    OpsWithin(ws, t - g.from, q);
    var j := |GroupOps(writers[g.from..t])| + q;
    NumberedAt(g.ops, g.before + 1, j);
    assert (g.before + 1 + j) % POW64 == g.before + 1 + j;
  }
}

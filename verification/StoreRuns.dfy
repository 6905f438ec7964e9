/** The database as its users see it: a map that writes change and nothing else does. */
module StoreRuns {
  import opened Bytes
  import opened SkipLists
  import opened DbFormat
  import opened MemTables
  import opened WriteBatches
  import opened Compaction
  import opened CompactionMeaning
  import opened SnapshotRuns

  /** The last of the operations that is for this key, or -1. */
  function LastFor(cmp: Comparator, ops: seq<Op>, user: seq<Byte>): (i: int)
    ensures -1 <= i < |ops| && (i >= 0 ==> cmp(ops[i].key, user) == 0)
    ensures forall k :: i < k < |ops| ==> cmp(ops[k].key, user) != 0
  {
    if ops == [] then -1
    else if cmp(ops[|ops| - 1].key, user) == 0 then |ops| - 1
    else LastFor(cmp, ops[..|ops| - 1], user)
  }

  /** What a key is mapped to after these operations: a put sets its value, a deletion leaves it without one. */
  function After(cmp: Comparator, ops: seq<Op>, user: seq<Byte>, before: Option<seq<Byte>>): Option<seq<Byte>> {
    var i := LastFor(cmp, ops, user);
    if i < 0 then before
    else
      match ops[i]
      case Put(_, value) => Some(value)
      case Delete(_) => None
  }

  lemma {:induction false} AfterBoth(cmp: Comparator, a: seq<Op>, b: seq<Op>, user: seq<Byte>,
                                     before: Option<seq<Byte>>)
    ensures After(cmp, a + b, user, before) == After(cmp, b, user, After(cmp, a, user, before))
  {
    var s := a + b;
    assert forall m :: 0 <= m < |a| ==> s[m] == a[m];
    assert forall m :: 0 <= m < |b| ==> s[|a| + m] == b[m];
    LastOf(cmp, s, user, if LastFor(cmp, b, user) >= 0 then |a| + LastFor(cmp, b, user) else LastFor(cmp, a, user));
  }

  /** There is only one last operation for a key. */
  lemma LastOf(cmp: Comparator, ops: seq<Op>, user: seq<Byte>, i: int)
    requires -1 <= i < |ops| && (i >= 0 ==> cmp(ops[i].key, user) == 0)
    requires forall k :: i < k < |ops| ==> cmp(ops[k].key, user) != 0
    ensures LastFor(cmp, ops, user) == i
  {
    var j := LastFor(cmp, ops, user);
    assert i >= 0 ==> cmp(ops[i].key, user) == 0;
    assert j >= 0 ==> cmp(ops[j].key, user) == 0;
  }

  /** After a write a key has the value its batch gave it, and if the batch is not about it, the one it had. */
  lemma WriteIsRead(cmp: Comparator, a: State, ops: seq<Op>, b: State, user: seq<Byte>)
    requires Ordered(cmp) && Sound(cmp, a) && JobSound(cmp, a) && Step(cmp, a, Write(ops), b)
    ensures Read(cmp, b.entries, user, b.last) == After(cmp, ops, user, Read(cmp, a.entries, user, a.last))
  {
    hide Ordered, Numbered, Ascending, EntryOf, Item.Parsed, Distinct, JobSound, Read;
    StepIsSound(cmp, a, Write(ops), b);
    hide Sound, Step;
    Arrived(cmp, a, ops, b);
    var i := LastFor(cmp, ops, user);
    if i >= 0 {
      NewestFor(cmp, a, ops, b, user, i);
    } else {
      forall e | e in b.entries && e !in a.entries ensures cmp(e.user, user) != 0 {
        var k :| 0 <= k < |ops| && e == EntryFor(ops[k], a.last + 1 + k);
      }
      SameVisible(cmp, a, b, user);
    }
  }

  ghost predicate OnlyAdds(a: State, ops: seq<Op>, b: State) {
    forall e <- b.entries ::
      e in a.entries || exists k :: 0 <= k < |ops| && e == EntryFor(ops[k], a.last + 1 + k)
  }

  /** What a write adds. */
  lemma Arrived(cmp: Comparator, a: State, ops: seq<Op>, b: State)
    requires Step(cmp, a, Write(ops), b)
    ensures a.entries <= b.entries && b.last == a.last + |ops| < MAX_SEQUENCE
    ensures forall k :: 0 <= k < |ops| ==> EntryFor(ops[k], a.last + 1 + k) in b.entries
    ensures OnlyAdds(a, ops, b)
  {
    hide Numbered;
    var added := Numbered(ops, a.last + 1);
    forall k | 0 <= k < |ops| ensures added[k] == EntryFor(ops[k], a.last + 1 + k) && added[k] in b.entries {
      NumberedAt(ops, a.last + 1, k);
    }
  }

  lemma NewestFor(cmp: Comparator, a: State, ops: seq<Op>, b: State, user: seq<Byte>, i: nat)
    requires Ordered(cmp) && Sound(cmp, a) && Sound(cmp, b) && b.last == a.last + |ops| && i < |ops|
    requires forall k :: 0 <= k < |ops| ==> EntryFor(ops[k], a.last + 1 + k) in b.entries
    requires OnlyAdds(a, ops, b)
    requires cmp(ops[i].key, user) == 0 && forall k :: i < k < |ops| ==> cmp(ops[k].key, user) != 0
    ensures Read(cmp, b.entries, user, b.last) == match ops[i] case Put(_, value) => Some(value) case Delete(_) => None
  {
    hide Ordered, Distinct, Read, OnlyAdds, Latest;
    var e := EntryFor(ops[i], a.last + 1 + i);
    NoneNewer(cmp, a, ops, b, user, i);
    ReadIs(cmp, b.entries, user, b.last, e);
  }

  lemma NoneNewer(cmp: Comparator, a: State, ops: seq<Op>, b: State, user: seq<Byte>, i: nat)
    requires b.last == a.last + |ops| && i < |ops| && EntryFor(ops[i], a.last + 1 + i) in b.entries
    requires OnlyAdds(a, ops, b) && forall e <- a.entries :: e.sequence <= a.last
    requires cmp(ops[i].key, user) == 0 && forall k :: i < k < |ops| ==> cmp(ops[k].key, user) != 0
    ensures Latest(cmp, b.entries, user, b.last, EntryFor(ops[i], a.last + 1 + i))
  {
    forall f | f in b.entries && Visible(cmp, f, user, b.last) ensures f.sequence <= a.last + 1 + i {
      if f !in a.entries {
        var k :| 0 <= k < |ops| && f == EntryFor(ops[k], a.last + 1 + k);
      }
    }
  }

  lemma SameVisible(cmp: Comparator, a: State, b: State, user: seq<Byte>)
    requires Ordered(cmp) && Sound(cmp, a) && Sound(cmp, b) && a.entries <= b.entries && a.last <= b.last
    requires forall e <- b.entries :: e in a.entries || cmp(e.user, user) != 0
    ensures Read(cmp, b.entries, user, b.last) == Read(cmp, a.entries, user, a.last)
  {
    hide Ordered, Read, Distinct;
    if f :| f in a.entries && Visible(cmp, f, user, a.last) {
      LatestExists(cmp, a.entries, user, a.last, f);
      var e :| Latest(cmp, a.entries, user, a.last, e);
      ReadIs(cmp, a.entries, user, a.last, e);
      assert Latest(cmp, b.entries, user, b.last, e);
      ReadIs(cmp, b.entries, user, b.last, e);
    } else {
      ReadIsNone(cmp, a.entries, user, a.last);
      ReadIsNone(cmp, b.entries, user, b.last);
    }
  }

  // ----- Over whole runs -----

  /** All operations written in these steps, in order. */
  function Written(events: seq<Event>): seq<Op> {
    if events == [] then []
    else
      var e := events[|events| - 1];
      Written(events[..|events| - 1]) + if e.Write? then e.ops else []
  }

  /** Whatever is compacted meanwhile, a key is mapped to what the writes so far make of it, applied one after the other
      to what was there at first. */
  lemma {:induction false} StoreIsAMap(cmp: Comparator, states: seq<State>, events: seq<Event>, k: nat, user: seq<Byte>)
    requires Ordered(cmp) && SnapshotRuns.Run(cmp, states, events) && Careful(cmp, states, events) && k < |states|
    ensures |states| == |events| + 1
    ensures Read(cmp, states[k].entries, user, states[k].last) ==
            After(cmp, Written(events[..k]), user, Read(cmp, states[0].entries, user, states[0].last))
  {
    hide Ordered, Read, Step, Sound, JobSound, SnapshotRuns.Run, Safe, Careful, After;
    RunLength(cmp, states, events);
    if k == 0 {
      NothingWritten(cmp, user, Read(cmp, states[0].entries, user, states[0].last));
    } else {
      StoreIsAMap(cmp, states, events, k - 1, user);
      RunIsSound(cmp, states, events, k - 1);
      RunStep(cmp, states, events, k - 1);
      CarefulIsSafe(cmp, states, events, k - 1);
      StepIsRead(cmp, states[k - 1], events[k - 1], states[k], user);
      assert events[..k][..k - 1] == events[..k - 1];
      AfterBoth(cmp, Written(events[..k - 1]), OpsIn(events[k - 1]), user,
                Read(cmp, states[0].entries, user, states[0].last));
    }
  }

  function OpsIn(e: Event): seq<Op> {
    if e.Write? then e.ops else []
  }

  lemma NothingWritten(cmp: Comparator, user: seq<Byte>, before: Option<seq<Byte>>)
    ensures After(cmp, Written([]), user, before) == before
  {
  }

  lemma StepIsRead(cmp: Comparator, a: State, e: Event, b: State, user: seq<Byte>)
    requires Ordered(cmp) && Sound(cmp, a) && JobSound(cmp, a) && Step(cmp, a, e, b) && Safe(cmp, a)
    ensures Read(cmp, b.entries, user, b.last) == After(cmp, OpsIn(e), user, Read(cmp, a.entries, user, a.last))
  {
    hide Ordered, Read, Sound, Survivors, Entries, ComesBack;
    if e.Write? {
      hide After;
      WriteIsRead(cmp, a, e.ops, b, user);
    } else {
      StepKeepsAnswers(cmp, a, e, b, user, a.last);
    }
  }

  /** A snapshot shows the map as the writes before it had left it, for as long as it is held. */
  lemma SnapshotIsThePast(cmp: Comparator, states: seq<State>, events: seq<Event>, i: nat, j: nat, user: seq<Byte>)
    requires Ordered(cmp) && SnapshotRuns.Run(cmp, states, events) && Careful(cmp, states, events) && i < j < |states|
    requires |states| == |events| + 1 && events[i] == Take
    requires forall k :: i < k <= j ==> states[i].last in states[k].snapshots
    ensures Read(cmp, states[j].entries, user, states[i].last) ==
            After(cmp, Written(events[..i]), user, Read(cmp, states[0].entries, user, states[0].last))
  {
    hide Ordered, Read, Sound, JobSound, SnapshotRuns.Run, Safe, Careful, After;
    StoreIsAMap(cmp, states, events, i, user);
    RunStep(cmp, states, events, i);
    SnapshotsNeverChange(cmp, states, events, i + 1, j, user, states[i].last);
  }
}

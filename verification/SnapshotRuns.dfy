/** Whole runs of writes, snapshots and compactions: a snapshot that is held never changes its answers. */
module SnapshotRuns {
  import opened Bytes
  import opened SkipLists
  import opened DbFormat
  import opened MemTables
  import opened WriteBatches
  import opened Compaction
  import opened CompactionMeaning
  import opened Snapshots

  /** A compaction that is under way: its input, and the smallest snapshot when it began. */
  datatype Job = Job(items: seq<Item>, smallest: nat, at: Place)

  /** Every entry there is, wherever it is kept; the last sequence number; the live snapshots, oldest first. */
  datatype State = State(entries: set<Entry>, last: nat, snapshots: seq<nat>, job: Option<Job>)

  datatype Event =
    | Write(ops: seq<Op>)
    | Take
    | Release(i: nat)
    | Start(items: seq<Item>, at: Place)
    | Finish

  function SmallestSnapshot(snapshots: seq<nat>, last: nat): nat {
    if snapshots == [] then last else snapshots[0]
  }

  /** How a compaction asks the list of snapshots. */
  method ChooseSmallest(list: SnapshotList, last: nat) returns (smallest: nat)
    requires list.Valid()
    ensures smallest == SmallestSnapshot(list.Numbers(), last)
    ensures list.Numbers() == [] ==> smallest == last
    ensures list.Numbers() != [] ==> smallest == list.Numbers()[0]
  {
    if list.Empty() {
      smallest := last;
    } else {
      var s := list.Oldest();
      smallest := s.number;
    }
  }

  ghost function Elements(s: seq<Entry>): set<Entry> {
    set e <- s
  }

  /** One event. A compaction may start on any sorted part of the entries. */
  ghost predicate Step(cmp: Comparator, a: State, e: Event, b: State) {
    match e
    case Write(ops) =>
      && a.last + |ops| < MAX_SEQUENCE
      && b == a.(entries := a.entries + Elements(Numbered(ops, a.last + 1)), last := a.last + |ops|)
    case Take => b == a.(snapshots := a.snapshots + [a.last])
    case Release(i) =>
      && i < |a.snapshots|
      && b == a.(snapshots := a.snapshots[..i] + a.snapshots[i + 1..])
    case Start(items, at) =>
      && a.job == None && AllGood(items) && Ascending(cmp, items) && Entries(items) <= a.entries
      && b == a.(job := Some(Job(items, SmallestSnapshot(a.snapshots, a.last), at)))
    case Finish =>
      && a.job.Some?
      && var j := a.job.value;
         && AllGood(j.items) && AllGood(Survivors(cmp, j.items, j.smallest, j.at))
         && b == a.(entries := a.entries - Entries(j.items) + Entries(Survivors(cmp, j.items, j.smallest, j.at)),
                    job := None)
  }

  ghost predicate Sound(cmp: Comparator, a: State) {
    && Distinct(cmp, a.entries) && a.last < MAX_SEQUENCE
    && (forall e <- a.entries :: e.sequence <= a.last)
    && (forall i :: 0 <= i < |a.snapshots| ==> a.snapshots[i] <= a.last)
    && (forall i, j :: 0 <= i < j < |a.snapshots| ==> a.snapshots[i] <= a.snapshots[j])
  }

  /** While a compaction is under way no snapshot, taken before or since, is older than the smallest it began with. */
  ghost predicate JobSound(cmp: Comparator, a: State) {
    a.job.Some? ==>
      var j := a.job.value;
      && AllGood(j.items) && Ascending(cmp, j.items) && Entries(j.items) <= a.entries
      && j.smallest <= a.last
      && forall s <- a.snapshots :: j.smallest <= s
  }

  /** The compaction under way, if there is one, brings no value back. */
  ghost predicate Safe(cmp: Comparator, a: State) {
    a.job.Some? && AllGood(a.job.value.items) ==>
      var j := a.job.value;
      !ComesBack(cmp, a.entries - Entries(j.items), j.items, j.smallest, j.at)
  }

  /** A compaction drops as much as the snapshots allow: none may be older than the number it is given, and there is no
      greater such number up to the last. */
  lemma SmallestIsGreatest(cmp: Comparator, a: State, n: nat)
    requires Sound(cmp, a)
    ensures n <= SmallestSnapshot(a.snapshots, a.last) <==> n <= a.last && forall s <- a.snapshots :: n <= s
  {
    assert a.snapshots != [] ==> a.snapshots[0] in a.snapshots;
  }

  lemma NewEntries(ops: seq<Op>, last: nat)
    requires last + |ops| < MAX_SEQUENCE
    ensures forall e <- Numbered(ops, last + 1) :: last < e.sequence <= last + |ops|
    ensures forall e <- Numbered(ops, last + 1), f <- Numbered(ops, last + 1) :: e.sequence == f.sequence ==> e == f
  {
    hide Numbered;
    var added := Numbered(ops, last + 1);
    forall i | 0 <= i < |added| ensures added[i].sequence == last + 1 + i {
      NumberedAt(ops, last + 1, i);
    }
    assert forall i, j :: 0 <= i < |added| && 0 <= j < |added| && added[i].sequence == added[j].sequence ==>
           added[i] == added[j];
  }

  lemma StepIsSound(cmp: Comparator, a: State, e: Event, b: State)
    requires Sound(cmp, a) && JobSound(cmp, a) && Step(cmp, a, e, b)
    ensures Sound(cmp, b) && JobSound(cmp, b)
  {
    hide Ascending, Survivors, BaseLevel, EntryOf, Item.Parsed, Numbered;
    match e
    case Write(ops) => WriteIsSound(cmp, a, ops, b);
    case Take =>
    case Release(i) =>
      assert forall s :: s in b.snapshots ==> s in a.snapshots;
    case Start(items, at) =>
    case Finish =>
      var j := a.job.value;
      OutputGood(cmp, j.items, j.smallest, j.at);
      assert b.entries <= a.entries;
      DistinctSubset(cmp, b.entries, a.entries);
  }

  lemma WriteIsSound(cmp: Comparator, a: State, ops: seq<Op>, b: State)
    requires Sound(cmp, a) && JobSound(cmp, a) && Step(cmp, a, Write(ops), b)
    ensures Sound(cmp, b) && JobSound(cmp, b)
  {
    hide Ascending, BaseLevel, EntryOf, Item.Parsed, Numbered;
    NewEntries(ops, a.last);
    if a.job.Some? {
      var items := a.job.value.items;
      forall item | item in items ensures EntryOf(item).sequence <= a.last {
        assert EntryOf(item) in Entries(items);
      }
    }
  }

  /** No event changes what is read at a sequence number reached before, unless it is older than what a finishing
      compaction had to keep, or that compaction brings a value back. */
  lemma StepKeepsAnswers(cmp: Comparator, a: State, e: Event, b: State, user: seq<Byte>, s: nat)
    requires Ordered(cmp) && Sound(cmp, a) && JobSound(cmp, a) && Step(cmp, a, e, b) && (e == Finish ==> Safe(cmp, a))
    requires s <= a.last && (a.job.Some? ==> a.job.value.smallest <= s)
    ensures Read(cmp, b.entries, user, s) == Read(cmp, a.entries, user, s)
  {
    hide Ordered, Ascending, Survivors, BaseLevel, EntryOf, Item.Parsed, Numbered, Distinct, Read, ComesBack;
    match e
    case Write(ops) =>
      NewEntries(ops, a.last);
      StepIsSound(cmp, a, e, b);
      InvisibleEntries(cmp, a.entries, Elements(Numbered(ops, a.last + 1)), user, s);
    case Finish =>
      FinishIs(cmp, a, b);
      var j := a.job.value;
      CompactionKeepsMeaning(cmp, a.entries - Entries(j.items), j.items, j.smallest, j.at, user, s);
    case _ =>
  }

  /** What finishing comes to. */
  lemma FinishIs(cmp: Comparator, a: State, b: State)
    requires Ordered(cmp) && Sound(cmp, a) && JobSound(cmp, a) && Step(cmp, a, Finish, b)
    ensures a.job.Some? && AllGood(a.job.value.items) && a.job.value.smallest < MAX_SEQUENCE
    ensures var j := a.job.value;
            var rest := a.entries - Entries(j.items);
            && rest + Entries(j.items) == a.entries && Compactable(cmp, rest, j.items)
            && b.entries == Compacted(cmp, rest, j.items, j.smallest, j.at)
  {
    hide Ordered, Ascending, Survivors, BaseLevel, EntryOf, Item.Parsed, Distinct;
    var j := a.job.value;
    var rest := a.entries - Entries(j.items);
    assert rest + Entries(j.items) == a.entries;
  }

  /** A finishing compaction leaves every answer from its smallest snapshot on as it was exactly if it brings no value
      back. */
  lemma FinishIsExact(cmp: Comparator, a: State, b: State)
    requires Ordered(cmp) && Sound(cmp, a) && JobSound(cmp, a) && Step(cmp, a, Finish, b)
    ensures a.job.Some? && (KeepsAnswers(cmp, a.entries, b.entries, a.job.value.smallest) <==> Safe(cmp, a))
  {
    hide Ordered, Sound, JobSound, Step, Compacted, ComesBack, Compactable, KeepsAnswers;
    FinishIs(cmp, a, b);
    var j := a.job.value;
    CompactionIsExact(cmp, a.entries - Entries(j.items), j.items, j.smallest, j.at);
  }

  /** What happens while a compaction is under way makes it neither safe nor unsafe: whether it is shows when it starts.
      */
  lemma SafeStays(cmp: Comparator, a: State, e: Event, b: State)
    requires Ordered(cmp) && Sound(cmp, a) && JobSound(cmp, a) && Step(cmp, a, e, b) && a.job.Some? && e != Finish
    ensures b.job == a.job && (Safe(cmp, b) <==> Safe(cmp, a))
  {
    hide Ascending, BaseLevel, EntryOf, Item.Parsed, Numbered, ComesBack, Ordered, Distinct;
    if e.Write? {
      NewEntries(e.ops, a.last);
      StepIsSound(cmp, a, e, b);
      var j, more := a.job.value, Elements(Numbered(e.ops, a.last + 1));
      NotAmong(j.items, more, a.entries, a.last);
      var rest := a.entries - Entries(j.items);
      assert b.entries - Entries(j.items) == rest + more;
      assert Distinct(cmp, rest + more) by { DistinctSubset(cmp, rest + more, b.entries); }
      ComesBackSame(cmp, rest, more, j.items, j.smallest, j.at);
    }
  }

  lemma NotAmong(items: seq<Item>, more: set<Entry>, entries: set<Entry>, last: nat)
    requires AllGood(items) && Entries(items) <= entries && forall e <- entries :: e.sequence <= last
    requires forall e <- more :: e.sequence > last
    ensures more !! Entries(items)
  {
    hide Entries;
  }

  /** Entries newer than the smallest snapshot are nothing to it. */
  lemma ComesBackSame(cmp: Comparator, rest: set<Entry>, more: set<Entry>, items: seq<Item>, smallest: nat, at: Place)
    requires Ordered(cmp) && AllGood(items) && Distinct(cmp, rest + more) && forall e <- more :: e.sequence > smallest
    ensures ComesBack(cmp, rest + more, items, smallest, at) <==> ComesBack(cmp, rest, items, smallest, at)
  {
    hide Ordered, Distinct, Read, BaseLevel, Entries;
    forall e | e in Entries(items)
      ensures HidesValue(cmp, rest + more, items, smallest, at, e) <==> HidesValue(cmp, rest, items, smallest, at, e)
    {
      InvisibleEntries(cmp, rest, more, e.user, smallest);
      LatestSame(cmp, rest + Entries(items), more, e.user, smallest, e);
      assert rest + Entries(items) + more == rest + more + Entries(items);
    }
  }

  lemma LatestSame(cmp: Comparator, entries: set<Entry>, more: set<Entry>, user: seq<Byte>, s: nat, e: Entry)
    requires e in entries && forall f <- more :: f.sequence > s
    ensures Latest(cmp, entries + more, user, s, e) <==> Latest(cmp, entries, user, s, e)
  {
  }

  /** If the snapshot it went by is still held when it finishes, that is one whose answer changes. */
  lemma HeldSnapshotChanges(cmp: Comparator, a: State, b: State) returns (user: seq<Byte>)
    requires Ordered(cmp) && Sound(cmp, a) && JobSound(cmp, a) && Step(cmp, a, Finish, b) && !Safe(cmp, a)
    ensures a.job.Some? && Read(cmp, a.entries, user, a.job.value.smallest) == None
    ensures Read(cmp, b.entries, user, a.job.value.smallest) != None
  {
    hide Ordered, Sound, JobSound, Step, Compacted, HidesValue, Compactable, Entries;
    FinishIs(cmp, a, b);
    var j := a.job.value;
    var rest := a.entries - Entries(j.items);
    var e :| e in Entries(j.items) && HidesValue(cmp, rest, j.items, j.smallest, j.at, e);
    user := e.user;
    ValueComesBack(cmp, rest, j.items, j.smallest, j.at, e);
  }

  lemma InvisibleEntries(cmp: Comparator, entries: set<Entry>, more: set<Entry>, user: seq<Byte>, s: nat)
    requires Ordered(cmp) && Distinct(cmp, entries + more)
    requires forall e <- more :: e.sequence > s
    ensures Read(cmp, entries + more, user, s) == Read(cmp, entries, user, s)
  {
    assert Distinct(cmp, entries) by { DistinctSubset(cmp, entries, entries + more); }
    hide Ordered, Read, Distinct;
    if f :| f in entries && Visible(cmp, f, user, s) {
      LatestExists(cmp, entries, user, s, f);
      var e :| Latest(cmp, entries, user, s, e);
      ReadIs(cmp, entries, user, s, e);
      ReadIs(cmp, entries + more, user, s, e);
    } else {
      ReadIsNone(cmp, entries, user, s);
      ReadIsNone(cmp, entries + more, user, s);
    }
  }

  // ----- Runs -----

  /** A run from a state in which no compaction is under way. */
  ghost predicate Run(cmp: Comparator, states: seq<State>, events: seq<Event>) {
    && |states| == |events| + 1
    && Sound(cmp, states[0]) && states[0].job == None
    && forall k, n :: 0 <= k < |events| && n == k + 1 ==> Step(cmp, states[k], events[k], states[n])
  }

  /** Every compaction that starts is safe then. */
  ghost predicate Careful(cmp: Comparator, states: seq<State>, events: seq<Event>) {
    forall k, n :: 0 <= k < |events| && n == k + 1 < |states| && events[k].Start? ==> Safe(cmp, states[n])
  }

  lemma RunStep(cmp: Comparator, states: seq<State>, events: seq<Event>, k: nat)
    requires Run(cmp, states, events) && k < |events|
    ensures Step(cmp, states[k], events[k], states[k + 1])
  {
  }

  lemma {:induction false} RunIsSound(cmp: Comparator, states: seq<State>, events: seq<Event>, k: nat)
    requires Run(cmp, states, events) && k < |states|
    ensures Sound(cmp, states[k]) && JobSound(cmp, states[k])
  {
    if k > 0 {
      RunIsSound(cmp, states, events, k - 1);
      RunStep(cmp, states, events, k - 1);
      StepIsSound(cmp, states[k - 1], events[k - 1], states[k]);
    }
  }

  /** So it is while it is under way. */
  lemma {:induction false} CarefulIsSafe(cmp: Comparator, states: seq<State>, events: seq<Event>, k: nat)
    requires Ordered(cmp) && Run(cmp, states, events) && Careful(cmp, states, events) && k < |states|
    ensures Safe(cmp, states[k])
  {
    hide Ordered, Step, Sound, JobSound, ComesBack;
    if k > 0 {
      RunStep(cmp, states, events, k - 1);
      CarefulIsSafe(cmp, states, events, k - 1);
      RunIsSound(cmp, states, events, k - 1);
      JobSince(cmp, states[k - 1], events[k - 1], states[k]);
    }
  }

  /** A compaction that starts in step k and finishes in step n leaves every answer from its smallest snapshot on as it
      was exactly if it was safe when it started. */
  lemma RunIsExact(cmp: Comparator, states: seq<State>, events: seq<Event>, k: nat, n: nat)
    requires Ordered(cmp) && Run(cmp, states, events) && k < n < |events| && events[k].Start? && events[n] == Finish
    requires forall i :: k < i < n ==> events[i] != Finish
    ensures states[n].job.Some? && states[n].job == states[k + 1].job
    ensures KeepsAnswers(cmp, states[n].entries, states[n + 1].entries, states[n].job.value.smallest) <==>
            Safe(cmp, states[k + 1])
  {
    hide Ordered, Step, Sound, JobSound, KeepsAnswers, Safe;
    JobStarts(cmp, states, events, k);
    SafeSince(cmp, states, events, k, n);
    RunIsSound(cmp, states, events, n);
    RunStep(cmp, states, events, n);
    FinishIsExact(cmp, states[n], states[n + 1]);
  }

  lemma JobStarts(cmp: Comparator, states: seq<State>, events: seq<Event>, k: nat)
    requires Run(cmp, states, events) && k < |events| && events[k].Start?
    ensures states[k + 1].job.Some?
  {
    RunStep(cmp, states, events, k);
  }

  lemma {:induction false} SafeSince(cmp: Comparator, states: seq<State>, events: seq<Event>, k: nat, n: nat)
    requires Ordered(cmp) && Run(cmp, states, events) && k < n < |states| && states[k + 1].job.Some?
    requires forall i :: k < i < n ==> events[i] != Finish
    ensures states[n].job == states[k + 1].job && (Safe(cmp, states[n]) <==> Safe(cmp, states[k + 1]))
    decreases n
  {
    hide Ordered, Step, Sound, JobSound, Safe;
    if k + 1 < n {
      SafeSince(cmp, states, events, k, n - 1);
      RunIsSound(cmp, states, events, n - 1);
      RunStep(cmp, states, events, n - 1);
      SafeStays(cmp, states[n - 1], events[n - 1], states[n]);
    }
  }

  lemma JobSince(cmp: Comparator, a: State, e: Event, b: State)
    requires Ordered(cmp) && Sound(cmp, a) && JobSound(cmp, a) && Step(cmp, a, e, b)
    ensures b.job.Some? ==> e.Start? || (Safe(cmp, b) <==> Safe(cmp, a))
  {
    hide Ordered, Sound, JobSound, Safe, Survivors, Entries;
    if a.job.Some? && e != Finish {
      SafeStays(cmp, a, e, b);
    }
  }

  lemma RunLength(cmp: Comparator, states: seq<State>, events: seq<Event>)
    requires Run(cmp, states, events)
    ensures |states| == |events| + 1
  {
  }

  lemma HeldIsKept(cmp: Comparator, a: State, s: nat)
    requires Sound(cmp, a) && JobSound(cmp, a) && s in a.snapshots
    ensures s <= a.last && (a.job.Some? ==> a.job.value.smallest <= s)
  {
  }

  /** In every run whose compactions are safe when they start, whatever is written, released and compacted meanwhile, a
      snapshot held from one moment to another gives the same answer for every key at both. */
  lemma {:induction false} SnapshotsNeverChange(cmp: Comparator, states: seq<State>, events: seq<Event>, i: nat, j: nat,
                                                user: seq<Byte>, s: nat)
    requires Ordered(cmp) && Run(cmp, states, events) && Careful(cmp, states, events) && i <= j < |states|
    requires forall k :: i <= k <= j ==> s in states[k].snapshots
    ensures Read(cmp, states[j].entries, user, s) == Read(cmp, states[i].entries, user, s)
    decreases j
  {
    hide Ordered, Read, Step, Sound, JobSound, Run, Safe, Careful;
    RunLength(cmp, states, events);
    if i < j {
      SnapshotsNeverChange(cmp, states, events, i, j - 1, user, s);
      RunIsSound(cmp, states, events, j - 1);
      RunStep(cmp, states, events, j - 1);
      HeldIsKept(cmp, states[j - 1], s);
      CarefulIsSafe(cmp, states, events, j - 1);
      StepKeepsAnswers(cmp, states[j - 1], events[j - 1], states[j], user, s);
    }
  }

  /** A safe compaction does not change what a reader without a snapshot finds either. */
  lemma CurrentUnchanged(cmp: Comparator, states: seq<State>, events: seq<Event>, k: nat, user: seq<Byte>)
    requires Ordered(cmp) && Run(cmp, states, events) && k < |events| && events[k] == Finish && Safe(cmp, states[k])
    ensures states[k + 1].last == states[k].last
    ensures Read(cmp, states[k + 1].entries, user, states[k].last) == Read(cmp, states[k].entries, user, states[k].last)
  {
    hide Ordered, Read, Safe;
    RunIsSound(cmp, states, events, k);
    RunStep(cmp, states, events, k);
    StepKeepsAnswers(cmp, states[k], events[k], states[k + 1], user, states[k].last);
  }

  /** Every snapshot alive while a compaction is under way, whenever it was taken, is at least the smallest one the
      compaction goes by. */
  lemma SnapshotsNotBelowSmallest(cmp: Comparator, states: seq<State>, events: seq<Event>, k: nat)
    requires Run(cmp, states, events) && k < |states| && states[k].job.Some?
    ensures forall s <- states[k].snapshots :: states[k].job.value.smallest <= s <= states[k].last
  {
    RunIsSound(cmp, states, events, k);
  }
}

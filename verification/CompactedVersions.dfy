/** A compaction in the version it is about: which entries lie on which level, what a reader is told afterwards, and the
    layering of the levels that lookups rely on. */
module CompactedVersions {
  import opened Bytes
  import opened SkipLists
  import opened DbFormat
  import opened MemTables
  import opened Compaction
  import opened CompactionMeaning
  import opened Lookups

  // ----- The levels below -----

  /** The user keys a table spans. */
  function BoundsOf(f: Table): TableFile {
    TableFile(UserOf(SmallestOf(f)), UserOf(LargestOf(f)))
  }

  function Bounds(files: seq<Table>): (r: seq<TableFile>)
    ensures |r| == |files| && forall i :: 0 <= i < |files| ==> r[i] == BoundsOf(files[i])
  {
    seq(|files|, i requires 0 <= i < |files| => BoundsOf(files[i]))
  }

  /** The place of a compaction of `level` into the next one in this version. */
  function PlaceIn(levels: seq<seq<Table>>, level: nat): (at: Place)
    ensures at.level == level && |at.levels| == |levels|
    ensures forall l :: 0 <= l < |levels| ==> at.levels[l] == Bounds(levels[l])
  {
    Place(seq(|levels|, l requires 0 <= l < |levels| => Bounds(levels[l])), level)
  }

  /** A key that no level below the output's spans is in no table there. */
  lemma BaseIsBelow(cmp: Comparator, levels: seq<seq<Table>>, level: nat, user: seq<Byte>)
    requires Ordered(cmp) && GoodVersion(cmp, levels) && BaseLevel(cmp, PlaceIn(levels, level), user)
    ensures forall l, f, e :: level + 2 <= l < |levels| && f in levels[l] && e in In(f) ==> cmp(e.user, user) != 0
  {
    hide Ordered, ByAge, Ascending;
    forall l, f, e | level + 2 <= l < |levels| && f in levels[l] && e in In(f) ensures cmp(e.user, user) != 0 {
      var i :| 0 <= i < |levels[l]| && levels[l][i] == f;
      assert !Compaction.Spans(cmp, PlaceIn(levels, level).levels[l][i], user);
      if cmp(e.user, user) == 0 {
        InBounds(cmp, f, e, user);
      }
    }
  }

  lemma InBounds(cmp: Comparator, f: Table, e: Entry, user: seq<Byte>)
    requires Ordered(cmp) && f.Good(cmp) && e in In(f) && cmp(e.user, user) == 0
    ensures Compaction.Spans(cmp, BoundsOf(f), user)
  {
    hide Ascending;
    var i := ItemOf(f, e);
    Lookups.Spans(cmp, f, i);
  }

  /** Asked in a version, the cursors tell whether the tables from two levels down on have the key. */
  method NothingBelow(cmp: Comparator, levels: seq<seq<Table>>, level: nat, user: seq<Byte>) returns (none: bool)
    requires Ordered(cmp) && GoodVersion(cmp, levels) && |levels| == NUM_LEVELS && level + 2 <= NUM_LEVELS
    ensures none ==>
              forall l, f, e :: level + 2 <= l < NUM_LEVELS && f in levels[l] && e in In(f) ==> cmp(e.user, user) != 0
    ensures !none ==>
              exists l, f :: level + 2 <= l < NUM_LEVELS && f in levels[l] && f.items != [] && Overlaps(cmp, f, user)
  {
    hide Ordered, SortedFiles, SortedTables, ByAge, BaseLevel;
    var at := PlaceIn(levels, level);
    forall l | level + 2 <= l < NUM_LEVELS ensures SortedTables(cmp, at.levels[l]) {
      BoundsSorted(cmp, levels[l]);
    }
    var cursors := new LevelCursors(cmp, at);
    none := cursors.IsBaseLevelForKey(user);
    if none {
      BaseIsBelow(cmp, levels, level, user);
    } else {
      var l, i :| level + 2 <= l < NUM_LEVELS && 0 <= i < |at.levels[l]| &&
                  !(cmp(user, at.levels[l][i].smallest) < 0 || cmp(user, at.levels[l][i].largest) > 0);
      var f := levels[l][i];
      HasItems(cmp, levels, l, f);
      assert f in levels[l] && Overlaps(cmp, f, user);
    }
  }

  lemma HasItems(cmp: Comparator, levels: seq<seq<Table>>, l: nat, f: Table)
    requires GoodVersion(cmp, levels) && l < |levels| && f in levels[l]
    ensures f.items != []
  {
  }

  // ----- What is compacted, and what is left behind -----

  /** These tables of `level` and those of the next one are to be merged. */
  datatype Job = Job(levels: seq<seq<Table>>, level: nat, upper: seq<Table>, lower: seq<Table>)
  {
    ghost predicate Valid(cmp: Comparator) {
      && Ordered(cmp) && GoodVersion(cmp, levels) && level + 1 < |levels|
      && (forall f <- upper :: f in levels[level]) && (forall f <- lower :: f in levels[level + 1])
    }

    /** Their entries. */
    ghost function Taken(): set<Entry> {
      InAny(upper) + InAny(lower)
    }

    ghost function TakenAt(l: nat): set<Entry> {
      if l == level then InAny(upper) else if l == level + 1 then InAny(lower) else {}
    }

    /** What stays of the levels. */
    function Left(): (r: seq<seq<Table>>)
      ensures |r| == |levels|
    {
      seq(|levels|, l requires 0 <= l < |levels| =>
        if l == level then Others(levels[l], upper) else if l == level + 1 then Others(levels[l], lower) else levels[l])
    }

    /** What a reader finds outside these tables, newer entries included. */
    ghost function Rest(newer: set<Entry>): set<Entry> {
      newer + Union(Levels(Left()))
    }

    /** No table that is left behind on a level has an entry for a user key that is taken from this level, or from the
        one above. */
    ghost predicate TakesAllOf(cmp: Comparator)
      requires level + 1 < |levels|
    {
      && (forall e <- InAny(Left()[level]), d <- InAny(upper) :: cmp(e.user, d.user) != 0)
      && (forall e <- InAny(Left()[level + 1]), d <- Taken() :: cmp(e.user, d.user) != 0)
    }

    /** The input of the compaction loop, as the merging iterator delivers it. */
    ghost predicate Merges(cmp: Comparator, items: seq<Item>) {
      Ascending(cmp, items) && AllGood(items) && Entries(items) == Taken()
    }
  }

  /** The tables that are not taken. */
  function Others(files: seq<Table>, taken: seq<Table>): (r: seq<Table>)
    ensures forall f :: f in r <==> f in files && f !in taken
  {
    if files == [] then []
    else (if files[0] in taken then [] else [files[0]]) + Others(files[1..], taken)
  }

  lemma InUnion(layers: seq<set<Entry>>, i: nat)
    requires i < |layers|
    ensures layers[i] <= Union(layers)
  {
  }

  lemma SplitLevel(files: seq<Table>, taken: seq<Table>)
    requires forall f <- taken :: f in files
    ensures InAny(files) == InAny(Others(files, taken)) + InAny(taken)
  {
    hide InAny, Others;
    forall e ensures e in InAny(files) <==> e in InAny(Others(files, taken)) + InAny(taken) {
      InAnyMeans(files, e);
      InAnyMeans(Others(files, taken), e);
      InAnyMeans(taken, e);
    }
  }

  /** Where an entry of the version lies: on a level that is not touched, or in a table taken, or in one left. */
  lemma RestAndTaken(cmp: Comparator, job: Job, newer: set<Entry>)
    requires job.Valid(cmp)
    ensures job.Rest(newer) + job.Taken() == newer + Union(Levels(job.levels))
  {
    hide Ordered, GoodVersion, InAny, Job.Left;
    var before, after := Levels(job.levels), Levels(job.Left());
    forall l | 0 <= l < |before| ensures before[l] == after[l] + job.TakenAt(l) {
      LevelSplits(cmp, job, l);
    }
    forall e ensures e in Union(before) <==> e in Union(after) + job.Taken() {
      if e in Union(before) {
        var l :| 0 <= l < |before| && e in before[l];
      }
      if e in Union(after) {
        var l :| 0 <= l < |after| && e in after[l];
        assert e in before[l];
      }
      assert e in job.TakenAt(job.level) || e in job.TakenAt(job.level + 1) <==> e in job.Taken();
    }
  }

  lemma LevelSplits(cmp: Comparator, job: Job, l: nat)
    requires job.Valid(cmp) && l < |job.levels|
    ensures InAny(job.levels[l]) == InAny(job.Left()[l]) + job.TakenAt(l)
  {
    hide Ordered, GoodVersion, InAny, Others;
    SplitLevel(job.levels[job.level], job.upper);
    SplitLevel(job.levels[job.level + 1], job.lower);
  }

  /** With entries layered as lookups need them, what is left behind for a key with nothing below is newer. */
  lemma LeftIsNewer(cmp: Comparator, job: Job, newer: set<Entry>, items: seq<Item>)
    requires job.Valid(cmp) && job.Merges(cmp, items) && job.TakesAllOf(cmp)
    requires NewestFirst(cmp, [newer] + Levels(job.levels))
    ensures RestIsNewer(cmp, job.Rest(newer), items, PlaceIn(job.levels, job.level))
  {
    hide Ordered, GoodVersion, InAny, Ascending, EntryOf, BaseLevel;
    var at := PlaceIn(job.levels, job.level);
    forall e, item | e in job.Rest(newer) && item in items && cmp(e.user, EntryOf(item).user) == 0 &&
                     BaseLevel(cmp, at, EntryOf(item).user)
      ensures e.sequence > EntryOf(item).sequence
    {
      assert EntryOf(item) in job.Taken();
      LeftIsNewerThan(cmp, job, newer, e, EntryOf(item));
    }
  }

  lemma LeftIsNewerThan(cmp: Comparator, job: Job, newer: set<Entry>, e: Entry, d: Entry)
    requires job.Valid(cmp) && job.TakesAllOf(cmp) && NewestFirst(cmp, [newer] + Levels(job.levels))
    requires e in job.Rest(newer) && d in job.Taken() && cmp(e.user, d.user) == 0
    requires BaseLevel(cmp, PlaceIn(job.levels, job.level), d.user)
    ensures e.sequence > d.sequence
  {
    hide Ordered, GoodVersion, InAny, BaseLevel, NewestFirst, Job.Taken, Job.TakesAllOf, Job.Rest, Job.Left, Union;
    var layers := [newer] + Levels(job.levels);
    var m := TakenFrom(cmp, job, d);
    if e in newer {
      FirstIsNewer(cmp, layers, 0, m + 1, e, d);
    } else {
      var l := LeftFrom(cmp, job, newer, e, d);
      if l < m {
        FirstIsNewer(cmp, layers, l + 1, m + 1, e, d);
      } else {
        NoneBelow(cmp, job, l, e, d);
      }
    }
  }

  /** An entry that is left behind, and is for a user key that is compacted, is not on the level that is written. */
  lemma LeftFrom(cmp: Comparator, job: Job, newer: set<Entry>, e: Entry, d: Entry) returns (l: nat)
    requires job.Valid(cmp) && job.TakesAllOf(cmp) && e in job.Rest(newer) && e !in newer
    requires d in job.Taken() && cmp(e.user, d.user) == 0
    ensures l < |job.levels| && l != job.level + 1 && e in InAny(job.levels[l])
    ensures l == job.level ==> d !in InAny(job.upper)
  {
    hide Ordered, GoodVersion, InAny, Job.Taken, Job.TakesAllOf, Job.Left, Others, Job.Rest;
    l := InLeft(job, newer, e);
    NotTaken(cmp, job, e, d);
    LevelSplits(cmp, job, l);
  }

  lemma InLeft(job: Job, newer: set<Entry>, e: Entry) returns (l: nat)
    requires e in job.Rest(newer) && e !in newer
    ensures l < |job.levels| && e in InAny(job.Left()[l])
  {
    hide InAny, Job.Left;
    var left := Levels(job.Left());
    l :| 0 <= l < |left| && e in left[l];
  }

  lemma NotTaken(cmp: Comparator, job: Job, e: Entry, d: Entry)
    requires job.level + 1 < |job.levels| && job.TakesAllOf(cmp) && cmp(e.user, d.user) == 0
    ensures e in InAny(job.Left()[job.level]) ==> d !in InAny(job.upper)
    ensures e in InAny(job.Left()[job.level + 1]) ==> d !in job.Taken()
  {
    hide InAny, Job.Taken, Job.Left;
  }

  lemma FirstIsNewer(cmp: Comparator, layers: seq<set<Entry>>, i: nat, j: nat, e: Entry, d: Entry)
    requires NewestFirst(cmp, layers) && i < j < |layers|
    requires e in layers[i] && d in layers[j] && cmp(e.user, d.user) == 0
    ensures e.sequence > d.sequence
  {
    assert Newer(cmp, layers[i], layers[j]);
  }

  /** The level a compacted entry comes from. */
  lemma TakenFrom(cmp: Comparator, job: Job, d: Entry) returns (m: nat)
    requires job.Valid(cmp) && d in job.Taken()
    ensures m == (if d in InAny(job.upper) then job.level else job.level + 1) && d in Levels(job.levels)[m]
  {
    hide Ordered, GoodVersion, InAny;
    SplitLevel(job.levels[job.level], job.upper);
    SplitLevel(job.levels[job.level + 1], job.lower);
    m := if d in InAny(job.upper) then job.level else job.level + 1;
  }

  lemma NoneBelow(cmp: Comparator, job: Job, l: nat, e: Entry, d: Entry)
    requires job.Valid(cmp) && job.level + 2 <= l < |job.levels| && e in InAny(job.levels[l])
    requires BaseLevel(cmp, PlaceIn(job.levels, job.level), d.user)
    ensures cmp(e.user, d.user) != 0
  {
    hide Ordered, GoodVersion, InAny, BaseLevel;
    InAnyMeans(job.levels[l], e);
    BaseIsBelow(cmp, job.levels, job.level, d.user);
  }

  // ----- What a reader is told afterwards -----

  /** All there is to read. */
  ghost function All(newer: set<Entry>, levels: seq<seq<Table>>): set<Entry> {
    newer + Union(Levels(levels))
  }

  /** A compaction that takes all tables with the keys it is about, in a version layered as lookups need it, changes no
      answer from its smallest snapshot on. */
  lemma VersionKeepsAnswers(cmp: Comparator, job: Job, newer: set<Entry>, items: seq<Item>, smallest: nat)
    requires job.Valid(cmp) && job.Merges(cmp, items) && job.TakesAllOf(cmp) && smallest < MAX_SEQUENCE
    requires NewestFirst(cmp, [newer] + Levels(job.levels)) && Distinct(cmp, All(newer, job.levels))
    ensures var at := PlaceIn(job.levels, job.level);
            KeepsAnswers(cmp, All(newer, job.levels), Compacted(cmp, job.Rest(newer), items, smallest, at), smallest)
  {
    hide Ordered, GoodVersion, Ascending, NewestFirst, Distinct, Union, Compacted, KeepsAnswers, ComesBack, Uncovers,
         RestIsNewer, Job.TakesAllOf, Job.Taken, Job.Rest;
    var at, rest := PlaceIn(job.levels, job.level), job.Rest(newer);
    RestAndTaken(cmp, job, newer);
    LeftIsNewer(cmp, job, newer, items);
    NewerRestIsSafe(cmp, rest, items, at);
    CompactionIsExact(cmp, rest, items, smallest, at);
    if ComesBack(cmp, rest, items, smallest, at) {
      ComesBackUncovers(cmp, rest, items, smallest, at);
    }
  }

  // ----- The version afterwards -----

  lemma SortedRest(cmp: Comparator, files: seq<Table>)
    requires files != [] && SortedFiles(cmp, files)
    ensures SortedFiles(cmp, files[1..]) && files[0].Good(cmp)
    ensures forall f <- files[1..] :: Compare(cmp, LargestOf(files[0]), SmallestOf(f)) < 0
  {
    hide Compare, Table.Good;
    forall f | f in files[1..] ensures Compare(cmp, LargestOf(files[0]), SmallestOf(f)) < 0 {
      var j :| 0 <= j < |files[1..]| && files[1..][j] == f;
      assert files[j + 1] == f;
    }
  }

  lemma SortedMore(cmp: Comparator, f: Table, files: seq<Table>)
    requires SortedFiles(cmp, files) && f.Good(cmp)
    requires forall g <- files :: Compare(cmp, LargestOf(f), SmallestOf(g)) < 0
    ensures SortedFiles(cmp, [f] + files)
  {
    hide Compare, Table.Good;
  }

  lemma {:induction false} OthersSorted(cmp: Comparator, files: seq<Table>, taken: seq<Table>)
    requires SortedFiles(cmp, files)
    ensures SortedFiles(cmp, Others(files, taken))
  {
    hide SortedFiles;
    if files != [] {
      SortedRest(cmp, files);
      OthersSorted(cmp, files[1..], taken);
      var rest := Others(files[1..], taken);
      assert [] + rest == rest;
      if files[0] !in taken {
        SortedMore(cmp, files[0], rest);
      }
    }
  }

  /** Of two tables the one with the higher number is the newer one. */
  ghost predicate Aged(cmp: Comparator, f: Table, g: Table) {
    && f.number != g.number && (f.number > g.number ==> Newer(cmp, In(f), In(g)))
    && (g.number > f.number ==> Newer(cmp, In(g), In(f)))
  }

  lemma AgedRest(cmp: Comparator, files: seq<Table>)
    requires files != [] && ByAge(cmp, files)
    ensures ByAge(cmp, files[1..]) && forall f <- files[1..] :: Aged(cmp, files[0], f)
  {
    hide Newer, In;
    var rest := files[1..];
    assert forall i :: 0 <= i < |rest| ==> rest[i] == files[i + 1];
    forall f | f in rest ensures Aged(cmp, files[0], f) {
      var j :| 0 <= j < |rest| && rest[j] == f;
      assert files[j + 1] == f;
    }
  }

  lemma AgedMore(cmp: Comparator, f: Table, files: seq<Table>)
    requires ByAge(cmp, files) && forall g <- files :: Aged(cmp, f, g)
    ensures ByAge(cmp, [f] + files)
  {
    hide Newer, In;
    var all := [f] + files;
    forall i, j | 0 <= i < |all| && 0 <= j < |all| && i != j
      ensures all[i].number != all[j].number
      ensures all[i].number > all[j].number ==> Newer(cmp, In(all[i]), In(all[j]))
    {
      if i == 0 {
        assert all[j] == files[j - 1] && Aged(cmp, f, files[j - 1]);
      } else if j == 0 {
        assert all[i] == files[i - 1] && Aged(cmp, f, files[i - 1]);
      } else {
        assert all[i] == files[i - 1] && all[j] == files[j - 1];
      }
    }
  }

  lemma {:induction false} OthersByAge(cmp: Comparator, files: seq<Table>, taken: seq<Table>)
    requires ByAge(cmp, files)
    ensures ByAge(cmp, Others(files, taken))
  {
    hide ByAge, Aged;
    if files != [] {
      AgedRest(cmp, files);
      OthersByAge(cmp, files[1..], taken);
      var rest := Others(files[1..], taken);
      assert [] + rest == rest;
      if files[0] !in taken {
        AgedMore(cmp, files[0], rest);
      }
    }
  }

  /** The tables written, with the numbers they were given. */
  function TablesOf(outputs: seq<Output>, number: nat): (r: seq<Table>)
    ensures |r| == |outputs| && forall i :: 0 <= i < |outputs| ==> r[i] == Table(number + i, outputs[i].entries)
  {
    seq(|outputs|, i requires 0 <= i < |outputs| => Table(number + i, outputs[i].entries))
  }

  /** Ascending items cut into tables with at least one item each are a sorted level. */
  lemma {:induction false} OutputsSorted(cmp: Comparator, outputs: seq<Output>, number: nat)
    requires Ascending(cmp, Flattened(outputs)) && AllGood(Flattened(outputs)) && forall o <- outputs :: o.entries != []
    ensures SortedFiles(cmp, TablesOf(outputs, number))
    decreases |outputs|
  {
    hide Compare, Item.Parsed, Ascending, SortedFiles;
    if outputs == [] {
      NoTables(cmp, number);
    } else {
      var front, last := outputs[..|outputs| - 1], outputs[|outputs| - 1];
      var some := Flattened(front);
      AscendingParts(cmp, some, last.entries);
      OutputsSorted(cmp, front, number);
      var tables := TablesOf(front, number);
      var table := Table(number + |front|, last.entries);
      assert TablesOf(outputs, number) == tables + [table];
      forall f | f in tables ensures Compare(cmp, LargestOf(f), SmallestOf(table)) < 0 {
        var i :| 0 <= i < |tables| && tables[i] == f;
        LastIsIn(front, i);
        FirstPartBefore(cmp, some, last.entries, front[i].entries[|front[i].entries| - 1]);
      }
      SortedLast(cmp, tables, table);
    }
  }

  lemma NoTables(cmp: Comparator, number: nat)
    ensures SortedFiles(cmp, TablesOf([], number))
  {
  }

  lemma FirstPartBefore(cmp: Comparator, a: seq<Item>, b: seq<Item>, item: Item)
    requires Ascending(cmp, a + b) && b != [] && item in a
    ensures Compare(cmp, item.key, b[0].key) < 0
  {
    hide Compare;
    var k :| 0 <= k < |a| && a[k] == item;
    assert (a + b)[k] == item && (a + b)[|a|] == b[0];
  }

  lemma SortedLast(cmp: Comparator, files: seq<Table>, f: Table)
    requires SortedFiles(cmp, files) && f.Good(cmp)
    requires forall g <- files :: Compare(cmp, LargestOf(g), SmallestOf(f)) < 0
    ensures SortedFiles(cmp, files + [f])
  {
    hide Compare, Table.Good;
  }

  lemma AscendingParts(cmp: Comparator, a: seq<Item>, b: seq<Item>)
    requires Ascending(cmp, a + b) && AllGood(a + b)
    ensures Ascending(cmp, a) && Ascending(cmp, b) && AllGood(a) && AllGood(b)
  {
    hide Compare, Item.Parsed;
    var all := a + b;
    assert forall i :: 0 <= i < |a| ==> all[i] == a[i];
    assert forall i :: 0 <= i < |b| ==> all[|a| + i] == b[i];
  }

  lemma {:induction false} LastIsIn(outputs: seq<Output>, i: nat)
    requires i < |outputs| && outputs[i].entries != []
    ensures outputs[i].entries[|outputs[i].entries| - 1] in Flattened(outputs)
    decreases |outputs|
  {
    if i < |outputs| - 1 {
      LastIsIn(outputs[..|outputs| - 1], i);
    }
  }

  /** The tables of a level and new ones, both sorted, in the order of their smallest keys. */
  function Merged(cmp: Comparator, files: seq<Table>, added: seq<Table>): (r: seq<Table>)
    ensures forall f :: f in r <==> f in files || f in added
    decreases |files| + |added|
  {
    if files == [] then added
    else if added == [] then files
    else if Compare(cmp, SmallestOf(files[0]), SmallestOf(added[0])) < 0 then
      [files[0]] + Merged(cmp, files[1..], added)
    else
      [added[0]] + Merged(cmp, files, added[1..])
  }

  /** One table ends before the other begins. */
  predicate Apart(cmp: Comparator, f: Table, g: Table) {
    Compare(cmp, LargestOf(f), SmallestOf(g)) < 0 || Compare(cmp, LargestOf(g), SmallestOf(f)) < 0
  }

  lemma {:induction false} MergedSorted(cmp: Comparator, files: seq<Table>, added: seq<Table>)
    requires Ordered(cmp) && SortedFiles(cmp, files) && SortedFiles(cmp, added)
    requires forall f <- files, g <- added :: Apart(cmp, f, g)
    ensures SortedFiles(cmp, Merged(cmp, files, added))
    decreases |files| + |added|
  {
    hide Ordered, Compare, Apart, Table.Good;
    if files != [] && added != [] {
      if Compare(cmp, SmallestOf(files[0]), SmallestOf(added[0])) < 0 {
        SortedRest(cmp, files);
        MergedSorted(cmp, files[1..], added);
        FirstGoesFirst(cmp, files, added);
        SortedMore(cmp, files[0], Merged(cmp, files[1..], added));
      } else {
        SortedRest(cmp, added);
        MergedSorted(cmp, files, added[1..]);
        forall f | f in files ensures Apart(cmp, added[0], f) { ApartSame(cmp, f, added[0]); }
        CompareTransitive(cmp, SmallestOf(files[0]), SmallestOf(added[0]), SmallestOf(files[0]));
        FirstGoesFirst(cmp, added, files);
        SortedMore(cmp, added[0], Merged(cmp, files, added[1..]));
      }
    }
  }

  lemma ApartSame(cmp: Comparator, f: Table, g: Table)
    requires Apart(cmp, f, g)
    ensures Apart(cmp, g, f)
  {
  }

  /** The table with the smaller first key ends before any of the others begins. */
  lemma FirstGoesFirst(cmp: Comparator, files: seq<Table>, others: seq<Table>)
    requires Ordered(cmp) && SortedFiles(cmp, files) && SortedFiles(cmp, others) && files != [] && others != []
    requires Compare(cmp, SmallestOf(files[0]), SmallestOf(others[0])) <= 0
    requires forall g <- others :: Apart(cmp, files[0], g)
    ensures forall g <- others :: Compare(cmp, LargestOf(files[0]), SmallestOf(g)) < 0
  {
    hide Ordered, Compare, Ascending;
    var f := files[0];
    forall g | g in others ensures Compare(cmp, LargestOf(f), SmallestOf(g)) < 0 {
      var j :| 0 <= j < |others| && others[j] == g;
      assert g in others && others[0] in others;
      Lookups.Spans(cmp, others[0], 0);
      Lookups.Spans(cmp, others[j], 0);
      Chain(cmp, SmallestOf(f), SmallestOf(others[0]), LargestOf(others[0]), SmallestOf(g), LargestOf(g), j == 0);
    }
  }

  lemma Chain(cmp: Comparator, a: seq<Byte>, b: seq<Byte>, c: seq<Byte>, d: seq<Byte>, e: seq<Byte>, same: bool)
    requires Ordered(cmp) && Compare(cmp, a, b) <= 0 && Compare(cmp, b, c) <= 0 && Compare(cmp, d, e) <= 0
    requires if same then b == d else Compare(cmp, c, d) < 0
    ensures Compare(cmp, e, a) >= 0
  {
    hide Ordered, Compare;
    CompareTransitive(cmp, a, b, c);
    CompareTransitive(cmp, a, c, d);
    CompareTransitive(cmp, a, d, e);
    CompareTransitive(cmp, e, a, e);
  }

  /** The version in which the outputs have taken the place of the tables that were merged. */
  function Installed(cmp: Comparator, left: seq<seq<Table>>, level: nat, added: seq<Table>): (r: seq<seq<Table>>)
    requires level + 1 < |left|
    ensures |r| == |left|
  {
    left[level + 1 := Merged(cmp, left[level + 1], added)]
  }

  /** A table lies before all of the items, or after all of them. */
  ghost predicate Clear(cmp: Comparator, f: Table, items: seq<Item>) {
    || (forall item <- items :: Compare(cmp, LargestOf(f), item.key) < 0)
    || (forall item <- items :: Compare(cmp, item.key, SmallestOf(f)) < 0)
  }

  lemma {:induction false} KeptAscends(cmp: Comparator, items: seq<Item>, n: nat, smallest: nat, at: Place)
    requires Ascending(cmp, items) && n <= |items|
    ensures Ascending(cmp, Kept(cmp, items, n, smallest, at))
  {
    hide Dropped, Compare;
    if n > 0 {
      KeptAscends(cmp, items, n - 1, smallest, at);
      KeptElements(cmp, items, n - 1, smallest, at);
      var some := Kept(cmp, items, n - 1, smallest, at);
      forall i | 0 <= i < |some| ensures Compare(cmp, some[i].key, items[n - 1].key) < 0 {
        assert some[i] in some;
        var k :| 0 <= k < n - 1 && !Dropped(cmp, items, k, smallest, at) && items[k] == some[i];
      }
    }
  }

  lemma {:induction false} InFlattened(outputs: seq<Output>, item: Item)
    ensures item in Flattened(outputs) <==> exists o <- outputs :: item in o.entries
  {
    if outputs != [] {
      var front, last := outputs[..|outputs| - 1], outputs[|outputs| - 1];
      InFlattened(front, item);
      assert outputs == front + [last];
    }
  }

  /** The new tables hold what the outputs hold. */
  lemma OutputEntries(outputs: seq<Output>, number: nat)
    requires AllGood(Flattened(outputs))
    ensures InAny(TablesOf(outputs, number)) == Entries(Flattened(outputs))
  {
    hide InAny, EntryOf, Item.Parsed, Flattened;
    var tables, items := TablesOf(outputs, number), Flattened(outputs);
    forall i | 0 <= i < |outputs| ensures AllGood(outputs[i].entries) {
      forall item | item in outputs[i].entries ensures item in items { InFlattened(outputs, item); }
    }
    forall e ensures e in InAny(tables) <==> e in Entries(items) {
      InAnyMeans(tables, e);
      if e in InAny(tables) {
        var f :| f in tables && e in In(f);
        var i :| 0 <= i < |tables| && tables[i] == f;
        var item :| item in f.items && EntryOf(item) == e;
        InFlattened(outputs, item);
      }
      if e in Entries(items) {
        var item :| item in items && EntryOf(item) == e;
        InFlattened(outputs, item);
        var o :| o in outputs && item in o.entries;
        var i :| 0 <= i < |outputs| && outputs[i] == o;
        assert tables[i] in tables && e in In(tables[i]);
      }
    }
  }

  /** Every level is in order again. */
  lemma InstalledGood(cmp: Comparator, job: Job, items: seq<Item>, outputs: seq<Output>, number: nat)
    requires job.Valid(cmp) && Ascending(cmp, Flattened(outputs)) && AllGood(Flattened(outputs))
    requires (forall o <- outputs :: o.entries != []) && forall item <- Flattened(outputs) :: item in items
    requires forall f <- job.Left()[job.level + 1] :: Clear(cmp, f, items)
    ensures GoodVersion(cmp, Installed(cmp, job.Left(), job.level, TablesOf(outputs, number)))
  {
    hide Ordered, Compare, Clear, Apart, SortedFiles, ByAge, Merged, Flattened, Ascending, Table.Good;
    var left, tables := job.Left(), TablesOf(outputs, number);
    OutputsSorted(cmp, outputs, number);
    OthersSorted(cmp, job.levels[job.level + 1], job.lower);
    if job.level == 0 {
      OthersByAge(cmp, job.levels[0], job.upper);
    } else {
      OthersSorted(cmp, job.levels[job.level], job.upper);
    }
    forall f, g | f in left[job.level + 1] && g in tables ensures Apart(cmp, f, g) {
      var i :| 0 <= i < |tables| && tables[i] == g;
      EndsIn(outputs, i, items);
      ClearApart(cmp, f, items, g);
    }
    MergedSorted(cmp, left[job.level + 1], tables);
  }

  lemma EndsIn(outputs: seq<Output>, i: nat, items: seq<Item>)
    requires i < |outputs| && outputs[i].entries != [] && forall item <- Flattened(outputs) :: item in items
    ensures var s := outputs[i].entries; s[0] in items && s[|s| - 1] in items
  {
    hide Flattened;
    var s := outputs[i].entries;
    InFlattened(outputs, s[0]);
    InFlattened(outputs, s[|s| - 1]);
    assert outputs[i] in outputs;
  }

  lemma ClearApart(cmp: Comparator, f: Table, items: seq<Item>, g: Table)
    requires Clear(cmp, f, items) && g.items != [] && g.items[0] in items && g.items[|g.items| - 1] in items
    ensures Apart(cmp, f, g)
  {
    hide Compare;
  }

  lemma MergedEntries(cmp: Comparator, files: seq<Table>, added: seq<Table>)
    ensures InAny(Merged(cmp, files, added)) == InAny(files) + InAny(added)
  {
    hide InAny, Merged;
    forall e ensures e in InAny(Merged(cmp, files, added)) <==> e in InAny(files) + InAny(added) {
      InAnyMeans(Merged(cmp, files, added), e);
      InAnyMeans(files, e);
      InAnyMeans(added, e);
    }
  }

  /** What is on the levels then: less than before on the one, and on the other what was left and part of what was
      taken. */
  lemma InstalledLevels(cmp: Comparator, job: Job, outputs: seq<Output>, number: nat)
    requires job.Valid(cmp) && AllGood(Flattened(outputs)) && Entries(Flattened(outputs)) <= job.Taken()
    ensures var left, out := job.Left(), Entries(Flattened(outputs));
            var layers := Levels(Installed(cmp, left, job.level, TablesOf(outputs, number)));
            && |layers| == |left| && layers[job.level + 1] == InAny(left[job.level + 1]) + out
            && forall l :: 0 <= l < |left| && l != job.level + 1 ==> layers[l] == InAny(left[l])
  {
    hide Ordered, InAny, Flattened, Entries;
    MergedEntries(cmp, job.Left()[job.level + 1], TablesOf(outputs, number));
    OutputEntries(outputs, number);
  }

  /** Where an entry of the new version was before: on the same level, or it is compacted and was one level up. */
  lemma CameFrom(cmp: Comparator, job: Job, newer: set<Entry>, outputs: seq<Output>, number: nat, i: nat, e: Entry)
    returns (m: nat)
    requires job.Valid(cmp) && AllGood(Flattened(outputs)) && Entries(Flattened(outputs)) <= job.Taken()
    requires i <= |job.levels|
    requires e in ([newer] + Levels(Installed(cmp, job.Left(), job.level, TablesOf(outputs, number))))[i]
    ensures m <= i && e in ([newer] + Levels(job.levels))[m]
    ensures m < i ==> e in InAny(job.upper) && i == job.level + 2 && m == job.level + 1
    ensures i == job.level + 1 ==> e in InAny(job.Left()[job.level])
  {
    hide Ordered, GoodVersion, InAny, Flattened, Entries, Job.Taken, Installed;
    InstalledLevels(cmp, job, outputs, number);
    SplitLevel(job.levels[job.level], job.upper);
    SplitLevel(job.levels[job.level + 1], job.lower);
    m := i;
    if i == job.level + 2 && e !in InAny(job.Left()[job.level + 1]) {
      var l := TakenFrom(cmp, job, e);
      m := l + 1;
    }
  }

  /** The levels are still layered as lookups need them: newer entries for a key never lie below older ones. */
  lemma InstalledLayered(cmp: Comparator, job: Job, newer: set<Entry>, outputs: seq<Output>, number: nat)
    requires job.Valid(cmp) && job.TakesAllOf(cmp) && NewestFirst(cmp, [newer] + Levels(job.levels))
    requires AllGood(Flattened(outputs)) && Entries(Flattened(outputs)) <= job.Taken()
    ensures NewestFirst(cmp, [newer] + Levels(Installed(cmp, job.Left(), job.level, TablesOf(outputs, number))))
  {
    hide GoodVersion, InAny, Flattened, Entries, Ordered, Job.Taken, Job.Left, Installed;
    var before := [newer] + Levels(job.levels);
    var after := [newer] + Levels(Installed(cmp, job.Left(), job.level, TablesOf(outputs, number)));
    forall i, j, e: Entry, f: Entry |
      0 <= i < j < |after| && e in after[i] && f in after[j] && cmp(e.user, f.user) == 0
      ensures e.sequence > f.sequence
    {
      var m := CameFrom(cmp, job, newer, outputs, number, i, e);
      var n := CameFrom(cmp, job, newer, outputs, number, j, f);
      if m < n {
        FirstIsNewer(cmp, before, m, n, e, f);
      }
    }
  }

  lemma BoundsSorted(cmp: Comparator, files: seq<Table>)
    requires Ordered(cmp) && SortedFiles(cmp, files)
    ensures SortedTables(cmp, Bounds(files))
  {
    hide Ordered, Ascending;
    var bounds := Bounds(files);
    forall i | 0 <= i < |files| ensures cmp(bounds[i].smallest, bounds[i].largest) <= 0 {
      assert files[i] in files;
      Lookups.Spans(cmp, files[i], |files[i].items| - 1);
    }
    forall i, j | 0 <= i < j < |files| ensures cmp(bounds[i].largest, bounds[j].smallest) <= 0 {
      assert Compare(cmp, LargestOf(files[i]), SmallestOf(files[j])) < 0;
    }
  }

  /** All of it: what there is to read then is what the compaction keeps, and what was left. */
  lemma InstalledIsCompacted(cmp: Comparator, job: Job, newer: set<Entry>, items: seq<Item>, outputs: seq<Output>,
                             number: nat, smallest: nat)
    requires job.Valid(cmp) && job.Merges(cmp, items)
    requires Flattened(outputs) == Survivors(cmp, items, smallest, PlaceIn(job.levels, job.level))
    ensures var at := PlaceIn(job.levels, job.level);
            All(newer, Installed(cmp, job.Left(), job.level, TablesOf(outputs, number))) ==
            Compacted(cmp, job.Rest(newer), items, smallest, at)
  {
    hide Ordered, GoodVersion, InAny, Flattened, Entries, Survivors, Ascending, Installed, Job.Left;
    var at, left := PlaceIn(job.levels, job.level), job.Left();
    OutputGood(cmp, items, smallest, at);
    InstalledLevels(cmp, job, outputs, number);
    var out := Entries(Flattened(outputs));
    var after, rest := Levels(Installed(cmp, left, job.level, TablesOf(outputs, number))), Levels(left);
    forall e ensures e in Union(after) <==> e in Union(rest) + out {
      if e in Union(after) {
        var l :| 0 <= l < |after| && e in after[l];
        assert e in rest[l] || e in out;
      }
      if e in Union(rest) {
        var l :| 0 <= l < |rest| && e in rest[l];
        assert e in after[l];
      }
      assert e in out ==> e in after[job.level + 1];
    }
  }

  /** A compaction of a version, from the cursors on its levels to the new version, with its levels in order as before.
      It changes no answer from its smallest snapshot on exactly if no deleted value comes back. With entries layered as
      lookups need them, and all tables taken that have the keys it is about, none does, and the levels stay layered. If
      anything fails the version stays as it is. */
  method CompactVersion(cmp: Comparator, job: Job, items: seq<Item>, smallest: nat, number: nat,
                        stopBefore: seq<Byte> -> bool, bigEnough: seq<Item> -> bool, world: World,
                        ghost newer: set<Entry>)
    returns (ok: bool, levels: seq<seq<Table>>)
    requires job.Valid(cmp) && |job.levels| == NUM_LEVELS && job.Merges(cmp, items) && smallest < MAX_SEQUENCE
    requires forall f <- job.Left()[job.level + 1] :: Clear(cmp, f, items)
    requires Distinct(cmp, All(newer, job.levels))
    ensures GoodVersion(cmp, levels) && |levels| == NUM_LEVELS && (!ok ==> levels == job.levels)
    ensures ok ==>
              (KeepsAnswers(cmp, All(newer, job.levels), All(newer, levels), smallest) <==>
               !ComesBack(cmp, job.Rest(newer), items, smallest, PlaceIn(job.levels, job.level)))
    ensures job.TakesAllOf(cmp) && NewestFirst(cmp, [newer] + Levels(job.levels)) ==>
              && KeepsAnswers(cmp, All(newer, job.levels), All(newer, levels), smallest)
              && NewestFirst(cmp, [newer] + Levels(levels))
    ensures (forall k :: world.opens(k) && world.finishes(k) && !world.shuttingDown(k)) && world.inputOk ==> ok
  {
    hide Ordered, GoodVersion, NewestFirst, Distinct, Job.TakesAllOf, Job.Rest, Clear, Ascending, AllGood, Flattened,
         Kept, Small, KeepsAnswers, Compacted, SortedTables, Installed, Entries, ComesBack;
    var at := PlaceIn(job.levels, job.level);
    ghost var layered := job.TakesAllOf(cmp) && NewestFirst(cmp, [newer] + Levels(job.levels));
    PlaceSorted(cmp, job);
    if layered {
      VersionKeepsAnswers(cmp, job, newer, items, smallest);
    }
    RestAndTaken(cmp, job, newer);
    CompactionIsExact(cmp, job.Rest(newer), items, smallest, at);
    levels := job.levels;
    var cursors := new LevelCursors(cmp, at);
    var outputs;
    ok, outputs := DoCompactionWork(cursors, items, smallest, stopBefore, bigEnough, world);
    if ok {
      levels := Installed(cmp, job.Left(), job.level, TablesOf(outputs, number));
      OutputIsGood(cmp, job, items, outputs, smallest);
      InstalledGood(cmp, job, items, outputs, number);
      if layered {
        InstalledLayered(cmp, job, newer, outputs, number);
      }
      InstalledIsCompacted(cmp, job, newer, items, outputs, number, smallest);
    } else {
      SameAnswers(cmp, All(newer, levels), smallest);
    }
  }

  lemma SameAnswers(cmp: Comparator, all: set<Entry>, smallest: nat)
    ensures KeepsAnswers(cmp, all, all, smallest)
  {
  }

  lemma PlaceSorted(cmp: Comparator, job: Job)
    requires job.Valid(cmp)
    ensures Ordered(cmp)
    ensures forall l :: job.level + 2 <= l < |job.levels| ==>
              SortedTables(cmp, PlaceIn(job.levels, job.level).levels[l])
  {
    hide Ordered, SortedFiles, SortedTables, ByAge, AllTables;
    forall l | job.level + 2 <= l < |job.levels|
      ensures SortedTables(cmp, PlaceIn(job.levels, job.level).levels[l])
    {
      BoundsSorted(cmp, job.levels[l]);
    }
  }

  lemma OutputIsGood(cmp: Comparator, job: Job, items: seq<Item>, outputs: seq<Output>, smallest: nat)
    requires job.Merges(cmp, items) && forall o <- outputs :: o.Bounded()
    requires Flattened(outputs) == Kept(cmp, items, |items|, smallest, PlaceIn(job.levels, job.level))
    ensures Ascending(cmp, Flattened(outputs)) && AllGood(Flattened(outputs))
    ensures Entries(Flattened(outputs)) <= job.Taken() && forall o <- outputs :: o.entries != []
    ensures forall item <- Flattened(outputs) :: item in items
  {
    hide Ascending, AllGood, Kept, Flattened, Entries, Dropped;
    var at := PlaceIn(job.levels, job.level);
    OutputGood(cmp, items, smallest, at);
    KeptAscends(cmp, items, |items|, smallest, at);
    KeptElements(cmp, items, |items|, smallest, at);
  }
}

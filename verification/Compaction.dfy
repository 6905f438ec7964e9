/** Compaction: the loop that merges sorted entries into new tables and drops those that no reader can see any more. */
module Compaction {
  import opened Bytes
  import opened SkipLists
  import opened DbFormat
  import opened MemTables

  // ----- Is there anything for a key on the deeper levels? -----

  /** A table of the version that is being compacted, known by the user keys it spans. */
  datatype TableFile = TableFile(smallest: seq<Byte>, largest: seq<Byte>)

  /** A compaction of `level` into the next one, in a version with these tables on its levels. */
  datatype Place = Place(levels: seq<seq<TableFile>>, level: nat)

  predicate Spans(cmp: Comparator, f: TableFile, user: seq<Byte>) {
    cmp(f.smallest, user) <= 0 && cmp(user, f.largest) <= 0
  }

  /** The tables of one level span ascending ranges; where one ends the next may begin. */
  ghost predicate SortedTables(cmp: Comparator, files: seq<TableFile>) {
    && (forall i :: 0 <= i < |files| ==> cmp(files[i].smallest, files[i].largest) <= 0)
    && (forall i, j :: 0 <= i < j < |files| ==> cmp(files[i].largest, files[j].smallest) <= 0)
  }

  /** No table of a level deeper than the output's has the key in its range. */
  ghost predicate BaseLevel(cmp: Comparator, at: Place, user: seq<Byte>) {
    forall l, i :: at.level + 2 <= l < |at.levels| && 0 <= i < |at.levels[l]| ==> !Spans(cmp, at.levels[l][i], user)
  }

  class LevelCursors {
    const cmp: Comparator
    const at: Place
    var levelPtrs: array<nat>
    /** The last user key asked for. */
    ghost var asked: Option<seq<Byte>>

    ghost predicate Valid()
      reads this, levelPtrs
    {
      && Ordered(cmp) && |at.levels| == NUM_LEVELS == levelPtrs.Length && at.level + 2 <= NUM_LEVELS
      && (forall l :: at.level + 2 <= l < NUM_LEVELS ==> SortedTables(cmp, at.levels[l]))
      && (forall l :: 0 <= l < NUM_LEVELS ==> Passed(l))
    }

    /** The tables before the cursor of a level lie before every key that may still be asked for. */
    ghost predicate Passed(l: nat)
      requires l < |at.levels| && l < levelPtrs.Length
      reads this, levelPtrs
    {
      && levelPtrs[l] <= |at.levels[l]|
      && (asked == None ==> levelPtrs[l] == 0)
      && (asked.Some? ==> forall i :: 0 <= i < levelPtrs[l] ==> cmp(at.levels[l][i].largest, asked.value) < 0)
    }

    constructor (cmp: Comparator, at: Place)
      requires Ordered(cmp) && |at.levels| == NUM_LEVELS && at.level + 2 <= NUM_LEVELS
      requires forall l :: at.level + 2 <= l < NUM_LEVELS ==> SortedTables(cmp, at.levels[l])
      ensures Valid() && this.cmp == cmp && this.at == at && asked == None
      ensures fresh(levelPtrs)
    {
      this.cmp, this.at, asked := cmp, at, None;
      levelPtrs := new nat[NUM_LEVELS](_ => 0);
    }

    /** Later keys may not be before this one. */
    ghost method Ask(user: seq<Byte>)
      requires Valid() && (asked.Some? ==> cmp(asked.value, user) <= 0)
      modifies this`asked
      ensures Valid() && asked == Some(user)
    {
      hide Ordered;
      forall l | 0 <= l < NUM_LEVELS
        ensures levelPtrs[l] <= |at.levels[l]|
        ensures forall i :: 0 <= i < levelPtrs[l] ==> cmp(at.levels[l][i].largest, user) < 0
      {
        assert Passed(l);
        forall i | 0 <= i < levelPtrs[l] ensures cmp(at.levels[l][i].largest, user) < 0 {
          Transitive(cmp, at.levels[l][i].largest, asked.value, user);
        }
      }
      asked := Some(user);
    }

    /** Moves the cursor of a level on to the first table that does not end before the key. */
    method FindOnLevel(l: nat, user: seq<Byte>) returns (found: bool)
      requires Valid() && asked == Some(user) && at.level + 2 <= l < NUM_LEVELS
      modifies levelPtrs
      ensures Valid()
      ensures found <==> exists i :: 0 <= i < |at.levels[l]| && Spans(cmp, at.levels[l][i], user)
    {
      hide Ordered;
      assert Passed(l);
      while levelPtrs[l] < |at.levels[l]|
        invariant Valid() && Passed(l)
        decreases |at.levels[l]| - levelPtrs[l]
      {
        var f := at.levels[l][levelPtrs[l]];
        if cmp(user, f.largest) <= 0 {
          Decides(l, levelPtrs[l], user);
          return cmp(user, f.smallest) >= 0;
        }
        Transitive(cmp, f.largest, user, f.largest);
        MoveOn(l, user);
      }
      forall i | 0 <= i < |at.levels[l]| ensures !Spans(cmp, at.levels[l][i], user) {
        Transitive(cmp, at.levels[l][i].largest, user, user);
      }
      found := false;
    }

    method MoveOn(l: nat, user: seq<Byte>)
      requires Valid() && asked == Some(user) && l < NUM_LEVELS && levelPtrs[l] < |at.levels[l]|
      requires cmp(at.levels[l][levelPtrs[l]].largest, user) < 0
      modifies levelPtrs
      ensures Valid() && levelPtrs[l] == old(levelPtrs[l]) + 1
    {
      hide Ordered, SortedTables;
      assert forall k :: 0 <= k < NUM_LEVELS ==> Passed(k);
      levelPtrs[l] := levelPtrs[l] + 1;
      forall k | 0 <= k < NUM_LEVELS ensures Passed(k) {
        assert old(Passed(k));
      }
    }

    /** If the first table that does not end before the key does not span it, none does. */
    lemma Decides(l: nat, p: nat, user: seq<Byte>)
      requires Valid() && asked == Some(user) && at.level + 2 <= l < NUM_LEVELS && p < |at.levels[l]|
      requires p == levelPtrs[l] && cmp(user, at.levels[l][p].largest) <= 0
      ensures cmp(user, at.levels[l][p].smallest) >= 0 <==>
              exists i :: 0 <= i < |at.levels[l]| && Spans(cmp, at.levels[l][i], user)
    {
      hide Ordered;
      assert Passed(l) && SortedTables(cmp, at.levels[l]);
      var files := at.levels[l];
      Transitive(cmp, user, files[p].smallest, user);
      if cmp(user, files[p].smallest) >= 0 {
        assert Spans(cmp, files[p], user);
      } else {
        forall i | 0 <= i < |files| ensures !Spans(cmp, files[i], user) {
          if i < p {
            Transitive(cmp, files[i].largest, user, user);
          } else if i > p {
            Transitive(cmp, user, files[p].smallest, files[p].largest);
            Transitive(cmp, user, files[p].largest, files[i].smallest);
            Transitive(cmp, user, files[i].smallest, user);
          }
        }
      }
    }

    /** Answers for keys that are asked for in ascending order. */
    method IsBaseLevelForKey(user: seq<Byte>) returns (base: bool)
      requires Valid() && (asked.Some? ==> cmp(asked.value, user) <= 0)
      modifies this`asked, levelPtrs
      ensures Valid() && asked == Some(user)
      ensures base <==> BaseLevel(cmp, at, user)
      ensures base <==> forall l, i :: at.level + 2 <= l < NUM_LEVELS && 0 <= i < |at.levels[l]| ==>
                var f := at.levels[l][i]; cmp(user, f.smallest) < 0 || cmp(user, f.largest) > 0
    {
      Ask(user);
      hide Ordered, Spans;
      for l := at.level + 2 to NUM_LEVELS
        invariant Valid() && asked == Some(user)
        invariant forall k, i :: at.level + 2 <= k < l && 0 <= i < |at.levels[k]| ==> !Spans(cmp, at.levels[k][i], user)
      {
        var found := FindOnLevel(l, user);
        if found {
          Reaches(user);
          return false;
        }
      }
      Reaches(user);
      base := true;
    }

    /** Beside every table below, said with the two ends of its range. */
    lemma Reaches(user: seq<Byte>)
      requires Valid()
      ensures BaseLevel(cmp, at, user) <==>
              forall l, i :: at.level + 2 <= l < NUM_LEVELS && 0 <= i < |at.levels[l]| ==>
                var f := at.levels[l][i]; cmp(user, f.smallest) < 0 || cmp(user, f.largest) > 0
    {
      hide Ordered;
      forall l, i | at.level + 2 <= l < NUM_LEVELS && 0 <= i < |at.levels[l]|
        ensures var f := at.levels[l][i];
                Spans(cmp, f, user) <==> !(cmp(user, f.smallest) < 0 || cmp(user, f.largest) > 0)
      {
        Transitive(cmp, user, at.levels[l][i].smallest, user);
      }
    }
  }

  // ----- Which entries are dropped -----

  /** An entry as the merging iterator delivers it: an internal key, maybe a bad one, and a value. */
  datatype Item = Item(key: seq<Byte>, value: seq<Byte>)
  {
    function Parsed(): Option<Parsed> {
      ParseInternalKey(key)
    }
  }

  /** The merging iterator delivers strictly ascending internal keys. */
  ghost predicate Ascending(cmp: Comparator, items: seq<Item>) {
    && (forall i :: 0 <= i < |items| ==> |items[i].key| >= 8)
    && (forall i, j :: 0 <= i < j < |items| ==> Compare(cmp, items[i].key, items[j].key) < 0)
  }

  /** The item before this one is for the same user key. */
  predicate SameUser(cmp: Comparator, items: seq<Item>, i: nat)
    requires i < |items|
  {
    i > 0 && items[i - 1].Parsed().Some? && items[i].Parsed().Some?
    && cmp(items[i].Parsed().value.user, items[i - 1].Parsed().value.user) == 0
  }

  /** last_sequence_for_key when item i is reached. */
  function LastSequence(cmp: Comparator, items: seq<Item>, i: nat): nat
    requires i < |items|
  {
    if SameUser(cmp, items, i) then items[i - 1].Parsed().value.sequence else MAX_SEQUENCE
  }

  /** A newer entry for its user key is old enough for every reader to see, or it is a deletion that is that old and
      has nothing left to delete. */
  ghost predicate Dropped(cmp: Comparator, items: seq<Item>, i: nat, smallest: nat, at: Place)
    requires i < |items|
  {
    var p := items[i].Parsed();
    p.Some? && (|| LastSequence(cmp, items, i) <= smallest
                || (p.value.kind == Deletion && p.value.sequence <= smallest && BaseLevel(cmp, at, p.value.user)))
  }

  /** What is left of the first n items. */
  ghost function Kept(cmp: Comparator, items: seq<Item>, n: nat, smallest: nat, at: Place): seq<Item>
    requires n <= |items|
  {
    if n == 0 then []
    else
      Kept(cmp, items, n - 1, smallest, at) +
      if Dropped(cmp, items, n - 1, smallest, at) then [] else [items[n - 1]]
  }

  // ----- The compaction -----

  datatype Output = Output(smallest: seq<Byte>, largest: seq<Byte>, entries: seq<Item>)
  {
    predicate Bounded() {
      entries != [] && smallest == entries[0].key && largest == entries[|entries| - 1].key
    }
  }

  /** An entry goes to the table that is being built, or to a new one. */
  function Placed(outputs: seq<Output>, building: bool, item: Item): (r: seq<Output>)
    requires building ==> outputs != []
    ensures r != []
  {
    if building then
      var o := outputs[|outputs| - 1];
      var smallest := if o.entries == [] then item.key else o.smallest;
      outputs[..|outputs| - 1] + [Output(smallest, item.key, o.entries + [item])]
    else outputs + [Output(item.key, item.key, [item])]
  }

  lemma PlacedInNew(outputs: seq<Output>, item: Item)
    ensures Placed(outputs + [Output([], [], [])], true, item) == Placed(outputs, false, item)
  {
    assert (outputs + [Output([], [], [])])[..|outputs|] == outputs && [] + [item] == [item];
  }

  /** No table goes on once it is big enough. */
  ghost predicate Small(outputs: seq<Output>, building: bool, bigEnough: seq<Item> -> bool) {
    && (forall o <- outputs, k :: 0 < k < |o.entries| ==> !bigEnough(o.entries[..k]))
    && (building && outputs != [] ==>
          var last := outputs[|outputs| - 1]; last.entries == [] || !bigEnough(last.entries))
  }

  lemma NoneYet(bigEnough: seq<Item> -> bool)
    ensures Small([], false, bigEnough)
  {
  }

  lemma SmallClosed(outputs: seq<Output>, bigEnough: seq<Item> -> bool)
    requires Small(outputs, true, bigEnough)
    ensures Small(outputs, false, bigEnough)
  {
  }

  lemma PlacedSmall(outputs: seq<Output>, building: bool, item: Item, bigEnough: seq<Item> -> bool, more: bool)
    requires Small(outputs, building, bigEnough) && (building ==> outputs != [])
    requires var placed := Placed(outputs, building, item); more ==> !bigEnough(placed[|placed| - 1].entries)
    ensures Small(Placed(outputs, building, item), more, bigEnough)
  {
    var placed := Placed(outputs, building, item);
    var last := placed[|placed| - 1];
    forall o, k | o in placed && 0 < k < |o.entries| ensures !bigEnough(o.entries[..k]) {
      if o !in outputs {
        assert o == last;
        if building {
          var before := outputs[|outputs| - 1].entries;
          assert last.entries[..k] == if k < |before| then before[..k] else before;
        }
      }
    }
  }

  lemma EmptySmall(outputs: seq<Output>, bigEnough: seq<Item> -> bool)
    requires Small(outputs, false, bigEnough)
    ensures Small(outputs + [Output([], [], [])], false, bigEnough)
  {
  }

  function Flattened(outputs: seq<Output>): seq<Item> {
    if outputs == [] then [] else Flattened(outputs[..|outputs| - 1]) + outputs[|outputs| - 1].entries
  }

  // ----- Where one table ends and the next begins -----

  /** What decides where tables end: how large they may become, and before which keys they have to. */
  datatype Limits = Limits(bigEnough: seq<Item> -> bool, stopBefore: seq<Byte> -> bool)

  /** The input of a compaction, and which part of it is dropped. */
  datatype Input = Input(cmp: Comparator, items: seq<Item>, smallest: nat, at: Place)
  {
    ghost function KeptUpTo(n: nat): seq<Item>
      requires n <= |items|
    {
      Kept(cmp, items, n, smallest, at)
    }
  }

  /** The j-th table ends where it does for a reason: it is big enough, or the input ends, or the next item of the input
      must not follow in the same table. */
  ghost predicate EndsRightly(input: Input, outputs: seq<Output>, limits: Limits, j: nat)
    requires j < |outputs|
  {
    exists n: nat ::
      && n <= |input.items| && Flattened(outputs[..j + 1]) == input.KeptUpTo(n)
      && (limits.bigEnough(outputs[j].entries) || n == |input.items| || limits.stopBefore(input.items[n].key))
  }

  /** Every table that is closed ended rightly, and no entry follows another before which the table had to end. */
  ghost predicate Cut(input: Input, outputs: seq<Output>, building: bool, limits: Limits) {
    && (building ==> outputs != [])
    && (forall o <- outputs, k :: 0 < k < |o.entries| ==> !limits.stopBefore(o.entries[k].key))
    && (forall j :: 0 <= j < |outputs| - (if building then 1 else 0) ==> EndsRightly(input, outputs, limits, j))
  }

  lemma NotCutYet(input: Input, limits: Limits)
    ensures Cut(input, [], false, limits)
  {
  }

  /** The table being built is closed after n items of the input. */
  lemma CutHere(input: Input, outputs: seq<Output>, limits: Limits, n: nat)
    requires Cut(input, outputs, true, limits) && n <= |input.items| && Flattened(outputs) == input.KeptUpTo(n)
    requires limits.bigEnough(outputs[|outputs| - 1].entries) || n == |input.items| ||
             limits.stopBefore(input.items[n].key)
    ensures Cut(input, outputs, false, limits)
  {
    hide Kept, Flattened, EndsRightly, Cut;
    OneTable(input, outputs, limits);
    LastEndsRightly(input, outputs, limits, n);
    LastIsCut(input, outputs, limits);
  }

  lemma OneTable(input: Input, outputs: seq<Output>, limits: Limits)
    requires Cut(input, outputs, true, limits)
    ensures outputs != []
  {
  }

  lemma LastIsCut(input: Input, outputs: seq<Output>, limits: Limits)
    requires Cut(input, outputs, true, limits) && outputs != []
    requires EndsRightly(input, outputs, limits, |outputs| - 1)
    ensures Cut(input, outputs, false, limits)
  {
    hide EndsRightly;
  }

  lemma LastEndsRightly(input: Input, outputs: seq<Output>, limits: Limits, n: nat)
    requires outputs != [] && n <= |input.items| && Flattened(outputs) == input.KeptUpTo(n)
    requires limits.bigEnough(outputs[|outputs| - 1].entries) || n == |input.items| ||
             limits.stopBefore(input.items[n].key)
    ensures EndsRightly(input, outputs, limits, |outputs| - 1)
  {
    hide Kept, Flattened;
    assert outputs[..|outputs| - 1 + 1] == outputs;
  }

  lemma PlacedCut(input: Input, outputs: seq<Output>, building: bool, item: Item, limits: Limits)
    requires Cut(input, outputs, building, limits) && (building ==> !limits.stopBefore(item.key))
    ensures Cut(input, Placed(outputs, building, item), true, limits)
  {
    hide Kept, Flattened;
    var placed := Placed(outputs, building, item);
    var m := |placed| - 1;
    assert placed[..m] == outputs[..m];
    forall o, k | o in placed && 0 < k < |o.entries| ensures !limits.stopBefore(o.entries[k].key) {
      if o !in outputs {
        assert o == placed[m];
        if building {
          var before := outputs[m].entries;
          assert o.entries[k] == if k < |before| then before[k] else item;
        }
      }
    }
    forall j | 0 <= j < m ensures EndsRightly(input, placed, limits, j) {
      assert EndsRightly(input, outputs, limits, j);
      assert placed[..j + 1] == outputs[..j + 1] && placed[j] == outputs[j];
    }
  }

  class CompactionState {
    const smallestSnapshot: nat
    var outputs: seq<Output>
    var building: bool

    /** Every table but one that was just begun has entries, and its bounds are the first and the last of them. */
    ghost predicate Valid()
      reads this
    {
      && (building ==> outputs != [])
      && forall i :: 0 <= i < |outputs| ==>
           outputs[i].Bounded() || (building && i == |outputs| - 1 && outputs[i].entries == [])
    }

    constructor (smallestSnapshot: nat)
      ensures Valid() && outputs == [] && !building && this.smallestSnapshot == smallestSnapshot
    {
      this.smallestSnapshot, outputs, building := smallestSnapshot, [], false;
    }

    /** Whether the file can be opened is not up to us; the output is listed in any case. */
    method OpenOutputFile(opens: bool) returns (ok: bool)
      requires Valid() && !building
      modifies this
      ensures ok == building == opens && (ok ==> Valid())
      ensures Flattened(outputs) == Flattened(old(outputs)) && outputs == old(outputs) + [Output([], [], [])]
    {
      outputs := outputs + [Output([], [], [])];
      building := opens;
      ok := opens;
      assert outputs[..|outputs| - 1] == old(outputs);
    }

    method FinishOutputFile(finishes: bool) returns (ok: bool)
      requires Valid() && building && outputs[|outputs| - 1].entries != []
      modifies this`building
      ensures Valid() && !building && ok == finishes
    {
      building := false;
      ok := finishes;
    }

    method Add(item: Item)
      requires Valid() && building
      modifies this`outputs
      ensures Valid() && Flattened(outputs) == Flattened(old(outputs)) + [item]
      ensures outputs[|outputs| - 1].entries != [] && outputs == Placed(old(outputs), true, item)
    {
      var rest, current := outputs[..|outputs| - 1], outputs[|outputs| - 1];
      if current.entries == [] {
        current := current.(smallest := item.key);
      }
      current := current.(largest := item.key);
      current := current.(entries := current.entries + [item]);
      outputs := rest + [current];
      assert outputs[..|outputs| - 1] == rest;
    }

    /** Adds an entry to the current table, beginning one if there is none, and closes it when it is big enough. */
    method Emit(item: Item, bigEnough: seq<Item> -> bool, opens: bool, finishes: bool) returns (ok: bool)
      requires Valid() && (building ==> outputs[|outputs| - 1].entries != [])
      modifies this
      ensures ok ==> Valid() && (building ==> outputs[|outputs| - 1].entries != [])
      ensures opens && finishes ==> ok
      ensures if opens || old(building)
              then
                && outputs == Placed(old(outputs), old(building), item)
                && Flattened(outputs) == Flattened(old(outputs)) + [item]
                && building == !bigEnough(outputs[|outputs| - 1].entries) && (ok == (building || finishes))
              else
                && Flattened(outputs) == Flattened(old(outputs)) && outputs == old(outputs) + [Output([], [], [])]
                && !ok
    {
      if !building {
        ok := OpenOutputFile(opens);
        if !ok { return; }
        PlacedInNew(old(outputs), item);
      }
      Add(item);
      ok := true;
      if bigEnough(outputs[|outputs| - 1].entries) {
        ok := FinishOutputFile(finishes);
      }
    }
  }

  /** The user key the loop is at and the sequence number of the last entry it met for it. */
  datatype Current = Current(user: Option<seq<Byte>>, lastSequence: nat)

  /** What the loop remembers after n items. */
  ghost predicate Remembers(cmp: Comparator, items: seq<Item>, n: nat, c: Current)
    requires n <= |items|
  {
    if n > 0 && items[n - 1].Parsed().Some? then
      && c.user.Some? && cmp(items[n - 1].Parsed().value.user, c.user.value) == 0
      && c.lastSequence == items[n - 1].Parsed().value.sequence
    else c.user == None
  }

  lemma SameAsCurrent(cmp: Comparator, items: seq<Item>, n: nat, c: Current, user: seq<Byte>)
    requires Ordered(cmp) && n < |items| && Remembers(cmp, items, n, c)
    requires items[n].Parsed().Some? && items[n].Parsed().value.user == user
    ensures (c.user.Some? && cmp(user, c.user.value) == 0) <==> SameUser(cmp, items, n)
    ensures SameUser(cmp, items, n) ==> c.lastSequence == items[n - 1].Parsed().value.sequence
  {
    hide Ordered;
    if c.user.Some? {
      var before := items[n - 1].Parsed().value.user;
      Transitive(cmp, user, before, c.user.value);
      Transitive(cmp, c.user.value, before, user);
      Transitive(cmp, user, c.user.value, before);
      Transitive(cmp, before, c.user.value, user);
      Transitive(cmp, before, user, before);
    }
  }

  /** The loop's decision on one item. */
  method Examine(cursors: LevelCursors, items: seq<Item>, i: nat, c: Current, smallest: nat)
    returns (drop: bool, c': Current)
    requires cursors.Valid() && Ascending(cursors.cmp, items) && i < |items| && Remembers(cursors.cmp, items, i, c)
    requires MayAsk(cursors, items, i)
    modifies cursors, cursors.levelPtrs
    ensures cursors.Valid() && cursors.levelPtrs == old(cursors.levelPtrs)
    ensures drop <==> Dropped(cursors.cmp, items, i, smallest, cursors.at)
    ensures Remembers(cursors.cmp, items, i + 1, c') && MayAsk(cursors, items, i + 1)
  {
    var cmp := cursors.cmp;
    var parsed := items[i].Parsed();
    if parsed == None {
      return false, Current(None, MAX_SEQUENCE);
    }
    var user, sequence := parsed.value.user, parsed.value.sequence;
    SameAsCurrent(cmp, items, i, c, user);
    c' := c;
    if c.user == None || cmp(user, c.user.value) != 0 {
      c' := Current(Some(user), MAX_SEQUENCE);
    }
    drop := false;
    if c'.lastSequence <= smallest {
      drop := true;
    } else if parsed.value.kind == Deletion && sequence <= smallest {
      drop := cursors.IsBaseLevelForKey(user);
      UsersAscend(cmp, items, i);
    }
    c' := c'.(lastSequence := sequence);
    assert cmp(user, user) == 0;
  }

  /** The user keys from item n on may still be asked for. */
  ghost predicate MayAsk(cursors: LevelCursors, items: seq<Item>, n: nat)
    reads cursors
  {
    cursors.asked.Some? ==>
      forall j :: n <= j < |items| ==> cursors.cmp(cursors.asked.value, UserOf(items[j].key)) <= 0
  }

  lemma UsersAscend(cmp: Comparator, items: seq<Item>, i: nat)
    requires Ordered(cmp) && Ascending(cmp, items) && i < |items|
    ensures forall j :: i <= j < |items| ==> cmp(UserOf(items[i].key), UserOf(items[j].key)) <= 0
  {
  }

  /** What happens around a compaction: which of the output files open and finish, whether the database is shutting down
      when it comes to an entry, and whether the input could be read to its end. */
  datatype World = World(opens: nat -> bool, finishes: nat -> bool, shuttingDown: nat -> bool, inputOk: bool)

  /** Merges the input, sorted, into new tables, without the entries that are dropped. stopBefore and bigEnough decide
      where one table ends and the next begins. Unless all went well nothing is installed. */
  method DoCompactionWork(cursors: LevelCursors, items: seq<Item>, smallestSnapshot: nat,
                          stopBefore: seq<Byte> -> bool, bigEnough: seq<Item> -> bool, world: World)
    returns (ok: bool, outputs: seq<Output>)
    requires cursors.Valid() && cursors.asked == None && Ascending(cursors.cmp, items)
    modifies cursors, cursors.levelPtrs
    ensures ok ==> Flattened(outputs) == Kept(cursors.cmp, items, |items|, smallestSnapshot, cursors.at)
    ensures ok ==> forall o <- outputs :: o.Bounded()
    ensures Small(outputs, false, bigEnough)
    ensures ok ==>
              var input := Input(cursors.cmp, items, smallestSnapshot, cursors.at);
              Cut(input, outputs, false, Limits(bigEnough, stopBefore))
    ensures exists n ::
              0 <= n <= |items| && Flattened(outputs) == Kept(cursors.cmp, items, n, smallestSnapshot, cursors.at)
    ensures (forall k :: world.opens(k) && world.finishes(k) && !world.shuttingDown(k)) && world.inputOk ==> ok
  {
    hide Ordered, Ascending, Remembers, Dropped, Flattened, Placed, Small, Cut;
    ghost var input, limits := Input(cursors.cmp, items, smallestSnapshot, cursors.at), Limits(bigEnough, stopBefore);
    NothingFlattened();
    NoneYet(bigEnough);
    NotCutYet(input, limits);
    var compact := new CompactionState(smallestSnapshot);
    var c := Current(None, MAX_SEQUENCE);
    assert Remembers(cursors.cmp, items, 0, c) by { RemembersNothing(cursors.cmp, items); }
    var i := 0;
    ok := true;
    ghost var n := 0;
    while ok && i < |items| && !world.shuttingDown(i)
      invariant 0 <= i <= |items| && 0 <= n <= |items| && (ok ==> n == i)
      invariant fresh(compact) && compact.smallestSnapshot == smallestSnapshot
      invariant cursors.Valid() && cursors.levelPtrs == old(cursors.levelPtrs) && MayAsk(cursors, items, i)
      invariant ok ==> Remembers(cursors.cmp, items, i, c) && compact.Valid()
      invariant ok && compact.building ==> compact.outputs[|compact.outputs| - 1].entries != []
      invariant Flattened(compact.outputs) == Kept(cursors.cmp, items, n, smallestSnapshot, cursors.at)
      invariant !ok ==> exists k :: !world.opens(k) || !world.finishes(k)
      invariant Small(compact.outputs, ok && compact.building, bigEnough)
      invariant ok ==> Cut(input, compact.outputs, compact.building, limits)
      decreases |items| - i, ok
    {
      ok, c := CompactOne(compact, cursors, items, i, c, stopBefore, bigEnough, world);
      i := i + 1;
      if ok || Flattened(compact.outputs) == Kept(cursors.cmp, items, i, smallestSnapshot, cursors.at) {
        n := i;
      }
    }
    if ok && compact.building { SmallClosed(compact.outputs, bigEnough); }
    ok := ok && !world.shuttingDown(i);
    if ok && compact.building {
      CutHere(input, compact.outputs, limits, |items|);
      ok := compact.FinishOutputFile(world.finishes(|compact.outputs|));
    }
    ok := ok && world.inputOk;
    outputs := compact.outputs;
  }

  lemma AskLater(cursors: LevelCursors, items: seq<Item>, i: nat)
    requires MayAsk(cursors, items, i)
    ensures MayAsk(cursors, items, i + 1)
  {
  }

  /** One turn of the loop: the table so far may end before the entry, which is dropped or added. */
  method CompactOne(compact: CompactionState, cursors: LevelCursors, items: seq<Item>, i: nat, c: Current,
                    stopBefore: seq<Byte> -> bool, bigEnough: seq<Item> -> bool, world: World)
    returns (ok: bool, c': Current)
    requires cursors.Valid() && Ascending(cursors.cmp, items) && i < |items| && Remembers(cursors.cmp, items, i, c)
    requires MayAsk(cursors, items, i) && compact.Valid()
    requires compact.building ==> compact.outputs[|compact.outputs| - 1].entries != []
    requires Small(compact.outputs, compact.building, bigEnough)
    requires var input := Input(cursors.cmp, items, compact.smallestSnapshot, cursors.at);
             && Flattened(compact.outputs) == input.KeptUpTo(i)
             && Cut(input, compact.outputs, compact.building, Limits(bigEnough, stopBefore))
    modifies compact, cursors, cursors.levelPtrs
    ensures Small(compact.outputs, ok && compact.building, bigEnough)
    ensures ok ==> Cut(Input(cursors.cmp, items, compact.smallestSnapshot, cursors.at), compact.outputs,
                       compact.building, Limits(bigEnough, stopBefore))
    ensures cursors.Valid() && cursors.levelPtrs == old(cursors.levelPtrs) && MayAsk(cursors, items, i + 1)
    ensures ok ==> Remembers(cursors.cmp, items, i + 1, c') && compact.Valid()
    ensures ok && compact.building ==> compact.outputs[|compact.outputs| - 1].entries != []
    ensures var kept := if Dropped(cursors.cmp, items, i, compact.smallestSnapshot, cursors.at) then [] else [items[i]];
            || Flattened(compact.outputs) == Flattened(old(compact.outputs)) + kept
            || (!ok && Flattened(compact.outputs) == Flattened(old(compact.outputs)))
    ensures !ok ==> exists k :: !world.opens(k) || !world.finishes(k)
  {
    hide Ordered, Ascending, Remembers, Dropped, Flattened, Placed, Small, Cut;
    ghost var input, limits := Input(cursors.cmp, items, compact.smallestSnapshot, cursors.at),
                               Limits(bigEnough, stopBefore);
    ok, c' := true, c;
    if stopBefore(items[i].key) && compact.building {
      SmallClosed(compact.outputs, bigEnough);
      CutHere(input, compact.outputs, limits, i);
      ok := compact.FinishOutputFile(world.finishes(|compact.outputs|));
      if !ok {
        AskLater(cursors, items, i);
        return;
      }
    }
    var drop;
    drop, c' := Examine(cursors, items, i, c, compact.smallestSnapshot);
    if !drop {
      var opens := world.opens(|compact.outputs|);
      var finishes := world.finishes(|compact.outputs| + if compact.building then 0 else 1);
      ghost var before, building := compact.outputs, compact.building;
      ok := compact.Emit(items[i], bigEnough, opens, finishes);
      if opens || building {
        PlacedSmall(before, building, items[i], bigEnough, ok && compact.building);
        PlacedCut(input, before, building, items[i], limits);
        if !compact.building {
          CutHere(input, compact.outputs, limits, i + 1);
        }
      } else {
        EmptySmall(before, bigEnough);
      }
    } else {
      assert Flattened(compact.outputs) + [] == Flattened(compact.outputs);
    }
  }

  lemma NothingFlattened()
    ensures Flattened([]) == []
  {
  }

  lemma RemembersNothing(cmp: Comparator, items: seq<Item>)
    ensures Remembers(cmp, items, 0, Current(None, MAX_SEQUENCE))
  {
  }
}

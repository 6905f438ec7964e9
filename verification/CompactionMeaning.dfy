/** What compaction leaves unchanged: the answer of every key at every snapshot that may still be read. */
module CompactionMeaning {
  import opened Bytes
  import opened SkipLists
  import opened DbFormat
  import opened MemTables
  import opened WriteBatches
  import opened Compaction

  // ----- What a reader sees in a set of entries -----

  ghost predicate Latest(cmp: Comparator, entries: set<Entry>, user: seq<Byte>, s: nat, e: Entry) {
    e in entries && Visible(cmp, e, user, s) &&
    forall f <- entries :: Visible(cmp, f, user, s) ==> f.sequence <= e.sequence
  }

  /** The value a reader at sequence number s finds for a user key, from wherever the entries are kept. */
  ghost function Read(cmp: Comparator, entries: set<Entry>, user: seq<Byte>, s: nat): Option<seq<Byte>> {
    if e :| Latest(cmp, entries, user, s, e) then if e.kind == Value then Some(e.value) else None else None
  }

  /** No two entries for one user key have the same sequence number. */
  ghost predicate Distinct(cmp: Comparator, entries: set<Entry>) {
    forall e <- entries, f <- entries :: cmp(e.user, f.user) == 0 && e.sequence == f.sequence ==> e == f
  }

  lemma {:induction false} LatestExists(cmp: Comparator, entries: set<Entry>, user: seq<Byte>, s: nat, f: Entry)
    requires f in entries && Visible(cmp, f, user, s)
    ensures exists e :: Latest(cmp, entries, user, s, e)
    decreases |entries|
  {
    if forall g <- entries :: Visible(cmp, g, user, s) ==> g.sequence <= f.sequence {
      assert Latest(cmp, entries, user, s, f);
    } else {
      var g :| g in entries && Visible(cmp, g, user, s) && g.sequence > f.sequence;
      var rest := entries - {f};
      LatestExists(cmp, rest, user, s, g);
      var e :| Latest(cmp, rest, user, s, e);
      assert entries == rest + {f};
      assert g in rest;
      assert Latest(cmp, entries, user, s, e);
    }
  }

  lemma LatestUnique(cmp: Comparator, entries: set<Entry>, user: seq<Byte>, s: nat, e: Entry, f: Entry)
    requires Ordered(cmp) && Distinct(cmp, entries)
    requires Latest(cmp, entries, user, s, e) && Latest(cmp, entries, user, s, f)
    ensures e == f
  {
    hide Ordered;
    Transitive(cmp, e.user, user, f.user);
    Transitive(cmp, f.user, user, e.user);
    Transitive(cmp, user, e.user, f.user);
    Transitive(cmp, user, f.user, e.user);
    Transitive(cmp, f.user, e.user, f.user);
  }

  function ValueOf(e: Entry): Option<seq<Byte>> {
    if e.kind == Value then Some(e.value) else None
  }

  /** Read is decided by any latest entry there is. */
  lemma ReadIs(cmp: Comparator, entries: set<Entry>, user: seq<Byte>, s: nat, e: Entry)
    requires Ordered(cmp) && Distinct(cmp, entries) && Latest(cmp, entries, user, s, e)
    ensures Read(cmp, entries, user, s) == ValueOf(e)
  {
    hide Ordered, Distinct;
    forall f | Latest(cmp, entries, user, s, f) ensures e == f {
      LatestUnique(cmp, entries, user, s, e, f);
    }
  }

  lemma ReadIsNone(cmp: Comparator, entries: set<Entry>, user: seq<Byte>, s: nat)
    requires forall f <- entries :: !Visible(cmp, f, user, s)
    ensures Read(cmp, entries, user, s) == None
  {
  }

  // ----- The input and the output of a compaction -----

  /** Every key of the input is a good one. */
  ghost predicate AllGood(items: seq<Item>) {
    forall item <- items :: item.Parsed().Some?
  }

  function EntryOf(item: Item): Entry
    requires item.Parsed().Some?
  {
    var p := item.Parsed().value;
    Entry(p.user, p.sequence, p.kind, item.value)
  }

  ghost function Entries(items: seq<Item>): set<Entry>
    requires AllGood(items)
  {
    set item <- items :: EntryOf(item)
  }

  ghost function Survivors(cmp: Comparator, items: seq<Item>, smallest: nat, at: Place): seq<Item> {
    Kept(cmp, items, |items|, smallest, at)
  }

  /** The output has the items that are not dropped, and no others. */
  lemma {:induction false} KeptElements(cmp: Comparator, items: seq<Item>, n: nat, smallest: nat, at: Place)
    requires n <= |items|
    ensures forall item :: item in Kept(cmp, items, n, smallest, at) <==>
              exists i :: 0 <= i < n && !Dropped(cmp, items, i, smallest, at) && items[i] == item
  {
    hide Dropped;
    if n > 0 {
      KeptElements(cmp, items, n - 1, smallest, at);
    }
  }

  /** An item whose key is a bad one is never dropped. */
  lemma BadKeysKept(cmp: Comparator, items: seq<Item>, smallest: nat, at: Place, item: Item)
    requires item in items && item.Parsed() == None
    ensures item in Survivors(cmp, items, smallest, at)
  {
    KeptElements(cmp, items, |items|, smallest, at);
    var i :| 0 <= i < |items| && items[i] == item;
    assert !Dropped(cmp, items, i, smallest, at);
  }

  lemma OutputGood(cmp: Comparator, items: seq<Item>, smallest: nat, at: Place)
    requires AllGood(items)
    ensures AllGood(Survivors(cmp, items, smallest, at))
    ensures Entries(Survivors(cmp, items, smallest, at)) <= Entries(items)
  {
    hide Dropped;
    KeptElements(cmp, items, |items|, smallest, at);
  }

  /** What is elsewhere for a user key with nothing on deeper levels is newer than what is compacted here. */
  ghost predicate RestIsNewer(cmp: Comparator, rest: set<Entry>, items: seq<Item>, at: Place)
    requires AllGood(items)
  {
    forall e <- rest, item <- items ::
      cmp(e.user, EntryOf(item).user) == 0 && BaseLevel(cmp, at, EntryOf(item).user) ==>
        e.sequence > EntryOf(item).sequence
  }

  lemma PartsOf(item: Item)
    requires item.Parsed().Some?
    ensures |item.key| >= 8 && UserOf(item.key) == EntryOf(item).user &&
            EntryOf(item).sequence == TagOf(item.key) / 0x100
  {
  }

  /** Of two items for one user key the later one is older, and so are all between them for that key. */
  lemma Descends(cmp: Comparator, items: seq<Item>, i: nat, m: nat, j: nat)
    requires Ordered(cmp) && Ascending(cmp, items) && AllGood(items) && i <= m <= j < |items|
    requires cmp(EntryOf(items[i]).user, EntryOf(items[j]).user) == 0
    ensures cmp(EntryOf(items[i]).user, EntryOf(items[m]).user) == 0
    ensures EntryOf(items[i]).sequence >= EntryOf(items[m]).sequence >= EntryOf(items[j]).sequence
  {
    PartsOf(items[i]);
    PartsOf(items[m]);
    PartsOf(items[j]);
    var a, b, c := UserOf(items[i].key), UserOf(items[m].key), UserOf(items[j].key);
    hide EntryOf, UserOf, TagOf, ParseInternalKey;
    assert i < m ==> Compare(cmp, items[i].key, items[m].key) < 0;
    assert m < j ==> Compare(cmp, items[m].key, items[j].key) < 0;
    assert cmp(a, b) <= 0 && cmp(b, c) <= 0;
    hide Ordered, Ascending;
    Transitive(cmp, a, b, c);
    Transitive(cmp, b, c, a);
    Transitive(cmp, c, a, b);
  }

  /** Two items for one user key with the same sequence number are one item. */
  lemma SameSequence(cmp: Comparator, items: seq<Item>, i: nat, j: nat)
    requires AllGood(items) && i < |items| && j < |items| && Distinct(cmp, Entries(items))
    requires cmp(EntryOf(items[i]).user, EntryOf(items[j]).user) == 0 &&
             EntryOf(items[i]).sequence == EntryOf(items[j]).sequence
    ensures EntryOf(items[i]) == EntryOf(items[j])
  {
    assert items[i] in items && items[j] in items;
  }

  // ----- Nothing a reader may still see is lost -----

  /** An entry for the same user key just before this one is newer. */
  lemma NewerBefore(cmp: Comparator, items: seq<Item>, i: nat)
    requires Ordered(cmp) && Ascending(cmp, items) && AllGood(items) && 0 < i < |items| && Distinct(cmp, Entries(items))
    requires cmp(EntryOf(items[i]).user, EntryOf(items[i - 1]).user) == 0
    ensures EntryOf(items[i - 1]).sequence > EntryOf(items[i]).sequence
  {
    var e, d := EntryOf(items[i]), EntryOf(items[i - 1]);
    hide EntryOf, Item.Parsed;
    Flip(cmp, e.user, d.user);
    Descends(cmp, items, i - 1, i, i);
    NotSame(cmp, items, i - 1, i);
    assert items[i - 1] in items && items[i] in items;
  }

  /** A dropped item that is the latest at a snapshot is a deletion that was dropped for its own sake. */
  lemma DroppedLatest(cmp: Comparator, all: set<Entry>, items: seq<Item>, i: nat, smallest: nat, at: Place,
                      user: seq<Byte>, s: nat)
    requires Ordered(cmp) && Ascending(cmp, items) && AllGood(items) && i < |items|
    requires Entries(items) <= all && Distinct(cmp, all) && smallest <= s && smallest < MAX_SEQUENCE
    requires Dropped(cmp, items, i, smallest, at) && Latest(cmp, all, user, s, EntryOf(items[i]))
    ensures var e := EntryOf(items[i]); e.kind == Deletion && e.sequence <= smallest && BaseLevel(cmp, at, e.user)
  {
    if SameUser(cmp, items, i) && EntryOf(items[i - 1]).sequence <= smallest {
      var e, d := EntryOf(items[i]), EntryOf(items[i - 1]);
      assert items[i - 1] in items && d in all;
      NewerBefore(cmp, items, i);
      Flip(cmp, e.user, d.user);
      Transfer(cmp, d.user, e.user, user);
    }
  }

  lemma Flip(cmp: Comparator, a: seq<Byte>, b: seq<Byte>)
    requires Ordered(cmp) && cmp(a, b) == 0
    ensures cmp(b, a) == 0
  {
  }

  lemma Transfer(cmp: Comparator, a: seq<Byte>, b: seq<Byte>, c: seq<Byte>)
    requires Ordered(cmp) && cmp(a, b) == 0 && cmp(b, c) == 0
    ensures cmp(a, c) == 0
  {
    hide Ordered;
    Transitive(cmp, a, b, c);
    Transitive(cmp, c, b, a);
    Transitive(cmp, b, c, b);
    Transitive(cmp, a, b, a);
    Transitive(cmp, c, a, c);
    Transitive(cmp, a, c, b);
    Transitive(cmp, c, a, b);
  }

  /** Different items are different entries. */
  lemma NotSame(cmp: Comparator, items: seq<Item>, i: nat, j: nat)
    requires Ordered(cmp) && Ascending(cmp, items) && AllGood(items) && i < j < |items|
    ensures EntryOf(items[i]) != EntryOf(items[j])
  {
    assert Compare(cmp, items[i].key, items[j].key) < 0;
    if EntryOf(items[i]) == EntryOf(items[j]) {
      EqualKeys(cmp, items[i], items[j]);
    }
  }

  lemma EqualKeys(cmp: Comparator, a: Item, b: Item)
    requires Ordered(cmp) && a.Parsed().Some? && b.Parsed().Some? && EntryOf(a) == EntryOf(b)
    ensures Compare(cmp, a.key, b.key) == 0
  {
    PartsOf(a);
    PartsOf(b);
    assert cmp(UserOf(a.key), UserOf(b.key)) == 0;
    hide Ordered;
    SameTag(a, b);
  }

  lemma SameTag(a: Item, b: Item)
    requires a.Parsed().Some? && b.Parsed().Some? && EntryOf(a) == EntryOf(b)
    ensures TagOf(a.key) == TagOf(b.key)
  {
  }

  /** Once an entry is old enough for every reader, only newer ones for its user key are kept beside it. */
  lemma NothingOlder(cmp: Comparator, items: seq<Item>, i: nat, smallest: nat, at: Place, g: Entry)
    requires Ordered(cmp) && Ascending(cmp, items) && AllGood(items) && i < |items| && Distinct(cmp, Entries(items))
    requires var e := EntryOf(items[i]); e.sequence <= smallest && cmp(g.user, e.user) == 0 && g != e
    requires AllGood(Survivors(cmp, items, smallest, at)) && g in Entries(Survivors(cmp, items, smallest, at))
    ensures g.sequence > EntryOf(items[i]).sequence
  {
    var e := EntryOf(items[i]);
    hide Ordered, BaseLevel, EntryOf, Item.Parsed, Ascending, Dropped;
    KeptElements(cmp, items, |items|, smallest, at);
    var item :| item in Survivors(cmp, items, smallest, at) && EntryOf(item) == g;
    var j :| 0 <= j < |items| && !Dropped(cmp, items, j, smallest, at) && items[j] == item;
    Flip(cmp, g.user, e.user);
    if g.sequence <= e.sequence {
      OlderIsDropped(cmp, items, i, j, smallest, at);
    }
  }

  /** Everything for a user key after an entry old enough is dropped. */
  lemma OlderIsDropped(cmp: Comparator, items: seq<Item>, i: nat, j: nat, smallest: nat, at: Place)
    requires Ordered(cmp) && Ascending(cmp, items) && AllGood(items) && i < |items| && j < |items|
    requires Distinct(cmp, Entries(items)) && EntryOf(items[i]) != EntryOf(items[j])
    requires cmp(EntryOf(items[i]).user, EntryOf(items[j]).user) == 0 &&
             cmp(EntryOf(items[j]).user, EntryOf(items[i]).user) == 0
    requires EntryOf(items[j]).sequence <= EntryOf(items[i]).sequence <= smallest
    ensures Dropped(cmp, items, j, smallest, at)
  {
    hide Ordered, BaseLevel, Ascending;
    if j < i {
      Descends(cmp, items, j, i, i);
      SameSequence(cmp, items, i, j);
    } else {
      assert i < j;
      Descends(cmp, items, i, j - 1, j);
      var a, b, c := EntryOf(items[i]).user, EntryOf(items[j - 1]).user, EntryOf(items[j]).user;
      Transfer(cmp, c, a, b);
      assert items[j] in items && items[j - 1] in items;
      assert SameUser(cmp, items, j);
    }
  }

  // ----- What is kept -----

  /** There is a newer entry for the same user key that every reader can see. */
  ghost predicate Shadowed(cmp: Comparator, entries: set<Entry>, e: Entry, smallest: nat) {
    exists d <- entries :: cmp(d.user, e.user) == 0 && e.sequence < d.sequence <= smallest
  }

  /** A deletion that every reader can see, with nothing left to delete. */
  ghost predicate Needless(cmp: Comparator, at: Place, e: Entry, smallest: nat) {
    e.kind == Deletion && e.sequence <= smallest && BaseLevel(cmp, at, e.user)
  }

  /** The loop looks no further back than to the item before; that is enough. */
  lemma DroppedExactly(cmp: Comparator, items: seq<Item>, i: nat, smallest: nat, at: Place)
    requires Ordered(cmp) && Ascending(cmp, items) && AllGood(items) && i < |items| && Distinct(cmp, Entries(items))
    requires smallest < MAX_SEQUENCE
    ensures var e := EntryOf(items[i]);
            Dropped(cmp, items, i, smallest, at) <==>
            Shadowed(cmp, Entries(items), e, smallest) || Needless(cmp, at, e, smallest)
  {
    hide Ordered, BaseLevel, Ascending;
    var e := EntryOf(items[i]);
    assert items[i] in items;
    if SameUser(cmp, items, i) && EntryOf(items[i - 1]).sequence <= smallest {
      var d := EntryOf(items[i - 1]);
      assert items[i - 1] in items;
      NewerBefore(cmp, items, i);
      Flip(cmp, e.user, d.user);
      assert d in Entries(items) && cmp(d.user, e.user) == 0 && e.sequence < d.sequence <= smallest;
    }
    if d :| d in Entries(items) && cmp(d.user, e.user) == 0 && e.sequence < d.sequence <= smallest {
      var item :| item in items && EntryOf(item) == d;
      var j :| 0 <= j < |items| && items[j] == item;
      Flip(cmp, d.user, e.user);
      OlderIsDropped(cmp, items, j, i, smallest, at);
    }
  }

  /** An entry is kept exactly if no newer one for its key is old enough for every reader, and it is not itself a
      deletion that is old enough and has nothing left to delete. */
  lemma KeptExactly(cmp: Comparator, items: seq<Item>, smallest: nat, at: Place, e: Entry)
    requires Ordered(cmp) && Ascending(cmp, items) && AllGood(items) && Distinct(cmp, Entries(items))
    requires smallest < MAX_SEQUENCE && e in Entries(items)
    ensures AllGood(Survivors(cmp, items, smallest, at))
    ensures e in Entries(Survivors(cmp, items, smallest, at)) <==>
            !Shadowed(cmp, Entries(items), e, smallest) && !Needless(cmp, at, e, smallest)
  {
    hide Ordered, BaseLevel, EntryOf, Item.Parsed, Ascending, Dropped, Distinct, Shadowed, Needless;
    OutputGood(cmp, items, smallest, at);
    KeptElements(cmp, items, |items|, smallest, at);
    var item :| item in items && EntryOf(item) == e;
    var i :| 0 <= i < |items| && items[i] == item;
    DroppedExactly(cmp, items, i, smallest, at);
    if e in Entries(Survivors(cmp, items, smallest, at)) {
      var kept :| kept in Survivors(cmp, items, smallest, at) && EntryOf(kept) == e;
      var j :| 0 <= j < |items| && !Dropped(cmp, items, j, smallest, at) && items[j] == kept;
      if i < j { NotSame(cmp, items, i, j); } else if j < i { NotSame(cmp, items, j, i); }
    }
  }

  /** Of the entries for a user key that every reader can see at most one is kept. */
  lemma OneOldEach(cmp: Comparator, items: seq<Item>, smallest: nat, at: Place, e: Entry, f: Entry)
    requires Ordered(cmp) && Ascending(cmp, items) && AllGood(items) && Distinct(cmp, Entries(items))
    requires smallest < MAX_SEQUENCE && AllGood(Survivors(cmp, items, smallest, at))
    requires e in Entries(Survivors(cmp, items, smallest, at)) && f in Entries(Survivors(cmp, items, smallest, at))
    requires cmp(e.user, f.user) == 0 && e.sequence <= smallest && f.sequence <= smallest
    ensures e == f
  {
    hide BaseLevel, EntryOf, Item.Parsed, Ascending, Needless, Survivors, Ordered;
    OutputGood(cmp, items, smallest, at);
    KeptExactly(cmp, items, smallest, at, e);
    KeptExactly(cmp, items, smallest, at, f);
    Flip(cmp, e.user, f.user);
  }

  /** The deletion e is the newest entry for its user key that the smallest snapshot sees, nothing is on deeper levels,
      and without what is compacted here a value would be seen. */
  ghost predicate HidesValue(cmp: Comparator, rest: set<Entry>, items: seq<Item>, smallest: nat, at: Place, e: Entry)
    requires AllGood(items)
  {
    && e.kind == Deletion && BaseLevel(cmp, at, e.user)
    && Latest(cmp, rest + Entries(items), e.user, smallest, e) && Read(cmp, rest, e.user, smallest).Some?
  }

  /** Such a deletion is among what is compacted. */
  ghost predicate ComesBack(cmp: Comparator, rest: set<Entry>, items: seq<Item>, smallest: nat, at: Place)
    requires AllGood(items)
  {
    exists e <- Entries(items) :: HidesValue(cmp, rest, items, smallest, at, e)
  }

  ghost predicate Compactable(cmp: Comparator, rest: set<Entry>, items: seq<Item>) {
    Ordered(cmp) && Ascending(cmp, items) && AllGood(items) && Distinct(cmp, rest + Entries(items))
  }

  /** What there is after the compaction. */
  ghost function Compacted(cmp: Comparator, rest: set<Entry>, items: seq<Item>, smallest: nat, at: Place): set<Entry>
    requires AllGood(items)
  {
    OutputGood(cmp, items, smallest, at);
    rest + Entries(Survivors(cmp, items, smallest, at))
  }

  lemma CompactedIsPart(cmp: Comparator, rest: set<Entry>, items: seq<Item>, smallest: nat, at: Place)
    requires Compactable(cmp, rest, items)
    ensures AllGood(Survivors(cmp, items, smallest, at))
    ensures Compacted(cmp, rest, items, smallest, at) <= rest + Entries(items)
    ensures Distinct(cmp, Compacted(cmp, rest, items, smallest, at)) && Distinct(cmp, rest) &&
            Distinct(cmp, Entries(items))
  {
    hide Ordered, Ascending, Distinct, Dropped;
    OutputGood(cmp, items, smallest, at);
    var all := rest + Entries(items);
    DistinctSubset(cmp, Compacted(cmp, rest, items, smallest, at), all);
    DistinctSubset(cmp, rest, all);
    DistinctSubset(cmp, Entries(items), all);
  }

  /** Replacing the input of a compaction by its output leaves an answer at a snapshot not older than the smallest one
      unchanged, if no value comes back. */
  lemma CompactionKeepsMeaning(cmp: Comparator, rest: set<Entry>, items: seq<Item>, smallest: nat, at: Place,
                               user: seq<Byte>, s: nat)
    requires Compactable(cmp, rest, items) && smallest < MAX_SEQUENCE && smallest <= s
    requires !ComesBack(cmp, rest, items, smallest, at)
    ensures Read(cmp, Compacted(cmp, rest, items, smallest, at), user, s) == Read(cmp, rest + Entries(items), user, s)
  {
    hide Ordered, BaseLevel, EntryOf, Item.Parsed, Ascending, Dropped, Read, Survivors, Distinct, ComesBack, Entries;
    CompactedIsPart(cmp, rest, items, smallest, at);
    var before, after := rest + Entries(items), Compacted(cmp, rest, items, smallest, at);
    hide Compacted;
    if f :| f in before && Visible(cmp, f, user, s) {
      LatestExists(cmp, before, user, s, f);
      var e :| Latest(cmp, before, user, s, e);
      ReadIs(cmp, before, user, s, e);
      if e in after {
        ReadIs(cmp, after, user, s, e);
      } else {
        LatestGone(cmp, rest, items, smallest, at, user, s, e);
      }
    } else {
      ReadIsNone(cmp, before, user, s);
      ReadIsNone(cmp, after, user, s);
    }
  }

  lemma DistinctSubset(cmp: Comparator, a: set<Entry>, b: set<Entry>)
    requires a <= b && Distinct(cmp, b)
    ensures Distinct(cmp, a)
  {
  }

  /** If the latest entry is gone it was a deletion, and no value is left for it to hide. */
  lemma LatestGone(cmp: Comparator, rest: set<Entry>, items: seq<Item>, smallest: nat, at: Place, user: seq<Byte>,
                   s: nat, e: Entry)
    requires Compactable(cmp, rest, items) && smallest < MAX_SEQUENCE && smallest <= s
    requires !ComesBack(cmp, rest, items, smallest, at) && Latest(cmp, rest + Entries(items), user, s, e)
    requires e !in Compacted(cmp, rest, items, smallest, at)
    ensures e.kind == Deletion && Read(cmp, Compacted(cmp, rest, items, smallest, at), user, s) == None
  {
    hide Ordered, BaseLevel, EntryOf, Item.Parsed, Ascending, Dropped, Distinct, Read;
    CompactedIsPart(cmp, rest, items, smallest, at);
    var after := Compacted(cmp, rest, items, smallest, at);
    var i := GoneItem(cmp, rest, items, smallest, at, e);
    DroppedLatest(cmp, rest + Entries(items), items, i, smallest, at, user, s);
    hide Compacted, Survivors, Entries, ComesBack;
    if f :| f in after && Visible(cmp, f, user, s) {
      LatestExists(cmp, after, user, s, f);
      var g :| Latest(cmp, after, user, s, g);
      ReadIs(cmp, after, user, s, g);
      LeftBehind(cmp, rest, items, i, smallest, at, user, s, g);
    } else {
      ReadIsNone(cmp, after, user, s);
    }
  }

  /** Where an entry that is gone was in the input. */
  lemma GoneItem(cmp: Comparator, rest: set<Entry>, items: seq<Item>, smallest: nat, at: Place, e: Entry)
    returns (i: nat)
    requires AllGood(items) && e in rest + Entries(items) && e !in Compacted(cmp, rest, items, smallest, at)
    ensures i < |items| && EntryOf(items[i]) == e && Dropped(cmp, items, i, smallest, at) && e !in rest
  {
    hide Dropped;
    var item :| item in items && EntryOf(item) == e;
    i :| 0 <= i < |items| && items[i] == item;
    OutputGood(cmp, items, smallest, at);
    KeptElements(cmp, items, |items|, smallest, at);
  }

  /** What then is the latest entry was left behind, and hidden before; so it is no value. */
  lemma LeftBehind(cmp: Comparator, rest: set<Entry>, items: seq<Item>, i: nat, smallest: nat, at: Place,
                   user: seq<Byte>, s: nat, g: Entry)
    requires Compactable(cmp, rest, items) && smallest <= s && i < |items|
    requires !ComesBack(cmp, rest, items, smallest, at)
    requires var e := EntryOf(items[i]);
             && e !in Compacted(cmp, rest, items, smallest, at) && Latest(cmp, rest + Entries(items), user, s, e)
             && e.kind == Deletion && e.sequence <= smallest && BaseLevel(cmp, at, e.user)
    requires Latest(cmp, Compacted(cmp, rest, items, smallest, at), user, s, g)
    ensures g.kind != Value
  {
    hide Ordered, BaseLevel, EntryOf, Item.Parsed, Ascending, Dropped, Distinct, Read, Survivors;
    CompactedIsPart(cmp, rest, items, smallest, at);
    var e := EntryOf(items[i]);
    assert e in Entries(items) by { assert items[i] in items; }
    Flip(cmp, e.user, user);
    Transfer(cmp, g.user, user, e.user);
    if g !in rest {
      NothingOlder(cmp, items, i, smallest, at, g);
    }
    hide Compacted, Entries;
    LatestAt(cmp, rest + Entries(items), user, s, e.user, smallest, e);
    LatestIn(cmp, rest, user, s, e, smallest, g);
    ReadIs(cmp, rest, e.user, smallest, g);
    assert !HidesValue(cmp, rest, items, smallest, at, e);
  }

  /** The latest entry at a later number is the latest at an earlier one from its own on, whatever the user key is
      called. */
  lemma LatestAt(cmp: Comparator, entries: set<Entry>, user: seq<Byte>, s: nat, same: seq<Byte>, smallest: nat,
                 e: Entry)
    requires Ordered(cmp) && Latest(cmp, entries, user, s, e) && e.sequence <= smallest <= s
    requires cmp(same, user) == 0 && cmp(user, same) == 0
    ensures Latest(cmp, entries, same, smallest, e)
  {
    hide Ordered;
    Transfer(cmp, e.user, user, same);
    forall f | f in entries && Visible(cmp, f, same, smallest) ensures Visible(cmp, f, user, s) {
      Transfer(cmp, f.user, same, user);
    }
  }

  /** The latest entry of what is left, if it was left behind, and all that was left behind is still there. */
  lemma LatestIn(cmp: Comparator, rest: set<Entry>, user: seq<Byte>, s: nat, e: Entry, smallest: nat, g: Entry)
    requires Ordered(cmp) && g in rest && Visible(cmp, g, user, s) && g.sequence <= e.sequence <= smallest <= s
    requires forall f <- rest :: Visible(cmp, f, user, s) ==> f.sequence <= g.sequence
    requires cmp(e.user, user) == 0 && cmp(user, e.user) == 0
    ensures Latest(cmp, rest, e.user, smallest, g)
  {
    assert Latest(cmp, rest, user, s, g);
    LatestAt(cmp, rest, user, s, e.user, smallest, g);
  }

  /** If one does come back, the answer at the smallest snapshot changes from none to that value. */
  lemma ValueComesBack(cmp: Comparator, rest: set<Entry>, items: seq<Item>, smallest: nat, at: Place, e: Entry)
    requires Compactable(cmp, rest, items) && e in Entries(items) && HidesValue(cmp, rest, items, smallest, at, e)
    ensures Read(cmp, rest + Entries(items), e.user, smallest) == None
    ensures Read(cmp, Compacted(cmp, rest, items, smallest, at), e.user, smallest) ==
            Read(cmp, rest, e.user, smallest) != None
  {
    hide Ordered, BaseLevel, EntryOf, Item.Parsed, Ascending, Dropped, Distinct, Read;
    CompactedIsPart(cmp, rest, items, smallest, at);
    var item :| item in items && EntryOf(item) == e;
    var i :| 0 <= i < |items| && items[i] == item;
    ReadIs(cmp, rest + Entries(items), e.user, smallest, e);
    var g := Seen(cmp, rest, e.user, smallest);
    ReadIs(cmp, rest, e.user, smallest, g);
    var after := Compacted(cmp, rest, items, smallest, at);
    OldDeletionDropped(cmp, items, i, smallest, at);
    forall f | f in after && f !in rest ensures !Visible(cmp, f, e.user, smallest) {
      KeptIsNotOlder(cmp, rest, items, i, smallest, at, f);
    }
    assert Latest(cmp, after, e.user, smallest, g);
    ReadIs(cmp, after, e.user, smallest, g);
  }

  lemma OldDeletionDropped(cmp: Comparator, items: seq<Item>, i: nat, smallest: nat, at: Place)
    requires AllGood(items) && i < |items|
    requires var e := EntryOf(items[i]); e.kind == Deletion && e.sequence <= smallest && BaseLevel(cmp, at, e.user)
    ensures Dropped(cmp, items, i, smallest, at)
  {
    assert items[i] in items;
  }

  /** Where there is an answer there is an entry that gives it. */
  lemma Seen(cmp: Comparator, entries: set<Entry>, user: seq<Byte>, s: nat) returns (g: Entry)
    requires Read(cmp, entries, user, s).Some?
    ensures Latest(cmp, entries, user, s, g)
  {
    g :| Latest(cmp, entries, user, s, g);
  }

  /** What is kept of the input for the user key of a dropped deletion is not visible where that was the latest. */
  lemma KeptIsNotOlder(cmp: Comparator, rest: set<Entry>, items: seq<Item>, i: nat, smallest: nat, at: Place, f: Entry)
    requires Compactable(cmp, rest, items) && i < |items| && Dropped(cmp, items, i, smallest, at)
    requires var e := EntryOf(items[i]); Latest(cmp, rest + Entries(items), e.user, smallest, e)
    requires f in Compacted(cmp, rest, items, smallest, at) && f !in rest
    ensures !Visible(cmp, f, EntryOf(items[i]).user, smallest)
  {
    hide Ordered, BaseLevel, EntryOf, Item.Parsed, Ascending, Dropped, Distinct;
    CompactedIsPart(cmp, rest, items, smallest, at);
    var e := EntryOf(items[i]);
    if f == e {
      KeptElements(cmp, items, |items|, smallest, at);
      var item :| item in Survivors(cmp, items, smallest, at) && EntryOf(item) == f;
      var j :| 0 <= j < |items| && !Dropped(cmp, items, j, smallest, at) && items[j] == item;
      if i < j { NotSame(cmp, items, i, j); } else if j < i { NotSame(cmp, items, j, i); }
    } else if Visible(cmp, f, e.user, smallest) {
      NothingOlder(cmp, items, i, smallest, at, f);
    }
  }

  /** Exactly then does a compaction keep every answer from the smallest snapshot on. */
  lemma CompactionIsExact(cmp: Comparator, rest: set<Entry>, items: seq<Item>, smallest: nat, at: Place)
    requires Compactable(cmp, rest, items) && smallest < MAX_SEQUENCE
    ensures KeepsAnswers(cmp, rest + Entries(items), Compacted(cmp, rest, items, smallest, at), smallest) <==>
            !ComesBack(cmp, rest, items, smallest, at)
  {
    hide Ordered, Ascending, Distinct, Read, Compacted, Entries, HidesValue, Compactable, AllGood;
    GoodIn(cmp, rest, items);
    if ComesBack(cmp, rest, items, smallest, at) {
      var e :| e in Entries(items) && HidesValue(cmp, rest, items, smallest, at, e);
      ValueComesBack(cmp, rest, items, smallest, at, e);
    } else {
      forall user: seq<Byte>, s: nat | smallest <= s
        ensures Read(cmp, Compacted(cmp, rest, items, smallest, at), user, s) ==
                Read(cmp, rest + Entries(items), user, s)
      {
        CompactionKeepsMeaning(cmp, rest, items, smallest, at, user, s);
      }
    }
  }

  lemma GoodIn(cmp: Comparator, rest: set<Entry>, items: seq<Item>)
    requires Compactable(cmp, rest, items)
    ensures AllGood(items)
  {
  }

  /** No answer from that number on differs. */
  ghost predicate KeepsAnswers(cmp: Comparator, before: set<Entry>, after: set<Entry>, smallest: nat) {
    forall user: seq<Byte>, s: nat :: smallest <= s ==> Read(cmp, after, user, s) == Read(cmp, before, user, s)
  }

  // ----- Safe whatever the snapshots are -----

  /** A deletion is compacted that has nothing on deeper levels, and what is left behind has a value next below it. */
  ghost predicate Uncovers(cmp: Comparator, rest: set<Entry>, items: seq<Item>, at: Place)
    requires AllGood(items)
  {
    exists e <- Entries(items), g <- rest :: Covers(cmp, rest, at, e, g)
  }

  ghost predicate Covers(cmp: Comparator, rest: set<Entry>, at: Place, e: Entry, g: Entry) {
    && e.kind == Deletion && BaseLevel(cmp, at, e.user)
    && Latest(cmp, rest, e.user, e.sequence, g) && g.kind == Value
  }

  /** A compaction keeps every answer from the smallest snapshot on, whichever that is, exactly if it does not uncover a
      value. */
  lemma SafeCompaction(cmp: Comparator, rest: set<Entry>, items: seq<Item>, at: Place)
    requires Compactable(cmp, rest, items) && forall e <- Entries(items) :: e.sequence < MAX_SEQUENCE
    ensures (forall smallest: nat :: smallest < MAX_SEQUENCE ==>
              KeepsAnswers(cmp, rest + Entries(items), Compacted(cmp, rest, items, smallest, at), smallest))
            <==> !Uncovers(cmp, rest, items, at)
  {
    hide Ordered, Ascending, Distinct, Compacted, Compactable, AllGood, KeepsAnswers, ComesBack, Entries, Covers;
    GoodIn(cmp, rest, items);
    if Uncovers(cmp, rest, items, at) {
      var e, g :| e in Entries(items) && g in rest && Covers(cmp, rest, at, e, g);
      UncoversAt(cmp, rest, items, at, e, g);
      CompactionIsExact(cmp, rest, items, e.sequence, at);
    } else {
      forall smallest: nat | smallest < MAX_SEQUENCE
        ensures KeepsAnswers(cmp, rest + Entries(items), Compacted(cmp, rest, items, smallest, at), smallest)
      {
        CompactionIsExact(cmp, rest, items, smallest, at);
        if ComesBack(cmp, rest, items, smallest, at) {
          ComesBackUncovers(cmp, rest, items, smallest, at);
        }
      }
    }
  }

  lemma UncoversAt(cmp: Comparator, rest: set<Entry>, items: seq<Item>, at: Place, e: Entry, g: Entry)
    requires Compactable(cmp, rest, items) && e in Entries(items) && g in rest && Covers(cmp, rest, at, e, g)
    ensures ComesBack(cmp, rest, items, e.sequence, at)
  {
    hide Ascending, BaseLevel, Entries;
    assert Distinct(cmp, rest) by { DistinctSubset(cmp, rest, rest + Entries(items)); }
    ReadIs(cmp, rest, e.user, e.sequence, g);
    EqualToItself(cmp, e.user);
    assert Latest(cmp, rest + Entries(items), e.user, e.sequence, e);
    assert HidesValue(cmp, rest, items, e.sequence, at, e);
  }

  lemma ComesBackUncovers(cmp: Comparator, rest: set<Entry>, items: seq<Item>, smallest: nat, at: Place)
    requires Compactable(cmp, rest, items) && ComesBack(cmp, rest, items, smallest, at)
    ensures Uncovers(cmp, rest, items, at)
  {
    hide Ordered, Ascending, BaseLevel, Entries, Read;
    assert Distinct(cmp, rest) by { DistinctSubset(cmp, rest, rest + Entries(items)); }
    hide Distinct;
    var e :| e in Entries(items) && HidesValue(cmp, rest, items, smallest, at, e);
    var g := Seen(cmp, rest, e.user, smallest);
    ReadIs(cmp, rest, e.user, smallest, g);
    assert Latest(cmp, rest, e.user, e.sequence, g);
    assert Covers(cmp, rest, at, e, g);
  }

  /** It is so when what is left behind is newer. */
  lemma NewerRestIsSafe(cmp: Comparator, rest: set<Entry>, items: seq<Item>, at: Place)
    requires Ordered(cmp) && AllGood(items) && RestIsNewer(cmp, rest, items, at)
    ensures !Uncovers(cmp, rest, items, at)
  {
    hide Ordered, EntryOf, Item.Parsed, BaseLevel;
    forall e, g | e in Entries(items) && g in rest ensures !Covers(cmp, rest, at, e, g) {
      var item :| item in items && EntryOf(item) == e;
      assert cmp(g.user, e.user) == 0 && BaseLevel(cmp, at, e.user) ==> g.sequence > e.sequence;
    }
  }

  /** At the very last sequence number the loop takes its own starting value for a newer entry: it drops everything. */
  lemma {:induction false} LastSequenceDropsAll(cmp: Comparator, items: seq<Item>, n: nat, at: Place)
    requires AllGood(items) && n <= |items| && forall item <- items :: EntryOf(item).sequence <= MAX_SEQUENCE
    ensures Kept(cmp, items, n, MAX_SEQUENCE, at) == []
  {
    if n > 0 {
      LastSequenceDropsAll(cmp, items, n - 1, at);
      DroppedAtLast(cmp, items, n - 1, at);
      hide Dropped;
    }
  }

  lemma DroppedAtLast(cmp: Comparator, items: seq<Item>, i: nat, at: Place)
    requires AllGood(items) && i < |items| && forall item <- items :: EntryOf(item).sequence <= MAX_SEQUENCE
    ensures Dropped(cmp, items, i, MAX_SEQUENCE, at)
  {
    assert items[i] in items;
    assert i > 0 ==> items[i - 1] in items && EntryOf(items[i - 1]).sequence <= MAX_SEQUENCE;
  }

  // ----- What comes of it when older entries are left behind -----

  /** A table ends as soon as it is big enough, even between two entries for one user key. */
  method CutBetween(a: Item, b: Item, smallest: nat, bigEnough: seq<Item> -> bool) returns (outputs: seq<Output>)
    requires bigEnough([a]) && bigEnough([b])
    ensures outputs == [Output(a.key, a.key, [a]), Output(b.key, b.key, [b])]
  {
    var c := new CompactionState(smallest);
    var done := c.Emit(a, bigEnough, true, true);
    done := c.Emit(b, bigEnough, true, true);
    outputs := c.outputs;
  }

  /** A deletion of a user key, and the value it deletes. */
  function DeletionOf(user: seq<Byte>): Item {
    Item(InternalKey(user, 2, Deletion), [])
  }

  function ValueBefore(user: seq<Byte>, value: seq<Byte>): Item {
    Item(InternalKey(user, 1, Value), value)
  }

  lemma OldPair(user: seq<Byte>, value: seq<Byte>)
    ensures DeletionOf(user).Parsed() == Some(Parsed(user, 2, Deletion))
    ensures ValueBefore(user, value).Parsed() == Some(Parsed(user, 1, Value))
  {
    hide InternalKey, ParseInternalKey;
    KeyRoundTrip(user, 2, Deletion);
    KeyRoundTrip(user, 1, Value);
  }

  /** A snapshot between the two makes a compaction keep both. */
  lemma KeepsBoth(cmp: Comparator, user: seq<Byte>, value: seq<Byte>, smallest: nat, at: Place)
    requires smallest < 2
    ensures var pair := [DeletionOf(user), ValueBefore(user, value)]; Kept(cmp, pair, 2, smallest, at) == pair
  {
    OldPair(user, value);
    hide InternalKey, ParseInternalKey, DeletionOf, ValueBefore;
    var pair := [DeletionOf(user), ValueBefore(user, value)];
    assert !Dropped(cmp, pair, 0, smallest, at) && !Dropped(cmp, pair, 1, smallest, at);
    hide Dropped;
    assert Kept(cmp, pair, 0, smallest, at) == [];
    assert Kept(cmp, pair, 1, smallest, at) == [] + [pair[0]];
    assert Kept(cmp, pair, 2, smallest, at) == [] + [pair[0]] + [pair[1]];
  }

  /** Tables that hold the two, of which neither goes on once it is big enough. */
  lemma SplitsPair(outputs: seq<Output>, a: Item, b: Item, bigEnough: seq<Item> -> bool)
    requires Flattened(outputs) == [a, b] && (forall o <- outputs :: o.Bounded()) && Small(outputs, false, bigEnough)
    requires bigEnough([a])
    ensures outputs == [Output(a.key, a.key, [a]), Output(b.key, b.key, [b])]
  {
    hide Small, Flattened;
    NothingFlattened();
    var rest, o := LastOutput(outputs);
    SplitTwo(Flattened(rest), o.entries, a, b);
    if |o.entries| == 2 {
      GoesOn(outputs, o, bigEnough, a);
    } else {
      var none, first := LastOutput(rest);
      SplitOne(Flattened(none), first.entries, a);
      NothingIn(none);
    }
  }

  lemma NothingIn(outputs: seq<Output>)
    requires forall o <- outputs :: o.Bounded()
    ensures Flattened(outputs) == [] ==> outputs == []
  {
    if outputs != [] {
      var rest, o := LastOutput(outputs);
    }
  }

  lemma SplitTwo(x: seq<Item>, y: seq<Item>, a: Item, b: Item)
    requires x + y == [a, b] && y != []
    ensures if |y| == 2 then x == [] && y == [a, b] else x == [a] && y == [b]
  {
    assert y == (x + y)[|x|..] && x == (x + y)[..|x|];
  }

  lemma SplitOne(x: seq<Item>, y: seq<Item>, a: Item)
    requires x + y == [a] && y != []
    ensures x == [] && y == [a]
  {
    assert y == (x + y)[|x|..] && x == (x + y)[..|x|];
  }

  lemma GoesOn(outputs: seq<Output>, o: Output, bigEnough: seq<Item> -> bool, a: Item)
    requires o in outputs && |o.entries| == 2 && o.entries[0] == a
    ensures Small(outputs, false, bigEnough) ==> !bigEnough([a])
  {
    assert o.entries[..1] == [a];
  }

  lemma LastOutput(outputs: seq<Output>) returns (rest: seq<Output>, o: Output)
    requires outputs != [] && forall x <- outputs :: x.Bounded()
    ensures outputs == rest + [o] && Flattened(outputs) == Flattened(rest) + o.entries && o in outputs
    ensures |o.entries| > 0 && o.smallest == o.entries[0].key && o.largest == o.entries[|o.entries| - 1].key
    ensures forall x <- rest :: x.Bounded()
  {
    rest, o := outputs[..|outputs| - 1], outputs[|outputs| - 1];
  }

  /** So the two come to lie in two tables of one level, when a snapshot between them is held and the deletion alone is
      big enough for a table. */
  method SplitByCompaction(cursors: LevelCursors, user: seq<Byte>, value: seq<Byte>, smallest: nat,
                           stopBefore: seq<Byte> -> bool, bigEnough: seq<Item> -> bool, world: World)
    returns (ok: bool, outputs: seq<Output>)
    requires cursors.Valid() && cursors.asked == None && smallest < 2 && bigEnough([DeletionOf(user)])
    modifies cursors, cursors.levelPtrs
    ensures (forall k :: world.opens(k) && world.finishes(k) && !world.shuttingDown(k)) && world.inputOk ==> ok
    ensures ok ==>
              var d, v := DeletionOf(user), ValueBefore(user, value);
              outputs == [Output(d.key, d.key, [d]), Output(v.key, v.key, [v])]
  {
    hide Small, Flattened, Kept, Ascending, DeletionOf, ValueBefore;
    ghost var cmp := cursors.cmp;
    var pair := [DeletionOf(user), ValueBefore(user, value)];
    OrderedCursors(cursors);
    PairAscends(cmp, user, value);
    KeepsBoth(cmp, user, value, smallest, cursors.at);
    ok, outputs := DoCompactionWork(cursors, pair, smallest, stopBefore, bigEnough, world);
    if ok {
      SplitsPair(outputs, pair[0], pair[1], bigEnough);
    }
  }

  lemma OrderedCursors(cursors: LevelCursors)
    requires cursors.Valid()
    ensures Ordered(cursors.cmp)
  {
  }

  /** Such tables may lie side by side on one level. When the one that ends with the deletion is compacted alone, and no
      deeper level has the key, the deletion is dropped and the value it had deleted comes back: what is left behind is
      older, not newer, and what a reader is told changes. */
  lemma DeletedValueComesBack(cmp: Comparator, user: seq<Byte>, value: seq<Byte>, smallest: nat, at: Place)
    requires Ordered(cmp) && 2 <= smallest < MAX_SEQUENCE && BaseLevel(cmp, at, user)
    ensures var items, rest := [DeletionOf(user)], {Entry(user, 1, Value, value)};
            && ValueBefore(user, value).Parsed().Some? && rest == {EntryOf(ValueBefore(user, value))}
            && Ascending(cmp, [DeletionOf(user), ValueBefore(user, value)])
            && AllGood(items) && Ascending(cmp, items) && Uncovers(cmp, rest, items, at)
            && Distinct(cmp, rest + Entries(items)) && Survivors(cmp, items, smallest, at) == []
            && Read(cmp, rest + Entries(items), user, smallest) == None
            && Read(cmp, rest, user, smallest) == Some(value)
  {
    OldPair(user, value);
    var d, v := DeletionOf(user), ValueBefore(user, value);
    var items, e, x := [d], EntryOf(v), EntryOf(d);
    PairAscends(cmp, user, value);
    hide InternalKey, ParseInternalKey, Ordered, Ascending, DeletionOf, ValueBefore, Dropped;
    assert Entries(items) == {x} by { assert d in items; }
    DropsAlone(cmp, d, user, smallest, at);
    EqualToItself(cmp, user);
    assert e == Entry(user, 1, Value, value) && x == Entry(user, 2, Deletion, []);
    TwoEntries(cmp, user, smallest, at, x, e);
  }

  lemma DropsAlone(cmp: Comparator, d: Item, user: seq<Byte>, smallest: nat, at: Place)
    requires d.Parsed() == Some(Parsed(user, 2, Deletion)) && 2 <= smallest && BaseLevel(cmp, at, user)
    ensures Survivors(cmp, [d], smallest, at) == []
  {
    hide ParseInternalKey, BaseLevel;
    assert Dropped(cmp, [d], 0, smallest, at);
    hide Dropped;
    assert Kept(cmp, [d], 0, smallest, at) == [];
  }

  /** What is read of a value and a deletion after it, with and without the deletion. */
  lemma TwoEntries(cmp: Comparator, user: seq<Byte>, smallest: nat, at: Place, x: Entry, e: Entry)
    requires Ordered(cmp) && cmp(user, user) == 0 && 2 <= smallest && BaseLevel(cmp, at, user)
    requires x.user == e.user == user && x.kind == Deletion && e.kind == Value && x.sequence == 2 && e.sequence == 1
    ensures Distinct(cmp, {e} + {x}) && Covers(cmp, {e}, at, x, e)
    ensures Read(cmp, {e} + {x}, user, smallest) == None && Read(cmp, {e}, user, smallest) == Some(e.value)
  {
    hide Ordered, BaseLevel;
    assert Latest(cmp, {e} + {x}, user, smallest, x);
    assert Latest(cmp, {e}, user, smallest, e);
    assert Latest(cmp, {e}, user, 2, e);
    ReadIs(cmp, {e} + {x}, user, smallest, x);
    ReadIs(cmp, {e}, user, smallest, e);
  }

  lemma EqualToItself(cmp: Comparator, user: seq<Byte>)
    requires Ordered(cmp)
    ensures cmp(user, user) == 0
  {
  }

  lemma PairAscends(cmp: Comparator, user: seq<Byte>, value: seq<Byte>)
    requires Ordered(cmp)
    ensures Ascending(cmp, [DeletionOf(user), ValueBefore(user, value)]) && Ascending(cmp, [DeletionOf(user)])
  {
    CompareMeans(cmp, Parsed(user, 2, Deletion), Parsed(user, 1, Value));
    hide InternalKey, Compare;
    EqualToItself(cmp, user);
  }
}

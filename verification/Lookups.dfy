/** A single lookup: through the memtables and then level by level, ending with the first layer that knows the key. */
module Lookups {
  import opened Bytes
  import opened SkipLists
  import opened DbFormat
  import opened MemTables
  import opened Compaction
  import opened CompactionMeaning
  import DI = DbIter

  // ----- Layers -----

  /** The answer from some entries: that of the newest one the snapshot sees. */
  ghost predicate Hit(cmp: Comparator, entries: set<Entry>, user: seq<Byte>, s: nat, r: Lookup) {
    if r == Missing then forall f <- entries :: !Visible(cmp, f, user, s)
    else exists e <- entries :: Latest(cmp, entries, user, s, e) && r == Shown(e)
  }

  /** For every key the entries here are newer than those there. */
  ghost predicate Newer(cmp: Comparator, here: set<Entry>, there: set<Entry>) {
    forall e <- here, f <- there :: cmp(e.user, f.user) == 0 ==> e.sequence > f.sequence
  }

  ghost predicate NewestFirst(cmp: Comparator, layers: seq<set<Entry>>) {
    forall i, j :: 0 <= i < j < |layers| ==> Newer(cmp, layers[i], layers[j])
  }

  ghost function Union(layers: seq<set<Entry>>): (all: set<Entry>)
    ensures forall e :: e in all <==> exists i :: 0 <= i < |layers| && e in layers[i]
  {
    if layers == [] then {}
    else
      var rest := Union(layers[1..]);
      assert forall e :: e in rest ==> exists i :: 0 < i < |layers| && e in layers[i] by {
        forall e | e in rest ensures exists i :: 0 < i < |layers| && e in layers[i] {
          var i :| 0 <= i < |layers[1..]| && e in layers[1..][i];
          assert e in layers[i + 1];
        }
      }
      assert forall i, e :: 0 < i < |layers| && e in layers[i] ==> e in rest by {
        forall i, e | 0 < i < |layers| && e in layers[i] ensures e in rest {
          assert e in layers[1..][i - 1];
        }
      }
      layers[0] + rest
  }

  /** The first layer that has an answer has the answer for all of them. */
  lemma FirstHit(cmp: Comparator, layers: seq<set<Entry>>, user: seq<Byte>, s: nat, n: nat, r: Lookup)
    requires Ordered(cmp) && NewestFirst(cmp, layers) && n < |layers| && Hit(cmp, layers[n], user, s, r) && r != Missing
    requires forall i :: 0 <= i < n ==> Hit(cmp, layers[i], user, s, Missing)
    ensures Hit(cmp, Union(layers), user, s, r)
  {
    hide Ordered;
    var e :| e in layers[n] && Latest(cmp, layers[n], user, s, e) && r == Shown(e);
    forall f | f in Union(layers) && Visible(cmp, f, user, s) ensures f.sequence <= e.sequence {
      var i :| 0 <= i < |layers| && f in layers[i];
      assert i >= n;
      if i > n {
        assert Newer(cmp, layers[n], layers[i]);
        EqualUsers(cmp, e.user, f.user, user);
      }
    }
    assert Latest(cmp, Union(layers), user, s, e);
  }

  lemma EqualUsers(cmp: Comparator, a: seq<Byte>, b: seq<Byte>, user: seq<Byte>)
    requires Ordered(cmp) && cmp(a, user) == 0 && cmp(b, user) == 0
    ensures cmp(a, b) == 0 && cmp(user, a) == 0
  {
    hide Ordered;
    Flip(cmp, b, user);
    Flip(cmp, a, user);
    Transfer(cmp, a, user, b);
  }

  lemma NoHit(cmp: Comparator, layers: seq<set<Entry>>, user: seq<Byte>, s: nat)
    requires forall i :: 0 <= i < |layers| ==> Hit(cmp, layers[i], user, s, Missing)
    ensures Hit(cmp, Union(layers), user, s, Missing)
  {
  }

  /** Entries the snapshot does not see for this key make no difference. */
  lemma HitAmong(cmp: Comparator, some: set<Entry>, all: set<Entry>, user: seq<Byte>, s: nat, r: Lookup)
    requires Hit(cmp, some, user, s, r) && some <= all
    requires forall f <- all :: f in some || !Visible(cmp, f, user, s)
    ensures Hit(cmp, all, user, s, r)
  {
    if r != Missing {
      var e :| e in some && Latest(cmp, some, user, s, e) && r == Shown(e);
      assert Latest(cmp, all, user, s, e);
    }
  }

  function ValueIn(r: Lookup): Option<seq<Byte>> {
    if r.Found? then Some(r.value) else None
  }

  /** With distinct sequence numbers the answer is what Read says. */
  lemma HitIsRead(cmp: Comparator, entries: set<Entry>, user: seq<Byte>, s: nat, r: Lookup)
    requires Ordered(cmp) && Distinct(cmp, entries) && Hit(cmp, entries, user, s, r)
    ensures Read(cmp, entries, user, s) == ValueIn(r)
  {
    hide Ordered, Distinct;
    if r == Missing {
      ReadIsNone(cmp, entries, user, s);
    } else {
      var e :| e in entries && Latest(cmp, entries, user, s, e) && r == Shown(e);
      ReadIs(cmp, entries, user, s, e);
    }
  }

  // ----- One table -----

  datatype Table = Table(number: nat, items: seq<Item>)
  {
    ghost predicate Good(cmp: Comparator) {
      items != [] && AllGood(items) && Ascending(cmp, items)
    }

    function Smallest(): seq<Byte>
      requires items != []
    {
      items[0].key
    }

    function Largest(): seq<Byte>
      requires items != []
    {
      items[|items| - 1].key
    }
  }

  ghost predicate AllTables(cmp: Comparator, files: seq<Table>) {
    forall f <- files :: f.Good(cmp)
  }

  /** What is in a table. */
  ghost function In(f: Table): set<Entry> {
    if AllGood(f.items) then Entries(f.items) else {}
  }

  lemma ItemOf(f: Table, e: Entry) returns (i: nat)
    requires e in In(f)
    ensures i < |f.items| && f.items[i].Parsed().Some? && EntryOf(f.items[i]) == e && UserOf(f.items[i].key) == e.user
  {
    var item :| item in f.items && EntryOf(item) == e;
    i :| 0 <= i < |f.items| && f.items[i] == item;
    PartsOf(item);
  }

  /** The table is sought for the first entry not before the lookup key, and that one decides. */
  method TableGet(cmp: Comparator, f: Table, user: seq<Byte>, s: nat) returns (r: Lookup)
    requires Ordered(cmp) && f.Good(cmp) && s <= MAX_SEQUENCE
    ensures Hit(cmp, In(f), user, s, r)
  {
    hide Ordered, Ascending, InternalKey, Compare, Hit;
    var iter := new DI.InternalIterator(f.items);
    iter.Seek(cmp, InternalKey(user, s, KIND_FOR_SEEK));
    ghost var p := if iter.pos.Some? then iter.pos.value else |f.items|;
    DI.SoughtBefore(cmp, f.items, s, user, p);
    if iter.pos.Some? {
      var item := f.items[iter.pos.value];
      assert item in f.items;
      PartsOf(item);
      var parsed := item.Parsed().value;
      if cmp(parsed.user, user) == 0 {
        SoughtHits(cmp, f, user, s, p);
        return if parsed.kind == Value then Found(item.value) else Deleted;
      }
    }
    SoughtMisses(cmp, f, user, s, p);
    r := Missing;
  }

  /** What is before place p is for lesser keys or not seen, what follows is not for lesser ones. */
  ghost predicate Sought(cmp: Comparator, items: seq<Item>, user: seq<Byte>, s: nat, p: nat) {
    && p <= |items|
    && (forall i :: 0 <= i < p ==>
          || cmp(DI.UserAt(items, i), user) < 0
          || (cmp(DI.UserAt(items, i), user) == 0 && !DI.VisibleAt(items, s, i)))
    && (forall i :: p <= i < |items| ==> cmp(DI.UserAt(items, i), user) >= 0)
  }

  lemma NotBefore(cmp: Comparator, f: Table, user: seq<Byte>, s: nat, p: nat, e: Entry) returns (i: nat)
    requires Sought(cmp, f.items, user, s, p) && e in In(f) && Visible(cmp, e, user, s)
    ensures p <= i < |f.items| && f.items[i].Parsed().Some? && EntryOf(f.items[i]) == e
    ensures cmp(DI.UserAt(f.items, i), user) == 0
  {
    i := ItemOf(f, e);
    assert DI.UserAt(f.items, i) == e.user && DI.VisibleAt(f.items, s, i);
  }

  lemma SoughtMisses(cmp: Comparator, f: Table, user: seq<Byte>, s: nat, p: nat)
    requires Ordered(cmp) && f.Good(cmp) && Sought(cmp, f.items, user, s, p)
    requires p < |f.items| ==> cmp(DI.UserAt(f.items, p), user) != 0
    ensures Hit(cmp, In(f), user, s, Missing)
  {
    hide Ordered, Ascending, Sought;
    forall e | e in In(f) ensures !Visible(cmp, e, user, s) {
      if Visible(cmp, e, user, s) {
        var i := NotBefore(cmp, f, user, s, p, e);
        assert cmp(DI.UserAt(f.items, p), user) > 0 by { AtLeast(cmp, f.items, user, s, p); }
        DI.UsersAscendTo(cmp, f.items, p, i);
        Transitive(cmp, user, DI.UserAt(f.items, p), DI.UserAt(f.items, i));
        Transitive(cmp, DI.UserAt(f.items, p), user, user);
        Transitive(cmp, DI.UserAt(f.items, i), user, user);
      }
    }
  }

  lemma AtLeast(cmp: Comparator, items: seq<Item>, user: seq<Byte>, s: nat, p: nat)
    requires Sought(cmp, items, user, s, p) && p < |items|
    ensures cmp(DI.UserAt(items, p), user) >= 0
  {
  }

  lemma SoughtHits(cmp: Comparator, f: Table, user: seq<Byte>, s: nat, p: nat)
    requires Ordered(cmp) && f.Good(cmp) && s <= MAX_SEQUENCE && Sought(cmp, f.items, user, s, p) && p < |f.items|
    requires cmp(DI.UserAt(f.items, p), user) == 0
    requires Compare(cmp, f.items[p].key, InternalKey(user, s, KIND_FOR_SEEK)) >= 0
    ensures Hit(cmp, In(f), user, s, Shown(EntryOf(f.items[p])))
  {
    var item := f.items[p];
    assert item in f.items;
    PartsOf(item);
    AtOrAfterIsVisible(cmp, item.key, user, s);
    hide Ordered, Ascending, Sought, InternalKey, Compare;
    var e := EntryOf(item);
    assert Visible(cmp, e, user, s);
    forall g | g in In(f) && Visible(cmp, g, user, s) ensures g.sequence <= e.sequence {
      var i := NotBefore(cmp, f, user, s, p, g);
      PartsOf(f.items[i]);
      EqualUsers(cmp, e.user, g.user, user);
      Descends(cmp, f.items, p, p, i);
    }
    assert Latest(cmp, In(f), user, s, e);
  }

  lemma AtOrAfterIsVisible(cmp: Comparator, key: seq<Byte>, user: seq<Byte>, s: nat)
    requires s <= MAX_SEQUENCE && cmp(UserOf(key), user) == 0
    requires Compare(cmp, key, InternalKey(user, s, KIND_FOR_SEEK)) >= 0
    ensures TagOf(key) / 0x100 <= s
  {
    KeyParts(user, s, KIND_FOR_SEEK);
    hide InternalKey, Pack;
  }

  // ----- The files that may overlap -----

  /** Files by falling number. */
  function Insert(f: Table, files: seq<Table>): (r: seq<Table>)
    ensures multiset(r) == multiset(files) + multiset{f} && |r| == |files| + 1
  {
    if files == [] || f.number > files[0].number then [f] + files
    else
      assert files == [files[0]] + files[1..];
      [files[0]] + Insert(f, files[1..])
  }

  function Sort(files: seq<Table>): (r: seq<Table>)
    ensures multiset(r) == multiset(files) && |r| == |files|
  {
    if files == [] then [] else
    assert files == [files[0]] + files[1..];
    Insert(files[0], Sort(files[1..]))
  }

  ghost predicate Falling(files: seq<Table>) {
    forall i, j :: 0 <= i < j < |files| ==> files[i].number >= files[j].number
  }

  lemma {:induction false} InsertFalls(f: Table, files: seq<Table>)
    requires Falling(files)
    ensures Falling(Insert(f, files))
    ensures forall g <- Insert(f, files) :: g == f || g in files
  {
    if files != [] && f.number <= files[0].number {
      InsertFalls(f, files[1..]);
      var rest := Insert(f, files[1..]);
      forall j | 0 <= j < |rest| ensures files[0].number >= rest[j].number {
        assert rest[j] == f || rest[j] in files[1..];
      }
    }
  }

  lemma {:induction false} SortFalls(files: seq<Table>)
    ensures Falling(Sort(files))
  {
    if files != [] {
      SortFalls(files[1..]);
      InsertFalls(files[0], Sort(files[1..]));
    }
  }

  lemma SortKeeps(files: seq<Table>)
    ensures forall f :: f in Sort(files) <==> f in files
  {
    forall f ensures f in Sort(files) <==> f in files {
      assert f in multiset(Sort(files)) <==> f in multiset(files);
    }
  }

  ghost function Each(files: seq<Table>): (layers: seq<set<Entry>>)
    ensures |layers| == |files| && forall i :: 0 <= i < |files| ==> layers[i] == In(files[i])
  {
    seq(|files|, i requires 0 <= i < |files| => In(files[i]))
  }

  ghost function InAny(files: seq<Table>): set<Entry> {
    Union(Each(files))
  }

  lemma InAnyMeans(files: seq<Table>, e: Entry)
    ensures e in InAny(files) <==> exists f <- files :: e in In(f)
  {
    if e in InAny(files) {
      var i :| 0 <= i < |Each(files)| && e in Each(files)[i];
      assert files[i] in files;
    }
    if exists f <- files :: e in In(f) {
      var f :| f in files && e in In(f);
      var i :| 0 <= i < |files| && files[i] == f;
      assert e in Each(files)[i];
    }
  }

  /** Of two files the one with the higher number is the newer one. */
  ghost predicate ByAge(cmp: Comparator, files: seq<Table>) {
    forall i, j :: 0 <= i < |files| && 0 <= j < |files| && i != j ==>
      files[i].number != files[j].number &&
      (files[i].number > files[j].number ==> Newer(cmp, In(files[i]), In(files[j])))
  }

  predicate Overlaps(cmp: Comparator, f: Table, user: seq<Byte>)
    requires f.items != []
  {
    cmp(user, UserOf(f.Smallest())) >= 0 && cmp(user, UserOf(f.Largest())) <= 0
  }

  lemma OutsideIsInvisible(cmp: Comparator, f: Table, user: seq<Byte>, s: nat)
    requires Ordered(cmp) && f.Good(cmp) && !Overlaps(cmp, f, user)
    ensures Hit(cmp, In(f), user, s, Missing)
  {
    hide Ordered, Ascending;
    forall e | e in In(f) ensures !Visible(cmp, e, user, s) {
      var i := ItemOf(f, e);
      DI.UsersAscendTo(cmp, f.items, 0, i);
      DI.UsersAscendTo(cmp, f.items, i, |f.items| - 1);
      var a, b := UserOf(f.Smallest()), UserOf(f.Largest());
      Transitive(cmp, user, a, e.user);
      Transitive(cmp, e.user, b, user);
      Transitive(cmp, user, e.user, user);
      Transitive(cmp, b, user, user);
    }
  }

  /** No file is there twice. */
  ghost predicate Once(files: seq<Table>) {
    forall f <- files :: multiset(files)[f] <= 1
  }

  lemma Twice(files: seq<Table>, i: nat, j: nat)
    requires i < j < |files| && files[i] == files[j]
    ensures multiset(files)[files[i]] >= 2
  {
    var f := files[i];
    assert files == files[..j] + files[j..];
    assert f == files[..j][i] && f == files[j..][0];
    assert multiset(files[..j])[f] >= 1 && multiset(files[j..])[f] >= 1;
  }

  lemma SortedOnce(files: seq<Table>, i: nat, j: nat)
    requires Once(files) && i < j < |files|
    ensures Sort(files)[i] != Sort(files)[j]
  {
    var sorted := Sort(files);
    assert sorted[i] in multiset(files);
    if sorted[i] == sorted[j] {
      Twice(sorted, i, j);
    }
  }

  /** The files [0, i) that span the key. */
  ghost predicate Collected(cmp: Comparator, files: seq<Table>, i: nat, user: seq<Byte>, tmp: seq<Table>)
    requires i <= |files|
  {
    && (forall f <- tmp :: f in files[..i] && f.items != [] && Overlaps(cmp, f, user))
    && (forall f <- files[..i] :: f.items != [] && Overlaps(cmp, f, user) ==> f in tmp)
    && Once(tmp)
  }

  lemma CollectsMore(cmp: Comparator, files: seq<Table>, i: nat, user: seq<Byte>, tmp: seq<Table>)
    requires ByAge(cmp, files) && i < |files| && files[i].items != [] && Collected(cmp, files, i, user, tmp)
    ensures Collected(cmp, files, i + 1, user, if Overlaps(cmp, files[i], user) then tmp + [files[i]] else tmp)
  {
    hide Overlaps;
    var f := files[i];
    assert files[..i + 1] == files[..i] + [f];
    NotYet(cmp, files, i);
  }

  lemma NotYet(cmp: Comparator, files: seq<Table>, i: nat)
    requires ByAge(cmp, files) && i < |files|
    ensures files[i] !in files[..i]
  {
    forall j | 0 <= j < i ensures files[..i][j] != files[i] {
      assert files[j].number != files[i].number;
    }
  }

  lemma SortedByAge(cmp: Comparator, files: seq<Table>, tmp: seq<Table>)
    requires ByAge(cmp, files) && Once(tmp) && forall f <- tmp :: f in files
    ensures NewestFirst(cmp, Each(Sort(tmp))) && forall f :: f in Sort(tmp) <==> f in tmp
  {
    hide Newer;
    var sorted := Sort(tmp);
    SortFalls(tmp);
    SortKeeps(tmp);
    forall i, j | 0 <= i < j < |sorted| ensures Newer(cmp, In(sorted[i]), In(sorted[j])) {
      SortedOnce(tmp, i, j);
      assert sorted[i] in files && sorted[j] in files;
      var a :| 0 <= a < |files| && files[a] == sorted[i];
      var b :| 0 <= b < |files| && files[b] == sorted[j];
      assert files[a].number != files[b].number;
    }
  }

  /** Files that do not span the key make no difference. */
  lemma OthersAreOutside(cmp: Comparator, files: seq<Table>, tmp: seq<Table>, user: seq<Byte>, s: nat, r: Lookup)
    requires Ordered(cmp) && AllTables(cmp, files) && Hit(cmp, InAny(tmp), user, s, r)
    requires forall f <- tmp :: f in files
    requires forall f <- files :: Overlaps(cmp, f, user) ==> f in tmp
    ensures Hit(cmp, InAny(files), user, s, r)
  {
    hide Ordered, Overlaps, Hit, InAny, In, Ascending;
    forall e | e in InAny(tmp) ensures e in InAny(files) {
      InAnyMeans(tmp, e);
      InAnyMeans(files, e);
    }
    forall e | e in InAny(files) ensures e in InAny(tmp) || !Visible(cmp, e, user, s) {
      InAnyMeans(files, e);
      InAnyMeans(tmp, e);
      var f :| f in files && e in In(f);
      if !Overlaps(cmp, f, user) {
        OutsideIsInvisible(cmp, f, user, s);
        MissesAll(cmp, In(f), user, s, e);
      }
    }
    HitAmong(cmp, InAny(tmp), InAny(files), user, s, r);
  }

  lemma MissesAll(cmp: Comparator, entries: set<Entry>, user: seq<Byte>, s: nat, e: Entry)
    requires Hit(cmp, entries, user, s, Missing) && e in entries
    ensures !Visible(cmp, e, user, s)
  {
  }

  /** Files that may overlap: those that span the key, newest first. */
  method OverlappingGet(cmp: Comparator, files: seq<Table>, user: seq<Byte>, s: nat) returns (r: Lookup)
    requires Ordered(cmp) && AllTables(cmp, files) && ByAge(cmp, files) && s <= MAX_SEQUENCE
    ensures Hit(cmp, InAny(files), user, s, r)
  {
    hide Ordered, Ascending, Hit, Overlaps, ByAge, Once, Sort, NewestFirst;
    var tmp := Spanning(cmp, files, user);
    SortedByAge(cmp, files, tmp);
    tmp := Sort(tmp);
    ghost var layers := Each(tmp);
    var n := 0;
    while n < |tmp|
      invariant 0 <= n <= |tmp| && forall i :: 0 <= i < n ==> Hit(cmp, layers[i], user, s, Missing)
    {
      assert tmp[n] in files;
      r := TableGet(cmp, tmp[n], user, s);
      if r != Missing {
        FirstHit(cmp, layers, user, s, n, r);
        OthersAreOutside(cmp, files, tmp, user, s, r);
        return;
      }
      n := n + 1;
    }
    NoHit(cmp, layers, user, s);
    r := Missing;
    OthersAreOutside(cmp, files, tmp, user, s, r);
  }

  method Spanning(cmp: Comparator, files: seq<Table>, user: seq<Byte>) returns (tmp: seq<Table>)
    requires AllTables(cmp, files) && ByAge(cmp, files)
    ensures Once(tmp) && (forall f <- tmp :: f in files)
    ensures forall f <- files :: Overlaps(cmp, f, user) ==> f in tmp
  {
    hide Overlaps, ByAge, Ascending;
    tmp := [];
    for i := 0 to |files|
      invariant Collected(cmp, files, i, user, tmp)
    {
      assert files[i] in files;
      CollectsMore(cmp, files, i, user, tmp);
      if Overlaps(cmp, files[i], user) {
        tmp := tmp + [files[i]];
      }
    }
    assert files[..|files|] == files;
  }

  // ----- The files of a sorted level -----

  /** The files of a level span ascending, disjoint ranges of internal keys. Two of them may share a user key. */
  ghost predicate SortedFiles(cmp: Comparator, files: seq<Table>) {
    && AllTables(cmp, files)
    && forall i, j :: 0 <= i < j < |files| ==> Compare(cmp, LargestOf(files[i]), SmallestOf(files[j])) < 0
  }

  function SmallestOf(f: Table): seq<Byte> {
    if f.items == [] then [] else f.Smallest()
  }

  function LargestOf(f: Table): seq<Byte> {
    if f.items == [] then [] else f.Largest()
  }

  lemma Spans(cmp: Comparator, f: Table, i: nat)
    requires Ordered(cmp) && f.Good(cmp) && i < |f.items|
    ensures Compare(cmp, SmallestOf(f), f.items[i].key) <= 0 && Compare(cmp, f.items[i].key, LargestOf(f)) <= 0
  {
    hide Ordered, Compare;
    CompareTransitive(cmp, f.items[i].key, f.items[i].key, f.items[i].key);
  }

  lemma LargestAscend(cmp: Comparator, files: seq<Table>, i: nat, j: nat)
    requires Ordered(cmp) && SortedFiles(cmp, files) && i <= j < |files|
    ensures Compare(cmp, LargestOf(files[i]), LargestOf(files[j])) <= 0
  {
    hide Ordered, Compare, Ascending;
    assert files[i] in files && files[j] in files;
    Spans(cmp, files[j], |files[j].items| - 1);
    CompareTransitive(cmp, LargestOf(files[i]), SmallestOf(files[j]), LargestOf(files[j]));
  }

  /** Binary search for the first file whose largest key is not before the key. */
  method FindFile(cmp: Comparator, files: seq<Table>, key: seq<Byte>) returns (right: nat)
    requires Ordered(cmp) && SortedFiles(cmp, files)
    ensures right <= |files|
    ensures forall i :: 0 <= i < right ==> Compare(cmp, LargestOf(files[i]), key) < 0
    ensures forall i :: right <= i < |files| ==> Compare(cmp, LargestOf(files[i]), key) >= 0
  {
    hide Ordered, Compare, SortedFiles;
    var left := 0;
    right := |files|;
    while left < right
      invariant 0 <= left <= right <= |files|
      invariant forall i :: 0 <= i < left ==> Compare(cmp, LargestOf(files[i]), key) < 0
      invariant forall i :: right <= i < |files| ==> Compare(cmp, LargestOf(files[i]), key) >= 0
    {
      var mid := (left + right) / 2;
      if Compare(cmp, LargestOf(files[mid]), key) < 0 {
        forall i | left <= i <= mid ensures Compare(cmp, LargestOf(files[i]), key) < 0 {
          LargestAscend(cmp, files, i, mid);
          BeforeKey(cmp, LargestOf(files[i]), LargestOf(files[mid]), key);
        }
        left := mid + 1;
      } else {
        forall i | mid <= i < right ensures Compare(cmp, LargestOf(files[i]), key) >= 0 {
          LargestAscend(cmp, files, mid, i);
          AtOrAfterKey(cmp, LargestOf(files[mid]), LargestOf(files[i]), key);
        }
        right := mid;
      }
    }
  }

  /** Entries before the lookup key are not seen. */
  lemma BeforeIsInvisible(cmp: Comparator, f: Table, user: seq<Byte>, s: nat)
    requires Ordered(cmp) && f.Good(cmp) && s <= MAX_SEQUENCE
    requires Compare(cmp, LargestOf(f), InternalKey(user, s, KIND_FOR_SEEK)) < 0
    ensures Hit(cmp, In(f), user, s, Missing)
  {
    hide Ordered, Ascending, InternalKey;
    var key := InternalKey(user, s, KIND_FOR_SEEK);
    forall e | e in In(f) ensures !Visible(cmp, e, user, s) {
      var i := ItemOf(f, e);
      Spans(cmp, f, i);
      BeforeKey(cmp, f.items[i].key, LargestOf(f), key);
      PartsOf(f.items[i]);
      NotVisibleBefore(cmp, f.items[i].key, user, s);
    }
  }

  lemma BeforeKey(cmp: Comparator, a: seq<Byte>, b: seq<Byte>, c: seq<Byte>)
    requires Ordered(cmp) && Compare(cmp, a, b) <= 0 && Compare(cmp, b, c) < 0
    ensures Compare(cmp, a, c) < 0
  {
    hide Ordered, Compare;
    CompareTransitive(cmp, a, b, c);
    CompareTransitive(cmp, c, a, b);
    CompareTransitive(cmp, b, c, a);
    CompareTransitive(cmp, a, c, a);
  }

  lemma AtOrAfterKey(cmp: Comparator, a: seq<Byte>, b: seq<Byte>, c: seq<Byte>)
    requires Ordered(cmp) && Compare(cmp, a, b) <= 0 && Compare(cmp, a, c) >= 0
    ensures Compare(cmp, b, c) >= 0
  {
    hide Ordered, Compare;
    if Compare(cmp, b, c) < 0 {
      BeforeKey(cmp, a, b, c);
    }
  }

  lemma NotVisibleBefore(cmp: Comparator, key: seq<Byte>, user: seq<Byte>, s: nat)
    requires s <= MAX_SEQUENCE && ParseInternalKey(key).Some? &&
             Compare(cmp, key, InternalKey(user, s, KIND_FOR_SEEK)) < 0
    ensures cmp(UserOf(key), user) == 0 ==> TagOf(key) / 0x100 > s
  {
    KeyParts(user, s, KIND_FOR_SEEK);
    hide InternalKey, Pack;
  }

  /** Later files hold greater keys: for one user key, older entries. */
  lemma LaterIsOlder(cmp: Comparator, files: seq<Table>, i: nat, j: nat)
    requires Ordered(cmp) && SortedFiles(cmp, files) && i < j < |files|
    ensures forall e <- In(files[i]), f <- In(files[j]) :: cmp(e.user, f.user) == 0 ==> e.sequence >= f.sequence
    ensures forall e <- In(files[i]), f <- In(files[j]) :: cmp(e.user, f.user) <= 0
  {
    hide Ordered, Ascending, Compare;
    assert files[i] in files && files[j] in files;
    forall e, f | e in In(files[i]) && f in In(files[j])
      ensures cmp(e.user, f.user) <= 0 && (cmp(e.user, f.user) == 0 ==> e.sequence >= f.sequence)
    {
      var a := ItemOf(files[i], e);
      var b := ItemOf(files[j], f);
      Spans(cmp, files[i], a);
      Spans(cmp, files[j], b);
      var x, y := files[i].items[a].key, files[j].items[b].key;
      CompareTransitive(cmp, x, LargestOf(files[i]), SmallestOf(files[j]));
      CompareTransitive(cmp, x, SmallestOf(files[j]), y);
      PartsOf(files[i].items[a]);
      PartsOf(files[j].items[b]);
      NotAfter(cmp, x, y);
    }
  }

  lemma NotAfter(cmp: Comparator, x: seq<Byte>, y: seq<Byte>)
    requires Compare(cmp, x, y) <= 0
    ensures cmp(UserOf(x), UserOf(y)) <= 0
    ensures cmp(UserOf(x), UserOf(y)) == 0 ==> TagOf(x) / 0x100 >= TagOf(y) / 0x100
  {
  }

  /** The key is before everything in the file. */
  lemma TooLate(cmp: Comparator, f: Table, user: seq<Byte>, s: nat)
    requires Ordered(cmp) && f.Good(cmp) && cmp(user, UserOf(SmallestOf(f))) < 0
    ensures forall e <- In(f) :: cmp(e.user, user) > 0
  {
    hide Ordered, Ascending;
    forall e | e in In(f) ensures cmp(e.user, user) > 0 {
      var i := ItemOf(f, e);
      DI.UsersAscendTo(cmp, f.items, 0, i);
      Transitive(cmp, user, UserOf(SmallestOf(f)), e.user);
      Transitive(cmp, user, e.user, user);
    }
  }

  /** A file after one whose entries are all beyond the key. */
  lemma LaterTooLate(cmp: Comparator, files: seq<Table>, i: nat, j: nat, x: Entry, user: seq<Byte>, s: nat)
    requires Ordered(cmp) && SortedFiles(cmp, files) && i < j < |files| && x in In(files[i]) && cmp(x.user, user) > 0
    ensures Hit(cmp, In(files[j]), user, s, Missing)
  {
    hide Ordered, SortedFiles;
    LaterIsOlder(cmp, files, i, j);
    forall e | e in In(files[j]) ensures !Visible(cmp, e, user, s) {
      Transitive(cmp, x.user, user, user);
      Transitive(cmp, user, x.user, e.user);
      Transitive(cmp, user, e.user, user);
    }
  }

  /** In a sorted level the answer can only be in the first file that does not end before the lookup key. */
  method SortedGet(cmp: Comparator, files: seq<Table>, user: seq<Byte>, s: nat) returns (r: Lookup)
    requires Ordered(cmp) && SortedFiles(cmp, files) && s <= MAX_SEQUENCE
    ensures Hit(cmp, InAny(files), user, s, r)
  {
    hide Ordered, SortedFiles, InternalKey, Compare, Hit, Ascending, InAny, In;
    var key := InternalKey(user, s, KIND_FOR_SEEK);
    var index := FindFile(cmp, files, key);
    forall i | 0 <= i < |files| ensures files[i].Good(cmp) { GoodAt(cmp, files, i); }
    forall i | 0 <= i < index ensures Hit(cmp, In(files[i]), user, s, Missing) {
      BeforeIsInvisible(cmp, files[i], user, s);
    }
    if index >= |files| {
      NoHit(cmp, Each(files), user, s);
      EachIsAny(files);
      return Missing;
    }
    var f := files[index];
    if cmp(user, UserOf(f.Smallest())) < 0 {
      NothingFrom(cmp, files, index, user, s);
      return Missing;
    }
    r := TableGet(cmp, f, user, s);
    OneFileDecides(cmp, files, index, user, s, r);
  }

  lemma GoodAt(cmp: Comparator, files: seq<Table>, i: nat)
    requires SortedFiles(cmp, files) && i < |files|
    ensures files[i].Good(cmp)
  {
    assert files[i] in files;
  }

  lemma EachIsAny(files: seq<Table>)
    ensures InAny(files) == Union(Each(files))
  {
  }

  lemma NothingFrom(cmp: Comparator, files: seq<Table>, index: nat, user: seq<Byte>, s: nat)
    requires Ordered(cmp) && SortedFiles(cmp, files) && index < |files|
    requires forall i :: 0 <= i < index ==> Hit(cmp, In(files[i]), user, s, Missing)
    requires cmp(user, UserOf(SmallestOf(files[index]))) < 0
    ensures Hit(cmp, InAny(files), user, s, Missing)
  {
    GoodAt(cmp, files, index);
    var f := files[index];
    var x := FirstEntry(cmp, f);
    TooLate(cmp, f, user, s);
    hide Ordered, SortedFiles, In;
    forall i | 0 <= i < |files| ensures Hit(cmp, In(files[i]), user, s, Missing) {
      if i > index {
        LaterTooLate(cmp, files, index, i, x, user, s);
      }
    }
    hide Hit;
    NoHit(cmp, Each(files), user, s);
  }

  lemma FirstEntry(cmp: Comparator, f: Table) returns (x: Entry)
    requires f.Good(cmp)
    ensures x in In(f) && x.user == UserOf(SmallestOf(f))
  {
    hide Ascending;
    var item := f.items[0];
    assert item in f.items;
    PartsOf(item);
    x := EntryOf(item);
  }

  lemma LastEntry(cmp: Comparator, f: Table) returns (x: Entry)
    requires f.Good(cmp)
    ensures x in In(f) && x.user == UserOf(LargestOf(f)) && x.sequence == TagOf(LargestOf(f)) / 0x100
  {
    hide Ascending;
    var item := f.items[|f.items| - 1];
    assert item in f.items;
    PartsOf(item);
    x := EntryOf(item);
  }

  /** What the one file that is looked into says holds for the level. */
  lemma OneFileDecides(cmp: Comparator, files: seq<Table>, index: nat, user: seq<Byte>, s: nat, r: Lookup)
    requires Ordered(cmp) && SortedFiles(cmp, files) && index < |files| && s <= MAX_SEQUENCE
    requires forall i :: 0 <= i < index ==> Hit(cmp, In(files[i]), user, s, Missing)
    requires Compare(cmp, LargestOf(files[index]), InternalKey(user, s, KIND_FOR_SEEK)) >= 0
    requires Hit(cmp, In(files[index]), user, s, r)
    ensures Hit(cmp, InAny(files), user, s, r)
  {
    hide Ordered, SortedFiles, InternalKey, Compare, In, Hit, InAny;
    if r == Missing {
      PastTheKey(cmp, files, index, user, s);
      forall i | 0 <= i < |files| ensures Hit(cmp, In(files[i]), user, s, Missing) {}
      NoHit(cmp, Each(files), user, s);
      EachIsAny(files);
    } else {
      HitInSorted(cmp, files, index, user, s, r);
    }
  }

  /** If the file ends at or after the lookup key and yet does not have it, later files do not either. */
  lemma PastTheKey(cmp: Comparator, files: seq<Table>, index: nat, user: seq<Byte>, s: nat)
    requires Ordered(cmp) && SortedFiles(cmp, files) && index < |files| && s <= MAX_SEQUENCE
    requires Compare(cmp, LargestOf(files[index]), InternalKey(user, s, KIND_FOR_SEEK)) >= 0
    requires Hit(cmp, In(files[index]), user, s, Missing)
    ensures forall j :: index < j < |files| ==> Hit(cmp, In(files[j]), user, s, Missing)
  {
    GoodAt(cmp, files, index);
    var x := LastEntry(cmp, files[index]);
    if cmp(x.user, user) == 0 {
      AtOrAfterIsVisible(cmp, LargestOf(files[index]), user, s);
    }
    UserNotBefore(cmp, LargestOf(files[index]), user, s);
    hide Ordered, SortedFiles, InternalKey, Compare, In;
    assert cmp(x.user, user) > 0;
    forall j | index < j < |files| ensures Hit(cmp, In(files[j]), user, s, Missing) {
      LaterTooLate(cmp, files, index, j, x, user, s);
    }
  }

  lemma UserNotBefore(cmp: Comparator, key: seq<Byte>, user: seq<Byte>, s: nat)
    requires s <= MAX_SEQUENCE && Compare(cmp, key, InternalKey(user, s, KIND_FOR_SEEK)) >= 0
    ensures cmp(UserOf(key), user) >= 0
  {
    KeyParts(user, s, KIND_FOR_SEEK);
    hide InternalKey, Pack;
  }

  lemma HitInSorted(cmp: Comparator, files: seq<Table>, index: nat, user: seq<Byte>, s: nat, r: Lookup)
    requires Ordered(cmp) && SortedFiles(cmp, files) && index < |files| && r != Missing
    requires forall i :: 0 <= i < index ==> Hit(cmp, In(files[i]), user, s, Missing)
    requires Hit(cmp, In(files[index]), user, s, r)
    ensures Hit(cmp, InAny(files), user, s, r)
  {
    hide Ordered, SortedFiles, In, InAny;
    var e :| e in In(files[index]) && Latest(cmp, In(files[index]), user, s, e) && r == Shown(e);
    forall f | f in InAny(files) && Visible(cmp, f, user, s) ensures f.sequence <= e.sequence {
      EachIsAny(files);
      var i :| 0 <= i < |Each(files)| && f in Each(files)[i];
      assert i >= index;
      if i > index {
        LaterIsOlder(cmp, files, index, i);
        EqualUsers(cmp, e.user, f.user, user);
      }
    }
    EachIsAny(files);
    assert e in Each(files)[index];
    assert Latest(cmp, InAny(files), user, s, e);
  }

  // ----- A version, and the database -----

  ghost function Levels(levels: seq<seq<Table>>): (layers: seq<set<Entry>>)
    ensures |layers| == |levels| && forall i :: 0 <= i < |levels| ==> layers[i] == InAny(levels[i])
  {
    seq(|levels|, i requires 0 <= i < |levels| => InAny(levels[i]))
  }

  /** The files of level 0 may overlap; those of the others are sorted. */
  ghost predicate GoodVersion(cmp: Comparator, levels: seq<seq<Table>>) {
    forall l :: 0 <= l < |levels| ==>
      if l == 0 then AllTables(cmp, levels[0]) && ByAge(cmp, levels[0]) else SortedFiles(cmp, levels[l])
  }

  /** Level by level, until one has the key. */
  method VersionGet(cmp: Comparator, levels: seq<seq<Table>>, user: seq<Byte>, s: nat) returns (r: Lookup)
    requires Ordered(cmp) && GoodVersion(cmp, levels) && NewestFirst(cmp, Levels(levels)) && s <= MAX_SEQUENCE
    ensures Hit(cmp, Union(Levels(levels)), user, s, r)
  {
    hide Ordered, SortedFiles, Hit, InAny, NewestFirst, ByAge, AllTables, Union;
    ghost var layers := Levels(levels);
    for l := 0 to |levels|
      invariant forall i :: 0 <= i < l ==> Hit(cmp, layers[i], user, s, Missing)
    {
      if l == 0 {
        r := OverlappingGet(cmp, levels[0], user, s);
      } else {
        r := SortedGet(cmp, levels[l], user, s);
      }
      if r != Missing {
        FirstHit(cmp, layers, user, s, l, r);
        return;
      }
    }
    NoHit(cmp, layers, user, s);
    r := Missing;
  }

  ghost function SetOf(entries: multiset<Entry>): set<Entry> {
    set e <- entries
  }

  lemma TagsOrder(e: Entry, f: Entry)
    requires e.Fits() && f.Fits() && f.Tag() <= e.Tag()
    ensures f.sequence <= e.sequence
  {
  }

  /** A memtable's answer is the answer from its entries. */
  lemma AnswerIsHit(cmp: Comparator, entries: multiset<Entry>, user: seq<Byte>, s: nat, r: Lookup)
    requires Answer(cmp, entries, user, s, r) && forall e <- entries :: e.Fits()
    ensures Hit(cmp, SetOf(entries), user, s, r)
  {
    hide Entry.Tag, Entry.Fits, Shown;
    if r != Missing {
      var e :| e in entries && Visible(cmp, e, user, s) && r == Shown(e) && Highest(cmp, entries, user, s, e);
      forall f | f in SetOf(entries) && Visible(cmp, f, user, s) ensures f.sequence <= e.sequence {
        assert f.Tag() <= e.Tag();
        TagsOrder(e, f);
      }
      assert Latest(cmp, SetOf(entries), user, s, e);
    }
  }

  /** Where the database keeps its entries, newest first. */
  ghost function Layers(mem: MemTable, imm: MemTable?, levels: seq<seq<Table>>): seq<set<Entry>>
    reads mem, imm
  {
    [SetOf(mem.entries), if imm == null then {} else SetOf(imm.entries), Union(Levels(levels))]
  }

  /** What a client reads: the value that the newest visible entry there is gives to the key. */
  method Get(mem: MemTable, imm: MemTable?, levels: seq<seq<Table>>, user: seq<Byte>, s: nat)
    returns (value: Option<seq<Byte>>)
    requires mem.Valid() && (imm != null ==> imm.Valid() && imm.cmp == mem.cmp)
    requires |user| + 8 < POW32 && s <= MAX_SEQUENCE
    requires GoodVersion(mem.cmp, levels) && NewestFirst(mem.cmp, Levels(levels))
    requires NewestFirst(mem.cmp, Layers(mem, imm, levels)) && Distinct(mem.cmp, Union(Layers(mem, imm, levels)))
    ensures value == Read(mem.cmp, Union(Layers(mem, imm, levels)), user, s)
  {
    hide Ordered, Hit, Distinct, NewestFirst, Union, GoodVersion, Answer, Read, Encodes, SetOf;
    ghost var layers, n := Layers(mem, imm, levels), 0;
    var r := mem.Get(user, s);
    MemTableFits(mem);
    AnswerIsHit(mem.cmp, mem.entries, user, s, r);
    if r == Missing {
      n := 1;
      if imm != null {
        r := imm.Get(user, s);
        MemTableFits(imm);
        AnswerIsHit(mem.cmp, imm.entries, user, s, r);
      } else {
        NothingThere(mem.cmp, user, s);
      }
      if r == Missing {
        n := 2;
        r := VersionGet(mem.cmp, levels, user, s);
      }
    }
    assert Hit(mem.cmp, layers[n], user, s, r) && forall i :: 0 <= i < n ==> Hit(mem.cmp, layers[i], user, s, Missing);
    AnyLayer(mem.cmp, layers, user, s, n, r);
    HitIsRead(mem.cmp, Union(layers), user, s, r);
    value := if r.Found? then Some(r.value) else None;
  }

  lemma MemTableFits(mem: MemTable)
    requires mem.Valid()
    ensures forall e <- mem.entries :: e.Fits()
  {
  }

  lemma NothingThere(cmp: Comparator, user: seq<Byte>, s: nat)
    ensures Hit(cmp, {}, user, s, Missing)
  {
  }

  lemma AnyLayer(cmp: Comparator, layers: seq<set<Entry>>, user: seq<Byte>, s: nat, n: nat, r: Lookup)
    requires Ordered(cmp) && NewestFirst(cmp, layers) && n < |layers| && Hit(cmp, layers[n], user, s, r)
    requires forall i :: 0 <= i < n ==> Hit(cmp, layers[i], user, s, Missing)
    requires r == Missing ==> n + 1 == |layers|
    ensures Hit(cmp, Union(layers), user, s, r)
  {
    hide Ordered, Hit, NewestFirst, Union;
    if r == Missing {
      NoHit(cmp, layers, user, s);
    } else {
      FirstHit(cmp, layers, user, s, n, r);
    }
  }
}

/** Which tables a compaction takes: those that overlap a range, on level 0 with all that overlap them in turn, and as
    many more as bring in no further table of the next level. */
module CompactionInputs {
  import opened Bytes
  import opened SkipLists
  import opened DbFormat
  import opened MemTables
  import opened Compaction
  import opened CompactionMeaning
  import opened Lookups
  import opened CompactedVersions

  // ----- Tables that overlap a range -----

  /** A range of user keys; an end that is missing is open. */
  datatype Range = Range(begin: Option<seq<Byte>>, end: Option<seq<Byte>>)

  function Start(f: Table): seq<Byte> {
    UserOf(SmallestOf(f))
  }

  function Limit(f: Table): seq<Byte> {
    UserOf(LargestOf(f))
  }

  predicate Touches(cmp: Comparator, f: Table, r: Range) {
    && (r.begin.Some? ==> cmp(Limit(f), r.begin.value) >= 0)
    && (r.end.Some? ==> cmp(Start(f), r.end.value) <= 0)
  }

  predicate Inside(cmp: Comparator, f: Table, r: Range) {
    && (r.begin.Some? ==> cmp(Start(f), r.begin.value) >= 0)
    && (r.end.Some? ==> cmp(Limit(f), r.end.value) <= 0)
  }

  /** The tables that overlap the range, in their order. */
  function Overlapping(cmp: Comparator, files: seq<Table>, r: Range): (s: seq<Table>)
    ensures forall f :: f in s <==> f in files && Touches(cmp, f, r)
  {
    if files == [] then []
    else
      var n := |files| - 1;
      Overlapping(cmp, files[..n], r) + if Touches(cmp, files[n], r) then [files[n]] else []
  }

  /** No table reaches over an end of the range. */
  ghost predicate Closed(cmp: Comparator, files: seq<Table>, r: Range) {
    forall f <- files :: Touches(cmp, f, r) ==> Inside(cmp, f, r)
  }

  /** Open where the other range is, and otherwise at least as wide. */
  predicate Widens(cmp: Comparator, r: Range, q: Range) {
    && (r.begin.Some? <==> q.begin.Some?) && (r.end.Some? <==> q.end.Some?)
    && (r.begin.Some? ==> cmp(r.begin.value, q.begin.value) <= 0)
    && (r.end.Some? ==> cmp(q.end.value, r.end.value) <= 0)
  }

  /** How many tables reach beyond the range on either side; a measure of how often it can still grow. */
  function Outside(cmp: Comparator, files: seq<Table>, r: Range): nat {
    if files == [] then 0
    else
      Outside(cmp, files[1..], r)
      + (if r.begin.Some? && cmp(Start(files[0]), r.begin.value) < 0 then 1 else 0)
      + (if r.end.Some? && cmp(Limit(files[0]), r.end.value) > 0 then 1 else 0)
  }

  lemma {:induction false} CoveringLess(cmp: Comparator, files: seq<Table>, r: Range, q: Range)
    requires Ordered(cmp) && Widens(cmp, r, q)
    ensures Outside(cmp, files, r) <= Outside(cmp, files, q)
  {
    hide Ordered;
    if files != [] {
      CoveringLess(cmp, files[1..], r, q);
      if r.begin.Some? {
        Transitive(cmp, Start(files[0]), r.begin.value, q.begin.value);
      }
      if r.end.Some? {
        Transitive(cmp, q.end.value, r.end.value, Limit(files[0]));
        Transitive(cmp, r.end.value, Limit(files[0]), r.end.value);
        Transitive(cmp, q.end.value, Limit(files[0]), r.end.value);
      }
    }
  }

  /** The range grown to the start, or to the end, of a table that reaches over it. */
  lemma {:induction false} GrowsTo(cmp: Comparator, files: seq<Table>, r: Range, q: Range, i: nat)
    requires Ordered(cmp) && Widens(cmp, r, q) && i < |files|
    requires (r.begin == Some(Start(files[i])) && cmp(Start(files[i]), q.begin.value) < 0) ||
             (r.end == Some(Limit(files[i])) && cmp(Limit(files[i]), q.end.value) > 0)
    ensures Outside(cmp, files, r) < Outside(cmp, files, q)
  {
    hide Ordered;
    if i == 0 {
      CoveringLess(cmp, files[1..], r, q);
      var f := files[0];
      if r.begin.Some? {
        Transitive(cmp, Start(f), r.begin.value, q.begin.value);
        Transitive(cmp, Start(f), Start(f), Start(f));
      }
      if r.end.Some? {
        Transitive(cmp, q.end.value, r.end.value, Limit(f));
        Transitive(cmp, r.end.value, Limit(f), r.end.value);
        Transitive(cmp, q.end.value, Limit(f), r.end.value);
        Transitive(cmp, Limit(f), Limit(f), Limit(f));
      }
    } else {
      GrowsTo(cmp, files[1..], r, q, i - 1);
      CoveringLess(cmp, [files[0]], r, q);
      assert [files[0]][1..] == [];
    }
  }

  lemma OneMoreFile(cmp: Comparator, files: seq<Table>, i: nat, r: Range)
    requires i < |files|
    ensures Overlapping(cmp, files[..i + 1], r) ==
            Overlapping(cmp, files[..i], r) + if Touches(cmp, files[i], r) then [files[i]] else []
  {
    assert files[..i + 1][..i] == files[..i];
  }

  lemma ItWidens(cmp: Comparator, r: Range)
    requires Ordered(cmp)
    ensures Widens(cmp, r, r)
  {
  }

  lemma WidensMore(cmp: Comparator, r: Range, q: Range, p: Range)
    requires Ordered(cmp) && Widens(cmp, r, q) && Widens(cmp, q, p)
    ensures Widens(cmp, r, p)
  {
  }

  /** Every closed range at least as wide as the one asked for is at least as wide as this one. */
  ghost predicate Least(cmp: Comparator, files: seq<Table>, r: Range, asked: Range) {
    forall w :: Widens(cmp, w, asked) && Closed(cmp, files, w) ==> Widens(cmp, w, r)
  }

  /** The range reaching as far as the table does, at one end. */
  function Grown(cmp: Comparator, f: Table, r: Range): Range {
    if r.begin.Some? && cmp(Start(f), r.begin.value) < 0 then r.(begin := Some(Start(f)))
    else if r.end.Some? && cmp(Limit(f), r.end.value) > 0 then r.(end := Some(Limit(f)))
    else r
  }

  lemma GrownOrInside(cmp: Comparator, f: Table, r: Range)
    requires Ordered(cmp)
    ensures Grown(cmp, f, r) == r <==> Inside(cmp, f, r)
    ensures Widens(cmp, Grown(cmp, f, r), r)
  {
  }

  /** A range that has to grow for a table it touches is still no wider than any closed one. */
  lemma StaysLeast(cmp: Comparator, files: seq<Table>, r: Range, asked: Range, f: Table)
    requires Ordered(cmp) && Least(cmp, files, r, asked) && f in files && Touches(cmp, f, r)
    ensures Least(cmp, files, Grown(cmp, f, r), asked)
  {
    hide Ordered;
    forall w | Widens(cmp, w, asked) && Closed(cmp, files, w) ensures Widens(cmp, w, Grown(cmp, f, r)) {
      assert Widens(cmp, w, r);
      WiderTouches(cmp, f, w, r);
      assert Inside(cmp, f, w);
      if w.begin.Some? { Flipped(cmp, Start(f), w.begin.value); }
    }
  }

  /** Growing the range leads closer to the closed one that is asked for. */
  lemma GrowsOn(cmp: Comparator, files: seq<Table>, i: nat, r: Range, asked: Range)
    requires Ordered(cmp) && i < |files| && Widens(cmp, r, asked) && Least(cmp, files, r, asked)
    requires Touches(cmp, files[i], r) && Grown(cmp, files[i], r) != r
    ensures var q := Grown(cmp, files[i], r);
            Widens(cmp, q, asked) && Least(cmp, files, q, asked) && Outside(cmp, files, q) < Outside(cmp, files, r)
  {
    hide Ordered, Least, Touches, Outside;
    var q := Grown(cmp, files[i], r);
    GrownOrInside(cmp, files[i], r);
    StaysLeast(cmp, files, r, asked, files[i]);
    WidensMore(cmp, q, r, asked);
    GrowsTo(cmp, files, q, r, i);
  }

  lemma Flipped(cmp: Comparator, a: seq<Byte>, b: seq<Byte>)
    requires Ordered(cmp)
    ensures cmp(a, b) >= 0 <==> cmp(b, a) <= 0
    ensures cmp(a, b) <= 0 <==> cmp(b, a) >= 0
  {
  }

  lemma WiderTouches(cmp: Comparator, f: Table, w: Range, q: Range)
    requires Ordered(cmp) && Widens(cmp, w, q) && Touches(cmp, f, q)
    ensures Touches(cmp, f, w)
  {
  }

  /** What GetOverlappingInputs finds: on the sorted levels the tables that overlap the range; on level 0 those that
      overlap the least range around it that cuts no table. */
  ghost predicate Found(cmp: Comparator, files: seq<Table>, zero: bool, asked: Range, r: Range, inputs: seq<Table>) {
    && inputs == Overlapping(cmp, files, r)
    && if zero then Widens(cmp, r, asked) && Closed(cmp, files, r) && Least(cmp, files, r, asked) else r == asked
  }

  method GetOverlappingInputs(cmp: Comparator, files: seq<Table>, zero: bool, asked: Range)
    returns (inputs: seq<Table>, r: Range)
    requires Ordered(cmp)
    ensures Found(cmp, files, zero, asked, r, inputs)
  {
    hide Ordered, Touches, Inside, Widens, Least, Grown;
    r, inputs := asked, [];
    ItWidens(cmp, asked);
    AskedIsLeast(cmp, files, asked);
    var i := 0;
    while i < |files|
      invariant i <= |files| && inputs == Overlapping(cmp, files[..i], r)
      invariant if zero then Widens(cmp, r, asked) && Closed(cmp, files[..i], r) && Least(cmp, files, r, asked)
                else r == asked
      decreases Outside(cmp, files, r), |files| - i
    {
      var f := files[i];
      OneMoreFile(cmp, files, i, r);
      i := i + 1;
      if Touches(cmp, f, r) {
        inputs := inputs + [f];
        if zero {
          GrownOrInside(cmp, f, r);
          if Grown(cmp, f, r) != r {
            GrowsOn(cmp, files, i - 1, r, asked);
            r, inputs, i := Grown(cmp, f, r), [], 0;
          }
        }
      }
    }
    assert files[..i] == files;
  }

  lemma AskedIsLeast(cmp: Comparator, files: seq<Table>, asked: Range)
    ensures Least(cmp, files, asked, asked)
  {
  }

  // ----- The range tables cover together -----

  ghost predicate LeastKey(cmp: Comparator, files: seq<Table>, k: seq<Byte>) {
    (exists f <- files :: k == SmallestOf(f)) && forall f <- files :: Compare(cmp, k, SmallestOf(f)) <= 0
  }

  ghost predicate GreatestKey(cmp: Comparator, files: seq<Table>, k: seq<Byte>) {
    (exists f <- files :: k == LargestOf(f)) && forall f <- files :: Compare(cmp, LargestOf(f), k) <= 0
  }

  /** The smallest and the largest key of these tables. */
  ghost predicate Hull(cmp: Comparator, files: seq<Table>, smallest: seq<Byte>, largest: seq<Byte>) {
    LeastKey(cmp, files, smallest) && GreatestKey(cmp, files, largest)
  }

  method GetRange(cmp: Comparator, inputs: seq<Table>) returns (smallest: seq<Byte>, largest: seq<Byte>)
    requires Ordered(cmp) && inputs != []
    ensures Hull(cmp, inputs, smallest, largest)
  {
    hide Ordered, Compare;
    smallest, largest := SmallestOf(inputs[0]), LargestOf(inputs[0]);
    CompareTransitive(cmp, smallest, smallest, smallest);
    CompareTransitive(cmp, largest, largest, largest);
    assert inputs[..1] == [inputs[0]];
    for i := 1 to |inputs|
      invariant Hull(cmp, inputs[..i], smallest, largest)
    {
      var f := inputs[i];
      assert inputs[..i + 1] == inputs[..i] + [f] && f in inputs[..i + 1];
      HullGrows(cmp, inputs[..i], smallest, largest, f);
      if Compare(cmp, SmallestOf(f), smallest) < 0 {
        smallest := SmallestOf(f);
      }
      if Compare(cmp, LargestOf(f), largest) > 0 {
        largest := LargestOf(f);
      }
    }
    assert inputs[..|inputs|] == inputs;
  }

  lemma HullGrows(cmp: Comparator, files: seq<Table>, smallest: seq<Byte>, largest: seq<Byte>, f: Table)
    requires Ordered(cmp) && Hull(cmp, files, smallest, largest)
    ensures Hull(cmp, files + [f],
                 if Compare(cmp, SmallestOf(f), smallest) < 0 then SmallestOf(f) else smallest,
                 if Compare(cmp, LargestOf(f), largest) > 0 then LargestOf(f) else largest)
  {
    hide Ordered, Compare, LeastKey, GreatestKey;
    LeastGrows(cmp, files, smallest, f);
    GreatestGrows(cmp, files, largest, f);
  }

  lemma LeastGrows(cmp: Comparator, files: seq<Table>, k: seq<Byte>, f: Table)
    requires Ordered(cmp) && LeastKey(cmp, files, k)
    ensures LeastKey(cmp, files + [f], if Compare(cmp, SmallestOf(f), k) < 0 then SmallestOf(f) else k)
  {
    hide Ordered, Compare;
    var s := SmallestOf(f);
    CompareTransitive(cmp, s, k, s);
    CompareTransitive(cmp, k, s, s);
    assert f in files + [f] && forall g <- files :: g in files + [f];
    forall g | g in files ensures Compare(cmp, s, k) < 0 ==> Compare(cmp, s, SmallestOf(g)) <= 0 {
      CompareTransitive(cmp, s, k, SmallestOf(g));
    }
  }

  lemma GreatestGrows(cmp: Comparator, files: seq<Table>, k: seq<Byte>, f: Table)
    requires Ordered(cmp) && GreatestKey(cmp, files, k)
    ensures GreatestKey(cmp, files + [f], if Compare(cmp, LargestOf(f), k) > 0 then LargestOf(f) else k)
  {
    hide Ordered, Compare;
    var l := LargestOf(f);
    CompareTransitive(cmp, l, k, l);
    CompareTransitive(cmp, k, l, l);
    assert f in files + [f] && forall g <- files :: g in files + [f];
    forall g | g in files ensures Compare(cmp, l, k) > 0 ==> Compare(cmp, LargestOf(g), l) <= 0 {
      CompareTransitive(cmp, LargestOf(g), k, l);
    }
  }

  function Between(smallest: seq<Byte>, largest: seq<Byte>): Range {
    Range(Some(UserOf(smallest)), Some(UserOf(largest)))
  }

  lemma ByUser(cmp: Comparator, a: seq<Byte>, b: seq<Byte>)
    ensures Compare(cmp, a, b) <= 0 ==> cmp(UserOf(a), UserOf(b)) <= 0
    ensures cmp(UserOf(a), UserOf(b)) < 0 ==> Compare(cmp, a, b) < 0
  {
  }

  /** The tables lie inside the range they cover, and so they touch it. */
  lemma HullHolds(cmp: Comparator, files: seq<Table>, smallest: seq<Byte>, largest: seq<Byte>, f: Table)
    requires Ordered(cmp) && Hull(cmp, files, smallest, largest) && f in files && f.Good(cmp)
    ensures Inside(cmp, f, Between(smallest, largest)) && Touches(cmp, f, Between(smallest, largest))
  {
    hide Ordered, Ascending, Compare;
    ByUser(cmp, smallest, SmallestOf(f));
    ByUser(cmp, LargestOf(f), largest);
    Lookups.Spans(cmp, f, |f.items| - 1);
    ByUser(cmp, SmallestOf(f), LargestOf(f));
    Flipped(cmp, Start(f), UserOf(smallest));
    Chained(cmp, UserOf(smallest), Start(f), Limit(f));
    Chained(cmp, Start(f), Limit(f), UserOf(largest));
  }

  lemma Chained(cmp: Comparator, a: seq<Byte>, b: seq<Byte>, c: seq<Byte>)
    requires Ordered(cmp) && cmp(a, b) <= 0 && cmp(b, c) <= 0
    ensures cmp(a, c) <= 0 && cmp(c, a) >= 0
  {
  }

  // ----- What a compaction takes -----

  function TotalFileSize(files: seq<Table>, sizeOf: Table -> nat): nat {
    if files == [] then 0 else sizeOf(files[0]) + TotalFileSize(files[1..], sizeOf)
  }

  /** All tables of the level, but those taken, lie beside the range. */
  ghost predicate NoneLeft(cmp: Comparator, files: seq<Table>, taken: seq<Table>, r: Range) {
    forall f <- files :: f in taken || !Touches(cmp, f, r)
  }

  /** The tables are from level 0, and no other table there overlaps the range they cover. */
  ghost predicate Isolated(cmp: Comparator, files: seq<Table>, taken: seq<Table>) {
    exists s, l :: Hull(cmp, taken, s, l) && NoneLeft(cmp, files, taken, Between(s, l))
  }

  /** From the next level exactly those tables are taken that overlap the range the upper ones cover. */
  ghost predicate Matches(cmp: Comparator, files: seq<Table>, upper: seq<Table>, lower: seq<Table>) {
    exists s, l :: Hull(cmp, upper, s, l) && lower == Overlapping(cmp, files, Between(s, l))
  }

  /** The tables found for the range that these cover. */
  ghost predicate PeersOf(cmp: Comparator, files: seq<Table>, zero: bool, inputs: seq<Table>, peers: seq<Table>) {
    exists s, l, r :: Hull(cmp, inputs, s, l) && Found(cmp, files, zero, Between(s, l), r, peers)
  }

  /** The tables of the next level that go with these. */
  method Parents(cmp: Comparator, files: seq<Table>, inputs: seq<Table>) returns (lower: seq<Table>)
    requires Ordered(cmp) && inputs != []
    ensures Matches(cmp, files, inputs, lower)
  {
    hide Ordered, Hull, Overlapping;
    var s, l := GetRange(cmp, inputs);
    var found, r := GetOverlappingInputs(cmp, files, false, Between(s, l));
    lower := found;
  }

  /** The tables of the level that overlap the range of these. */
  method Peers(cmp: Comparator, files: seq<Table>, zero: bool, inputs: seq<Table>, ghost some: seq<Table>)
    returns (peers: seq<Table>)
    requires Ordered(cmp) && inputs != [] && AllTables(cmp, files)
    requires forall f <- some :: f in files && f in inputs
    ensures PeersOf(cmp, files, zero, inputs, peers)
    ensures (forall f <- peers :: f in files) && forall f <- some :: f in peers
    ensures zero && peers != [] ==> Isolated(cmp, files, peers)
  {
    hide Ordered, Hull, Table.Good, Touches, Widens, Closed, Least, Isolated;
    var s, l := GetRange(cmp, inputs);
    var found, r := GetOverlappingInputs(cmp, files, zero, Between(s, l));
    peers := found;
    forall f | f in some ensures f in peers {
      HullHolds(cmp, inputs, s, l, f);
      if zero { WiderTouches(cmp, f, r, Between(s, l)); }
    }
    if zero && peers != [] {
      var s', l' := GetRange(cmp, peers);
      ClosedIsIsolated(cmp, files, r, peers, s', l');
    }
  }

  lemma ClosedIsIsolated(cmp: Comparator, files: seq<Table>, r: Range, taken: seq<Table>, s: seq<Byte>, l: seq<Byte>)
    requires Ordered(cmp) && Closed(cmp, files, r) && taken == Overlapping(cmp, files, r)
    requires Hull(cmp, taken, s, l)
    ensures Isolated(cmp, files, taken)
  {
    hide Ordered, Compare;
    var q := Between(s, l);
    var f :| f in taken && s == SmallestOf(f);
    var g :| g in taken && l == LargestOf(g);
    assert Inside(cmp, f, r) && Inside(cmp, g, r);
    if r.begin.Some? { Flipped(cmp, Start(f), r.begin.value); }
    forall h | h in files && Touches(cmp, h, q) ensures h in taken {
      if r.begin.Some? {
        Flipped(cmp, Limit(h), UserOf(s));
        Chained(cmp, r.begin.value, UserOf(s), Limit(h));
      }
      if r.end.Some? {
        Chained(cmp, Start(h), UserOf(l), r.end.value);
      }
      assert Touches(cmp, h, r);
    }
  }

  lemma WiderHull(cmp: Comparator, files: seq<Table>, s: seq<Byte>, l: seq<Byte>, more: seq<Table>, s': seq<Byte>,
                  l': seq<Byte>)
    requires Ordered(cmp) && Hull(cmp, files, s, l) && Hull(cmp, more, s', l') && forall f <- files :: f in more
    ensures Widens(cmp, Between(s', l'), Between(s, l))
  {
    hide Ordered, Compare;
    ByUser(cmp, s', s);
    ByUser(cmp, l, l');
  }

  lemma {:induction false} WiderOverlaps(cmp: Comparator, files: seq<Table>, r: Range, q: Range)
    requires Ordered(cmp) && Widens(cmp, r, q)
    ensures var some, all := Overlapping(cmp, files, q), Overlapping(cmp, files, r);
            |some| <= |all| && (|some| == |all| ==> some == all)
    decreases |files|
  {
    hide Ordered, Touches, Widens;
    if files != [] {
      var n := |files| - 1;
      WiderOverlaps(cmp, files[..n], r, q);
      if Touches(cmp, files[n], q) { WiderTouches(cmp, files[n], r, q); }
    }
  }

  /** If a wider set of tables goes with no more of the next level, it goes with the same. */
  lemma SameParents(cmp: Comparator, files: seq<Table>, inputs: seq<Table>, more: seq<Table>, lower: seq<Table>,
                    lower': seq<Table>)
    requires Ordered(cmp) && Matches(cmp, files, inputs, lower) && Matches(cmp, files, more, lower')
    requires |lower'| == |lower| && forall f <- inputs :: f in more
    ensures lower' == lower
  {
    hide Ordered, Hull, Overlapping, Widens;
    var s, l :| Hull(cmp, inputs, s, l) && lower == Overlapping(cmp, files, Between(s, l));
    var s', l' :| Hull(cmp, more, s', l') && lower' == Overlapping(cmp, files, Between(s', l'));
    WiderHull(cmp, inputs, s, l, more, s', l');
    WiderOverlaps(cmp, files, Between(s', l'), Between(s, l));
  }

  /** Both are determined by the tables one begins with. */
  lemma OneMatch(cmp: Comparator, files: seq<Table>, inputs: seq<Table>, a: seq<Table>, b: seq<Table>)
    requires Ordered(cmp) && Matches(cmp, files, inputs, a) && Matches(cmp, files, inputs, b)
    ensures a == b
  {
    hide Ordered, Hull, Overlapping, Widens;
    var s, l :| Hull(cmp, inputs, s, l) && a == Overlapping(cmp, files, Between(s, l));
    var s', l' :| Hull(cmp, inputs, s', l') && b == Overlapping(cmp, files, Between(s', l'));
    WiderHull(cmp, inputs, s, l, inputs, s', l');
    WiderHull(cmp, inputs, s', l', inputs, s, l);
    WiderOverlaps(cmp, files, Between(s', l'), Between(s, l));
    WiderOverlaps(cmp, files, Between(s, l), Between(s', l'));
  }

  lemma OnePeers(cmp: Comparator, files: seq<Table>, zero: bool, inputs: seq<Table>, a: seq<Table>, b: seq<Table>)
    requires Ordered(cmp) && PeersOf(cmp, files, zero, inputs, a) && PeersOf(cmp, files, zero, inputs, b)
    ensures a == b
  {
    hide Ordered, Hull, Overlapping, Widens, Found;
    var s, l, r :| Hull(cmp, inputs, s, l) && Found(cmp, files, zero, Between(s, l), r, a);
    var s', l', r' :| Hull(cmp, inputs, s', l') && Found(cmp, files, zero, Between(s', l'), r', b);
    WiderHull(cmp, inputs, s, l, inputs, s', l');
    WiderHull(cmp, inputs, s', l', inputs, s, l);
    NoWider(cmp, files, zero, Between(s, l), r, a, Between(s', l'), r', b);
    NoWider(cmp, files, zero, Between(s', l'), r', b, Between(s, l), r, a);
    WiderOverlaps(cmp, files, r, r');
    WiderOverlaps(cmp, files, r', r);
    FoundIs(cmp, files, zero, r, a, r', b);
  }

  lemma FoundIs(cmp: Comparator, files: seq<Table>, zero: bool, r: Range, a: seq<Table>, r': Range, b: seq<Table>)
    requires exists asked :: Found(cmp, files, zero, asked, r, a)
    requires exists asked :: Found(cmp, files, zero, asked, r', b)
    ensures a == Overlapping(cmp, files, r) && b == Overlapping(cmp, files, r')
  {
  }

  lemma NoWider(cmp: Comparator, files: seq<Table>, zero: bool, asked: Range, r: Range, a: seq<Table>, asked': Range,
                r': Range, b: seq<Table>)
    requires Ordered(cmp) && Found(cmp, files, zero, asked, r, a) && Found(cmp, files, zero, asked', r', b)
    requires Widens(cmp, asked', asked)
    ensures Widens(cmp, r', r)
  {
    hide Ordered, Widens, Closed, Overlapping;
    if zero {
      WidensMore(cmp, r', asked', asked);
    }
  }

  lemma MatchesLevel(cmp: Comparator, files: seq<Table>, upper: seq<Table>, lower: seq<Table>)
    requires Matches(cmp, files, upper, lower)
    ensures forall f <- lower :: f in files
  {
  }

  /** The tables of the level that overlap all that is to be merged so far are taken too, if that makes more of them, if
      they are not too large together with those of the next level, and if no more of the next level go with them. */
  ghost predicate Grows(cmp: Comparator, levels: seq<seq<Table>>, level: nat, inputs: seq<Table>, lower: seq<Table>,
                        sizeOf: Table -> nat, sizeLimit: int, more: seq<Table>)
    requires level + 1 < |levels|
  {
    && lower != [] && PeersOf(cmp, levels[level], level == 0, inputs + lower, more) && |more| > |inputs|
    && TotalFileSize(lower, sizeOf) + TotalFileSize(more, sizeOf) < sizeLimit
    && Matches(cmp, levels[level + 1], more, lower)
  }

  /** Adds the tables of the next level, and to the tables of this one as many more as that brings in no other table of
      the next. */
  method SetupOtherInputs(cmp: Comparator, levels: seq<seq<Table>>, level: nat, inputs: seq<Table>,
                          sizeOf: Table -> nat, sizeLimit: int)
    returns (upper: seq<Table>, lower: seq<Table>)
    requires Ordered(cmp) && GoodVersion(cmp, levels) && level + 1 < |levels|
    requires inputs != [] && forall f <- inputs :: f in levels[level]
    ensures Job(levels, level, upper, lower).Valid(cmp) && forall f <- inputs :: f in upper
    ensures Matches(cmp, levels[level + 1], upper, lower) && Matches(cmp, levels[level + 1], inputs, lower)
    ensures upper == inputs || Grows(cmp, levels, level, inputs, lower, sizeOf, sizeLimit, upper)
    ensures upper == inputs ==> forall more :: !Grows(cmp, levels, level, inputs, lower, sizeOf, sizeLimit, more)
    ensures level == 0 && Isolated(cmp, levels[0], inputs) ==> Isolated(cmp, levels[0], upper)
  {
    hide Ordered, TotalFileSize, GoodVersion, Isolated, Matches, PeersOf;
    LevelGood(cmp, levels, level);
    upper := inputs;
    lower := Parents(cmp, levels[level + 1], inputs);
    MatchesLevel(cmp, levels[level + 1], inputs, lower);
    if lower != [] {
      var expanded := Peers(cmp, levels[level], level == 0, inputs + lower, inputs);
      if |expanded| > |inputs| && TotalFileSize(lower, sizeOf) + TotalFileSize(expanded, sizeOf) < sizeLimit {
        var expanded1 := Parents(cmp, levels[level + 1], expanded);
        if |expanded1| == |lower| {
          SameParents(cmp, levels[level + 1], inputs, expanded, lower, expanded1);
          assert Grows(cmp, levels, level, inputs, lower, sizeOf, sizeLimit, expanded);
          upper, lower := expanded, expanded1;
          return;
        }
        NotThese(cmp, levels[level + 1], expanded, lower, expanded1);
      }
      NoGrowth(cmp, levels, level, inputs, lower, sizeOf, sizeLimit, expanded);
    }
  }

  lemma NotThese(cmp: Comparator, files: seq<Table>, inputs: seq<Table>, a: seq<Table>, b: seq<Table>)
    requires Ordered(cmp) && Matches(cmp, files, inputs, b) && |a| != |b|
    ensures !Matches(cmp, files, inputs, a)
  {
    hide Ordered, Matches;
    if Matches(cmp, files, inputs, a) {
      OneMatch(cmp, files, inputs, a, b);
    }
  }

  lemma NoGrowth(cmp: Comparator, levels: seq<seq<Table>>, level: nat, inputs: seq<Table>, lower: seq<Table>,
                 sizeOf: Table -> nat, sizeLimit: int, some: seq<Table>)
    requires Ordered(cmp) && level + 1 < |levels|
    requires PeersOf(cmp, levels[level], level == 0, inputs + lower, some)
    requires |some| <= |inputs| || TotalFileSize(lower, sizeOf) + TotalFileSize(some, sizeOf) >= sizeLimit ||
             !Matches(cmp, levels[level + 1], some, lower)
    ensures forall more :: !Grows(cmp, levels, level, inputs, lower, sizeOf, sizeLimit, more)
  {
    hide Ordered, Matches, PeersOf, TotalFileSize;
    forall more | Grows(cmp, levels, level, inputs, lower, sizeOf, sizeLimit, more) ensures false {
      OnePeers(cmp, levels[level], level == 0, inputs + lower, some, more);
    }
  }

  lemma LevelGood(cmp: Comparator, levels: seq<seq<Table>>, l: nat)
    requires GoodVersion(cmp, levels) && l < |levels|
    ensures AllTables(cmp, levels[l])
  {
  }

  /** The first i tables do not end after the key. */
  ghost predicate NoneAfter(cmp: Comparator, files: seq<Table>, i: nat, key: seq<Byte>)
    requires i <= |files|
  {
    forall j :: 0 <= j < i ==> Compare(cmp, LargestOf(files[j]), key) <= 0
  }

  /** The i-th table is the first that ends after the key, if there is one, and otherwise the first of all. */
  ghost predicate FirstAfter(cmp: Comparator, files: seq<Table>, pointer: Option<seq<Byte>>, i: nat)
    requires i < |files|
  {
    if pointer == None || NoneAfter(cmp, files, |files|, pointer.value) then i == 0
    else Compare(cmp, LargestOf(files[i]), pointer.value) > 0 && NoneAfter(cmp, files, i, pointer.value)
  }

  /** The table the next compaction of a level begins with: the first behind the last one compacted. */
  method FirstToCompact(cmp: Comparator, files: seq<Table>, pointer: Option<seq<Byte>>) returns (f: Table)
    requires files != []
    ensures exists i :: 0 <= i < |files| && FirstAfter(cmp, files, pointer, i) && files[i] == f
  {
    hide Compare;
    for i := 0 to |files|
      invariant i > 0 ==> pointer.Some? && NoneAfter(cmp, files, i, pointer.value)
    {
      if pointer == None || Compare(cmp, LargestOf(files[i]), pointer.value) > 0 {
        assert FirstAfter(cmp, files, pointer, i);
        return files[i];
      }
    }
    assert FirstAfter(cmp, files, pointer, 0);
    f := files[0];
  }

  /** A compaction because a level has grown too large, or because a table (`seek`) was looked into in vain too
      often. */
  method PickCompaction(cmp: Comparator, levels: seq<seq<Table>>, level: nat, seek: Option<Table>,
                        pointer: Option<seq<Byte>>, sizeOf: Table -> nat, sizeLimit: int)
    returns (upper: seq<Table>, lower: seq<Table>)
    requires Ordered(cmp) && GoodVersion(cmp, levels) && level + 1 < |levels| && levels[level] != []
    requires seek.Some? ==> seek.value in levels[level]
    ensures Job(levels, level, upper, lower).Valid(cmp) && Matches(cmp, levels[level + 1], upper, lower)
    ensures level == 0 ==> Isolated(cmp, levels[0], upper)
    ensures seek.Some? ==> seek.value in upper
    ensures seek == None ==>
              var files := levels[level];
              exists i :: 0 <= i < |files| && FirstAfter(cmp, files, pointer, i) && files[i] in upper
  {
    hide Ordered, GoodVersion, Isolated, Matches;
    LevelGood(cmp, levels, level);
    var f;
    if seek.Some? {
      f := seek.value;
    } else {
      f := FirstToCompact(cmp, levels[level], pointer);
    }
    var inputs := [f];
    if level == 0 {
      inputs := Peers(cmp, levels[0], true, inputs, inputs);
      assert f in inputs;
    }
    upper, lower := SetupOtherInputs(cmp, levels, level, inputs, sizeOf, sizeLimit);
  }

  /** The first tables, up to the one with which they are large enough. */
  function FirstOf(files: seq<Table>, sizeOf: Table -> nat, limit: nat): (r: seq<Table>)
    ensures r <= files && (files != [] ==> r != [])
    ensures r != files ==> TotalFileSize(r, sizeOf) >= limit
    ensures |r| > 1 ==> TotalFileSize(r[..|r| - 1], sizeOf) < limit
  {
    if files == [] then []
    else if sizeOf(files[0]) >= limit then [files[0]]
    else
      var more := FirstOf(files[1..], sizeOf, limit - sizeOf(files[0]));
      assert more != [] ==>
          ([files[0]] + more)[..|more|] == [files[0]] + more[..|more| - 1] &&
          ([files[0]] + more[..|more| - 1])[1..] == more[..|more| - 1];
      [files[0]] + more
  }

  /** A compaction of a range; of a large one just the first part, but not on level 0. */
  method CompactRange(cmp: Comparator, levels: seq<seq<Table>>, level: nat, range: Range, maxSize: nat,
                      sizeOf: Table -> nat, sizeLimit: int)
    returns (upper: seq<Table>, lower: seq<Table>)
    requires Ordered(cmp) && GoodVersion(cmp, levels) && level + 1 < |levels|
    ensures upper == [] <==> forall f <- levels[level] :: !Touches(cmp, f, range)
    ensures upper != [] ==> Job(levels, level, upper, lower).Valid(cmp) && Matches(cmp, levels[level + 1], upper, lower)
    ensures upper != [] && level == 0 ==>
              Isolated(cmp, levels[0], upper) && forall f <- levels[0] :: Touches(cmp, f, range) ==> f in upper
    ensures level > 0 ==>
              forall f <- FirstOf(Overlapping(cmp, levels[level], range), sizeOf, maxSize) :: f in upper
  {
    hide Ordered, GoodVersion, Isolated, Matches, Touches, AllTables, Closed, Least, Overlapping;
    LevelGood(cmp, levels, level);
    var inputs, r := GetOverlappingInputs(cmp, levels[level], level == 0, range);
    upper, lower := [], [];
    FoundAny(cmp, levels[level], level == 0, range, r, inputs);
    if inputs == [] {
      return;
    }
    if level > 0 {
      inputs := FirstOf(inputs, sizeOf, maxSize);
    } else {
      ghost var s, l := GetRange(cmp, inputs);
      FoundIsIsolated(cmp, levels[0], range, r, inputs, s, l);
    }
    upper, lower := SetupOtherInputs(cmp, levels, level, inputs, sizeOf, sizeLimit);
  }

  /** Some table is found exactly if one overlaps the range that was asked for, and then this one is among them. */
  lemma FoundAny(cmp: Comparator, files: seq<Table>, zero: bool, asked: Range, r: Range, inputs: seq<Table>)
    requires Ordered(cmp) && Found(cmp, files, zero, asked, r, inputs)
    ensures inputs == [] <==> forall f <- files :: !Touches(cmp, f, asked)
    ensures forall f <- inputs :: f in files
    ensures forall f <- files :: Touches(cmp, f, asked) ==> f in inputs
  {
    hide Ordered, Touches, Inside, Widens;
    if zero {
      forall f | f in files && Touches(cmp, f, asked) ensures f in inputs {
        WiderTouches(cmp, f, r, asked);
      }
      if forall f <- files :: !Touches(cmp, f, asked) {
        ItWidens(cmp, asked);
        assert Widens(cmp, asked, r);
        if inputs != [] {
          assert inputs[0] in inputs;
          WiderTouches(cmp, inputs[0], asked, r);
        }
      }
    }
    assert inputs != [] ==> inputs[0] in inputs;
  }

  lemma FoundIsIsolated(cmp: Comparator, files: seq<Table>, asked: Range, r: Range, inputs: seq<Table>, s: seq<Byte>,
                        l: seq<Byte>)
    requires Ordered(cmp) && Found(cmp, files, true, asked, r, inputs) && Hull(cmp, inputs, s, l)
    ensures Isolated(cmp, files, inputs)
  {
    hide Ordered;
    ClosedIsIsolated(cmp, files, r, inputs, s, l);
  }

  // ----- What was chosen can be compacted -----

  lemma RangeOfEntry(cmp: Comparator, f: Table, e: Entry)
    requires Ordered(cmp) && f.Good(cmp) && e in In(f)
    ensures cmp(Start(f), e.user) <= 0 && cmp(e.user, Limit(f)) <= 0
  {
    hide Ordered, Ascending, Compare;
    var i := ItemOf(f, e);
    Lookups.Spans(cmp, f, i);
    ByUser(cmp, SmallestOf(f), f.items[i].key);
    ByUser(cmp, f.items[i].key, LargestOf(f));
  }

  lemma InOrder(cmp: Comparator, files: seq<Table>, f: Table, g: Table)
    requires SortedFiles(cmp, files) && f in files && g in files && f != g
    ensures Apart(cmp, f, g) && f.Good(cmp) && g.Good(cmp)
  {
    hide Compare, Ascending;
    var i :| 0 <= i < |files| && files[i] == f;
    var j :| 0 <= j < |files| && files[j] == g;
  }

  /** One of the tables ends with the user key the other begins with. */
  predicate ShareEdge(cmp: Comparator, f: Table, g: Table) {
    cmp(Limit(f), Start(g)) == 0 || cmp(Limit(g), Start(f)) == 0
  }

  lemma SharedUser(cmp: Comparator, f: Table, g: Table, e: Entry, d: Entry)
    requires Ordered(cmp) && Apart(cmp, f, g) && f.Good(cmp) && g.Good(cmp)
    requires e in In(f) && d in In(g) && cmp(e.user, d.user) == 0
    ensures ShareEdge(cmp, f, g)
  {
    hide Ordered, Compare;
    RangeOfEntry(cmp, f, e);
    RangeOfEntry(cmp, g, d);
    ByUser(cmp, LargestOf(f), SmallestOf(g));
    ByUser(cmp, LargestOf(g), SmallestOf(f));
    Pinched(cmp, d.user, e.user, Limit(f), Start(g));
    Pinched(cmp, e.user, d.user, Limit(g), Start(f));
  }

  lemma Pinched(cmp: Comparator, a: seq<Byte>, b: seq<Byte>, c: seq<Byte>, d: seq<Byte>)
    requires Ordered(cmp)
    ensures cmp(a, b) == 0 <==> cmp(b, a) == 0
    ensures cmp(a, b) == 0 && cmp(b, c) <= 0 && cmp(c, d) <= 0 && cmp(d, a) <= 0 ==> cmp(c, d) == 0
  {
  }

  lemma EdgeEntries(cmp: Comparator, f: Table, g: Table) returns (e: Entry, d: Entry)
    requires f.Good(cmp) && g.Good(cmp) && cmp(Limit(f), Start(g)) == 0
    ensures e in In(f) && d in In(g) && cmp(e.user, d.user) == 0
  {
    e := LastEntry(cmp, f);
    d := FirstEntry(cmp, g);
  }

  /** No table taken shares a user key with one that is left on its level, at the edge where they meet. */
  ghost predicate CleanEdges(cmp: Comparator, left: seq<Table>, taken: seq<Table>) {
    forall f <- left, g <- taken :: !ShareEdge(cmp, f, g)
  }

  /** No entry of the one is for a user key of the other. */
  ghost predicate NoUserInBoth(cmp: Comparator, a: set<Entry>, b: set<Entry>) {
    forall e <- a, d <- b :: cmp(e.user, d.user) != 0
  }

  /** On a sorted level it takes a shared edge for a user key to be both in what is taken and in what is left. */
  lemma EdgesDecide(cmp: Comparator, files: seq<Table>, taken: seq<Table>)
    requires Ordered(cmp) && SortedFiles(cmp, files) && forall f <- taken :: f in files
    ensures NoUserInBoth(cmp, InAny(Others(files, taken)), InAny(taken)) <==>
            CleanEdges(cmp, Others(files, taken), taken)
  {
    hide Ordered, SortedFiles, InAny, In, ShareEdge, Apart, Table.Good, Others;
    var left := Others(files, taken);
    if CleanEdges(cmp, left, taken) {
      forall e, d | e in InAny(left) && d in InAny(taken) ensures cmp(e.user, d.user) != 0 {
        InAnyMeans(left, e);
        InAnyMeans(taken, d);
        var f :| f in left && e in In(f);
        var g :| g in taken && d in In(g);
        InOrder(cmp, files, f, g);
        if cmp(e.user, d.user) == 0 { SharedUser(cmp, f, g, e, d); }
      }
    } else {
      var f, g :| f in left && g in taken && ShareEdge(cmp, f, g);
      InOrder(cmp, files, f, g);
      EdgeInBoth(cmp, left, taken, f, g);
    }
  }

  lemma EdgeInBoth(cmp: Comparator, left: seq<Table>, taken: seq<Table>, f: Table, g: Table)
    requires Ordered(cmp) && f in left && g in taken && f.Good(cmp) && g.Good(cmp) && ShareEdge(cmp, f, g)
    ensures !NoUserInBoth(cmp, InAny(left), InAny(taken))
  {
    hide Ordered, InAny, In, Table.Good;
    if cmp(Limit(f), Start(g)) == 0 {
      var e, d := EdgeEntries(cmp, f, g);
      InAnyMeans(left, e);
      InAnyMeans(taken, d);
    } else {
      var d, e := EdgeEntries(cmp, g, f);
      InAnyMeans(left, e);
      InAnyMeans(taken, d);
      Flip(cmp, d.user, e.user);
    }
  }

  /** What lies beside a range has no user key of the tables inside it. */
  lemma BesideRange(cmp: Comparator, files: seq<Table>, taken: seq<Table>, inside: seq<Table>, s: seq<Byte>,
                    l: seq<Byte>)
    requires Ordered(cmp) && AllTables(cmp, files) && AllTables(cmp, inside)
    requires Hull(cmp, inside, s, l) && NoneLeft(cmp, files, taken, Between(s, l))
    ensures NoUserInBoth(cmp, InAny(Others(files, taken)), InAny(inside))
  {
    hide Ordered, InAny, In, Table.Good, Touches, Inside, Hull, Others;
    forall e, d | e in InAny(Others(files, taken)) && d in InAny(inside) ensures cmp(e.user, d.user) != 0 {
      InAnyMeans(Others(files, taken), e);
      InAnyMeans(inside, d);
      var f :| f in Others(files, taken) && e in In(f);
      var g :| g in inside && d in In(g);
      HullHolds(cmp, inside, s, l, g);
      if cmp(e.user, d.user) == 0 { TouchesWithUser(cmp, f, g, Between(s, l), e, d); }
    }
  }

  lemma TouchesWithUser(cmp: Comparator, f: Table, g: Table, r: Range, e: Entry, d: Entry)
    requires Ordered(cmp) && f.Good(cmp) && g.Good(cmp) && e in In(f) && d in In(g) && cmp(e.user, d.user) == 0
    requires Inside(cmp, g, r)
    ensures Touches(cmp, f, r)
  {
    RangeOfEntry(cmp, f, e);
    RangeOfEntry(cmp, g, d);
    hide In, Table.Good;
  }

  /** The tables chosen for a compaction, on level 0 with all that overlap them. */
  ghost predicate Chosen(cmp: Comparator, job: Job)
    requires job.level + 1 < |job.levels|
  {
    && Matches(cmp, job.levels[job.level + 1], job.upper, job.lower)
    && (job.level == 0 ==> Isolated(cmp, job.levels[0], job.upper))
  }

  /** All entries for the user keys that are compacted are taken exactly if no table taken from a sorted level ends with
      the user key with which the next one there, left behind, begins, or begins with the one with which such a table
      ends. */
  lemma TakesAllExactly(cmp: Comparator, job: Job)
    requires job.Valid(cmp) && Chosen(cmp, job)
    ensures job.TakesAllOf(cmp) <==>
            && (job.level > 0 ==> CleanEdges(cmp, job.Left()[job.level], job.upper))
            && CleanEdges(cmp, job.Left()[job.level + 1], job.lower)
  {
    hide Ordered, InAny, SortedFiles, ByAge, CleanEdges, Others, Hull, Overlapping, Touches, Table.Good;
    var files, next := job.levels[job.level], job.levels[job.level + 1];
    var left, below := InAny(job.Left()[job.level]), InAny(job.Left()[job.level + 1]);
    LevelGood(cmp, job.levels, job.level);
    LevelGood(cmp, job.levels, job.level + 1);
    var s, l :| Hull(cmp, job.upper, s, l) && job.lower == Overlapping(cmp, next, Between(s, l));
    BesideRange(cmp, next, job.lower, job.upper, s, l);
    EdgesDecide(cmp, next, job.lower);
    if job.level == 0 {
      var s', l' :| Hull(cmp, job.upper, s', l') && NoneLeft(cmp, files, job.upper, Between(s', l'));
      BesideRange(cmp, files, job.upper, job.upper, s', l');
    } else {
      EdgesDecide(cmp, files, job.upper);
    }
    assert job.TakesAllOf(cmp) <==>
           NoUserInBoth(cmp, left, InAny(job.upper)) && NoUserInBoth(cmp, below, job.Taken());
    assert NoUserInBoth(cmp, below, job.Taken()) <==> NoUserInBoth(cmp, below, InAny(job.lower));
  }

  // ----- Where the output fits in -----

  /** The item of a table that is this one of the merged input. */
  lemma SourceOf(cmp: Comparator, job: Job, items: seq<Item>, item: Item) returns (f: Table, i: nat)
    requires job.Valid(cmp) && job.Merges(cmp, items) && item in items
    ensures f in job.upper || f in job.lower
    ensures i < |f.items| && f.items[i].Parsed().Some? && Compare(cmp, f.items[i].key, item.key) == 0
  {
    hide Ordered, GoodVersion, InAny, Ascending;
    var e := EntryOf(item);
    assert e in job.Taken();
    InAnyMeans(job.upper, e);
    InAnyMeans(job.lower, e);
    f :| (f in job.upper || f in job.lower) && e in In(f);
    i := ItemOf(f, e);
    EqualKeys(cmp, f.items[i], item);
  }

  /** All of g, if it is among the upper tables or goes with them, lies on one and the same side of a table beside the
      range that they cover. */
  lemma OnOneSide(cmp: Comparator, files: seq<Table>, f: Table, g: Table, k: nat, s: seq<Byte>, l: seq<Byte>)
    requires Ordered(cmp) && f.Good(cmp) && g.Good(cmp) && k < |g.items| && !Touches(cmp, f, Between(s, l))
    requires Inside(cmp, g, Between(s, l)) ||
             (SortedFiles(cmp, files) && f in files && g in files && Touches(cmp, g, Between(s, l)))
    ensures if cmp(Limit(f), UserOf(s)) < 0 then Compare(cmp, LargestOf(f), g.items[k].key) < 0
            else Compare(cmp, g.items[k].key, SmallestOf(f)) < 0
  {
    hide Ordered, Compare, Ascending, SortedFiles;
    Lookups.Spans(cmp, g, k);
    Lookups.Spans(cmp, f, 0);
    ByUser(cmp, SmallestOf(g), g.items[k].key);
    ByUser(cmp, g.items[k].key, LargestOf(g));
    var user, before := UserOf(g.items[k].key), cmp(Limit(f), UserOf(s)) < 0;
    if Inside(cmp, g, Between(s, l)) {
      ByUser(cmp, LargestOf(f), g.items[k].key);
      ByUser(cmp, g.items[k].key, SmallestOf(f));
      if before {
        Flipped(cmp, Start(g), UserOf(s));
        Transitive(cmp, Limit(f), UserOf(s), Start(g));
        Transitive(cmp, Limit(f), Start(g), user);
      } else {
        Flipped(cmp, Start(f), UserOf(l));
        Transitive(cmp, Start(f), UserOf(l), Start(f));
        Transitive(cmp, Limit(g), UserOf(l), Start(f));
        Transitive(cmp, user, Limit(g), Start(f));
      }
    } else {
      InOrder(cmp, files, f, g);
      SideOf(cmp, f, g, s, l);
      CompareChain(cmp, LargestOf(f), SmallestOf(g), g.items[k].key);
      CompareChain(cmp, g.items[k].key, LargestOf(g), SmallestOf(f));
    }
  }

  lemma CompareChain(cmp: Comparator, a: seq<Byte>, b: seq<Byte>, c: seq<Byte>)
    requires Ordered(cmp)
    ensures Compare(cmp, a, b) < 0 && Compare(cmp, b, c) <= 0 ==> Compare(cmp, a, c) < 0
    ensures Compare(cmp, a, b) <= 0 && Compare(cmp, b, c) < 0 ==> Compare(cmp, a, c) < 0
  {
    hide Ordered, Compare;
    CompareTransitive(cmp, a, b, c);
    CompareTransitive(cmp, c, a, b);
    CompareTransitive(cmp, b, c, a);
    CompareTransitive(cmp, a, c, a);
    CompareTransitive(cmp, c, b, a);
    CompareTransitive(cmp, b, a, c);
  }

  lemma SideOf(cmp: Comparator, f: Table, g: Table, s: seq<Byte>, l: seq<Byte>)
    requires Ordered(cmp) && f.Good(cmp) && g.Good(cmp) && Apart(cmp, f, g)
    requires !Touches(cmp, f, Between(s, l)) && Touches(cmp, g, Between(s, l))
    ensures if cmp(Limit(f), UserOf(s)) < 0 then Compare(cmp, LargestOf(f), SmallestOf(g)) < 0
            else Compare(cmp, LargestOf(g), SmallestOf(f)) < 0
  {
    hide Ordered, Compare, Ascending;
    Lookups.Spans(cmp, f, |f.items| - 1);
    Lookups.Spans(cmp, g, |g.items| - 1);
    ByUser(cmp, SmallestOf(f), LargestOf(f));
    ByUser(cmp, SmallestOf(g), LargestOf(g));
    ByUser(cmp, LargestOf(f), SmallestOf(g));
    ByUser(cmp, LargestOf(g), SmallestOf(f));
    if cmp(Limit(f), UserOf(s)) < 0 {
      Flipped(cmp, Limit(g), UserOf(s));
      Transitive(cmp, Limit(f), UserOf(s), Limit(g));
      Transitive(cmp, Limit(f), Limit(g), Start(f));
      Transitive(cmp, Limit(f), Start(f), Limit(f));
    } else {
      Transitive(cmp, Start(g), UserOf(l), Start(f));
      Transitive(cmp, Start(f), UserOf(l), Start(f));
      Transitive(cmp, Start(f), Limit(f), Start(g));
      Transitive(cmp, Limit(f), Start(g), Start(f));
    }
  }

  /** Every table of the next level that is left behind lies before all that is compacted, or after all of it. */
  lemma ChosenIsClear(cmp: Comparator, job: Job, items: seq<Item>)
    requires job.Valid(cmp) && job.Merges(cmp, items) && Chosen(cmp, job)
    ensures forall f <- job.Left()[job.level + 1] :: Clear(cmp, f, items)
  {
    hide Ordered, InAny, SortedFiles, ByAge, Others, Hull, Touches, Table.Good, Compare, Ascending, Job.Merges, Inside;
    var next := job.levels[job.level + 1];
    LevelGood(cmp, job.levels, job.level);
    LevelGood(cmp, job.levels, job.level + 1);
    var s, l :| Hull(cmp, job.upper, s, l) && job.lower == Overlapping(cmp, next, Between(s, l));
    forall f | f in job.Left()[job.level + 1] ensures Clear(cmp, f, items) {
      forall item | item in items
        ensures if cmp(Limit(f), UserOf(s)) < 0 then Compare(cmp, LargestOf(f), item.key) < 0
                else Compare(cmp, item.key, SmallestOf(f)) < 0
      {
        var g, k := SourceOf(cmp, job, items, item);
        if g in job.upper { HullHolds(cmp, job.upper, s, l, g); }
        OnOneSide(cmp, next, f, g, k, s, l);
        SameSide(cmp, f, g.items[k].key, item.key);
      }
    }
  }

  lemma SameSide(cmp: Comparator, f: Table, a: seq<Byte>, b: seq<Byte>)
    requires Ordered(cmp) && Compare(cmp, a, b) == 0
    ensures Compare(cmp, LargestOf(f), a) < 0 ==> Compare(cmp, LargestOf(f), b) < 0
    ensures Compare(cmp, a, SmallestOf(f)) < 0 ==> Compare(cmp, b, SmallestOf(f)) < 0
  {
    hide Ordered, Compare;
    CompareTransitive(cmp, b, a, b);
    CompareTransitive(cmp, a, b, a);
    CompareChain(cmp, LargestOf(f), a, b);
    CompareChain(cmp, b, a, SmallestOf(f));
  }

  /** From choosing the tables to the new version: where no user key lies across the edge of a table that is taken, no
      answer changes from the smallest snapshot on, and the levels stay in order and layered. */
  method PickAndCompact(cmp: Comparator, levels: seq<seq<Table>>, level: nat, seek: Option<Table>,
                        pointer: Option<seq<Byte>>, sizeOf: Table -> nat, sizeLimit: int,
                        merge: (seq<Table>, seq<Table>) -> seq<Item>, smallest: nat, number: nat,
                        stopBefore: seq<Byte> -> bool, bigEnough: seq<Item> -> bool, world: World,
                        ghost newer: set<Entry>)
    returns (ok: bool, levels': seq<seq<Table>>, ghost job: Job)
    requires Ordered(cmp) && GoodVersion(cmp, levels) && |levels| == NUM_LEVELS && level + 1 < NUM_LEVELS
    requires levels[level] != [] && (seek.Some? ==> seek.value in levels[level]) && smallest < MAX_SEQUENCE
    requires NewestFirst(cmp, [newer] + Levels(levels)) && Distinct(cmp, All(newer, levels))
    requires forall upper, lower ::
               Job(levels, level, upper, lower).Valid(cmp) ==>
                 Job(levels, level, upper, lower).Merges(cmp, merge(upper, lower))
    ensures job.levels == levels && job.level == level && job.Valid(cmp) && Chosen(cmp, job)
    ensures GoodVersion(cmp, levels') && |levels'| == NUM_LEVELS
    ensures && (level > 0 ==> CleanEdges(cmp, job.Left()[level], job.upper))
            && CleanEdges(cmp, job.Left()[level + 1], job.lower) ==>
              && NewestFirst(cmp, [newer] + Levels(levels'))
              && KeepsAnswers(cmp, All(newer, levels), All(newer, levels'), smallest)
  {
    hide Ordered, GoodVersion, NewestFirst, Distinct, Job.TakesAllOf, Job.Merges, Clear, KeepsAnswers, CleanEdges,
         Matches, Isolated, ComesBack, FirstAfter, Job.Left, Job.Rest, Union, All, Levels, PlaceIn;
    var upper, lower := PickCompaction(cmp, levels, level, seek, pointer, sizeOf, sizeLimit);
    var j := Job(levels, level, upper, lower);
    var items := merge(upper, lower);
    job := j;
    TakesAllExactly(cmp, j);
    ChosenIsClear(cmp, j, items);
    ok, levels' := CompactVersion(cmp, j, items, smallest, number, stopBefore, bigEnough, world, newer);
  }
}

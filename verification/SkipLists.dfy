/** The skip list: one inserter that links a node level by level, and readers that search it meanwhile. */
module SkipLists {
  import opened Bytes

  const MAX_HEIGHT := 12

  /** Compare is a three-way comparison in a total order. */
  ghost predicate Ordered<Key(!new)>(cmp: (Key, Key) -> int) {
    && (forall a :: cmp(a, a) == 0)
    && (forall a, b :: cmp(a, b) < 0 <==> cmp(b, a) > 0)
    && (forall a, b, c :: cmp(a, b) <= 0 && cmp(b, c) <= 0 ==> cmp(a, c) <= 0)
  }

  lemma Transitive<Key(!new)>(cmp: (Key, Key) -> int, a: Key, b: Key, c: Key)
    requires Ordered(cmp)
    ensures cmp(a, b) < 0 && cmp(b, c) <= 0 ==> cmp(a, c) < 0
    ensures cmp(a, b) <= 0 && cmp(b, c) < 0 ==> cmp(a, c) < 0
    ensures cmp(a, b) < 0 <==> cmp(b, a) > 0
    ensures cmp(a, b) == 0 <==> cmp(b, a) == 0
  {
    if cmp(a, c) >= 0 {
      assert cmp(c, a) <= 0;
      assert cmp(b, c) <= 0 ==> cmp(b, a) <= 0;
      assert cmp(a, b) <= 0 ==> cmp(c, b) <= 0;
    }
  }

  // ----- What the threads share -----

  /** The nodes, numbered as they were allocated; node 0 is the head. A link is absent until it is first stored. */
  datatype Memory<Key> = Memory(keys: seq<Key>, next: map<(nat, nat), Option<nat>>, maxHeight: nat)

  /** Whether node n comes before the key. */
  predicate Below<Key>(cmp: (Key, Key) -> int, keys: seq<Key>, n: nat, key: Key) {
    n < |keys| && cmp(keys[n], key) < 0
  }

  predicate KeyIsAfterNode<Key>(cmp: (Key, Key) -> int, keys: seq<Key>, key: Key, n: Option<nat>) {
    n.Some? && Below(cmp, keys, n.value, key)
  }

  // ----- The invariant -----

  /** The links of one level run through these nodes, head first, in ascending order. */
  ghost predicate Linked<Key>(cmp: (Key, Key) -> int, m: Memory<Key>, list: seq<nat>, level: nat) {
    && list != [] && list[0] == 0
    && (forall i :: 0 <= i < |list| ==> list[i] < |m.keys| && (list[i], level) in m.next)
    && (forall i :: 0 < i < |list| ==> list[i] != 0)
    && (forall i :: 0 <= i < |list| ==> LinkedAt(m, list, level, i))
    && (forall i, j :: 0 < i < j < |list| ==> cmp(m.keys[list[i]], m.keys[list[j]]) < 0)
  }

  /** The link of the node at index i leads to the one after it. */
  ghost predicate LinkedAt<Key>(m: Memory<Key>, list: seq<nat>, level: nat, i: nat)
    requires i < |list| && (list[i], level) in m.next
  {
    m.next[(list[i], level)] == Link(list, i)
  }

  function Link(list: seq<nat>, i: nat): Option<nat>
    requires i < |list|
  {
    if i + 1 < |list| then Some(list[i + 1]) else None
  }

  /** Where the links of a level's nodes stay as they are, so does the level. */
  lemma LinkedStays<Key>(cmp: (Key, Key) -> int, m: Memory<Key>, m': Memory<Key>, list: seq<nat>, level: nat)
    requires Linked(cmp, m, list, level) && m.keys <= m'.keys
    requires forall i :: 0 <= i < |list| ==>
               (list[i], level) in m'.next && m'.next[(list[i], level)] == m.next[(list[i], level)]
    ensures Linked(cmp, m', list, level)
  {
    forall i | 0 <= i < |list| ensures LinkedAt(m', list, level, i) {
      assert LinkedAt(m, list, level, i);
    }
  }

  ghost predicate Sublist(upper: seq<nat>, lower: seq<nat>) {
    forall x :: x in upper ==> x in lower
  }

  ghost predicate Nested(lists: seq<seq<nat>>) {
    forall l, k :: 0 <= k && l == k + 1 && l < |lists| ==> Sublist(lists[l], lists[k])
  }

  /** Every level is a sorted list, and a sublist of the level below it. */
  ghost predicate Good<Key>(cmp: (Key, Key) -> int, m: Memory<Key>, lists: seq<seq<nat>>) {
    && |lists| == MAX_HEIGHT && 1 <= m.maxHeight <= MAX_HEIGHT
    && (forall l :: 0 <= l < MAX_HEIGHT ==> Linked(cmp, m, lists[l], l))
    && Nested(lists)
    && (forall l :: m.maxHeight <= l < MAX_HEIGHT ==> lists[l] == [0])
  }

  /** The nodes up to index p of a level are below the key and those after it are not. */
  ghost predicate Cut<Key>(cmp: (Key, Key) -> int, keys: seq<Key>, list: seq<nat>, key: Key, p: nat) {
    && p < |list|
    && (forall i :: 0 < i <= p ==> Below(cmp, keys, list[i], key))
    && (forall i :: p < i < |list| ==> !Below(cmp, keys, list[i], key))
  }

  lemma CutHere<Key(!new)>(cmp: (Key, Key) -> int, m: Memory<Key>, list: seq<nat>, level: nat, key: Key, p: nat)
    requires Ordered(cmp) && Linked(cmp, m, list, level)
    requires p < |list| && (p == 0 || Below(cmp, m.keys, list[p], key))
    requires !KeyIsAfterNode(cmp, m.keys, key, Link(list, p))
    ensures Cut(cmp, m.keys, list, key, p)
  {
    hide Ordered;
    forall i | 0 < i < p ensures Below(cmp, m.keys, list[i], key) {
      Transitive(cmp, m.keys[list[i]], m.keys[list[p]], key);
    }
    forall i | p + 1 < i < |list| ensures !Below(cmp, m.keys, list[i], key) {
      Transitive(cmp, m.keys[list[p + 1]], m.keys[list[i]], key);
    }
  }

  // ----- A reader that runs while nodes are being linked -----

  /** The shared memory after some store, with the lists its links form. */
  datatype Moment<Key> = Moment(m: Memory<Key>, lists: seq<seq<nat>>)

  /** Nodes keep their keys, and no node is ever unlinked. */
  ghost predicate Grows<Key>(a: Moment<Key>, b: Moment<Key>) {
    && a.m.keys <= b.m.keys && |a.lists| == |b.lists|
    && (forall l :: 0 <= l < |a.lists| ==> Sublist(a.lists[l], b.lists[l]))
  }

  /** Every moment satisfies the invariant, and each only adds to the one before. */
  ghost predicate Run<Key>(cmp: (Key, Key) -> int, h: seq<Moment<Key>>) {
    && (forall i :: 0 <= i < |h| ==> Good(cmp, h[i].m, h[i].lists))
    && (forall i, j :: 0 <= i && j == i + 1 && j < |h| ==> Grows(h[i], h[j]))
  }

  ghost predicate OneLink<Key>(a: Memory<Key>, b: Memory<Key>, x: (nat, nat)) {
    x in b.next && b == a.(next := a.next[x := b.next[x]])
  }

  /** Between two moments one thing was stored: a new node, the height, or a link. */
  ghost predicate OneStore<Key>(a: Memory<Key>, b: Memory<Key>) {
    || (a.keys < b.keys && |b.keys| == |a.keys| + 1 && b == a.(keys := b.keys))
    || b == a.(maxHeight := b.maxHeight)
    || exists x :: OneLink(a, b, x)
  }

  ghost predicate StoreByStore<Key>(h: seq<Moment<Key>>) {
    forall i, j :: 0 <= i && j == i + 1 && j < |h| ==> OneStore(h[i].m, h[j].m)
  }

  lemma LinkStored<Key>(m: Memory<Key>, x: (nat, nat), to: Option<nat>)
    ensures OneStore(m, m.(next := m.next[x := to]))
  {
    assert OneLink(m, m.(next := m.next[x := to]), x);
  }

  lemma {:induction false} GrowsOverRun<Key>(cmp: (Key, Key) -> int, h: seq<Moment<Key>>, i: nat, j: nat)
    requires Run(cmp, h) && i <= j < |h|
    ensures Grows(h[i], h[j])
    decreases j - i
  {
    if i < j {
      GrowsOverRun(cmp, h, i, j - 1);
      assert Grows(h[j - 1], h[j]);
    }
  }

  /** A search by a reader: where it stands, or the link it ended on. */
  datatype Search = Search(x: nat, level: nat) | Done(last: nat, result: Option<nat>)

  /** The reader loads the list's height. */
  function Begin<Key>(m: Memory<Key>): Search
    requires m.maxHeight > 0
  {
    Search(0, m.maxHeight - 1)
  }

  /** The reader loads one link and moves on, down, or is done. */
  function Advance<Key>(cmp: (Key, Key) -> int, m: Memory<Key>, key: Key, s: Search): Search
    requires s.Search? && (s.x, s.level) in m.next
  {
    var next := m.next[(s.x, s.level)];
    if KeyIsAfterNode(cmp, m.keys, key, next) then Search(next.value, s.level)
    else if s.level == 0 then Done(s.x, next)
    else Search(s.x, s.level - 1)
  }

  predicate Loads<Key>(cmp: (Key, Key) -> int, m: Memory<Key>, key: Key, s: Search, s': Search) {
    s.Search? && (s.x, s.level) in m.next && s' == Advance(cmp, m, key, s)
  }

  /** The reader stands on a node that is linked at its level and lies before the key. */
  ghost predicate OnPath<Key>(cmp: (Key, Key) -> int, a: Moment<Key>, key: Key, s: Search) {
    match s
    case Search(x, level) => level < |a.lists| && x in a.lists[level] && (x == 0 || Below(cmp, a.m.keys, x, key))
    case Done(_, _) => true
  }

  /** The node the search ended on was right for the list at that moment. */
  ghost predicate Right<Key>(cmp: (Key, Key) -> int, a: Moment<Key>, key: Key, s: Search)
    requires Good(cmp, a.m, a.lists)
  {
    s.Done? ==>
      exists p: nat :: Cut(cmp, a.m.keys, a.lists[0], key, p) && s.result == Link(a.lists[0], p)
  }

  lemma AdvanceStays<Key(!new)>(cmp: (Key, Key) -> int, a: Moment<Key>, key: Key, s: Search)
    requires Ordered(cmp) && Good(cmp, a.m, a.lists) && s.Search? && OnPath(cmp, a, key, s)
    ensures (s.x, s.level) in a.m.next
    ensures var s' := Advance(cmp, a.m, key, s); OnPath(cmp, a, key, s') && Right(cmp, a, key, s')
  {
    hide Ordered;
    var list := a.lists[s.level];
    assert Linked(cmp, a.m, list, s.level);
    var p :| 0 <= p < |list| && list[p] == s.x;
    assert LinkedAt(a.m, list, s.level, p);
    var s' := Advance(cmp, a.m, key, s);
    if s'.Done? {
      CutHere(cmp, a.m, list, s.level, key, p);
    } else if s'.level < s.level {
      assert Sublist(list, a.lists[s'.level]);
    }
  }

  ghost predicate InOrder(times: seq<nat>) {
    forall j, k :: 0 <= j < k < |times| ==> times[j] <= times[k]
  }

  /** A search in progress: its k-th load happens at moment times[k], and stores may happen between any two. */
  ghost predicate Reads<Key>(cmp: (Key, Key) -> int, h: seq<Moment<Key>>, key: Key, times: seq<nat>,
                             states: seq<Search>)
    requires Run(cmp, h)
  {
    && |times| == |states| > 0
    && (forall k :: 0 <= k < |times| ==> times[k] < |h|)
    && InOrder(times)
    && states[0] == Begin(h[times[0]].m)
    && (forall j, k :: 0 <= j && k == j + 1 && k < |times| ==> Loads(cmp, h[times[k]].m, key, states[j], states[k]))
  }

  /** Whatever is being linked meanwhile, a reader only ever follows links that are set. */
  lemma {:induction false} NeverReadsUnset<Key(!new)>(cmp: (Key, Key) -> int, h: seq<Moment<Key>>, key: Key,
                                                      times: seq<nat>, states: seq<Search>, t: nat)
    requires Ordered(cmp) && Run(cmp, h) && Reads(cmp, h, key, times, states)
    requires times[|times| - 1] <= t < |h|
    ensures OnPath(cmp, h[t], key, states[|states| - 1])
    ensures states[|states| - 1].Search? ==> (states[|states| - 1].x, states[|states| - 1].level) in h[t].m.next
    decreases |times|
  {
    hide Ordered;
    var k := |times| - 1;
    if k > 0 {
      var times', states' := times[..k], states[..k];
      assert Reads(cmp, h, key, times', states') by {
        assert forall i :: 0 <= i < k ==> times'[i] == times[i] && states'[i] == states[i];
      }
      NeverReadsUnset(cmp, h, key, times', states', times[k]);
      assert Loads(cmp, h[times[k]].m, key, states[k - 1], states[k]);
      AdvanceStays(cmp, h[times[k]], key, states[k - 1]);
    }
    GrowsOverRun(cmp, h, times[k], t);
    PathStays(cmp, h[times[k]], h[t], key, states[k]);
  }

  lemma PathStays<Key>(cmp: (Key, Key) -> int, a: Moment<Key>, b: Moment<Key>, key: Key, s: Search)
    requires Grows(a, b) && OnPath(cmp, a, key, s) && Good(cmp, b.m, b.lists)
    ensures OnPath(cmp, b, key, s)
    ensures s.Search? ==> (s.x, s.level) in b.m.next
  {
    if s.Search? {
      assert Sublist(a.lists[s.level], b.lists[s.level]);
      assert Linked(cmp, b.m, b.lists[s.level], s.level);
    }
  }

  /** What a search that began at moment a may return at a later one, b: a node of the list that is not before the
      key, or nothing; and no node that was in the list at a lies between the key and it. */
  ghost predicate Answers<Key>(cmp: (Key, Key) -> int, a: Moment<Key>, b: Moment<Key>, key: Key, r: Option<nat>)
    requires Good(cmp, a.m, a.lists) && Good(cmp, b.m, b.lists)
  {
    && (r.Some? ==> r.value in b.lists[0][1..] && !Below(cmp, b.m.keys, r.value, key))
    && forall y :: y in a.lists[0][1..] && !Below(cmp, b.m.keys, y, key) ==>
         && r.Some?
         && (y == r.value || (y < |b.m.keys| && r.value < |b.m.keys| && cmp(b.m.keys[r.value], b.m.keys[y]) < 0))
  }

  /** A search among concurrent inserts returns a node at or after the key, and misses none that was there when it
      began. */
  lemma SearchIsRight<Key(!new)>(cmp: (Key, Key) -> int, h: seq<Moment<Key>>, key: Key, times: seq<nat>,
                                 states: seq<Search>)
    requires Ordered(cmp) && Run(cmp, h) && Reads(cmp, h, key, times, states)
    requires states[|states| - 1].Done?
    ensures Answers(cmp, h[times[0]], h[times[|times| - 1]], key, states[|states| - 1].result)
  {
    hide Ordered;
    var k := |times| - 1;
    var times', states' := times[..k], states[..k];
    assert Reads(cmp, h, key, times', states') by {
      assert forall i :: 0 <= i < k ==> times'[i] == times[i] && states'[i] == states[i];
    }
    var b := h[times[k]];
    NeverReadsUnset(cmp, h, key, times', states', times[k]);
    assert Loads(cmp, b.m, key, states[k - 1], states[k]);
    AdvanceStays(cmp, b, key, states[k - 1]);
    GrowsOverRun(cmp, h, times[0], times[k]);
    FoundIsRight(cmp, h[times[0]], b, key, states[k]);
  }

  lemma FoundIsRight<Key>(cmp: (Key, Key) -> int, a: Moment<Key>, b: Moment<Key>, key: Key, s: Search)
    requires Good(cmp, a.m, a.lists) && Good(cmp, b.m, b.lists) && Grows(a, b)
    requires s.Done? && Right(cmp, b, key, s)
    ensures Answers(cmp, a, b, key, s.result)
  {
    var list := b.lists[0];
    assert Linked(cmp, b.m, list, 0) && Linked(cmp, a.m, a.lists[0], 0) && Sublist(a.lists[0], list);
    assert a.m.keys <= b.m.keys;
    hide Good, Grows;
    var p: nat :| Cut(cmp, b.m.keys, list, key, p) && s.result == Link(list, p);
    if s.result.Some? {
      assert list[p + 1] == list[1..][p];
    }
    forall y | y in a.lists[0][1..] && !Below(cmp, b.m.keys, y, key)
      ensures s.result.Some? && (y == s.result.value || cmp(b.m.keys[s.result.value], b.m.keys[y]) < 0)
    {
      assert y in a.lists[0];
      var q :| 0 <= q < |list| && list[q] == y;
    }
  }

  // ----- The inserter's stores -----

  /** No node of the level has a key equal to this one. */
  ghost predicate Lacks<Key>(cmp: (Key, Key) -> int, keys: seq<Key>, list: seq<nat>, key: Key) {
    forall i :: 0 < i < |list| ==> list[i] < |keys| && cmp(keys[list[i]], key) != 0
  }

  /** The list with node n after the one at index p. */
  function Spliced(list: seq<nat>, p: nat, n: nat): seq<nat>
    requires p < |list|
  {
    list[..p + 1] + [n] + list[p + 1..]
  }

  /** A store to a link that is on no list changes no list. */
  lemma PrivateStore<Key>(cmp: (Key, Key) -> int, m: Memory<Key>, lists: seq<seq<nat>>, n: nat, level: nat,
                          to: Option<nat>)
    requires Good(cmp, m, lists) && level < MAX_HEIGHT && n !in lists[level]
    ensures Good(cmp, m.(next := m.next[(n, level) := to]), lists)
  {
    var m' := m.(next := m.next[(n, level) := to]);
    forall l | 0 <= l < MAX_HEIGHT ensures Linked(cmp, m', lists[l], l) {
      assert Linked(cmp, m, lists[l], l);
      LinkedStays(cmp, m, m', lists[l], l);
    }
  }

  lemma DistinctNodes<Key(!new)>(cmp: (Key, Key) -> int, m: Memory<Key>, list: seq<nat>, level: nat, i: nat, j: nat)
    requires Ordered(cmp) && Linked(cmp, m, list, level) && i < |list| && j < |list|
    ensures list[i] == list[j] ==> i == j
  {
  }

  /** What is where after the splice. */
  lemma SplicedAt(list: seq<nat>, p: nat, n: nat, i: nat)
    requires p < |list| && i <= |list|
    ensures |Spliced(list, p, n)| == |list| + 1
    ensures Spliced(list, p, n)[i] == if i <= p then list[i] else if i == p + 1 then n else list[i - 1]
  {
  }

  lemma SplicedLinks<Key(!new)>(cmp: (Key, Key) -> int, m: Memory<Key>, list: seq<nat>, level: nat, p: nat, n: nat,
                                i: nat)
    requires Ordered(cmp) && Linked(cmp, m, list, level) && n !in list && p < |list| && i <= |list|
    requires (n, level) in m.next && m.next[(n, level)] == Link(list, p)
    ensures var list', next := Spliced(list, p, n), m.next[(list[p], level) := Some(n)];
            (list'[i], level) in next && next[(list'[i], level)] == Link(list', i)
  {
    hide Ordered, Spliced;
    SplicedAt(list, p, n, i);
    if i < |list| {
      SplicedAt(list, p, n, i + 1);
    }
    if i <= p {
      DistinctNodes(cmp, m, list, level, i, p);
      assert LinkedAt(m, list, level, i);
    } else if i > p + 1 {
      DistinctNodes(cmp, m, list, level, i - 1, p);
      assert LinkedAt(m, list, level, i - 1);
    }
  }

  /** Publishing a node whose own link is already set splices it into the level. */
  lemma PublishingStore<Key(!new)>(cmp: (Key, Key) -> int, m: Memory<Key>, list: seq<nat>, level: nat, p: nat, n: nat)
    requires Ordered(cmp) && Linked(cmp, m, list, level) && 0 < n < |m.keys| && n !in list
    requires Cut(cmp, m.keys, list, m.keys[n], p)
    requires Lacks(cmp, m.keys, list, m.keys[n])
    requires (n, level) in m.next && m.next[(n, level)] == Link(list, p)
    ensures Linked(cmp, m.(next := m.next[(list[p], level) := Some(n)]), Spliced(list, p, n), level)
  {
    var list' := Spliced(list, p, n);
    assert |list'| == |list| + 1;
    SplicedAt(list, p, n, 0);
    hide Ordered, Spliced, Cut, Lacks;
    forall i | 0 <= i < |list'|
      ensures list'[i] < |m.keys| && (i > 0 ==> list'[i] != 0)
      ensures var next := m.next[(list[p], level) := Some(n)];
              (list'[i], level) in next && next[(list'[i], level)] == Link(list', i)
    {
      SplicedAt(list, p, n, i);
      SplicedLinks(cmp, m, list, level, p, n, i);
    }
    forall i, j | 0 < i < j < |list'| ensures cmp(m.keys[list'[i]], m.keys[list'[j]]) < 0 {
      SplicedAscends(cmp, m, list, level, p, n, i, j);
    }
  }

  lemma SplicedAscends<Key(!new)>(cmp: (Key, Key) -> int, m: Memory<Key>, list: seq<nat>, level: nat, p: nat, n: nat,
                                  i: nat, j: nat)
    requires Ordered(cmp) && Linked(cmp, m, list, level) && n !in list && n < |m.keys|
    requires Cut(cmp, m.keys, list, m.keys[n], p)
    requires Lacks(cmp, m.keys, list, m.keys[n])
    requires 0 < i < j < |list| + 1
    ensures var list' := Spliced(list, p, n);
            list'[i] < |m.keys| && list'[j] < |m.keys| && cmp(m.keys[list'[i]], m.keys[list'[j]]) < 0
  {
    hide Ordered;
    var list' := Spliced(list, p, n);
    if j == p + 1 {
      assert list'[i] == list[i] && Below(cmp, m.keys, list[i], m.keys[n]);
    } else if i == p + 1 {
      var first, later := m.keys[list[p + 1]], m.keys[list[j - 1]];
      assert list'[j] == list[j - 1];
      Transitive(cmp, first, m.keys[n], first);
      Transitive(cmp, m.keys[n], first, later);
    } else {
      assert list'[i] == list[if i <= p then i else i - 1];
      assert list'[j] == list[if j <= p then j else j - 1];
    }
  }

  /** Splicing a node that is already on the level below keeps every level a sublist of the one below it. */
  lemma SplicedGood<Key(!new)>(cmp: (Key, Key) -> int, m: Memory<Key>, lists: seq<seq<nat>>, level: nat, p: nat, n: nat)
    requires Ordered(cmp) && Good(cmp, m, lists) && level < m.maxHeight && 0 < n < |m.keys| && n !in lists[level]
    requires Cut(cmp, m.keys, lists[level], m.keys[n], p) && Lacks(cmp, m.keys, lists[level], m.keys[n])
    requires (n, level) in m.next && m.next[(n, level)] == Link(lists[level], p)
    requires level > 0 ==> n in lists[level - 1]
    ensures var m' := m.(next := m.next[(lists[level][p], level) := Some(n)]);
            var lists' := lists[level := Spliced(lists[level], p, n)];
            Good(cmp, m', lists') && Grows(Moment(m, lists), Moment(m', lists'))
  {
    hide Ordered, Spliced, Lacks, Linked, Link, Sublist, Nested;
    SplicedLinked(cmp, m, lists, level, p, n);
    SplicedNested(lists, level, p, n);
  }

  lemma SplicedNested(lists: seq<seq<nat>>, level: nat, p: nat, n: nat)
    requires |lists| == MAX_HEIGHT && level < MAX_HEIGHT && p < |lists[level]| && (level > 0 ==> n in lists[level - 1])
    requires Nested(lists)
    ensures var lists' := lists[level := Spliced(lists[level], p, n)];
            && Nested(lists')
            && (forall l :: 0 <= l < MAX_HEIGHT ==> Sublist(lists[l], lists'[l]))
  {
    SplicedElements(lists[level], p, n);
    hide Spliced;
    var lists' := lists[level := Spliced(lists[level], p, n)];
    forall l, k | 0 <= k && l == k + 1 && l < MAX_HEIGHT ensures Sublist(lists'[l], lists'[k]) {
      assert Sublist(lists[l], lists[k]);
    }
  }

  lemma SplicedLinked<Key(!new)>(cmp: (Key, Key) -> int, m: Memory<Key>, lists: seq<seq<nat>>, level: nat, p: nat,
                                 n: nat)
    requires Ordered(cmp) && Good(cmp, m, lists) && level < m.maxHeight && 0 < n < |m.keys| && n !in lists[level]
    requires Cut(cmp, m.keys, lists[level], m.keys[n], p) && Lacks(cmp, m.keys, lists[level], m.keys[n])
    requires (n, level) in m.next && m.next[(n, level)] == Link(lists[level], p)
    ensures var m' := m.(next := m.next[(lists[level][p], level) := Some(n)]);
            var lists' := lists[level := Spliced(lists[level], p, n)];
            forall l :: 0 <= l < MAX_HEIGHT ==> Linked(cmp, m', lists'[l], l)
  {
    hide Ordered, Spliced, Lacks;
    var list := lists[level];
    var m' := m.(next := m.next[(list[p], level) := Some(n)]);
    assert Linked(cmp, m, list, level);
    PublishingStore(cmp, m, list, level, p, n);
    forall l | 0 <= l < MAX_HEIGHT && l != level ensures Linked(cmp, m', lists[l], l) {
      assert Linked(cmp, m, lists[l], l);
      LinkedStays(cmp, m, m', lists[l], l);
    }
  }

  lemma SplicedElements(list: seq<nat>, p: nat, n: nat)
    requires p < |list|
    ensures forall x :: x in Spliced(list, p, n) <==> x == n || x in list
  {
    assert list == list[..p + 1] + list[p + 1..];
  }

  /** A node of any level is on the lowest one. */
  lemma {:induction false} OnLowest<Key>(cmp: (Key, Key) -> int, m: Memory<Key>, lists: seq<seq<nat>>, level: nat,
                                         x: nat)
    requires Good(cmp, m, lists) && level < MAX_HEIGHT && x in lists[level]
    ensures x in lists[0]
  {
    if level > 0 {
      assert Sublist(lists[level], lists[level - 1]);
      OnLowest(cmp, m, lists, level - 1, x);
    }
  }

  lemma LacksOnAll<Key>(cmp: (Key, Key) -> int, m: Memory<Key>, lists: seq<seq<nat>>, level: nat, key: Key)
    requires Good(cmp, m, lists) && level < MAX_HEIGHT && Lacks(cmp, m.keys, lists[0], key)
    ensures Lacks(cmp, m.keys, lists[level], key)
  {
    var list := lists[level];
    assert Linked(cmp, m, list, level) && Linked(cmp, m, lists[0], 0);
    forall i | 0 < i < |list| ensures cmp(m.keys[list[i]], key) != 0 {
      OnLowest(cmp, m, lists, level, list[i]);
    }
  }

  /** The node at index p of a level is the last one before the key. */
  ghost predicate LastBefore<Key>(cmp: (Key, Key) -> int, keys: seq<Key>, list: seq<nat>, key: Key, n: nat) {
    exists p: nat :: Cut(cmp, keys, list, key, p) && list[p] == n
  }

  /** The levels from i on still await node n. */
  ghost predicate Pending<Key>(cmp: (Key, Key) -> int, keys: seq<Key>, lists: seq<seq<nat>>, n: nat, key: Key,
                               i: nat, height: nat, prev: seq<nat>) {
    && height <= |prev| && height <= |lists|
    && forall l :: i <= l < height ==>
         LastBefore(cmp, keys, lists[l], key, prev[l]) && Lacks(cmp, keys, lists[l], key) && n !in lists[l]
  }

  lemma PendingNext<Key>(cmp: (Key, Key) -> int, keys: seq<Key>, lists: seq<seq<nat>>, n: nat, key: Key, i: nat,
                         height: nat, prev: seq<nat>, list: seq<nat>)
    requires Pending(cmp, keys, lists, n, key, i, height, prev) && i < height
    ensures Pending(cmp, keys, lists[i := list], n, key, i + 1, height, prev)
  {
    hide LastBefore, Lacks;
  }

  /** Where the node belongs on the next level. */
  lemma Place<Key>(cmp: (Key, Key) -> int, keys: seq<Key>, lists: seq<seq<nat>>, n: nat, key: Key, i: nat,
                   height: nat, prev: seq<nat>) returns (p: nat)
    requires Pending(cmp, keys, lists, n, key, i, height, prev) && i < height
    ensures Cut(cmp, keys, lists[i], key, p) && p < |lists[i]| && lists[i][p] == prev[i]
    ensures Lacks(cmp, keys, lists[i], key) && n !in lists[i]
  {
    hide Lacks;
    assert LastBefore(cmp, keys, lists[i], key, prev[i]);
    p :| Cut(cmp, keys, lists[i], key, p) && lists[i][p] == prev[i];
  }

  /** Another key, that of a node no list has, changes nothing. */
  lemma LinkedKept<Key>(cmp: (Key, Key) -> int, m: Memory<Key>, keys': seq<Key>, list: seq<nat>, level: nat)
    requires Linked(cmp, m, list, level) && m.keys <= keys'
    ensures Linked(cmp, m.(keys := keys'), list, level)
  {
    LinkedStays(cmp, m, m.(keys := keys'), list, level);
  }

  lemma PlaceKept<Key>(cmp: (Key, Key) -> int, keys: seq<Key>, keys': seq<Key>, list: seq<nat>, key: Key, n: nat)
    requires keys <= keys' && forall i :: 0 <= i < |list| ==> list[i] < |keys|
    ensures LastBefore(cmp, keys, list, key, n) ==> LastBefore(cmp, keys', list, key, n)
    ensures Lacks(cmp, keys, list, key) ==> Lacks(cmp, keys', list, key)
  {
    if LastBefore(cmp, keys, list, key, n) {
      var p: nat :| Cut(cmp, keys, list, key, p) && list[p] == n;
      assert Cut(cmp, keys', list, key, p);
    }
  }

  lemma GoodKept<Key>(cmp: (Key, Key) -> int, m: Memory<Key>, keys': seq<Key>, lists: seq<seq<nat>>, n: nat, key: Key,
                      height: nat, prev: seq<nat>)
    requires Good(cmp, m, lists) && m.keys <= keys' && Pending(cmp, m.keys, lists, n, key, 0, height, prev)
    ensures Good(cmp, m.(keys := keys'), lists) && Pending(cmp, keys', lists, n, key, 0, height, prev)
  {
    hide LastBefore, Lacks, Sublist;
    forall l | 0 <= l < MAX_HEIGHT
      ensures Linked(cmp, m.(keys := keys'), lists[l], l)
      ensures l < |prev| && LastBefore(cmp, m.keys, lists[l], key, prev[l]) ==>
              LastBefore(cmp, keys', lists[l], key, prev[l])
      ensures Lacks(cmp, m.keys, lists[l], key) ==> Lacks(cmp, keys', lists[l], key)
    {
      assert Linked(cmp, m, lists[l], l);
      LinkedKept(cmp, m, keys', lists[l], l);
      PlaceKept(cmp, m.keys, keys', lists[l], key, if l < |prev| then prev[l] else 0);
    }
    hide Linked;
  }

  // ----- The list itself -----

  ghost predicate Sorted<Key>(cmp: (Key, Key) -> int, s: seq<Key>) {
    forall i, j :: 0 <= i < j < |s| ==> cmp(s[i], s[j]) < 0
  }

  /** s' is s with the key put in at one place. */
  ghost predicate InsertedInto<Key(!new)>(s: seq<Key>, key: Key, s': seq<Key>) {
    exists p: nat :: p <= |s| && s' == s[..p] + [key] + s[p..]
  }

  function Keys<Key>(keys: seq<Key>, list: seq<nat>): (s: seq<Key>)
    requires list != [] && forall i :: 0 <= i < |list| ==> list[i] < |keys|
    ensures |s| == |list| - 1 && forall i :: 0 <= i < |s| ==> s[i] == keys[list[i + 1]]
  {
    seq(|list| - 1, i requires 0 <= i < |list| - 1 => keys[list[i + 1]])
  }

  lemma SplicedKeys<Key>(keys: seq<Key>, key: Key, list: seq<nat>, p: nat, n: nat)
    requires p < |list| && n == |keys| && forall i :: 0 <= i < |list| ==> list[i] < |keys|
    ensures forall i :: 0 <= i <= |list| ==> Spliced(list, p, n)[i] < |keys| + 1
    ensures Keys(keys + [key], Spliced(list, p, n)) == Keys(keys, list)[..p] + [key] + Keys(keys, list)[p..]
  {
    var list' := Spliced(list, p, n);
    forall i | 0 <= i <= |list| ensures list'[i] == if i <= p then list[i] else if i == p + 1 then n else list[i - 1] {
      SplicedAt(list, p, n, i);
    }
    var s, s' := Keys(keys, list), Keys(keys + [key], list');
    forall i | 0 <= i < |s'| ensures s'[i] == (s[..p] + [key] + s[p..])[i] {
      assert list'[i + 1] == if i < p then list[i + 1] else if i == p then n else list[i];
    }
  }

  class SkipList<Key(!new)> {
    const cmp: (Key, Key) -> int
    var m: Memory<Key>
    ghost var lists: seq<seq<nat>>
    /** The memory after every store so far: what concurrent readers may have met. */
    ghost var history: seq<Moment<Key>>

    ghost predicate Valid()
      reads this
    {
      && Ordered(cmp) && Good(cmp, m, lists) && Run(cmp, history) && StoreByStore(history)
      && history != [] && history[|history| - 1] == Moment(m, lists)
    }

    /** The keys, as the lowest level links them. */
    ghost function Contents(): (s: seq<Key>)
      requires Valid()
      reads this
      ensures |s| + 1 == |lists[0]| && Sorted(cmp, s)
    {
      assert Linked(cmp, m, lists[0], 0);
      Keys(m.keys, lists[0])
    }

    constructor (cmp: (Key, Key) -> int, anyKey: Key)
      requires Ordered(cmp)
      ensures Valid() && Contents() == [] && this.cmp == cmp
    {
      this.cmp := cmp;
      m := Memory([anyKey], map i: nat | i < MAX_HEIGHT :: (0, i) := None, 1);
      lists := seq(MAX_HEIGHT, _ => [0]);
      new;
      history := [Moment(m, lists)];
    }

    /** One store to the shared memory, and what it makes of the lists. */
    method Store(m': Memory<Key>, ghost lists': seq<seq<nat>>)
      requires Valid() && Good(cmp, m', lists') && Grows(Moment(m, lists), Moment(m', lists')) && OneStore(m, m')
      modifies this
      ensures Valid() && m == m' && lists == lists' && history == old(history) + [Moment(m', lists')]
    {
      hide Ordered, Good, Grows, OneStore;
      m, lists := m', lists';
      history := history + [Moment(m', lists')];
    }

    /** The search stands at index p of a level. */
    ghost predicate At(level: nat, p: nat, n: nat, key: Key)
      reads this
    {
      level < |lists| && p < |lists[level]| && n == lists[level][p] && (p == 0 || Below(cmp, m.keys, n, key))
    }

    ghost predicate OnLevel(level: nat, n: nat, key: Key)
      reads this
    {
      exists q: nat :: At(level, q, n, key)
    }

    lemma NextLink(level: nat, p: nat, n: nat, key: Key)
      requires Valid() && At(level, p, n, key)
      ensures (n, level) in m.next
      ensures var list, next := lists[level], m.next[(n, level)];
              && next == Link(list, p)
              && if KeyIsAfterNode(cmp, m.keys, key, next) then At(level, p + 1, next.value, key)
                 else
                   && LastBefore(cmp, m.keys, list, key, n) && Cut(cmp, m.keys, list, key, p)
                   && (level > 0 ==> OnLevel(level - 1, n, key))
    {
      assert Linked(cmp, m, lists[level], level);
      assert LinkedAt(m, lists[level], level, p);
      if !KeyIsAfterNode(cmp, m.keys, key, m.next[(n, level)]) {
        CutHere(cmp, m, lists[level], level, key, p);
        if level > 0 {
          assert Sublist(lists[level], lists[level - 1]) && n in lists[level];
          assert Linked(cmp, m, lists[level - 1], level - 1);
          var q :| 0 <= q < |lists[level - 1]| && lists[level - 1][q] == n;
          assert At(level - 1, q, n, key);
        }
      }
    }

    lemma Top()
      requires Valid()
      ensures 1 <= m.maxHeight <= MAX_HEIGHT == |lists|
      ensures forall l, key :: 0 <= l < MAX_HEIGHT ==> At(l, 0, 0, key)
    {
      forall l | 0 <= l < MAX_HEIGHT ensures Linked(cmp, m, lists[l], l) {
      }
    }

    /** The earliest node at or after the key, and in prev, if given, the last node before the key on every level. */
    method FindGreaterOrEqual(key: Key, prev: array?<nat>) returns (x: Option<nat>)
      requires Valid() && (prev != null ==> prev.Length == MAX_HEIGHT)
      modifies prev
      ensures exists p: nat :: Cut(cmp, m.keys, lists[0], key, p) && x == Link(lists[0], p)
      ensures prev != null ==> forall l :: 0 <= l < m.maxHeight ==> LastBefore(cmp, m.keys, lists[l], key, prev[l])
    {
      hide Valid, LastBefore, Cut, Link, Below;
      Top();
      var n, level := 0, m.maxHeight - 1;
      ghost var p: nat := 0;
      while true
        invariant Valid() && 0 <= level < m.maxHeight && At(level, p, n, key)
        invariant prev != null ==>
                    forall l :: level < l < m.maxHeight ==> LastBefore(cmp, m.keys, lists[l], key, prev[l])
        decreases level, |lists[level]| - p
      {
        NextLink(level, p, n, key);
        var next := m.next[(n, level)];
        if KeyIsAfterNode(cmp, m.keys, key, next) {
          n, p := next.value, p + 1;
        } else {
          if prev != null {
            prev[level] := n;
          }
          if level == 0 {
            return next;
          }
          p :| At(level - 1, p, n, key);
          level := level - 1;
        }
      }
    }

    method FindLessThan(key: Key) returns (n: nat)
      requires Valid()
      ensures LastBefore(cmp, m.keys, lists[0], key, n)
    {
      hide Valid, LastBefore, Cut, Link;
      Top();
      var level := m.maxHeight - 1;
      n := 0;
      ghost var p: nat := 0;
      while true
        invariant Valid() && 0 <= level < m.maxHeight && At(level, p, n, key)
        decreases level, |lists[level]| - p
      {
        NextLink(level, p, n, key);
        NodesAllocated(level, p, n, key);
        var next := m.next[(n, level)];
        if next == None || cmp(m.keys[next.value], key) >= 0 {
          if level == 0 {
            return;
          }
          p :| At(level - 1, p, n, key);
          level := level - 1;
        } else {
          n, p := next.value, p + 1;
        }
      }
    }

    lemma NodesAllocated(level: nat, p: nat, n: nat, key: Key)
      requires Valid() && At(level, p, n, key)
      ensures (n, level) in m.next
      ensures var next := m.next[(n, level)]; next.Some? ==> next.value < |m.keys|
    {
      assert Linked(cmp, m, lists[level], level);
      assert LinkedAt(m, lists[level], level, p);
    }

    /** The search stands at index p of a level, wherever the keys may lie. */
    ghost predicate Stands(level: nat, p: nat, n: nat)
      reads this
    {
      level < |lists| && p < |lists[level]| && n == lists[level][p]
    }

    /** The node is on the level. */
    ghost predicate StandsOn(level: nat, n: nat)
      reads this
    {
      exists q: nat :: Stands(level, q, n) && level < |lists| && q < |lists[level]|
    }

    lemma FindStand(level: nat, n: nat) returns (q: nat)
      requires StandsOn(level, n)
      ensures Stands(level, q, n) && level < |lists| && q < |lists[level]|
    {
      q :| Stands(level, q, n) && level < |lists| && q < |lists[level]|;
    }

    lemma FollowLink(level: nat, p: nat, n: nat)
      requires Valid() && Stands(level, p, n)
      ensures (n, level) in m.next && level < |lists| && p < |lists[level]|
      ensures var next := m.next[(n, level)];
              if next.Some? then p + 1 < |lists[level]| && Stands(level, p + 1, next.value)
              else
                && p + 1 == |lists[level]| && n == lists[level][p]
                && (level > 0 ==> StandsOn(level - 1, n))
    {
      assert Linked(cmp, m, lists[level], level);
      assert LinkedAt(m, lists[level], level, p);
      if m.next[(n, level)] == None && level > 0 {
        assert Sublist(lists[level], lists[level - 1]) && n in lists[level];
        var q :| 0 <= q < |lists[level - 1]| && lists[level - 1][q] == n;
        assert Stands(level - 1, q, n);
      }
    }

    /** The last node, or the head if there is none. */
    method FindLast() returns (n: nat)
      requires Valid()
      ensures |lists[0]| > 0 && n == lists[0][|lists[0]| - 1]
    {
      TopNode();
      hide Valid, Stands, StandsOn;
      var level := m.maxHeight - 1;
      n := 0;
      ghost var p: nat := 0;
      while true
        invariant Valid() && 0 <= level < m.maxHeight && Stands(level, p, n) && p < |lists[level]|
        decreases level, |lists[level]| - p
      {
        FollowLink(level, p, n);
        var next := m.next[(n, level)];
        if next == None {
          if level == 0 {
            return;
          }
          level := level - 1;
          p := FindStand(level, n);
        } else {
          n, p := next.value, p + 1;
        }
      }
    }

    lemma TopNode()
      requires Valid()
      ensures 1 <= m.maxHeight <= MAX_HEIGHT == |lists|
      ensures Stands(m.maxHeight - 1, 0, 0) && lists[m.maxHeight - 1] != []
    {
      assert Linked(cmp, m, lists[m.maxHeight - 1], m.maxHeight - 1);
    }

    method Contains(key: Key) returns (found: bool)
      requires Valid()
      ensures found <==> exists i :: 0 <= i < |Contents()| && cmp(Contents()[i], key) == 0
    {
      var x := FindGreaterOrEqual(key, null);
      FoundMeans(key, x);
      found := x.Some? && cmp(m.keys[x.value], key) == 0;
    }

    lemma FoundMeans(key: Key, x: Option<nat>)
      requires Valid() && exists p: nat :: Cut(cmp, m.keys, lists[0], key, p) && x == Link(lists[0], p)
      ensures x.Some? ==> x.value < |m.keys|
      ensures (x.Some? && cmp(m.keys[x.value], key) == 0) <==>
              exists i :: 0 <= i < |Contents()| && cmp(Contents()[i], key) == 0
    {
      hide Ordered, Run;
      var p: nat :| Cut(cmp, m.keys, lists[0], key, p) && x == Link(lists[0], p);
      Located(key, p);
      hide Cut, Good;
      if x.Some? {
        assert Contents()[p] == m.keys[x.value];
      }
    }

    /** What a cut says of the keys. */
    lemma Located(key: Key, p: nat)
      requires Valid() && Cut(cmp, m.keys, lists[0], key, p)
      ensures p <= |Contents()|
      ensures forall i :: 0 <= i < p ==> cmp(Contents()[i], key) < 0
      ensures forall i :: p <= i < |Contents()| ==> cmp(Contents()[i], key) >= 0
      ensures p < |Contents()| ==> forall i :: p < i < |Contents()| ==> cmp(Contents()[i], key) > 0
      ensures Link(lists[0], p).Some? ==>
              Link(lists[0], p).value < |m.keys| && Contents()[p] == m.keys[Link(lists[0], p).value]
    {
      var list := lists[0];
      assert Linked(cmp, m, list, 0);
      forall i | 0 <= i < |Contents()| ensures cmp(Contents()[i], key) < 0 <==> i < p {
        assert Contents()[i] == m.keys[list[i + 1]];
      }
      forall i | p < i < |Contents()| ensures cmp(Contents()[i], key) > 0 {
        Transitive(cmp, key, Contents()[p], Contents()[i]);
        Transitive(cmp, Contents()[i], key, key);
        Transitive(cmp, Contents()[p], key, key);
        Transitive(cmp, key, Contents()[i], key);
      }
    }

    /** Links the node on one level: its own link first, then the one that publishes it there. */
    method LinkLevel(n: nat, level: nat, prev: nat, ghost p: nat)
      requires Valid() && level < m.maxHeight && 0 < n < |m.keys| && n !in lists[level]
      requires Cut(cmp, m.keys, lists[level], m.keys[n], p) && lists[level][p] == prev
      requires Lacks(cmp, m.keys, lists[level], m.keys[n])
      requires level > 0 ==> n in lists[level - 1]
      modifies this
      ensures Valid() && m.keys == old(m.keys) && m.maxHeight == old(m.maxHeight)
      ensures lists == old(lists)[level := Spliced(old(lists[level]), p, n)]
      ensures |history| == |old(history)| + 2 && old(history) <= history
    {
      hide Ordered, Run, StoreByStore;
      assert Linked(cmp, m, lists[level], level);
      var next := m.next[(prev, level)];
      assert LinkedAt(m, lists[level], level, p);
      PrivateStore(cmp, m, lists, n, level, next);
      LinkStored(m, (n, level), next);
      Store(m.(next := m.next[(n, level) := next]), lists);
      SplicedGood(cmp, m, lists, level, p, n);
      LinkStored(m, (prev, level), Some(n));
      Store(m.(next := m.next[(prev, level) := Some(n)]), lists[level := Spliced(lists[level], p, n)]);
    }

    /** No key in the list is equal to this one. */
    ghost predicate New(key: Key)
      requires Valid()
      reads this
    {
      forall i :: 0 <= i < |Contents()| ==> cmp(Contents()[i], key) != 0
    }

    lemma NewLacks(key: Key)
      requires Valid() && New(key)
      ensures forall l :: 0 <= l < MAX_HEIGHT ==> Lacks(cmp, m.keys, lists[l], key)
    {
      assert Linked(cmp, m, lists[0], 0);
      forall i | 0 < i < |lists[0]| ensures cmp(m.keys[lists[0][i]], key) != 0 {
        assert Contents()[i - 1] == m.keys[lists[0][i]];
      }
      forall l | 0 <= l < MAX_HEIGHT ensures Lacks(cmp, m.keys, lists[l], key) {
        LacksOnAll(cmp, m, lists, l, key);
      }
    }

    lemma UnallocatedNowhere(n: nat)
      requires Valid() && n >= |m.keys|
      ensures forall l :: 0 <= l < MAX_HEIGHT ==> n !in lists[l]
    {
      forall l | 0 <= l < MAX_HEIGHT ensures n !in lists[l] {
        assert Linked(cmp, m, lists[l], l);
      }
    }

    static function Greater(a: nat, b: nat): nat {
      if a > b then a else b
    }

    /** Raises the list's height first, if the new node is to be higher. */
    method Raise(height: nat, prev: array<nat>, ghost key: Key)
      requires Valid() && New(key) && 1 <= height <= MAX_HEIGHT == prev.Length
      requires forall l :: 0 <= l < m.maxHeight ==> LastBefore(cmp, m.keys, lists[l], key, prev[l])
      modifies this, prev
      ensures Valid() && m.keys == old(m.keys) && lists == old(lists) && height <= m.maxHeight
      ensures Pending(cmp, m.keys, lists, |m.keys|, key, 0, height, prev[..])
      ensures old(history) <= history && m.maxHeight == Greater(height, old(m.maxHeight))
      ensures |history| == |old(history)| + if height > old(m.maxHeight) then 1 else 0
    {
      Top();
      if height > m.maxHeight {
        FillHeads(height, prev, key);
        Raised(height);
        StartsPending(key, height, prev[..]);
        hide Good, LastBefore, Lacks, Cut;
        Store(m.(maxHeight := height), lists);
      } else {
        StartsPending(key, height, prev[..]);
      }
    }

    /** On levels that are still empty the head comes before the key. */
    method FillHeads(height: nat, prev: array<nat>, ghost key: Key)
      requires Valid() && m.maxHeight < height <= MAX_HEIGHT == prev.Length
      requires forall l :: 0 <= l < m.maxHeight ==> LastBefore(cmp, m.keys, lists[l], key, prev[l])
      modifies prev
      ensures |lists| == MAX_HEIGHT && forall l :: 0 <= l < height ==> LastBefore(cmp, m.keys, lists[l], key, prev[l])
    {
      hide Valid, LastBefore;
      EmptyAbove(key);
      ghost var keys, levels := m.keys, lists;
      for i := m.maxHeight to height
        invariant forall l :: 0 <= l < i ==> LastBefore(cmp, keys, levels[l], key, prev[l])
      {
        assert LastBefore(cmp, keys, levels[i], key, 0);
        prev[i] := 0;
      }
    }

    lemma EmptyAbove(key: Key)
      requires Valid()
      ensures |lists| == MAX_HEIGHT
      ensures forall l :: m.maxHeight <= l < MAX_HEIGHT ==> LastBefore(cmp, m.keys, lists[l], key, 0)
    {
      forall l | m.maxHeight <= l < MAX_HEIGHT ensures LastBefore(cmp, m.keys, lists[l], key, 0) {
        assert Cut(cmp, m.keys, lists[l], key, 0);
      }
    }

    lemma Raised(height: nat)
      requires Valid() && m.maxHeight < height <= MAX_HEIGHT
      ensures Good(cmp, m.(maxHeight := height), lists) &&
              Grows(Moment(m, lists), Moment(m.(maxHeight := height), lists))
    {
      forall l | 0 <= l < MAX_HEIGHT ensures Linked(cmp, m.(maxHeight := height), lists[l], l) {
        assert Linked(cmp, m, lists[l], l);
        LinkedStays(cmp, m, m.(maxHeight := height), lists[l], l);
      }
    }

    lemma StartsPending(key: Key, height: nat, prev: seq<nat>)
      requires Valid() && New(key) && height <= MAX_HEIGHT == |prev| == |lists|
      requires forall l :: 0 <= l < height ==> LastBefore(cmp, m.keys, lists[l], key, prev[l])
      ensures Pending(cmp, m.keys, lists, |m.keys|, key, 0, height, prev)
    {
      hide LastBefore, Lacks;
      NewLacks(key);
      UnallocatedNowhere(|m.keys|);
    }

    /** Allocates a node; nothing links to it yet. */
    method NewNode(key: Key, ghost height: nat, ghost prev: seq<nat>) returns (n: nat)
      requires Valid() && height <= MAX_HEIGHT && Pending(cmp, m.keys, lists, |m.keys|, key, 0, height, prev)
      modifies this
      ensures Valid() && n == |old(m.keys)| > 0 && m.keys == old(m.keys) + [key] && lists == old(lists)
      ensures m.maxHeight == old(m.maxHeight) && Pending(cmp, m.keys, lists, n, key, 0, height, prev)
      ensures history == old(history) + [Moment(m, lists)]
    {
      n := |m.keys|;
      assert Linked(cmp, m, lists[0], 0);
      GoodKept(cmp, m, m.keys + [key], lists, n, key, height, prev);
      Store(m.(keys := m.keys + [key]), lists);
    }

    /** Links the node on its levels, lowest first. */
    method LinkLevels(n: nat, height: nat, prev: array<nat>)
      requires Valid() && 1 <= height <= m.maxHeight && height <= prev.Length && 0 < n < |m.keys|
      requires Pending(cmp, m.keys, lists, n, m.keys[n], 0, height, prev[..])
      modifies this
      ensures Valid() && m.keys == old(m.keys)
      ensures exists p: nat :: Cut(cmp, m.keys, old(lists[0]), m.keys[n], p) && lists[0] == Spliced(old(lists[0]), p, n)
      ensures |history| == |old(history)| + 2 * height && old(history) <= history
    {
      ghost var key, first := m.keys[n], lists[0];
      Top();
      hide Valid, Lacks, Cut, Spliced, Pending, LastBefore, Link;
      ghost var p0: nat := 0;
      for i := 0 to height
        invariant Valid() && |lists| == MAX_HEIGHT >= m.maxHeight >= height && m.keys == old(m.keys)
        invariant Pending(cmp, m.keys, lists, n, key, i, height, prev[..])
        invariant if i == 0 then lists[0] == first
                  else n in lists[i - 1] && Cut(cmp, m.keys, first, key, p0) && lists[0] == Spliced(first, p0, n)
        invariant |history| == |old(history)| + 2 * i && old(history) <= history
      {
        ghost var p := LinkNext(n, i, height, prev[..]);
        if i == 0 {
          p0 := p;
        }
      }
    }

    /** One turn of that loop. */
    method LinkNext(n: nat, i: nat, height: nat, prev: seq<nat>) returns (ghost p: nat)
      requires Valid() && i < height <= m.maxHeight <= MAX_HEIGHT == |lists| && height <= |prev| && 0 < n < |m.keys|
      requires Pending(cmp, m.keys, lists, n, m.keys[n], i, height, prev) && (i > 0 ==> n in lists[i - 1])
      modifies this
      ensures Valid() && m.keys == old(m.keys) && m.maxHeight == old(m.maxHeight) && |lists| == MAX_HEIGHT
      ensures Cut(cmp, m.keys, old(lists[i]), m.keys[n], p) && p < |old(lists[i])| && n in lists[i]
      ensures lists == old(lists)[i := Spliced(old(lists[i]), p, n)]
      ensures Pending(cmp, m.keys, lists, n, m.keys[n], i + 1, height, prev)
      ensures |history| == |old(history)| + 2 && old(history) <= history
    {
      hide Valid, Lacks, Cut, Spliced, Pending, LastBefore, Link;
      p := Place(cmp, m.keys, lists, n, m.keys[n], i, height, prev);
      SplicedElements(lists[i], p, n);
      PendingNext(cmp, m.keys, lists, n, m.keys[n], i, height, prev, Spliced(lists[i], p, n));
      LinkLevel(n, i, prev[i], p);
    }

    lemma ContentsAre()
      requires Valid()
      ensures lists != [] && lists[0] != [] && forall i :: 0 <= i < |lists[0]| ==> lists[0][i] < |m.keys|
      ensures Contents() == Keys(m.keys, lists[0])
    {
      assert Linked(cmp, m, lists[0], 0);
    }

    /** All of Insert before the first link is stored. */
    method Prepare(key: Key, height: nat) returns (n: nat, prev: array<nat>)
      requires Valid() && New(key) && 1 <= height <= MAX_HEIGHT
      modifies this
      ensures Valid() && height <= m.maxHeight && height <= prev.Length && n == |old(m.keys)| > 0
      ensures m.keys == old(m.keys) + [key] && lists == old(lists) && old(history) <= history
      ensures |history| == |old(history)| + (if height > old(m.maxHeight) then 1 else 0) + 1
      ensures Pending(cmp, m.keys, lists, n, key, 0, height, prev[..]) && fresh(prev)
    {
      hide Valid, LastBefore, Lacks, Cut, New, Contents, Pending, Link;
      prev := new nat[MAX_HEIGHT];
      var x := FindGreaterOrEqual(key, prev);
      Raise(height, prev, key);
      Top();
      n := NewNode(key, height, prev[..]);
    }

    /** Inserts a key that is not in the list, as a node of the given height. The history has every store: the
        height's if it is raised, the node's, and two for each level. */
    method Insert(key: Key, height: nat)
      requires Valid() && New(key) && 1 <= height <= MAX_HEIGHT
      modifies this
      ensures Valid() && InsertedInto(old(Contents()), key, Contents())
      ensures old(history) <= history
      ensures |history| == |old(history)| + (if height > old(m.maxHeight) then 1 else 0) + 1 + 2 * height
    {
      ContentsAre();
      hide Valid, LastBefore, Lacks, Cut, New, Contents, Pending, Link;
      ghost var before, was, keys := lists[0], Contents(), m.keys;
      var n, prev := Prepare(key, height);
      Top();
      LinkLevels(n, height, prev);
      SplicedIn(before, keys, was, key, n);
    }

    lemma SplicedIn(before: seq<nat>, keys: seq<Key>, was: seq<Key>, key: Key, n: nat)
      requires Valid() && before != [] && (forall i :: 0 <= i < |before| ==> before[i] < |keys|) && n == |keys|
      requires m.keys == keys + [key] && was == Keys(keys, before)
      requires exists p: nat :: Cut(cmp, m.keys, before, key, p) && lists[0] == Spliced(before, p, n)
      ensures InsertedInto(was, key, Contents())
    {
      ContentsAre();
      hide Valid, Contents, Spliced;
      var p: nat :| Cut(cmp, m.keys, before, key, p) && lists[0] == Spliced(before, p, n);
      SplicedKeys(keys, key, before, p, n);
      assert Contents() == was[..p] + [key] + was[p..];
    }
  }

  class Iterator<Key(!new)> {
    const list: SkipList<Key>
    var node: Option<nat>

    /** The iterator stands on the key at index i, or is not valid. */
    ghost predicate OnKey(i: nat)
      requires list.Valid()
      reads this, list
    {
      i < |list.Contents()| && node == Some(list.lists[0][i + 1])
    }

    constructor (list: SkipList<Key>)
      ensures this.list == list && node == None
    {
      this.list, node := list, None;
    }

    predicate IsValid()
      reads this
    {
      node.Some?
    }

    lemma NodeIsKey(i: nat)
      requires list.Valid() && OnKey(i)
      ensures node.value < |list.m.keys| && list.m.keys[node.value] == list.Contents()[i]
      ensures (node.value, 0) in list.m.next && list.m.next[(node.value, 0)] == Link(list.lists[0], i + 1)
    {
      assert Linked(list.cmp, list.m, list.lists[0], 0);
      assert LinkedAt(list.m, list.lists[0], 0, i + 1);
    }

    method GetKey(ghost i: nat) returns (key: Key)
      requires list.Valid() && OnKey(i)
      ensures key == list.Contents()[i]
    {
      NodeIsKey(i);
      key := list.m.keys[node.value];
    }

    method Next(ghost i: nat)
      requires list.Valid() && OnKey(i)
      modifies this
      ensures if i + 1 < |list.Contents()| then OnKey(i + 1) else !IsValid()
    {
      NodeIsKey(i);
      node := list.m.next[(node.value, 0)];
    }

    method Prev(ghost i: nat)
      requires list.Valid() && OnKey(i)
      modifies this
      ensures if i > 0 then OnKey(i - 1) else !IsValid()
    {
      NodeIsKey(i);
      var key := list.m.keys[node.value];
      var n := list.FindLessThan(key);
      ghost var p: nat :| Cut(list.cmp, list.m.keys, list.lists[0], key, p) && list.lists[0][p] == n;
      list.Located(key, p);
      node := if n == 0 then None else Some(n);
      assert Linked(list.cmp, list.m, list.lists[0], 0);
    }

    /** Moves to the first key at or after the target. */
    method Seek(target: Key) returns (ghost i: nat)
      requires list.Valid()
      modifies this
      ensures i <= |list.Contents()|
      ensures forall j :: 0 <= j < |list.Contents()| ==> (list.cmp(list.Contents()[j], target) < 0 <==> j < i)
      ensures if i < |list.Contents()| then OnKey(i) else !IsValid()
    {
      node := list.FindGreaterOrEqual(target, null);
      i :| Cut(list.cmp, list.m.keys, list.lists[0], target, i) && node == Link(list.lists[0], i);
      list.Located(target, i);
    }

    method SeekToFirst()
      requires list.Valid()
      modifies this
      ensures if list.Contents() != [] then OnKey(0) else !IsValid()
    {
      assert Linked(list.cmp, list.m, list.lists[0], 0);
      assert LinkedAt(list.m, list.lists[0], 0, 0);
      node := list.m.next[(0, 0)];
    }

    method SeekToLast()
      requires list.Valid()
      modifies this
      ensures if list.Contents() != [] then OnKey(|list.Contents()| - 1) else !IsValid()
    {
      var n := list.FindLast();
      node := if n == 0 then None else Some(n);
      assert Linked(list.cmp, list.m, list.lists[0], 0);
      hide Ordered, Run, Good;
    }
  }
}

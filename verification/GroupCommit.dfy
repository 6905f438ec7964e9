/** Group commit: writers queue up, and the one at the front logs and applies the batches of several of them at once.
    Threads interleave wherever the mutex is not held. */
module GroupCommit {
  import opened Bytes
  import opened MemTables
  import opened WriteBatches

  /** A call of Write; a call without a batch only asks for the memtable to be compacted. */
  datatype Writer = Writer(batch: Option<seq<Op>>, sync: bool)

  // ----- Which batches go together -----

  function ByteSize(ops: seq<Op>): nat {
    |Rep(0, ops)|
  }

  /** How large the group of a batch of this size may become. */
  function MaxSize(size: nat): nat {
    if size <= 131072 then size + 131072 else 1048576
  }

  /** Where the group that has reached writer i of the queue ends. */
  function GroupEnd(queue: seq<Writer>, i: nat, size: nat, maxSize: nat): (n: nat)
    requires 0 < i <= |queue|
    ensures i <= n <= |queue|
    decreases |queue| - i
  {
    if i == |queue| || (queue[i].sync && !queue[0].sync) then i
    else if queue[i].batch == None then GroupEnd(queue, i + 1, size, maxSize)
    else
      var size' := size + ByteSize(queue[i].batch.value);
      if size' > maxSize then i else GroupEnd(queue, i + 1, size', maxSize)
  }

  function GroupSize(queue: seq<Writer>): (n: nat)
    requires queue != [] && queue[0].batch.Some?
    ensures 1 <= n <= |queue|
  {
    var size := ByteSize(queue[0].batch.value);
    GroupEnd(queue, 1, size, MaxSize(size))
  }

  function OpsOf(w: Writer): seq<Op> {
    if w.batch.Some? then w.batch.value else []
  }

  /** The operations of all these writers, in queue order. */
  function GroupOps(ws: seq<Writer>): seq<Op> {
    if ws == [] then [] else GroupOps(ws[..|ws| - 1]) + OpsOf(ws[|ws| - 1])
  }

  /** The batches are put together in the temporary batch unless there is only one. */
  predicate UsesTmp(ws: seq<Writer>) {
    exists i :: 0 < i < |ws| && ws[i].batch.Some?
  }

  /** The size of a writer's batch, if it has one. */
  function SizeIn(w: Writer): nat {
    if w.batch.Some? then ByteSize(w.batch.value) else 0
  }

  /** What the writers [i, n) add to the size of a group. */
  function SizeAdded(queue: seq<Writer>, i: nat, n: nat): nat
    requires i <= n <= |queue|
    decreases n
  {
    if i == n then 0 else SizeAdded(queue, i, n - 1) + SizeIn(queue[n - 1])
  }

  lemma {:induction false} SizeAddedFirst(queue: seq<Writer>, i: nat, n: nat)
    requires i < n <= |queue|
    ensures SizeAdded(queue, i, n) == SizeIn(queue[i]) + SizeAdded(queue, i + 1, n)
    decreases n
  {
    hide SizeIn;
    if i + 1 < n {
      SizeAddedFirst(queue, i, n - 1);
    } else {
      assert SizeAdded(queue, i, i) == 0 && SizeAdded(queue, n, n) == 0;
    }
  }

  /** A group takes in as many writers as it can: it carries no sync its leader has not asked for, and what is added to
      the leader's batch stays within the size allowed; it ends only with the queue, before a writer that asks for a
      sync, or before one whose batch is too large for what is left. */
  lemma {:induction false} GroupRules(queue: seq<Writer>, i: nat, size: nat, maxSize: nat)
    requires 0 < i <= |queue|
    ensures var n := GroupEnd(queue, i, size, maxSize);
            && (forall k :: i <= k < n && queue[k].sync ==> queue[0].sync)
            && (size + SizeAdded(queue, i, n) <= maxSize || SizeAdded(queue, i, n) == 0)
            && (n < |queue| ==>
                 || (queue[n].sync && !queue[0].sync)
                 || (queue[n].batch.Some? && size + SizeAdded(queue, i, n) + SizeIn(queue[n]) > maxSize))
    decreases |queue| - i
  {
    hide ByteSize, GroupEnd, SizeAdded;
    GroupEndStep(queue, i, size, maxSize);
    NothingAdded(queue, i);
    if i < |queue| && !(queue[i].sync && !queue[0].sync) && size + SizeIn(queue[i]) <= maxSize {
      GroupRules(queue, i + 1, size + SizeIn(queue[i]), maxSize);
      SizeAddedFirst(queue, i, GroupEnd(queue, i, size, maxSize));
    } else if i < |queue| && !(queue[i].sync && !queue[0].sync) && queue[i].batch == None {
      GroupRules(queue, i + 1, size, maxSize);
      SizeAddedFirst(queue, i, GroupEnd(queue, i, size, maxSize));
    }
  }

  /** The first n writers go together: a small batch takes in at most 128 KB of followers, a larger one grows to at most
      1 MB. No sync is carried for a leader that did not ask for one. The group ends only with the queue, before a
      writer that asks for such a sync, or before a batch that is too large for what is left. */
  ghost predicate RightSize(queue: seq<Writer>, n: nat)
    requires 1 <= n <= |queue|
  {
    var first, added := SizeIn(queue[0]), SizeAdded(queue, 1, n);
    && (first <= 131072 ==> added <= 131072)
    && (first > 131072 ==> first + added <= 1048576 || added == 0)
    && (forall k :: 0 <= k < n && queue[k].sync ==> queue[0].sync)
    && (n < |queue| ==>
         || (queue[n].sync && !queue[0].sync)
         || (queue[n].batch.Some? &&
             if first <= 131072 then added + SizeIn(queue[n]) > 131072
             else first + added + SizeIn(queue[n]) > 1048576))
  }

  lemma GroupLimits(queue: seq<Writer>)
    requires queue != [] && queue[0].batch.Some?
    ensures RightSize(queue, GroupSize(queue))
  {
    hide ByteSize, GroupEnd, SizeAdded;
    var size := ByteSize(queue[0].batch.value);
    GroupRules(queue, 1, size, MaxSize(size));
  }

  lemma NothingAdded(queue: seq<Writer>, i: nat)
    requires i <= |queue|
    ensures SizeAdded(queue, i, i) == 0
  {
  }

  /** Every operation takes more than a byte. */
  lemma {:induction false} OpsTakeRoom(ops: seq<Op>)
    ensures |ops| < |EncodeOps(ops)| + 1
  {
    hide EncodeOp;
    if ops != [] {
      OpsTakeRoom(ops[1..]);
    }
  }

  lemma {:induction false} CountAtMost(ws: seq<Writer>, n: nat)
    requires 0 < n <= |ws|
    ensures |GroupOps(ws[..n])| <= |OpsOf(ws[0])| + SizeAdded(ws, 1, n)
  {
    hide GroupOps, UsesTmp, EncodeOps;
    OneMore(ws, n - 1);
    if n == 1 {
      assert ws[..0] == [] && GroupOps([]) == [] by { NoGroupOps(); }
    } else {
      CountAtMost(ws, n - 1);
      OpsTakeRoom(OpsOf(ws[n - 1]));
    }
  }

  lemma NoGroupOps()
    ensures GroupOps([]) == []
  {
  }

  const MAX_COUNT := 0x8000_0000

  /** The count of a group's batch is as small a number as its leader's: a group only grows to a megabyte. */
  lemma GroupCounts(ws: seq<Writer>)
    requires ws != [] && ws[0].batch.Some? && |ws[0].batch.value| < MAX_COUNT
    ensures |GroupOps(ws[..GroupSize(ws)])| < MAX_COUNT
  {
    hide GroupOps, GroupEnd, SizeAdded, EncodeOps, LE;
    var size := ByteSize(ws[0].batch.value);
    GroupRules(ws, 1, size, MaxSize(size));
    CountAtMost(ws, GroupSize(ws));
    OpsTakeRoom(ws[0].batch.value);
  }

  /** What BuildBatchGroup meets in the queue: the writers' own batch objects. */
  datatype Queued = Queued(batch: WriteBatch?, sync: bool)

  ghost predicate Describes(q: Queued, w: Writer)
    reads q.batch
  {
    && q.sync == w.sync && (q.batch == null <==> w.batch == None)
    && (q.batch != null ==> exists s :: q.batch.rep == Rep(s, w.batch.value))
  }

  ghost predicate Sized(b: WriteBatch, ops: seq<Op>)
    reads b
  {
    exists s :: b.rep == Rep(s, ops)
  }

  lemma SizeIs(s: nat, ops: seq<Op>)
    ensures |Rep(s, ops)| == ByteSize(ops)
  {
  }

  lemma OneMore(ws: seq<Writer>, n: nat)
    requires n < |ws|
    ensures GroupOps(ws[..n + 1]) == GroupOps(ws[..n]) + OpsOf(ws[n])
    ensures ws[n].batch == None ==> GroupOps(ws[..n + 1]) == GroupOps(ws[..n])
    ensures UsesTmp(ws[..n + 1]) <==> UsesTmp(ws[..n]) || (n > 0 && ws[n].batch.Some?)
  {
    var more := ws[..n + 1];
    assert more[..n] == ws[..n] && more[n] == ws[n];
    if UsesTmp(ws[..n]) {
      var i :| 0 < i < n && ws[..n][i].batch.Some?;
      assert more[i].batch.Some?;
    }
  }

  /** Adds a follower's batch to the group, moving to the temporary batch first if the group is still the leader's
      own. */
  method AppendTo(result: WriteBatch, first: WriteBatch, tmp: WriteBatch, batch: WriteBatch, ghost ops: seq<Op>,
                  ghost more: seq<Op>) returns (result': WriteBatch)
    requires tmp != first && tmp != batch && (result == first || result == tmp)
    requires Sized(result, ops) && Sized(batch, more) && (result == first ==> Sized(tmp, []))
    modifies tmp
    ensures result' == tmp && Sized(result', ops + more)
  {
    hide Rep;
    result' := result;
    if result' == first {
      ghost var s :| tmp.rep == Rep(s, []);
      ghost var t :| first.rep == Rep(t, ops);
      result' := tmp;
      HasHeader(s, []);
      HasHeader(t, ops);
      result'.Append(first);
      assert [] + ops == ops;
      assert result'.rep == Rep(s, ops);
    }
    ghost var s :| result'.rep == Rep(s, ops);
    ghost var t :| batch.rep == Rep(t, more);
    HasHeader(s, ops);
    HasHeader(t, more);
    result'.Append(batch);
    assert result'.rep == Rep(s, ops + more);
  }

  lemma HasHeader(s: nat, ops: seq<Op>)
    ensures |Rep(s, ops)| >= HEADER
  {
  }

  /** The batch to log for the writers at the front of the queue, and how many of them it is for. */
  method BuildBatchGroup(queue: seq<Queued>, tmp: WriteBatch, ghost ws: seq<Writer>)
    returns (result: WriteBatch, n: nat)
    requires |queue| == |ws| > 0 && queue[0].batch != null
    requires forall i :: 0 <= i < |queue| ==> Describes(queue[i], ws[i]) && queue[i].batch != tmp
    requires Sized(tmp, [])
    modifies tmp
    ensures ws[0].batch.Some? && n == GroupSize(ws) && RightSize(ws, n)
    ensures Sized(result, GroupOps(ws[..n]))
    ensures result == if UsesTmp(ws[..n]) then tmp else queue[0].batch
  {
    hide Rep, GroupEnd, GroupOps, UsesTmp, ByteSize, RightSize;
    var first := queue[0].batch;
    result := first;
    var size: nat := |first.rep|;
    FirstOfGroup(queue[0], ws);
    GroupLimits(ws);
    var maxSize := MaxSize(size);
    n := 1;
    while n < |queue|
      invariant 1 <= n <= |queue| && GroupEnd(ws, n, size, maxSize) == GroupSize(ws)
      invariant forall i :: 0 <= i < |queue| ==> Describes(queue[i], ws[i])
      invariant Sized(result, GroupOps(ws[..n])) && (result == first ==> Sized(tmp, []))
      invariant result == if UsesTmp(ws[..n]) then tmp else first
    {
      assert Describes(queue[n], ws[n]) && Describes(queue[0], ws[0]);
      GroupEndStep(ws, n, size, maxSize);
      OneMore(ws, n);
      if queue[n].sync && !queue[0].sync {
        break;
      }
      if queue[n].batch != null {
        SizeOf(queue[n].batch, ws[n].batch.value);
        size := size + |queue[n].batch.rep|;
        if size > maxSize {
          break;
        }
        result := AppendTo(result, first, tmp, queue[n].batch, GroupOps(ws[..n]), OpsOf(ws[n]));
      }
      n := n + 1;
    }
    GroupEndStep(ws, n, size, maxSize);
  }

  lemma SizeOf(b: WriteBatch, ops: seq<Op>)
    requires Sized(b, ops)
    ensures |b.rep| == ByteSize(ops)
  {
    var s :| b.rep == Rep(s, ops);
    SizeIs(s, ops);
  }

  lemma FirstOfGroup(q: Queued, ws: seq<Writer>)
    requires ws != [] && q.batch != null && Describes(q, ws[0])
    ensures ws[0].batch.Some? && |q.batch.rep| == ByteSize(ws[0].batch.value)
    ensures Sized(q.batch, GroupOps(ws[..1])) && !UsesTmp(ws[..1])
  {
    SizeOf(q.batch, ws[0].batch.value);
    var one := ws[..1];
    assert one[..0] == [] && GroupOps(one[..0]) == [];
    assert [] + OpsOf(ws[0]) == OpsOf(ws[0]);
  }

  lemma GroupEndStep(ws: seq<Writer>, i: nat, size: nat, maxSize: nat)
    requires 0 < i <= |ws|
    ensures GroupEnd(ws, i, size, maxSize) ==
            if i == |ws| || (ws[i].sync && !ws[0].sync) then i
            else if ws[i].batch == None then GroupEnd(ws, i + 1, size, maxSize)
            else if size + ByteSize(ws[i].batch.value) > maxSize then i
            else GroupEnd(ws, i + 1, size + ByteSize(ws[i].batch.value), maxSize)
  {
  }
}

/** The overlapping copy that serves back-references: the fast form leaves the same bytes as the slow one. */
module SnappyCopy {
  import opened Bytes
  import opened SnappyFormat

  /** Eight bytes are loaded, then stored. */
  method UnalignedCopy64(mem: array<Byte>, src: nat, dst: nat)
    requires src + 8 <= mem.Length && dst + 8 <= mem.Length
    modifies mem
    ensures mem[..] == old(mem[..dst] + mem[src..src + 8] + mem[dst + 8..])
  {
    var word := mem[src..src + 8];
    forall i | 0 <= i < 8 {
      mem[dst + i] := word[i];
    }
  }

  /** Between from and limit, mem repeats what stands p places earlier. */
  ghost predicate Repeats(mem: seq<Byte>, p: nat, from: nat, limit: nat)
    requires p <= from && limit <= |mem|
  {
    forall i {:trigger mem[i]} | from <= i < limit :: mem[i] == mem[i - p]
  }

  /** n is p, 2p, 4p or 8p: what doubling a pattern below eight bytes can reach. */
  ghost predicate Doubled(n: nat, p: nat) {
    n == p || n == 2 * p || n == 4 * p || n == 8 * p
  }

  /** In a region of period p, a place and the one a doubled period later hold the same byte. */
  lemma SamePhase(mem: seq<Byte>, p: nat, start: nat, limit: nat, n: nat, i: nat)
    requires 0 < p && Doubled(n, p) && start <= i && i + n < limit <= |mem|
    requires Repeats(mem, p, start + p, limit)
    ensures mem[i] == mem[i + n]
  {
    assert mem[i + p] == mem[i];
    if n != p {
      assert mem[i + p + p] == mem[i + p];
      if n != 2 * p {
        assert mem[i + 2 * p + p] == mem[i + 2 * p];
        assert mem[i + 3 * p + p] == mem[i + 3 * p];
        if n != 4 * p {
          assert mem[i + 4 * p + p] == mem[i + 4 * p];
          assert mem[i + 5 * p + p] == mem[i + 5 * p];
          assert mem[i + 6 * p + p] == mem[i + 6 * p];
          assert mem[i + 7 * p + p] == mem[i + 7 * p];
        }
      }
    }
  }

  /** A block copied from a doubled period back extends the repetition by as much as the source was settled. */
  lemma BlockExtends(a: seq<Byte>, b: seq<Byte>, p: nat, start: nat, op: nat, n: nat)
    requires 0 < p && Doubled(n, p) && op <= |a| == |b| && start + n == op
    requires Repeats(a, p, start + p, op)
    requires a[..op] == b[..op]
    requires forall j | op <= j < |b| && j < op + 8 && j < op + n :: b[j] == a[j - n]
    requires op + 8 <= |b|
    ensures Repeats(b, p, start + p, if n < 8 then op + n else op + 8)
  {
    var hi := if n < 8 then op + n else op + 8;
    forall i | start + p <= i < hi
      ensures b[i] == b[i - p]
    {
      if i < op {
        assert b[i] == a[i] && b[i - p] == a[i - p];
      } else if i - p >= op {
        assert b[i - p] == a[i - p - n] && b[i] == a[i - n];
        assert a[i - n] == a[i - n - p];
      } else {
        assert b[i] == a[i - n] && b[i - p] == a[i - p];
        if n != p {
          SamePhaseBack(a, p, start, op, n, i);
        }
      }
    }
  }

  lemma SamePhaseBack(a: seq<Byte>, p: nat, start: nat, op: nat, n: nat, i: nat)
    requires 0 < p && Doubled(n, p) && n != p && op <= |a| && start + n == op <= i < op + p
    requires Repeats(a, p, start + p, op)
    ensures a[i - n] == a[i - p]
  {
    if n == 2 * p {
      SamePhase(a, p, start, op, p, i - n);
    } else if n == 4 * p {
      SamePhase(a, p, start, op, 2 * p, i - n);
      SamePhase(a, p, start, op, p, i - 2 * p);
    } else {
      SamePhase(a, p, start, op, 4 * p, i - n);
      SamePhase(a, p, start, op, 2 * p, i - 4 * p);
      SamePhase(a, p, start, op, p, i - 2 * p);
    }
  }

  /** What a copy of the region [src, limit) started at op leaves: everything before op, the periodic extension
      of it up to limit, and nothing touched from bufLimit on. */
  ghost predicate Copied(before: seq<Byte>, after: seq<Byte>, src: nat, op: nat, limit: nat, bufLimit: nat)
    requires src < op <= limit && op <= bufLimit <= |before|
  {
    && |after| == |before| && limit <= |after|
    && after[..op] == before[..op]
    && after[bufLimit..] == before[bufLimit..]
    && Repeats(after, op - src, op, limit)
  }

  lemma CopiedIsCopyWithin(before: seq<Byte>, after: seq<Byte>, src: nat, op: nat, limit: nat, bufLimit: nat)
    requires src < op <= limit <= bufLimit <= |before|
    requires Copied(before, after, src, op, limit, bufLimit)
    ensures after[..limit] == CopyWithin(before[..op], op - src, limit - op)
  {
    hide CopyWithin, Repeats, Periodic;
    assert |after| == |before| && after[..op] == before[..op] && Repeats(after, op - src, op, limit);
    hide Copied;
    PeriodicFront(before[..op], after, op - src, limit);
    CopyWithinIsPeriodic(before[..op], op - src, after[..limit]);
  }

  lemma PeriodicFront(front: seq<Byte>, mem: seq<Byte>, p: nat, limit: nat)
    requires 0 < p <= |front| <= limit <= |mem| && mem[..|front|] == front && Repeats(mem, p, |front|, limit)
    ensures front <= mem[..limit] && Periodic(mem[..limit], |front|, p)
  {
    hide Repeats;
    assert mem[..limit][..|front|] == mem[..|front|];
    forall i | |front| <= i < limit
      ensures mem[..limit][i] == mem[..limit][i - p]
    {
      RepeatsAt(mem, p, |front|, limit, i);
    }
  }

  lemma RepeatsAt(mem: seq<Byte>, p: nat, from: nat, limit: nat, i: nat)
    requires p <= from <= i < limit <= |mem| && Repeats(mem, p, from, limit)
    ensures mem[i] == mem[i - p]
  {
  }

  method IncrementalCopySlow(mem: array<Byte>, start: nat, first: nat, opLimit: nat)
    requires start < first && opLimit <= mem.Length
    modifies mem
    ensures opLimit <= first ==> mem[..] == old(mem[..])
    ensures first <= opLimit ==> Copied(old(mem[..]), mem[..], start, first, opLimit, opLimit)
  {
    var src, op := start, first;
    while op < opLimit
      invariant src < op && op - src == first - start && first <= op
      invariant first < opLimit ==> op <= opLimit
      invariant opLimit <= first ==> op == first && mem[..] == old(mem[..])
      invariant first <= opLimit ==> Copied(old(mem[..]), mem[..], start, first, op, opLimit)
    {
      mem[op] := mem[src];
      op, src := op + 1, src + 1;
    }
  }

  /** One 8-byte copy from a doubled period back, on a copy already settled up to op. */
  method CopyBlock(mem: array<Byte>, src: nat, op: nat, ghost start: nat, ghost first: nat, ghost bufLimit: nat,
                   ghost before: seq<Byte>)
    requires start < first <= op && op + 8 <= bufLimit <= mem.Length == |before|
    requires start <= src < op && Doubled(op - src, first - start)
    requires Copied(before, mem[..], start, first, op, bufLimit)
    modifies mem
    ensures Copied(before, mem[..], start, first, if op - src < 8 then op + (op - src) else op + 8, bufLimit)
  {
    ghost var a := mem[..];
    UnalignedCopy64(mem, src, op);
    BlockKeepsCopied(before, a, mem[..], start, first, src, op, bufLimit);
  }

  lemma BlockKeepsCopied(before: seq<Byte>, a: seq<Byte>, b: seq<Byte>, start: nat, first: nat, src: nat, op: nat,
                         bufLimit: nat)
    requires start < first <= op && op + 8 <= bufLimit <= |before|
    requires start <= src < op && Doubled(op - src, first - start)
    requires Copied(before, a, start, first, op, bufLimit)
    requires b == a[..op] + a[src..src + 8] + a[op + 8..]
    ensures Copied(before, b, start, first, if op - src < 8 then op + (op - src) else op + 8, bufLimit)
  {
    hide Repeats, Doubled;
    BlockLeaves(a, b, src, op);
    BlockRepeats(a, b, first - start, first, src, op, op - src);
    SameFront(a, b, first, op);
    SameBack(a, b, op + 8, bufLimit);
  }

  lemma SameFront(a: seq<Byte>, b: seq<Byte>, n: nat, m: nat)
    requires n <= m <= |a| && m <= |b| && a[..m] == b[..m]
    ensures a[..n] == b[..n]
  {
    assert b[..n] == b[..m][..n] && a[..n] == a[..m][..n];
  }

  lemma SameBack(a: seq<Byte>, b: seq<Byte>, n: nat, m: nat)
    requires n <= m <= |a| == |b| && a[n..] == b[n..]
    ensures a[m..] == b[m..]
  {
    assert b[m..] == b[n..][m - n..] && a[m..] == a[n..][m - n..];
  }

  /** The block changes eight places only. */
  lemma BlockLeaves(a: seq<Byte>, b: seq<Byte>, src: nat, op: nat)
    requires src < op && op + 8 <= |a| && b == a[..op] + a[src..src + 8] + a[op + 8..]
    ensures |b| == |a| && b[..op] == a[..op] && b[op + 8..] == a[op + 8..]
    ensures forall j :: op <= j < op + 8 ==> b[j] == a[j - op + src]
  {
  }

  lemma BlockRepeats(a: seq<Byte>, b: seq<Byte>, p: nat, first: nat, src: nat, op: nat, n: nat)
    requires 0 < p <= first <= op && Doubled(n, p) && src + n == op && op + 8 <= |a| == |b| && first <= src + p
    requires Repeats(a, p, first, op) && b[..op] == a[..op]
    requires forall j :: op <= j < op + 8 ==> b[j] == a[j - op + src]
    ensures Repeats(b, p, first, if n < 8 then op + n else op + 8)
  {
    BlockExtends(a, b, p, src, op, n);
    forall i | first <= i < src + p
      ensures b[i] == b[i - p]
    {
      assert a[i] == a[i - p] && a[..op][i] == b[..op][i] && a[..op][i - p] == b[..op][i - p];
    }
  }

  /** The fast form: patterns below eight bytes are doubled, then sixteen bytes go at a time, then eight, then one. */
  method IncrementalCopy(mem: array<Byte>, start: nat, first: nat, opLimit: nat, bufLimit: nat)
    requires start < first <= opLimit <= bufLimit <= mem.Length
    modifies mem
    ensures mem[..opLimit] == CopyWithin(old(mem[..first]), first - start, opLimit - first)
    ensures mem[bufLimit..] == old(mem[bufLimit..])
  {
    FastCopy(mem, start, first, opLimit, bufLimit);
    CopiedIsCopyWithin(old(mem[..]), mem[..], start, first, opLimit, bufLimit);
  }

  /** Going on byte by byte from a doubled period back keeps the original period. */
  lemma {:induction false} TailExtends(mem: seq<Byte>, p: nat, first: nat, n: nat, op: nat, limit: nat)
    requires 0 < p <= first <= op <= limit <= |mem| && Doubled(n, p) && first + n <= op + p
    requires Repeats(mem, p, first, op) && Repeats(mem, n, op, limit)
    ensures Repeats(mem, p, first, limit)
    decreases limit - op
  {
    hide Repeats, Doubled;
    if op < limit {
      TailMore(mem, p, first, n, op, limit);
      TailExtends(mem, p, first, n, op + 1, limit);
    }
  }

  lemma TailMore(mem: seq<Byte>, p: nat, first: nat, n: nat, op: nat, limit: nat)
    requires 0 < p <= first <= op < limit <= |mem| && Doubled(n, p) && first + n <= op + p
    requires Repeats(mem, p, first, op) && Repeats(mem, n, op, limit)
    ensures Repeats(mem, p, first, op + 1) && Repeats(mem, n, op + 1, limit)
  {
    assert mem[op] == mem[op - n];
    if n != p {
      SamePhaseBack(mem, p, op - n, op, n, op);
    }
  }

  method DoublePattern(mem: array<Byte>, start: nat, first: nat, bufLimit: nat) returns (op: nat)
    requires start < first && first - start < 8 && first + 14 <= bufLimit <= mem.Length
    modifies mem
    ensures first <= op <= bufLimit && op - start >= 8 && Doubled(op - start, first - start)
    ensures Copied(old(mem[..]), mem[..], start, first, op, bufLimit)
  {
    ghost var p := first - start;
    op := first;
    var patternSize := op - start;
    while patternSize < 8
      invariant op == start + patternSize && Doubled(patternSize, p) && first <= op <= bufLimit
      invariant op <= first + 14 - p
      invariant patternSize < 8 ==> op <= first + 6
      invariant Copied(old(mem[..]), mem[..], start, first, op, bufLimit)
    {
      CopyBlock(mem, start, op, start, first, bufLimit, old(mem[..]));
      op := op + patternSize;
      patternSize := patternSize * 2;
    }
  }

  method FastCopy(mem: array<Byte>, start: nat, first: nat, opLimit: nat, bufLimit: nat)
    requires start < first <= opLimit <= bufLimit <= mem.Length
    modifies mem
    ensures Copied(old(mem[..]), mem[..], start, first, opLimit, bufLimit)
  {
    var op := first;
    if first - start < 8 {
      if first <= bufLimit - 14 {
        op := DoublePattern(mem, start, first, bufLimit);
        if op >= opLimit { return; }
      } else {
        IncrementalCopySlow(mem, start, op, opLimit);
        return;
      }
    }
    BlockCopy(mem, start, first, op, opLimit, bufLimit, old(mem[..]));
  }

  method BlockCopy(mem: array<Byte>, start: nat, first: nat, start2: nat, opLimit: nat, bufLimit: nat,
                   ghost before: seq<Byte>)
    requires start < first <= start2 <= opLimit <= bufLimit <= mem.Length == |before|
    requires start2 - start >= 8 && Doubled(start2 - start, first - start)
    requires Copied(before, mem[..], start, first, start2, bufLimit)
    modifies mem
    ensures Copied(before, mem[..], start, first, opLimit, bufLimit)
  {
    var src, op := start, start2;
    while op <= bufLimit - 16
      invariant start <= src && op - src == start2 - start && op <= bufLimit && op <= opLimit
      invariant Copied(before, mem[..], start, first, op, bufLimit)
    {
      CopyBlock(mem, src, op, start, first, bufLimit, before);
      CopyBlock(mem, src + 8, op + 8, start, first, bufLimit, before);
      src := src + 16;
      op := op + 16;
      if op >= opLimit { return; }
    }
    if op <= bufLimit - 8 {
      CopyBlock(mem, src, op, start, first, bufLimit, before);
      src := src + 8;
      op := op + 8;
    }
    FinishSlowly(mem, src, op, opLimit, start, first, bufLimit, before);
  }

  method FinishSlowly(mem: array<Byte>, src: nat, op: nat, opLimit: nat, ghost start: nat, ghost first: nat,
                      ghost bufLimit: nat, ghost before: seq<Byte>)
    requires start < first <= op <= bufLimit && opLimit <= bufLimit <= mem.Length == |before| && first <= opLimit
    requires start <= src < op && Doubled(op - src, first - start)
    requires Copied(before, mem[..], start, first, op, bufLimit)
    modifies mem
    ensures Copied(before, mem[..], start, first, opLimit, bufLimit)
  {
    hide Repeats, Doubled;
    ghost var a := mem[..];
    IncrementalCopySlow(mem, src, op, opLimit);
    if op < opLimit {
      TailCopied(before, a, mem[..], start, first, src, op, opLimit, bufLimit);
    } else {
      assert mem[..] == a;
      ShorterCopied(before, a, start, first, op, opLimit, bufLimit);
    }
  }

  lemma ShorterCopied(before: seq<Byte>, a: seq<Byte>, start: nat, first: nat, op: nat, opLimit: nat, bufLimit: nat)
    requires start < first <= opLimit <= op && first <= bufLimit <= |before|
    requires Copied(before, a, start, first, op, bufLimit)
    ensures Copied(before, a, start, first, opLimit, bufLimit)
  {
  }

  lemma TailCopied(before: seq<Byte>, a: seq<Byte>, b: seq<Byte>, start: nat, first: nat, src: nat, op: nat,
                   opLimit: nat,
                   bufLimit: nat)
    requires start < first <= op < opLimit <= bufLimit <= |before| && start <= src < op
    requires Doubled(op - src, first - start)
    requires Copied(before, a, start, first, op, bufLimit) && Copied(a, b, src, op, opLimit, opLimit)
    ensures Copied(before, b, start, first, opLimit, bufLimit)
  {
    SameFront(a, b, first, op);
    SameBack(a, b, opLimit, bufLimit);
    SameRepeats(a, b, first - start, first, op);
    hide Repeats, Doubled;
    TailExtends(b, first - start, first, op - src, op, opLimit);
  }

  lemma SameRepeats(a: seq<Byte>, b: seq<Byte>, p: nat, first: nat, op: nat)
    requires p <= first <= op <= |a| == |b| && b[..op] == a[..op] && Repeats(a, p, first, op)
    ensures Repeats(b, p, first, op)
  {
    forall i | first <= i < op
      ensures b[i] == b[i - p]
    {
      assert b[i] == b[..op][i] == a[i] && b[i - p] == b[..op][i - p] == a[i - p];
    }
  }

  lemma CopyWithinStep(out: seq<Byte>, offset: nat, len: nat)
    requires 0 < offset <= |out| && 0 < len
    ensures CopyWithin(out, offset, len) == CopyWithin(out + [out[|out| - offset]], offset, len - 1)
  {
  }

  lemma {:induction false} CopyWithinPrefix(pre: seq<Byte>, out: seq<Byte>, offset: nat, len: nat)
    requires 0 < offset <= |out|
    ensures CopyWithin(pre + out, offset, len) == pre + CopyWithin(out, offset, len)
    decreases len
  {
    if len > 0 {
      var next := out + [out[|out| - offset]];
      assert pre + next == pre + out + [(pre + out)[|pre + out| - offset]];
      CopyWithinStep(pre + out, offset, len);
      CopyWithinStep(out, offset, len);
      hide CopyWithin;
      CopyWithinPrefix(pre, next, offset, len - 1);
    }
  }

  /** The copy as a writer sees it, whose output starts at base. */
  method CopyFromOutput(mem: array<Byte>, base: nat, op: nat, offset: nat, len: nat, opLimit: nat)
    requires 0 < offset && base + offset <= op && op + len <= opLimit <= mem.Length
    modifies mem
    ensures mem[..base] == old(mem[..base]) && mem[opLimit..] == old(mem[opLimit..])
    ensures mem[base..op + len] == CopyWithin(old(mem[base..op]), offset, len)
  {
    hide CopyWithin;
    ghost var pre, out := mem[..base], mem[base..op];
    assert mem[..op] == pre + out;
    CopyWithinPrefix(pre, out, offset, len);
    IncrementalCopy(mem, op - offset, op, op + len, opLimit);
    assert mem[..op + len] == pre + CopyWithin(out, offset, len);
    assert mem[..base] == mem[..op + len][..base];
    assert mem[base..op + len] == mem[..op + len][base..];
  }
}

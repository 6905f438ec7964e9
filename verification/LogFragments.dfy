/** The records that stand in a file, said without a reader; the reader returns these, and none of its own making. */
module LogFragments {
  import opened Bytes
  import opened LogFormat

  /** The bytes from start on are a fragment of this kind. It does not cross the end of a block, and if checksums are
      looked at, its own is right. */
  ghost predicate FragmentAt(crc: Checksum, checking: bool, file: seq<Byte>, start: nat, kind: Byte, data: seq<Byte>) {
    && start % BLOCK_SIZE + HEADER_SIZE + |data| <= BLOCK_SIZE && start + HEADER_SIZE + |data| <= |file|
    && FromLE(file[start + 4..start + 6]) == |data| && file[start + 6] == kind
    && file[start + HEADER_SIZE..start + HEADER_SIZE + |data|] == data
    && (checking ==> crc.unmask(Loaded(file, start)) == crc.value([kind] + data))
  }

  /** The fragment after one that ends at `end` starts right there, or with the next block if no header fits before
      it. */
  predicate Follows(end: nat, start: int) {
    start == end || (end < start < end + HEADER_SIZE && start % BLOCK_SIZE == 0)
  }

  /** A first fragment starts at `start`; it and the middle ones that follow it, up to `end`, hold the data. */
  ghost predicate Begun(crc: Checksum, checking: bool, file: seq<Byte>, start: nat, data: seq<Byte>, end: nat)
    decreases end
  {
    || (FragmentAt(crc, checking, file, start, FIRST_TYPE, data) && end == start + HEADER_SIZE + |data|)
    || exists n: nat, e: nat ::
         && n <= |data| && e < end && Begun(crc, checking, file, start, data[..n], e)
         && GoesOn(crc, checking, file, e, MIDDLE_TYPE, data[n..], end)
  }

  /** The fragment after `e` is of this kind and ends at `end`. */
  ghost predicate GoesOn(crc: Checksum, checking: bool, file: seq<Byte>, e: nat, kind: Byte, data: seq<Byte>,
                         end: nat)
  {
    var s := end - HEADER_SIZE - |data|;
    s >= 0 && Follows(e, s) && FragmentAt(crc, checking, file, s, kind, data)
  }

  /** A whole record stands in the file, from `start` to `next`: a full fragment, or a first one, middle ones and a last
      one, with nothing between them. */
  ghost predicate Stands(crc: Checksum, checking: bool, file: seq<Byte>, start: nat, data: seq<Byte>, next: nat) {
    || (FragmentAt(crc, checking, file, start, FULL_TYPE, data) && next == start + HEADER_SIZE + |data|)
    || exists n: nat, e: nat ::
         && n <= |data| && Begun(crc, checking, file, start, data[..n], e)
         && GoesOn(crc, checking, file, e, LAST_TYPE, data[n..], next)
  }

  // ----- What is returned stands there -----

  /** What the reader takes for a fragment is one. */
  lemma {:induction false} PhysicalIsAFragment(crc: Checksum, checking: bool, initial: nat, file: seq<Byte>, pos: nat)
    ensures var p := NextPhysical(crc, checking, initial, file, pos);
            p.kind != EOF_TYPE && p.kind != BAD_RECORD ==>
              && GoesOn(crc, checking, file, pos, p.kind, p.data, p.next)
              && p.next - HEADER_SIZE - |p.data| >= initial
    decreases if |file| < pos then 0 else |file| - pos
  {
    var end := BufferEnd(file, pos);
    if end - pos < HEADER_SIZE {
      if !AtEof(file, pos) {
        SkipsToBlock(crc, checking, initial, file, pos);
        PhysicalIsAFragment(crc, checking, initial, file, end);
        hide NextPhysical, FragmentAt;
      }
    } else {
      HeaderIsAFragment(crc, checking, initial, file, pos);
    }
  }

  /** Too little is left of a block for a header. */
  lemma SkipsToBlock(crc: Checksum, checking: bool, initial: nat, file: seq<Byte>, pos: nat)
    requires BufferEnd(file, pos) - pos < HEADER_SIZE && !AtEof(file, pos)
    ensures var end := BufferEnd(file, pos);
            && pos < end && end % BLOCK_SIZE == 0
            && NextPhysical(crc, checking, initial, file, pos) == NextPhysical(crc, checking, initial, file, end)
  {
  }

  lemma HeaderIsAFragment(crc: Checksum, checking: bool, initial: nat, file: seq<Byte>, pos: nat)
    requires BufferEnd(file, pos) - pos >= HEADER_SIZE
    ensures var p := NextPhysical(crc, checking, initial, file, pos);
            p.kind != EOF_TYPE && p.kind != BAD_RECORD ==>
              && FragmentAt(crc, checking, file, pos, p.kind, p.data) && p.next == pos + HEADER_SIZE + |p.data|
              && pos >= initial
  {
    var end, length, kind := BufferEnd(file, pos), FromLE(file[pos + 4..pos + 6]), file[pos + 6];
    assert (pos / BLOCK_SIZE + 1) * BLOCK_SIZE - pos == BLOCK_SIZE - pos % BLOCK_SIZE;
    assert end <= |file| && pos % BLOCK_SIZE + (end - pos) <= BLOCK_SIZE;
    if HEADER_SIZE + length <= end - pos {
      assert file[pos + 6..pos + 7 + length] == [kind] + file[pos + 7..pos + 7 + length];
    }
  }

  /** What the reader has put together when it stands at pos. */
  ghost predicate Gathered(crc: Checksum, checking: bool, file: seq<Byte>, pos: nat, a: Assembly, initial: nat) {
    a.inFragmented ==> !a.resyncing && a.start >= initial && Begun(crc, checking, file, a.start, a.scratch, pos)
  }

  lemma GathersOn(crc: Checksum, checking: bool, file: seq<Byte>, pos: nat, a: Assembly, initial: nat, kind: nat,
                  data: seq<Byte>, next: nat)
    requires Gathered(crc, checking, file, pos, a, initial) && pos < next
    requires kind < 0x100 && kind != BAD_RECORD ==>
               GoesOn(crc, checking, file, pos, kind, data, next) && next - HEADER_SIZE - |data| >= initial
    ensures var (stop, a', more) := Assemble(kind, data, next, a, initial);
            if stop.Some? then a'.start >= initial && Stands(crc, checking, file, a'.start, stop.value, next)
            else Gathered(crc, checking, file, next, a', initial)
  {
    hide FragmentAt, Follows;
    var d, n := a.scratch + data, |a.scratch|;
    assert d[..n] == a.scratch && d[n..] == data;
    if kind == MIDDLE_TYPE && a.inFragmented {
      hide GoesOn;
      assert Begun(crc, checking, file, a.start, d, next);
    } else if kind == LAST_TYPE && a.inFragmented {
      hide GoesOn, Begun;
      assert Stands(crc, checking, file, a.start, d, next);
    }
  }

  /** A record that is returned stands in the file where the reader says, and does not begin before the initial
      offset. */
  lemma {:induction false} ReturnedStands(crc: Checksum, checking: bool, initial: nat, file: seq<Byte>, pos: nat,
                                          a: Assembly)
    requires Gathered(crc, checking, file, pos, a, initial)
    ensures var r := ReadFrom(crc, checking, initial, file, pos, a);
            r.record.Some? ==> r.start >= initial && Stands(crc, checking, file, r.start, r.record.value, r.next)
    decreases |file| - pos
  {
    hide ReadFrom, NextPhysical, Assemble, Gathered, Stands, GoesOn;
    var p := NextPhysical(crc, checking, initial, file, pos);
    NextWithin(crc, checking, initial, file, pos);
    PhysicalIsAFragment(crc, checking, initial, file, pos);
    ReadFromStep(crc, checking, initial, file, pos, a);
    if p.kind != EOF_TYPE {
      GathersOn(crc, checking, file, pos, a, initial, p.kind, p.data, p.next);
      var (stop, a', more) := Assemble(p.kind, p.data, p.next, a, initial);
      if stop == None {
        ReturnedStands(crc, checking, initial, file, p.next, a');
      }
    }
  }

  /** It takes up as much room as it is long, and a header at least. */
  lemma {:induction false} BegunTakesRoom(crc: Checksum, checking: bool, file: seq<Byte>, start: nat, data: seq<Byte>,
                                          end: nat)
    requires Begun(crc, checking, file, start, data, end)
    ensures start + HEADER_SIZE + |data| <= end <= |file|
    decreases end
  {
    if !(FragmentAt(crc, checking, file, start, FIRST_TYPE, data) && end == start + HEADER_SIZE + |data|) {
      var n: nat, e: nat :| n <= |data| && e < end && Begun(crc, checking, file, start, data[..n], e) &&
                            GoesOn(crc, checking, file, e, MIDDLE_TYPE, data[n..], end);
      BegunTakesRoom(crc, checking, file, start, data[..n], e);
    }
  }

  lemma TakesRoom(crc: Checksum, checking: bool, file: seq<Byte>, start: nat, data: seq<Byte>, next: nat)
    requires Stands(crc, checking, file, start, data, next)
    ensures start + HEADER_SIZE + |data| <= next <= |file|
  {
    hide Begun;
    if !(FragmentAt(crc, checking, file, start, FULL_TYPE, data) && next == start + HEADER_SIZE + |data|) {
      var n: nat, e: nat :| n <= |data| && Begun(crc, checking, file, start, data[..n], e) &&
                            GoesOn(crc, checking, file, e, LAST_TYPE, data[n..], next);
      BegunTakesRoom(crc, checking, file, start, data[..n], e);
    }
  }

  // ----- What stands there is returned -----

  /** A fragment that is there is what the reader meets next. */
  lemma MeetsFragment(crc: Checksum, checking: bool, initial: nat, file: seq<Byte>, pos: nat, kind: Byte,
                      data: seq<Byte>, next: nat)
    requires GoesOn(crc, checking, file, pos, kind, data, next) && next - HEADER_SIZE - |data| >= initial
    requires kind != ZERO_TYPE
    ensures NextPhysical(crc, checking, initial, file, pos) == Physical(kind, data, next, 0)
  {
    hide NextPhysical;
    var s: nat := next - HEADER_SIZE - |data|;
    ReadsFragment(crc, checking, initial, file, s, kind, data);
    if s != pos {
      hide FragmentAt;
      assert BufferEnd(file, pos) == s && !AtEof(file, pos);
      SkipsToBlock(crc, checking, initial, file, pos);
    }
  }

  lemma ReadsFragment(crc: Checksum, checking: bool, initial: nat, file: seq<Byte>, s: nat, kind: Byte,
                      data: seq<Byte>)
    requires FragmentAt(crc, checking, file, s, kind, data) && s >= initial && kind != ZERO_TYPE
    ensures NextPhysical(crc, checking, initial, file, s) == Physical(kind, data, s + HEADER_SIZE + |data|, 0)
  {
    assert file[s + 6..s + 7 + |data|] == [kind] + file[s + 7..s + 7 + |data|];
    assert BufferEnd(file, s) - s >= HEADER_SIZE + |data|;
  }

  /** A record that was begun is dropped; that is reported if there is anything of it. */
  function Unfinished(a: Assembly): nat {
    Count(a.inFragmented && a.scratch != [])
  }

  /** What has been put together lies after the initial offset, so that dropping it is always reported. */
  lemma PartialIsUnfinished(crc: Checksum, checking: bool, file: seq<Byte>, pos: nat, a: Assembly, initial: nat,
                            next: nat)
    requires Gathered(crc, checking, file, pos, a, initial) && pos <= next
    ensures Partial(a, next, initial) == Unfinished(a)
  {
    hide Begun;
    if a.inFragmented {
      BegunTakesRoom(crc, checking, file, a.start, a.scratch, pos);
    }
  }

  /** Whatever the reader had of another record, it starts anew with a first fragment, and follows that record on. */
  lemma {:induction false} FollowsBegun(crc: Checksum, checking: bool, initial: nat, file: seq<Byte>, pos: nat,
                                        a: Assembly, start: nat, data: seq<Byte>, end: nat)
    requires Gathered(crc, checking, file, pos, a, initial)
    requires Follows(pos, start) && start >= initial && Begun(crc, checking, file, start, data, end)
    ensures Adds(ReadFrom(crc, checking, initial, file, pos, a),
                 ReadFrom(crc, checking, initial, file, end, Assembly(true, data, start, false)), Unfinished(a))
    decreases end
  {
    hide ReadFrom, NextPhysical, Gathered, FragmentAt, Follows, Partial;
    if FragmentAt(crc, checking, file, start, FIRST_TYPE, data) && end == start + HEADER_SIZE + |data| {
      MeetsFragment(crc, checking, initial, file, pos, FIRST_TYPE, data, end);
      PartialIsUnfinished(crc, checking, file, pos, a, initial, end);
      ReadFromStep(crc, checking, initial, file, pos, a);
    } else {
      var n: nat, e: nat :| n <= |data| && e < end && Begun(crc, checking, file, start, data[..n], e) &&
                            GoesOn(crc, checking, file, e, MIDDLE_TYPE, data[n..], end);
      FollowsBegun(crc, checking, initial, file, pos, a, start, data[..n], e);
      BegunTakesRoom(crc, checking, file, start, data[..n], e);
      hide Begun;
      LaterStart(e, end, data[n..]);
      MeetsFragment(crc, checking, initial, file, e, MIDDLE_TYPE, data[n..], end);
      ReadFromStep(crc, checking, initial, file, e, Assembly(true, data[..n], start, false));
      assert data[..n] + data[n..] == data;
    }
  }

  lemma LaterStart(e: nat, end: nat, data: seq<Byte>)
    ensures Follows(e, end - HEADER_SIZE - |data|) ==> end - HEADER_SIZE - |data| >= e
  {
  }

  /** A record that stands where the reader comes to is returned, whatever the reader had of another one; that is
      dropped, with one report if there was anything of it. */
  lemma StandingIsReturned(crc: Checksum, checking: bool, initial: nat, file: seq<Byte>, pos: nat, a: Assembly,
                           start: nat, data: seq<Byte>, next: nat)
    requires Gathered(crc, checking, file, pos, a, initial)
    requires Follows(pos, start) && start >= initial && Stands(crc, checking, file, start, data, next)
    ensures ReadFrom(crc, checking, initial, file, pos, a) == Outcome(Some(data), start, next, Unfinished(a))
  {
    hide ReadFrom, NextPhysical, Gathered, FragmentAt, Follows, Partial, Begun;
    if FragmentAt(crc, checking, file, start, FULL_TYPE, data) && next == start + HEADER_SIZE + |data| {
      MeetsFragment(crc, checking, initial, file, pos, FULL_TYPE, data, next);
      PartialIsUnfinished(crc, checking, file, pos, a, initial, next);
      ReadFromStep(crc, checking, initial, file, pos, a);
    } else {
      var n: nat, e: nat :| n <= |data| && Begun(crc, checking, file, start, data[..n], e) &&
                            GoesOn(crc, checking, file, e, LAST_TYPE, data[n..], next);
      FollowsBegun(crc, checking, initial, file, pos, a, start, data[..n], e);
      BegunTakesRoom(crc, checking, file, start, data[..n], e);
      LaterStart(e, next, data[n..]);
      MeetsFragment(crc, checking, initial, file, e, LAST_TYPE, data[n..], next);
      ReadFromStep(crc, checking, initial, file, e, Assembly(true, data[..n], start, false));
      assert data[..n] + data[n..] == data;
    }
  }
}

/** What the reader makes of what the writer wrote: whole, cut off at any byte, or entered at any offset. */
module LogTheorems {
  import opened Bytes
  import opened LogFormat
  import LogIO

  // ----- One fragment -----

  /** Where the fragment written at pos really starts. */
  function Begins(pos: nat): nat {
    pos + |Trailer(pos)|
  }

  lemma FragmentStaysInBlock(pos: nat, data: seq<Byte>)
    ensures var s, n := Begins(pos), FragmentLength(pos, data);
            s % BLOCK_SIZE + HEADER_SIZE + n <= BLOCK_SIZE
    ensures Trailer(pos) != [] ==> (pos / BLOCK_SIZE + 1) * BLOCK_SIZE == Begins(pos)
  {
  }

  /** With the trailer in the file the reader goes on to the next block. */
  lemma SkipsTrailer(crc: Checksum, checking: bool, initial: nat, file: seq<Byte>, pos: nat)
    requires Begins(pos) <= |file|
    ensures NextPhysical(crc, checking, initial, file, pos) == NextPhysical(crc, checking, initial, file, Begins(pos))
  {
    FragmentStaysInBlock(pos, []);
  }

  /** The header says what was put into it. */
  lemma HeaderFields(crc: Checksum, kind: Byte, data: seq<Byte>)
    requires |data| < 0x10000
    ensures var h := Header(crc, kind, data);
            && h[..4] == LE(4, crc.mask(crc.value([kind] + data))) && FromLE(h[4..6]) == |data| && h[6] == kind
    ensures FromLE(LE(4, crc.mask(crc.value([kind] + data)))) == crc.mask(crc.value([kind] + data))
  {
    var h := Header(crc, kind, data);
    assert h[4..6] == LE(2, |data|);
    assert Span(2) == 0x10000 by { assert Span(1) == 0x100; }
    assert Span(4) == POW32;
    LERoundTrip(2, |data|);
    LERoundTrip(4, crc.mask(crc.value([kind] + data)));
  }

  /** A physical record that is all there is read as it was written. */
  lemma ParsesPhysical(crc: Checksum, checking: bool, initial: nat, file: seq<Byte>, pos: nat, kind: Byte,
                       data: seq<Byte>)
    requires crc.Sound() && kind != ZERO_TYPE && pos % BLOCK_SIZE + HEADER_SIZE + |data| <= BLOCK_SIZE
    requires pos <= |file| && Header(crc, kind, data) + data <= file[pos..]
    ensures NextPhysical(crc, checking, initial, file, pos) ==
            if pos < initial then Physical(BAD_RECORD, [], pos + HEADER_SIZE + |data|, 0)
            else Physical(kind, data, pos + HEADER_SIZE + |data|, 0)
  {
    var h := Header(crc, kind, data);
    var s := file[pos..];
    HeaderFields(crc, kind, data);
    assert s[..HEADER_SIZE] == h && s[HEADER_SIZE..HEADER_SIZE + |data|] == data;
    assert file[pos..pos + 4] == h[..4] && file[pos + 4..pos + 6] == h[4..6] && file[pos + 6] == h[6];
    assert file[pos + 7..pos + 7 + |data|] == data;
    assert file[pos + 6..pos + 7 + |data|] == [kind] + data;
    assert Loaded(file, pos) == crc.mask(crc.value([kind] + data));
    assert HEADER_SIZE + |data| <= BufferEnd(file, pos) - pos;
  }

  /** A physical record whose end is missing from the file is the end of the input, and no corruption. */
  lemma CutPhysical(crc: Checksum, checking: bool, initial: nat, file: seq<Byte>, pos: nat, kind: Byte, data: seq<Byte>)
    requires pos % BLOCK_SIZE + HEADER_SIZE + |data| <= BLOCK_SIZE
    requires pos <= |file| < pos + HEADER_SIZE + |data| && file[pos..] <= Header(crc, kind, data) + data
    ensures NextPhysical(crc, checking, initial, file, pos) == Physical(EOF_TYPE, [], |file|, 0)
  {
    assert BufferEnd(file, pos) == |file| && AtEof(file, pos);
    if |file| >= pos + HEADER_SIZE {
      HeaderFields(crc, kind, data);
      var h := Header(crc, kind, data);
      assert file[pos..][4..6] == h[4..6];
      assert file[pos + 4..pos + 6] == file[pos..][4..6];
    }
  }

  lemma ParsesFragment(crc: Checksum, checking: bool, initial: nat, file: seq<Byte>, pos: nat, data: seq<Byte>,
                       begin: bool)
    requires crc.Sound() && pos <= |file| && Fragment(crc, pos, data, begin) <= file[pos..]
    ensures var n, next := FragmentLength(pos, data), pos + |Fragment(crc, pos, data, begin)|;
            NextPhysical(crc, checking, initial, file, pos) ==
            if Begins(pos) < initial then Physical(BAD_RECORD, [], next, 0)
            else Physical(FragmentKind(begin, n == |data|), data[..n], next, 0)
  {
    hide NextPhysical, Trailer, FragmentLength;
    var n := FragmentLength(pos, data);
    var kind := FragmentKind(begin, n == |data|);
    FragmentStaysInBlock(pos, data);
    SkipsTrailer(crc, checking, initial, file, pos);
    var f := Fragment(crc, pos, data, begin);
    assert f[|Trailer(pos)|..] == Header(crc, kind, data[..n]) + data[..n];
    assert file[pos..][|Trailer(pos)|..] == file[Begins(pos)..];
    assert f[|Trailer(pos)|..] <= file[Begins(pos)..];
    ParsesPhysical(crc, checking, initial, file, Begins(pos), kind, data[..n]);
  }

  lemma CutFragment(crc: Checksum, checking: bool, initial: nat, file: seq<Byte>, pos: nat, data: seq<Byte>,
                    begin: bool)
    requires pos <= |file| && file[pos..] < Fragment(crc, pos, data, begin)
    ensures NextPhysical(crc, checking, initial, file, pos) == Physical(EOF_TYPE, [], |file|, 0)
  {
    hide Trailer, FragmentLength, Header;
    var n := FragmentLength(pos, data);
    var kind := FragmentKind(begin, n == |data|);
    FragmentStaysInBlock(pos, data);
    var f := Fragment(crc, pos, data, begin);
    if |file| < Begins(pos) {
      assert AtEof(file, pos) && BufferEnd(file, pos) == |file|;
    } else {
      SkipsTrailer(crc, checking, initial, file, pos);
      assert f[|Trailer(pos)|..] == Header(crc, kind, data[..n]) + data[..n];
      assert file[Begins(pos)..] == file[pos..][|Trailer(pos)|..];
      CutPhysical(crc, checking, initial, file, Begins(pos), kind, data[..n]);
    }
  }

  // ----- One record -----

  /** The file goes on at pos as s does, perhaps cut off before its end. */
  ghost predicate Holds(file: seq<Byte>, pos: nat, s: seq<Byte>) {
    pos <= |file| && file[pos..] <= s
  }

  /** A file that goes on as a + b either has all of a, or is cut off inside it. */
  lemma WholeOrCut(file: seq<Byte>, pos: nat, a: seq<Byte>, b: seq<Byte>)
    requires Holds(file, pos, a + b)
    ensures if pos + |a| <= |file| then a <= file[pos..] && Holds(file, pos + |a|, b) else file[pos..] < a
  {
    var s := file[pos..];
    if |a| <= |s| {
      assert s[..|a|] == (a + b)[..|a|] == a;
      assert s[|a|..] == file[pos + |a|..];
      assert (a + b)[|a|..] == b;
      assert s[|a|..] <= b;
    } else {
      assert s == (a + b)[..|s|] == a[..|s|];
    }
  }

  lemma PrefixSplit(file: seq<Byte>, pos: nat, a: seq<Byte>, b: seq<Byte>)
    requires pos <= |file| && a + b <= file[pos..]
    ensures a <= file[pos..] && pos + |a| <= |file| && b <= file[pos + |a|..]
  {
    var s := file[pos..];
    assert a == (a + b)[..|a|] == s[..|a|];
    assert b == (a + b)[|a|..] == s[|a|..|a| + |b|];
    assert s[|a|..] == file[pos + |a|..];
    assert s[|a|..][..|b|] == b;
  }

  /** The reader is between records (begin), or has put together the part of a record that precedes the data. */
  ghost predicate Ready(a: Assembly, begin: bool) {
    if begin then !a.inFragmented && a.scratch == [] else a.inFragmented && !a.resyncing
  }

  /** What the reader's state is after a fragment that does not end the record. */
  function Took(a: Assembly, data: seq<Byte>, start: nat, begin: bool): Assembly {
    if begin then Assembly(true, data, start, false) else a.(scratch := a.scratch + data)
  }

  lemma Takes(a: Assembly, data: seq<Byte>, next: nat, begin: bool, end: bool, initial: nat)
    requires Ready(a, begin) && HEADER_SIZE + |data| <= next
    ensures var start := next - HEADER_SIZE - |data|;
            var (stop, a', more) := Assemble(FragmentKind(begin, end), data, next, a, initial);
            && more == 0 && Ready(Took(a, data, start, begin), false)
            && Took(a, data, start, begin).scratch == a.scratch + data
            && Took(a, data, start, begin).start == (if begin then start else a.start)
            && if end then stop == Some(a.scratch + data) && a'.start == if begin then start else a.start
               else stop == None && a' == Took(a, data, start, begin)
  {
  }

  /** A record that is all there is returned, with the offset it starts at and without a report. */
  lemma {:induction false} ReadsRecord(crc: Checksum, checking: bool, initial: nat, file: seq<Byte>, pos: nat,
                                       data: seq<Byte>, begin: bool, a: Assembly)
    requires crc.Sound() && Begins(pos) >= initial && Ready(a, begin)
    requires pos <= |file| && Emit(crc, pos, data, begin) <= file[pos..]
    ensures ReadFrom(crc, checking, initial, file, pos, a) ==
            Outcome(Some(a.scratch + data), if begin then Begins(pos) else a.start,
                    pos + |Emit(crc, pos, data, begin)|, 0)
    decreases |data|, if FragmentLength(pos, data) == 0 then 1 else 0
  {
    hide ReadFrom, NextPhysical, Emit, Fragment, Trailer, FragmentLength, Assemble, Took;
    var n, s := FragmentLength(pos, data), Fragment(crc, pos, data, begin);
    var next := pos + |s|;
    Takes(a, data[..n], next, begin, n == |data|, initial);
    EmitUnfolds(crc, pos, data, begin);
    ReadFromStep(crc, checking, initial, file, pos, a);
    ParsesFragment(crc, checking, initial, file, pos, data, begin);
    if n < |data| {
      var rest := Emit(crc, next, data[n..], false);
      PrefixSplit(file, pos, s, rest);
      var a' := Took(a, data[..n], Begins(pos), begin);
      ReadsRecord(crc, checking, initial, file, next, data[n..], false, a');
      assert a.scratch + data == a'.scratch + data[n..];
    } else {
      assert data[..n] == data;
    }
  }

  /** A record whose end is missing ends the input, and is no corruption. */
  lemma {:induction false} CutRecord(crc: Checksum, checking: bool, initial: nat, file: seq<Byte>, pos: nat,
                                     data: seq<Byte>, begin: bool, a: Assembly)
    requires crc.Sound() && Begins(pos) >= initial && Ready(a, begin)
    requires pos <= |file| && file[pos..] < Emit(crc, pos, data, begin)
    ensures var r := ReadFrom(crc, checking, initial, file, pos, a); r.record == None && r.reports == 0
    decreases |data|, if FragmentLength(pos, data) == 0 then 1 else 0
  {
    hide ReadFrom, NextPhysical, Emit, Fragment, Trailer, FragmentLength, Assemble, Took;
    var n, s := FragmentLength(pos, data), Fragment(crc, pos, data, begin);
    var next := pos + |s|;
    Takes(a, data[..n], next, begin, n == |data|, initial);
    EmitUnfolds(crc, pos, data, begin);
    ReadFromStep(crc, checking, initial, file, pos, a);
    if |file| < next {
      assert file[pos..] < s;
      CutFragment(crc, checking, initial, file, pos, data, begin);
    } else {
      var rest := Emit(crc, next, data[n..], false);
      WholeOrCut(file, pos, s, rest);
      ParsesFragment(crc, checking, initial, file, pos, data, begin);
      var a' := Took(a, data[..n], Begins(pos), begin);
      CutRecord(crc, checking, initial, file, next, data[n..], false, a');
    }
  }

  // ----- A record begun before the initial offset -----

  /** Where the fragment of the data written at pos ends. */
  function End(pos: nat, data: seq<Byte>): nat {
    Begins(pos) + HEADER_SIZE + FragmentLength(pos, data)
  }

  /** How many fragments of (the rest of) a record, its first one aside, lie in a file of length cut and start at or
      after the initial offset. */
  function Late(pos: nat, data: seq<Byte>, begin: bool, initial: nat, cut: nat): nat
    decreases |data|, if FragmentLength(pos, data) == 0 then 1 else 0
  {
    var n := FragmentLength(pos, data);
    Count(!begin && Begins(pos) >= initial && End(pos, data) <= cut) +
    if n == |data| then 0 else Late(End(pos, data), data[n..], false, initial, cut)
  }

  lemma {:induction false} NoneLate(pos: nat, data: seq<Byte>, begin: bool, initial: nat, cut: nat)
    requires pos >= cut
    ensures Late(pos, data, begin, initial, cut) == 0
    decreases |data|, if FragmentLength(pos, data) == 0 then 1 else 0
  {
    var n := FragmentLength(pos, data);
    if n < |data| {
      NoneLate(End(pos, data), data[n..], false, initial, cut);
    }
  }

  /** What such fragments are reported as. */
  function Complaints(pos: nat, data: seq<Byte>, begin: bool, initial: nat, cut: nat, resync: bool): nat {
    if resync && Begins(pos) >= initial then 0 else Late(pos, data, begin, initial, cut)
  }

  /** A fragment before the initial offset, or one of a record begun there, is passed over. */
  lemma SkipsFragment(crc: Checksum, checking: bool, initial: nat, file: seq<Byte>, pos: nat, data: seq<Byte>,
                      begin: bool, resync: bool)
    requires crc.Sound() && (begin ==> Begins(pos) < initial)
    requires pos <= |file| && Fragment(crc, pos, data, begin) <= file[pos..]
    ensures var resync' := resync && Begins(pos) >= initial && FragmentLength(pos, data) < |data|;
            Adds(ReadFrom(crc, checking, initial, file, pos, FRESH.(resyncing := resync)),
                 ReadFrom(crc, checking, initial, file, End(pos, data), FRESH.(resyncing := resync')),
                 Count(!begin && Begins(pos) >= initial && !resync))
  {
    hide ReadFrom, NextPhysical, Fragment, Trailer, FragmentLength;
    ReadFromStep(crc, checking, initial, file, pos, FRESH.(resyncing := resync));
    ParsesFragment(crc, checking, initial, file, pos, data, begin);
  }

  lemma {:induction false} SkipsRecord(crc: Checksum, checking: bool, initial: nat, file: seq<Byte>, pos: nat,
                                       data: seq<Byte>, begin: bool, resync: bool)
    requires crc.Sound() && (begin ==> Begins(pos) < initial)
    requires pos <= |file| && Emit(crc, pos, data, begin) <= file[pos..]
    ensures Adds(ReadFrom(crc, checking, initial, file, pos, FRESH.(resyncing := resync)),
                 ReadFrom(crc, checking, initial, file, pos + |Emit(crc, pos, data, begin)|, FRESH),
                 Complaints(pos, data, begin, initial, |file|, resync))
    decreases |data|, if FragmentLength(pos, data) == 0 then 1 else 0
  {
    hide ReadFrom, Emit, Fragment, Trailer, FragmentLength;
    var n, s := FragmentLength(pos, data), Fragment(crc, pos, data, begin);
    EmitUnfolds(crc, pos, data, begin);
    if n < |data| {
      var next := pos + |s|;
      PrefixSplit(file, pos, s, Emit(crc, next, data[n..], false));
      SkipsFragment(crc, checking, initial, file, pos, data, begin, resync);
      SkipsRecord(crc, checking, initial, file, next, data[n..], false, resync && Begins(pos) >= initial);
    } else {
      SkipsFragment(crc, checking, initial, file, pos, data, begin, resync);
    }
  }

  lemma {:induction false} SkipsCut(crc: Checksum, checking: bool, initial: nat, file: seq<Byte>, pos: nat,
                                    data: seq<Byte>, begin: bool, resync: bool)
    requires crc.Sound() && (begin ==> Begins(pos) < initial)
    requires pos <= |file| && file[pos..] < Emit(crc, pos, data, begin)
    ensures var r := ReadFrom(crc, checking, initial, file, pos, FRESH.(resyncing := resync));
            r.record == None && r.reports == Complaints(pos, data, begin, initial, |file|, resync)
    decreases |data|, if FragmentLength(pos, data) == 0 then 1 else 0
  {
    hide ReadFrom, NextPhysical, Emit, Fragment, Trailer, FragmentLength;
    var n, s := FragmentLength(pos, data), Fragment(crc, pos, data, begin);
    var next := pos + |s|;
    EmitUnfolds(crc, pos, data, begin);
    if |file| < next {
      assert file[pos..] < s;
      CutFragment(crc, checking, initial, file, pos, data, begin);
      ReadFromStep(crc, checking, initial, file, pos, FRESH.(resyncing := resync));
      if n < |data| {
        NoneLate(next, data[n..], false, initial, |file|);
      }
    } else {
      var rest := Emit(crc, next, data[n..], false);
      WholeOrCut(file, pos, s, rest);
      SkipsFragment(crc, checking, initial, file, pos, data, begin, resync);
      SkipsCut(crc, checking, initial, file, next, data[n..], false, resync && Begins(pos) >= initial);
    }
  }

  // ----- The whole log -----

  /** What a reader opened at an offset is to make of a log of which only the first `cut` bytes are there: the records
      that start at or after the offset and end within the file, in order; and a report for every later fragment of a
      record that starts before the offset. */
  function Yield(crc: Checksum, pos: nat, records: seq<seq<Byte>>, initial: nat, cut: nat): Contents
    decreases |records|
  {
    if records == [] then Contents([], 0)
    else
      var next := pos + |Emit(crc, pos, records[0], true)|;
      var c := Yield(crc, next, records[1..], initial, cut);
      if Begins(pos) < initial then c.(reports := c.reports + Late(pos, records[0], true, initial, cut))
      else if next <= cut then c.(records := [records[0]] + c.records)
      else c
  }

  lemma {:induction false} NothingFits(crc: Checksum, pos: nat, records: seq<seq<Byte>>, initial: nat, cut: nat)
    requires pos >= cut
    ensures Yield(crc, pos, records, initial, cut) == Contents([], 0)
    decreases |records|
  {
    if records != [] {
      NothingFits(crc, pos + |Emit(crc, pos, records[0], true)|, records[1..], initial, cut);
      NoneLate(pos, records[0], true, initial, cut);
    }
  }

  lemma {:induction false} NothingReported(crc: Checksum, pos: nat, records: seq<seq<Byte>>, initial: nat, cut: nat)
    requires Begins(pos) >= initial
    ensures Yield(crc, pos, records, initial, cut).reports == 0
    decreases |records|
  {
    if records != [] {
      EmitLonger(crc, pos, records[0], true);
      NothingReported(crc, pos + |Emit(crc, pos, records[0], true)|, records[1..], initial, cut);
    }
  }

  lemma EmitLonger(crc: Checksum, pos: nat, data: seq<Byte>, begin: bool)
    ensures pos + |Emit(crc, pos, data, begin)| > Begins(pos)
  {
    EmitUnfolds(crc, pos, data, begin);
  }

  /** The reader at the end of the file. */
  lemma AtTheEnd(crc: Checksum, checking: bool, initial: nat, file: seq<Byte>, pos: nat, resync: bool)
    requires pos >= |file|
    ensures ReadAll(crc, checking, initial, file, pos, resync) == Contents([], 0)
  {
    assert BufferEnd(file, pos) == pos && AtEof(file, pos);
  }

  lemma {:induction false} ReadsLog(crc: Checksum, checking: bool, initial: nat, file: seq<Byte>, pos: nat,
                                    records: seq<seq<Byte>>, resync: bool)
    requires crc.Sound() && Holds(file, pos, Log(crc, pos, records))
    ensures ReadAll(crc, checking, initial, file, pos, resync) == Yield(crc, pos, records, initial, |file|)
    decreases |records|
  {
    hide ReadFrom, ReadAll, Emit, Trailer;
    if records == [] {
      AtTheEnd(crc, checking, initial, file, pos, resync);
    } else {
      var s := Emit(crc, pos, records[0], true);
      var next := pos + |s|;
      WholeOrCut(file, pos, s, Log(crc, next, records[1..]));
      ReadAllStep(crc, checking, initial, file, pos, resync);
      if |file| < next {
        NothingFits(crc, next, records[1..], initial, |file|);
        if Begins(pos) < initial {
          SkipsCut(crc, checking, initial, file, pos, records[0], true, resync);
        } else {
          CutRecord(crc, checking, initial, file, pos, records[0], true, FRESH.(resyncing := resync));
        }
      } else {
        ReadsLog(crc, checking, initial, file, next, records[1..], false);
        if Begins(pos) < initial {
          SkipsRecord(crc, checking, initial, file, pos, records[0], true, resync);
          ReadAllStep(crc, checking, initial, file, next, false);
        } else {
          ReadsRecord(crc, checking, initial, file, pos, records[0], true, FRESH.(resyncing := resync));
          assert FRESH.scratch + records[0] == records[0];
        }
      }
    }
  }

  // ----- Opened at an offset -----

  /** A block boundary is never inside a fragment. */
  lemma BoundaryBetweenFragments(pos: nat, data: seq<Byte>, target: nat)
    requires target % BLOCK_SIZE == 0 && pos <= target < End(pos, data)
    ensures target == pos || target == Begins(pos)
  {
    FragmentStaysInBlock(pos, data);
  }

  /** No fragment starts between the initial offset and a later block where the reader starts. */
  lemma StartsBefore(pos: nat, initial: nat)
    requires Begins(pos) < SkipTarget(initial)
    ensures Begins(pos) < initial
  {
    FragmentStaysInBlock(pos, []);
  }

  function After(crc: Checksum, pos: nat, data: seq<Byte>, begin: bool, more: seq<seq<Byte>>, initial: nat,
                 cut: nat): Contents
  {
    if begin then Yield(crc, pos, [data] + more, initial, cut)
    else
      var c := Yield(crc, pos + |Emit(crc, pos, data, false)|, more, initial, cut);
      c.(reports := c.reports + Late(pos, data, false, initial, cut))
  }

  /** A reader that starts on the block boundary it looks for never complains of what it finds there. */
  function Heard(c: Contents, initial: nat): Contents {
    if SkipTarget(initial) >= initial then c.(reports := 0) else c
  }

  lemma SameFromTrailer(crc: Checksum, checking: bool, initial: nat, file: seq<Byte>, pos: nat, resync: bool)
    requires Begins(pos) <= |file|
    ensures ReadAll(crc, checking, initial, file, Begins(pos), resync) ==
            ReadAll(crc, checking, initial, file, pos, resync)
  {
    hide NextPhysical, ReadFrom, ReadAll, Trailer;
    SkipsTrailer(crc, checking, initial, file, pos);
    ReadAllStep(crc, checking, initial, file, pos, resync);
    ReadAllStep(crc, checking, initial, file, Begins(pos), resync);
    ReadFromStep(crc, checking, initial, file, pos, FRESH.(resyncing := resync));
    ReadFromStep(crc, checking, initial, file, Begins(pos), FRESH.(resyncing := resync));
  }

  /** The reader starts at a fragment of the record in hand. */
  lemma ReadsRemainder(crc: Checksum, checking: bool, initial: nat, file: seq<Byte>, pos: nat, data: seq<Byte>,
                       begin: bool, more: seq<seq<Byte>>, resync: bool)
    requires crc.Sound() &&
             Holds(file, pos, Emit(crc, pos, data, begin) + Log(crc, pos + |Emit(crc, pos, data, begin)|, more))
    ensures var c := After(crc, pos, data, begin, more, initial, |file|);
            ReadAll(crc, checking, initial, file, pos, resync) ==
            if begin || !(resync && Begins(pos) >= initial) then c
            else c.(reports := c.reports - Late(pos, data, begin, initial, |file|))
  {
    hide ReadFrom, ReadAll, Emit, Trailer, Late;
    var s := Emit(crc, pos, data, begin);
    var next := pos + |s|;
    if begin {
      assert ([data] + more)[1..] == more;
      ReadsLog(crc, checking, initial, file, pos, [data] + more, resync);
    } else {
      WholeOrCut(file, pos, s, Log(crc, next, more));
      ReadAllStep(crc, checking, initial, file, pos, resync);
      if |file| < next {
        SkipsCut(crc, checking, initial, file, pos, data, begin, resync);
        NothingFits(crc, next, more, initial, |file|);
      } else {
        SkipsRecord(crc, checking, initial, file, pos, data, begin, resync);
        ReadsLog(crc, checking, initial, file, next, more, false);
        ReadAllStep(crc, checking, initial, file, next, false);
      }
    }
  }

  /** The same where the reader starts within the trailer before that fragment, with what is heard of it. */
  lemma Lands(crc: Checksum, checking: bool, initial: nat, file: seq<Byte>, pos: nat, data: seq<Byte>,
              begin: bool, more: seq<seq<Byte>>)
    requires crc.Sound() &&
             Holds(file, pos, Emit(crc, pos, data, begin) + Log(crc, pos + |Emit(crc, pos, data, begin)|, more))
    requires pos <= SkipTarget(initial) < End(pos, data) && SkipTarget(initial) <= |file| && (begin || pos > 0)
    ensures ReadAll(crc, checking, initial, file, SkipTarget(initial), initial > 0) ==
            Heard(After(crc, pos, data, begin, more, initial, |file|), initial)
  {
    hide ReadFrom, ReadAll, Emit, Trailer, Late, Yield, FragmentLength;
    var target := SkipTarget(initial);
    BoundaryBetweenFragments(pos, data, target);
    if target != pos {
      SameFromTrailer(crc, checking, initial, file, pos, initial > 0);
    }
    ReadsRemainder(crc, checking, initial, file, pos, data, begin, more, initial > 0);
    if target >= initial {
      if begin {
        NothingReported(crc, pos, [data] + more, initial, |file|);
      } else {
        EmitLonger(crc, pos, data, false);
        NothingReported(crc, pos + |Emit(crc, pos, data, false)|, more, initial, |file|);
      }
    }
  }

  /** A fragment that lies wholly before the block looked for does not matter. */
  lemma Passes(crc: Checksum, pos: nat, data: seq<Byte>, begin: bool, more: seq<seq<Byte>>, initial: nat, cut: nat)
    requires End(pos, data) <= SkipTarget(initial)
    ensures var n, next := FragmentLength(pos, data), End(pos, data);
            After(crc, pos, data, begin, more, initial, cut) ==
            if n < |data| then After(crc, next, data[n..], false, more, initial, cut)
            else Yield(crc, next, more, initial, cut)
  {
    hide Emit, Fragment, Trailer, FragmentLength;
    EmitUnfolds(crc, pos, data, begin);
    StartsBefore(pos, initial);
    assert ([data] + more)[1..] == more;
  }

  lemma HoldsRest(crc: Checksum, file: seq<Byte>, pos: nat, data: seq<Byte>, begin: bool, more: seq<seq<Byte>>)
    requires Holds(file, pos, Emit(crc, pos, data, begin) + Log(crc, pos + |Emit(crc, pos, data, begin)|, more))
    requires End(pos, data) <= |file|
    ensures var n, next := FragmentLength(pos, data), End(pos, data);
            if n == |data| then Holds(file, next, Log(crc, next, more))
            else
              var rest := Emit(crc, next, data[n..], false);
              Holds(file, next, rest + Log(crc, next + |rest|, more)) &&
              (n == 0 ==> FragmentLength(next, data[n..]) > 0)
  {
    hide Emit, Trailer, Log, FragmentLength, Fragment, Holds;
    var n, s, next := FragmentLength(pos, data), Fragment(crc, pos, data, begin), End(pos, data);
    EmitUnfolds(crc, pos, data, begin);
    if n == |data| {
      WholeOrCut(file, pos, s, Log(crc, next, more));
    } else {
      var rest := Emit(crc, next, data[n..], false);
      var log := Log(crc, next + |rest|, more);
      assert |s + rest| == |s| + |rest|;
      assert n == 0 ==> data[n..] == data;
      assert s + rest + log == s + (rest + log);
      WholeOrCut(file, pos, s, rest + log);
    }
  }

  lemma {:induction false} FromBlock(crc: Checksum, checking: bool, initial: nat, file: seq<Byte>, pos: nat,
                                     data: seq<Byte>,
                                     begin: bool, more: seq<seq<Byte>>)
    requires crc.Sound() &&
             Holds(file, pos, Emit(crc, pos, data, begin) + Log(crc, pos + |Emit(crc, pos, data, begin)|, more))
    requires pos <= SkipTarget(initial) <= |file| && (begin || pos > 0)
    ensures ReadAll(crc, checking, initial, file, SkipTarget(initial), initial > 0) ==
            Heard(After(crc, pos, data, begin, more, initial, |file|), initial)
    decreases |more|, 1, |data|, if FragmentLength(pos, data) == 0 then 1 else 0
  {
    hide ReadFrom, ReadAll, Emit, Trailer, Late, Yield, FragmentLength, Fragment, After, Holds;
    var n, next := FragmentLength(pos, data), End(pos, data);
    if SkipTarget(initial) < next {
      Lands(crc, checking, initial, file, pos, data, begin, more);
    } else {
      Passes(crc, pos, data, begin, more, initial, |file|);
      HoldsRest(crc, file, pos, data, begin, more);
      if n < |data| {
        FromBlock(crc, checking, initial, file, next, data[n..], false, more);
      } else {
        FromBlockBetweenRecords(crc, checking, initial, file, next, more);
      }
    }
  }

  lemma {:induction false} FromBlockBetweenRecords(crc: Checksum, checking: bool, initial: nat, file: seq<Byte>,
                                                   pos: nat, records: seq<seq<Byte>>)
    requires crc.Sound() && Holds(file, pos, Log(crc, pos, records))
    requires pos <= SkipTarget(initial) <= |file|
    ensures ReadAll(crc, checking, initial, file, SkipTarget(initial), initial > 0) ==
            Heard(Yield(crc, pos, records, initial, |file|), initial)
    decreases |records|, 0
  {
    hide ReadFrom, ReadAll, Emit, Trailer, Late, FragmentLength;
    if records == [] {
      AtTheEnd(crc, checking, initial, file, SkipTarget(initial), initial > 0);
    } else {
      LogUnfolds(crc, pos, records);
      assert records == [records[0]] + records[1..];
      FromBlock(crc, checking, initial, file, pos, records[0], true, records[1..]);
    }
  }

  /** Past the end of the file there is nothing to find. */
  lemma {:induction false} NothingBeyond(crc: Checksum, pos: nat, records: seq<seq<Byte>>, initial: nat, cut: nat)
    requires cut < SkipTarget(initial)
    ensures Heard(Yield(crc, pos, records, initial, cut), initial) == Contents([], 0)
    decreases |records|
  {
    if records != [] {
      hide Emit, Trailer, Late;
      EmitLonger(crc, pos, records[0], true);
      NothingBeyond(crc, pos + |Emit(crc, pos, records[0], true)|, records[1..], initial, cut);
      if Begins(pos) < SkipTarget(initial) {
        StartsBefore(pos, initial);
      }
      NoneLateBeyond(pos, records[0], true, initial, cut);
    }
  }

  lemma {:induction false} NoneLateBeyond(pos: nat, data: seq<Byte>, begin: bool, initial: nat, cut: nat)
    requires cut < SkipTarget(initial)
    ensures Late(pos, data, begin, initial, cut) == 0
    decreases |data|, if FragmentLength(pos, data) == 0 then 1 else 0
  {
    var n := FragmentLength(pos, data);
    if Begins(pos) < SkipTarget(initial) {
      StartsBefore(pos, initial);
    }
    if n < |data| {
      NoneLateBeyond(End(pos, data), data[n..], false, initial, cut);
    }
  }

  /** A reader opened at any offset of a log cut off at any byte returns the records that start at or after the offset
      and are all there, and nothing else. It reports a corruption for each later fragment of a record that starts
      before the offset, unless the offset is where a block starts (or in the last bytes of the one before). */
  lemma OpenedAnywhere(crc: Checksum, checking: bool, initial: nat, records: seq<seq<Byte>>, file: seq<Byte>)
    requires crc.Sound() && file <= Log(crc, 0, records)
    ensures ReadFile(crc, checking, initial, file) == Heard(Yield(crc, 0, records, initial, |file|), initial)
  {
    hide ReadAll, Yield, Log;
    if SkipTarget(initial) <= |file| {
      assert file[0..] == file;
      FromBlockBetweenRecords(crc, checking, initial, file, 0, records);
    } else {
      AtTheEnd(crc, checking, initial, file, SkipTarget(initial), initial > 0);
      NothingBeyond(crc, 0, records, initial, |file|);
    }
  }

  // ----- What follows from it -----

  /** How many of the records end within the first `cut` bytes. */
  function Fitting(crc: Checksum, pos: nat, records: seq<seq<Byte>>, cut: nat): (n: nat)
    ensures n <= |records|
    decreases |records|
  {
    if records == [] then 0
    else
      var next := pos + |Emit(crc, pos, records[0], true)|;
      if next <= cut then 1 + Fitting(crc, next, records[1..], cut) else 0
  }

  /** The log of the records that fit is in the file, and that of one more is not. */
  lemma {:induction false} FittingIsLongest(crc: Checksum, pos: nat, records: seq<seq<Byte>>, cut: nat)
    requires pos <= cut
    ensures var n := Fitting(crc, pos, records, cut);
            && pos + |Log(crc, pos, records[..n])| <= cut
            && (n < |records| ==> cut < pos + |Log(crc, pos, records[..n + 1])|)
    decreases |records|
  {
    hide Emit;
    var n := Fitting(crc, pos, records, cut);
    if records != [] {
      var next := pos + |Emit(crc, pos, records[0], true)|;
      if next <= cut {
        FittingIsLongest(crc, next, records[1..], cut);
        assert records[..n][1..] == records[1..][..n - 1];
        if n < |records| {
          assert records[..n + 1][1..] == records[1..][..n];
        }
      } else {
        assert Log(crc, pos, records[..1]) == Emit(crc, pos, records[0], true) + Log(crc, next, records[..1][1..]);
      }
    }
  }

  lemma {:induction false} YieldFromStart(crc: Checksum, pos: nat, records: seq<seq<Byte>>, cut: nat)
    ensures Yield(crc, pos, records, 0, cut) == Contents(records[..Fitting(crc, pos, records, cut)], 0)
    decreases |records|
  {
    hide Emit;
    if records != [] {
      var next := pos + |Emit(crc, pos, records[0], true)|;
      YieldFromStart(crc, next, records[1..], cut);
      if next <= cut {
        assert records[..Fitting(crc, pos, records, cut)] ==
               [records[0]] + records[1..][..Fitting(crc, next, records[1..], cut)];
      } else {
        NothingFits(crc, next, records[1..], 0, cut);
      }
    }
  }

  /** A log cut off at any byte gives back the records that are all there, and no corruption. */
  lemma CutLog(crc: Checksum, checking: bool, records: seq<seq<Byte>>, cut: nat)
    requires crc.Sound() && cut <= |Log(crc, 0, records)|
    ensures ReadFile(crc, checking, 0, Log(crc, 0, records)[..cut]) ==
            Contents(records[..Fitting(crc, 0, records, cut)], 0)
  {
    OpenedAnywhere(crc, checking, 0, records, Log(crc, 0, records)[..cut]);
    YieldFromStart(crc, 0, records, cut);
  }

  lemma {:induction false} AllFit(crc: Checksum, pos: nat, records: seq<seq<Byte>>, cut: nat)
    requires pos + |Log(crc, pos, records)| <= cut
    ensures Fitting(crc, pos, records, cut) == |records|
    decreases |records|
  {
    hide Emit;
    if records != [] {
      AllFit(crc, pos + |Emit(crc, pos, records[0], true)|, records[1..], cut);
    }
  }

  /** Any records come back as they were written. */
  lemma LogRoundTrip(crc: Checksum, checking: bool, records: seq<seq<Byte>>)
    requires crc.Sound()
    ensures ReadFile(crc, checking, 0, Log(crc, 0, records)) == Contents(records, 0)
  {
    var log := Log(crc, 0, records);
    CutLog(crc, checking, records, |log|);
    AllFit(crc, 0, records, |log|);
    assert log[..|log|] == log;
    assert records[..|records|] == records;
  }

  lemma LogUnfolds(crc: Checksum, pos: nat, records: seq<seq<Byte>>)
    requires records != []
    ensures var s := Emit(crc, pos, records[0], true); Log(crc, pos, records) == s + Log(crc, pos + |s|, records[1..])
  {
  }

  /** It makes no difference whether one writer wrote them, or another one went on where the first had stopped. */
  lemma {:induction false} ReopenedWriter(crc: Checksum, pos: nat, first: seq<seq<Byte>>, second: seq<seq<Byte>>)
    ensures Log(crc, pos, first + second) == Log(crc, pos, first) + Log(crc, pos + |Log(crc, pos, first)|, second)
    decreases |first|
  {
    hide Emit, Log;
    if first == [] {
      assert first + second == second;
      NoLog(crc, pos);
    } else {
      var s := Emit(crc, pos, first[0], true);
      var p := pos + |s|;
      ReopenedWriter(crc, p, first[1..], second);
      LogUnfolds(crc, pos, first);
      LogUnfolds(crc, pos, first + second);
      assert (first + second)[1..] == first[1..] + second;
      Regroup(s, Log(crc, p, first[1..]), Log(crc, p + |Log(crc, p, first[1..])|, second));
    }
  }

  lemma NoLog(crc: Checksum, pos: nat)
    ensures Log(crc, pos, []) == []
  {
  }

  lemma Regroup(a: seq<Byte>, b: seq<Byte>, c: seq<Byte>)
    ensures a + (b + c) == a + b + c && |a + b| == |a| + |b|
  {
  }

  /** Some record that starts before the offset has a later fragment at or after it. */
  ghost predicate Straddled(crc: Checksum, pos: nat, records: seq<seq<Byte>>, initial: nat, cut: nat)
    decreases |records|
  {
    records != [] && Begins(pos) < initial &&
    (|| Late(pos, records[0], true, initial, cut) > 0
     || Straddled(crc, pos + |Emit(crc, pos, records[0], true)|, records[1..], initial, cut))
  }

  lemma {:induction false} ReportsIfStraddled(crc: Checksum, pos: nat, records: seq<seq<Byte>>, initial: nat, cut: nat)
    ensures Yield(crc, pos, records, initial, cut).reports > 0 <==> Straddled(crc, pos, records, initial, cut)
    decreases |records|
  {
    hide Emit, Late, Trailer;
    if records != [] {
      var next := pos + |Emit(crc, pos, records[0], true)|;
      ReportsIfStraddled(crc, next, records[1..], initial, cut);
      if Begins(pos) >= initial {
        EmitLonger(crc, pos, records[0], true);
        NothingReported(crc, next, records[1..], initial, cut);
      }
    }
  }

  /** The reader calls an intact log corrupt exactly when it is opened inside a block and inside a record that has more
      fragments from there on. */
  lemma FalseAlarms(crc: Checksum, checking: bool, initial: nat, records: seq<seq<Byte>>)
    requires crc.Sound()
    ensures var log := Log(crc, 0, records);
            ReadFile(crc, checking, initial, log).reports > 0 <==>
            SkipTarget(initial) < initial && Straddled(crc, 0, records, initial, |log|)
  {
    hide Log, Yield, ReadFile, Straddled;
    OpenedAnywhere(crc, checking, initial, records, Log(crc, 0, records));
    ReportsIfStraddled(crc, 0, records, initial, |Log(crc, 0, records)|);
  }

  // ----- Writer and reader together -----

  /** Records added by a writer, the file perhaps cut short, and read by a reader opened at any offset: what comes out
      is what OpenedAnywhere says. */
  method WriteThenRead(crc: Checksum, checksum: bool, records: seq<seq<Byte>>, cut: nat, initial: nat)
    returns (read: seq<seq<Byte>>, reports: nat)
    requires crc.Sound()
    ensures var size := |Log(crc, 0, records)|;
            Contents(read, reports) == Heard(Yield(crc, 0, records, initial, if cut < size then cut else size), initial)
  {
    hide Log, Emit, Yield, ReadFile, Heard;
    var dest := new LogIO.WritableFile([], _ => None);
    var writer := new LogIO.Writer(crc, dest, 0);
    NoLog(crc, 0);
    for i := 0 to |records|
      invariant writer.Valid() && writer.InStep() && writer.crc == crc && writer.dest == dest && dest.Reliable()
      invariant dest.contents == Log(crc, 0, records[..i])
      invariant fresh(writer) && fresh(dest)
    {
      OneMoreRecord(crc, records, i);
      var ok, _, _ := writer.AddRecord(records[i]);
    }
    assert records[..|records|] == records;
    var contents := if cut < |dest.contents| then dest.contents[..cut] else dest.contents;
    OpenedAnywhere(crc, checksum, initial, records, contents);
    var file := new LogIO.SequentialFile(contents, _ => None);
    var reader := new LogIO.Reader(crc, file, checksum, initial);
    var all, _ := LogIO.ReadToEnd(reader);
    read := all;
    reports := reader.reports;
  }

  lemma OneMoreRecord(crc: Checksum, records: seq<seq<Byte>>, i: nat)
    requires i < |records|
    ensures var log := Log(crc, 0, records[..i]);
            Log(crc, 0, records[..i + 1]) == log + Emit(crc, |log|, records[i], true)
  {
    hide Emit;
    var log := Log(crc, 0, records[..i]);
    assert records[..i + 1] == records[..i] + [records[i]];
    var one := [records[i]];
    ReopenedWriter(crc, 0, records[..i], one);
    LogUnfolds(crc, |log|, one);
    NoLog(crc, |log| + |Emit(crc, |log|, records[i], true)|);
    assert one[1..] == [];
  }

  // ----- A log that something else follows -----

  /** Whatever follows whole records, they are read first. */
  lemma {:induction false} WholeRecordsFirst(crc: Checksum, checking: bool, file: seq<Byte>, pos: nat,
                                             records: seq<seq<Byte>>)
    requires crc.Sound() && pos <= |file| && Log(crc, pos, records) <= file[pos..]
    ensures var rest := ReadAll(crc, checking, 0, file, pos + |Log(crc, pos, records)|, false);
            ReadAll(crc, checking, 0, file, pos, false) == Contents(records + rest.records, rest.reports)
    decreases |records|
  {
    hide ReadFrom, ReadAll, Emit, Trailer, Log;
    if records == [] {
      NoLog(crc, pos);
      var rest := ReadAll(crc, checking, 0, file, pos, false);
      assert [] + rest.records == rest.records;
    } else {
      var s, data := Emit(crc, pos, records[0], true), records[0];
      var next := pos + |s|;
      LogUnfolds(crc, pos, records);
      PrefixSplit(file, pos, s, Log(crc, next, records[1..]));
      ReadsRecord(crc, checking, 0, file, pos, data, true, FRESH);
      assert FRESH.scratch + data == data;
      ReadAllStep(crc, checking, 0, file, pos, false);
      WholeRecordsFirst(crc, checking, file, next, records[1..]);
      var rest := ReadAll(crc, checking, 0, file, pos + |Log(crc, pos, records)|, false);
      assert [data] + (records[1..] + rest.records) == records + rest.records;
    }
  }

  /** A file whose last whole header promises more than there is ends there for the reader, without a report. */
  lemma PromisesTooMuch(crc: Checksum, checking: bool, file: seq<Byte>, pos: nat)
    requires pos <= |file| < (pos / BLOCK_SIZE + 1) * BLOCK_SIZE
    requires |file| - pos >= HEADER_SIZE ==> HEADER_SIZE + FromLE(file[pos + 4..pos + 6]) > |file| - pos
    ensures ReadAll(crc, checking, 0, file, pos, false) == Contents([], 0)
  {
    assert BufferEnd(file, pos) == |file| && AtEof(file, pos);
    assert NextPhysical(crc, checking, 0, file, pos) == Physical(EOF_TYPE, [], |file|, 0);
    hide NextPhysical, ReadFrom;
    ReadFromStep(crc, checking, 0, file, pos, FRESH);
    ReadAllStep(crc, checking, 0, file, pos, false);
  }

  /** The reader meets nothing more in what follows whole records. */
  lemma NothingMore(crc: Checksum, checking: bool, records: seq<seq<Byte>>, more: seq<Byte>)
    requires crc.Sound()
    requires var log := Log(crc, 0, records); ReadAll(crc, checking, 0, log + more, |log|, false) == Contents([], 0)
    ensures ReadFile(crc, checking, 0, Log(crc, 0, records) + more) == Contents(records, 0)
  {
    hide ReadAll, Log;
    var log := Log(crc, 0, records);
    var file := log + more;
    assert SkipTarget(0) == 0 && file[0..] == file;
    WholeRecordsFirst(crc, checking, file, 0, records);
    assert records + [] == records;
  }

  /** A record was torn after its header (a write failed, or a reused log was cut off there), and writing went on behind
      it. As long as fewer bytes follow than the record lacks, whatever they are, they are lost without a report. */
  lemma TornRecordHides(crc: Checksum, checking: bool, records: seq<seq<Byte>>, data: seq<Byte>, n: nat,
                        tail: seq<Byte>)
    requires crc.Sound()
    requires var s := Fragment(crc, |Log(crc, 0, records)|, data, true);
             |Trailer(|Log(crc, 0, records)|)| + HEADER_SIZE <= n <= n + |tail| < |s|
    ensures var log := Log(crc, 0, records);
            ReadFile(crc, checking, 0, log + (Fragment(crc, |log|, data, true)[..n] + tail)) == Contents(records, 0)
  {
    hide Log, ReadAll, Trailer, Fragment, FragmentLength;
    var log := Log(crc, 0, records);
    var pos := |log|;
    var s := Fragment(crc, pos, data, true);
    var more := s[..n] + tail;
    var file := log + more;
    FragmentStaysInBlock(pos, data);
    TornHeader(crc, pos, data, n, log, tail);
    SameFromTrailer(crc, checking, 0, file, pos, false);
    StaysInBlock(pos, Begins(pos), FragmentLength(pos, data), |file|);
    PromisesTooMuch(crc, checking, file, Begins(pos));
    NothingMore(crc, checking, records, more);
  }

  lemma StaysInBlock(pos: nat, start: nat, n: nat, size: nat)
    requires start % BLOCK_SIZE + HEADER_SIZE + n <= BLOCK_SIZE && start <= size < start + HEADER_SIZE + n
    ensures size < (start / BLOCK_SIZE + 1) * BLOCK_SIZE
  {
  }

  /** The header is there and tells the length of the fragment. */
  lemma TornHeader(crc: Checksum, pos: nat, data: seq<Byte>, n: nat, log: seq<Byte>, tail: seq<Byte>)
    requires pos == |log| && Begins(pos) - pos + HEADER_SIZE <= n <= |Fragment(crc, pos, data, true)|
    ensures var file, p := log + (Fragment(crc, pos, data, true)[..n] + tail), Begins(pos);
            && |file| == pos + n + |tail| && p + HEADER_SIZE <= |file|
            && FromLE(file[p + 4..p + 6]) == FragmentLength(pos, data)
            && |Fragment(crc, pos, data, true)| == p - pos + HEADER_SIZE + FragmentLength(pos, data)
  {
    var m := FragmentLength(pos, data);
    FragmentStaysInBlock(pos, data);
    var kind, z, s := FragmentKind(true, m == |data|), Trailer(pos), Fragment(crc, pos, data, true);
    HeaderFields(crc, kind, data[..m]);
    hide Trailer, FragmentLength;
    var h := Header(crc, kind, data[..m]);
    hide Header;
    var file := log + (s[..n] + tail);
    assert s == z + (h + data[..m]);
    Inside(log, z, h, data[..m], n, tail);
  }

  /** Where the header h stands. */
  lemma Inside(log: seq<Byte>, z: seq<Byte>, h: seq<Byte>, d: seq<Byte>, n: nat, tail: seq<Byte>)
    requires |h| == HEADER_SIZE && |z| + |h| <= n <= |z + (h + d)|
    ensures var file, p := log + ((z + (h + d))[..n] + tail), |log| + |z|;
            p + HEADER_SIZE <= |file| && file[p + 4..p + 6] == h[4..6]
  {
    var file, p := log + ((z + (h + d))[..n] + tail), |log| + |z|;
    forall i | 0 <= i < HEADER_SIZE ensures file[p + i] == h[i] {
      assert file[p + i] == (z + (h + d))[|z| + i];
    }
    assert file[p + 4..p + 6] == [file[p + 4], file[p + 5]] && h[4..6] == [h[4], h[5]];
  }

  /** Bytes of a trailer are missing, although writing it was said to be done, and a record follows that all is there.
      The reader goes on where the next block begins, in the middle of that record's header. If what it takes for a
      length there is too much, the record is lost without a report. */
  lemma MissingTrailerHides(crc: Checksum, checking: bool, records: seq<seq<Byte>>, data: seq<Byte>, k: nat)
    requires crc.Sound() && |data| <= BLOCK_SIZE - HEADER_SIZE && k < |Trailer(|Log(crc, 0, records)|)|
    requires var pos := |Log(crc, 0, records)|;
             var seen := Body(crc, pos, data)[|Trailer(pos)| - k..];
             |seen| >= HEADER_SIZE ==> HEADER_SIZE + FromLE(seen[4..6]) > |seen|
    ensures var log := Log(crc, 0, records);
            ReadFile(crc, checking, 0, log + (Trailer(|log|)[..k] + Body(crc, |log|, data))) == Contents(records, 0)
  {
    hide Log, ReadAll, Trailer, Body;
    var log := Log(crc, 0, records);
    var pos := |log|;
    var z, b := Trailer(pos), Body(crc, pos, data);
    BodyInBlock(crc, pos, data);
    var more := z[..k] + b;
    var file := log + more;
    FragmentStaysInBlock(pos, data);
    SameFromTrailer(crc, checking, 0, file, pos, false);
    Misplaced(log, z[..k], b, |z| - k);
    NextBlockHolds(pos, |file|, |b| - (|z| - k));
    PromisesTooMuch(crc, checking, file, Begins(pos));
    NothingMore(crc, checking, records, more);
  }

  lemma NextBlockHolds(pos: nat, size: nat, n: nat)
    requires Trailer(pos) != [] && size == Begins(pos) + n && n < BLOCK_SIZE
    ensures size < (Begins(pos) / BLOCK_SIZE + 1) * BLOCK_SIZE
  {
  }

  /** After a trailer there is room for a whole record that fits a block. */
  lemma BodyInBlock(crc: Checksum, pos: nat, data: seq<Byte>)
    requires Trailer(pos) != [] && |data| <= BLOCK_SIZE - HEADER_SIZE
    ensures Body(crc, pos, data) == Header(crc, FULL_TYPE, data) + data
  {
    assert FragmentLength(pos, data) == |data| && data[..|data|] == data;
    EmitUnfolds(crc, pos, data, true);
    hide Header, Trailer;
    assert (Trailer(pos) + (Header(crc, FULL_TYPE, data) + data))[|Trailer(pos)|..] ==
           Header(crc, FULL_TYPE, data) + data;
    assert Trailer(pos) + Header(crc, FULL_TYPE, data) + data == Trailer(pos) + (Header(crc, FULL_TYPE, data) + data);
  }

  /** What stands m bytes into b. */
  lemma Misplaced(log: seq<Byte>, z: seq<Byte>, b: seq<Byte>, m: nat)
    requires m <= |b|
    ensures var file, p := log + (z + b), |log| + |z| + m;
            && |file| == p + |b| - m
            && (|b| - m >= HEADER_SIZE ==> file[p + 4..p + 6] == b[m..][4..6])
  {
    var file, p := log + (z + b), |log| + |z| + m;
    if |b| - m >= HEADER_SIZE {
      assert file[p + 4] == b[m + 4] && file[p + 5] == b[m + 5];
      assert file[p + 4..p + 6] == [file[p + 4], file[p + 5]] && b[m..][4..6] == [b[m + 4], b[m + 5]];
    }
  }

  /** That is so for every record shorter than 256 bytes if the last byte of the trailer is missing: the type of the
      record is taken for the high byte of its length. */
  lemma LastByteOfTrailer(crc: Checksum, pos: nat, data: seq<Byte>, k: nat)
    requires |data| < 0x100 && k + 1 == |Trailer(pos)|
    ensures var seen := Body(crc, pos, data)[1..];
            |seen| >= HEADER_SIZE ==> HEADER_SIZE + FromLE(seen[4..6]) > |seen|
  {
    BodyInBlock(crc, pos, data);
    hide Body, Trailer;
    var h := Header(crc, FULL_TYPE, data);
    var b := h + data;
    assert LE(2, |data|) == [|data|, 0] by { assert LE(1, 0) == [0] + LE(0, 0); }
    assert h[5] == 0 && h[6] == FULL_TYPE;
    assert b[1..][4] == 0 && b[1..][5] == FULL_TYPE;
    var seen := b[1..];
    if |seen| >= HEADER_SIZE {
      assert seen[4..6] == [0, FULL_TYPE];
      assert FromLE([0, FULL_TYPE]) == 0x100 by { assert [0, FULL_TYPE][1..] == [FULL_TYPE] && [FULL_TYPE][1..] == []; }
    }
  }

  // ----- A record that was given up -----

  /** u is some of the fragments written for a record at pos, from the first one on, but not the last. */
  predicate GivenUp(crc: Checksum, pos: nat, data: seq<Byte>, begin: bool, u: seq<Byte>)
    decreases |u|
  {
    var n, s := FragmentLength(pos, data), Fragment(crc, pos, data, begin);
    n < |data| && s <= u && (s == u || GivenUp(crc, pos + |s|, data[n..], false, u[|s|..]))
  }

  /** The reader has put those fragments together. */
  ghost predicate PutTogether(crc: Checksum, checking: bool, file: seq<Byte>, pos: nat, u: seq<Byte>, a: Assembly,
                              b: Assembly)
  {
    && Ready(b, false) && |b.scratch| <= |a.scratch| + |u|
    && (|b.scratch| > 0 <==> |a.scratch| > 0 || |u| > |Trailer(pos)| + HEADER_SIZE)
    && Adds(ReadFrom(crc, checking, 0, file, pos, a), ReadFrom(crc, checking, 0, file, pos + |u|, b), 0)
  }

  lemma {:induction false} ReadsGivenUp(crc: Checksum, checking: bool, file: seq<Byte>, pos: nat, data: seq<Byte>,
                                        begin: bool, u: seq<Byte>, a: Assembly) returns (b: Assembly)
    requires crc.Sound() && Ready(a, begin) && GivenUp(crc, pos, data, begin, u)
    requires pos <= |file| && u <= file[pos..]
    ensures PutTogether(crc, checking, file, pos, u, a, b)
    decreases |u|
  {
    hide ReadFrom, NextPhysical, Emit, Fragment, Trailer, FragmentLength, Assemble, Took;
    var n, s := FragmentLength(pos, data), Fragment(crc, pos, data, begin);
    var next := pos + |s|;
    Takes(a, data[..n], next, begin, false, 0);
    assert u == s + u[|s|..];
    PrefixSplit(file, pos, s, u[|s|..]);
    ReadFromStep(crc, checking, 0, file, pos, a);
    ParsesFragment(crc, checking, 0, file, pos, data, begin);
    EmitUnfolds(crc, pos, data, begin);
    b := Took(a, data[..n], Begins(pos), begin);
    if s != u {
      assert n == 0 ==> data[n..] == data;
      assert FragmentLength(next, data[n..]) < |data[n..]| && Fragment(crc, next, data[n..], false) <= u[|s|..];
      var c := ReadsGivenUp(crc, checking, file, next, data[n..], false, u[|s|..], b);
      b := c;
    }
  }

  /** With the first fragment of a record the reader begins anew, whatever it had of another one; that is reported if
      there was anything of it. */
  lemma StartsAnew(crc: Checksum, checking: bool, file: seq<Byte>, pos: nat, data: seq<Byte>, b: Assembly)
    requires crc.Sound() && b.inFragmented && |b.scratch| <= pos
    requires pos <= |file| && Emit(crc, pos, data, true) <= file[pos..]
    ensures Adds(ReadFrom(crc, checking, 0, file, pos, b), ReadFrom(crc, checking, 0, file, pos, FRESH),
                 Count(b.scratch != []))
  {
    hide ReadFrom, NextPhysical, Emit, Fragment, Trailer, FragmentLength;
    EmitUnfolds(crc, pos, data, true);
    var s := Fragment(crc, pos, data, true);
    assert s <= file[pos..];
    ParsesFragment(crc, checking, 0, file, pos, data, true);
    ReadFromStep(crc, checking, 0, file, pos, b);
    ReadFromStep(crc, checking, 0, file, pos, FRESH);
  }

  /** A record was given up after some of its fragments (writing the next one failed), and more records follow: just
      the whole records are read. What is there of the other one is dropped and, if it is more than a header and a
      whole record comes after it, reported once. */
  lemma GivenUpIsDropped(crc: Checksum, checking: bool, records: seq<seq<Byte>>, data: seq<Byte>, u: seq<Byte>,
                         more: seq<seq<Byte>>)
    requires crc.Sound() && GivenUp(crc, |Log(crc, 0, records)|, data, true, u)
    ensures var log := Log(crc, 0, records);
            ReadFile(crc, checking, 0, log + u + Log(crc, |log + u|, more)) ==
            Contents(records + more, Count(more != [] && |u| > |Trailer(|log|)| + HEADER_SIZE))
  {
    hide ReadFrom, ReadAll, Emit, Fragment, Trailer, Log;
    var log := Log(crc, 0, records);
    var pos, next := |log|, |log + u|;
    var file := log + u + Log(crc, next, more);
    assert SkipTarget(0) == 0 && file[0..] == file;
    assert log <= file && file[pos..] == u + Log(crc, next, more) && file[next..] == Log(crc, next, more);
    WholeRecordsFirst(crc, checking, file, 0, records);
    var b := ReadsGivenUp(crc, checking, file, pos, data, true, u, FRESH);
    ReadAllStep(crc, checking, 0, file, pos, false);
    ReadAllStep(crc, checking, 0, file, next, false);
    if more == [] {
      NoLog(crc, next);
      NothingLeft(crc, checking, file, next, b);
      assert records + [] == records;
    } else {
      LogUnfolds(crc, next, more);
      var s := Emit(crc, next, more[0], true);
      PrefixSplit(file, next, s, Log(crc, next + |s|, more[1..]));
      StartsAnew(crc, checking, file, next, more[0], b);
      WholeRecordsFirst(crc, checking, file, next, more);
      ReadAllStep(crc, checking, 0, file, |file|, false);
      NothingLeft(crc, checking, file, |file|, FRESH);
      assert more + [] == more;
    }
  }

  lemma NothingLeft(crc: Checksum, checking: bool, file: seq<Byte>, pos: nat, b: Assembly)
    requires pos == |file|
    ensures ReadFrom(crc, checking, 0, file, pos, b) == Outcome(None, 0, pos, 0)
  {
    ReadFromStep(crc, checking, 0, file, pos, b);
  }

  /** A writer leaves just that when a flush fails after the last of those fragments, and it then stands behind it. */
  lemma GivenUpIsLeft(crc: Checksum, pos: nat, data: seq<Byte>, u: seq<Byte>)
    requires GivenUp(crc, pos, data, true, u)
    ensures Leaves(crc, pos, data, false, u, pos + |u|)
  {
    hide Emit, Fragment, Trailer, Tried, GivenUp;
    GivenUpIsTried(crc, pos, data, true, u);
    EmitUnfolds(crc, pos, data, true);
    FragmentBegins(crc, pos, data, true);
    var z, s := Trailer(pos), Emit(crc, pos, data, true);
    assert z[..|z|] == z && u[..|z|] == s[..|z|] == z;
    assert u[|z|..] <= s[|z|..];
    assert |z| + |u| - |z| == |u|;
    assert LeavesAfter(crc, pos, data, |z|, false, u, pos + |u|);
  }

  lemma FragmentBegins(crc: Checksum, pos: nat, data: seq<Byte>, begin: bool)
    ensures var z, s := Trailer(pos), Emit(crc, pos, data, begin); |z| <= |s| && s[..|z|] == z
  {
    EmitUnfolds(crc, pos, data, begin);
  }

  lemma {:induction false} GivenUpIsTried(crc: Checksum, pos: nat, data: seq<Byte>, begin: bool, u: seq<Byte>)
    requires GivenUp(crc, pos, data, begin, u)
    ensures u <= Emit(crc, pos, data, begin) && |Fragment(crc, pos, data, begin)| <= |u|
    ensures Tried(pos, data, |u|, |u|)
    decreases |u|
  {
    hide Emit, Fragment, Trailer;
    EmitUnfolds(crc, pos, data, begin);
    var n, s := FragmentLength(pos, data), Fragment(crc, pos, data, begin);
    if s != u {
      GivenUpIsTried(crc, pos + |s|, data[n..], false, u[|s|..]);
      assert u == s + u[|s|..];
    }
  }
}

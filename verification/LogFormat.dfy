/** The write-ahead log: what the writer leaves in the file and what the reader makes of any bytes, as functions. */
module LogFormat {
  import opened Bytes

  const BLOCK_SIZE := 32768
  const HEADER_SIZE := 7

  const ZERO_TYPE := 0
  const FULL_TYPE := 1
  const FIRST_TYPE := 2
  const MIDDLE_TYPE := 3
  const LAST_TYPE := 4
  const EOF_TYPE := 5
  const BAD_RECORD := 6

  type Word = n: nat | n < POW32

  /** The checksum is left open; all that matters is that unmasking undoes masking. */
  datatype Checksum = Checksum(value: seq<Byte> -> Word, mask: Word -> Word, unmask: Word -> Word)
  {
    ghost predicate Sound() {
      forall x: Word :: unmask(mask(x)) == x
    }
  }

  // ----- Writing -----

  function Header(crc: Checksum, kind: Byte, data: seq<Byte>): (h: seq<Byte>)
    requires |data| < 0x10000
    ensures |h| == HEADER_SIZE
  {
    LE(4, crc.mask(crc.value([kind] + data))) + LE(2, |data|) + [kind]
  }

  /** The zeros that fill a block too full for another header. */
  function Trailer(pos: nat): (z: seq<Byte>)
    ensures |z| < HEADER_SIZE && (pos + |z|) % BLOCK_SIZE <= BLOCK_SIZE - HEADER_SIZE
    ensures z != [] ==> (pos + |z|) % BLOCK_SIZE == 0
  {
    var leftover := BLOCK_SIZE - pos % BLOCK_SIZE;
    if leftover < HEADER_SIZE then seq(leftover, _ => 0) else []
  }

  /** How much of the data goes into the first fragment written at pos. */
  function FragmentLength(pos: nat, data: seq<Byte>): (n: nat)
    ensures n <= |data|
  {
    var avail := BLOCK_SIZE - (pos + |Trailer(pos)|) % BLOCK_SIZE - HEADER_SIZE;
    if |data| < avail then |data| else avail
  }

  function FragmentKind(begin: bool, end: bool): Byte {
    if begin && end then FULL_TYPE else if begin then FIRST_TYPE else if end then LAST_TYPE else MIDDLE_TYPE
  }

  /** The first fragment of the data, written at pos, with the trailer before it. */
  function Fragment(crc: Checksum, pos: nat, data: seq<Byte>, begin: bool): (s: seq<Byte>)
    ensures |s| == |Trailer(pos)| + HEADER_SIZE + FragmentLength(pos, data)
  {
    var n := FragmentLength(pos, data);
    Trailer(pos) + Header(crc, FragmentKind(begin, n == |data|), data[..n]) + data[..n]
  }

  /** Everything written for (the rest of) one record from position pos of the file on. */
  function Emit(crc: Checksum, pos: nat, data: seq<Byte>, begin: bool): (s: seq<Byte>)
    ensures |s| >= HEADER_SIZE
    decreases |data|, if FragmentLength(pos, data) == 0 then 1 else 0
  {
    var n := FragmentLength(pos, data);
    var s := Fragment(crc, pos, data, begin);
    if n == |data| then s else s + Emit(crc, pos + |s|, data[n..], false)
  }

  lemma EmitUnfolds(crc: Checksum, pos: nat, data: seq<Byte>, begin: bool)
    ensures var n, s := FragmentLength(pos, data), Fragment(crc, pos, data, begin);
            && Emit(crc, pos, data, begin) == (if n == |data| then s else s + Emit(crc, pos + |s|, data[n..], false))
            && (n == 0 < |data| ==> FragmentLength(pos + |s|, data) > 0)
  {
  }

  /** What is written depends on no more of the position than where in its block it is. */
  lemma FragmentMoves(crc: Checksum, pos: nat, pos': nat, data: seq<Byte>, begin: bool)
    requires pos % BLOCK_SIZE == pos' % BLOCK_SIZE
    ensures FragmentLength(pos, data) == FragmentLength(pos', data)
    ensures Fragment(crc, pos, data, begin) == Fragment(crc, pos', data, begin)
  {
    assert Trailer(pos) == Trailer(pos');
    SameOffset(pos, pos', |Trailer(pos)|);
  }

  lemma SameOffset(pos: nat, pos': nat, n: nat)
    requires pos % BLOCK_SIZE == pos' % BLOCK_SIZE
    ensures (pos + n) % BLOCK_SIZE == (pos' + n) % BLOCK_SIZE
  {
  }

  lemma {:induction false} EmitMoves(crc: Checksum, pos: nat, pos': nat, data: seq<Byte>, begin: bool)
    requires pos % BLOCK_SIZE == pos' % BLOCK_SIZE
    ensures Emit(crc, pos, data, begin) == Emit(crc, pos', data, begin)
    decreases |data|, if FragmentLength(pos, data) == 0 then 1 else 0
  {
    hide Emit, Fragment, FragmentLength;
    EmitUnfolds(crc, pos, data, begin);
    EmitUnfolds(crc, pos', data, begin);
    FragmentMoves(crc, pos, pos', data, begin);
    var n, size := FragmentLength(pos, data), |Fragment(crc, pos, data, begin)|;
    if n < |data| {
      SameOffset(pos, pos', size);
      assert n == 0 ==> data[n..] == data;
      EmitMoves(crc, pos + size, pos' + size, data[n..], false);
    }
  }

  // ----- What is in the file when writing fails -----

  /** A record but for the trailer that it may need first. */
  function Body(crc: Checksum, pos: nat, data: seq<Byte>): seq<Byte> {
    Emit(crc, pos, data, true)[|Trailer(pos)|..]
  }

  /** Of what is written for a record the first `size` bytes went well, and the fragment they end in did not. The writer
      takes that fragment to be there: `tried` bytes in all. */
  predicate Tried(pos: nat, data: seq<Byte>, size: nat, tried: nat)
    decreases |data|, if FragmentLength(pos, data) == 0 then 1 else 0
  {
    var n := FragmentLength(pos, data);
    var s := |Trailer(pos)| + HEADER_SIZE + n;
    || (size <= s && tried == s)
    || (s <= size && s <= tried && n < |data| && Tried(pos + s, data[n..], size - s, tried - s))
  }

  /** What a writer that takes itself to be at pos may add to its file for a record, and where it then takes itself to
      be. What becomes of a trailer is not looked at. */
  ghost predicate Leaves(crc: Checksum, pos: nat, data: seq<Byte>, ok: bool, bytes: seq<Byte>, next: nat) {
    exists k :: 0 <= k <= |Trailer(pos)| && LeavesAfter(crc, pos, data, k, ok, bytes, next)
  }

  /** k bytes of the trailer are there. */
  predicate LeavesAfter(crc: Checksum, pos: nat, data: seq<Byte>, k: nat, ok: bool, bytes: seq<Byte>, next: nat)
    requires k <= |Trailer(pos)|
  {
    && Trailer(pos)[..k] <= bytes && bytes[k..] <= Body(crc, pos, data)
    && if ok then bytes[k..] == Body(crc, pos, data) && next == pos + |Emit(crc, pos, data, true)|
       else pos <= next && Tried(pos, data, |Trailer(pos)| + |bytes| - k, next - pos)
  }

  /** A writer that reports success has written the record, except for what is missing of a trailer. */
  lemma LeavesAll(crc: Checksum, pos: nat, data: seq<Byte>, ok: bool, bytes: seq<Byte>, next: nat)
    requires Leaves(crc, pos, data, ok, bytes, next)
    ensures ok ==> next == pos + |Emit(crc, pos, data, true)|
    ensures ok && (Trailer(pos) == [] || |bytes| == |Emit(crc, pos, data, true)|) ==>
            bytes == Emit(crc, pos, data, true)
    ensures !ok && Trailer(pos) == [] ==> bytes <= Emit(crc, pos, data, true)
  {
    hide Emit, Tried;
    var k :| 0 <= k <= |Trailer(pos)| && LeavesAfter(crc, pos, data, k, ok, bytes, next);
    if k == |Trailer(pos)| {
      WithTrailer(crc, pos, data, k, ok, bytes, next);
    }
  }

  lemma WithTrailer(crc: Checksum, pos: nat, data: seq<Byte>, k: nat, ok: bool, bytes: seq<Byte>, next: nat)
    requires k == |Trailer(pos)| && LeavesAfter(crc, pos, data, k, ok, bytes, next)
    ensures bytes <= Emit(crc, pos, data, true) && (ok ==> bytes == Emit(crc, pos, data, true))
  {
    hide Tried;
    EmitUnfolds(crc, pos, data, true);
    hide Emit, Header;
    var z, s := Trailer(pos), Emit(crc, pos, data, true);
    assert z[..k] == z && s[..k] == z;
    assert bytes == z + bytes[k..] && s == z + s[k..];
  }

  /** All of it may be there. */
  lemma LeavesWhole(crc: Checksum, pos: nat, data: seq<Byte>)
    ensures var s := Emit(crc, pos, data, true); Leaves(crc, pos, data, true, s, pos + |s|)
  {
    hide Tried;
    EmitUnfolds(crc, pos, data, true);
    hide Emit, Header;
    var z, s := Trailer(pos), Emit(crc, pos, data, true);
    assert z[..|z|] == z && s[..|z|] == z;
    assert LeavesAfter(crc, pos, data, |z|, true, s, pos + |s|);
  }

  function Log(crc: Checksum, pos: nat, records: seq<seq<Byte>>): seq<Byte>
    decreases |records|
  {
    if records == [] then []
    else
      var s := Emit(crc, pos, records[0], true);
      s + Log(crc, pos + |s|, records[1..])
  }

  // ----- Reading -----

  /** What ReadPhysicalRecord returns: the kind, the payload, where the reader then stands, and how many bytes it
      reports as corrupt (0 for no report). */
  datatype Physical = Physical(kind: nat, data: seq<Byte>, next: nat, dropped: nat)

  /** The end of the block buffered at pos. */
  function BufferEnd(file: seq<Byte>, pos: nat): nat {
    var end := (pos / BLOCK_SIZE + 1) * BLOCK_SIZE;
    if |file| < end then if pos <= |file| then |file| else pos else end
  }

  /** The block at pos is the last one and not a full one. */
  predicate AtEof(file: seq<Byte>, pos: nat) {
    |file| < (pos / BLOCK_SIZE + 1) * BLOCK_SIZE
  }

  function NextPhysical(crc: Checksum, checking: bool, initial: nat, file: seq<Byte>, pos: nat): (p: Physical)
    ensures p.next >= pos && (p.kind != EOF_TYPE ==> p.next > pos) && p.kind < 0x100
    decreases if |file| < pos then 0 else |file| - pos
  {
    var end := BufferEnd(file, pos);
    if end - pos < HEADER_SIZE then
      if AtEof(file, pos) then Physical(EOF_TYPE, [], end, 0)
      else NextPhysical(crc, checking, initial, file, end)
    else
      var length, kind := FromLE(file[pos + 4..pos + 6]), file[pos + 6];
      if HEADER_SIZE + length > end - pos then
        if AtEof(file, pos) then Physical(EOF_TYPE, [], end, 0)
        else Physical(BAD_RECORD, [], end, end - pos)
      else if kind == ZERO_TYPE && length == 0 then Physical(BAD_RECORD, [], end, 0)
      else if checking && crc.unmask(Loaded(file, pos)) != crc.value(file[pos + 6..pos + 7 + length]) then
        Physical(BAD_RECORD, [], end, end - pos)
      else if pos < initial then Physical(BAD_RECORD, [], pos + HEADER_SIZE + length, 0)
      else Physical(kind, file[pos + HEADER_SIZE..pos + HEADER_SIZE + length], pos + HEADER_SIZE + length, 0)
  }

  function Loaded(file: seq<Byte>, pos: nat): Word
    requires pos + 4 <= |file|
  {
    assert Span(4) == POW32 by { assert Span(2) == 0x10000; }
    FromLE(file[pos..pos + 4])
  }

  /** What ReadRecord returns: the record and where its first fragment starts, or None at the end; where the reader
      then stands; and how many corruptions it reported on the way. */
  datatype Outcome = Outcome(record: Option<seq<Byte>>, start: int, next: nat, reports: nat)

  /** The reader's state between two fragments. */
  datatype Assembly = Assembly(inFragmented: bool, scratch: seq<Byte>, start: int, resyncing: bool)

  /** Whether bytes dropped just before `at` are reported at all. */
  predicate Reported(bytes: nat, at: nat, initial: nat) {
    at - bytes >= initial
  }

  function Count(b: bool): nat {
    if b then 1 else 0
  }

  function ReadFrom(crc: Checksum, checking: bool, initial: nat, file: seq<Byte>, pos: nat, a: Assembly): (r: Outcome)
    ensures r.next >= pos && (r.record.Some? ==> r.next > pos)
    decreases |file| - pos
  {
    var p := NextPhysical(crc, checking, initial, file, pos);
    NextWithin(crc, checking, initial, file, pos);
    var reports := Count(p.dropped > 0 && Reported(p.dropped, p.next, initial));
    if p.kind == EOF_TYPE then Outcome(None, 0, p.next, reports)
    else
      var (stop, a', more) := Assemble(p.kind, p.data, p.next, a, initial);
      if stop.Some? then Outcome(stop, a'.start, p.next, reports + more)
      else
        var r := ReadFrom(crc, checking, initial, file, p.next, a');
        r.(reports := r.reports + reports + more)
  }

  lemma NextWithin(crc: Checksum, checking: bool, initial: nat, file: seq<Byte>, pos: nat)
    ensures var p := NextPhysical(crc, checking, initial, file, pos); p.kind != EOF_TYPE ==> p.next <= |file|
    decreases if |file| < pos then 0 else |file| - pos
  {
  }

  /** One turn of ReadRecord's loop on a fragment that is not the end: the record if it is complete, the state after
      it, the number of reports. */
  function Assemble(kind: nat, data: seq<Byte>, next: nat, a: Assembly, initial: nat)
    : (Option<seq<Byte>>, Assembly, nat)
  {
    var start := next - HEADER_SIZE - |data|;
    if a.resyncing && kind == MIDDLE_TYPE then (None, a, 0)
    else
      var b := a.(resyncing := false);
      if a.resyncing && kind == LAST_TYPE then (None, b, 0)
      else if kind == FULL_TYPE then
        (Some(data), Assembly(false, [], start, false), Partial(a, next, initial))
      else if kind == FIRST_TYPE then
        (None, Assembly(true, data, start, false), Partial(a, next, initial))
      else if kind == MIDDLE_TYPE then
        if !a.inFragmented then (None, b, Count(Reported(|data|, next, initial)))
        else (None, b.(scratch := a.scratch + data), 0)
      else if kind == LAST_TYPE then
        if !a.inFragmented then (None, b, Count(Reported(|data|, next, initial)))
        else (Some(a.scratch + data), b.(scratch := a.scratch + data), 0)
      else if kind == BAD_RECORD then
        if a.inFragmented then
          (None, b.(inFragmented := false, scratch := []), Count(Reported(|a.scratch|, next, initial)))
        else (None, b, 0)
      else
        var bytes := |data| + if a.inFragmented then |a.scratch| else 0;
        (None, b.(inFragmented := false, scratch := []), Count(Reported(bytes, next, initial)))
  }

  /** A new record starts while another, not empty so far, is unfinished. */
  function Partial(a: Assembly, next: nat, initial: nat): nat {
    Count(a.inFragmented && a.scratch != [] && Reported(|a.scratch|, next, initial))
  }

  /** r is what q says, with n more reports. */
  predicate Adds(r: Outcome, q: Outcome, n: nat) {
    r == q.(reports := n + q.reports)
  }

  lemma ReadFromStep(crc: Checksum, checking: bool, initial: nat, file: seq<Byte>, pos: nat, a: Assembly)
    ensures var p := NextPhysical(crc, checking, initial, file, pos);
            var n := Count(p.dropped > 0 && Reported(p.dropped, p.next, initial));
            var r := ReadFrom(crc, checking, initial, file, pos, a);
            if p.kind == EOF_TYPE then r == Outcome(None, 0, p.next, n)
            else
              var (stop, a', more) := Assemble(p.kind, p.data, p.next, a, initial);
              if stop.Some? then r == Outcome(stop, a'.start, p.next, n + more) && !a'.resyncing
              else Adds(r, ReadFrom(crc, checking, initial, file, p.next, a'), n + more)
  {
    hide NextPhysical;
  }

  const FRESH := Assembly(false, [], 0, false)

  /** What a reader hands out from here on, and how many corruptions it reports. */
  datatype Contents = Contents(records: seq<seq<Byte>>, reports: nat)

  /** ReadRecord until it returns false. */
  function ReadAll(crc: Checksum, checking: bool, initial: nat, file: seq<Byte>, pos: nat, resyncing: bool): Contents
    decreases |file| - pos
  {
    var r := ReadFrom(crc, checking, initial, file, pos, FRESH.(resyncing := resyncing));
    if r.record == None then Contents([], r.reports) else
    ReadWithin(crc, checking, initial, file, pos, FRESH.(resyncing := resyncing));
    var c := ReadAll(crc, checking, initial, file, r.next, false);
    Contents([r.record.value] + c.records, r.reports + c.reports)
  }

  lemma {:induction false} ReadWithin(crc: Checksum, checking: bool, initial: nat, file: seq<Byte>, pos: nat,
                                      a: Assembly)
    ensures var r := ReadFrom(crc, checking, initial, file, pos, a); r.record.Some? ==> r.next <= |file|
    decreases |file| - pos
  {
    var p := NextPhysical(crc, checking, initial, file, pos);
    NextWithin(crc, checking, initial, file, pos);
    if p.kind != EOF_TYPE {
      var (stop, a', more) := Assemble(p.kind, p.data, p.next, a, initial);
      if stop == None {
        ReadWithin(crc, checking, initial, file, p.next, a');
      }
    }
  }

  lemma ReadAllStep(crc: Checksum, checking: bool, initial: nat, file: seq<Byte>, pos: nat, resync: bool)
    ensures var r := ReadFrom(crc, checking, initial, file, pos, FRESH.(resyncing := resync));
            var c := ReadAll(crc, checking, initial, file, pos, resync);
            if r.record == None then c == Contents([], r.reports)
            else
              var d := ReadAll(crc, checking, initial, file, r.next, false);
              c == Contents([r.record.value] + d.records, r.reports + d.reports) && pos < r.next <= |file|
  {
    ReadWithin(crc, checking, initial, file, pos, FRESH.(resyncing := resync));
  }

  /** A record never starts before the file does. */
  lemma {:induction false} StartsInFile(crc: Checksum, checking: bool, initial: nat, file: seq<Byte>, pos: nat,
                                        a: Assembly)
    requires a.start >= 0
    ensures ReadFrom(crc, checking, initial, file, pos, a).start >= 0
    decreases |file| - pos
  {
    hide ReadFrom;
    var p := NextPhysical(crc, checking, initial, file, pos);
    NextWithin(crc, checking, initial, file, pos);
    DataInFile(crc, checking, initial, file, pos);
    ReadFromStep(crc, checking, initial, file, pos, a);
    hide NextPhysical;
    if p.kind != EOF_TYPE {
      var (stop, a', more) := Assemble(p.kind, p.data, p.next, a, initial);
      if stop == None {
        StartsInFile(crc, checking, initial, file, p.next, a');
      }
    }
  }

  lemma DataWithin(crc: Checksum, checking: bool, initial: nat, file: seq<Byte>, pos: nat)
    ensures var p := NextPhysical(crc, checking, initial, file, pos); pos + |p.data| <= p.next
    decreases if |file| < pos then 0 else |file| - pos
  {
  }

  /** What is put together of a record has been read. */
  lemma Gathers(kind: nat, data: seq<Byte>, next: nat, a: Assembly, initial: nat)
    requires |a.scratch| + |data| <= next
    ensures var (stop, a', more) := Assemble(kind, data, next, a, initial); |a'.scratch| <= next
  {
  }

  /** A fragment that begins a record is handed out only from the initial offset on. */
  lemma BeginsLater(crc: Checksum, checking: bool, initial: nat, file: seq<Byte>, pos: nat)
    ensures var p := NextPhysical(crc, checking, initial, file, pos);
            p.kind == FULL_TYPE || p.kind == FIRST_TYPE ==> p.next - HEADER_SIZE - |p.data| >= initial
    decreases if |file| < pos then 0 else |file| - pos
  {
  }

  /** So every record that is returned starts at or after it. */
  lemma {:induction false} StartsLater(crc: Checksum, checking: bool, initial: nat, file: seq<Byte>, pos: nat,
                                       a: Assembly)
    requires a.inFragmented ==> a.start >= initial
    ensures var r := ReadFrom(crc, checking, initial, file, pos, a); r.record.Some? ==> r.start >= initial
    decreases |file| - pos
  {
    hide ReadFrom;
    var p := NextPhysical(crc, checking, initial, file, pos);
    NextWithin(crc, checking, initial, file, pos);
    BeginsLater(crc, checking, initial, file, pos);
    ReadFromStep(crc, checking, initial, file, pos, a);
    hide NextPhysical;
    if p.kind != EOF_TYPE {
      var (stop, a', more) := Assemble(p.kind, p.data, p.next, a, initial);
      if stop == None {
        StartsLater(crc, checking, initial, file, p.next, a');
      }
    }
  }

  lemma DataInFile(crc: Checksum, checking: bool, initial: nat, file: seq<Byte>, pos: nat)
    ensures var p := NextPhysical(crc, checking, initial, file, pos); p.data != [] ==> HEADER_SIZE + |p.data| <= p.next
    ensures var p := NextPhysical(crc, checking, initial, file, pos);
            p.kind != EOF_TYPE && p.kind != BAD_RECORD ==> HEADER_SIZE <= p.next
    decreases if |file| < pos then 0 else |file| - pos
  {
  }

  /** The block where a reader opened at `initial` starts looking. */
  function SkipTarget(initial: nat): nat {
    var offsetInBlock := initial % BLOCK_SIZE;
    if offsetInBlock > BLOCK_SIZE - 6 then initial - offsetInBlock + BLOCK_SIZE else initial - offsetInBlock
  }

  /** Everything a reader opened at `initial` returns. */
  function ReadFile(crc: Checksum, checking: bool, initial: nat, file: seq<Byte>): Contents {
    ReadAll(crc, checking, initial, file, SkipTarget(initial), initial > 0)
  }
}

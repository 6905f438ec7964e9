/** The decompressor: tags are read from whatever regions the source hands out and applied to any of the writers. */
module SnappyDecompress {
  import opened Bytes
  import opened SnappyFormat
  import opened SnappySource
  import opened SnappyTable
  import opened SnappyWriters
  import opened SnappyIOVec
  import opened SnappyScattered

  ghost function Objects(buffers: seq<array<Byte>>): set<object> {
    set i | 0 <= i < |buffers| :: buffers[i]
  }

  /** The decompressor is compiled once per writer class; here it dispatches on one of the four. */
  datatype AnyWriter =
    | Flat(a: SnappyArrayWriter)
    | IOVec(v: SnappyIOVecWriter)
    | Scattered(s: SnappyScatteredWriter)
    | Validator(d: SnappyDecompressionValidator)
  {
    ghost function Footprint(): set<object>
      reads match this case Scattered(s) => {s} case _ => {}
    {
      match this
      case Flat(a) => {a, a.mem}
      case IOVec(v) => {v} + Objects(v.iov)
      case Scattered(s) => {s} + Objects(s.blocks)
      case Validator(d) => {d}
    }

    ghost predicate Valid()
      reads this.Footprint()
    {
      match this
      case Flat(a) => a.Valid()
      case IOVec(v) => v.Valid()
      case Scattered(s) => s.Valid()
      case Validator(d) => d.Valid()
    }

    ghost function Out(): seq<Byte>
      requires Valid()
      reads this.Footprint()
    {
      match this
      case Flat(a) => a.Out()
      case IOVec(v) => v.out
      case Scattered(s) => s.out
      case Validator(d) => d.out
    }

    ghost function Limit(): nat
      requires Valid()
      reads this.Footprint()
    {
      match this
      case Flat(a) => a.Limit()
      case IOVec(v) => v.outputLimit
      case Scattered(s) => s.expected
      case Validator(d) => d.expected
    }

    /** There is room for as much output as is allowed. A list of buffers may have less; the other writers have not. */
    ghost predicate Roomy()
      reads this.Footprint()
    {
      match this
      case IOVec(v) => v.Roomy()
      case _ => true
    }

    method Append(data: seq<Byte>) returns (ok: bool)
      requires Valid()
      modifies this.Footprint()
      ensures fresh(Footprint() - old(Footprint())) && Roomy() == old(Roomy())
      ensures ok ==> Apply(Literal(data), old(Out()), old(Limit())).Some?
      ensures Roomy() && Apply(Literal(data), old(Out()), old(Limit())).Some? ==> ok
      ensures ok ==> Valid() && Limit() == old(Limit()) && Out() == old(Out()) + data
    {
      match this
      case Flat(a) => ok := a.Append(data);
      case IOVec(v) => ok := v.Append(data);
      case Scattered(s) => ok := s.Append(data);
      case Validator(d) => ok := d.Append(data);
    }

    method TryFastAppend(ip: seq<Byte>, len: nat) returns (ok: bool)
      requires Valid() && 0 < len
      modifies this.Footprint()
      ensures fresh(Footprint() - old(Footprint())) && Roomy() == old(Roomy())
      ensures Valid() && Limit() == old(Limit())
      ensures ok ==> len + MAX_TAG_LENGTH <= |ip| && len <= 16
      ensures ok ==> Apply(Literal(ip[..len]), old(Out()), Limit()) == Some(Out())
      ensures !ok ==> Out() == old(Out())
    {
      match this
      case Flat(a) => ok := a.TryFastAppend(ip, len);
      case IOVec(v) => ok := v.TryFastAppend(ip, len);
      case Scattered(s) => ok := s.TryFastAppend(ip, len);
      case Validator(d) => ok := d.TryFastAppend(ip, len);
    }

    method AppendFromSelf(offset: nat, len: nat) returns (ok: bool)
      requires Valid()
      modifies this.Footprint()
      ensures fresh(Footprint() - old(Footprint())) && Roomy() == old(Roomy())
      ensures ok ==> Valid() && Limit() == old(Limit())
      ensures Roomy() ==> (ok <==> Apply(Copy(offset, len), old(Out()), old(Limit())).Some?)
      ensures Roomy() && ok ==> Apply(Copy(offset, len), old(Out()), Limit()) == Some(Out())
    {
      match this
      case Flat(a) => ok := a.AppendFromSelf(offset, len);
      case IOVec(v) => ok := v.AppendFromSelf(offset, len);
      case Scattered(s) => ok := s.AppendFromSelf(offset, len);
      case Validator(d) => ok := d.AppendFromSelf(offset, len);
    }

    method CheckLength() returns (ok: bool)
      requires Valid()
      ensures ok <==> |Out()| == Limit()
      ensures ok ==> Roomy()
    {
      match this
      case Flat(a) => ok := a.CheckLength();
      case IOVec(v) =>
        ok := v.CheckLength();
        v.NeverOverfull();
      case Scattered(s) => ok := s.CheckLength();
      case Validator(d) => ok := d.CheckLength();
    }

    /** A writer as constructed, with the room that `len` bytes need where room is the caller's to give. */
    ghost predicate CanExpect(len: nat)
      reads this.Footprint()
    {
      len < POW64 &&
      match this
      case Flat(a) => a.Valid() && a.Out() == [] && a.op + len <= a.mem.Length
      case IOVec(v) => v.Valid() && v.out == []
      case Scattered(s) => s.Valid() && s.blocks == []
      case Validator(d) => d.Valid() && d.out == []
    }

    ghost predicate Holds(len: nat) {
      match this
      case IOVec(v) => len <= Start(v.iov, |v.iov|)
      case _ => true
    }

    method SetExpectedLength(len: nat)
      requires CanExpect(len)
      modifies this.Footprint()
      ensures Footprint() == old(Footprint())
      ensures Valid() && Out() == [] && Limit() == len && Roomy() == Holds(len)
    {
      match this
      case Flat(a) => a.SetExpectedLength(len);
      case IOVec(v) => v.SetExpectedLength(len);
      case Scattered(s) => s.SetExpectedLength(len);
      case Validator(d) => d.SetExpectedLength(len);
    }
  }

  // ----- How the source is used -----

  /** What a decompressor holds of its source: what is not skipped yet, and how much of that it peeked. The count of
      peeked bytes is a 32-bit number. */
  datatype Held = Held(regions: seq<seq<Byte>>, peeked: nat)

  /** Skip what was peeked and peek the next region. */
  function NextHeld(h: Held): Held {
    var rest := Dropped(h.regions, h.peeked);
    Held(rest, Word32(|First(rest)|))
  }

  /** Skip what was peeked, which has been moved to scratch. */
  function Released(h: Held): Held {
    Held(Dropped(h.regions, h.peeked), 0)
  }

  /** Move up to `needed` bytes of the next region to scratch. The lesser of the two is taken in 32 bits. */
  function ToAdd(needed: nat, region: seq<Byte>): (n: nat)
    ensures n <= needed && n <= |region|
  {
    var length := Word32(|region|);
    if needed < length then needed else length
  }

  function Stitched(h: Held, needed: nat): Held {
    Held(Dropped(h.regions, ToAdd(needed, First(h.regions))), 0)
  }

  /** All the ways in which the decompressor goes on in its source. */
  ghost predicate Uses(a: Held, b: Held) {
    || b == NextHeld(a)
    || b == Released(a)
    || (a.peeked == 0 && exists needed: nat :: b == Stitched(a, needed))
  }

  /** Some region is ahead that is too long to be counted in 32 bits. */
  ghost predicate HugeAhead(h: Held) {
    && h.peeked <= Word32(|First(h.regions)|)
    && !AllSmall(h.regions)
  }

  lemma HugeStays(a: Held, b: Held)
    requires HugeAhead(a) && Uses(a, b) && NoneEmpty(a.regions)
    ensures HugeAhead(b) && NoneEmpty(b.regions)
  {
    hide AllSmall, NoneEmpty, Dropped;
    var n := a.peeked;
    if b != NextHeld(a) && b != Released(a) {
      var needed: nat :| b == Stitched(a, needed);
      n := ToAdd(needed, First(a.regions));
    }
    assert b.regions == Dropped(a.regions, n) && n <= Word32(|First(a.regions)|);
    if AllSmall(b.regions) {
      HugeDropped(a.regions, n);
    }
    NoneEmptyDropped(a.regions, n);
  }

  lemma HugeDropped(regions: seq<seq<Byte>>, n: nat)
    requires n <= Word32(|First(regions)|) && AllSmall(Dropped(regions, n))
    ensures AllSmall(regions)
  {
    var r := Dropped(regions, n);
    forall k | 0 <= k < |regions|
      ensures |regions[k]| < POW32
    {
      HugeMinus(|regions[0]|, n);
      DroppedFirst(regions, n);
      if k > 0 {
        assert regions[k] == if n < |regions[0]| || n == 0 then r[k] else r[k - 1];
      } else if n < |regions[0]| {
        assert |regions[0]| - n == |r[0]|;
      }
    }
  }

  lemma DroppedFirst(regions: seq<seq<Byte>>, n: nat)
    requires regions != [] && n <= |regions[0]|
    ensures Dropped(regions, n) ==
            if n == 0 then regions else if n < |regions[0]| then [regions[0][n..]] + regions[1..] else regions[1..]
  {
  }

  lemma HugeMinus(length: nat, n: nat)
    requires n <= Word32(length)
    ensures length >= POW32 ==> length - n >= POW32
  {
    assert length == POW32 * (length / POW32) + Word32(length);
  }

  /** A region of 2^32 bytes or more is never passed: whatever the decompressor does with its source, it does not come
      to the end, so it never reports that the input ended between items. */
  lemma {:induction false} HugeNeverPassed(run: seq<Held>, k: nat)
    requires k < |run| && HugeAhead(run[0]) && NoneEmpty(run[0].regions)
    requires forall i, j :: 0 <= i && j == i + 1 && j < |run| ==> Uses(run[i], run[j])
    ensures HugeAhead(run[k]) && run[k].regions != [] && NoneEmpty(run[k].regions)
  {
    hide Uses, NoneEmpty, First;
    if k > 0 {
      HugeNeverPassed(run, k - 1);
      HugeStays(run[k - 1], run[k]);
    }
  }

  /** With exactly 2^32 bytes in the region (or a multiple of that) the loop that stitches a tag together takes none of
      them, and goes on for ever: a turn leaves everything as it is. */
  lemma StitchingStalls(regions: seq<seq<Byte>>, needed: nat)
    requires regions != [] && |regions[0]| % POW32 == 0
    ensures Stitched(Held(regions, 0), needed) == Held(regions, 0)
    ensures |regions[0]| == POW32 ==> NextHeld(Held(regions, 0)) == Held(regions, 0)
  {
  }

  /** LittleEndian::Load32 masked to its k low bytes. */
  function MaskedLoad32(mem: seq<Byte>, i: nat, k: nat): nat
    requires i + 4 <= |mem| && k <= 4
  {
    FromLE(mem[i..i + 4]) % Span(k)
  }

  class SnappyDecompressor {
    const reader: Source
    const scratch: array<Byte>
    var inScratch: bool  // whether ip points into scratch or into the region last peeked
    var region: seq<Byte>
    var ip: nat
    var ipLimit: nat
    var peeked: nat
    var eof: bool

    /** The memory ip points into. */
    function Buffer(): seq<Byte>
      reads this, scratch
    {
      if inScratch then scratch[..] else region
    }

    ghost predicate Valid()
      reads this, scratch, reader
    {
      && reader.Valid() && reader.Small() && scratch.Length == MAX_TAG_LENGTH
      && ip <= ipLimit <= |Buffer()|
      && (inScratch ==> peeked == 0)
      && (!inScratch ==> peeked == |region| == ipLimit < POW32 && region <= reader.Rest())
    }

    ghost function Holding(): Held
      reads this, reader
    {
      Held(reader.regions, peeked)
    }

    /** What the decompressor has yet to consume: what is buffered, then what the source still has beyond it. */
    ghost function Unread(): (s: seq<Byte>)
      requires Valid()
      reads this, scratch, reader
      ensures |s| >= ipLimit - ip
    {
      Buffer()[ip..ipLimit] + reader.Rest()[peeked..]
    }

    constructor (reader: Source)
      ensures !eof && ip == ipLimit && this.reader == reader && fresh(scratch) && scratch.Length == MAX_TAG_LENGTH
      ensures !inScratch && region == [] && ipLimit == peeked == 0
    {
      this.reader := reader;
      scratch := new Byte[MAX_TAG_LENGTH](_ => 0);
      inScratch, region, ip, ipLimit, peeked, eof := false, [], 0, 0, 0, false;
    }

    /** The tag at ip and its extra bytes are buffered, and five bytes can be loaded. */
    ghost predicate TagReady()
      requires Valid()
      reads this, scratch, reader
    {
      ip < ipLimit && ip + MAX_TAG_LENGTH <= |Buffer()| && ip + 1 + ExtraBytes(Buffer()[ip]) <= ipLimit
    }

    /** All peeked bytes are used up: skip them and peek the next region. Nothing is buffered only at the end. */
    method NextRegion()
      requires Valid()
      modifies this, reader
      ensures Valid() && Unread() == old(Unread())[old(ipLimit) - old(ip)..] && ip == 0 && !inScratch
      ensures eof == old(eof) && (ipLimit == 0 <==> Unread() == [])
      ensures Holding() == NextHeld(old(Holding()))
    {
      hide Source.Rest, Dropped, Unread;
      AfterBuffered();
      DroppedSmall(reader.regions, peeked);
      reader.Skip(peeked);
      region := reader.Peek();
      inScratch, ip, ipLimit, peeked := false, 0, |region|, Word32(|region|);
      RegionIsNext();
    }

    lemma AfterBuffered()
      requires Valid()
      ensures peeked <= |reader.Rest()| && Unread()[ipLimit - ip..] == reader.Rest()[peeked..]
    {
      hide Source.Rest;
    }

    lemma RegionIsNext()
      requires Valid() && !inScratch && ip == 0
      ensures Unread() == reader.Rest()
    {
      hide Source.Rest;
    }

    /** Fetch a new region when nothing is buffered. */
    method Fetch() returns (ok: bool)
      requires Valid() && !eof
      modifies this, reader
      ensures Valid() && eof == !ok && Unread() == old(Unread())
      ensures !ok ==> Unread() == []
      ensures ok ==> ip < ipLimit
    {
      ok := true;
      if ip == ipLimit {
        NextRegion();
        eof := ipLimit == 0;
        ok := !eof;
      }
    }

    /** Moves the buffered bytes to the start of scratch, which may already hold them. */
    method MoveToScratch()
      requires Valid() && !eof && ipLimit - ip <= MAX_TAG_LENGTH
      modifies this, scratch, reader
      ensures Valid() && !eof && inScratch && Unread() == old(Unread())
      ensures ip == 0 && ipLimit == old(ipLimit) - old(ip)
      ensures scratch[..ipLimit] == old(Buffer()[ip..ipLimit])
      ensures Holding() == Released(old(Holding()))
    {
      hide Dropped;
      var buffered := Buffer()[ip..ipLimit];
      ghost var unread := Unread();
      forall i | 0 <= i < |buffered| {
        scratch[i] := buffered[i];
      }
      assert scratch[..|buffered|] == buffered;
      DroppedSmall(reader.regions, peeked);
      reader.Skip(peeked);
      peeked := 0;
      inScratch, ip, ipLimit := true, 0, |buffered|;
    }

    /** Adds bytes from the source to scratch until it holds `needed` of them; false when the source runs out. */
    method Stitch(needed: nat) returns (ok: bool)
      requires Valid() && !eof && inScratch && ip == 0 && ipLimit < needed <= MAX_TAG_LENGTH
      modifies this, scratch, reader
      ensures reader.Valid() && !eof && (ok <==> |old(Unread())| >= needed)
      ensures ok ==> Valid() && inScratch && ip == 0 && ipLimit == needed && Unread() == old(Unread())
    {
      hide Source.Rest, Unread;
      while ipLimit < needed
        invariant Valid() && !eof && inScratch && ip == 0 && ipLimit <= needed
        invariant Unread() == old(Unread())
        decreases needed - ipLimit
      {
        var src := reader.Peek();
        if |src| == 0 {
          ScratchIsAll();
          return false;
        }
        var toAdd := ToAdd(needed - ipLimit, src);
        StitchOnce(src[..toAdd], needed - ipLimit);
      }
      ok := true;
    }

    lemma ScratchIsAll()
      requires Valid() && inScratch && ip == 0 && reader.Rest() == []
      ensures |Unread()| == ipLimit
    {
    }

    method StitchOnce(data: seq<Byte>, ghost needed: nat)
      requires Valid() && inScratch && ip == 0 && ipLimit + |data| <= MAX_TAG_LENGTH && data <= reader.Rest()
      requires |data| == ToAdd(needed, First(reader.regions))
      modifies this`ipLimit, scratch, reader
      ensures Valid() && inScratch && ip == 0 && ipLimit == old(ipLimit) + |data| && Unread() == old(Unread())
      ensures Holding() == Stitched(old(Holding()), needed)
    {
      hide Source.Rest, Dropped, First, Word32;
      ghost var rest, have := reader.Rest(), scratch[..ipLimit];
      forall i | 0 <= i < |data| {
        scratch[ipLimit + i] := data[i];
      }
      assert scratch[..ipLimit + |data|] == have + data;
      DroppedSmall(reader.regions, |data|);
      reader.Skip(|data|);
      assert rest == data + reader.Rest();
      ipLimit := ipLimit + |data|;
    }

    /** True with the next tag ready. False at the end of the input, eof telling whether it ended between items. */
    method RefillTag() returns (ok: bool)
      requires Valid() && !eof
      modifies this, scratch, reader
      ensures reader.Valid()
      ensures ok ==> Valid() && !eof && TagReady() && Unread() == old(Unread())
      ensures !ok && eof ==> old(Unread()) == []
      ensures !ok && !eof ==> old(Unread()) != [] && |old(Unread())| < 1 + ExtraBytes(old(Unread())[0])
    {
      ok := Fetch();
      if !ok { return; }
      var c := Buffer()[ip];
      assert c == Unread()[0];
      var entry := CharTable(c);
      CharTableMeaning(c);
      EntryFields(c);
      var needed := entry / 0x800 + 1;
      var nbuf := Word32(ipLimit - ip);
      if nbuf < needed {
        MoveToScratch();
        ok := Stitch(needed);
        if ok { assert scratch[0] == Unread()[0]; }
      } else if nbuf < MAX_TAG_LENGTH {
        MoveToScratch();
        assert scratch[0] == scratch[..ipLimit][0];
      }
    }

    /** ip += k */
    method Advance(k: nat, ghost w: AnyWriter)
      requires Valid() && ip + k <= ipLimit && Apart(w)
      modifies this`ip
      ensures Still(w)
      ensures Valid() && Unread() == old(Unread())[k..] && ip == old(ip) + k
    {
      hide AnyWriter.Valid, AnyWriter.Out, AnyWriter.Limit, AnyWriter.Roomy;
      ip := ip + k;
    }

    /** The macro at the end of every item: refill unless five bytes are buffered already. */
    method MaybeRefill() returns (ok: bool)
      requires Valid() && !eof
      modifies this, scratch, reader
      ensures reader.Valid()
      ensures ok ==> Valid() && !eof && TagReady() && Unread() == old(Unread())
      ensures !ok && eof ==> old(Unread()) == []
      ensures !ok && !eof ==> old(Unread()) != [] && |old(Unread())| < 1 + ExtraBytes(old(Unread())[0])
    {
      ok := true;
      if ipLimit - ip < MAX_TAG_LENGTH {
        ok := RefillTag();
      }
    }

    ghost predicate Apart(w: AnyWriter)
      reads match w case Scattered(s) => {s} case _ => {}
    {
      this !in w.Footprint() && scratch !in w.Footprint() && reader !in w.Footprint()
    }

    /** Nothing of the writer has changed. */
    twostate predicate Still(w: AnyWriter)
      reads this, w.Footprint(), match w case Scattered(s) => {s} case _ => {}
    {
      && Apart(w) && w.Footprint() == old(w.Footprint()) && w.Roomy() == old(w.Roomy())
      && (old(w.Valid()) ==> w.Valid() && w.Out() == old(w.Out()) && w.Limit() == old(w.Limit()))
    }

    /** The writer takes bytes; the decompressor is left as it is. */
    method GiveBytes(w: AnyWriter, data: seq<Byte>) returns (ok: bool)
      requires Valid() && w.Valid() && Apart(w)
      modifies w.Footprint()
      ensures fresh(w.Footprint() - old(w.Footprint())) && w.Roomy() == old(w.Roomy())
      ensures Unmoved() && Valid() && Apart(w)
      ensures ok ==> |old(w.Out())| + |data| <= old(w.Limit())
      ensures w.Roomy() && |old(w.Out())| + |data| <= old(w.Limit()) ==> ok
      ensures ok ==> w.Valid() && w.Limit() == old(w.Limit()) && w.Out() == old(w.Out()) + data
    {
      hide AnyWriter.Valid, AnyWriter.Out, AnyWriter.Limit, AnyWriter.Roomy;
      ok := w.Append(data);
    }

    method GiveCopy(w: AnyWriter, offset: nat, len: nat) returns (ok: bool)
      requires Valid() && w.Valid() && Apart(w)
      modifies w.Footprint()
      ensures fresh(w.Footprint() - old(w.Footprint())) && w.Roomy() == old(w.Roomy())
      ensures Unmoved() && Valid() && Apart(w)
      ensures ok ==> w.Valid() && w.Limit() == old(w.Limit())
      ensures w.Roomy() ==> (ok <==> Apply(Copy(offset, len), old(w.Out()), old(w.Limit())).Some?)
      ensures w.Roomy() && ok ==> Apply(Copy(offset, len), old(w.Out()), w.Limit()) == Some(w.Out())
    {
      hide AnyWriter.Valid, AnyWriter.Out, AnyWriter.Limit, AnyWriter.Roomy, Apply;
      ok := w.AppendFromSelf(offset, len);
    }

    method GiveFast(w: AnyWriter, data: seq<Byte>, n: nat) returns (ok: bool)
      requires Valid() && w.Valid() && Apart(w) && 0 < n
      modifies w.Footprint()
      ensures fresh(w.Footprint() - old(w.Footprint())) && w.Roomy() == old(w.Roomy())
      ensures Unmoved() && Valid() && Apart(w) && w.Valid() && w.Limit() == old(w.Limit())
      ensures ok ==> n + MAX_TAG_LENGTH <= |data| && n <= 16
      ensures ok ==> Apply(Literal(data[..n]), old(w.Out()), w.Limit()) == Some(w.Out())
      ensures !ok ==> w.Out() == old(w.Out())
    {
      hide AnyWriter.Valid, AnyWriter.Out, AnyWriter.Limit, AnyWriter.Roomy, Apply;
      ok := w.TryFastAppend(data, n);
    }

    twostate predicate Unmoved()
      reads this, scratch, reader
    {
      && ip == old(ip) && ipLimit == old(ipLimit) && eof == old(eof) && Buffer() == old(Buffer())
      && (old(Valid()) && Valid() ==> Unread() == old(Unread()))
    }

    /** Hands the writer everything buffered and goes on to the next region. */
    method AppendRegion(w: AnyWriter) returns (ok: bool)
      requires Valid() && !eof && w.Valid() && Apart(w)
      modifies this, reader, w.Footprint()
      ensures reader.Valid() && !eof && fresh(w.Footprint() - old(w.Footprint())) && w.Roomy() == old(w.Roomy())
      ensures var n := old(ipLimit) - old(ip);
              && n <= |old(Unread())| && (ok ==> |old(w.Out())| + n <= old(w.Limit()))
              && (w.Roomy() && |old(w.Out())| + n <= old(w.Limit()) ==> ok)
      ensures ok ==> Valid() && w.Valid() && Apart(w) && w.Limit() == old(w.Limit())
      ensures ok ==> Unread() == old(Unread())[old(ipLimit) - old(ip)..]
      ensures ok ==> w.Out() == old(w.Out()) + old(Unread())[..old(ipLimit) - old(ip)]
      ensures ok ==> (ip == ipLimit <==> Unread() == [])
    {
      hide AnyWriter.Valid, AnyWriter.Out, AnyWriter.Limit, AnyWriter.Roomy;
      assert Buffer()[ip..ipLimit] == Unread()[..ipLimit - ip];
      ok := GiveBytes(w, Buffer()[ip..ipLimit]);
      if ok { NextRegionBeside(w); }
    }

    method NextRegionBeside(ghost w: AnyWriter)
      requires Valid() && Apart(w)
      modifies this, reader
      ensures Still(w)
      ensures Valid() && Unread() == old(Unread())[old(ipLimit) - old(ip)..]
      ensures eof == old(eof) && (ip == ipLimit <==> Unread() == [])
    {
      hide AnyWriter.Valid, AnyWriter.Out, AnyWriter.Limit, AnyWriter.Roomy;
      hide Valid, Buffer, Unread, NextHeld;
      NextRegion();
    }

    /** Appends the next n bytes of the input, one buffered region after another. */
    method AppendLiteral(w: AnyWriter, n: nat) returns (ok: bool)
      requires Valid() && !eof && w.Valid() && Apart(w)
      modifies this, reader, w.Footprint()
      ensures reader.Valid() && !eof && fresh(w.Footprint() - old(w.Footprint())) && w.Roomy() == old(w.Roomy())
      ensures ok ==> n <= |old(Unread())| && |old(w.Out())| + n <= old(w.Limit())
      ensures w.Roomy() && n <= |old(Unread())| && |old(w.Out())| + n <= old(w.Limit()) ==> ok
      ensures ok ==> Valid() && w.Valid() && Apart(w) && w.Limit() == old(w.Limit())
      ensures ok ==> Unread() == old(Unread())[n..] && w.Out() == old(w.Out()) + old(Unread())[..n]
    {
      hide AnyWriter.Valid, AnyWriter.Out, AnyWriter.Limit, AnyWriter.Roomy, Buffer, Unread;
      var left := n;
      ghost var unread, out, limit := Unread(), w.Out(), w.Limit();
      ghost var done := 0;
      while ipLimit - ip < left
        invariant Valid() && !eof && w.Valid() && Apart(w) && fresh(w.Footprint() - old(w.Footprint()))
        invariant w.Roomy() == old(w.Roomy())
        invariant 0 <= left && done + left == n && done <= |unread| && Unread() == unread[done..]
        invariant w.Limit() == limit && w.Out() == out + unread[..done]
        decreases left, ip == ipLimit
      {
        var avail := ipLimit - ip;
        ok := AppendRegion(w);
        if !ok { return; }
        TakenMore(out, unread, done, avail);
        left := left - avail;
        done := done + avail;
        if ip == ipLimit { return false; }
      }
      ok := FinishLiteral(w, left);
      if left <= |unread| - done {
        TakenMore(out, unread, done, left);
      }
    }

    /** Taking more of the input after the first part takes a longer first part. */
    static lemma TakenMore(out: seq<Byte>, s: seq<Byte>, done: nat, more: nat)
      requires done + more <= |s|
      ensures out + s[..done] + s[done..][..more] == out + s[..done + more] && s[done..][more..] == s[done + more..]
    {
      assert s[..done] + s[done..][..more] == s[..done + more];
      assert out + s[..done] + s[done..][..more] == out + (s[..done] + s[done..][..more]);
    }

    /** What is buffered comes next. */
    lemma BufferedIsNext(n: nat)
      requires Valid() && (n == 0 || n <= ipLimit - ip)
      ensures ip <= ipLimit <= |Buffer()| && n <= |Unread()| && Buffer()[ip..ip + n] == Unread()[..n]
      ensures n <= ipLimit - ip && Buffer()[ip..ipLimit][..n] == Unread()[..n]
    {
    }

    method FinishLiteral(w: AnyWriter, n: nat) returns (ok: bool)
      requires Valid() && !eof && w.Valid() && Apart(w) && n <= ipLimit - ip
      modifies this, w.Footprint()
      ensures Valid() && !eof && fresh(w.Footprint() - old(w.Footprint())) && w.Roomy() == old(w.Roomy())
      ensures ok ==> |old(w.Out())| + n <= old(w.Limit())
      ensures w.Roomy() && |old(w.Out())| + n <= old(w.Limit()) ==> ok
      ensures ok ==> w.Valid() && Apart(w) && w.Limit() == old(w.Limit())
      ensures ok ==> Unread() == old(Unread())[n..] && w.Out() == old(w.Out()) + old(Unread())[..n]
    {
      hide AnyWriter.Valid, AnyWriter.Out, AnyWriter.Limit, AnyWriter.Roomy;
      hide Valid, Buffer, Unread;
      BufferedIsNext(n);
      ok := GiveBytes(w, Buffer()[ip..ip + n]);
      if ok { Advance(n, w); }
    }

    /** c = *ip++ */
    method TakeTag(ghost w: AnyWriter) returns (c: Byte)
      requires Valid() && !eof && TagReady() && Apart(w)
      modifies this`ip
      ensures Still(w)
      ensures Valid() && !eof && old(Unread()) != [] && c == old(Unread())[0] == old(Buffer()[ip])
      ensures Unread() == old(Unread())[1..]
      ensures ip + 4 <= |Buffer()| && ip + ExtraBytes(c) <= ipLimit
    {
      c := Buffer()[ip];
      assert c == Unread()[0];
      Advance(1, w);
    }

    /** A masked load of the k bytes after the tag. */
    method TakeExtra(k: nat, ghost w: AnyWriter) returns (v: nat)
      requires Valid() && !eof && k <= 4 && ip + 4 <= |Buffer()| && ip + k <= ipLimit && Apart(w)
      modifies this`ip
      ensures Still(w)
      ensures Valid() && !eof && k <= |old(Unread())|
      ensures v == FromLE(old(Unread())[..k]) && Unread() == old(Unread())[k..]
    {
      MaskedLoad(Buffer()[ip..ip + 4], k);
      BufferedIsNext(k);
      assert Buffer()[ip..ip + 4][..k] == Buffer()[ip..ip + k];
      v := MaskedLoad32(Buffer(), ip, k);
      Advance(k, w);
    }

    /** The writer's fast path; it leaves five bytes buffered, so no refill is needed after it. */
    method TryFast(w: AnyWriter, n: nat) returns (ok: bool)
      requires Valid() && !eof && w.Valid() && Apart(w) && 0 < n
      modifies this`ip, w.Footprint()
      ensures Valid() && !eof && w.Valid() && Apart(w) && fresh(w.Footprint() - old(w.Footprint()))
      ensures w.Limit() == old(w.Limit()) && w.Roomy() == old(w.Roomy())
      ensures ok ==> n <= 16 && n <= |old(Unread())| && Unread() == old(Unread())[n..] && TagReady()
      ensures ok ==> Apply(Literal(old(Unread())[..n]), old(w.Out()), w.Limit()) == Some(w.Out())
      ensures !ok ==> Unread() == old(Unread()) && w.Out() == old(w.Out())
      ensures !ok ==> Buffer() == old(Buffer()) && ip == old(ip)
    {
      hide AnyWriter.Valid, AnyWriter.Out, AnyWriter.Limit, AnyWriter.Roomy;
      hide Valid, Unread;
      BufferedIsNext(0);
      ghost var ahead := Buffer()[ip..ipLimit];
      ok := GiveFast(w, Buffer()[ip..ipLimit], n);
      if ok {
        BufferedIsNext(n);
        Advance(n, w);
      }
    }

    /** One literal: the short form through the writer's fast path where it takes it, else the general one. */
    method StepLiteral(w: AnyWriter) returns (ok: bool, fast: bool)
      requires Valid() && !eof && TagReady() && w.Valid() && Apart(w)
      requires Buffer()[ip] % 4 == LITERAL
      modifies this, reader, w.Footprint()
      ensures reader.Valid() && !eof && fresh(w.Footprint() - old(w.Footprint())) && w.Roomy() == old(w.Roomy())
      ensures ok ==> Valid() && w.Valid() && Apart(w) && w.Limit() == old(w.Limit())
      ensures ok ==> Stepped(old(Unread()), old(w.Out()), Unread(), w.Out(), w.Limit(), w.Roomy())
      ensures ok && fast ==> TagReady()
      ensures !ok && w.Roomy() ==> Stuck(old(Unread()), old(w.Out()), old(w.Limit()))
    {
      hide AnyWriter.Valid, AnyWriter.Out, AnyWriter.Limit, AnyWriter.Roomy;
      hide Valid, Buffer, Unread, Stepped, Stuck, TagReady, ParseItem, Apply;
      ghost var u, out := Unread(), w.Out();
      var c := TakeTag(w);
      var length := c / 4 + 1;
      fast := TryFast(w, length);
      if fast {
        FastLiteral(u, length, out, w.Out(), w.Limit(), w.Roomy());
        ok := true;
      } else {
        ok := StepSlowLiteral(w, length, u);
      }
    }

    method StepSlowLiteral(w: AnyWriter, tagLength: nat, ghost u: seq<Byte>) returns (ok: bool)
      requires Valid() && !eof && w.Valid() && Apart(w)
      requires u != [] && u[0] % 4 == LITERAL && tagLength == u[0] / 4 + 1 && Unread() == u[1..]
      requires ip + 4 <= |Buffer()| && ip + ExtraBytes(u[0]) <= ipLimit
      modifies this, reader, w.Footprint()
      ensures reader.Valid() && !eof && fresh(w.Footprint() - old(w.Footprint())) && w.Roomy() == old(w.Roomy())
      ensures ok ==> Valid() && w.Valid() && Apart(w) && w.Limit() == old(w.Limit())
      ensures ok ==> Stepped(u, old(w.Out()), Unread(), w.Out(), w.Limit(), w.Roomy())
      ensures !ok && w.Roomy() ==> Stuck(u, old(w.Out()), old(w.Limit()))
    {
      hide AnyWriter.Valid, AnyWriter.Out, AnyWriter.Limit, AnyWriter.Roomy;
      hide Valid, Buffer, Unread, Stepped, Stuck, TagReady, ParseItem, Apply;
      ghost var out, limit := w.Out(), w.Limit();
      var length := tagLength;
      if length >= 61 {
        var v := TakeExtra(length - 60, w);
        length := Word32(v + 1);
      }
      ok := AppendLiteral(w, length);
      SlowLiteral(u, length, out, limit, w.Roomy());
    }

    method StepCopy(w: AnyWriter) returns (ok: bool)
      requires Valid() && !eof && TagReady() && w.Valid() && Apart(w)
      requires Buffer()[ip] % 4 != LITERAL
      modifies this, reader, w.Footprint()
      ensures reader.Valid() && !eof && fresh(w.Footprint() - old(w.Footprint())) && w.Roomy() == old(w.Roomy())
      ensures ok ==> Valid() && w.Valid() && Apart(w) && w.Limit() == old(w.Limit())
      ensures ok ==> Stepped(old(Unread()), old(w.Out()), Unread(), w.Out(), w.Limit(), w.Roomy())
      ensures !ok && w.Roomy() ==> Stuck(old(Unread()), old(w.Out()), old(w.Limit()))
    {
      hide AnyWriter.Valid, AnyWriter.Out, AnyWriter.Limit, AnyWriter.Roomy;
      hide Valid, Buffer, Unread, TagReady, ParseItem, Apply, CharTable, Entry;
      ghost var u := Unread();
      var c := TakeTag(w);
      var entry := CharTable(c);
      CharTableMeaning(c);
      EntryFields(c);
      var trailer := TakeExtra(entry / 0x800, w);
      var length := entry % 0x100;
      var copyOffset := entry / 0x100 % 8 * 0x100;
      CopyItem(u, copyOffset + trailer, length);
      ok := GiveCopy(w, copyOffset + trailer, length);
    }

    /** Applies every item of the input to the writer. eof afterwards says that the input ended between items and
        every item was accepted, and then the writer holds what the format says. */
    method DecompressAllTags(w: AnyWriter)
      requires Valid() && !eof && w.Valid() && Apart(w)
      modifies this, scratch, reader, w.Footprint()
      ensures fresh(w.Footprint() - old(w.Footprint())) && w.Roomy() == old(w.Roomy())
      ensures w.Roomy() ==> (eof <==> Decode(old(Unread()), old(w.Out()), old(w.Limit())).Some?)
      ensures eof ==> w.Valid() && w.Limit() == old(w.Limit())
      ensures eof && w.Roomy() ==> Decode(old(Unread()), old(w.Out()), w.Limit()) == Some(w.Out())
    {
      hide AnyWriter.Valid, AnyWriter.Out, AnyWriter.Limit, AnyWriter.Roomy;
      hide Valid, Buffer, Unread, TagReady, Decode;
      ghost var answer, limit := Decode(Unread(), w.Out(), w.Limit()), w.Limit();
      var ok := MaybeRefillFor(w, limit);
      while ok
        invariant fresh(w.Footprint() - old(w.Footprint())) && w.Roomy() == old(w.Roomy())
        invariant ok ==> Valid() && !eof && TagReady() && w.Valid() && Apart(w) && w.Limit() == limit
        invariant ok && w.Roomy() ==> answer == Decode(Unread(), w.Out(), limit)
        invariant !ok && !eof && w.Roomy() ==> answer == None
        invariant !ok && eof ==> w.Valid() && w.Limit() == limit && (w.Roomy() ==> answer == Some(w.Out()))
        decreases ok, if ok then |Unread()| else 0
      {
        ok := Step(w, limit, answer);
      }
    }

    /** One item, and the refill after it. */
    method Step(w: AnyWriter, ghost limit: nat, ghost answer: Option<seq<Byte>>) returns (more: bool)
      requires Valid() && !eof && TagReady() && w.Valid() && Apart(w) && w.Limit() == limit
      requires w.Roomy() ==> answer == Decode(Unread(), w.Out(), limit)
      modifies this, scratch, reader, w.Footprint()
      ensures fresh(w.Footprint() - old(w.Footprint())) && w.Roomy() == old(w.Roomy())
      ensures more ==> Valid() && !eof && TagReady() && w.Valid() && Apart(w) && w.Limit() == limit
      ensures more ==> (w.Roomy() ==> answer == Decode(Unread(), w.Out(), limit)) && |Unread()| < |old(Unread())|
      ensures !more && !eof && w.Roomy() ==> answer == None
      ensures !more && eof ==> w.Valid() && w.Limit() == limit && (w.Roomy() ==> answer == Some(w.Out()))
    {
      hide AnyWriter.Valid, AnyWriter.Out, AnyWriter.Limit, AnyWriter.Roomy;
      hide Valid, Buffer, Unread, TagReady, Decode, Stepped, Stuck, Apart;
      ghost var u, out := Unread(), w.Out();
      var fast;
      more, fast := StepItem(w);
      if !more {
        if w.Roomy() { StuckDecodes(u, out, limit); }
        return;
      }
      SteppedDecodes(u, out, Unread(), w.Out(), limit, w.Roomy());
      if !fast {
        more := MaybeRefillFor(w, limit);
      }
    }

    method StepItem(w: AnyWriter) returns (ok: bool, fast: bool)
      requires Valid() && !eof && TagReady() && w.Valid() && Apart(w)
      modifies this, reader, w.Footprint()
      ensures reader.Valid() && !eof && fresh(w.Footprint() - old(w.Footprint())) && w.Roomy() == old(w.Roomy())
      ensures ok ==> Valid() && w.Valid() && Apart(w) && w.Limit() == old(w.Limit())
      ensures ok ==> Stepped(old(Unread()), old(w.Out()), Unread(), w.Out(), w.Limit(), w.Roomy())
      ensures ok && fast ==> TagReady()
      ensures !ok && w.Roomy() ==> Stuck(old(Unread()), old(w.Out()), old(w.Limit()))
    {
      hide AnyWriter.Valid, AnyWriter.Out, AnyWriter.Limit, AnyWriter.Roomy;
      hide Valid, Buffer, Unread, TagReady, Stepped, Stuck, Apart;
      var literal := AtLiteral();
      fast := false;
      if literal {
        ok, fast := StepLiteral(w);
      } else {
        ok := StepCopy(w);
      }
    }

    method AtLiteral() returns (literal: bool)
      requires Valid() && TagReady()
      ensures literal <==> Buffer()[ip] % 4 == LITERAL
    {
      literal := Buffer()[ip] % 4 == LITERAL;
    }

    method MaybeRefillFor(ghost w: AnyWriter, ghost limit: nat) returns (ok: bool)
      requires Valid() && !eof && w.Valid() && Apart(w)
      modifies this, scratch, reader
      ensures reader.Valid() && Still(w)
      ensures ok ==> Valid() && !eof && TagReady() && Unread() == old(Unread())
      ensures !ok ==> Decode(old(Unread()), old(w.Out()), limit) == if eof then Some(old(w.Out())) else None
    {
      hide AnyWriter.Valid, AnyWriter.Out, AnyWriter.Limit, AnyWriter.Roomy;
      hide Valid, Buffer, Unread, TagReady, Decode;
      ghost var u := Unread();
      ok := MaybeRefill();
      if !ok { NoTag(u, w.Out(), limit); }
    }
  }

  /** One item was taken off u and, if there was room, applied to out. */
  ghost predicate Stepped(u: seq<Byte>, out: seq<Byte>, u': seq<Byte>, out': seq<Byte>, limit: nat, roomy: bool) {
    u != [] && ParseItem(u).Some? &&
    var p := ParseItem(u).value;
    u' == u[p.size..] && (roomy ==> Apply(p.item, out, limit) == Some(out'))
  }

  /** The next item is cut off or cannot be applied. */
  ghost predicate Stuck(u: seq<Byte>, out: seq<Byte>, limit: nat) {
    u != [] && (ParseItem(u) == None || Apply(ParseItem(u).value.item, out, limit) == None)
  }

  /** The input ends here, or in the middle of an item. */
  lemma NoTag(u: seq<Byte>, out: seq<Byte>, limit: nat)
    ensures u == [] ==> Decode(u, out, limit) == Some(out)
    ensures u != [] && |u| < 1 + ExtraBytes(u[0]) ==> Decode(u, out, limit) == None
  {
  }

  lemma SteppedDecodes(u: seq<Byte>, out: seq<Byte>, u': seq<Byte>, out': seq<Byte>, limit: nat, roomy: bool)
    requires Stepped(u, out, u', out', limit, roomy)
    ensures |u'| < |u| && (roomy ==> Decode(u, out, limit) == Decode(u', out', limit))
  {
  }

  lemma StuckDecodes(u: seq<Byte>, out: seq<Byte>, limit: nat)
    requires Stuck(u, out, limit)
    ensures Decode(u, out, limit) == None
  {
  }

  lemma FastLiteral(u: seq<Byte>, length: nat, out: seq<Byte>, out': seq<Byte>, limit: nat, roomy: bool)
    requires u != [] && u[0] % 4 == LITERAL && length == u[0] / 4 + 1 <= 16 && length <= |u[1..]|
    requires Apply(Literal(u[1..][..length]), out, limit) == Some(out')
    ensures Stepped(u, out, u[1..][length..], out', limit, roomy)
  {
    assert u[1..1 + length] == u[1..][..length];
  }

  /** The general case, in terms of what is left of u after the tag and the k bytes that follow it. */
  lemma SlowLiteral(u: seq<Byte>, length: nat, out: seq<Byte>, limit: nat, roomy: bool)
    requires u != [] && u[0] % 4 == LITERAL && ExtraBytes(u[0]) <= |u[1..]|
    requires length == if u[0] / 4 < 60 then u[0] / 4 + 1 else Word32(FromLE(u[1..][..ExtraBytes(u[0])]) + 1)
    ensures var rest := u[1..][ExtraBytes(u[0])..];
            if length <= |rest| && |out| + length <= limit
            then Stepped(u, out, rest[length..], out + rest[..length], limit, roomy)
            else Stuck(u, out, limit)
    ensures u[1..] == u[1..][0..]
  {
    hide ParseItem, ExtraBytes;
    var k := ExtraBytes(u[0]);
    var rest := u[1..][k..];
    LiteralAhead(u, length);
    if length <= |rest| {
      assert rest[length..] == u[1 + k + length..];
    }
  }

  lemma LiteralAhead(u: seq<Byte>, length: nat)
    requires u != [] && u[0] % 4 == LITERAL && ExtraBytes(u[0]) <= |u[1..]|
    requires length == if u[0] / 4 < 60 then u[0] / 4 + 1 else Word32(FromLE(u[1..][..ExtraBytes(u[0])]) + 1)
    ensures var k := ExtraBytes(u[0]);
            var rest := u[1..][k..];
            ParseItem(u) ==
            if length <= |rest| then Some(Parsed(Literal(rest[..length]), 1 + k + length)) else None
  {
    var k := ExtraBytes(u[0]);
    var rest := u[1..][k..];
    assert u[1..1 + k] == u[1..][..k];
    if length <= |rest| {
      assert rest[..length] == u[1 + k..1 + k + length];
    }
  }

  lemma CopyItem(u: seq<Byte>, offset: nat, length: nat)
    requires u != [] && u[0] % 4 != LITERAL && ExtraBytes(u[0]) <= |u[1..]|
    requires offset == 0x100 * TagOffset(u[0]) + FromLE(u[1..][..ExtraBytes(u[0])]) && length == TagLength(u[0])
    ensures ParseItem(u) == Some(Parsed(Copy(offset, length), 1 + ExtraBytes(u[0])))
    ensures u[1 + ExtraBytes(u[0])..] == u[1..][ExtraBytes(u[0])..]
  {
    assert u[1..1 + ExtraBytes(u[0])] == u[1..][..ExtraBytes(u[0])];
  }

  lemma EntryFields(c: Byte)
    ensures Entry(c) / 0x800 == ExtraBytes(c)
    ensures Entry(c) % 0x100 == TagLength(c)
    ensures Entry(c) / 0x100 % 8 * 0x100 == 0x100 * TagOffset(c)
  {
  }
}

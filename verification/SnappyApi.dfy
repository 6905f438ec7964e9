/** The calls a client makes, and what they promise together. */
module SnappyApi {
  import opened Bytes
  import opened SnappyFormat
  import opened SnappySource
  import opened SnappyWriters
  import opened SnappyIOVec
  import opened SnappyScattered
  import opened SnappyDecompress
  import opened SnappyCompress

  // ----- The length in front -----

  /** A digit with its top bit set goes in front of what the rest reads as. */
  lemma ParseDigit(s: seq<Byte>, bound: nat, n: nat)
    requires s != [] && n > 0 && s[0] >= 0x80 && bound % 0x80 == 0
    ensures ParseVarint(s, bound, n) ==
            match ParseVarint(s[1..], bound / 0x80, n - 1)
            case None => None
            case Some(m) => Some(Num(s[0] - 0x80 + 0x80 * m.value, m.size + 1))
  {
    assert (bound + 0x7f) / 0x80 == bound / 0x80;
  }

  /** k digits are read, worth v; s is left, whose digits count from 2^(7k). */
  ghost function Continued(k: nat, v: nat, s: seq<Byte>): Option<Num>
    requires k <= 5
  {
    match ParseVarint(s, Bound(k), 5 - k)
    case None => None
    case Some(m) => Some(Num(v + Scale(k) * m.value, k + m.size))
  }

  function Scale(k: nat): nat {
    if k == 0 then 1 else if k == 1 then 0x80 else if k == 2 then 0x4000 else if k == 3 then 0x20_0000
    else 0x1000_0000
  }

  function Bound(k: nat): nat {
    if k == 0 then POW32 else if k == 1 then 0x200_0000 else if k == 2 then 0x4_0000 else if k == 3 then 0x800
    else 0x10
  }

  lemma ContinuedStep(k: nat, v: nat, s: seq<Byte>)
    requires k < 5 && s != []
    ensures s[0] >= 0x80 ==>
              Continued(k, v, s) == if k == 4 then None else Continued(k + 1, v + Scale(k) * (s[0] - 0x80), s[1..])
    ensures s[0] < 0x80 ==>
              Continued(k, v, s) == if s[0] < Bound(k) then Some(Num(v + Scale(k) * s[0], k + 1)) else None
  {
    if s[0] >= 0x80 {
      if k < 4 {
        ParseDigit(s, Bound(k), 5 - k);
      } else {
        assert ParseVarint(s[1..], (Bound(4) + 0x7f) / 0x80, 0) == None;
      }
    }
  }

  /** k digits of the whole input are read, worth v, and rest is left. */
  ghost predicate Reading(all: seq<Byte>, rest: seq<Byte>, k: nat, v: nat) {
    k <= |all| && rest == all[k..] && k <= 5 && Parse32(all) == if k < 5 then Continued(k, v, rest) else None
  }

  lemma StartsReading(all: seq<Byte>)
    ensures Reading(all, all, 0, 0)
  {
    assert all[0..] == all;
  }

  lemma ReadTooMuch(all: seq<Byte>, rest: seq<Byte>, v: nat)
    requires Reading(all, rest, 5, v)
    ensures Parse32(all) == None
  {
  }

  /** What the next digit decides. */
  lemma DigitRead(all: seq<Byte>, rest: seq<Byte>, k: nat, v: nat)
    requires k < 5 && Reading(all, rest, k, v)
    ensures if rest == [] then Parse32(all) == None
            else
              var val := rest[0] % 0x80;
              if val >= Bound(k) && k == 4 then Parse32(all) == None
              else if rest[0] < 0x80 then
                Parse32(all) == Some(Num(v + Scale(k) * val, k + 1)) && rest[1..] == all[k + 1..]
              else Reading(all, rest[1..], k + 1, v + Scale(k) * val)
  {
    if rest != [] {
      assert rest[1..] == all[k + 1..];
      ContinuedStep(k, v, rest);
      hide Continued;
    }
  }

  lemma NothingDropped(regions: seq<seq<Byte>>)
    ensures Dropped(regions, 0) == regions
  {
  }

  /** Reads the length a byte at a time. shift is 7k; a digit must survive being shifted up and down again. */
  method ReadUncompressedLength(reader: Source) returns (ok: bool, result: nat)
    requires reader.Valid()
    modifies reader
    ensures reader.Valid()
    ensures ok <==> Parse32(old(reader.Rest())).Some?
    ensures ok ==> var n := Parse32(old(reader.Rest())).value;
                   && result == n.value && reader.Rest() == old(reader.Rest())[n.size..]
                   && reader.regions == Dropped(old(reader.regions), n.size)
  {
    result := 0;
    var k := 0;
    ghost var all := reader.Rest();
    StartsReading(all);
    hide Reading, Parse32, Scale, Bound, Dropped;
    ghost var regions := reader.regions;
    NothingDropped(regions);
    while k < 5  // shift < 32
      invariant 0 <= k <= 5 && reader.Valid() && Reading(all, reader.Rest(), k, result)
      invariant reader.regions == Dropped(regions, k)
    {
      DigitRead(all, reader.Rest(), k, result);
      var region := reader.Peek();
      if |region| == 0 { return false, 0; }
      var c := region[0];
      reader.Skip(1);
      DroppedAgain(regions, k, 1);
      var val := c % 0x80;
      if val >= Bound(k) && k == 4 { return false, 0; }
      result := result + Scale(k) * val;
      if c < 0x80 { return true, result; }
      k := k + 1;
    }
    ReadTooMuch(all, reader.Rest(), result);
    ok := false;
  }

  /** The same from one flat buffer: four digits of any value, a fifth below 16. */
  method Parse32WithLimit(s: seq<Byte>) returns (ok: bool, value: nat, size: nat)
    ensures ok <==> Parse32(s).Some?
    ensures ok ==> Parse32(s) == Some(Num(value, size))
  {
    value, size := 0, 0;
    StartsReading(s);
    hide Continued, Parse32;
    while size < 4
      invariant 0 <= size <= 4 && size <= |s| && Reading(s, s[size..], size, value)
    {
      DigitRead(s, s[size..], size, value);
      if size >= |s| { return false, 0, 0; }
      var b := s[size];
      value := value + Scale(size) * (b % 0x80);
      size := size + 1;
      if b < 0x80 { return true, value, size; }
    }
    DigitRead(s, s[size..], size, value);
    if size >= |s| { return false, 0, 0; }
    var b := s[size];
    if b >= 0x10 { return false, 0, 0; }
    return true, value + Scale(4) * b, 5;
  }

  // ----- Decompression -----

  /** After the length, every region is short enough for the decompressor's 32-bit counts. */
  ghost predicate Countable(regions: seq<seq<Byte>>) {
    var n := Parse32(Flatten(regions));
    n.Some? ==> AllSmall(Dropped(regions, n.value.size))
  }

  /** That is just what it takes: if a region is longer, then however the decompressor goes on in its source after the
      length, it never comes to the end, and so never succeeds. */
  lemma UncountableNeverEnds(regions: seq<seq<Byte>>, run: seq<Held>, k: nat)
    requires !Countable(regions) && NoneEmpty(regions)
    requires k < |run| && run[0] == Held(Dropped(regions, Parse32(Flatten(regions)).value.size), 0)
    requires forall i, j :: 0 <= i && j == i + 1 && j < |run| ==> Uses(run[i], run[j])
    ensures run[k].regions != []
  {
    hide Parse32, Uses, NoneEmpty;
    NoneEmptyDropped(regions, Parse32(Flatten(regions)).value.size);
    HugeNeverPassed(run, k);
  }

  /** Decompresses whatever the source holds. The verdict and the bytes depend on nothing but the bytes of the source:
      not on how they are cut into countable regions, and not on which writer takes the output, except that buffers
      that are too small for it refuse it. */
  method InternalUncompress(reader: Source, w: AnyWriter) returns (ok: bool)
    requires reader.Valid() && Countable(reader.regions) && reader !in w.Footprint()
    requires Parse32(reader.Rest()).Some? ==> w.CanExpect(Parse32(reader.Rest()).value.value)
    modifies reader, w.Footprint()
    ensures ok <==> var r := Uncompressed(old(reader.Rest())); r.Some? && w.Holds(|r.value|)
    ensures ok ==> w.Valid() && Uncompressed(old(reader.Rest())) == Some(w.Out())
    ensures fresh(w.Footprint() - old(w.Footprint()))
  {
    hide Decode, Parse32, Dropped, AnyWriter.Valid, AnyWriter.Out, AnyWriter.Limit, AnyWriter.CanExpect,
         AnyWriter.Roomy;
    var decompressor := new SnappyDecompressor(reader);
    var length;
    ok, length := ReadUncompressedLength(reader);
    if !ok { return; }
    assert decompressor.Unread() == reader.Rest();
    ok := InternalUncompressAllTags(decompressor, w, length);
  }

  method InternalUncompressAllTags(d: SnappyDecompressor, w: AnyWriter, length: nat) returns (ok: bool)
    requires d.Valid() && !d.eof && d.Apart(w) && w.CanExpect(length)
    modifies d, d.scratch, d.reader, w.Footprint()
    ensures ok <==> var r := Decode(old(d.Unread()), [], length); r.Some? && |r.value| == length && w.Holds(length)
    ensures ok ==> w.Valid() && Decode(old(d.Unread()), [], length) == Some(w.Out())
    ensures fresh(w.Footprint() - old(w.Footprint()))
  {
    hide Decode, AnyWriter.Valid, AnyWriter.Out, AnyWriter.Limit, AnyWriter.CanExpect, AnyWriter.Roomy;
    w.SetExpectedLength(length);
    d.DecompressAllTags(w);
    ok := d.eof;
    if ok {
      ok := w.CheckLength();
    }
  }

  method RawUncompress(reader: Source, mem: array<Byte>, base: nat) returns (ok: bool, produced: nat)
    requires reader.Valid() && Countable(reader.regions) && base <= mem.Length < POW64
    requires Parse32(reader.Rest()).Some? ==> base + Parse32(reader.Rest()).value.value <= mem.Length
    modifies reader, mem
    ensures ok <==> Uncompressed(old(reader.Rest())).Some?
    ensures ok ==> base + produced <= mem.Length && Uncompressed(old(reader.Rest())) == Some(mem[base..base + produced])
  {
    var a := new SnappyArrayWriter(mem, base);
    var w := Flat(a);
    ok := InternalUncompress(reader, w);
    produced := if ok then a.op - base else 0;
  }

  /** Buffers that hold less than the bytes stand for make it fail, whatever was written to them. */
  method RawUncompressToIOVec(reader: Source, iov: seq<array<Byte>>) returns (ok: bool, ghost out: seq<Byte>)
    requires reader.Valid() && Countable(reader.regions) && |iov| > 0
    requires forall i, j | 0 <= i < j < |iov| :: iov[i] != iov[j]
    modifies reader, iov
    ensures ok <==> var r := Uncompressed(old(reader.Rest())); r.Some? && |r.value| <= Start(iov, |iov|)
    ensures ok ==> Uncompressed(old(reader.Rest())) == Some(out)
    ensures ok ==> forall i, o {:trigger iov[i][o]} |
                     0 <= i < |iov| && 0 <= o < iov[i].Length && Start(iov, i) + o < |out| ::
                     iov[i][o] == out[Start(iov, i) + o]
  {
    hide AnyWriter.Valid, AnyWriter.Out, SnappyIOVecWriter.Valid, Uncompressed, Countable;
    var v := new SnappyIOVecWriter(iov);
    var w := IOVec(v);
    ok := InternalUncompress(reader, w);
    out := v.out;
    if ok {
      IsIOVec(w);
      v.HoldsOut();
    }
  }

  lemma IsIOVec(w: AnyWriter)
    requires w.IOVec? && w.Valid()
    ensures w.v.Valid() && w.Out() == w.v.out
  {
  }

  method IsValidCompressed(reader: Source) returns (ok: bool)
    requires reader.Valid() && Countable(reader.regions)
    modifies reader
    ensures ok <==> Uncompressed(old(reader.Rest())).Some?
  {
    var d := new SnappyDecompressionValidator();
    ok := InternalUncompress(reader, Validator(d));
  }

  /** Decompression to a sink that offers no flat buffer: block by block, flushed at the end. */
  method UncompressToSink(reader: Source) returns (ok: bool, sink: seq<Byte>)
    requires reader.Valid() && Countable(reader.regions)
    modifies reader
    ensures ok <==> Uncompressed(old(reader.Rest())).Some?
    ensures ok ==> Uncompressed(old(reader.Rest())) == Some(sink)
  {
    var s := new SnappyScatteredWriter();
    var w := Scattered(s);
    ok := InternalUncompress(reader, w);
    sink := [];
    if ok {
      sink := s.Flush();
    }
  }

  // ----- The round trip -----

  /** Compress with any hash, cut the result into countable regions anyhow, decompress into any writer with room: what
      comes back is what went in. The compressed form keeps within the bound that sized its buffer. */
  method RoundTrip(input: Source, mem: array<Byte>, hash: (nat, nat) -> nat, cut: seq<Byte> -> seq<seq<Byte>>,
                   w: AnyWriter)
    returns (written: nat)
    requires input.Valid() && HashFamily(hash) && mem.Length >= MaxCompressedLength(|input.Rest()|)
    requires |input.Rest()| < POW32 && w.CanExpect(|input.Rest()|) && w.Holds(|input.Rest()|)
    requires input !in w.Footprint() && mem !in w.Footprint()
    requires forall s :: Flatten(cut(s)) == s
    requires forall s :: NoneEmpty(cut(s)) && Countable(cut(s))
    modifies input, mem, w.Footprint()
    ensures var n := |old(input.Rest())|; written <= 32 + n + n / 6
    ensures w.Valid() && w.Out() == old(input.Rest())
  {
    hide Decode, AnyWriter.Valid, AnyWriter.Out, AnyWriter.Limit, AnyWriter.CanExpect;
    written := Compress(input, mem, hash);
    var again := new Source(cut(mem[..written]));
    LengthInFront(mem[..written]);
    var ok := InternalUncompress(again, w);
  }

  lemma LengthInFront(s: seq<Byte>)
    requires Uncompressed(s).Some?
    ensures Parse32(s).Some? && Parse32(s).value.value == |Uncompressed(s).value|
  {
  }
}

/** The Snappy stream: what a compressed buffer means, stated over a flat byte sequence.
    Compressor, decompressor and writers are all proved against this reading. */
module SnappyFormat {
  import opened Bytes

  const LITERAL := 0
  const COPY_1_BYTE_OFFSET := 1
  const COPY_2_BYTE_OFFSET := 2
  const BLOCK_SIZE := 0x10000
  const MAX_TAG_LENGTH := 5

  // ----- Copies that may overlap their own output -----

  /** out followed by len bytes, each the byte `offset` places before it. */
  function CopyWithin(out: seq<Byte>, offset: nat, len: nat): (r: seq<Byte>)
    requires 0 < offset <= |out|
    ensures |r| == |out| + len
    ensures out <= r
    decreases len
  {
    if len == 0 then out else CopyWithin(out + [out[|out| - offset]], offset, len - 1)
  }

  /** r[n..] repeats what stands `offset` places earlier. */
  ghost predicate Periodic(r: seq<Byte>, n: nat, offset: nat)
    requires 0 < offset <= n
  {
    forall i {:trigger r[i]} | n <= i < |r| :: r[i] == r[i - offset]
  }

  /** Being the periodic extension characterises CopyWithin. */
  lemma {:induction false} CopyWithinIsPeriodic(out: seq<Byte>, offset: nat, r: seq<Byte>)
    requires 0 < offset <= |out| <= |r|
    ensures r == CopyWithin(out, offset, |r| - |out|) <==> out <= r && Periodic(r, |out|, offset)
    decreases |r| - |out|
  {
    if |r| > |out| {
      var next := out + [out[|out| - offset]];
      CopyWithinIsPeriodic(next, offset, r);
      if out <= r && Periodic(r, |out|, offset) {
        assert r[|out|] == r[|out| - offset];
        assert next <= r;
      }
      if r == CopyWithin(next, offset, |r| - |next|) {
        forall i | |out| <= i < |r|
          ensures r[i] == r[i - offset]
        {
          if i == |out| {
            assert next[i] == r[i] && out[i - offset] == r[i - offset];
          }
        }
      }
    }
  }

  lemma {:induction false} CopyWithinTwice(out: seq<Byte>, offset: nat, a: nat, b: nat)
    requires 0 < offset <= |out|
    ensures CopyWithin(CopyWithin(out, offset, a), offset, b) == CopyWithin(out, offset, a + b)
    decreases a
  {
    if a > 0 {
      CopyWithinTwice(out + [out[|out| - offset]], offset, a - 1, b);
    }
  }

  // ----- Tags -----

  // A tag byte holds a kind in its two low bits. The other six hold, by kind: a literal's length less one (or,
  // from 60 on, how many bytes hold it); three bits of length and three of offset; or a copy's length less one.

  function TagLength(c: Byte): (n: nat)
    ensures 1 <= n <= 64
  {
    if c % 4 == LITERAL then if c / 4 < 60 then c / 4 + 1 else 1
    else if c % 4 == COPY_1_BYTE_OFFSET then 4 + c / 4 % 8
    else c / 4 + 1
  }

  function TagOffset(c: Byte): (n: nat)
    ensures n < 8
  {
    if c % 4 == COPY_1_BYTE_OFFSET then c / 32 else 0
  }

  function ExtraBytes(c: Byte): (n: nat)
    ensures n <= 4
  {
    if c % 4 == LITERAL then if c / 4 < 60 then 0 else c / 4 - 59
    else if c % 4 == COPY_1_BYTE_OFFSET then 1
    else if c % 4 == COPY_2_BYTE_OFFSET then 2
    else 4
  }

  datatype Item = Literal(bytes: seq<Byte>) | Copy(offset: nat, len: nat)
  datatype Parsed = Parsed(item: Item, size: nat)

  /** The first item of s: a tag byte, its extra bytes and, for a literal, the bytes themselves. A length is counted in
      32 bits, so the longest there is to write stands for no bytes at all. */
  function ParseItem(s: seq<Byte>): (r: Option<Parsed>)
    requires s != []
    ensures r.Some? ==> 0 < r.value.size <= |s|
  {
    var c := s[0];
    var extra := ExtraBytes(c);
    if |s| < 1 + extra then None
    else
      var trailer := FromLE(s[1..1 + extra]);
      if c % 4 == LITERAL then
        var len := if extra == 0 then TagLength(c) else Word32(trailer + 1);
        if |s| < 1 + extra + len then None
        else Some(Parsed(Literal(s[1 + extra..1 + extra + len]), 1 + extra + len))
      else
        Some(Parsed(Copy(0x100 * TagOffset(c) + trailer, TagLength(c)), 1 + extra))
  }

  function Apply(item: Item, out: seq<Byte>, limit: nat): (r: Option<seq<Byte>>)
    ensures r.Some? ==> out <= r.value && |r.value| <= limit
  {
    match item
    case Literal(b) => if |out| + |b| <= limit then Some(out + b) else None
    case Copy(offset, len) =>
      if 0 < offset <= |out| && |out| + len <= limit then Some(CopyWithin(out, offset, len)) else None
  }

  /** Applies every item of s to out; None as soon as one is cut off, reaches before the start or overflows. */
  function Decode(s: seq<Byte>, out: seq<Byte>, limit: nat): (r: Option<seq<Byte>>)
    ensures r.Some? ==> out <= r.value
    decreases |s|
  {
    if s == [] then Some(out)
    else
      match ParseItem(s)
      case None => None
      case Some(p) =>
        match Apply(p.item, out, limit)
        case None => None
        case Some(o) => Decode(s[p.size..], o, limit)
  }

  /** The meaning of a whole compressed buffer: a length, then items that produce exactly that many bytes. */
  function Uncompressed(s: seq<Byte>): (r: Option<seq<Byte>>)
  {
    match Parse32(s)
    case None => None
    case Some(n) =>
      match Decode(s[n.size..], [], n.value)
      case None => None
      case Some(o) => if |o| == n.value then Some(o) else None
  }

  // ----- Encoded items -----

  /** Whatever follows, reading `bytes` turns the output `before` into `after`. */
  ghost predicate Emits(bytes: seq<Byte>, before: seq<Byte>, after: seq<Byte>) {
    forall rest, limit: nat {:trigger Decode(bytes + rest, before, limit)} ::
      |after| <= limit ==> Decode(bytes + rest, before, limit) == Decode(rest, after, limit)
  }

  lemma EmitsNothing(out: seq<Byte>)
    ensures Emits([], out, out)
  {
    forall rest, limit: nat
      ensures Decode([] + rest, out, limit) == Decode(rest, out, limit)
    {
      assert [] + rest == rest;
    }
  }

  lemma EmitsThenEmits(a: seq<Byte>, b: seq<Byte>, x: seq<Byte>, y: seq<Byte>, z: seq<Byte>)
    requires Emits(a, x, y) && Emits(b, y, z) && |y| <= |z|
    ensures Emits(a + b, x, z)
  {
    forall rest, limit: nat | |z| <= limit
      ensures Decode(a + b + rest, x, limit) == Decode(rest, z, limit)
    {
      assert a + b + rest == a + (b + rest);
      assert Decode(a + (b + rest), x, limit) == Decode(b + rest, y, limit);
    }
  }

  /** One parsed item that applies is one emission. */
  lemma OneItemEmits(bytes: seq<Byte>, item: Item, before: seq<Byte>, after: seq<Byte>)
    requires bytes != []
    requires forall rest :: ParseItem(bytes + rest) == Some(Parsed(item, |bytes|))
    requires Apply(item, before, |after|) == Some(after)
    ensures Emits(bytes, before, after)
  {
    forall rest, limit: nat | |after| <= limit
      ensures Decode(bytes + rest, before, limit) == Decode(rest, after, limit)
    {
      assert ParseItem(bytes + rest) == Some(Parsed(item, |bytes|));
      assert (bytes + rest)[|bytes|..] == rest;
      assert Apply(item, before, limit) == Some(after);
    }
  }

  /** How many bytes hold n, at least one. */
  function ByteCount(n: nat): (k: nat)
    ensures k > 0 && n < Span(k)
    ensures n < 0x1_0000_0000 ==> k <= 4
    ensures n < 0x10000 ==> k <= 2
    ensures n < 0x100 ==> k == 1
  {
    if n < 0x100 then 1 else 1 + ByteCount(n / 0x100)
  }

  /** A literal as EmitLiteral writes it. */
  function LiteralBytes(b: seq<Byte>): (s: seq<Byte>)
    requires 0 < |b| < POW32
    ensures s != []
  {
    var n := |b| - 1;
    if n < 60 then [LITERAL + 4 * n] + b
    else [LITERAL + 4 * (59 + ByteCount(n))] + LE(ByteCount(n), n) + b
  }

  lemma LiteralEmits(b: seq<Byte>, out: seq<Byte>)
    requires 0 < |b| < POW32
    ensures Emits(LiteralBytes(b), out, out + b)
  {
    hide ParseItem, LiteralBytes, Emits;
    forall rest
      ensures ParseItem(LiteralBytes(b) + rest) == Some(Parsed(Literal(b), |LiteralBytes(b)|))
    {
      if |b| <= 60 {
        ShortLiteralParses(b, rest);
      } else {
        LongLiteralParses(b, rest);
      }
    }
    OneItemEmits(LiteralBytes(b), Literal(b), out, out + b);
  }

  lemma ShortLiteralParses(b: seq<Byte>, rest: seq<Byte>)
    requires 0 < |b| <= 60
    ensures ParseItem(LiteralBytes(b) + rest) == Some(Parsed(Literal(b), |LiteralBytes(b)|))
  {
    var s := LiteralBytes(b) + rest;
    assert s[1..1 + |b|] == b;
  }

  lemma LongTag(k: nat)
    requires 0 < k <= 4
    ensures var c := LITERAL + 4 * (59 + k); c < 0x100 && c % 4 == LITERAL && ExtraBytes(c) == k
  {
  }

  lemma LongLiteralParses(b: seq<Byte>, rest: seq<Byte>)
    requires 60 < |b| < POW32
    ensures ParseItem(LiteralBytes(b) + rest) == Some(Parsed(Literal(b), |LiteralBytes(b)|))
  {
    hide ExtraBytes, TagLength, TagOffset, LE, FromLE, ByteCount;
    var n := |b| - 1;
    var k := ByteCount(n);
    LongTag(k);
    var s := LiteralBytes(b) + rest;
    assert s[1..1 + k] == LE(k, n);
    LERoundTrip(k, n);
    assert s[1 + k..1 + k + |b|] == b;
  }

  const EMPTY_LONG_LITERAL: seq<Byte> := [0xfc, 0xff, 0xff, 0xff, 0xff]

  /** A literal of 2^32 bytes cannot be said: its tag is that of an empty one, and may stand anywhere between items. */
  lemma EmptyLongLiteral(out: seq<Byte>)
    ensures Emits(EMPTY_LONG_LITERAL, out, out)
    ensures Uncompressed([0] + EMPTY_LONG_LITERAL) == Some([])
  {
    AllOnes();
    forall rest
      ensures ParseItem(EMPTY_LONG_LITERAL + rest) == Some(Parsed(Literal([]), |EMPTY_LONG_LITERAL|))
    {
      var s := EMPTY_LONG_LITERAL + rest;
      assert s[1..5] == EMPTY_LONG_LITERAL[1..];
      assert s[5..5] == [];
    }
    assert out + [] == out;
    OneItemEmits(EMPTY_LONG_LITERAL, Literal([]), out, out);
    OneItemEmits(EMPTY_LONG_LITERAL, Literal([]), [], []);
    var s := [0] + EMPTY_LONG_LITERAL;
    assert s[1..] == EMPTY_LONG_LITERAL + [];
    assert Decode(EMPTY_LONG_LITERAL + [], [], 0) == Decode([], [], 0);
  }

  lemma AllOnes()
    ensures FromLE([0xff, 0xff, 0xff, 0xff]) == POW32 - 1
  {
    var s: seq<Byte> := [0xff, 0xff, 0xff, 0xff];
    assert s[1..] == [0xff, 0xff, 0xff] && s[1..][1..] == [0xff, 0xff] && s[1..][1..][1..] == [0xff];
    assert s[1..][1..][1..][1..] == [];
    assert FromLE([0xff]) == 0xff;
    assert FromLE([0xff, 0xff]) == 0xffff;
    assert FromLE([0xff, 0xff, 0xff]) == 0xff_ffff;
  }

  /** A copy of at most 64 bytes as EmitCopyAtMost64 writes it. */
  function ShortCopyBytes(offset: nat, len: nat): (s: seq<Byte>)
    requires 4 <= len <= 64 && offset < 0x10000
    ensures 2 <= |s| <= 3
  {
    if len < 12 && offset < 2048 then
      [COPY_1_BYTE_OFFSET + 4 * (len - 4) + 32 * (offset / 0x100), offset % 0x100]
    else
      [COPY_2_BYTE_OFFSET + 4 * (len - 1)] + LE(2, offset)
  }

  lemma ShortCopyParses(offset: nat, len: nat, rest: seq<Byte>)
    requires 4 <= len <= 64 && offset < 0x10000
    ensures var bytes := ShortCopyBytes(offset, len);
            ParseItem(bytes + rest) == Some(Parsed(Copy(offset, len), |bytes|))
  {
    if len < 12 && offset < 2048 {
      TwoByteCopyParses(offset, len, rest);
    } else {
      ThreeByteCopyParses(offset, len, rest);
    }
  }

  lemma TwoByteTag(high: nat, len: nat)
    requires 4 <= len < 12 && high < 8
    ensures var c := COPY_1_BYTE_OFFSET + 4 * (len - 4) + 32 * high;
            && c < 0x100 && c % 4 == COPY_1_BYTE_OFFSET
            && TagLength(c) == len && TagOffset(c) == high && ExtraBytes(c) == 1
  {
    var c := COPY_1_BYTE_OFFSET + 4 * (len - 4) + 32 * high;
    assert c % 4 == 1 && c / 4 == len - 4 + 8 * high && c / 32 == high;
  }

  lemma TwoByteCopyParses(offset: nat, len: nat, rest: seq<Byte>)
    requires 4 <= len < 12 && offset < 2048
    ensures ParseItem(ShortCopyBytes(offset, len) + rest) == Some(Parsed(Copy(offset, len), 2))
  {
    hide TagLength, TagOffset, ExtraBytes;
    var s := ShortCopyBytes(offset, len) + rest;
    TwoByteTag(offset / 0x100, len);
    assert s[1..2] == [offset % 0x100] && s[1..2][1..] == [];
    assert FromLE(s[1..2]) == offset % 0x100;
  }

  lemma ThreeByteCopyParses(offset: nat, len: nat, rest: seq<Byte>)
    requires 4 <= len <= 64 && offset < 0x10000 && !(len < 12 && offset < 2048)
    ensures ParseItem(ShortCopyBytes(offset, len) + rest) == Some(Parsed(Copy(offset, len), 3))
  {
    var c := COPY_2_BYTE_OFFSET + 4 * (len - 1);
    assert c % 4 == 2 && c / 4 == len - 1;
    assert TagLength(c) == len && TagOffset(c) == 0 && ExtraBytes(c) == 2;
    hide TagLength, TagOffset, ExtraBytes, LE, FromLE;
    var s := ShortCopyBytes(offset, len) + rest;
    assert s[1..3] == LE(2, offset);
    assert offset < Span(2) by { assert Span(1) == 0x100; }
    LERoundTrip(2, offset);
  }

  lemma ShortCopyEmits(offset: nat, len: nat, out: seq<Byte>)
    requires 4 <= len <= 64 && 0 < offset < 0x10000 && offset <= |out|
    ensures Emits(ShortCopyBytes(offset, len), out, CopyWithin(out, offset, len))
  {
    var bytes := ShortCopyBytes(offset, len);
    forall rest
      ensures ParseItem(bytes + rest) == Some(Parsed(Copy(offset, len), |bytes|))
    {
      ShortCopyParses(offset, len, rest);
    }
    OneItemEmits(bytes, Copy(offset, len), out, CopyWithin(out, offset, len));
  }

  /** A copy of any length: 64 at a time while at least 68 remain, then perhaps 60, then the rest. */
  function CopyBytes(offset: nat, len: nat): (s: seq<Byte>)
    requires 4 <= len && offset < 0x10000
    ensures |s| >= 2
  {
    if len >= 68 then ShortCopyBytes(offset, 64) + CopyBytes(offset, len - 64)
    else if len > 64 then ShortCopyBytes(offset, 60) + CopyBytes(offset, len - 60)
    else ShortCopyBytes(offset, len)
  }

  lemma {:induction false} CopyEmits(offset: nat, len: nat, out: seq<Byte>)
    requires 4 <= len && 0 < offset < 0x10000 && offset <= |out|
    ensures Emits(CopyBytes(offset, len), out, CopyWithin(out, offset, len))
    decreases len
  {
    hide Emits, Decode, ShortCopyBytes, CopyWithin;
    if len > 64 {
      var k := if len >= 68 then 64 else 60;
      var mid := CopyWithin(out, offset, k);
      ShortCopyEmits(offset, k, out);
      CopyEmits(offset, len - k, mid);
      CopyWithinTwice(out, offset, k, len - k);
      EmitsThenEmits(ShortCopyBytes(offset, k), CopyBytes(offset, len - k), out, mid, CopyWithin(out, offset, len));
    } else {
      ShortCopyEmits(offset, len, out);
    }
  }

  /** A match found in the text is what the copy writes back. */
  lemma CopyOfMatch(text: seq<Byte>, base: nat, offset: nat, len: nat)
    requires 0 < offset <= base && base + len <= |text|
    requires text[base..base + len] == text[base - offset..base - offset + len]
    ensures CopyWithin(text[..base], offset, len) == text[..base + len]
  {
    hide CopyWithin;
    var r := text[..base + len];
    var x, y := text[base..base + len], text[base - offset..base - offset + len];
    forall i | base <= i < |r|
      ensures r[i] == r[i - offset]
    {
      assert x[i - base] == text[i] && y[i - base] == text[i - offset];
    }
    assert text[..base] == r[..base];
    CopyWithinIsPeriodic(text[..base], offset, r);
  }
}

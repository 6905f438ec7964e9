/** Writing tags into the output buffer. Some stores are longer than the bytes they mean to leave; the buffer must
    have room for them. */
module SnappyEmit {
  import opened Bytes
  import opened SnappyFormat

  /** memcpy of data to dst. */
  method Store(mem: array<Byte>, dst: nat, data: seq<Byte>)
    requires dst + |data| <= mem.Length
    modifies mem
    ensures mem[..] == old(mem[..dst]) + data + old(mem[dst + |data|..])
  {
    ghost var before := mem[..];
    for i := 0 to |data|
      invariant mem[..] == before[..dst] + data[..i] + before[dst + i..]
    {
      ghost var now := mem[..];
      OneStored(before, now, dst, data[..i], data[i]);
      mem[dst + i] := data[i];
      assert mem[..] == now[dst + i := data[i]];
      assert data[..i] + [data[i]] == data[..i + 1];
    }
    assert data[..|data|] == data;
  }

  /** What the bytes of a literal's header and body leave at op. */
  ghost predicate Appended(before: seq<Byte>, after: seq<Byte>, op: nat, bytes: seq<Byte>) {
    |after| == |before| && op + |bytes| <= |after| && after[..op] == before[..op] &&
    after[op..op + |bytes|] == bytes
  }

  method EmitLiteral(mem: array<Byte>, op: nat, input: seq<Byte>, literal: nat, len: nat, allowFastPath: bool)
    returns (end: nat)
    requires 0 < len && literal + len <= |input| && len < 0x8000_0000
    requires allowFastPath ==> literal + 16 <= |input| && op + 17 <= mem.Length
    requires op + |LiteralBytes(input[literal..literal + len])| <= mem.Length
    modifies mem
    ensures Appended(old(mem[..]), mem[..], op, LiteralBytes(input[literal..literal + len]))
    ensures end == op + |LiteralBytes(input[literal..literal + len])|
  {
    if allowFastPath && len <= 16 {
      end := EmitFastLiteral(mem, op, input[literal..literal + 16], len);
      assert input[literal..literal + 16][..len] == input[literal..literal + len];
    } else {
      end := EmitSlowLiteral(mem, op, input[literal..literal + len]);
    }
  }

  /** Stores sixteen bytes to leave len of them. */
  method EmitFastLiteral(mem: array<Byte>, op: nat, sixteen: seq<Byte>, len: nat) returns (end: nat)
    requires |sixteen| == 16 && 0 < len <= 16 && op + 17 <= mem.Length
    modifies mem
    ensures Appended(old(mem[..]), mem[..], op, LiteralBytes(sixteen[..len]))
    ensures end == op + |LiteralBytes(sixteen[..len])|
  {
    ghost var before := mem[..];
    var tag := LITERAL + 4 * (len - 1);
    mem[op] := tag;
    Store(mem, op + 1, sixteen);
    end := op + 1 + len;
    assert mem[..] == before[..op] + [tag] + sixteen + before[op + 17..];
    assert mem[op..end] == [tag] + sixteen[..len];
  }

  method EmitSlowLiteral(mem: array<Byte>, op: nat, body: seq<Byte>) returns (end: nat)
    requires 0 < |body| < 0x8000_0000
    requires op + |LiteralBytes(body)| <= mem.Length
    modifies mem
    ensures Appended(old(mem[..]), mem[..], op, LiteralBytes(body))
    ensures end == op + |LiteralBytes(body)|
  {
    hide ByteCount, LE;
    ghost var before := mem[..];
    var n := |body| - 1;
    var p := op + 1;
    if n < 60 {
      mem[op] := LITERAL + 4 * n;
      assert mem[op..p] == [LITERAL + 4 * n];
    } else {
      p := EmitLength(mem, op, n);
    }
    ghost var header := mem[op..p];
    ghost var mid := mem[..];
    Store(mem, p, body);
    end := p + |body|;
    AppendedTwice(before, mid, mem[..], op, header, body);
  }

  /** The bytes still to be written of a length, lowest first. */
  ghost function Digits(n: nat): (s: seq<Byte>) {
    if n == 0 then [] else LE(ByteCount(n), n)
  }

  lemma DigitsStep(n: nat)
    requires n > 0
    ensures Digits(n) == [n % 0x100] + Digits(n / 0x100)
  {
    if n < 0x100 {
      assert LE(0, n / 0x100) == [];
    }
  }

  lemma DigitsMore(length: nat, done: seq<Byte>, n: nat)
    requires n > 0 && done + Digits(n) == Digits(length)
    ensures done + [n % 0x100] + Digits(n / 0x100) == Digits(length)
  {
    DigitsStep(n);
    hide Digits;
    assert done + [n % 0x100] + Digits(n / 0x100) == done + ([n % 0x100] + Digits(n / 0x100));
  }

  /** The tag byte of a long literal and the bytes of its length. */
  method EmitLength(mem: array<Byte>, op: nat, length: nat) returns (end: nat)
    requires 60 <= length < 0x1_0000_0000 && op + 1 + ByteCount(length) <= mem.Length
    modifies mem
    ensures end == op + 1 + ByteCount(length)
    ensures mem[..op] == old(mem[..op])
    ensures mem[op..end] == [LITERAL + 4 * (59 + ByteCount(length))] + LE(ByteCount(length), length)
  {
    hide Digits, ByteCount, LE;
    DigitsEnds(length);
    ghost var before := mem[..];
    var base, n, count := op, length, 0;
    end := op + 1;
    ghost var done: seq<Byte> := [];
    while n > 0
      invariant end == op + 1 + count && count == |done| && done + Digits(n) == Digits(length)
      invariant mem[..] == before[..op + 1] + done + before[end..]
    {
      DigitsMore(length, done, n);
      OneStored(before, mem[..], op + 1, done, n % 0x100);
      mem[end] := n % 0x100;
      end := end + 1;
      done := done + [n % 0x100];
      n := n / 0x100;
      count := count + 1;
    }
    TagStored(before, mem[..], op, done, LITERAL + 4 * (59 + count));
    mem[base] := LITERAL + 4 * (59 + count);
  }

  lemma OneStored(before: seq<Byte>, now: seq<Byte>, at: nat, done: seq<Byte>, b: Byte)
    requires at + |done| < |before| && now == before[..at] + done + before[at + |done|..]
    ensures now[at + |done| := b] == before[..at] + (done + [b]) + before[at + |done| + 1..]
  {
  }

  lemma TagStored(before: seq<Byte>, now: seq<Byte>, op: nat, done: seq<Byte>, tag: Byte)
    requires op + 1 + |done| <= |before| && now == before[..op + 1] + done + before[op + 1 + |done|..]
    ensures now[op := tag][..op] == before[..op] && now[op := tag][op..op + 1 + |done|] == [tag] + done
  {
  }

  lemma DigitsEnds(n: nat)
    requires n > 0
    ensures Digits(0) == [] && Digits(n) == LE(ByteCount(n), n)
    ensures |Digits(n)| == ByteCount(n)
    ensures n < 0x1_0000_0000 ==> |Digits(n)| <= 4
  {
  }

  /** offset & 0xff, and bits 8..10 of offset moved to the top of the tag, as the short form stores them; the long
      form stores four bytes and keeps three. */
  method EmitCopyAtMost64(mem: array<Byte>, op: nat, offset: nat, len: nat, lenLessThan12: bool) returns (end: nat)
    requires 4 <= len <= 64 && offset < 0x10000 && lenLessThan12 == (len < 12)
    requires op + 4 <= mem.Length
    modifies mem
    ensures end == op + |ShortCopyBytes(offset, len)|
    ensures Appended(old(mem[..]), mem[..], op, ShortCopyBytes(offset, len))
  {
    if lenLessThan12 && offset < 2048 {
      mem[op] := COPY_1_BYTE_OFFSET + 4 * (len - 4) + 32 * (offset / 0x100);
      mem[op + 1] := offset % 0x100;
      end := op + 2;
    } else {
      var u := COPY_2_BYTE_OFFSET + 4 * (len - 1) + 0x100 * offset;
      Store(mem, op, LE(4, u));
      StoredCopy(offset, len);
      assert mem[op..op + 3] == LE(4, u)[..3];
      end := op + 3;
    }
  }

  lemma StoredCopy(offset: nat, len: nat)
    requires 4 <= len <= 64 && offset < 0x10000
    ensures LE(4, COPY_2_BYTE_OFFSET + 4 * (len - 1) + 0x100 * offset)[..3] ==
            [COPY_2_BYTE_OFFSET + 4 * (len - 1)] + LE(2, offset)
  {
    var tag := COPY_2_BYTE_OFFSET + 4 * (len - 1);
    var u := tag + 0x100 * offset;
    assert u / 0x100 == offset && u % 0x100 == tag;
    assert LE(4, u) == [tag] + LE(3, offset);
    assert LE(3, offset) == [offset % 0x100] + LE(2, offset / 0x100);
    assert LE(2, offset / 0x100) == [offset / 0x100 % 0x100] + LE(1, offset / 0x100 / 0x100);
    assert LE(2, offset) == [offset % 0x100] + LE(1, offset / 0x100);
    assert LE(1, offset / 0x100) == [offset / 0x100 % 0x100];
  }

  method EmitCopy(mem: array<Byte>, op: nat, offset: nat, length: nat, lenLessThan12: bool) returns (end: nat)
    requires 4 <= length && offset < 0x10000 && lenLessThan12 == (length < 12)
    requires op + |CopyBytes(offset, length)| + 2 <= mem.Length
    modifies mem
    ensures end == op + |CopyBytes(offset, length)|
    ensures Appended(old(mem[..]), mem[..], op, CopyBytes(offset, length))
  {
    hide Appended, ShortCopyBytes;
    var len := length;
    if lenLessThan12 {
      end := EmitCopyAtMost64(mem, op, offset, len, true);
    } else {
      end := op;
      ghost var done := [];
      AppendedNothing(mem[..], op);
      while len >= 68
        invariant len >= 4 && end == op + |done|
        invariant Appended(old(mem[..]), mem[..], op, done)
        invariant done + CopyBytes(offset, len) == CopyBytes(offset, length)
      {
        assert done + ShortCopyBytes(offset, 64) + CopyBytes(offset, len - 64) == done + CopyBytes(offset, len);
        end, done := EmitNext(mem, op, end, offset, 64, done, old(mem[..]));
        len := len - 64;
      }
      if len > 64 {
        assert done + ShortCopyBytes(offset, 60) + CopyBytes(offset, len - 60) == done + CopyBytes(offset, len);
        end, done := EmitNext(mem, op, end, offset, 60, done, old(mem[..]));
        len := len - 60;
      }
      end, done := EmitNext(mem, op, end, offset, len, done, old(mem[..]));
    }
  }

  lemma AppendedNothing(mem: seq<Byte>, op: nat)
    requires op <= |mem|
    ensures Appended(mem, mem, op, [])
  {
  }

  method EmitNext(mem: array<Byte>, ghost first: nat, op: nat, offset: nat, len: nat, ghost done: seq<Byte>,
                  ghost before: seq<Byte>)
    returns (end: nat, ghost done': seq<Byte>)
    requires 4 <= len <= 64 && offset < 0x10000 && op + 4 <= mem.Length
    requires op == first + |done| && Appended(before, mem[..], first, done)
    modifies mem
    ensures done' == done + ShortCopyBytes(offset, len) && end == first + |done'|
    ensures Appended(before, mem[..], first, done')
  {
    ghost var mid := mem[..];
    end := EmitCopyAtMost64(mem, op, offset, len, len < 12);
    done' := done + ShortCopyBytes(offset, len);
    AppendedTwice(before, mid, mem[..], first, done, ShortCopyBytes(offset, len));
  }

  lemma AppendedTwice(a: seq<Byte>, b: seq<Byte>, c: seq<Byte>, op: nat, x: seq<Byte>, y: seq<Byte>)
    requires Appended(a, b, op, x) && Appended(b, c, op + |x|, y)
    ensures Appended(a, c, op, x + y)
  {
    assert c[..op] == c[..op + |x|][..op] && b[..op] == b[..op + |x|][..op];
    assert c[op..op + |x|] == c[..op + |x|][op..] && b[op..op + |x|] == b[..op + |x|][op..];
    assert c[op..op + |x + y|] == c[op..op + |x|] + c[op + |x|..op + |x| + |y|];
  }

  // ----- What the encodings cost -----

  lemma LiteralCost(b: seq<Byte>)
    requires 0 < |b| <= 0x10000
    ensures |LiteralBytes(b)| <= |b| + 3
    ensures |b| <= 60 ==> |LiteralBytes(b)| == |b| + 1
  {
  }

  lemma {:induction false} CopyCost(offset: nat, len: nat)
    requires 4 <= len && offset < 0x10000
    ensures |CopyBytes(offset, len)| < len
  {
    if len >= 68 {
      CopyCost(offset, len - 64);
    } else if len > 64 {
      CopyCost(offset, len - 60);
    }
  }
}

/** The four places decompressed bytes can go. Each is proved to accept exactly the items that Apply accepts and, when
    it stores bytes at all, to store what Apply says. */
module SnappyWriters {
  import opened Bytes
  import opened SnappyFormat
  import opened SnappyCopy
  import opened SnappyEmit

  /** offset - 1u in 64 bits: zero wraps to a number no count reaches. */
  function MinusOne(offset: nat): nat {
    if offset == 0 then POW64 - 1 else offset - 1
  }

  lemma {:induction false} CopyWithinApart(out: seq<Byte>, offset: nat, len: nat)
    requires len <= offset <= |out| && 0 < offset
    ensures CopyWithin(out, offset, len) == out + out[|out| - offset..|out| - offset + len]
  {
    var r := out + out[|out| - offset..|out| - offset + len];
    CopyWithinIsPeriodic(out, offset, r);
  }

  // ----- A flat array -----

  class SnappyArrayWriter {
    const mem: array<Byte>
    const base: nat
    var op: nat
    var opLimit: nat

    ghost predicate Valid()
      reads this
    {
      base <= op <= opLimit <= mem.Length < POW64
    }

    ghost function Out(): seq<Byte>
      requires Valid()
      reads this, mem
    {
      mem[base..op]
    }

    ghost function Limit(): nat
      requires Valid()
      reads this
    {
      opLimit - base
    }

    constructor (mem: array<Byte>, base: nat)
      requires base <= mem.Length < POW64
      ensures Valid() && this.mem == mem && this.base == base && Out() == [] && Limit() == 0
    {
      this.mem, this.base, op, opLimit := mem, base, base, base;
    }

    method SetExpectedLength(len: nat)
      requires Valid() && op + len <= mem.Length
      modifies this
      ensures Valid() && op == old(op) && Limit() == |Out()| + len
    {
      opLimit := op + len;
    }

    method CheckLength() returns (ok: bool)
      requires Valid()
      ensures ok <==> |Out()| == Limit()
    {
      ok := op == opLimit;
    }

    method Append(data: seq<Byte>) returns (ok: bool)
      requires Valid()
      modifies this, mem
      ensures Valid() && Limit() == old(Limit())
      ensures mem[..base] == old(mem[..base]) && mem[opLimit..] == old(mem[opLimit..])
      ensures ok <==> Apply(Literal(data), old(Out()), Limit()).Some?
      ensures Out() == if ok then old(Out()) + data else old(Out())
    {
      var spaceLeft := opLimit - op;
      if spaceLeft < |data| { return false; }
      Store(mem, op, data);
      op := op + |data|;
      ok := true;
    }

    /** Stores sixteen bytes to keep the first len of them. */
    method TryFastAppend(ip: seq<Byte>, len: nat) returns (ok: bool)
      requires Valid() && 0 < len
      modifies this, mem
      ensures Valid() && Limit() == old(Limit())
      ensures mem[..base] == old(mem[..base]) && mem[opLimit..] == old(mem[opLimit..])
      ensures ok ==> len + MAX_TAG_LENGTH <= |ip| && len <= 16
      ensures ok ==> Apply(Literal(ip[..len]), old(Out()), Limit()) == Some(Out())
      ensures !ok ==> Out() == old(Out())
    {
      var spaceLeft := opLimit - op;
      if len <= 16 && |ip| >= 16 + MAX_TAG_LENGTH && spaceLeft >= 16 {
        Store(mem, op, ip[..16]);
        assert mem[base..op + len] == old(mem[base..op]) + ip[..len];
        op := op + len;
        ok := true;
      } else {
        ok := false;
      }
    }

    method AppendFromSelf(offset: nat, len: nat) returns (ok: bool)
      requires Valid()
      modifies this, mem
      ensures Valid() && Limit() == old(Limit())
      ensures mem[..base] == old(mem[..base]) && mem[opLimit..] == old(mem[opLimit..])
      ensures ok <==> Apply(Copy(offset, len), old(Out()), Limit()).Some?
      ensures Out() == if ok then Apply(Copy(offset, len), old(Out()), Limit()).value else old(Out())
    {
      var opEnd := op + len;
      var produced := op - base;
      if produced <= MinusOne(offset) || opEnd > opLimit { return false; }
      CopyFromOutput(mem, base, op, offset, len, opLimit);
      op := opEnd;
      ok := true;
    }
  }

  // ----- Nowhere: only the length is kept -----

  class SnappyDecompressionValidator {
    var expected: nat
    var produced: nat
    ghost var out: seq<Byte>  // what a storing writer would hold

    ghost predicate Valid()
      reads this
    {
      produced == |out| && produced <= expected < POW64
    }

    constructor ()
      ensures Valid() && out == [] && expected == 0
    {
      expected, produced, out := 0, 0, [];
    }

    method SetExpectedLength(len: nat)
      requires Valid() && out == [] && len < POW64
      modifies this
      ensures Valid() && out == [] && expected == len
    {
      expected := len;
    }

    method CheckLength() returns (ok: bool)
      requires Valid()
      ensures ok <==> |out| == expected
    {
      ok := expected == produced;
    }

    method Append(data: seq<Byte>) returns (ok: bool)
      requires Valid()
      modifies this
      ensures expected == old(expected)
      ensures ok <==> Apply(Literal(data), old(out), expected).Some?
      ensures ok ==> Valid() && out == old(out) + data
    {
      produced := produced + |data|;
      ok := produced <= expected;
      out := out + data;
    }

    method TryFastAppend(ip: seq<Byte>, len: nat) returns (ok: bool)
      ensures !ok
    {
      ok := false;
    }

    method AppendFromSelf(offset: nat, len: nat) returns (ok: bool)
      requires Valid()
      modifies this
      ensures expected == old(expected)
      ensures ok <==> Apply(Copy(offset, len), old(out), expected).Some?
      ensures ok ==> Valid() && Apply(Copy(offset, len), old(out), expected) == Some(out)
    {
      if produced <= MinusOne(offset) { return false; }
      produced := produced + len;
      ok := produced <= expected;
      out := CopyWithin(out, offset, len);
    }
  }
}

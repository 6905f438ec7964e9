/** Decompressing into blocks allocated on the way, all but the last of them full 64K. */
module SnappyScattered {
  import opened Bytes
  import opened SnappyFormat
  import opened SnappyCopy
  import opened SnappyEmit
  import opened SnappyWriters

  class SnappyScatteredWriter {
    var blocks: seq<array<Byte>>
    var expected: nat
    var fullSize: nat
    var opPtr: nat  // next free byte of the last block
    ghost var out: seq<Byte>

    ghost predicate Shape()
      reads this
    {
      && (forall i, j | 0 <= i < j < |blocks| :: blocks[i] != blocks[j])
      && (forall i | 0 <= i < |blocks| - 1 :: blocks[i].Length == BLOCK_SIZE)
      && (blocks == [] ==> fullSize == opPtr == 0)
      && (blocks != [] ==> fullSize == BLOCK_SIZE * (|blocks| - 1) <= expected && opPtr <= Last().Length)
      && (blocks != [] ==>
            Last().Length == if expected - fullSize < BLOCK_SIZE then expected - fullSize else BLOCK_SIZE)
      && |out| == fullSize + opPtr <= expected < POW64
    }

    function Last(): array<Byte>
      requires blocks != []
      reads this
    {
      blocks[|blocks| - 1]
    }

    ghost predicate Holds()
      requires Shape()
      reads this, blocks
    {
      forall i, o {:trigger blocks[i][o]} |
        0 <= i < |blocks| && 0 <= o < blocks[i].Length && BLOCK_SIZE * i + o < |out| ::
        blocks[i][o] == out[BLOCK_SIZE * i + o]
    }

    ghost predicate Valid()
      reads this, blocks
    {
      Shape() && Holds()
    }

    /** The blocks there were are still there; the others are new. */
    twostate predicate Grew()
      reads this
    {
      && |blocks| >= |old(blocks)| && blocks[..|old(blocks)|] == old(blocks)
      && forall i | |old(blocks)| <= i < |blocks| :: fresh(blocks[i])
    }

    function OpLimit(): nat
      reads this
    {
      if blocks == [] then 0 else Last().Length
    }

    constructor ()
      ensures Valid() && blocks == [] && out == [] && expected == 0
    {
      blocks, expected, fullSize, opPtr, out := [], 0, 0, 0, [];
    }

    method SetExpectedLength(len: nat)
      requires Valid() && blocks == [] && len < POW64
      modifies this
      ensures Valid() && blocks == [] && out == [] && expected == len
    {
      expected := len;
    }

    method CheckLength() returns (ok: bool)
      requires Valid()
      ensures ok <==> |out| == expected
    {
      ok := fullSize + opPtr == expected;
    }

    lemma TailInBlock()
      requires Valid() && blocks != []
      ensures Last()[..opPtr] == out[fullSize..]
    {
      var stored, tail := Last()[..opPtr], out[fullSize..];
      forall o | 0 <= o < opPtr
        ensures stored[o] == tail[o]
      {
        assert blocks[|blocks| - 1][o] == out[fullSize + o];
      }
    }

    lemma StoreHolds(data: seq<Byte>)
      requires Shape() && blocks != [] && opPtr + |data| <= Last().Length
      requires forall i, o {:trigger blocks[i][o]} | 0 <= i < |blocks| - 1 && 0 <= o < blocks[i].Length ::
                 blocks[i][o] == out[BLOCK_SIZE * i + o]
      requires Last()[..opPtr + |data|] == out[fullSize..] + data
      ensures forall i, o {:trigger blocks[i][o]} | 0 <= i < |blocks| && 0 <= o < blocks[i].Length &&
                 BLOCK_SIZE * i + o < |out + data| :: blocks[i][o] == (out + data)[BLOCK_SIZE * i + o]
    {
      forall i, o | 0 <= i < |blocks| && 0 <= o < blocks[i].Length && BLOCK_SIZE * i + o < |out + data|
        ensures blocks[i][o] == (out + data)[BLOCK_SIZE * i + o]
      {
        if i == |blocks| - 1 {
          assert blocks[i][o] == Last()[..opPtr + |data|][o];
        }
      }
    }

    /** memcpy to where the output ends, inside the current block. */
    method StoreHere(data: seq<Byte>)
      requires Valid() && opPtr + |data| <= OpLimit()
      modifies this, blocks
      ensures Valid() && out == old(out) + data && expected == old(expected) && blocks == old(blocks)
    {
      if blocks == [] {
        assert out == out + data;
        return;
      }
      TailInBlock();
      Store(Last(), opPtr, data);
      assert Last()[..opPtr + |data|] == old(Last()[..opPtr]) + data;
      StoreHolds(data);
      opPtr := opPtr + |data|;
      out := out + data;
    }

    method NewBlock()
      requires Valid() && opPtr == OpLimit() && |out| < expected
      modifies this
      ensures Valid() && out == old(out) && expected == old(expected) && opPtr < OpLimit()
      ensures |blocks| == |old(blocks)| + 1 && Grew()
    {
      fullSize := fullSize + opPtr;
      var size := if expected - fullSize < BLOCK_SIZE then expected - fullSize else BLOCK_SIZE;
      var block := new Byte[size](_ => 0);
      blocks := blocks + [block];
      opPtr := 0;
    }

    method Append(data: seq<Byte>) returns (ok: bool)
      requires Valid()
      modifies this, blocks
      ensures Valid() && expected == old(expected) && old(out) <= out
      ensures Grew()
      ensures ok <==> Apply(Literal(data), old(out), expected).Some?
      ensures ok ==> out == old(out) + data
    {
      if |data| <= OpLimit() - opPtr {
        StoreHere(data);
        ok := true;
      } else {
        ok := SlowAppend(data);
      }
    }

    /** Fills the current block, then allocates as many as it takes. */
    method SlowAppend(data: seq<Byte>) returns (ok: bool)
      requires Valid() && |data| > OpLimit() - opPtr
      modifies this, blocks
      ensures Valid() && expected == old(expected) && old(out) <= out
      ensures Grew()
      ensures ok <==> Apply(Literal(data), old(out), expected).Some?
      ensures ok ==> out == old(out) + data
    {
      hide Holds;
      var done := 0;
      while |data| - done > OpLimit() - opPtr
        invariant 0 <= done <= |data|
        invariant Valid() && expected == old(expected) && Grew()
        invariant out == old(out) + data[..done]
        decreases |data| - done, if OpLimit() == opPtr then 1 else 0
      {
        var avail := OpLimit() - opPtr;
        var room := FillBlock(data[done..]);
        Filled(old(out), data, done, avail);
        done := done + avail;
        if !room { return false; }
      }
      StoreHere(data[done..]);
      Filled(old(out), data, done, |data| - done);
      ok := true;
    }

    static lemma Filled(out: seq<Byte>, data: seq<Byte>, done: nat, more: nat)
      requires done + more <= |data|
      ensures out + data[..done] + data[done..][..more] == out + data[..done + more]
      ensures done + more == |data| ==> out + data[..done] + data[done..] == out + data
    {
      assert data[..done] + data[done..][..more] == data[..done + more];
      assert data[..done] + data[done..] == data;
    }

    /** Completely fills the block with the start of data and, when the rest is within bounds, opens the next. */
    method FillBlock(data: seq<Byte>) returns (room: bool)
      requires Valid() && |data| > OpLimit() - opPtr
      modifies this, blocks
      ensures Valid() && expected == old(expected) && Grew()
      ensures out == old(out) + data[..old(OpLimit()) - old(opPtr)]
      ensures room <==> |old(out)| + |data| <= expected
      ensures room ==> opPtr < OpLimit()
    {
      hide Holds;
      var avail := OpLimit() - opPtr;
      StoreHere(data[..avail]);
      if fullSize + opPtr + (|data| - avail) > expected { return false; }
      NewBlock();
      room := true;
    }

    /** Stores sixteen bytes to keep the first len of them. */
    method TryFastAppend(ip: seq<Byte>, len: nat) returns (ok: bool)
      requires Valid() && 0 < len
      modifies this, blocks
      ensures Valid() && expected == old(expected) && blocks == old(blocks)
      ensures ok ==> len + MAX_TAG_LENGTH <= |ip| && len <= 16
      ensures ok ==> Apply(Literal(ip[..len]), old(out), expected) == Some(out)
      ensures !ok ==> out == old(out)
    {
      var spaceLeft := OpLimit() - opPtr;
      if len <= 16 && |ip| >= 16 + MAX_TAG_LENGTH && spaceLeft >= 16 {
        ghost var total := out + ip[..len];
        var op := opPtr;
        StoreHere(ip[..16]);
        opPtr := op + len;
        out := total;
        ok := true;
      } else {
        ok := false;
      }
    }

    /** Source and destination both in the current block. */
    method CopyInBlock(offset: nat, len: nat)
      requires Valid() && blocks != [] && 0 < offset <= opPtr && opPtr + len <= OpLimit()
      modifies this, blocks
      ensures Valid() && expected == old(expected) && blocks == old(blocks)
      ensures out == CopyWithin(old(out), offset, len)
    {
      hide CopyWithin;
      ghost var data := CopyTail(offset, len);
      StoreHolds(data);
      opPtr := opPtr + len;
      out := out + data;
    }

    method CopyTail(offset: nat, len: nat) returns (ghost data: seq<Byte>)
      requires Valid() && blocks != [] && 0 < offset <= opPtr && opPtr + len <= OpLimit()
      modifies Last()
      ensures |data| == len && Last()[..opPtr + len] == out[fullSize..] + data
      ensures out + data == CopyWithin(out, offset, len)
    {
      hide CopyWithin;
      TailInBlock();
      var block := Last();
      CopyFromOutput(block, 0, opPtr, offset, len, OpLimit());
      data := CopyWithin(out, offset, len)[|out|..];
      CopiedTail(out, fullSize, offset, len);
      ExtendsOut(out, offset, len);
      assert block[0..opPtr + len] == block[..opPtr + len] && old(block[0..opPtr]) == old(block[..opPtr]);
    }

    static lemma CopiedTail(out: seq<Byte>, first: nat, offset: nat, len: nat)
      requires first <= |out| && 0 < offset <= |out| - first
      ensures CopyWithin(out[first..], offset, len) == out[first..] + CopyWithin(out, offset, len)[|out|..]
    {
      hide CopyWithin;
      var pre, tail := out[..first], out[first..];
      assert out == pre + tail;
      CopyWithinPrefix(pre, tail, offset, len);
      ExtendsOut(tail, offset, len);
      assert (pre + CopyWithin(tail, offset, len))[|out|..] == CopyWithin(tail, offset, len)[|tail|..];
    }

    static lemma {:induction false} ExtendsOut(out: seq<Byte>, offset: nat, len: nat)
      requires 0 < offset <= |out|
      ensures |CopyWithin(out, offset, len)| == |out| + len && out <= CopyWithin(out, offset, len)
    {
      CopyWithinIsPeriodic(out, offset, CopyWithin(out, offset, len));
    }

    method AppendFromSelf(offset: nat, len: nat) returns (ok: bool)
      requires Valid()
      modifies this, blocks
      ensures Valid() && expected == old(expected) && old(out) <= out
      ensures Grew()
      ensures ok <==> Apply(Copy(offset, len), old(out), expected).Some?
      ensures ok ==> Apply(Copy(offset, len), old(out), expected) == Some(out)
    {
      var opEnd := opPtr + len;
      if MinusOne(offset) < opPtr && opEnd <= OpLimit() {
        CopyInBlock(offset, len);
        ok := true;
      } else {
        ok := SlowAppendFromSelf(offset, len);
      }
    }

    /** One byte at a time, read back from whichever block holds it. */
    method SlowAppendFromSelf(offset: nat, length: nat) returns (ok: bool)
      requires Valid()
      modifies this, blocks
      ensures Valid() && expected == old(expected) && old(out) <= out
      ensures Grew()
      ensures ok <==> Apply(Copy(offset, length), old(out), expected).Some?
      ensures ok ==> Apply(Copy(offset, length), old(out), expected) == Some(out)
    {
      hide CopyWithin, Holds;
      var cur := fullSize + opPtr;
      if MinusOne(offset) >= cur { return false; }
      if expected - cur < length { return false; }
      var src, len := cur - offset, length;
      ghost var done := 0;
      while len > 0
        invariant 0 <= len && done + len == length && src == |out| - offset && |out| == cur + done
        invariant Valid() && expected == old(expected) && out == CopyWithin(old(out), offset, done)
        invariant Grew()
      {
        len := len - 1;
        CopyByte(src, offset);
        CopyWithinTwice(old(out), offset, done, 1);
        done := done + 1;
        src := src + 1;
      }
      ok := true;
    }

    method CopyByte(src: nat, ghost offset: nat)
      requires Valid() && 0 < offset <= |out| < expected && src == |out| - offset
      modifies this, blocks
      ensures Valid() && expected == old(expected) && Grew()
      ensures out == CopyWithin(old(out), offset, 1)
    {
      hide CopyWithin, Holds;
      CopyWithinApart(out, offset, 1);
      var c := ReadBack(src);
      var appended := Append([c]);
    }

    /** blocks[src >> 16][src & 0xffff] */
    method ReadBack(src: nat) returns (c: Byte)
      requires Valid() && src < |out|
      ensures c == out[src]
    {
      var i, o := src / BLOCK_SIZE, src % BLOCK_SIZE;
      c := blocks[i][o];
    }

    /** Hands the blocks to the sink, no more of them than was written. */
    method Flush() returns (sink: seq<Byte>)
      requires Valid()
      ensures sink == out
    {
      var size := fullSize + opPtr;
      sink := [];
      var i := 0;
      while i < |blocks|
        invariant 0 <= i <= |blocks| && sink <= out
        invariant |sink| == if i == |blocks| then |out| else BLOCK_SIZE * i
      {
        var blockSize := if blocks[i].Length < size - |sink| then blocks[i].Length else size - |sink|;
        forall o | 0 <= o < blockSize
          ensures blocks[i][..blockSize][o] == out[|sink| + o]
        {
          assert blocks[i][o] == out[BLOCK_SIZE * i + o];
        }
        sink := sink + blocks[i][..blockSize];
        i := i + 1;
      }
    }
  }
}

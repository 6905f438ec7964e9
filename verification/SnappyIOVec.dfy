/** Decompressing into a list of separate buffers, filled one after another. */
module SnappyIOVec {
  import opened Bytes
  import opened SnappyFormat
  import opened SnappyCopy
  import opened SnappyEmit
  import opened SnappyWriters

  /** How many bytes fit before buffer i. */
  function Start(iov: seq<array<Byte>>, i: nat): (n: nat)
    requires i <= |iov|
  {
    if i == 0 then 0 else Start(iov, i - 1) + iov[i - 1].Length
  }

  lemma StartStep(iov: seq<array<Byte>>, i: nat)
    requires i < |iov|
    ensures Start(iov, i + 1) == Start(iov, i) + iov[i].Length
  {
  }

  lemma {:induction false} StartMonotone(iov: seq<array<Byte>>, i: nat, j: nat)
    requires i <= j <= |iov|
    ensures Start(iov, i) <= Start(iov, j)
    ensures i < j ==> Start(iov, i) + iov[i].Length <= Start(iov, j)
    decreases j - i
  {
    if i < j {
      StartMonotone(iov, i + 1, j);
    }
  }

  class SnappyIOVecWriter {
    const iov: seq<array<Byte>>
    var curr: nat
    var currWritten: nat
    var totalWritten: nat
    var outputLimit: nat
    ghost var out: seq<Byte>

    ghost predicate Shape()
      reads this
    {
      && (forall i, j | 0 <= i < j < |iov| :: iov[i] != iov[j])
      && curr < |iov| && currWritten <= iov[curr].Length
      && totalWritten == |out| == Start(iov, curr) + currWritten
      && totalWritten <= outputLimit < POW64
    }

    /** The buffers together have room for as much as is allowed. */
    ghost predicate Roomy()
      reads this
    {
      outputLimit <= Start(iov, |iov|)
    }

    /** What can be written at all. */
    ghost predicate Fits(n: nat)
      reads this
    {
      n <= outputLimit && n <= Start(iov, |iov|)
    }

    /** The last buffer is full. */
    ghost predicate Full()
      reads this
    {
      curr + 1 == |iov| && currWritten == iov[curr].Length
    }

    lemma HoldsOut()
      requires Valid()
      ensures forall i, o {:trigger iov[i][o]} |
                0 <= i < |iov| && 0 <= o < iov[i].Length && Start(iov, i) + o < |out| ::
                iov[i][o] == out[Start(iov, i) + o]
    {
    }

    lemma NeverOverfull()
      requires Shape()
      ensures Fits(|out|)
      ensures Full() ==> |out| == Start(iov, |iov|)
    {
      StartMonotone(iov, curr, |iov|);
    }

    /** With the last buffer full there is no room for more. */
    lemma FullIsAll(n: nat)
      requires Shape()
      ensures Full() && n > |out| ==> !Fits(n)
    {
      NeverOverfull();
    }

    /** The buffers hold the output, each from where the one before it is full. */
    ghost predicate Holds()
      requires Shape()
      reads this, iov
    {
      forall i, o {:trigger iov[i][o]} | 0 <= i < |iov| && 0 <= o < iov[i].Length && Start(iov, i) + o < |out| ::
        iov[i][o] == out[Start(iov, i) + o]
    }

    ghost predicate Valid()
      reads this, iov
    {
      Shape() && Holds()
    }

    constructor (iov: seq<array<Byte>>)
      requires |iov| > 0 && forall i, j | 0 <= i < j < |iov| :: iov[i] != iov[j]
      ensures Valid() && this.iov == iov && out == []
    {
      this.iov, curr, currWritten, totalWritten, outputLimit, out := iov, 0, 0, 0, POW64 - 1, [];
    }

    method SetExpectedLength(len: nat)
      requires Valid() && out == [] && len < POW64
      modifies this
      ensures Valid() && out == [] && outputLimit == len
    {
      outputLimit := len;
    }

    method CheckLength() returns (ok: bool)
      requires Valid()
      ensures ok <==> |out| == outputLimit
    {
      ok := totalWritten == outputLimit;
    }

    lemma TailInBuffer()
      requires Valid()
      ensures iov[curr][..currWritten] == out[Start(iov, curr)..]
    {
      var stored, tail := iov[curr][..currWritten], out[Start(iov, curr)..];
      forall o | 0 <= o < currWritten
        ensures stored[o] == tail[o]
      {
        assert iov[curr][o] == out[Start(iov, curr) + o];
      }
    }

    /** Bytes stored where the output ends leave everything stored before alone. */
    lemma StoreHolds(data: seq<Byte>)
      requires Shape() && currWritten + |data| <= iov[curr].Length
      requires forall i, o {:trigger iov[i][o]} | 0 <= i < |iov| && i != curr && 0 <= o < iov[i].Length &&
                 Start(iov, i) + o < |out| :: iov[i][o] == out[Start(iov, i) + o]
      requires iov[curr][..currWritten + |data|] == out[Start(iov, curr)..] + data
      ensures forall i, o {:trigger iov[i][o]} | 0 <= i < |iov| && 0 <= o < iov[i].Length &&
                 Start(iov, i) + o < |out + data| :: iov[i][o] == (out + data)[Start(iov, i) + o]
    {
      forall i, o | 0 <= i < |iov| && 0 <= o < iov[i].Length && Start(iov, i) + o < |out + data|
        ensures iov[i][o] == (out + data)[Start(iov, i) + o]
      {
        if i < curr {
          StartMonotone(iov, i, curr);
        } else if i == curr {
          assert iov[curr][o] == iov[curr][..currWritten + |data|][o];
        } else {
          StartMonotone(iov, curr, i);
        }
      }
    }

    /** memcpy to where the output ends, inside the current buffer. */
    method StoreHere(data: seq<Byte>)
      requires Valid() && currWritten + |data| <= iov[curr].Length && totalWritten + |data| <= outputLimit
      modifies this, iov
      ensures Valid() && out == old(out) + data && outputLimit == old(outputLimit) && curr == old(curr)
    {
      var buf := iov[curr];
      TailInBuffer();
      Store(buf, currWritten, data);
      assert buf[..currWritten + |data|] == old(buf[..currWritten]) + data;
      StoreHolds(data);
      currWritten := currWritten + |data|;
      totalWritten := totalWritten + |data|;
      out := out + data;
    }

    /** The current buffer is full: go to the next one, if there is one. */
    method NextBuffer() returns (ok: bool)
      requires Valid() && currWritten == iov[curr].Length
      modifies this
      ensures Valid() && out == old(out) && outputLimit == old(outputLimit)
      ensures ok <==> old(curr) + 1 < |iov|
      ensures curr == if ok then old(curr) + 1 else old(curr)
    {
      if curr + 1 >= |iov| { return false; }
      currWritten := 0;
      curr := curr + 1;
      ok := true;
    }

    /** Fails when the limit is passed or the buffers run out, after filling them. */
    method Append(data: seq<Byte>) returns (ok: bool)
      requires Valid()
      modifies this, iov
      ensures Valid() && outputLimit == old(outputLimit)
      ensures ok <==> Fits(|old(out)| + |data|)
      ensures ok ==> out == old(out) + data
      ensures !ok ==> Full() || (Unmoved() && |out| + |data| > outputLimit)
      ensures old(curr) <= curr && (data == [] ==> Unmoved())
    {
      hide Start, Holds;
      if totalWritten + |data| > outputLimit { return false; }
      NeverOverfull();
      var done := 0;
      while done < |data|
        invariant 0 <= done <= |data| && old(curr) <= curr && (done == 0 == |data| ==> Unmoved())
        invariant Valid() && outputLimit == old(outputLimit) && out == old(out) + data[..done]
        invariant Fits(|out|)
        decreases |data| - done, |iov| - curr
      {
        var more, n := StoreSome(data[done..]);
        if !more { return false; }
        assert data[done..][..n] == data[done..done + n] && data[..done + n] == data[..done] + data[done..done + n];
        done := done + n;
      }
      assert data[..done] == data;
      ok := true;
    }

    twostate predicate Unmoved()
      reads this
    {
      out == old(out) && curr == old(curr) && currWritten == old(currWritten)
    }

    /** One turn of that loop: goes on to the next buffer if this one is full, and stores what fits there. */
    method StoreSome(data: seq<Byte>) returns (more: bool, n: nat)
      requires Valid() && data != [] && |out| + |data| <= outputLimit
      modifies this, iov
      ensures Valid() && outputLimit == old(outputLimit) && old(curr) <= curr
      ensures n <= |data| && out == old(out) + data[..n] && Fits(|out|)
      ensures !more ==> Full() && !Fits(|old(out)| + |data|)
      ensures more && n == 0 ==> old(curr) < curr
    {
      hide Holds;
      if currWritten >= iov[curr].Length {
        NeverOverfull();
        more := NextBuffer();
        if !more { return false, 0; }
      }
      var room := iov[curr].Length - currWritten;
      n := if |data| < room then |data| else room;
      StoreHere(data[..n]);
      NeverOverfull();
      more := true;
    }

    /** Stores sixteen bytes to keep the first len of them. */
    method TryFastAppend(ip: seq<Byte>, len: nat) returns (ok: bool)
      requires Valid() && 0 < len
      modifies this, iov
      ensures Valid() && outputLimit == old(outputLimit)
      ensures ok ==> len + MAX_TAG_LENGTH <= |ip| && len <= 16
      ensures ok ==> Apply(Literal(ip[..len]), old(out), outputLimit) == Some(out)
      ensures !ok ==> out == old(out)
    {
      var spaceLeft := outputLimit - totalWritten;
      if len <= 16 && |ip| >= 16 + MAX_TAG_LENGTH && spaceLeft >= 16 && iov[curr].Length - currWritten >= 16 {
        FastStore(ip[..16], len);
        assert ip[..16][..len] == ip[..len];
        ok := true;
      } else {
        ok := false;
      }
    }

    method FastStore(sixteen: seq<Byte>, len: nat)
      requires Valid() && |sixteen| == 16 && len <= 16
      requires currWritten + 16 <= iov[curr].Length && totalWritten + 16 <= outputLimit
      modifies this, iov
      ensures Valid() && out == old(out) + sixteen[..len] && outputLimit == old(outputLimit)
    {
      ghost var total := out + sixteen[..len];
      var oldWritten, oldTotal := currWritten, totalWritten;
      StoreHere(sixteen);
      currWritten := oldWritten + len;
      totalWritten := oldTotal + len;
      out := total;
    }

    /** Where the byte `back` places before the end of the output stands: walk back over full buffers. */
    method Locate(back: nat) returns (index: nat, place: nat)
      requires Valid() && 0 < back <= |out|
      ensures index <= curr && place < iov[index].Length && Start(iov, index) + place == |out| - back
    {
      index, place := curr, currWritten;
      var offset := back;
      while offset > 0
        invariant index <= curr && place <= iov[index].Length
        invariant 0 <= offset && Start(iov, index) + place - offset == |out| - back
        invariant offset == 0 ==> place < iov[index].Length
        decreases offset, index
      {
        if place >= offset {
          place := place - offset;
          break;
        }
        offset := offset - place;
        index := index - 1;
        place := iov[index].Length;
      }
    }

    /** What stands in a full stretch of buffer `index` is that stretch of the output. */
    lemma RegionOfOutput(index: nat, place: nat, k: nat)
      requires Valid() && index < curr && place + k <= iov[index].Length
      ensures Start(iov, index) + place + k <= |out|
      ensures iov[index][place..place + k] == out[Start(iov, index) + place..Start(iov, index) + place + k]
    {
      StartMonotone(iov, index, curr);
      var region := iov[index][place..place + k];
      var stretch := out[Start(iov, index) + place..Start(iov, index) + place + k];
      forall j | 0 <= j < k
        ensures region[j] == stretch[j]
      {
        assert iov[index][place + j] == out[Start(iov, index) + (place + j)];
      }
    }

    /** Source and destination both in the current buffer: a byte-at-a-time copy, which may overlap. */
    method CopyHere(place: nat, k: nat)
      requires Valid() && place < currWritten && currWritten + k <= iov[curr].Length && totalWritten + k <= outputLimit
      modifies this, iov
      ensures Valid() && outputLimit == old(outputLimit) && curr == old(curr)
      ensures out == CopyWithin(old(out), old(currWritten) - place, k)
    {
      hide CopyWithin;
      ghost var data := CopyInBuffer(place, k);
      StoreHolds(data);
      currWritten := currWritten + k;
      totalWritten := totalWritten + k;
      out := out + data;
    }

    method CopyInBuffer(place: nat, k: nat) returns (ghost data: seq<Byte>)
      requires Valid() && place < currWritten && currWritten + k <= iov[curr].Length
      modifies iov[curr]
      ensures |data| == k && iov[curr][..currWritten + k] == out[Start(iov, curr)..] + data
      ensures out + data == CopyWithin(out, currWritten - place, k)
    {
      hide CopyWithin, Copied;
      var buf := iov[curr];
      ghost var before := buf[..];
      TailInBuffer();
      IncrementalCopySlow(buf, place, currWritten, currWritten + k);
      data := CopyWithin(out, currWritten - place, k)[|out|..];
      CopiedTail(out, Start(iov, curr), before, buf[..], place, currWritten, k);
    }

    static lemma CopiedTail(out: seq<Byte>, first: nat, before: seq<Byte>, after: seq<Byte>, place: nat, end: nat,
                            k: nat)
      requires first <= |out| && place < end && end + k <= |before| && before[..end] == out[first..]
      requires Copied(before, after, place, end, end + k, end + k)
      ensures var next := CopyWithin(out, end - place, k); after[..end + k] == out[first..] + next[|out|..]
      ensures out + CopyWithin(out, end - place, k)[|out|..] == CopyWithin(out, end - place, k)
    {
      hide CopyWithin, Copied;
      CopiedIsCopyWithin(before, after, place, end, end + k, end + k);
      CopyWithinPrefix(out[..first], out[first..], end - place, k);
      assert out == out[..first] + out[first..];
    }

    /** With room in the buffers, the copy that is meant. Without, it may answer true for a copy cut short, as it does
        not look at what Append answers; but then the buffers are full. */
    method AppendFromSelf(offset: nat, length: nat) returns (ok: bool)
      requires Valid()
      modifies this, iov
      ensures Valid() && outputLimit == old(outputLimit)
      ensures Apply(Copy(offset, length), old(out), outputLimit) == None ==> !ok && out == old(out)
      ensures Apply(Copy(offset, length), old(out), outputLimit).Some? ==>
                || (ok && Some(out) == Apply(Copy(offset, length), old(out), outputLimit))
                || (Full() && !Fits(|old(out)| + length))
    {
      hide CopyWithin, Holds, Start;
      if offset > totalWritten || offset == 0 { return false; }
      var spaceLeft := outputLimit - totalWritten;
      if length > spaceLeft { return false; }
      var index, place := Locate(offset);
      var len := length;
      ghost var done, short := 0, false;
      while len > 0
        invariant 0 <= len && done + len == length
        invariant Valid() && outputLimit == old(outputLimit)
        invariant 0 <= index && 0 <= place
        invariant !short ==> out == CopyWithin(old(out), offset, done)
        invariant short ==> Full() && !Fits(|old(out)| + length)
        invariant len > 0 ==> index <= curr && place <= iov[index].Length
        invariant len > 0 && !short ==> Start(iov, index) + place == |out| - offset
        decreases len, |iov| - curr, curr - index
      {
        if index != curr {
          var rest := iov[index].Length - place;
          var toCopy := if rest < len then rest else len;
          var whole := CopyFrom(index, place, toCopy, old(out), offset, done, short);
          short := short || !whole;
          done := done + toCopy;
          len := len - toCopy;
          if len > 0 {
            StartStep(iov, index);
            index := index + 1;
            place := 0;
          }
        } else {
          var rest := iov[curr].Length - currWritten;
          var toCopy := if rest < len then rest else len;
          if toCopy == 0 {
            FullIsAll(|old(out)| + length);
            var more := NextBuffer();
            if !more { return false; }
            continue;
          }
          CopyOnHere(place, toCopy, old(out), offset, done);
          place := place + toCopy;
          done := done + toCopy;
          len := len - toCopy;
        }
      }
      ok := true;
    }

    method CopyOnHere(place: nat, k: nat, ghost first: seq<Byte>, ghost offset: nat, ghost done: nat)
      requires Valid() && currWritten + k <= iov[curr].Length && totalWritten + k <= outputLimit
      requires 0 < offset <= |first| && out == CopyWithin(first, offset, done)
      requires Start(iov, curr) + place == |out| - offset
      modifies this, iov
      ensures Valid() && outputLimit == old(outputLimit) && curr == old(curr)
      ensures out == CopyWithin(first, offset, done + k)
    {
      hide CopyWithin, Holds, Start;
      CopyWithinTwice(first, offset, done, k);
      CopyHere(place, k);
    }

    /** The call of Append for a stretch of an earlier buffer; what it answers is for the proof only. */
    method CopyFrom(index: nat, place: nat, k: nat, ghost first: seq<Byte>, ghost offset: nat, ghost done: nat,
                    ghost short: bool)
      returns (ghost whole: bool)
      requires Valid() && (short ==> Full())
      requires index < curr && place + k <= iov[index].Length
      requires !short ==> Start(iov, index) + place == |out| - offset && |out| + k <= outputLimit
      requires 0 < offset <= |first| && (!short ==> out == CopyWithin(first, offset, done))
      modifies this, iov
      ensures Valid() && outputLimit == old(outputLimit) && old(curr) <= curr && (k == 0 ==> curr == old(curr))
      ensures short || !whole ==> Full()
      ensures !short && !whole ==> !Fits(|old(out)| + k)
      ensures !short && whole ==> out == CopyWithin(first, offset, done + k)
    {
      hide CopyWithin;
      RegionOfOutput(index, place, k);
      if !short {
        CopyWithinTwice(first, offset, done, k);
        CopyWithinApart(out, offset, k);
      }
      var ok := Append(iov[index][place..place + k]);
      whole := ok;
    }
  }
}

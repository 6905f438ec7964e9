/** The log writer and the log reader, as they update their buffers. */
module LogIO {
  import opened Bytes
  import opened LogFormat
  import LogFragments

  /** A file that is appended to. fault says which calls fail, and how many bytes are in the file then all the same. */
  class WritableFile {
    const fault: nat -> Option<nat>
    var contents: seq<Byte>
    var calls: nat

    constructor (contents: seq<Byte>, fault: nat -> Option<nat>)
      ensures this.contents == contents && this.fault == fault
    {
      this.contents, this.fault, calls := contents, fault, 0;
    }

    ghost predicate Reliable() {
      forall n :: fault(n) == None
    }

    method Append(data: seq<Byte>) returns (ok: bool)
      modifies this
      ensures Between(old(contents), contents, data) && (ok ==> contents == old(contents) + data) && (Reliable() ==> ok)
    {
      var f := fault(calls);
      ok := f.None?;
      var n := if ok || f.value > |data| then |data| else f.value;
      assert data[..|data|] == data;
      contents := contents + data[..n];
      calls := calls + 1;
    }

    method Flush() returns (ok: bool)
      modifies this
      ensures contents == old(contents) && (Reliable() ==> ok)
    {
      ok := fault(calls).None?;
      calls := calls + 1;
    }
  }

  /** Some first part of the data was appended. */
  ghost predicate Between(before: seq<Byte>, after: seq<Byte>, data: seq<Byte>) {
    before <= after <= before + data
  }

  lemma BetweenFirst(a: seq<Byte>, c: seq<Byte>, x: seq<Byte>, y: seq<Byte>)
    ensures Between(a, c, x) ==> Between(a, c, x + y)
  {
    assert a + x + y == a + (x + y);
  }

  lemma BetweenMore(a: seq<Byte>, c: seq<Byte>, x: seq<Byte>, y: seq<Byte>)
    ensures Between(a + x, c, y) ==> Between(a, c, x + y)
  {
    assert a + x + y == a + (x + y);
  }

  lemma AllBetween(a: seq<Byte>, x: seq<Byte>)
    ensures Between(a, a + x, x)
  {
  }

  ghost predicate InPlace(pos: nat, offset: nat) {
    pos % BLOCK_SIZE == offset % BLOCK_SIZE
  }

  /** Between two fragments of a record: got is what the file got so far, written what it would have got with the whole
      trailer, left what is still to be written. */
  ghost predicate Midway(crc: Checksum, offset: nat, data: seq<Byte>, k: nat, got: seq<Byte>, written: seq<Byte>,
                         left: seq<Byte>, begin: bool)
  {
    && written + Emit(crc, offset + |written|, left, begin) == Emit(crc, offset, data, true)
    && OnWay(offset, data, offset + |written|, left)
    && if begin then got == [] && written == []
       else
         && k <= |Trailer(offset)| <= |written| && (offset + |written|) % BLOCK_SIZE == 0
         && got == Trailer(offset)[..k] + written[|Trailer(offset)|..]
  }

  /** What may go wrong from here on may go wrong with the record. */
  ghost predicate OnWay(offset: nat, data: seq<Byte>, pos: nat, left: seq<Byte>) {
    && offset <= pos
    && forall size: nat, tried: nat :: Tried(pos, left, size, tried) ==>
         Tried(offset, data, pos - offset + size, pos - offset + tried)
  }

  lemma OnWayOn(offset: nat, data: seq<Byte>, pos: nat, left: seq<Byte>)
    requires OnWay(offset, data, pos, left) && FragmentLength(pos, left) < |left|
    ensures var n := FragmentLength(pos, left); OnWay(offset, data, pos + |Trailer(pos)| + HEADER_SIZE + n, left[n..])
  {
    var n := FragmentLength(pos, left);
    var s := |Trailer(pos)| + HEADER_SIZE + n;
    var pos', left' := pos + s, left[n..];
    forall size: nat, tried: nat | Tried(pos', left', size, tried)
      ensures Tried(offset, data, pos' - offset + size, pos' - offset + tried)
    {
      TriedOne(pos, left, size, tried);
      hide Tried;
      assert Tried(pos, left, s + size, s + tried);
    }
  }

  lemma TriedOne(pos: nat, left: seq<Byte>, size: nat, tried: nat)
    requires FragmentLength(pos, left) < |left|
    ensures var n := FragmentLength(pos, left);
            var s := |Trailer(pos)| + HEADER_SIZE + n;
            Tried(pos + s, left[n..], size, tried) ==> Tried(pos, left, s + size, s + tried)
  {
  }

  lemma NothingYet(crc: Checksum, offset: nat, data: seq<Byte>)
    ensures Midway(crc, offset, data, 0, [], [], data, true)
  {
    hide Emit, Tried;
    assert [] + Emit(crc, offset, data, true) == Emit(crc, offset, data, true);
  }

  /** What a turn of the loop adds to the file: of the fragment's trailer k bytes, and of the rest all or a first part.
      */
  ghost predicate Piece(crc: Checksum, pos: nat, left: seq<Byte>, begin: bool, k: nat, ok: bool, piece: seq<Byte>) {
    var s := Fragment(crc, pos, left, begin);
    && k <= |Trailer(pos)| && Trailer(pos)[..k] <= piece && piece[k..] <= s[|Trailer(pos)|..]
    && (ok ==> piece[k..] == s[|Trailer(pos)|..])
  }

  lemma PieceMoves(crc: Checksum, pos: nat, at: nat, left: seq<Byte>, begin: bool, k: nat, ok: bool, piece: seq<Byte>)
    requires InPlace(pos, at) && Piece(crc, at, left, begin, k, ok, piece)
    ensures Piece(crc, pos, left, begin, k, ok, piece)
  {
    hide Fragment;
    FragmentMoves(crc, pos, at, left, begin);
    assert Trailer(pos) == Trailer(at);
  }

  /** A fragment that is not the last fills its block. */
  lemma FillsBlock(crc: Checksum, pos: nat, left: seq<Byte>, begin: bool)
    requires FragmentLength(pos, left) < |left|
    ensures (pos + |Fragment(crc, pos, left, begin)|) % BLOCK_SIZE == 0
  {
    var t := pos + |Trailer(pos)|;
    assert t % BLOCK_SIZE + HEADER_SIZE + FragmentLength(pos, left) == BLOCK_SIZE;
  }

  /** One turn on from Midway, with more to come. */
  lemma Continues(crc: Checksum, offset: nat, data: seq<Byte>, k: nat, got: seq<Byte>, written: seq<Byte>,
                  left: seq<Byte>, begin: bool, f: nat, piece: seq<Byte>)
    requires Midway(crc, offset, data, k, got, written, left, begin)
    requires Piece(crc, offset + |written|, left, begin, f, true, piece)
    requires FragmentLength(offset + |written|, left) < |left|
    ensures var s, n := Fragment(crc, offset + |written|, left, begin), FragmentLength(offset + |written|, left);
            Midway(crc, offset, data, if begin then f else k, got + piece, written + s, left[n..], false)
  {
    hide Emit, FragmentLength, Trailer, Fragment, Tried, OnWay;
    var pos := offset + |written|;
    var s, n := Fragment(crc, pos, left, begin), FragmentLength(pos, left);
    EmitUnfolds(crc, pos, left, begin);
    FillsBlock(crc, pos, left, begin);
    OnWayOn(offset, data, pos, left);
    Joined(written, s, Emit(crc, pos + |s|, left[n..], false));
    Gathered(crc, offset, k, got, written, left, begin, f, piece);
  }

  lemma Joined(a: seq<Byte>, b: seq<Byte>, c: seq<Byte>)
    ensures a + b + c == a + (b + c) && |a + b| == |a| + |b|
  {
  }

  lemma NoTrailer(pos: nat)
    requires pos % BLOCK_SIZE == 0
    ensures Trailer(pos) == []
  {
  }

  /** What is in the file after the turn. */
  lemma Gathered(crc: Checksum, offset: nat, k: nat, got: seq<Byte>, written: seq<Byte>, left: seq<Byte>, begin: bool,
                 f: nat, piece: seq<Byte>)
    requires Piece(crc, offset + |written|, left, begin, f, true, piece)
    requires if begin then got == [] && written == []
             else
               && k <= |Trailer(offset)| <= |written| && (offset + |written|) % BLOCK_SIZE == 0
               && got == Trailer(offset)[..k] + written[|Trailer(offset)|..]
    ensures var k', w := if begin then f else k, written + Fragment(crc, offset + |written|, left, begin);
            && k' <= |Trailer(offset)| <= |w| && got + piece == Trailer(offset)[..k'] + w[|Trailer(offset)|..]
  {
    hide Trailer, Fragment, Piece;
    var pos := offset + |written|;
    PieceIs(crc, pos, left, begin, f, piece);
    var s, z := Fragment(crc, pos, left, begin), Trailer(offset);
    if begin {
      assert [] + s == s && [] + piece == piece;
    } else {
      NoTrailer(pos);
      assert s[0..] == s && Trailer(pos)[..0] + s == s;
      Added(z[..k], written, s, |z|);
    }
  }

  lemma PieceIs(crc: Checksum, pos: nat, left: seq<Byte>, begin: bool, f: nat, piece: seq<Byte>)
    requires Piece(crc, pos, left, begin, f, true, piece)
    ensures var z, s := Trailer(pos), Fragment(crc, pos, left, begin);
            f <= |z| <= |s| && piece == z[..f] + s[|z|..]
  {
    hide Trailer, Fragment;
    assert piece == piece[..f] + piece[f..];
  }

  lemma Added(x: seq<Byte>, w: seq<Byte>, s: seq<Byte>, n: nat)
    requires n <= |w|
    ensures x + w[n..] + s == x + (w + s)[n..] && (w + s)[n..] == w[n..] + s
  {
    assert (w + s)[n..] == w[n..] + s;
    assert x + w[n..] + s == x + (w[n..] + s);
  }

  /** The last turn. */
  lemma Ends(crc: Checksum, offset: nat, data: seq<Byte>, k: nat, got: seq<Byte>, written: seq<Byte>,
             left: seq<Byte>, begin: bool, f: nat, piece: seq<Byte>)
    requires Midway(crc, offset, data, k, got, written, left, begin)
    requires Piece(crc, offset + |written|, left, begin, f, true, piece)
    requires FragmentLength(offset + |written|, left) == |left|
    ensures var s, k' := Fragment(crc, offset + |written|, left, begin), if begin then f else k;
            && k' <= |Trailer(offset)|
            && LeavesAfter(crc, offset, data, k', true, got + piece, offset + |written| + |s|)
  {
    hide Emit, FragmentLength, Trailer, Fragment, Tried, OnWay;
    var pos := offset + |written|;
    var s, z := Fragment(crc, pos, left, begin), Trailer(offset);
    EmitUnfolds(crc, pos, left, begin);
    Gathered(crc, offset, k, got, written, left, begin, f, piece);
    var k' := if begin then f else k;
    assert written + s == Emit(crc, offset, data, true);
    assert (got + piece)[k'..] == (written + s)[|z|..];
    assert z[..k'] <= got + piece;
  }

  /** The turn in which something goes wrong. */
  lemma Fails(crc: Checksum, offset: nat, data: seq<Byte>, k: nat, got: seq<Byte>, written: seq<Byte>,
              left: seq<Byte>, begin: bool, f: nat, piece: seq<Byte>)
    requires Midway(crc, offset, data, k, got, written, left, begin)
    requires Piece(crc, offset + |written|, left, begin, f, false, piece)
    ensures var s, k' := Fragment(crc, offset + |written|, left, begin), if begin then f else k;
            && k' <= |Trailer(offset)|
            && LeavesAfter(crc, offset, data, k', false, got + piece, offset + |written| + |s|)
  {
    hide Emit, FragmentLength, Trailer, Fragment, Tried, OnWay;
    var pos := offset + |written|;
    var s, z, k' := Fragment(crc, pos, left, begin), Trailer(offset), if begin then f else k;
    FirstPart(crc, offset, data, k, got, written, left, begin, f, piece);
    PieceSize(crc, pos, left, begin, f, piece);
    TriesOn(crc, offset, data, pos, left, begin, |Trailer(pos)| + |piece| - f);
    if !begin {
      NoTrailer(pos);
    }
    hide Midway, Piece, Body;
    assert |z| + |got + piece| - k' == pos - offset + (|Trailer(pos)| + |piece| - f);
  }

  lemma PieceSize(crc: Checksum, pos: nat, left: seq<Byte>, begin: bool, f: nat, piece: seq<Byte>)
    requires Piece(crc, pos, left, begin, f, false, piece)
    ensures f <= |Trailer(pos)| && f <= |piece| && |Trailer(pos)| + |piece| - f <= |Fragment(crc, pos, left, begin)|
  {
    hide Trailer, Fragment;
  }

  /** What is in the file then is a first part of the record. */
  lemma FirstPart(crc: Checksum, offset: nat, data: seq<Byte>, k: nat, got: seq<Byte>, written: seq<Byte>,
                  left: seq<Byte>, begin: bool, f: nat, piece: seq<Byte>)
    requires Midway(crc, offset, data, k, got, written, left, begin)
    requires Piece(crc, offset + |written|, left, begin, f, false, piece)
    ensures var k', z := if begin then f else k, Trailer(offset);
            && k' <= |z| && z[..k'] <= got + piece && (got + piece)[k'..] <= Body(crc, offset, data)
            && if begin then written == [] && got == [] else |got| == k + |written| - |z|
  {
    hide Emit, FragmentLength, Trailer, Fragment, Tried, OnWay;
    var pos := offset + |written|;
    var s, z := Fragment(crc, pos, left, begin), Trailer(offset);
    var t := Trailer(pos);
    EmitUnfolds(crc, pos, left, begin);
    var more := Emit(crc, pos, left, begin);
    assert s <= more && |t| <= |s|;
    if begin {
      assert s[|t|..] <= more[|t|..];
      assert [] + piece == piece && [] + more == more;
    } else {
      NoTrailer(pos);
      assert piece[0..] == piece && s[0..] == s;
      Added(z[..k], written, more, |z|);
      Added(z[..k], written, piece, |z|);
      Later(z[..k], written[|z|..], piece, more);
    }
  }

  lemma Later(x: seq<Byte>, w: seq<Byte>, piece: seq<Byte>, more: seq<Byte>)
    requires piece <= more
    ensures x <= x + w + piece && (x + w + piece)[|x|..] == w + piece <= w + more
  {
    assert x + w + piece == x + (w + piece);
  }

  lemma TriesOn(crc: Checksum, offset: nat, data: seq<Byte>, pos: nat, left: seq<Byte>, begin: bool, size: nat)
    requires OnWay(offset, data, pos, left) && size <= |Fragment(crc, pos, left, begin)|
    ensures Tried(offset, data, pos - offset + size, pos - offset + |Fragment(crc, pos, left, begin)|)
  {
    assert Tried(pos, left, size, |Fragment(crc, pos, left, begin)|);
  }

  class Writer {
    const crc: Checksum
    const dest: WritableFile
    var blockOffset: nat

    ghost predicate Valid()
      reads this
    {
      blockOffset <= BLOCK_SIZE
    }

    /** The writer knows where in its block the file ends. */
    ghost predicate InStep()
      reads this, dest
    {
      blockOffset % BLOCK_SIZE == |dest.contents| % BLOCK_SIZE
    }

    /** A writer for an empty file, or for one to be continued at its current length. */
    constructor (crc: Checksum, dest: WritableFile, destLength: nat)
      requires destLength == |dest.contents|
      ensures Valid() && InStep() && this.crc == crc && this.dest == dest
    {
      this.crc, this.dest, blockOffset := crc, dest, destLength % BLOCK_SIZE;
    }

    /** Appends the fragments of a record, or some first part of them when a write fails. filled says that the trailer,
        if one was due, is there: what becomes of it is not looked at. next is where the writer then takes itself to be.
        */
    method AddRecord(data: seq<Byte>) returns (ok: bool, ghost filled: bool, ghost next: nat)
      requires Valid()
      modifies this, dest
      ensures Valid() && old(dest.contents) <= dest.contents && InPlace(next, blockOffset)
      ensures Leaves(crc, old(blockOffset), data, ok, dest.contents[|old(dest.contents)|..], next)
      ensures Trailer(old(blockOffset)) == [] ==> filled
      ensures filled ==> Between(old(dest.contents), dest.contents, Emit(crc, old(blockOffset), data, true))
      ensures filled && ok ==> dest.contents == old(dest.contents) + Emit(crc, old(blockOffset), data, true)
      ensures filled && ok && old(InStep()) ==>
                InStep() && dest.contents == old(dest.contents) + Emit(crc, |old(dest.contents)|, data, true)
      ensures dest.Reliable() ==> ok && filled
    {
      hide Emit, Fragment, FragmentLength, Trailer, Between, Midway, LeavesAfter, Leaves;
      var left, begin, more := data, true, true;
      ghost var offset: nat, written: seq<Byte>, got: seq<Byte>, k: nat := blockOffset, [], [], 0;
      ghost var before := dest.contents;
      ok, filled, next := true, true, blockOffset;
      NothingYet(crc, offset, data);
      assert before + [] == before;
      while more
        invariant Valid() && (dest.Reliable() ==> ok && filled) && (more ==> ok)
        invariant InPlace(next, blockOffset) && dest.contents == before + got
        invariant more ==> next == offset + |written| && Midway(crc, offset, data, k, got, written, left, begin)
        invariant begin ==> filled && more
        invariant k <= |Trailer(offset)| && (!begin ==> (filled <==> k == |Trailer(offset)|))
        invariant !more ==> LeavesAfter(crc, offset, data, k, ok, got, next)
        decreases more, |left|, if FragmentLength(blockOffset, left) == 0 then 1 else 0
      {
        more, ok, left, written, got, k, next := WriteOne(before, offset, data, left, begin, written, got, k);
        filled := k == |Trailer(offset)|;
        begin := false;
      }
      Concludes(before, offset, data, k, ok, got, next);
    }

    /** One turn of that loop. */
    method WriteOne(ghost before: seq<Byte>, ghost offset: nat, ghost data: seq<Byte>, left: seq<Byte>, begin: bool,
                    ghost written: seq<Byte>, ghost got: seq<Byte>, ghost k: nat)
      returns (more: bool, ok: bool, left': seq<Byte>, ghost written': seq<Byte>, ghost got': seq<Byte>, ghost k': nat,
               ghost next: nat)
      requires Valid() && InPlace(offset + |written|, blockOffset) && dest.contents == before + got
      requires Midway(crc, offset, data, k, got, written, left, begin)
      modifies this, dest
      ensures Valid() && InPlace(next, blockOffset) && dest.contents == before + got' && (more ==> ok)
      ensures k' <= |Trailer(offset)| && (!begin ==> k' == k)
      ensures more ==> next == offset + |written'| && Midway(crc, offset, data, k', got', written', left', false)
      ensures !more ==> LeavesAfter(crc, offset, data, k', ok, got', next)
      ensures dest.Reliable() ==> ok && (begin ==> k' == |Trailer(offset)|)
      ensures more && |left'| == |left| ==>
                FragmentLength(old(blockOffset), left) == 0 && FragmentLength(blockOffset, left') > 0
      ensures |left'| <= |left|
    {
      hide Emit, Fragment, FragmentLength, Trailer, Midway, LeavesAfter, Piece;
      ghost var pos, at, middle := offset + |written|, blockOffset, dest.contents;
      var n;
      ghost var f, piece;
      ok, n, f, piece := EmitFragment(left, begin);
      FragmentMoves(crc, pos, at, left, begin);
      PieceMoves(crc, pos, at, left, begin, f, ok, piece);
      ghost var s := Fragment(crc, pos, left, begin);
      SameOffset(pos, at, |s|);
      Steps(crc, offset, data, k, got, written, left, begin, f, ok, piece);
      Shorter(crc, at, blockOffset, left, begin);
      assert before + (got + piece) == before + got + piece;
      got', written', k', next := got + piece, written + s, if begin then f else k, pos + |s|;
      left' := left[n..];
      more := ok && |left'| > 0;
    }

    /** What the turn comes to. */
    static lemma Steps(crc: Checksum, offset: nat, data: seq<Byte>, k: nat, got: seq<Byte>, written: seq<Byte>,
                       left: seq<Byte>, begin: bool, f: nat, ok: bool, piece: seq<Byte>)
      requires Midway(crc, offset, data, k, got, written, left, begin)
      requires Piece(crc, offset + |written|, left, begin, f, ok, piece)
      ensures var pos, k' := offset + |written|, if begin then f else k;
              var s, n := Fragment(crc, pos, left, begin), FragmentLength(pos, left);
              && k' <= |Trailer(offset)| && |written + s| == |written| + |s|
              && (begin ==> written == [])
              && if ok && n < |left| then Midway(crc, offset, data, k', got + piece, written + s, left[n..], false)
                 else LeavesAfter(crc, offset, data, k', ok, got + piece, pos + |s|)
    {
      hide Emit, Fragment, FragmentLength, Trailer, LeavesAfter, Piece, OnWay;
      BeginsWith(crc, offset, data, k, got, written, left, begin, f, ok, piece);
      if !ok {
        Fails(crc, offset, data, k, got, written, left, begin, f, piece);
      } else if FragmentLength(offset + |written|, left) < |left| {
        Continues(crc, offset, data, k, got, written, left, begin, f, piece);
      } else {
        Ends(crc, offset, data, k, got, written, left, begin, f, piece);
      }
    }

    static lemma BeginsWith(crc: Checksum, offset: nat, data: seq<Byte>, k: nat, got: seq<Byte>, written: seq<Byte>,
                            left: seq<Byte>, begin: bool, f: nat, ok: bool, piece: seq<Byte>)
      requires Midway(crc, offset, data, k, got, written, left, begin)
      requires Piece(crc, offset + |written|, left, begin, f, ok, piece)
      ensures (if begin then f else k) <= |Trailer(offset)|
    {
    }

    /** A turn that takes no data, as only the header fits, is followed by one that does. */
    static lemma Shorter(crc: Checksum, at: nat, after: nat, left: seq<Byte>, begin: bool)
      requires InPlace(at + |Fragment(crc, at, left, begin)|, after)
      ensures FragmentLength(at, left) == 0 < |left| ==> left[0..] == left && FragmentLength(after, left) > 0
    {
      hide Fragment, FragmentLength;
      EmitUnfolds(crc, at, left, begin);
      FragmentMoves(crc, at + |Fragment(crc, at, left, begin)|, after, left, begin);
    }

    lemma Concludes(before: seq<Byte>, offset: nat, data: seq<Byte>, k: nat, ok: bool, got: seq<Byte>, next: nat)
      requires k <= |Trailer(offset)| && LeavesAfter(crc, offset, data, k, ok, got, next)
      ensures Leaves(crc, offset, data, ok, got, next) && (before + got)[|before|..] == got
      ensures k == |Trailer(offset)| ==>
                var all := Emit(crc, offset, data, true);
                && Between(before, before + got, all) && (ok ==> before + got == before + all)
                && (ok && offset % BLOCK_SIZE == |before| % BLOCK_SIZE ==>
                     all == Emit(crc, |before|, data, true) && InPlace(next, |before + got|))
    {
      hide Emit, LeavesAfter;
      NextIs(offset, data, k, ok, got, next);
      if k == |Trailer(offset)| {
        WithTrailer(crc, offset, data, k, ok, got, next);
        if ok && offset % BLOCK_SIZE == |before| % BLOCK_SIZE {
          EmitMoves(crc, offset, |before|, data, true);
          SameOffset(offset, |before|, |got|);
          assert |before + got| == |before| + |got|;
        }
      }
    }

    lemma NextIs(offset: nat, data: seq<Byte>, k: nat, ok: bool, got: seq<Byte>, next: nat)
      requires k <= |Trailer(offset)| && LeavesAfter(crc, offset, data, k, ok, got, next)
      ensures ok ==> next == offset + |Emit(crc, offset, data, true)|
    {
    }

    /** A trailer if need be, of which k bytes come to be there, then as much of the data as the block takes. */
    method EmitFragment(data: seq<Byte>, begin: bool) returns (ok: bool, n: nat, ghost k: nat, ghost piece: seq<Byte>)
      requires Valid()
      modifies this, dest
      ensures Valid() && n == FragmentLength(old(blockOffset), data) && dest.contents == old(dest.contents) + piece
      ensures InPlace(old(blockOffset) + |Fragment(crc, old(blockOffset), data, begin)|, blockOffset)
      ensures Piece(crc, old(blockOffset), data, begin, k, ok, piece)
      ensures dest.Reliable() ==> ok && k == |Trailer(old(blockOffset))|
    {
      hide Between, Fragment, Header;
      ghost var before, offset := dest.contents, blockOffset;
      k := FillTrailer();
      ghost var middle := dest.contents;
      var avail := BLOCK_SIZE - blockOffset - HEADER_SIZE;
      n := if |data| < avail then |data| else avail;
      var kind := FragmentKind(begin, |data| == n);
      ok := EmitPhysicalRecord(kind, data[..n]);
      ghost var z, r := Trailer(offset), Header(crc, kind, data[..n]) + data[..n];
      IsFragment(offset, data, begin);
      Pieces(before, z[..k], middle, dest.contents, r);
      piece := dest.contents[|before|..];
      assert (z + r)[|z|..] == r;
    }

    lemma Pieces(before: seq<Byte>, z: seq<Byte>, middle: seq<Byte>, now: seq<Byte>, r: seq<Byte>)
      requires middle == before + z && Between(middle, now, r)
      ensures before <= now && now == before + now[|before|..]
      ensures z <= now[|before|..] && now[|before|..][|z|..] <= r
      ensures now == middle + r ==> now[|before|..][|z|..] == r
    {
      var p := now[|middle|..];
      assert now == middle + p && p <= r;
      assert now == before + (z + p);
      assert now[|before|..] == z + p;
    }

    lemma IsFragment(offset: nat, data: seq<Byte>, begin: bool)
      ensures var n := FragmentLength(offset, data);
              Fragment(crc, offset, data, begin) ==
              Trailer(offset) + (Header(crc, FragmentKind(begin, |data| == n), data[..n]) + data[..n])
    {
      hide Trailer, Header;
    }

    /** Switches to a new block when the current one has no room for a header. */
    method FillTrailer() returns (ghost k: nat)
      requires Valid()
      modifies this, dest
      ensures Valid() && blockOffset <= BLOCK_SIZE - HEADER_SIZE && k <= |Trailer(old(blockOffset))|
      ensures dest.contents == old(dest.contents) + Trailer(old(blockOffset))[..k]
      ensures blockOffset == (old(blockOffset) + |Trailer(old(blockOffset))|) % BLOCK_SIZE
      ensures dest.Reliable() ==> k == |Trailer(old(blockOffset))|
    {
      ghost var z, before := Trailer(blockOffset), dest.contents;
      var leftover := BLOCK_SIZE - blockOffset;
      k := 0;
      assert before + z[..0] == before;
      if leftover < HEADER_SIZE {
        if leftover > 0 {
          var ok := dest.Append(seq(leftover, _ => 0));
          k := |dest.contents| - |before|;
          assert before + z[..k] == (before + z)[..|before| + k];
        }
        blockOffset := 0;
      }
    }

    /** The header, and if that went well the data, and if that went well a flush. */
    method EmitPhysicalRecord(kind: Byte, data: seq<Byte>) returns (ok: bool)
      requires Valid() && blockOffset + HEADER_SIZE + |data| <= BLOCK_SIZE
      modifies this, dest
      ensures Valid() && blockOffset == old(blockOffset) + HEADER_SIZE + |data|
      ensures Between(old(dest.contents), dest.contents, Header(crc, kind, data) + data)
      ensures ok ==> dest.contents == old(dest.contents) + (Header(crc, kind, data) + data)
      ensures dest.Reliable() ==> ok
    {
      hide Between;
      var sum := crc.mask(crc.value([kind] + data));
      var header := LE(4, sum) + [|data| % 0x100, |data| / 0x100] + [kind];
      assert LE(2, |data|) == [|data| % 0x100, |data| / 0x100] by {
        assert LE(1, |data| / 0x100) == [|data| / 0x100] + LE(0, 0);
      }
      ghost var before := dest.contents;
      ok := dest.Append(header);
      BetweenFirst(before, dest.contents, header, data);
      if ok {
        ok := dest.Append(data);
        BetweenMore(before, dest.contents, header, data);
        if ok {
          assert dest.contents == before + (header + data);
          ok := dest.Flush();
        }
      }
      blockOffset := blockOffset + HEADER_SIZE + |data|;
    }
  }

  /** A file read from its start; skipping stops at its end. fault says which calls fail, and how many bytes a reading
      one hands out all the same. */
  class SequentialFile {
    const contents: seq<Byte>
    const fault: nat -> Option<nat>
    var pos: nat
    var calls: nat

    ghost predicate Valid()
      reads this
    {
      pos <= |contents|
    }

    ghost predicate Reliable() {
      forall n :: fault(n) == None
    }

    constructor (contents: seq<Byte>, fault: nat -> Option<nat>)
      ensures Valid() && this.contents == contents && this.fault == fault && pos == 0
    {
      this.contents, this.fault, pos, calls := contents, fault, 0, 0;
    }

    method Skip(n: nat) returns (ok: bool)
      requires Valid()
      modifies this
      ensures Valid() && (Reliable() ==> ok) && (!ok ==> pos == old(pos))
      ensures ok ==> pos == if old(pos) + n <= |contents| then old(pos) + n else |contents|
    {
      ok := fault(calls).None?;
      calls := calls + 1;
      if ok {
        pos := if pos + n <= |contents| then pos + n else |contents|;
      }
    }

    method Read(n: nat) returns (ok: bool, data: seq<Byte>)
      requires Valid()
      modifies this
      ensures Valid() && pos == old(pos) + |data| && (Reliable() ==> ok)
      ensures data == contents[old(pos)..old(pos) + |data|] && |data| <= n
      ensures ok ==> |data| == if old(pos) + n <= |contents| then n else |contents| - old(pos)
    {
      var f := fault(calls);
      calls := calls + 1;
      ok := f.None?;
      var k := if pos + n <= |contents| then n else |contents| - pos;
      if !ok && f.value < k { k := f.value; }
      data := contents[pos..pos + k];
      pos := pos + k;
    }
  }

  /** n is a block boundary. */
  ghost predicate Aligned(n: nat) {
    n % BLOCK_SIZE == 0
  }

  /** What ReportDrop compares: the unsigned difference wraps when more is dropped than was read. */
  predicate Counts(bytes: nat, at: nat, initial: nat) {
    var start := at - bytes;
    (if start < 0 then start + POW64 else start) >= initial
  }

  /** The first block to be read: an error there goes unreported unless it is the block at the start of the file, for
      which the difference wraps. */
  lemma FirstReadError(initial: nat, end: nat)
    requires SkipTarget(initial) <= initial && SkipTarget(initial) <= end < SkipTarget(initial) + BLOCK_SIZE
    ensures Counts(BLOCK_SIZE, end, initial) <==> SkipTarget(initial) == 0
  {
  }

  lemma SliceOfSlice(f: seq<Byte>, a: nat, b: nat, i: nat, j: nat)
    requires a + j <= b <= |f| && i <= j
    ensures f[a..b][i..j] == f[a + i..a + j] && (i == 0 ==> f[a..b][..j] == f[a..a + j])
  {
    var s := f[a..b];
    var x, y := s[i..j], f[a + i..a + j];
    forall k | 0 <= k < j - i ensures x[k] == y[k] {
      assert x[k] == s[i + k] && s[i + k] == f[a + (i + k)];
    }
    assert x == y && (i == 0 ==> s[..j] == x);
  }

  lemma SuffixOfSlice(f: seq<Byte>, a: nat, b: nat, n: nat)
    requires a + n <= b <= |f|
    ensures f[a..b][n..] == f[a + n..b]
  {
    var x, y := f[a..b][n..], f[a + n..b];
    forall k | 0 <= k < b - a - n ensures x[k] == y[k] {
      assert x[k] == f[a..b][n + k] && f[a..b][n + k] == f[a + (n + k)];
    }
    assert x == y;
  }

  /** A physical record that ends at pos has the type that the reader takes for the end of the file. */
  ghost predicate SaysEof(f: seq<Byte>, pos: nat) {
    exists start: nat :: BearsEof(f, start, pos)
  }

  predicate BearsEof(f: seq<Byte>, start: nat, pos: nat) {
    && start + HEADER_SIZE <= pos <= |f| && f[start + 6] == EOF_TYPE
    && start + HEADER_SIZE + FromLE(f[start + 4..start + 6]) == pos
  }

  class Reader {
    const crc: Checksum
    const file: SequentialFile
    const checksum: bool
    const initialOffset: nat
    var buffer: seq<Byte>
    var eof: bool
    var lastRecordOffset: int
    var endOfBufferOffset: nat
    var resyncing: bool
    var reports: nat  // calls to the reporter

    /** The buffer is what is left of one block of the file; eof is set once a read came back short. */
    ghost predicate Valid()
      reads this, file
    {
      && file.Valid() && |buffer| <= endOfBufferOffset
      && file.pos == (if endOfBufferOffset <= |file.contents| then endOfBufferOffset else |file.contents|)
      && buffer == (if endOfBufferOffset <= |file.contents| then file.contents[Pos()..endOfBufferOffset] else [])
      && (!eof ==> Aligned(endOfBufferOffset) && |buffer| <= BLOCK_SIZE)
      && (eof ==> endOfBufferOffset >= |file.contents|)
      && (eof && buffer != [] ==> AtEof(file.contents, Pos()))
    }

    /** Where in the file the reader stands. */
    ghost function Pos(): nat
      requires |buffer| <= endOfBufferOffset
      reads this
    {
      endOfBufferOffset - |buffer|
    }

    constructor (crc: Checksum, file: SequentialFile, checksum: bool, initialOffset: nat)
      requires file.Valid() && file.pos == 0
      ensures Valid() && Pos() == 0 && buffer == [] && !eof && reports == 0 && resyncing == (initialOffset > 0)
      ensures lastRecordOffset == 0
      ensures this.crc == crc && this.file == file && this.checksum == checksum && this.initialOffset == initialOffset
    {
      this.crc, this.file, this.checksum, this.initialOffset := crc, file, checksum, initialOffset;
      buffer, eof, lastRecordOffset, endOfBufferOffset, reports := [], false, 0, 0, 0;
      resyncing := initialOffset > 0;
      new;
      hide AtEof;
      assert file.contents[0..0] == [];
    }

    /** The end of the file was met, or a block that cannot be read. */
    ghost predicate Ended()
      reads this, file
    {
      file.Valid() && eof && buffer == []
    }

    /** The subtraction only wraps for what was not read: of what was, those bytes count that Reported says. */
    method ReportDrop(bytes: nat)
      requires |buffer| <= endOfBufferOffset
      modifies this`reports
      ensures reports == old(reports) + Count(Counts(bytes, Pos(), initialOffset))
      ensures bytes <= Pos() ==> (Counts(bytes, Pos(), initialOffset) <==> Reported(bytes, Pos(), initialOffset))
    {
      var start := endOfBufferOffset - |buffer| - bytes;
      if start < 0 { start := start + POW64; }
      if start >= initialOffset {
        reports := reports + 1;
      }
    }

    /** A block that cannot be read ends the file; it counts as dropped, though none of it may have been read. */
    method ReadPhysicalRecord() returns (kind: nat, fragment: seq<Byte>, ghost failed: bool)
      requires Valid() || Ended()
      modifies this, file
      ensures (file.Reliable() ==> !failed) && old(reports) <= reports
      ensures failed ==>
                && Ended() && kind == EOF_TYPE
                && reports == old(reports) + Count(Counts(BLOCK_SIZE, endOfBufferOffset, initialOffset))
      ensures |buffer| <= endOfBufferOffset
      ensures lastRecordOffset == old(lastRecordOffset) && resyncing == old(resyncing)
      ensures kind == EOF_TYPE ==> Ended() || SaysEof(file.contents, Pos())
      ensures old(Ended()) ==> kind == EOF_TYPE && Ended() && !failed && reports == old(reports)
      ensures !failed && old(Valid()) ==>
              var p := NextPhysical(crc, checksum, initialOffset, file.contents, old(Pos()));
              && Valid() && p.kind == kind && p.data == fragment && p.next == Pos()
              && reports == old(reports) + Count(p.dropped > 0 && Reported(p.dropped, p.next, initialOffset))
    {
      hide NextPhysical, AtEof, SaysEof;
      var more;
      more, failed := FillBuffer();
      if !more {
        kind, fragment := EOF_TYPE, [];
        return;
      }
      kind, fragment := ParsePhysical();
    }

    /** A header's worth of bytes in the buffer, reading on past trailers; false at the end of the file. */
    method FillBuffer() returns (ok: bool, ghost failed: bool)
      requires Valid() || Ended()
      modifies this, file
      ensures file.Reliable() ==> !failed
      ensures failed ==>
                && Ended() && !ok
                && reports == old(reports) + Count(Counts(BLOCK_SIZE, endOfBufferOffset, initialOffset))
      ensures lastRecordOffset == old(lastRecordOffset) && resyncing == old(resyncing)
      ensures if ok then Valid() && |buffer| >= HEADER_SIZE && old(Valid()) else Ended()
      ensures !failed ==> reports == old(reports)
      ensures old(Ended()) ==> !ok && !failed
      ensures !failed && old(Valid()) ==>
              var p := NextPhysical(crc, checksum, initialOffset, file.contents, old(Pos()));
              && Valid()
              && if ok then p == NextPhysical(crc, checksum, initialOffset, file.contents, Pos())
                 else p == Physical(EOF_TYPE, [], Pos(), 0)
    {
      hide NextPhysical, AtEof;
      while |buffer| < HEADER_SIZE
        invariant lastRecordOffset == old(lastRecordOffset) && resyncing == old(resyncing)
        invariant reports == old(reports) && (if old(Ended()) then Ended() else Valid()) &&
                  |buffer| <= endOfBufferOffset
        invariant old(Valid()) ==>
                    && Valid()
                    && NextPhysical(crc, checksum, initialOffset, file.contents, Pos()) ==
                       NextPhysical(crc, checksum, initialOffset, file.contents, old(Pos()))
        decreases !eof, |file.contents| - endOfBufferOffset
      {
        if eof {
          if Valid() { NothingLeft(); }
          buffer := [];
          return false, false;
        }
        TrailerIsSkipped();
        var loaded := LoadBlock();
        if !loaded { return false, true; }
      }
      ok, failed := true, false;
    }

    /** What is buffered of a full block, too little for a header, is skipped. */
    lemma TrailerIsSkipped()
      requires Valid() && !eof && |buffer| < HEADER_SIZE
      ensures NextPhysical(crc, checksum, initialOffset, file.contents, Pos()) ==
              NextPhysical(crc, checksum, initialOffset, file.contents, endOfBufferOffset)
    {
      if buffer != [] {
        BlockOf(Pos(), endOfBufferOffset);
      }
    }

    /** end closes the block that pos lies in. */
    lemma BlockOf(pos: nat, end: nat)
      requires end % BLOCK_SIZE == 0 && pos < end <= pos + BLOCK_SIZE
      ensures (pos / BLOCK_SIZE + 1) * BLOCK_SIZE == end
    {
    }

    lemma NothingLeft()
      requires Valid() && eof && |buffer| < HEADER_SIZE
      ensures NextPhysical(crc, checksum, initialOffset, file.contents, Pos()) ==
              Physical(EOF_TYPE, [], endOfBufferOffset, 0)
    {
    }

    lemma NextBlock(pos: nat)
      requires Aligned(pos)
      ensures Aligned(pos + BLOCK_SIZE) && (|file.contents| < pos + BLOCK_SIZE ==> AtEof(file.contents, pos))
    {
    }

    method LoadBlock() returns (ok: bool)
      requires Valid() && !eof
      modifies this, file
      ensures file.Reliable() ==> ok
      ensures ok ==> Valid() && Pos() == old(endOfBufferOffset) && (eof <==> |buffer| < BLOCK_SIZE)
      ensures lastRecordOffset == old(lastRecordOffset) && resyncing == old(resyncing)
      ensures ok ==> reports == old(reports)
      ensures !ok ==>
                && Ended() && old(endOfBufferOffset) <= endOfBufferOffset <= old(endOfBufferOffset) + BLOCK_SIZE
                && reports == old(reports) + Count(Counts(BLOCK_SIZE, endOfBufferOffset, initialOffset))
    {
      hide AtEof, Aligned, Counts, Reported, Valid;
      BetweenBlocks();
      ghost var end := endOfBufferOffset;
      ok, buffer := file.Read(BLOCK_SIZE);
      endOfBufferOffset := endOfBufferOffset + |buffer|;
      if !ok {
        buffer := [];
        ReportDrop(BLOCK_SIZE);
        eof := true;
      } else {
        if |buffer| < BLOCK_SIZE {
          eof := true;
        }
        BlockIsIn(end);
      }
    }

    /** As long as there is more, the file is read block by block. */
    lemma BetweenBlocks()
      requires Valid() && !eof
      ensures file.Valid() && |buffer| <= endOfBufferOffset && Aligned(endOfBufferOffset)
      ensures file.pos == (if endOfBufferOffset <= |file.contents| then endOfBufferOffset else |file.contents|)
    {
      hide AtEof, Aligned;
    }

    /** What was buffered is the block from `end` on. */
    lemma BlockIsIn(end: nat)
      requires file.Valid() && Aligned(end) && endOfBufferOffset == end + |buffer|
      requires var from := if end <= |file.contents| then end else |file.contents|;
               && file.pos == from + |buffer| <= |file.contents| && buffer == file.contents[from..from + |buffer|]
               && |buffer| == if from + BLOCK_SIZE <= |file.contents| then BLOCK_SIZE else |file.contents| - from
      requires eof <==> |buffer| < BLOCK_SIZE
      ensures Valid() && Pos() == end
    {
      hide AtEof, Aligned;
      NextBlock(end);
    }

    lemma HeaderInFile()
      requires Valid() && |buffer| >= HEADER_SIZE
      ensures var f, pos := file.contents, Pos();
              && BufferEnd(f, pos) == endOfBufferOffset <= |f| && (AtEof(f, pos) <==> eof)
              && buffer == f[pos..endOfBufferOffset]
              && buffer[4..6] == f[pos + 4..pos + 6] && buffer[6] == f[pos + 6] && buffer[..4] == f[pos..pos + 4]
    {
      var f, pos := file.contents, Pos();
      if !eof { BlockOf(pos, endOfBufferOffset); }
      SliceOfSlice(f, pos, endOfBufferOffset, 4, 6);
      SliceOfSlice(f, pos, endOfBufferOffset, 0, 4);
    }

    /** What comes next is all in the buffer. */
    lemma BufferSaysNext()
      requires Valid() && |buffer| >= HEADER_SIZE
      ensures |buffer| <= endOfBufferOffset
      ensures var length, k := FromLE(buffer[4..6]), buffer[6];
              NextPhysical(crc, checksum, initialOffset, file.contents, Pos()) ==
              if HEADER_SIZE + length > |buffer| then
                if eof then Physical(EOF_TYPE, [], endOfBufferOffset, 0)
                else Physical(BAD_RECORD, [], endOfBufferOffset, |buffer|)
              else if k == ZERO_TYPE && length == 0 then Physical(BAD_RECORD, [], endOfBufferOffset, 0)
              else if checksum && crc.unmask(Loaded(buffer, 0)) != crc.value(buffer[6..7 + length]) then
                Physical(BAD_RECORD, [], endOfBufferOffset, |buffer|)
              else if Pos() < initialOffset then Physical(BAD_RECORD, [], Pos() + HEADER_SIZE + length, 0)
              else Physical(k, buffer[HEADER_SIZE..HEADER_SIZE + length], Pos() + HEADER_SIZE + length, 0)
    {
      HeaderInFile();
      hide BufferEnd, AtEof;
      var f, pos, length := file.contents, Pos(), FromLE(buffer[4..6]);
      if HEADER_SIZE + length <= |buffer| {
        SliceOfSlice(f, pos, endOfBufferOffset, 6, 7 + length);
        SliceOfSlice(f, pos, endOfBufferOffset, HEADER_SIZE, HEADER_SIZE + length);
      }
    }

    method ParsePhysical() returns (kind: nat, fragment: seq<Byte>)
      requires Valid() && |buffer| >= HEADER_SIZE
      modifies this
      ensures Valid() && |buffer| <= endOfBufferOffset && old(reports) <= reports
      ensures lastRecordOffset == old(lastRecordOffset) && resyncing == old(resyncing)
      ensures kind == EOF_TYPE ==> Ended() || SaysEof(file.contents, Pos())
      ensures var p := NextPhysical(crc, checksum, initialOffset, file.contents, old(Pos()));
              && p.kind == kind && p.data == fragment && p.next == Pos()
              && reports == old(reports) + Count(p.dropped > 0 && Reported(p.dropped, p.next, initialOffset))
    {
      hide NextPhysical, AtEof, Valid, SaysEof;
      BufferSaysNext();
      SaysWhat();
      var header := buffer;
      var length, k := FromLE(buffer[4..6]), buffer[6];
      if HEADER_SIZE + length > |buffer| {
        kind := DropBuffer(!eof);
        return kind, [];
      }
      if k == ZERO_TYPE && length == 0 {
        RemovePrefix(|buffer|);
        return BAD_RECORD, [];
      }
      if checksum {
        var expected := crc.unmask(Loaded(buffer, 0));
        var actual := crc.value(buffer[6..7 + length]);
        if actual != expected {
          kind := DropBuffer(true);
          return kind, [];
        }
      }
      RemovePrefix(HEADER_SIZE + length);
      if endOfBufferOffset - |buffer| - HEADER_SIZE - length < initialOffset {
        return BAD_RECORD, [];
      }
      return k, header[HEADER_SIZE..HEADER_SIZE + length];
    }

    /** The physical record at the front of the buffer may itself bear the type that stands for the end. */
    lemma SaysWhat()
      requires Valid() && |buffer| >= HEADER_SIZE
      ensures var length := FromLE(buffer[4..6]);
              HEADER_SIZE + length <= |buffer| && buffer[6] == EOF_TYPE ==>
                SaysEof(file.contents, Pos() + HEADER_SIZE + length)
    {
      HeaderInFile();
      hide BufferEnd, AtEof, Valid;
      var f, pos := file.contents, Pos();
      if buffer[6] == EOF_TYPE {
        var length := FromLE(buffer[4..6]);
        assert HEADER_SIZE + length <= |buffer| ==> BearsEof(f, pos, pos + HEADER_SIZE + length);
      }
    }

    method RemovePrefix(n: nat)
      requires Valid() && n <= |buffer|
      modifies this`buffer
      ensures Valid() && buffer == old(buffer)[n..] && |buffer| <= endOfBufferOffset && Pos() == old(Pos()) + n
    {
      hide AtEof;
      StillAtEof(Pos(), Pos() + n);
      if endOfBufferOffset <= |file.contents| {
        SuffixOfSlice(file.contents, Pos(), endOfBufferOffset, n);
      }
      buffer := buffer[n..];
    }

    lemma StillAtEof(pos: nat, pos': nat)
      requires pos <= pos'
      ensures AtEof(file.contents, pos) ==> AtEof(file.contents, pos')
    {
    }

    /** Clears the buffer; what was in it counts as corrupt unless the file simply ends there. */
    method DropBuffer(corrupt: bool) returns (kind: nat)
      requires Valid() && |buffer| >= HEADER_SIZE && (corrupt || eof)
      modifies this
      ensures Valid() && buffer == [] && endOfBufferOffset == old(endOfBufferOffset) && (corrupt || Ended())
      ensures lastRecordOffset == old(lastRecordOffset) && resyncing == old(resyncing)
      ensures kind == if corrupt then BAD_RECORD else EOF_TYPE
      ensures reports == old(reports) + Count(corrupt && Reported(|old(buffer)|, endOfBufferOffset, initialOffset))
    {
      var dropSize := |buffer|;
      buffer := [];
      if corrupt {
        ReportDrop(dropSize);
        return BAD_RECORD;
      }
      return EOF_TYPE;
    }

    /** Not used yet, but perhaps for a skip that failed. */
    ghost predicate Unused()
      reads this, file
    {
      file.Valid() && file.pos == 0 && buffer == [] && !eof && lastRecordOffset == 0
    }

    /** The reader is about to skip to the initial offset, or has done so and stands somewhere in the file. */
    ghost predicate Fresh()
      reads this, file
    {
      if lastRecordOffset < initialOffset then Unused() else Valid()
    }

    lemma SkipTargetIsABlock()
      ensures Aligned(SkipTarget(initialOffset))
    {
    }

    /** A skip that fails is never reported: what it drops lies before the initial offset. */
    method SkipToInitialBlock() returns (ok: bool)
      requires Unused() || Ended()
      modifies this, file
      ensures (file.Reliable() ==> ok) && resyncing == old(resyncing) && reports == old(reports)
      ensures lastRecordOffset == old(lastRecordOffset) && (old(Ended()) ==> Ended())
      ensures old(Unused()) ==> if ok then Valid() && Pos() == SkipTarget(initialOffset) else Unused()
    {
      SkipTargetIsABlock();
      hide Aligned;
      var offsetInBlock := initialOffset % BLOCK_SIZE;
      var blockStart := initialOffset - offsetInBlock;
      if offsetInBlock > BLOCK_SIZE - 6 {
        offsetInBlock := 0;
        blockStart := blockStart + BLOCK_SIZE;
      }
      ok := MoveTo(blockStart);
    }

    method MoveTo(blockStart: nat) returns (ok: bool)
      requires (Unused() || Ended()) && Aligned(blockStart) && (blockStart > 0 ==> initialOffset > 0)
      modifies this, file
      ensures (file.Reliable() ==> ok) && resyncing == old(resyncing) && reports == old(reports)
      ensures lastRecordOffset == old(lastRecordOffset) && (old(Ended()) ==> Ended())
      ensures old(Unused()) ==> if ok then Valid() && Pos() == blockStart else Unused()
    {
      hide AtEof, Aligned;
      ok := true;
      endOfBufferOffset := blockStart;
      if blockStart > 0 {
        ok := file.Skip(blockStart);
        if !ok {
          ReportDrop(blockStart);
          return;
        }
      }
      assert blockStart <= |file.contents| ==> file.contents[blockStart..blockStart] == [];
    }

    /** The next record of the file. If a call on the file fails there is none, and at most one more report. After the
        end there is none any more, and no report, whether the reader skips to its offset once more or not. */
    method ReadRecord() returns (ok: bool, record: seq<Byte>, ghost failed: bool)
      requires Fresh() || Ended()
      modifies this, file
      ensures |buffer| <= endOfBufferOffset && (file.Reliable() ==> !failed)
      ensures Fresh() || Ended() || SaysEof(file.contents, Pos())
      ensures old(Ended()) ==> !ok && Ended() && reports == old(reports)
      ensures old(Fresh()) ==>
              var first := if old(lastRecordOffset) < initialOffset then SkipTarget(initialOffset) else old(Pos());
              var a := FRESH.(resyncing := old(resyncing));
              var r := ReadFrom(crc, checksum, initialOffset, file.contents, first, a);
              if failed then !ok && old(reports) <= reports <= old(reports) + r.reports + 1
              else
                && Valid() && ok == r.record.Some?
                && (ok ==> r.record.value == record && lastRecordOffset == r.start && !resyncing)
                && Pos() == r.next && reports == old(reports) + r.reports
      ensures if ok then lastRecordOffset >= initialOffset && Pos() <= |file.contents|
              else lastRecordOffset == old(lastRecordOffset)
      ensures ok ==> LogFragments.Stands(crc, checksum, file.contents, lastRecordOffset, record, Pos())
    {
      hide ReadFrom, NextPhysical, Assemble, Valid, Unused, Adds, SkipTarget, SaysEof, LogFragments.Stands;
      Standing();
      ok, record, failed := false, [], false;
      if lastRecordOffset < initialOffset {
        var skipped := SkipToInitialBlock();
        if !skipped {
          Standing();
          failed := true;
          return;
        }
      }
      Standing();
      ghost var first, resync := Pos(), resyncing;
      StartsLater(crc, checksum, initialOffset, file.contents, first, FRESH.(resyncing := resync));
      ReadWithin(crc, checksum, initialOffset, file.contents, first, FRESH.(resyncing := resync));
      LogFragments.ReturnedStands(crc, checksum, initialOffset, file.contents, first, FRESH.(resyncing := resync));
      var a := FRESH.(resyncing := resyncing);
      AddsNothing(Answer(first, resync));
      var more := true;
      while more
        invariant old(reports) <= reports && (failed ==> !more) && (file.Reliable() ==> !failed)
        invariant |buffer| <= endOfBufferOffset && (!ok ==> lastRecordOffset == old(lastRecordOffset)) && (more ==> !ok)
        invariant old(Ended()) ==> Ended() && !ok && reports == old(reports)
        invariant more && !old(Ended()) ==> Valid()
        invariant more && Valid() ==> resyncing == a.resyncing && |a.scratch| <= Pos()
        invariant more && Valid() ==> Adds(Answer(first, resync), Read(Pos(), a), reports - old(reports))
        invariant !more && !ok ==> Ended() || SaysEof(file.contents, Pos())
        invariant old(Fresh()) && !failed ==> Valid()
        invariant old(Fresh()) && !more && !failed ==>
                  Returned(Answer(first, resync), ok, record, reports - old(reports))
        invariant old(Fresh()) && failed ==> !ok && reports - old(reports) <= Answer(first, resync).reports + 1
        decreases more, |file.contents| - Pos()
      {
        more, ok, record, a, failed := Turn(a, Answer(first, resync), reports - old(reports));
      }
    }

    ghost function Read(pos: nat, a: Assembly): Outcome
      reads this, file
    {
      ReadFrom(crc, checksum, initialOffset, file.contents, pos, a)
    }

    ghost function Answer(first: nat, resync: bool): Outcome
      reads this, file
    {
      Read(first, FRESH.(resyncing := resync))
    }

    ghost predicate Returned(r: Outcome, ok: bool, record: seq<Byte>, n: nat)
      requires |buffer| <= endOfBufferOffset
      reads this
    {
      && ok == r.record.Some? && (ok ==> r.record.value == record && lastRecordOffset == r.start && !resyncing)
      && Pos() == r.next && n == r.reports
    }

    static lemma AddsNothing(r: Outcome)
      ensures Adds(r, r, 0)
    {
    }

    lemma Standing()
      ensures Valid() || Unused() || Ended() ==> |buffer| <= endOfBufferOffset
    {
    }

    /** One turn of ReadRecord's loop. */
    method Turn(a: Assembly, ghost answer: Outcome, ghost n: nat)
      returns (more: bool, ok: bool, record: seq<Byte>, a': Assembly, ghost failed: bool)
      requires Valid() || Ended()
      requires Valid() ==> resyncing == a.resyncing && n <= reports && |a.scratch| <= Pos()
      requires Valid() ==> Adds(answer, Read(Pos(), a), n)
      modifies this, file
      ensures old(reports) <= reports && (file.Reliable() ==> !failed) && |buffer| <= endOfBufferOffset
      ensures !ok ==> lastRecordOffset == old(lastRecordOffset) && (more || Ended() || SaysEof(file.contents, Pos()))
      ensures more ==> !ok && !failed
      ensures old(Ended()) ==> !more && !ok && !failed && Ended() && reports == old(reports)
      ensures failed ==> !more && !ok && Ended()
      ensures failed && old(Valid()) ==> n + (reports - old(reports)) <= answer.reports + 1
      ensures !failed && old(Valid()) ==> Valid()
      ensures more ==> Valid() && resyncing == a'.resyncing && Pos() > old(Pos()) && Pos() <= |file.contents|
      ensures more ==> |a'.scratch| <= Pos()
      ensures more ==> Adds(answer, Read(Pos(), a'), n + (reports - old(reports)))
      ensures old(Valid()) && !more && !failed ==> Returned(answer, ok, record, n + (reports - old(reports)))
    {
      hide ReadFrom, NextPhysical, Assemble, Counts, Reported, Valid, Adds, SaysEof;
      Standing();
      if Valid() {
        NextMeans(answer, a, n);
        NextWithin(crc, checksum, initialOffset, file.contents, Pos());
        DataWithin(crc, checksum, initialOffset, file.contents, Pos());
      }
      var kind, fragment;
      kind, fragment, failed := ReadPhysicalRecord();
      if kind == EOF_TYPE {
        more, ok, record, a' := false, false, [], a;
        return;
      }
      Gathers(kind, fragment, Pos(), a, initialOffset);
      ok, record, a' := TakeFragment(kind, fragment, a);
      more := !ok;
    }

    /** What the next physical record makes of the answer. */
    lemma NextMeans(answer: Outcome, a: Assembly, n: nat)
      requires |buffer| <= endOfBufferOffset && Adds(answer, Read(Pos(), a), n)
      ensures answer.reports >= n
      ensures var p := NextPhysical(crc, checksum, initialOffset, file.contents, Pos());
              var m := n + Count(p.dropped > 0 && Reported(p.dropped, p.next, initialOffset));
              if p.kind == EOF_TYPE then answer == Outcome(None, 0, p.next, m)
              else
                var (stop, a', more) := Assemble(p.kind, p.data, p.next, a, initialOffset);
                if stop.Some? then answer == Outcome(stop, a'.start, p.next, m + more) && !a'.resyncing
                else Adds(answer, Read(p.next, a'), m + more)
    {
      hide ReadFrom, NextPhysical, Assemble, Reported;
      ReadFromStep(crc, checksum, initialOffset, file.contents, Pos(), a);
    }

    /** Does what the fragment says, and keeps track of where the record starts. */
    method TakeFragment(kind: nat, fragment: seq<Byte>, a: Assembly)
      returns (ok: bool, record: seq<Byte>, a': Assembly)
      requires Valid() && |buffer| <= endOfBufferOffset && |a.scratch| + |fragment| <= Pos()
      modifies this
      ensures Valid() && |buffer| <= endOfBufferOffset && Pos() == old(Pos()) && resyncing == a'.resyncing
      ensures old(reports) <= reports
      ensures var (stop, b, more) := Assemble(kind, fragment, Pos(), a, initialOffset);
              && ok == stop.Some? && (ok ==> record == stop.value && lastRecordOffset == b.start)
              && a' == b && reports == old(reports) + more
      ensures !ok ==> lastRecordOffset == old(lastRecordOffset)
    {
      hide Assemble;
      ok, record, a' := OnFragment(kind, fragment, a);
      resyncing := a'.resyncing;
      if ok {
        lastRecordOffset := a'.start;
      }
    }

    /** The body of ReadRecord's loop for every kind of fragment but the end. */
    method OnFragment(kind: nat, fragment: seq<Byte>, a: Assembly)
      returns (ok: bool, record: seq<Byte>, a': Assembly)
      requires |buffer| <= endOfBufferOffset && |a.scratch| + |fragment| <= Pos()
      modifies this`reports
      ensures var (stop, b, more) := Assemble(kind, fragment, Pos(), a, initialOffset);
              && ok == stop.Some? && (ok ==> record == stop.value) && a' == b && reports == old(reports) + more
      ensures old(reports) <= reports
    {
      var offset := endOfBufferOffset - |buffer| - HEADER_SIZE - |fragment|;
      ok, record, a' := false, [], a;
      if a.resyncing {
        if kind == MIDDLE_TYPE { return; }
        a' := a'.(resyncing := false);
        if kind == LAST_TYPE { return; }
      }
      if kind == FULL_TYPE {
        if a.inFragmented && a.scratch != [] { ReportDrop(|a.scratch|); }
        return true, fragment, Assembly(false, [], offset, false);
      } else if kind == FIRST_TYPE {
        if a.inFragmented && a.scratch != [] { ReportDrop(|a.scratch|); }
        a' := Assembly(true, fragment, offset, false);
      } else if kind == MIDDLE_TYPE {
        if !a.inFragmented {
          ReportDrop(|fragment|);
        } else {
          a' := a'.(scratch := a.scratch + fragment);
        }
      } else if kind == LAST_TYPE {
        if !a.inFragmented {
          ReportDrop(|fragment|);
        } else {
          a' := a'.(scratch := a.scratch + fragment);
          return true, a'.scratch, a';
        }
      } else if kind == BAD_RECORD {
        if a.inFragmented {
          ReportDrop(|a.scratch|);
          a' := a'.(inFragmented := false, scratch := []);
        }
      } else {
        ReportDrop(|fragment| + if a.inFragmented then |a.scratch| else 0);
        a' := a'.(inFragmented := false, scratch := []);
      }
    }
  }

  /** A new reader, asked for records until there are no more, hands out what ReadFile says and reports as often. If a
      call on the file fails, it hands out the first of them, with at most one report more. */
  method ReadToEnd(reader: Reader) returns (records: seq<seq<Byte>>, ghost failed: bool)
    requires reader.Valid() && reader.Unused() && reader.endOfBufferOffset == 0 && reader.reports == 0
    requires reader.resyncing == (reader.initialOffset > 0)
    modifies reader, reader.file
    ensures reader.file.Reliable() ==> !failed
    ensures var c := ReadFile(reader.crc, reader.checksum, reader.initialOffset, reader.file.contents);
            if failed then records <= c.records && reader.reports <= c.reports + 1
            else Contents(records, reader.reports) == c
  {
    hide ReadAll, ReadFrom, SkipTarget, Ahead, Rest, Reader.Fresh, Reader.Valid, Reader.Unused, Whereabouts;
    AtStart(reader);
    records, failed := [], false;
    ghost var at := SkipTarget(reader.initialOffset);
    ghost var whole := Rest(reader, at);
    AllAhead(whole);
    var more := true;
    while more
      invariant (failed ==> !more) && (reader.file.Reliable() ==> !failed)
      invariant more ==> reader.Fresh() && |reader.buffer| <= reader.endOfBufferOffset && at == Whereabouts(reader)
      invariant more ==> Ahead(whole, Rest(reader, at), records, reader.reports)
      invariant !more && !failed ==> Contents(records, reader.reports) == whole
      invariant failed ==> records <= whole.records && reader.reports <= whole.reports + 1
      decreases more, |reader.file.contents| - at
    {
      ghost var rest, reports := Rest(reader, at), reader.reports;
      var record;
      more, record, failed := Following(reader);
      if more {
        at := Whereabouts(reader);
        OneLessAhead(whole, rest, Rest(reader, at), records, reports, record, reader.reports - reports);
        records := records + [record];
      } else {
        NoneAhead(whole, rest, records, reports);
      }
    }
  }

  /** One more call: the first of the records that are left, or nothing if there are none. */
  method Following(reader: Reader) returns (ok: bool, record: seq<Byte>, ghost failed: bool)
    requires reader.Fresh() && |reader.buffer| <= reader.endOfBufferOffset
    modifies reader, reader.file
    ensures reader.reports >= old(reader.reports) && (reader.file.Reliable() ==> !failed)
    ensures |reader.buffer| <= reader.endOfBufferOffset && (ok ==> reader.Fresh() && !failed)
    ensures var c, n := old(Rest(reader, Whereabouts(reader))), reader.reports - old(reader.reports);
            if failed then !ok && n <= c.reports + 1
            else if ok then
              && old(Whereabouts(reader)) < Whereabouts(reader) <= |reader.file.contents|
              && var d := Rest(reader, Whereabouts(reader)); c == Contents([record] + d.records, n + d.reports)
            else c == Contents([], n)
  {
    hide ReadAll, ReadFrom, SkipTarget, NextPhysical, Reader.Valid, Reader.Unused;
    ghost var at := Whereabouts(reader);
    ReadAllStep(reader.crc, reader.checksum, reader.initialOffset, reader.file.contents, at, reader.resyncing);
    ok, record, failed := reader.ReadRecord();
  }

  /** Where the reader starts looking for the next record. */
  ghost function Whereabouts(reader: Reader): nat
    requires |reader.buffer| <= reader.endOfBufferOffset
    reads reader
  {
    if reader.lastRecordOffset < reader.initialOffset then SkipTarget(reader.initialOffset) else reader.Pos()
  }

  /** What it is to hand out from there on. */
  ghost function Rest(reader: Reader, at: nat): Contents
    reads reader, reader.file
  {
    ReadAll(reader.crc, reader.checksum, reader.initialOffset, reader.file.contents, at, reader.resyncing)
  }

  /** The whole is what was handed out, and the rest. */
  ghost predicate Ahead(whole: Contents, rest: Contents, records: seq<seq<Byte>>, reports: nat) {
    whole == Contents(records + rest.records, reports + rest.reports)
  }

  lemma AllAhead(whole: Contents)
    ensures Ahead(whole, whole, [], 0)
  {
    assert [] + whole.records == whole.records;
  }

  lemma OneLessAhead(whole: Contents, rest: Contents, rest': Contents, records: seq<seq<Byte>>, reports: nat,
                     record: seq<Byte>, n: nat)
    requires Ahead(whole, rest, records, reports)
    requires rest == Contents([record] + rest'.records, n + rest'.reports)
    ensures Ahead(whole, rest', records + [record], reports + n)
  {
    assert records + ([record] + rest'.records) == records + [record] + rest'.records;
  }

  lemma NoneAhead(whole: Contents, rest: Contents, records: seq<seq<Byte>>, reports: nat)
    requires Ahead(whole, rest, records, reports)
    ensures records <= whole.records && whole.reports == reports + rest.reports
    ensures rest.records == [] ==> whole == Contents(records, reports + rest.reports)
  {
    assert records + [] == records;
  }

  lemma AtStart(reader: Reader)
    requires reader.Valid() && reader.Unused() && reader.endOfBufferOffset == 0
    requires reader.resyncing == (reader.initialOffset > 0)
    ensures reader.Fresh() && |reader.buffer| <= reader.endOfBufferOffset
    ensures Whereabouts(reader) == SkipTarget(reader.initialOffset)
    ensures Rest(reader, SkipTarget(reader.initialOffset)) ==
            ReadFile(reader.crc, reader.checksum, reader.initialOffset, reader.file.contents)
  {
    hide ReadAll;
    if reader.initialOffset == 0 {
      assert SkipTarget(0) == 0;
    }
  }
}

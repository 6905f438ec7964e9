/** What the reader makes of bytes that no writer left: it never trusts the rest of a block after something wrong, says
    so once, and goes on with the next block. */
module LogDamage {
  import opened Bytes
  import opened LogFormat
  import opened LogFragments
  import opened LogTheorems

  /** The end of the block that pos lies in. */
  function BlockEnd(pos: nat): (end: nat)
    ensures pos < end <= pos + BLOCK_SIZE && end % BLOCK_SIZE == 0
  {
    (pos / BLOCK_SIZE + 1) * BLOCK_SIZE
  }

  /** A header stands at pos, in a full block, that promises more than the block holds, or whose checksum is wrong. */
  ghost predicate Wrong(crc: Checksum, checking: bool, file: seq<Byte>, pos: nat) {
    && pos + HEADER_SIZE <= BlockEnd(pos) <= |file|
    && var length, kind := FromLE(file[pos + 4..pos + 6]), file[pos + 6];
       || pos + HEADER_SIZE + length > BlockEnd(pos)
       || (checking && !(kind == ZERO_TYPE && length == 0) &&
           crc.unmask(Loaded(file, pos)) != crc.value([kind] + file[pos + 7..pos + 7 + length]))
  }

  /** The rest of the block is skipped, and the record that was being put together is given up; there is one report for
      each of the two. */
  lemma WrongDropsBlock(crc: Checksum, checking: bool, file: seq<Byte>, pos: nat, a: Assembly)
    requires Wrong(crc, checking, file, pos) && !a.resyncing && |a.scratch| <= pos
    ensures var rest := ReadFrom(crc, checking, 0, file, BlockEnd(pos), if a.inFragmented then Idle(a) else a);
            Adds(ReadFrom(crc, checking, 0, file, pos, a), rest, if a.inFragmented then 2 else 1)
  {
    var end, length := BlockEnd(pos), FromLE(file[pos + 4..pos + 6]);
    assert BufferEnd(file, pos) == end && !AtEof(file, pos);
    if pos + HEADER_SIZE + length <= end {
      assert file[pos + 6..pos + 7 + length] == [file[pos + 6]] + file[pos + 7..pos + 7 + length];
    }
    assert NextPhysical(crc, checking, 0, file, pos) == Physical(BAD_RECORD, [], end, end - pos);
    hide NextPhysical, ReadFrom;
    ReadFromStep(crc, checking, 0, file, pos, a);
  }

  /** Nothing of a record is in hand. */
  function Idle(a: Assembly): Assembly {
    a.(inFragmented := false, scratch := [])
  }

  /** A fragment without a beginning, or of a type there is not, is passed over with one report, and so is what was
      begun before one of the latter. */
  lemma UselessIsReported(crc: Checksum, checking: bool, file: seq<Byte>, pos: nat, kind: Byte, data: seq<Byte>,
                          next: nat, a: Assembly)
    requires GoesOn(crc, checking, file, pos, kind, data, next) && !a.resyncing && |a.scratch| <= pos
    requires (!a.inFragmented && (kind == MIDDLE_TYPE || kind == LAST_TYPE)) || kind > BAD_RECORD
    ensures var rest := ReadFrom(crc, checking, 0, file, next, if kind > BAD_RECORD then Idle(a) else a);
            Adds(ReadFrom(crc, checking, 0, file, pos, a), rest, 1)
  {
    MeetsFragment(crc, checking, 0, file, pos, kind, data, next);
    hide NextPhysical, ReadFrom, FragmentAt;
    ReadFromStep(crc, checking, 0, file, pos, a);
  }

  /** From pos on the file is zero. */
  ghost predicate Zeros(file: seq<Byte>, pos: nat) {
    forall i :: pos <= i < |file| ==> file[i] == 0
  }

  lemma {:induction false} ZerosAreNothing(crc: Checksum, checking: bool, file: seq<Byte>, pos: nat)
    requires pos <= |file| && Zeros(file, pos)
    ensures var r := ReadFrom(crc, checking, 0, file, pos, FRESH); r.record == None && r.reports == 0
    decreases |file| - pos
  {
    hide ReadFrom;
    ReadFromStep(crc, checking, 0, file, pos, FRESH);
    var end := BlockEnd(pos);
    if |file| >= end {
      assert BufferEnd(file, pos) == end && !AtEof(file, pos);
      ZerosAreNothing(crc, checking, file, end);
      if end - pos < HEADER_SIZE {
        ReadFromStep(crc, checking, 0, file, end, FRESH);
      } else {
        ZeroHeader(file, pos);
        assert NextPhysical(crc, checking, 0, file, pos) == Physical(BAD_RECORD, [], end, 0);
      }
    } else {
      assert BufferEnd(file, pos) == |file| && AtEof(file, pos);
      if |file| - pos >= HEADER_SIZE {
        ZeroHeader(file, pos);
        assert NextPhysical(crc, checking, 0, file, pos) == Physical(BAD_RECORD, [], |file|, 0);
        ZerosAreNothing(crc, checking, file, |file|);
      }
    }
  }

  lemma ZeroHeader(file: seq<Byte>, pos: nat)
    requires pos + HEADER_SIZE <= |file| && Zeros(file, pos)
    ensures FromLE(file[pos + 4..pos + 6]) == 0 && file[pos + 6] == 0
  {
    var s := file[pos + 4..pos + 6];
    assert s == [0, 0] && s[1..] == [0] && s[1..][1..] == [];
  }

  /** Space set aside for a log and never written to is not taken for damage. */
  lemma ZeroFilled(crc: Checksum, checking: bool, records: seq<seq<Byte>>, n: nat)
    requires crc.Sound()
    ensures ReadFile(crc, checking, 0, Log(crc, 0, records) + seq(n, _ => 0)) == Contents(records, 0)
  {
    hide ReadFrom, ReadAll, Log;
    var log := Log(crc, 0, records);
    var file := log + seq(n, _ => 0);
    ZerosAreNothing(crc, checking, file, |log|);
    ReadAllStep(crc, checking, 0, file, |log|, false);
    NothingMore(crc, checking, records, seq(n, _ => 0));
  }
}

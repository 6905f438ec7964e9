/** What is stored, byte by byte: the encodings of the other modules against descriptions that use none of their
    functions, only places and digits. */
module Formats {
  import opened Bytes
  import Coding
  import DbFormat
  import WB = WriteBatches
  import VE = VersionEdits
  import LF = LogFormat
  import SF = SnappyFormat

  // ----- Numbers -----

  /** The number whose base-128 digits are the low seven bits of these bytes, the lowest digit first. */
  function Digits(s: seq<Byte>): nat {
    if s == [] then 0 else s[0] % 0x80 + 0x80 * Digits(s[1..])
  }

  /** All bytes but the last have the high bit set, and the last digit is not zero unless it is the only one. */
  predicate Minimal(s: seq<Byte>) {
    && s != [] && s[|s| - 1] < 0x80 && (|s| > 1 ==> s[|s| - 1] > 0)
    && forall i :: 0 <= i < |s| - 1 ==> s[i] >= 0x80
  }

  /** The variable-length form of a number is the one minimal string of its digits. */
  lemma VarintIs(v: nat, s: seq<Byte>)
    ensures s == Varint(v) <==> Minimal(s) && Digits(s) == v
  {
    hide Minimal, Digits, Varint;
    VarintDigits(v);
    if Minimal(s) {
      DigitsVarint(s);
    }
  }

  lemma {:induction false} VarintDigits(v: nat)
    ensures Minimal(Varint(v)) && Digits(Varint(v)) == v
    decreases v
  {
    if v < 0x80 {
      assert [v][1..] == [];
    } else {
      VarintDigits(v / 0x80);
      MoreDigits(0x80 + v % 0x80, Varint(v / 0x80));
    }
  }

  lemma MoreDigits(b: Byte, t: seq<Byte>)
    requires b >= 0x80 && Minimal(t) && Digits(t) > 0
    ensures Minimal([b] + t) && Digits([b] + t) == b - 0x80 + 0x80 * Digits(t)
  {
    var s := [b] + t;
    assert s[1..] == t;
    if |t| == 1 { assert t[1..] == []; }
  }

  lemma {:induction false} DigitsVarint(s: seq<Byte>)
    requires Minimal(s)
    ensures s == Varint(Digits(s)) && (s[|s| - 1] > 0 ==> Digits(s) > 0)
    decreases |s|
  {
    hide Minimal, Digits, Varint;
    FirstDigit(s);
    if |s| > 1 {
      DigitsVarint(s[1..]);
      VarintOf(s[0], Digits(s[1..]));
    }
  }

  lemma FirstDigit(s: seq<Byte>)
    requires Minimal(s)
    ensures s != [] && Digits(s) == s[0] % 0x80 + 0x80 * Digits(s[1..])
    ensures |s| == 1 ==> Digits(s) == s[0] && s == Varint(s[0])
    ensures |s| > 1 ==> s[0] >= 0x80 && Minimal(s[1..]) && s[|s| - 1] > 0 && s == [s[0]] + s[1..]
  {
    if |s| == 1 {
      assert s[1..] == [] && Digits([]) == 0;
    } else {
      hide Digits, Varint;
      StaysMinimal(s);
    }
  }

  lemma StaysMinimal(s: seq<Byte>)
    requires Minimal(s) && |s| > 1
    ensures s[0] >= 0x80 && s[|s| - 1] > 0 && Minimal(s[1..])
  {
    var t := s[1..];
    forall i | 0 <= i < |t| - 1 ensures t[i] >= 0x80 {
      assert t[i] == s[i + 1];
    }
  }

  lemma VarintOf(b: Byte, m: nat)
    requires b >= 0x80 && m > 0
    ensures Varint(b % 0x80 + 0x80 * m) == [b] + Varint(m)
  {
  }

  /** 256 to the power of i. */
  function Place(i: nat): (p: nat)
    ensures p > 0
  {
    if i == 0 then 1 else 0x100 * Place(i - 1)
  }

  /** Fixed-length numbers have their lowest byte first. */
  lemma {:induction false} FixedBytes(n: nat, v: nat, i: nat)
    requires i < n
    ensures LE(n, v)[i] == v / Place(i) % 0x100
  {
    if i > 0 {
      FixedBytes(n - 1, v / 0x100, i - 1);
      DividedTwice(v, Place(i - 1));
    }
  }

  lemma DividedTwice(v: nat, p: nat)
    requires p > 0
    ensures v / 0x100 / p == v / (0x100 * p)
  {
    var q, r := v / 0x100, v % 0x100;
    var a, b := q / p, q % p;
    assert v == 0x100 * (a * p + b) + r;
    assert v == 0x100 * p * a + (0x100 * b + r);
    assert 0x100 * (b + 1) <= 0x100 * p;
    ModUnique(v, 0x100 * p, a, 0x100 * b + r);
  }

  lemma ShortNumber(n: nat)
    requires n < 0x80
    ensures Varint(n) == [n]
  {
  }

  lemma ShortString(s: seq<Byte>)
    requires |s| < 0x80
    ensures Coding.Prefixed(s) == [|s|] + s
  {
    ShortNumber(|s|);
  }

  // ----- Keys, batches, manifests -----

  /** After the user key comes the kind, 0 for a deletion and 1 for a value, and then the sequence number in seven
      bytes, the lowest first. */
  lemma InternalKeyBytes(user: seq<Byte>, sequence: nat, i: nat)
    requires sequence <= DbFormat.MAX_SEQUENCE && i < 7
    ensures DbFormat.InternalKey(user, sequence, DbFormat.Deletion)[|user|] == 0
    ensures DbFormat.InternalKey(user, sequence, DbFormat.Value)[|user|] == 1
    ensures forall kind :: var key := DbFormat.InternalKey(user, sequence, kind);
              |key| == |user| + 8 && key[..|user|] == user && key[|user| + 1 + i] == sequence / Place(i) % 0x100
  {
    forall kind: DbFormat.Kind
      ensures var key := DbFormat.InternalKey(user, sequence, kind);
              && |key| == |user| + 8 && key[..|user|] == user && key[|user|] == DbFormat.Code(kind)
              && key[|user| + 1 + i] == sequence / Place(i) % 0x100
    {
      var tag := DbFormat.Pack(sequence, kind);
      TagBytes(sequence, kind, i);
      hide DbFormat.Pack, Place, LE;
      assert (user + LE(8, tag))[|user|..] == LE(8, tag);
    }
  }

  lemma TagBytes(sequence: nat, kind: DbFormat.Kind, i: nat)
    requires sequence <= DbFormat.MAX_SEQUENCE && i < 7
    ensures var t := LE(8, DbFormat.Pack(sequence, kind));
            t[0] == DbFormat.Code(kind) && t[1 + i] == sequence / Place(i) % 0x100
  {
    var tag := DbFormat.Pack(sequence, kind);
    assert tag == sequence * 0x100 + DbFormat.Code(kind) && tag / 0x100 == sequence;
    FixedBytes(7, sequence, i);
    hide DbFormat.Pack, Place;
    assert LE(8, tag)[1..] == LE(7, sequence);
  }

  /** A batch begins with the sequence number in eight bytes and the count in four; a value put is 1, the key and the
      value; a deletion is 0 and the key. Both strings are preceded by their lengths. */
  lemma BatchBytes(sequence: nat, key: seq<Byte>, value: seq<Byte>, other: seq<Byte>)
    requires |key| < 0x80 && |value| < 0x80 && |other| < 0x80
    ensures WB.Rep(sequence, [WB.Put(key, value), WB.Delete(other)]) ==
            LE(8, sequence) + [2, 0, 0, 0] + ([1, |key|] + key + [|value|] + value) + ([0, |other|] + other)
  {
    ShortString(key);
    ShortString(value);
    ShortString(other);
    hide Coding.Prefixed, LE;
    var put, del := WB.Put(key, value), WB.Delete(other);
    assert [put, del][1..] == [del] && [del][1..] == [] && WB.EncodeOps([]) == [];
    assert WB.EncodeOp(del) + [] == [0, |other|] + other;
    assert WB.EncodeOp(put) == [1, |key|] + key + [|value|] + value;
    assert LE(4, 2) == [2, 0, 0, 0] by { FourBytes(); }
    assert WB.EncodeOps([put, del]) == WB.EncodeOp(put) + (WB.EncodeOp(del) + []);
  }

  lemma FourBytes()
    ensures LE(4, 2) == [2, 0, 0, 0]
  {
    assert LE(1, 0) == [0] && LE(2, 0) == [0, 0] && LE(3, 0) == [0, 0, 0];
  }

  /** The tags of a manifest record, and the order of what follows each of them. */
  lemma FieldBytes(n: nat, level: nat, m: nat, name: seq<Byte>, other: seq<Byte>)
    requires n < 0x80 && level < 0x80 && m < 0x80 && |name| < 0x80 && |other| < 0x80
    ensures VE.EncodeField(VE.Comparator(name)) == [1, |name|] + name
    ensures VE.EncodeField(VE.LogNumber(n)) == [2, n]
    ensures VE.EncodeField(VE.NextFileNumber(n)) == [3, n]
    ensures VE.EncodeField(VE.LastSequence(n)) == [4, n]
    ensures VE.EncodeField(VE.CompactPointer(level, name)) == [5, level, |name|] + name
    ensures VE.EncodeField(VE.DeletedFile(level, n)) == [6, level, n]
    ensures VE.EncodeField(VE.NewFile(level, VE.File(n, m, name, other))) ==
            [7, level, n, m, |name|] + name + [|other|] + other
    ensures VE.EncodeField(VE.PrevLogNumber(n)) == [9, n]
  {
    hide VE.EncodeField;
    NumberFields(n, level);
    StringFields(level, name);
    NewFileBytes(n, level, m, name, other);
  }

  lemma NumberFields(n: nat, level: nat)
    requires n < 0x80 && level < 0x80
    ensures VE.EncodeField(VE.LogNumber(n)) == [2, n] && VE.EncodeField(VE.NextFileNumber(n)) == [3, n]
    ensures VE.EncodeField(VE.LastSequence(n)) == [4, n] && VE.EncodeField(VE.PrevLogNumber(n)) == [9, n]
    ensures VE.EncodeField(VE.DeletedFile(level, n)) == [6, level, n]
  {
    forall k: nat | k < 0x80 ensures Varint(k) == [k] { ShortNumber(k); }
    hide Varint;
  }

  lemma StringFields(level: nat, name: seq<Byte>)
    requires level < 0x80 && |name| < 0x80
    ensures VE.EncodeField(VE.Comparator(name)) == [1, |name|] + name
    ensures VE.EncodeField(VE.CompactPointer(level, name)) == [5, level, |name|] + name
  {
    ShortString(name);
    forall k: nat | k < 0x80 ensures Varint(k) == [k] { ShortNumber(k); }
    hide Varint, Coding.Prefixed;
  }

  lemma NewFileBytes(n: nat, level: nat, m: nat, name: seq<Byte>, other: seq<Byte>)
    requires n < 0x80 && level < 0x80 && m < 0x80 && |name| < 0x80 && |other| < 0x80
    ensures VE.EncodeField(VE.NewFile(level, VE.File(n, m, name, other))) ==
            [7, level, n, m, |name|] + name + [|other|] + other
  {
    ShortString(name);
    ShortString(other);
    forall k: nat | k < 0x80 ensures Varint(k) == [k] { ShortNumber(k); }
    hide Varint, Coding.Prefixed;
    assert Varint(7) + Varint(level) + Varint(n) + Varint(m) == [7, level, n, m];
    Beside([7, level, n, m], name, other);
  }

  lemma Beside(head: seq<Byte>, name: seq<Byte>, other: seq<Byte>)
    requires |name| < 0x80 && |other| < 0x80
    ensures head + ([|name|] + name) + ([|other|] + other) == head + [|name|] + name + [|other|] + other
  {
  }

  /** The fields come in the order comparator, log numbers, next file number, last sequence number, compaction pointers,
      deleted files, new files. */
  lemma EditBytes(name: seq<Byte>, a: nat, b: nat, c: nat, d: nat, key: seq<Byte>, level: nat, n: nat, f: VE.File)
    requires |name| < 0x80 && a < 0x80 && b < 0x80 && c < 0x80 && d < 0x80 && |key| < 0x80 && level < 0x80 && n < 0x80
    ensures var e := VE.Edit(Some(name), Some(a), Some(b), Some(c), Some(d), [(level, key)], {(level, n)},
                             [(level, f)]);
            VE.EncodeAll(VE.FieldsOf(e, [(level, n)])) ==
            ([1, |name|] + name) + [2, a] + [9, b] + [3, c] + [4, d] + ([5, level, |key|] + key) + [6, level, n] +
            VE.EncodeField(VE.NewFile(level, f))
  {
    hide VE.EncodeField, VE.EncodeAll;
    NumberFields(a, 0);
    NumberFields(b, 0);
    NumberFields(c, 0);
    NumberFields(d, 0);
    NumberFields(n, level);
    StringFields(level, name);
    StringFields(level, key);
    var x1, x2, x3 := VE.Comparator(name), VE.LogNumber(a), VE.PrevLogNumber(b);
    var x4, x5, x6 := VE.NextFileNumber(c), VE.LastSequence(d), VE.CompactPointer(level, key);
    var x7, x8 := VE.DeletedFile(level, n), VE.NewFile(level, f);
    var e := VE.Edit(Some(name), Some(a), Some(b), Some(c), Some(d), [(level, key)], {(level, n)}, [(level, f)]);
    assert VE.FieldsOf(e, [(level, n)]) == [x1] + [x2] + [x3] + [x4] + [x5] + [x6] + [x7] + [x8];
    AppendField([x1] + [x2] + [x3] + [x4] + [x5] + [x6] + [x7], x8);
    AppendField([x1] + [x2] + [x3] + [x4] + [x5] + [x6], x7);
    AppendField([x1] + [x2] + [x3] + [x4] + [x5], x6);
    AppendField([x1] + [x2] + [x3] + [x4], x5);
    AppendField([x1] + [x2] + [x3], x4);
    AppendField([x1] + [x2], x3);
    AppendField([x1], x2);
    VE.EncodeOne(x1);
  }

  lemma AppendField(fields: seq<VE.Field>, f: VE.Field)
    ensures VE.EncodeAll(fields + [f]) == VE.EncodeAll(fields) + VE.EncodeField(f)
  {
    VE.EncodeAllAppend(fields, [f]);
    VE.EncodeOne(f);
  }

  /** A record with any other tag cannot be read. */
  lemma UnknownTag(tag: nat, s: seq<Byte>)
    requires tag == 0 || tag == 8 || tag > 9
    ensures VE.DecodeField(tag, s) == VE.Bad("unknown tag")
  {
  }

  // ----- The log -----

  /** The type of a fragment says whether it begins and ends its record; its length is in two bytes before that. */
  lemma HeaderBytes(crc: LF.Checksum, data: seq<Byte>)
    requires |data| < 0x10000
    ensures LF.FragmentKind(true, true) == 1 && LF.FragmentKind(true, false) == 2
    ensures LF.FragmentKind(false, false) == 3 && LF.FragmentKind(false, true) == 4
    ensures forall kind: Byte :: var h := LF.Header(crc, kind, data);
              && |h| == 7 && h[..4] == LE(4, crc.mask(crc.value([kind] + data)))
              && h[4..] == [|data| % 0x100, |data| / 0x100, kind]
  {
    forall kind: Byte
      ensures LF.Header(crc, kind, data)[4..] == [|data| % 0x100, |data| / 0x100, kind]
      ensures LF.Header(crc, kind, data)[..4] == LE(4, crc.mask(crc.value([kind] + data)))
    {
      assert LE(2, |data|) == [|data| % 0x100, |data| / 0x100] by {
        assert LE(1, |data| / 0x100) == [|data| / 0x100];
      }
    }
  }

  /** A fragment never crosses the end of a block of 32768 bytes, and fills it unless it is the last of its record;
      where fewer than seven bytes of a block are left they are zero. */
  lemma FragmentFits(crc: LF.Checksum, pos: nat, data: seq<Byte>, begin: bool)
    ensures var left, n, s := 32768 - pos % 32768, LF.FragmentLength(pos, data), LF.Fragment(crc, pos, data, begin);
            if left < 7 then
              && LF.Trailer(pos) == seq(left, _ => 0)
              && n == (if |data| < 32761 then |data| else 32761) && |s| == left + 7 + n
            else
              LF.Trailer(pos) == [] && n == (if |data| < left - 7 then |data| else left - 7) && |s| == 7 + n
  {
    hide LF.Header;
  }

  // ----- Compressed data -----

  /** A literal of up to 60 bytes takes one byte more; a longer one has its length less one in as few bytes as hold
      it. */
  lemma LiteralLayout(b: seq<Byte>, k: nat)
    requires 0 < |b| < POW32 && 0 < k <= 4
    ensures |b| <= 60 ==> SF.LiteralBytes(b) == [4 * (|b| - 1)] + b
    ensures |b| > 60 && (k == 1 || |b| > Place(k - 1)) && |b| <= Place(k) ==>
              SF.LiteralBytes(b) == [4 * (59 + k)] + LE(k, |b| - 1) + b
  {
    assert Place(1) == 0x100 && Place(2) == 0x1_0000 && Place(3) == 0x100_0000 && Place(4) == POW32;
    hide LE;
    if |b| > 60 && (k == 1 || |b| > Place(k - 1)) && |b| <= Place(k) {
      assert SF.ByteCount(|b| - 1) == k;
    }
  }

  /** A near and short copy takes two bytes, any other that is not longer than 64 bytes three. */
  lemma CopyLayout(offset: nat, len: nat)
    requires 4 <= len <= 64 && offset < 0x10000
    ensures len <= 11 && offset < 0x800 ==>
              SF.CopyBytes(offset, len) == [1 + 4 * (len - 4) + 32 * (offset / 0x100), offset % 0x100]
    ensures len > 11 || offset >= 0x800 ==>
              SF.CopyBytes(offset, len) == [2 + 4 * (len - 1), offset % 0x100, offset / 0x100]
  {
    assert LE(2, offset) == [offset % 0x100, offset / 0x100] by { assert LE(1, offset / 0x100) == [offset / 0x100]; }
  }
}

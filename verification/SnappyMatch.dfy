/** How far two regions of the input agree, found a word at a time. */
module SnappyMatch {
  import opened Bytes

  // ----- The lowest set bit, by the portable halving rounds -----

  /** A shift distance below 32 as a number. */
  ghost function Distance(r: bv6): (n: nat)
    ensures n <= 31
  {
    (if r & 16 != 0 then 16 else 0) + (if r & 8 != 0 then 8 else 0) + (if r & 4 != 0 then 4 else 0) +
    (if r & 2 != 0 then 2 else 0) + (if r & 1 != 0 then 1 else 0)
  }

  /** The lowest set bit of x is bit rc: moving it up by r == 31 - rc places leaves the top bit alone. */
  ghost predicate LowestBit(x: bv32, rc: int, r: bv6) {
    r < 32 && rc == 31 - Distance(r) && x << r == 0x8000_0000
  }

  /** The loop over shifts 16, 8, 4, 2, 1, its five rounds written out. */
  method FindLSBSetNonZero(x: bv32) returns (rc: int, ghost r: bv6)
    requires x != 0
    ensures 0 <= rc < 32 && LowestBit(x, rc, r)
  {
    var n := x;
    rc, r := 31, 0;
    var t := n << 16;
    if t != 0 { n := t; rc := rc - 16; r := r + 16; }
    t := n << 8;
    if t != 0 { n := t; rc := rc - 8; r := r + 8; }
    t := n << 4;
    if t != 0 { n := t; rc := rc - 4; r := r + 4; }
    t := n << 2;
    if t != 0 { n := t; rc := rc - 2; r := r + 2; }
    t := n << 1;
    if t != 0 { n := t; rc := rc - 1; r := r + 1; }
  }

  function Mask(k: nat): bv32 {
    if k == 0 then 0xff else if k == 1 then 0xff00 else if k == 2 then 0xff_0000 else 0xff00_0000
  }

  predicate ByteZero(x: bv32, k: nat) {
    x & Mask(k) == 0
  }

  lemma LowestBitByte(x: bv32, rc: int, r: bv6)
    requires LowestBit(x, rc, r)
    ensures rc >= 8 ==> ByteZero(x, 0)
    ensures rc >= 16 ==> ByteZero(x, 1)
    ensures rc >= 24 ==> ByteZero(x, 2)
    ensures !ByteZero(x, rc / 8)
  {
  }

  function Low(n: bv64): bv32 {
    (n & 0xffff_ffff) as bv32
  }

  function High(n: bv64): bv32 {
    (n >> 32) as bv32
  }

  method FindLSBSetNonZero64(n: bv64) returns (rc: int, ghost r: bv6)
    requires n != 0
    ensures 0 <= rc < 64
    ensures rc < 32 ==> LowestBit(Low(n), rc, r)
    ensures rc >= 32 ==> Low(n) == 0 && LowestBit(High(n), rc - 32, r)
  {
    NonZeroHalf(n);
    if Low(n) == 0 {
      var top;
      top, r := FindLSBSetNonZero(High(n));
      rc := 32 + top;
    } else {
      rc, r := FindLSBSetNonZero(Low(n));
    }
  }

  lemma NonZeroHalf(n: bv64)
    ensures n == 0 <==> Low(n) == 0 && High(n) == 0
  {
  }

  // ----- Words loaded from the input -----

  function Pack8(b0: bool, b1: bool, b2: bool, b3: bool, b4: bool, b5: bool, b6: bool, b7: bool): bv8 {
    (if b0 then 1 else 0) | (if b1 then 2 else 0) | (if b2 then 4 else 0) | (if b3 then 8 else 0) |
    (if b4 then 16 else 0) | (if b5 then 32 else 0) | (if b6 then 64 else 0) | (if b7 then 128 else 0)
  }

  /** The byte x as eight bits. */
  function Bits(x: Byte): bv8 {
    var x1 := x / 2; var x2 := x1 / 2; var x3 := x2 / 2; var x4 := x3 / 2;
    var x5 := x4 / 2; var x6 := x5 / 2; var x7 := x6 / 2;
    Pack8(x % 2 == 1, x1 % 2 == 1, x2 % 2 == 1, x3 % 2 == 1, x4 % 2 == 1, x5 % 2 == 1, x6 % 2 == 1, x7 % 2 == 1)
  }

  lemma Pack8Injective(a0: bool, a1: bool, a2: bool, a3: bool, a4: bool, a5: bool, a6: bool, a7: bool,
                       b0: bool, b1: bool, b2: bool, b3: bool, b4: bool, b5: bool, b6: bool, b7: bool)
    requires Pack8(a0, a1, a2, a3, a4, a5, a6, a7) == Pack8(b0, b1, b2, b3, b4, b5, b6, b7)
    ensures a0 == b0 && a1 == b1 && a2 == b2 && a3 == b3 && a4 == b4 && a5 == b5 && a6 == b6 && a7 == b7
  {
    var a, b := Pack8(a0, a1, a2, a3, a4, a5, a6, a7), Pack8(b0, b1, b2, b3, b4, b5, b6, b7);
    assert a & 1 == b & 1 && a & 2 == b & 2 && a & 4 == b & 4 && a & 8 == b & 8;
    assert a & 16 == b & 16 && a & 32 == b & 32 && a & 64 == b & 64 && a & 128 == b & 128;
  }

  /** x and y have the same n low binary digits. */
  ghost predicate SameDigits(n: nat, x: nat, y: nat) {
    n == 0 || ((x % 2 == 1 <==> y % 2 == 1) && SameDigits(n - 1, x / 2, y / 2))
  }

  function Pow2(n: nat): (p: nat)
    ensures p > 0
  {
    if n == 0 then 1 else 2 * Pow2(n - 1)
  }

  lemma {:induction false} SameDigitsSameNumber(n: nat, x: nat, y: nat)
    requires SameDigits(n, x, y) && x < Pow2(n) && y < Pow2(n)
    ensures x == y
  {
    if n > 0 {
      SameDigitsSameNumber(n - 1, x / 2, y / 2);
    }
  }

  lemma SameBitsSameDigits(x: Byte, y: Byte)
    requires Bits(x) == Bits(y)
    ensures SameDigits(8, x, y)
  {
    var x1 := x / 2; var x2 := x1 / 2; var x3 := x2 / 2; var x4 := x3 / 2;
    var x5 := x4 / 2; var x6 := x5 / 2; var x7 := x6 / 2;
    var y1 := y / 2; var y2 := y1 / 2; var y3 := y2 / 2; var y4 := y3 / 2;
    var y5 := y4 / 2; var y6 := y5 / 2; var y7 := y6 / 2;
    Pack8Injective(
      x % 2 == 1, x1 % 2 == 1, x2 % 2 == 1, x3 % 2 == 1, x4 % 2 == 1, x5 % 2 == 1, x6 % 2 == 1, x7 % 2 == 1,
      y % 2 == 1, y1 % 2 == 1, y2 % 2 == 1, y3 % 2 == 1, y4 % 2 == 1, y5 % 2 == 1, y6 % 2 == 1, y7 % 2 == 1);
    assert SameDigits(1, x7, y7);
    assert SameDigits(2, x6, y6);
    assert SameDigits(3, x5, y5);
    assert SameDigits(4, x4, y4);
    assert SameDigits(5, x3, y3);
    assert SameDigits(6, x2, y2);
    assert SameDigits(7, x1, y1);
  }

  lemma BitsInjective(x: Byte, y: Byte)
    ensures Bits(x) == Bits(y) <==> x == y
  {
    if Bits(x) == Bits(y) {
      SameBitsSameDigits(x, y);
      assert Pow2(8) == 256 by { assert Pow2(4) == 16; }
      SameDigitsSameNumber(8, x, y);
    }
  }

  function Pack32(a: bv8, b: bv8, c: bv8, d: bv8): bv32 {
    a as bv32 | (b as bv32 << 8) | (c as bv32 << 16) | (d as bv32 << 24)
  }

  function Load32(s: seq<Byte>, i: nat): bv32
    requires i + 4 <= |s|
  {
    Pack32(Bits(s[i]), Bits(s[i + 1]), Bits(s[i + 2]), Bits(s[i + 3]))
  }

  function Pack64(low: bv32, high: bv32): bv64 {
    low as bv64 | (high as bv64 << 32)
  }

  function Load64(s: seq<Byte>, i: nat): bv64
    requires i + 8 <= |s|
  {
    Pack64(Load32(s, i), Load32(s, i + 4))
  }

  // The words' bits are opened only in the lemmas that follow; what is proved about words beyond them goes through
  // Xor32, Xor64 and ByteZero.

  function Xor32(a: bv32, b: bv32): bv32 {
    a ^ b
  }

  function Xor64(a: bv64, b: bv64): bv64 {
    a ^ b
  }

  lemma XorByte0(a: bv8, b: bv8, c: bv8, d: bv8, a': bv8, b': bv8, c': bv8, d': bv8)
    ensures ByteZero(Xor32(Pack32(a, b, c, d), Pack32(a', b', c', d')), 0) <==> a == a'
  {
  }

  lemma XorByte1(a: bv8, b: bv8, c: bv8, d: bv8, a': bv8, b': bv8, c': bv8, d': bv8)
    ensures ByteZero(Xor32(Pack32(a, b, c, d), Pack32(a', b', c', d')), 1) <==> b == b'
  {
  }

  lemma XorByte2(a: bv8, b: bv8, c: bv8, d: bv8, a': bv8, b': bv8, c': bv8, d': bv8)
    ensures ByteZero(Xor32(Pack32(a, b, c, d), Pack32(a', b', c', d')), 2) <==> c == c'
  {
  }

  lemma XorByte3(a: bv8, b: bv8, c: bv8, d: bv8, a': bv8, b': bv8, c': bv8, d': bv8)
    ensures ByteZero(Xor32(Pack32(a, b, c, d), Pack32(a', b', c', d')), 3) <==> d == d'
  {
  }

  lemma PackXor(a: bv8, b: bv8, c: bv8, d: bv8, a': bv8, b': bv8, c': bv8, d': bv8)
    ensures var x := Xor32(Pack32(a, b, c, d), Pack32(a', b', c', d'));
            && (ByteZero(x, 0) <==> a == a')
            && (ByteZero(x, 1) <==> b == b')
            && (ByteZero(x, 2) <==> c == c')
            && (ByteZero(x, 3) <==> d == d')
  {
    hide Pack32, Xor32, ByteZero;
    XorByte0(a, b, c, d, a', b', c', d');
    XorByte1(a, b, c, d, a', b', c', d');
    XorByte2(a, b, c, d, a', b', c', d');
    XorByte3(a, b, c, d, a', b', c', d');
  }

  /** The bytes on which the words at i and j differ. */
  lemma XorOfWords32(s: seq<Byte>, i: nat, j: nat)
    requires i + 4 <= |s| && j + 4 <= |s|
    ensures var x := Xor32(Load32(s, i), Load32(s, j));
            forall k | 0 <= k < 4 :: ByteZero(x, k) <==> s[i + k] == s[j + k]
  {
    hide Bits, Pack32, Xor32, ByteZero;
    PackXor(Bits(s[i]), Bits(s[i + 1]), Bits(s[i + 2]), Bits(s[i + 3]),
            Bits(s[j]), Bits(s[j + 1]), Bits(s[j + 2]), Bits(s[j + 3]));
    BitsInjective(s[i], s[j]);
    BitsInjective(s[i + 1], s[j + 1]);
    BitsInjective(s[i + 2], s[j + 2]);
    BitsInjective(s[i + 3], s[j + 3]);
  }

  lemma ZeroBytes(x: bv32)
    ensures x == 0 <==> ByteZero(x, 0) && ByteZero(x, 1) && ByteZero(x, 2) && ByteZero(x, 3)
  {
    assert x == (x & 0xff) | (x & 0xff00) | (x & 0xff_0000) | (x & 0xff00_0000);
  }

  lemma UnpackLow(a: bv32, b: bv32)
    ensures Low(Pack64(a, b)) == a
  {
  }

  lemma UnpackHigh(a: bv32, b: bv32)
    ensures High(Pack64(a, b)) == b
  {
  }

  lemma XorLow(a: bv64, b: bv64)
    ensures Low(Xor64(a, b)) == Xor32(Low(a), Low(b))
  {
  }

  lemma XorHigh(a: bv64, b: bv64)
    ensures High(Xor64(a, b)) == Xor32(High(a), High(b))
  {
  }

  /** The n bytes at i and j agree. */
  ghost predicate Same(s: seq<Byte>, i: nat, j: nat, n: nat)
    requires i + n <= |s| && j + n <= |s|
  {
    s[i..i + n] == s[j..j + n]
  }

  /** k bytes agree at i and j and the next one does not. */
  ghost predicate DifferAfter(s: seq<Byte>, i: nat, j: nat, k: nat)
    requires i + k < |s| && j + k < |s|
  {
    Same(s, i, j, k) && s[i + k] != s[j + k]
  }

  lemma SameFour(s: seq<Byte>, i: nat, j: nat)
    requires i + 4 <= |s| && j + 4 <= |s|
    ensures Same(s, i, j, 4) <==>
            s[i] == s[j] && s[i + 1] == s[j + 1] && s[i + 2] == s[j + 2] && s[i + 3] == s[j + 3]
  {
    assert s[i..i + 4] == [s[i], s[i + 1], s[i + 2], s[i + 3]];
    assert s[j..j + 4] == [s[j], s[j + 1], s[j + 2], s[j + 3]];
  }

  lemma ZeroMeansSame32(s: seq<Byte>, i: nat, j: nat)
    requires i + 4 <= |s| && j + 4 <= |s|
    ensures Xor32(Load32(s, i), Load32(s, j)) == 0 <==> Same(s, i, j, 4)
  {
    hide Load32, Same, Xor32, ByteZero;
    SameFour(s, i, j);
    XorOfWords32(s, i, j);
    ZeroBytes(Xor32(Load32(s, i), Load32(s, j)));
  }

  lemma Equal32(s: seq<Byte>, i: nat, j: nat)
    requires i + 4 <= |s| && j + 4 <= |s|
    ensures Load32(s, i) == Load32(s, j) <==> Same(s, i, j, 4)
  {
    hide Load32, Same, Xor32;
    SameLoads(s, i, j);
    SameItself(s, i, 4);
    ZeroMeansSame32(s, i, i);
    ZeroMeansSame32(s, i, j);
  }

  lemma SameItself(s: seq<Byte>, i: nat, n: nat)
    requires i + n <= |s|
    ensures Same(s, i, i, n)
  {
  }

  lemma SameLoads(s: seq<Byte>, i: nat, j: nat)
    requires i + 4 <= |s| && j + 4 <= |s|
    ensures Same(s, i, j, 4) ==> Load32(s, i) == Load32(s, j)
  {
    hide Same, Bits, Pack32;
    SameFour(s, i, j);
  }

  /** The lowest set bit of the xor of two words lies in the first byte on which they differ. */
  lemma LowestBitIsFirstDifference32(s: seq<Byte>, i: nat, j: nat, rc: int, r: bv6)
    requires i + 4 <= |s| && j + 4 <= |s| && 0 <= rc < 32
    requires LowestBit(Xor32(Load32(s, i), Load32(s, j)), rc, r)
    ensures DifferAfter(s, i, j, rc / 8)
  {
    hide Load32, Xor32, ByteZero, LowestBit, Same;
    XorOfWords32(s, i, j);
    LowestBitByte(Xor32(Load32(s, i), Load32(s, j)), rc, r);
    SameFirst(s, i, j, rc / 8);
  }

  lemma SameFirst(s: seq<Byte>, i: nat, j: nat, n: nat)
    requires i + n <= |s| && j + n <= |s| && n < 4
    requires n > 0 ==> s[i] == s[j]
    requires n > 1 ==> s[i + 1] == s[j + 1]
    requires n > 2 ==> s[i + 2] == s[j + 2]
    ensures Same(s, i, j, n)
  {
  }

  lemma XorOfWords64(s: seq<Byte>, i: nat, j: nat)
    requires i + 8 <= |s| && j + 8 <= |s|
    ensures Low(Xor64(Load64(s, i), Load64(s, j))) == Xor32(Load32(s, i), Load32(s, j))
    ensures High(Xor64(Load64(s, i), Load64(s, j))) == Xor32(Load32(s, i + 4), Load32(s, j + 4))
  {
    hide Load32, Pack64, Low, High, Xor32, Xor64;
    UnpackLow(Load32(s, i), Load32(s, i + 4));
    UnpackLow(Load32(s, j), Load32(s, j + 4));
    UnpackHigh(Load32(s, i), Load32(s, i + 4));
    UnpackHigh(Load32(s, j), Load32(s, j + 4));
    XorLow(Load64(s, i), Load64(s, j));
    XorHigh(Load64(s, i), Load64(s, j));
  }

  lemma LowestBitIsFirstDifference64(s: seq<Byte>, i: nat, j: nat, rc: int, r: bv6)
    requires i + 8 <= |s| && j + 8 <= |s| && 0 <= rc < 64
    requires var x := Xor64(Load64(s, i), Load64(s, j));
             && (rc < 32 ==> LowestBit(Low(x), rc, r))
             && (rc >= 32 ==> Low(x) == 0 && LowestBit(High(x), rc - 32, r))
    ensures DifferAfter(s, i, j, rc / 8)
  {
    hide Load32, Load64, Low, High, Xor32, Xor64, LowestBit, Same;
    XorOfWords64(s, i, j);
    if rc < 32 {
      LowestBitIsFirstDifference32(s, i, j, rc, r);
    } else {
      ZeroMeansSame32(s, i, j);
      LowestBitIsFirstDifference32(s, i + 4, j + 4, rc - 32, r);
      Append(s, i, j, 4, (rc - 32) / 8);
    }
  }

  lemma Append(s: seq<Byte>, i: nat, j: nat, m: nat, n: nat)
    requires i + m + n <= |s| && j + m + n <= |s|
    requires Same(s, i, j, m) && Same(s, i + m, j + m, n)
    ensures Same(s, i, j, m + n)
  {
    assert s[i..i + m + n] == s[i..i + m] + s[i + m..i + m + n];
    assert s[j..j + m + n] == s[j..j + m] + s[j + m..j + m + n];
  }

  lemma Equal64(s: seq<Byte>, i: nat, j: nat)
    requires i + 8 <= |s| && j + 8 <= |s|
    ensures Load64(s, i) == Load64(s, j) <==> Same(s, i, j, 8)
  {
    hide Load32, Pack64, Same;
    SameHalves(Load32(s, i), Load32(s, i + 4), Load32(s, j), Load32(s, j + 4));
    Equal32(s, i, j);
    Equal32(s, i + 4, j + 4);
    if Same(s, i, j, 8) {
      Take(s, i, j, 8, 4);
    } else if Same(s, i, j, 4) && Same(s, i + 4, j + 4, 4) {
      Append(s, i, j, 4, 4);
    }
  }

  lemma ZeroMeansSame64(s: seq<Byte>, i: nat, j: nat)
    requires i + 8 <= |s| && j + 8 <= |s|
    ensures Xor64(Load64(s, i), Load64(s, j)) == 0 ==> Same(s, i, j, 8)
  {
    hide Load32, Load64, Low, High, Xor32, Xor64, Same;
    NonZeroHalf(Xor64(Load64(s, i), Load64(s, j)));
    XorOfWords64(s, i, j);
    ZeroMeansSame32(s, i, j);
    ZeroMeansSame32(s, i + 4, j + 4);
    if Same(s, i, j, 4) && Same(s, i + 4, j + 4, 4) {
      Append(s, i, j, 4, 4);
    }
  }

  lemma SameNothing(s: seq<Byte>, i: nat, j: nat)
    requires i <= |s| && j <= |s|
    ensures Same(s, i, j, 0)
  {
  }

  lemma SameByte(s: seq<Byte>, i: nat, j: nat)
    requires i < |s| && j < |s|
    ensures Same(s, i, j, 1) <==> s[i] == s[j]
  {
    assert s[i..i + 1] == [s[i]] && s[j..j + 1] == [s[j]];
  }

  lemma Take(s: seq<Byte>, i: nat, j: nat, n: nat, m: nat)
    requires m <= n && i + n <= |s| && j + n <= |s| && Same(s, i, j, n)
    ensures Same(s, i, j, m) && Same(s, i + m, j + m, n - m)
  {
    assert s[i..i + m] == s[i..i + n][..m] && s[i + m..i + n] == s[i..i + n][m..];
    assert s[j..j + m] == s[j..j + n][..m] && s[j + m..j + n] == s[j..j + n][m..];
  }

  lemma SameHalves(a: bv32, b: bv32, a': bv32, b': bv32)
    ensures Pack64(a, b) == Pack64(a', b') <==> a == a' && b == b'
  {
    hide Pack64, Low, High;
    UnpackLow(a, b);
    UnpackLow(a', b');
    UnpackHigh(a, b);
    UnpackHigh(a', b');
  }

  // ----- The match length -----

  method SameWord32(s: seq<Byte>, i: nat, j: nat) returns (same: bool)
    requires i + 4 <= |s| && j + 4 <= |s|
    ensures same <==> Same(s, i, j, 4)
  {
    Equal32(s, i, j);
    same := Load32(s, i) == Load32(s, j);
  }

  method SameWord64(s: seq<Byte>, i: nat, j: nat) returns (same: bool)
    requires i + 8 <= |s| && j + 8 <= |s|
    ensures same <==> Same(s, i, j, 8)
  {
    Equal64(s, i, j);
    same := Load64(s, i) == Load64(s, j);
  }

  /** The index of the lowest set bit of the xor of the words at i and j, shifted down to a byte index. */
  method FirstDifference32(s: seq<Byte>, i: nat, j: nat) returns (k: nat)
    requires i + 4 <= |s| && j + 4 <= |s| && !Same(s, i, j, 4)
    ensures k < 4 && DifferAfter(s, i, j, k)
  {
    hide Load32, Xor32, LowestBit, Same;
    ZeroMeansSame32(s, i, j);
    var rc, r := FindLSBSetNonZero(Xor32(Load32(s, i), Load32(s, j)));
    LowestBitIsFirstDifference32(s, i, j, rc, r);
    k := rc / 8;
  }

  method FirstDifference64(s: seq<Byte>, i: nat, j: nat) returns (k: nat)
    requires i + 8 <= |s| && j + 8 <= |s| && !Same(s, i, j, 8)
    ensures k < 8 && DifferAfter(s, i, j, k)
  {
    hide Load64, Low, High, Xor64, LowestBit, Same;
    ZeroMeansSame64(s, i, j);
    var rc, r := FindLSBSetNonZero64(Xor64(Load64(s, i), Load64(s, j)));
    LowestBitIsFirstDifference64(s, i, j, rc, r);
    k := rc / 8;
  }

  /** n is the length of the longest common prefix of s[i..] and s[j..]. */
  ghost predicate MatchLength(s: seq<Byte>, i: nat, j: nat, n: nat)
    requires i <= j <= |s|
  {
    j + n <= |s| && Same(s, i, j, n) && (j + n < |s| ==> s[i + n] != s[j + n])
  }

  /** The 64-bit form. The input ends at s2_limit == |s|, so no load can reach it; the two regions may overlap. */
  method FindMatchLength64(s: seq<Byte>, s1: nat, start2: nat) returns (n: nat, lessThan8: bool)
    requires s1 <= start2 <= |s|
    ensures MatchLength(s, s1, start2, n)
    ensures lessThan8 <==> n < 8
  {
    hide Same;
    var s2, matched := start2, 0;
    SameNothing(s, s1, start2);
    if s2 <= |s| - 8 {
      var same := SameWord64(s, s1, s2);
      if !same {
        var k := FirstDifference64(s, s1, s2);
        return k, true;
      }
      matched := 8;
      s2 := s2 + 8;
    }
    while s2 <= |s| - 8
      invariant s2 == start2 + matched <= |s|
      invariant matched >= 8 || start2 > |s| - 8
      invariant Same(s, s1, start2, matched)
    {
      var same := SameWord64(s, s1 + matched, s2);
      if same {
        Append(s, s1, start2, matched, 8);
        s2 := s2 + 8;
        matched := matched + 8;
      } else {
        var k := FirstDifference64(s, s1 + matched, s2);
        Append(s, s1, start2, matched, k);
        return matched + k, false;
      }
    }
    while s2 < |s|
      invariant s2 == start2 + matched <= |s|
      invariant Same(s, s1, start2, matched)
    {
      if s[s1 + matched] == s[s2] {
        SameByte(s, s1 + matched, s2);
        Append(s, s1, start2, matched, 1);
        s2 := s2 + 1;
        matched := matched + 1;
      } else {
        return matched, matched < 8;
      }
    }
    return matched, matched < 8;
  }

  /** The 32-bit form. */
  method FindMatchLength32(s: seq<Byte>, s1: nat, start2: nat) returns (n: nat, lessThan8: bool)
    requires s1 <= start2 <= |s|
    ensures MatchLength(s, s1, start2, n)
    ensures lessThan8 <==> n < 8
  {
    hide Same;
    var s2, matched := start2, 0;
    SameNothing(s, s1, start2);
    var same := false;
    if s2 <= |s| - 4 { same := SameWord32(s, s1, s2); }
    while s2 <= |s| - 4 && same
      invariant s2 == start2 + matched <= |s|
      invariant Same(s, s1, start2, matched)
      invariant s2 <= |s| - 4 ==> (same <==> Same(s, s1 + matched, s2, 4))
    {
      Append(s, s1, start2, matched, 4);
      s2 := s2 + 4;
      matched := matched + 4;
      if s2 <= |s| - 4 { same := SameWord32(s, s1 + matched, s2); }
    }
    if s2 <= |s| - 4 {
      var k := FirstDifference32(s, s1 + matched, s2);
      Append(s, s1, start2, matched, k);
      matched := matched + k;
    } else {
      while s2 < |s| && s[s1 + matched] == s[s2]
        invariant s2 == start2 + matched <= |s|
        invariant Same(s, s1, start2, matched)
      {
        SameByte(s, s1 + matched, s2);
        Append(s, s1, start2, matched, 1);
        s2 := s2 + 1;
        matched := matched + 1;
      }
    }
    return matched, matched < 8;
  }
}

/** Bytes, little-endian words and the base-128 variable-length integers shared by both engines. */
module Bytes {
  type Byte = b: int | 0 <= b < 0x100

  datatype Option<+T> = None | Some(value: T)

  /** The number of values that fit in n bytes. */
  function Span(n: nat): (p: nat)
    ensures p > 0
  {
    if n == 0 then 1 else 0x100 * Span(n - 1)
  }

  /** The n low bytes of v, lowest first. */
  function LE(n: nat, v: nat): (s: seq<Byte>)
    ensures |s| == n
  {
    if n == 0 then [] else [v % 0x100] + LE(n - 1, v / 0x100)
  }

  function FromLE(s: seq<Byte>): (v: nat)
    ensures v < Span(|s|)
  {
    if s == [] then 0 else s[0] + 0x100 * FromLE(s[1..])
  }

  lemma {:induction false} LERoundTrip(n: nat, v: nat)
    requires v < Span(n)
    ensures FromLE(LE(n, v)) == v
  {
    if n > 0 {
      LERoundTrip(n - 1, v / 0x100);
      assert LE(n, v)[1..] == LE(n - 1, v / 0x100);
    }
  }

  lemma MulAtLeast(m: int, d: int)
    requires m > 0
    ensures d >= 1 ==> m * d >= m
    ensures d <= -1 ==> m * d <= -m
  {
  }

  lemma ModUnique(x: int, m: int, q: int, r: int)
    requires m > 0 && x == m * q + r && 0 <= r < m
    ensures x % m == r && x / m == q
  {
    var q', r' := x / m, x % m;
    assert x == m * q' + r';
    assert m * (q' - q) == m * q' - m * q;
    MulAtLeast(m, q' - q);
  }

  /** Masking a loaded word to its k low bytes leaves the value of those k bytes, whatever follows them. */
  lemma {:induction false} MaskedLoad(s: seq<Byte>, k: nat)
    requires k <= |s|
    ensures FromLE(s) % Span(k) == FromLE(s[..k])
  {
    if k > 0 {
      MaskedLoad(s[1..], k - 1);
      assert s[1..][..k - 1] == s[..k][1..];
      MaskStep(s[0], FromLE(s[1..]), Span(k - 1));
    }
  }

  lemma MaskStep(b: Byte, v: nat, p: nat)
    requires p > 0
    ensures (b + 0x100 * v) % (0x100 * p) == b + 0x100 * (v % p)
  {
    var q, r := v / p, v % p;
    assert v == p * q + r;
    assert 0x100 * (p * q) == 0x100 * p * q;
    ModUnique(b + 0x100 * v, 0x100 * p, q, b + 0x100 * r);
  }

  // ----- Variable-length integers -----

  function Varint(v: nat): (s: seq<Byte>)
    ensures |s| > 0
    ensures s[0] < 0x80 <==> |s| == 1
  {
    if v < 0x80 then [v] else [0x80 + v % 0x80] + Varint(v / 0x80)
  }

  datatype Num = Num(value: nat, size: nat)

  /** Reads an integer below `bound` from at most n base-128 digits. None when the input ends before the last
      digit, when there are too many digits, or when the value does not fit. */
  function ParseVarint(s: seq<Byte>, bound: nat, n: nat): (r: Option<Num>)
    ensures r.Some? ==> 0 < r.value.size <= |s| && r.value.size <= n && r.value.value < bound
  {
    if s == [] || n == 0 then None
    else if s[0] < 0x80 then
      if s[0] < bound then Some(Num(s[0], 1)) else None
    else
      match ParseVarint(s[1..], (bound + 0x7f) / 0x80, n - 1)
      case None => None
      case Some(m) =>
        var v := s[0] - 0x80 + 0x80 * m.value;
        if v < bound then Some(Num(v, m.size + 1)) else None
  }

  lemma {:induction false} VarintRoundTrip(v: nat, bound: nat, n: nat, rest: seq<Byte>)
    requires v < bound && |Varint(v)| <= n
    ensures ParseVarint(Varint(v) + rest, bound, n) == Some(Num(v, |Varint(v)|))
    decreases v
  {
    var s := Varint(v) + rest;
    if v >= 0x80 {
      VarintRoundTrip(v / 0x80, (bound + 0x7f) / 0x80, n - 1, rest);
      assert s[1..] == Varint(v / 0x80) + rest;
    }
  }

  /** A number whose last digit is missing cannot be read. */
  lemma {:induction false} VarintCut(v: nat, bound: nat, n: nat, m: nat)
    requires m < |Varint(v)|
    ensures ParseVarint(Varint(v)[..m], bound, n) == None
    decreases v
  {
    if m > 0 && n > 0 {
      VarintCut(v / 0x80, (bound + 0x7f) / 0x80, n - 1, m - 1);
      assert Varint(v)[..m][1..] == Varint(v / 0x80)[..m - 1];
    }
  }

  const POW32 := 0x1_0000_0000
  const POW64 := 0x1_0000_0000_0000_0000

  /** What a 32-bit unsigned variable keeps of a number. */
  function Word32(n: nat): (w: nat)
    ensures w <= n && w < POW32
    ensures n < POW32 ==> w == n
  {
    n % POW32
  }

  function Pow128(n: nat): nat {
    if n == 0 then 1 else 0x80 * Pow128(n - 1)
  }

  lemma {:induction false} VarintAtMost(v: nat, n: nat)
    requires n > 0 && v < Pow128(n)
    ensures |Varint(v)| <= n
  {
    if v >= 0x80 {
      VarintAtMost(v / 0x80, n - 1);
    }
  }

  lemma VarintLength(v: nat)
    ensures v < POW32 ==> |Varint(v)| <= 5
    ensures v < POW64 ==> |Varint(v)| <= 10
  {
    assert Pow128(2) == 0x4000;
    assert Pow128(4) == 0x1000_0000;
    assert Pow128(6) == 0x400_0000_0000;
    assert Pow128(8) == 0x100_0000_0000_0000;
    if v < POW32 { VarintAtMost(v, 5); }
    if v < POW64 { VarintAtMost(v, 10); }
  }

  function Parse32(s: seq<Byte>): Option<Num> {
    ParseVarint(s, POW32, 5)
  }

  function Parse64(s: seq<Byte>): Option<Num> {
    ParseVarint(s, POW64, 10)
  }

  lemma RoundTrip32(v: nat, rest: seq<Byte>)
    requires v < POW32
    ensures Parse32(Varint(v) + rest) == Some(Num(v, |Varint(v)|))
  {
    VarintLength(v);
    VarintRoundTrip(v, POW32, 5, rest);
  }

  lemma RoundTrip64(v: nat, rest: seq<Byte>)
    requires v < POW64
    ensures Parse64(Varint(v) + rest) == Some(Num(v, |Varint(v)|))
  {
    VarintLength(v);
    VarintRoundTrip(v, POW64, 10, rest);
  }
}

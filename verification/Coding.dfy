/** Integers and strings as LevelDB encodes them (util/coding.cc). */
module Coding {
  import opened Bytes

  /** GetVarint32 of util/coding.cc: up to five digits, of which 32 bits are kept. */
  function GetVarint32(s: seq<Byte>): (r: Option<Num>)
    ensures r.Some? ==> r.value.size <= |s| && r.value.value < POW32
  {
    match ParseVarint(s, Pow128(5), 5)
    case None => None
    case Some(n) => Some(Num(n.value % POW32, n.size))
  }

  /** GetVarint64 of util/coding.cc: up to ten digits, of which 64 bits are kept. */
  function GetVarint64(s: seq<Byte>): (r: Option<Num>)
    ensures r.Some? ==> 0 < r.value.size <= |s| && r.value.value < POW64
  {
    match ParseVarint(s, Pow128(10), 10)
    case None => None
    case Some(n) => Some(Num(n.value % POW64, n.size))
  }

  // ----- Length-prefixed strings -----

  function Prefixed(s: seq<Byte>): seq<Byte> {
    Varint(|s| % POW32) + s
  }

  datatype Piece = Piece(data: seq<Byte>, rest: seq<Byte>)

  function GetPrefixed(s: seq<Byte>): (r: Option<Piece>)
    ensures r.Some? ==> |r.value.data| < POW32 && |r.value.data| + |r.value.rest| < |s|
  {
    match GetVarint32(s)
    case None => None
    case Some(n) =>
      var t := s[n.size..];
      VarintReadsSome(s);
      if |t| < n.value then None else Some(Piece(t[..n.value], t[n.value..]))
  }

  lemma VarintReadsSome(s: seq<Byte>)
    ensures GetVarint32(s).Some? ==> GetVarint32(s).value.size > 0
  {
  }

  lemma VarintReads(v: nat, rest: seq<Byte>)
    requires v < POW32
    ensures GetVarint32(Varint(v) + rest) == Some(Num(v, |Varint(v)|))
  {
    VarintLength(v);
    assert Pow128(2) == 0x4000 && Pow128(4) == 0x1000_0000;
    VarintRoundTrip(v, Pow128(5), 5, rest);
  }

  lemma VarintReads64(n: nat, rest: seq<Byte>)
    requires n < POW64
    ensures GetVarint64(Varint(n) + rest) == Some(Num(n, |Varint(n)|))
  {
    hide ParseVarint, Varint, Pow128;
    VarintLength(n);
    Pow128Of10();
    VarintRoundTrip(n, Pow128(10), 10, rest);
  }

  lemma Pow128Of10()
    ensures Pow128(10) >= POW64
  {
    assert Pow128(2) == 0x4000 && Pow128(4) == 0x1000_0000 && Pow128(6) == 0x400_0000_0000;
    assert Pow128(8) == 0x100_0000_0000_0000;
  }

  /** A string of which the end, or part of its length, is missing cannot be read. */
  lemma PrefixedCut(s: seq<Byte>, m: nat)
    requires |s| < POW32 && m < |Prefixed(s)|
    ensures GetPrefixed(Prefixed(s)[..m]) == None
  {
    var t := Prefixed(s)[..m];
    if m < |Varint(|s|)| {
      VarintCut(|s|, Pow128(5), 5, m);
      assert t == Varint(|s|)[..m];
    } else {
      VarintReads(|s|, s[..m - |Varint(|s|)|]);
      assert t == Varint(|s|) + s[..m - |Varint(|s|)|];
    }
  }

  lemma PrefixedRoundTrip(s: seq<Byte>, rest: seq<Byte>)
    requires |s| < POW32
    ensures GetPrefixed(Prefixed(s) + rest) == Some(Piece(s, rest))
  {
    VarintReads(|s|, s + rest);
    hide GetVarint32, Varint;
    assert Prefixed(s) + rest == Varint(|s|) + (s + rest);
    assert (Varint(|s|) + (s + rest))[|Varint(|s|)|..] == s + rest;
  }
}

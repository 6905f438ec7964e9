/** Where bytes come from: a source hands out its bytes in contiguous non-empty regions, cut anyhow. */
module SnappySource {
  import opened Bytes

  function Flatten(regions: seq<seq<Byte>>): (s: seq<Byte>) {
    if regions == [] then [] else regions[0] + Flatten(regions[1..])
  }

  /** What is left of the regions when the first n of their bytes are skipped. */
  function Dropped(regions: seq<seq<Byte>>, n: nat): (r: seq<seq<Byte>>)
  {
    if n == 0 || regions == [] then regions
    else if n < |regions[0]| then [regions[0][n..]] + regions[1..]
    else Dropped(regions[1..], n - |regions[0]|)
  }

  lemma {:induction false} DroppedAgain(regions: seq<seq<Byte>>, a: nat, b: nat)
    ensures Dropped(Dropped(regions, a), b) == Dropped(regions, a + b)
    decreases |regions|
  {
    if regions != [] && a > 0 {
      if a < |regions[0]| {
        if b > 0 && a + b < |regions[0]| {
          assert regions[0][a..][b..] == regions[0][a + b..];
        }
      } else {
        DroppedAgain(regions[1..], a - |regions[0]|, b);
      }
    }
  }

  /** The first region, which is the one handed out next. */
  function First(regions: seq<seq<Byte>>): seq<Byte> {
    if regions == [] then [] else regions[0]
  }

  /** Every region has a length that 32 bits hold. */
  ghost predicate AllSmall(regions: seq<seq<Byte>>) {
    forall k | 0 <= k < |regions| :: |regions[k]| < POW32
  }

  lemma {:induction false} DroppedSmall(regions: seq<seq<Byte>>, n: nat)
    requires AllSmall(regions)
    ensures AllSmall(Dropped(regions, n))
    decreases |regions|
  {
    if n > 0 && regions != [] && n >= |regions[0]| {
      DroppedSmall(regions[1..], n - |regions[0]|);
    }
  }

  ghost predicate NoneEmpty(regions: seq<seq<Byte>>) {
    forall k | 0 <= k < |regions| :: regions[k] != []
  }

  lemma {:induction false} NoneEmptyDropped(regions: seq<seq<Byte>>, n: nat)
    requires NoneEmpty(regions)
    ensures NoneEmpty(Dropped(regions, n))
    decreases |regions|
  {
    if n > 0 && regions != [] && n >= |regions[0]| {
      NoneEmptyDropped(regions[1..], n - |regions[0]|);
    }
  }

  class Source {
    var regions: seq<seq<Byte>>

    ghost predicate Valid()
      reads this
    {
      NoneEmpty(regions)
    }

    /** The bytes not yet skipped. */
    ghost function Rest(): seq<Byte>
      reads this
    {
      Flatten(regions)
    }

    ghost predicate Small()
      reads this
    {
      AllSmall(regions)
    }

    constructor (regions: seq<seq<Byte>>)
      requires NoneEmpty(regions)
      ensures Valid() && Rest() == Flatten(regions) && this.regions == regions
    {
      this.regions := regions;
    }

    method Available() returns (n: nat)
      requires Valid()
      ensures n == |Rest()|
    {
      n := 0;
      for i := 0 to |regions|
        invariant n + |Flatten(regions[i..])| == |Rest()|
      {
        n := n + |regions[i]|;
        assert regions[i..][1..] == regions[i + 1..];
      }
    }

    /** Some non-empty first region of what is left; empty only at the end. */
    method Peek() returns (region: seq<Byte>)
      requires Valid()
      ensures region <= Rest() && region == First(regions)
      ensures region == [] <==> Rest() == []
    {
      region := First(regions);
    }

    method Skip(n: nat)
      requires Valid() && n <= |Rest()|
      modifies this
      ensures Valid() && Rest() == old(Rest())[n..] && regions == Dropped(old(regions), n)
    {
      var left := n;
      while left > 0
        invariant Valid() && 0 <= left <= n && left <= |Rest()|
        invariant Rest()[left..] == old(Rest())[n..]
        invariant Dropped(regions, left) == Dropped(old(regions), n)
      {
        var first := regions[0];
        ghost var was := Rest();
        if left < |first| {
          regions := [first[left..]] + regions[1..];
          assert Rest() == was[left..];
          left := 0;
        } else {
          regions := regions[1..];
          assert Rest() == was[|first|..];
          left := left - |first|;
        }
      }
    }
  }
}

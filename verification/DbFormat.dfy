/** Internal keys: a user key with the sequence number and the kind of the operation packed into a 64-bit tag. */
module DbFormat {
  import opened Bytes
  import opened SkipLists

  const MAX_SEQUENCE := 0xFF_FFFF_FFFF_FFFF
  const NUM_LEVELS := 7

  datatype Kind = Deletion | Value

  const KIND_FOR_SEEK := Value

  function Code(kind: Kind): Byte {
    match kind
    case Deletion => 0
    case Value => 1
  }

  /** The user's comparator; it is left open, but for the order it has to define. */
  type Comparator = (seq<Byte>, seq<Byte>) -> int

  /** (sequence << 8) | kind in 64 bits. */
  function Pack(sequence: nat, kind: Kind): nat {
    (sequence * 0x100) % POW64 + Code(kind)
  }

  function InternalKey(user: seq<Byte>, sequence: nat, kind: Kind): (s: seq<Byte>)
    ensures |s| == |user| + 8
  {
    user + LE(8, Pack(sequence, kind))
  }

  // Every internal key has at least eight bytes; what the next two functions make of shorter strings is of no account.

  function UserOf(key: seq<Byte>): seq<Byte> {
    if |key| < 8 then [] else key[..|key| - 8]
  }

  function TagOf(key: seq<Byte>): nat {
    FromLE(if |key| < 8 then key else key[|key| - 8..])
  }

  datatype Parsed = Parsed(user: seq<Byte>, sequence: nat, kind: Kind)

  function ParseInternalKey(key: seq<Byte>): Option<Parsed> {
    if |key| < 8 then None
    else
      var tag := TagOf(key);
      if tag % 0x100 == 0 then Some(Parsed(UserOf(key), tag / 0x100, Deletion))
      else if tag % 0x100 == 1 then Some(Parsed(UserOf(key), tag / 0x100, Value))
      else None
  }

  /** A string is an internal key exactly if it has eight bytes, of which the first is a kind there is. */
  lemma ParsesExactly(key: seq<Byte>)
    ensures ParseInternalKey(key).Some? <==> |key| >= 8 && key[|key| - 8] <= 1
  {
    if |key| >= 8 {
      assert FromLE(key[|key| - 8..]) % 0x100 == key[|key| - 8];
    }
  }

  /** Ascending user keys, and for one user key descending tags. */
  function Compare(cmp: Comparator, a: seq<Byte>, b: seq<Byte>): int {
    var r := cmp(UserOf(a), UserOf(b));
    if r != 0 then r else if TagOf(a) > TagOf(b) then -1 else if TagOf(a) < TagOf(b) then 1 else 0
  }

  lemma KeyParts(user: seq<Byte>, sequence: nat, kind: Kind)
    requires sequence <= MAX_SEQUENCE
    ensures var key := InternalKey(user, sequence, kind);
            UserOf(key) == user && TagOf(key) == Pack(sequence, kind) == sequence * 0x100 + Code(kind)
  {
    var key := InternalKey(user, sequence, kind);
    assert key[|user|..] == LE(8, Pack(sequence, kind)) && key[..|user|] == user;
    SpanOf8();
    LERoundTrip(8, Pack(sequence, kind));
  }

  lemma SpanOf8()
    ensures Span(8) == POW64
  {
    assert Span(2) == 0x10000;
    assert Span(4) == POW32;
    assert Span(6) == 0x1_0000_0000_0000;
  }

  lemma KeyRoundTrip(user: seq<Byte>, sequence: nat, kind: Kind)
    requires sequence <= MAX_SEQUENCE
    ensures ParseInternalKey(InternalKey(user, sequence, kind)) == Some(Parsed(user, sequence, kind))
  {
    KeyParts(user, sequence, kind);
  }

  /** Internal keys sort by user key, then newest first, then values before deletions. */
  lemma CompareMeans(cmp: Comparator, a: Parsed, b: Parsed)
    requires Ordered(cmp) && a.sequence <= MAX_SEQUENCE && b.sequence <= MAX_SEQUENCE
    ensures Compare(cmp, InternalKey(a.user, a.sequence, a.kind), InternalKey(b.user, b.sequence, b.kind)) < 0 <==>
            || cmp(a.user, b.user) < 0
            || (cmp(a.user, b.user) == 0 &&
                (a.sequence > b.sequence || (a.sequence == b.sequence && a.kind == Value && b.kind == Deletion)))
  {
    KeyParts(a.user, a.sequence, a.kind);
    KeyParts(b.user, b.sequence, b.kind);
  }

  /** The key a lookup seeks is not after any entry for the user key that the snapshot may see, and after every
      other. */
  lemma SeekKeyIsFirst(cmp: Comparator, user: seq<Byte>, s: nat, e: Parsed)
    requires Ordered(cmp) && s <= MAX_SEQUENCE && e.sequence <= MAX_SEQUENCE && cmp(e.user, user) == 0
    ensures Compare(cmp, InternalKey(e.user, e.sequence, e.kind), InternalKey(user, s, KIND_FOR_SEEK)) < 0 <==>
            e.sequence > s
  {
    CompareMeans(cmp, e, Parsed(user, s, KIND_FOR_SEEK));
  }

  lemma CompareTransitive(cmp: Comparator, a: seq<Byte>, b: seq<Byte>, c: seq<Byte>)
    requires Ordered(cmp)
    ensures Compare(cmp, a, a) == 0
    ensures Compare(cmp, a, b) < 0 <==> Compare(cmp, b, a) > 0
    ensures Compare(cmp, a, b) <= 0 && Compare(cmp, b, c) <= 0 ==> Compare(cmp, a, c) <= 0
  {
    hide Ordered;
    var x, y, z := UserOf(a), UserOf(b), UserOf(c);
    Transitive(cmp, x, y, x);
    Transitive(cmp, x, x, x);
    Transitive(cmp, x, y, z);
    Transitive(cmp, y, z, x);
    Transitive(cmp, z, x, y);
  }
}

/** The memtable: encoded entries in a skip list, and the lookup of the newest one a snapshot may see. */
module MemTables {
  import opened Bytes
  import opened Coding
  import opened SkipLists
  import opened DbFormat

  datatype Entry = Entry(user: seq<Byte>, sequence: nat, kind: Kind, value: seq<Byte>)
  {
    /** Sequence number and sizes fit their fields. */
    predicate Fits() {
      sequence <= MAX_SEQUENCE && |user| + 8 < POW32 && |value| < POW32
    }

    function Tag(): nat {
      Pack(sequence, kind)
    }
  }

  // ----- Entries -----

  function Encode(e: Entry): seq<Byte> {
    Prefixed(InternalKey(e.user, e.sequence, e.kind)) + Prefixed(e.value)
  }

  /** The internal key of an entry. */
  function KeyOf(entry: seq<Byte>): seq<Byte> {
    match GetPrefixed(entry)
    case None => []
    case Some(p) => p.data
  }

  function CompareEntries(cmp: Comparator, a: seq<Byte>, b: seq<Byte>): int {
    Compare(cmp, KeyOf(a), KeyOf(b))
  }

  /** What an encoded entry, or a lookup key, decodes to. */
  lemma EncodedKey(user: seq<Byte>, sequence: nat, kind: Kind, rest: seq<Byte>)
    requires sequence <= MAX_SEQUENCE && |user| + 8 < POW32
    ensures var key := InternalKey(user, sequence, kind);
            && GetPrefixed(Prefixed(key) + rest) == Some(Piece(key, rest))
            && UserOf(key) == user && TagOf(key) == Pack(sequence, kind)
  {
    KeyParts(user, sequence, kind);
    PrefixedRoundTrip(InternalKey(user, sequence, kind), rest);
  }

  lemma EncodedValue(e: Entry)
    requires e.Fits()
    ensures GetPrefixed(Prefixed(e.value)) == Some(Piece(e.value, []))
  {
    PrefixedRoundTrip(e.value, []);
    assert Prefixed(e.value) + [] == Prefixed(e.value);
  }

  /** How encoded entries compare. */
  lemma CompareEncoded(cmp: Comparator, e: Entry, f: Entry)
    requires e.Fits() && f.Fits()
    ensures var r := cmp(e.user, f.user);
            CompareEntries(cmp, Encode(e), Encode(f)) ==
            if r != 0 then r else if e.Tag() > f.Tag() then -1 else if e.Tag() < f.Tag() then 1 else 0
  {
    hide Prefixed, InternalKey, Pack;
    EncodedKey(e.user, e.sequence, e.kind, Prefixed(e.value));
    EncodedKey(f.user, f.sequence, f.kind, Prefixed(f.value));
  }

  lemma EntriesOrdered(cmp: Comparator, f: (seq<Byte>, seq<Byte>) -> int)
    requires Ordered(cmp) && forall a, b :: f(a, b) == CompareEntries(cmp, a, b)
    ensures Ordered(f)
  {
    hide Ordered;
    forall a, b, c
      ensures f(a, a) == 0 && (f(a, b) < 0 <==> f(b, a) > 0) && (f(a, b) <= 0 && f(b, c) <= 0 ==> f(a, c) <= 0)
    {
      hide KeyOf, Compare;
      CompareTransitive(cmp, KeyOf(a), KeyOf(b), KeyOf(c));
    }
    OrderedIf(f);
  }

  lemma OrderedIf(f: (seq<Byte>, seq<Byte>) -> int)
    requires forall a, b, c ::
               f(a, a) == 0 && (f(a, b) < 0 <==> f(b, a) > 0) && (f(a, b) <= 0 && f(b, c) <= 0 ==> f(a, c) <= 0)
    ensures Ordered(f)
  {
  }

  // ----- What a lookup is to find -----

  predicate Visible(cmp: Comparator, e: Entry, user: seq<Byte>, s: nat) {
    cmp(e.user, user) == 0 && e.sequence <= s
  }

  datatype Lookup = Found(value: seq<Byte>) | Deleted | Missing

  function Shown(e: Entry): Lookup {
    match e.kind
    case Value => Found(e.value)
    case Deletion => Deleted
  }

  /** The answer for a user key at snapshot s: that of the entry with the highest tag among those the snapshot sees. */
  ghost predicate Answer(cmp: Comparator, entries: multiset<Entry>, user: seq<Byte>, s: nat, r: Lookup) {
    if r == Missing then forall e <- entries :: !Visible(cmp, e, user, s)
    else exists e <- entries ::
      Visible(cmp, e, user, s) && r == Shown(e) && Highest(cmp, entries, user, s, e)
  }

  ghost predicate Highest(cmp: Comparator, entries: multiset<Entry>, user: seq<Byte>, s: nat, e: Entry) {
    forall f <- entries :: Visible(cmp, f, user, s) ==> f.Tag() <= e.Tag()
  }

  /** No two entries for one user key have the same sequence number. */
  ghost predicate DistinctSequences(cmp: Comparator, entries: multiset<Entry>) {
    && (forall e <- entries :: e.Fits() && entries[e] == 1)
    && forall e <- entries, f <- entries :: e != f && cmp(e.user, f.user) == 0 ==> e.sequence != f.sequence
  }

  ghost predicate Newest(cmp: Comparator, entries: multiset<Entry>, user: seq<Byte>, s: nat, e: Entry) {
    e in entries && Visible(cmp, e, user, s) &&
    forall f <- entries :: Visible(cmp, f, user, s) ==> f.sequence <= e.sequence
  }

  lemma NewestIsHighest(cmp: Comparator, entries: multiset<Entry>, user: seq<Byte>, s: nat, d: Entry, e: Entry)
    requires Ordered(cmp) && DistinctSequences(cmp, entries) && d in entries && Visible(cmp, d, user, s)
    requires Highest(cmp, entries, user, s, d) && Newest(cmp, entries, user, s, e)
    ensures d == e
  {
    assert d.Fits() && e.Fits() && d.sequence <= e.sequence && e.Tag() <= d.Tag();
    assert d.sequence == e.sequence;
    hide Highest, Newest, Entry.Tag, Entry.Fits, Ordered;
    Transitive(cmp, d.user, user, e.user);
    Transitive(cmp, e.user, user, d.user);
    Transitive(cmp, user, e.user, user);
    Transitive(cmp, user, d.user, user);
    Transitive(cmp, e.user, d.user, e.user);
  }

  /** With distinct sequence numbers there is one answer, and it is that of the newest visible entry. */
  lemma AnswerIsNewest(cmp: Comparator, entries: multiset<Entry>, user: seq<Byte>, s: nat, r: Lookup, e: Entry)
    requires Ordered(cmp) && DistinctSequences(cmp, entries) && Answer(cmp, entries, user, s, r)
    requires Newest(cmp, entries, user, s, e)
    ensures r == Shown(e)
  {
    hide Ordered, Highest, DistinctSequences;
    assert r != Missing by { assert e in entries && Visible(cmp, e, user, s); }
    var d :| d in entries && Visible(cmp, d, user, s) && r == Shown(d) && Highest(cmp, entries, user, s, d);
    NewestIsHighest(cmp, entries, user, s, d, e);
  }

  // ----- The table -----

  ghost predicate Encoded(entries: multiset<Entry>, x: seq<Byte>) {
    exists e <- entries :: Encode(e) == x
  }

  /** The list holds the encodings of these entries and nothing else. */
  ghost predicate Encodes(contents: seq<seq<Byte>>, entries: multiset<Entry>) {
    && (forall x <- contents :: Encoded(entries, x))
    && (forall e <- entries :: e.Fits() && Encode(e) in contents)
  }

  lemma EncodesMore(s: seq<seq<Byte>>, s': seq<seq<Byte>>, entries: multiset<Entry>, e: Entry)
    requires Encodes(s, entries) && e.Fits() && InsertedInto(s, Encode(e), s')
    ensures Encodes(s', entries + multiset{e})
  {
    hide Encode;
    var p: nat :| p <= |s| && s' == s[..p] + [Encode(e)] + s[p..];
    assert s == s[..p] + s[p..];
    forall x | x in s' ensures Encoded(entries + multiset{e}, x) {
      if x == Encode(e) {
        assert e in entries + multiset{e};
      } else {
        assert x in s;
        assert Encoded(entries, x);
        var f :| f in entries && Encode(f) == x;
        assert f in entries + multiset{e};
      }
    }
  }

  class MemTable {
    const cmp: Comparator
    const table: SkipList<seq<Byte>>
    /** Everything added so far. */
    ghost var entries: multiset<Entry>

    ghost predicate Valid()
      reads this, table
    {
      && Ordered(cmp) && table.Valid() && Encodes(table.Contents(), entries)
      && forall a, b :: table.cmp(a, b) == CompareEntries(cmp, a, b)
    }

    constructor (cmp: Comparator)
      requires Ordered(cmp)
      ensures Valid() && this.cmp == cmp && entries == multiset{} && fresh(table)
    {
      var f := (a: seq<Byte>, b: seq<Byte>) => CompareEntries(cmp, a, b);
      EntriesOrdered(cmp, f);
      hide Ordered;
      this.cmp, entries := cmp, multiset{};
      table := new SkipList(f, []);
    }

    /** No entry for the user key has this tag yet. */
    ghost predicate Unused(user: seq<Byte>, tag: nat)
      reads this
    {
      forall e <- entries :: cmp(e.user, user) == 0 ==> e.Tag() != tag
    }

    lemma UnusedIsNew(e: Entry)
      requires Valid() && e.Fits() && Unused(e.user, e.Tag())
      ensures table.New(Encode(e))
    {
      hide Ordered, Encode, CompareEntries;
      forall i | 0 <= i < |table.Contents()| ensures table.cmp(table.Contents()[i], Encode(e)) != 0 {
        var x := table.Contents()[i];
        assert x in table.Contents() && Encoded(entries, x);
        var f :| f in entries && Encode(f) == x;
        CompareEncoded(cmp, f, e);
      }
    }

    method Add(sequence: nat, kind: Kind, user: seq<Byte>, value: seq<Byte>, height: nat)
      requires Valid() && Entry(user, sequence, kind, value).Fits() && 1 <= height <= MAX_HEIGHT
      requires Unused(user, Pack(sequence, kind))
      modifies this, table
      ensures Valid() && entries == old(entries) + multiset{Entry(user, sequence, kind, value)}
    {
      ghost var e := Entry(user, sequence, kind, value);
      UnusedIsNew(e);
      IsEncoding(e);
      hide Valid, Encode, Pack, Unused;
      InsertEncoded(Prefixed(InternalKey(user, sequence, kind)) + Prefixed(value), e, height);
    }

    method InsertEncoded(buf: seq<Byte>, ghost e: Entry, height: nat)
      requires Valid() && e.Fits() && buf == Encode(e) && table.New(buf) && 1 <= height <= MAX_HEIGHT
      modifies this, table
      ensures Valid() && entries == old(entries) + multiset{e}
    {
      hide Ordered, Encode, CompareEntries, Encodes;
      ghost var was := table.Contents();
      table.Insert(buf, height);
      EncodesMore(was, table.Contents(), entries, e);
      entries := entries + multiset{e};
    }

    lemma IsEncoding(e: Entry)
      ensures Encode(e) == Prefixed(InternalKey(e.user, e.sequence, e.kind)) + Prefixed(e.value)
    {
    }

    /** Where the lookup key lands: every visible entry is there or further on. */
    lemma Landing(i: nat, user: seq<Byte>, s: nat)
      requires Valid() && |user| + 8 < POW32 && s <= MAX_SEQUENCE && i <= |table.Contents()|
      requires var target := Prefixed(InternalKey(user, s, KIND_FOR_SEEK));
               forall j :: 0 <= j < |table.Contents()| ==> (table.cmp(table.Contents()[j], target) < 0 <==> j < i)
      ensures forall e <- entries :: Visible(cmp, e, user, s) ==>
                exists j :: i <= j < |table.Contents()| && table.Contents()[j] == Encode(e)
    {
      hide Ordered, Encode, InternalKey, Prefixed;
      forall e | e in entries && Visible(cmp, e, user, s)
        ensures exists j :: i <= j < |table.Contents()| && table.Contents()[j] == Encode(e)
      {
        assert Encode(e) in table.Contents();
        var j :| 0 <= j < |table.Contents()| && table.Contents()[j] == Encode(e);
        NotBeforeTarget(e, user, s);
      }
    }

    lemma NotBeforeTarget(e: Entry, user: seq<Byte>, s: nat)
      requires Valid() && |user| + 8 < POW32 && s <= MAX_SEQUENCE && e.Fits()
      ensures var target := Prefixed(InternalKey(user, s, KIND_FOR_SEEK));
              table.cmp(Encode(e), target) < 0 <==> cmp(e.user, user) < 0 || (cmp(e.user, user) == 0 && e.sequence > s)
    {
      var target := Prefixed(InternalKey(user, s, KIND_FOR_SEEK));
      EncodedKey(e.user, e.sequence, e.kind, Prefixed(e.value));
      EncodedKey(user, s, KIND_FOR_SEEK, []);
      assert target + [] == target;
      TagOrder(e.sequence, e.kind, s);
    }

    lemma AtOrAfter(i: nat, j: nat, e: Entry, f: Entry)
      requires Valid() && i <= j < |table.Contents()| && e.Fits() && f.Fits()
      requires table.Contents()[i] == Encode(e) && table.Contents()[j] == Encode(f)
      ensures cmp(e.user, f.user) < 0 || (cmp(e.user, f.user) == 0 && f.Tag() <= e.Tag())
    {
      hide Ordered, Encode, Encodes, CompareEntries, Entry.Tag, Entry.Fits;
      CompareEncoded(cmp, e, f);
      var a := table.Contents()[i];
      Transitive(table.cmp, a, a, a);
      assert table.cmp(a, table.Contents()[j]) <= 0;
    }

    /** What the search that landed at i means for the answer. */
    lemma Landed(i: nat, user: seq<Byte>, s: nat, e: Entry)
      requires Valid() && |user| + 8 < POW32 && s <= MAX_SEQUENCE && i < |table.Contents()|
      requires var target := Prefixed(InternalKey(user, s, KIND_FOR_SEEK));
               forall j :: 0 <= j < |table.Contents()| ==> (table.cmp(table.Contents()[j], target) < 0 <==> j < i)
      requires e in entries && Encode(e) == table.Contents()[i]
      ensures cmp(e.user, user) == 0 ==> Visible(cmp, e, user, s) && Highest(cmp, entries, user, s, e)
      ensures cmp(e.user, user) != 0 ==> Answer(cmp, entries, user, s, Missing)
    {
      hide Ordered, Encode, InternalKey, Prefixed, Highest, Entry.Tag, CompareEntries;
      assert e.Fits();
      NotBeforeTarget(e, user, s);
      Landing(i, user, s);
      forall f | f in entries && Visible(cmp, f, user, s)
        ensures cmp(e.user, f.user) < 0 || (cmp(e.user, f.user) == 0 && f.Tag() <= e.Tag())
      {
        var j :| i <= j < |table.Contents()| && table.Contents()[j] == Encode(f);
        AtOrAfter(i, j, e, f);
      }
      FirstDecides(cmp, entries, user, s, e);
    }

    /** The newest entry for the user key that the snapshot sees. */
    method Get(user: seq<Byte>, s: nat) returns (r: Lookup)
      requires Valid() && |user| + 8 < POW32 && s <= MAX_SEQUENCE
      ensures Answer(cmp, entries, user, s, r)
    {
      hide Ordered, Encode, InternalKey, Prefixed, Highest, CompareEntries, Visible;
      var iter := new Iterator(table);
      ghost var i := iter.Seek(Prefixed(InternalKey(user, s, KIND_FOR_SEEK)));
      if !iter.IsValid() {
        Landing(i, user, s);
        return Missing;
      }
      var entry := iter.GetKey(i);
      ghost var e := EntryAt(i);
      Landed(i, user, s, e);
      Decodes(e);
      var p := GetPrefixed(entry).value;
      if cmp(UserOf(p.data), user) == 0 {
        if TagOf(p.data) % 0x100 == Code(Value) {
          return Found(GetPrefixed(p.rest).value.data);
        }
        return Deleted;
      }
      return Missing;
    }

    lemma EntryAt(i: nat) returns (e: Entry)
      requires Valid() && i < |table.Contents()|
      ensures e in entries && Encode(e) == table.Contents()[i] && e.Fits()
    {
      hide Encode;
      assert table.Contents()[i] in table.Contents() && Encoded(entries, table.Contents()[i]);
      e :| e in entries && Encode(e) == table.Contents()[i];
    }

    lemma Decodes(e: Entry)
      requires e.Fits()
      ensures GetPrefixed(Encode(e)).Some?
      ensures var p := GetPrefixed(Encode(e)).value;
              && UserOf(p.data) == e.user && TagOf(p.data) % 0x100 == Code(e.kind)
              && GetPrefixed(p.rest) == Some(Piece(e.value, []))
    {
      hide GetPrefixed, Prefixed, InternalKey, Pack, UserOf, TagOf;
      EncodedKey(e.user, e.sequence, e.kind, Prefixed(e.value));
      EncodedValue(e);
      LowByte(e.sequence, e.kind);
    }
  }

  /** If everything visible is at or after entry e, and e is for the user key, then e has the answer; and if it is
      not for the user key, nothing has. */
  lemma FirstDecides(cmp: Comparator, entries: multiset<Entry>, user: seq<Byte>, s: nat, e: Entry)
    requires Ordered(cmp) && e in entries && !(cmp(e.user, user) < 0 || (cmp(e.user, user) == 0 && e.sequence > s))
    requires forall f <- entries :: Visible(cmp, f, user, s) ==>
               cmp(e.user, f.user) < 0 || (cmp(e.user, f.user) == 0 && f.Tag() <= e.Tag())
    ensures cmp(e.user, user) == 0 ==> Visible(cmp, e, user, s) && Highest(cmp, entries, user, s, e)
    ensures cmp(e.user, user) != 0 ==> Answer(cmp, entries, user, s, Missing)
  {
    hide Ordered, Entry.Tag;
    forall f | f in entries && Visible(cmp, f, user, s)
      ensures cmp(e.user, user) == 0 && f.Tag() <= e.Tag()
    {
      Transitive(cmp, e.user, f.user, user);
      Transitive(cmp, f.user, user, e.user);
      Transitive(cmp, user, f.user, e.user);
      Transitive(cmp, user, e.user, f.user);
      Transitive(cmp, e.user, user, f.user);
    }
  }

  lemma LowByte(sequence: nat, kind: Kind)
    requires sequence <= MAX_SEQUENCE
    ensures Pack(sequence, kind) % 0x100 == Code(kind)
  {
  }

  lemma TagOrder(sequence: nat, kind: Kind, s: nat)
    requires sequence <= MAX_SEQUENCE && s <= MAX_SEQUENCE
    ensures Pack(sequence, kind) > Pack(s, KIND_FOR_SEEK) <==> sequence > s
  {
  }
}

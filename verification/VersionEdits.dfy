/** Version edits: the records of the manifest, encoded field by field and decoded again. */
module VersionEdits {
  import opened Bytes
  import opened Coding
  import DbFormat
  import WB = WriteBatches

  datatype File = File(number: nat, size: nat, smallest: seq<Byte>, largest: seq<Byte>)

  /** One tagged field of an encoded edit. */
  datatype Field =
    | Comparator(name: seq<Byte>)
    | LogNumber(n: nat)
    | PrevLogNumber(n: nat)
    | NextFileNumber(n: nat)
    | LastSequence(n: nat)
    | CompactPointer(level: nat, key: seq<Byte>)
    | DeletedFile(level: nat, n: nat)
    | NewFile(level: nat, file: File)
  {
    predicate Fits() {
      match this
      case Comparator(name) => |name| < POW32
      case CompactPointer(level, key) => level < DbFormat.NUM_LEVELS && |key| < POW32
      case DeletedFile(level, n) => level < DbFormat.NUM_LEVELS && n < POW64
      case NewFile(level, f) =>
        level < DbFormat.NUM_LEVELS && f.number < POW64 && f.size < POW64 && |f.smallest| < POW32 && |f.largest| < POW32
      case _ => n < POW64
    }
  }

  /** What an edit says. */
  datatype Edit = Edit(
    comparator: Option<seq<Byte>>, logNumber: Option<nat>, prevLogNumber: Option<nat>, nextFileNumber: Option<nat>,
    lastSequence: Option<nat>, compactPointers: seq<(nat, seq<Byte>)>, deletedFiles: set<(nat, nat)>,
    newFiles: seq<(nat, File)>)

  const EMPTY := Edit(None, None, None, None, None, [], {}, [])

  // ----- Encoding -----

  function EncodeField(f: Field): (s: seq<Byte>)
    ensures s != []
  {
    match f
    case Comparator(name) => Varint(1) + Prefixed(name)
    case LogNumber(n) => Varint(2) + Varint(n)
    case NextFileNumber(n) => Varint(3) + Varint(n)
    case LastSequence(n) => Varint(4) + Varint(n)
    case CompactPointer(level, key) => Varint(5) + Varint(level) + Prefixed(key)
    case DeletedFile(level, n) => Varint(6) + Varint(level) + Varint(n)
    case NewFile(level, f) =>
      Varint(7) + Varint(level) + Varint(f.number) + Varint(f.size) + Prefixed(f.smallest) + Prefixed(f.largest)
    case PrevLogNumber(n) => Varint(9) + Varint(n)
  }

  function EncodeAll(fields: seq<Field>): seq<Byte> {
    if fields == [] then [] else EncodeField(fields[0]) + EncodeAll(fields[1..])
  }

  lemma NoFields()
    ensures EncodeAll([]) == []
  {
  }

  lemma EncodeAllStep(fields: seq<Field>)
    requires fields != []
    ensures EncodeAll(fields) == EncodeField(fields[0]) + EncodeAll(fields[1..])
  {
  }

  lemma {:induction false} EncodeAllAppend(a: seq<Field>, b: seq<Field>)
    ensures EncodeAll(a + b) == EncodeAll(a) + EncodeAll(b)
  {
    hide EncodeAll, EncodeField;
    NoFields();
    if a == [] {
      assert a + b == b;
    } else {
      EncodeAllAppend(a[1..], b);
      EncodeAllStep(a);
      EncodeAllStep(a + b);
      assert (a + b)[1..] == a[1..] + b;
    }
  }

  lemma EncodeOne(f: Field)
    ensures EncodeAll([f]) == EncodeField(f)
  {
    hide EncodeField;
    NoFields();
    assert [f][1..] == [];
  }

  // ----- Decoding -----

  datatype Parsed<T> = Parsed(value: T, rest: seq<Byte>)

  function GetNumber(s: seq<Byte>): Option<Parsed<nat>> {
    match GetVarint64(s)
    case None => None
    case Some(n) => Some(Parsed(n.value, s[n.size..]))
  }

  function GetTag(s: seq<Byte>): (r: Option<Parsed<nat>>)
    ensures r.Some? ==> |r.value.rest| < |s|
  {
    VarintReadsSome(s);
    match GetVarint32(s)
    case None => None
    case Some(n) => Some(Parsed(n.value, s[n.size..]))
  }

  function GetLevel(s: seq<Byte>): Option<Parsed<nat>> {
    match GetTag(s)
    case None => None
    case Some(p) => if p.value < DbFormat.NUM_LEVELS then Some(p) else None
  }

  function GetNewFile(s: seq<Byte>): Option<Parsed<Field>> {
    match GetLevel(s)
    case None => None
    case Some(level) =>
      match GetNumber(level.rest)
      case None => None
      case Some(number) =>
        match GetNumber(number.rest)
        case None => None
        case Some(size) =>
          match GetPrefixed(size.rest)
          case None => None
          case Some(smallest) =>
            match GetPrefixed(smallest.rest)
            case None => None
            case Some(largest) =>
              var f := File(number.value, size.value, smallest.data, largest.data);
              Some(Parsed(NewFile(level.value, f), largest.rest))
  }

  datatype Decoded = Decoded(field: Field, rest: seq<Byte>) | Bad(message: string)

  function NumberField(s: seq<Byte>, make: nat -> Field, message: string): Decoded {
    match GetNumber(s)
    case None => Bad(message)
    case Some(n) => Decoded(make(n.value), n.rest)
  }

  /** The field with this tag. */
  function DecodeField(tag: nat, s: seq<Byte>): Decoded {
    if tag == 1 then
      match GetPrefixed(s)
      case None => Bad("comparator name")
      case Some(p) => Decoded(Comparator(p.data), p.rest)
    else if tag == 2 then NumberField(s, (n: nat) => LogNumber(n), "log number")
    else if tag == 9 then NumberField(s, (n: nat) => PrevLogNumber(n), "previous log number")
    else if tag == 3 then NumberField(s, (n: nat) => NextFileNumber(n), "next file number")
    else if tag == 4 then NumberField(s, (n: nat) => LastSequence(n), "last sequence number")
    else if tag == 5 then
      match GetLevel(s)
      case None => Bad("compaction pointer")
      case Some(level) =>
        match GetPrefixed(level.rest)
        case None => Bad("compaction pointer")
        case Some(key) => Decoded(CompactPointer(level.value, key.data), key.rest)
    else if tag == 6 then
      match GetLevel(s)
      case None => Bad("deleted file")
      case Some(level) =>
        match GetNumber(level.rest)
        case None => Bad("deleted file")
        case Some(n) => Decoded(DeletedFile(level.value, n.value), n.rest)
    else if tag == 7 then
      match GetNewFile(s)
      case None => Bad("new-file entry")
      case Some(p) => Decoded(p.value, p.rest)
    else Bad("unknown tag")
  }

  lemma DecodeShrinks(tag: nat, s: seq<Byte>)
    ensures var d := DecodeField(tag, s); d.Decoded? ==> |d.rest| <= |s|
  {
  }

  /** The fields up to the end of the input, or up to the first that is bad. */
  datatype Fields = Fields(fields: seq<Field>, status: WB.Status)

  function DecodeAll(s: seq<Byte>): Fields
    decreases |s|
  {
    match GetTag(s)
    case None => Fields([], if s == [] then WB.OK else WB.Corruption("invalid tag"))
    case Some(tag) =>
      DecodeShrinks(tag.value, tag.rest);
      match DecodeField(tag.value, tag.rest)
      case Bad(message) => Fields([], WB.Corruption(message))
      case Decoded(f, rest) =>
        var more := DecodeAll(rest);
        Fields([f] + more.fields, more.status)
  }

  /** What is read are levels that there are, numbers of 64 bits and strings with lengths of 32 bits. */
  lemma {:induction false} DecodedFits(s: seq<Byte>)
    ensures forall f <- DecodeAll(s).fields :: f.Fits()
    decreases |s|
  {
    hide GetPrefixed, GetTag, GetNumber, DecodeField;
    if GetTag(s).Some? {
      var tag := GetTag(s).value;
      DecodeShrinks(tag.value, tag.rest);
      FieldFits(tag.value, tag.rest);
      var d := DecodeField(tag.value, tag.rest);
      if d.Decoded? {
        DecodedFits(d.rest);
      }
    }
  }

  lemma FieldFits(tag: nat, s: seq<Byte>)
    ensures var d := DecodeField(tag, s); d.Decoded? ==> d.field.Fits()
  {
  }

  // ----- What a field does to an edit -----

  function Apply(e: Edit, f: Field): Edit {
    match f
    case Comparator(name) => e.(comparator := Some(name))
    case LogNumber(n) => e.(logNumber := Some(n))
    case PrevLogNumber(n) => e.(prevLogNumber := Some(n))
    case NextFileNumber(n) => e.(nextFileNumber := Some(n))
    case LastSequence(n) => e.(lastSequence := Some(n))
    case CompactPointer(level, key) => e.(compactPointers := e.compactPointers + [(level, key)])
    case DeletedFile(level, n) => e.(deletedFiles := e.deletedFiles + {(level, n)})
    case NewFile(level, file) => e.(newFiles := e.newFiles + [(level, file)])
  }

  function ApplyAll(e: Edit, fields: seq<Field>): Edit
    decreases |fields|
  {
    if fields == [] then e else ApplyAll(Apply(e, fields[0]), fields[1..])
  }

  lemma {:induction false} ApplyAllAppend(e: Edit, a: seq<Field>, b: seq<Field>)
    ensures ApplyAll(e, a + b) == ApplyAll(ApplyAll(e, a), b)
    decreases |a|
  {
    hide Apply;
    if a == [] {
      assert a + b == b;
    } else {
      ApplyAllAppend(Apply(e, a[0]), a[1..], b);
      assert (a + b)[1..] == a[1..] + b;
    }
  }

  // ----- The fields of an edit, in the order they are written -----

  function Single(o: Option<nat>, make: nat -> Field): seq<Field> {
    if o.Some? then [make(o.value)] else []
  }

  function Heads(e: Edit): seq<Field> {
    (if e.comparator.Some? then [Comparator(e.comparator.value)] else []) +
    Single(e.logNumber, (n: nat) => LogNumber(n)) + Single(e.prevLogNumber, (n: nat) => PrevLogNumber(n)) +
    Single(e.nextFileNumber, (n: nat) => NextFileNumber(n)) + Single(e.lastSequence, (n: nat) => LastSequence(n))
  }

  function Pointers(s: seq<(nat, seq<Byte>)>): seq<Field> {
    seq(|s|, i requires 0 <= i < |s| => CompactPointer(s[i].0, s[i].1))
  }

  function Deletions(s: seq<(nat, nat)>): seq<Field> {
    seq(|s|, i requires 0 <= i < |s| => DeletedFile(s[i].0, s[i].1))
  }

  function Additions(s: seq<(nat, File)>): seq<Field> {
    seq(|s|, i requires 0 <= i < |s| => NewFile(s[i].0, s[i].1))
  }

  predicate Before(a: (nat, nat), b: (nat, nat)) {
    a.0 < b.0 || (a.0 == b.0 && a.1 < b.1)
  }

  /** The set's elements in ascending order. */
  ghost predicate Lists(deleted: seq<(nat, nat)>, s: set<(nat, nat)>) {
    && (forall x :: x in deleted <==> x in s)
    && (forall i, j :: 0 <= i < j < |deleted| ==> Before(deleted[i], deleted[j]))
  }

  function FieldsOf(e: Edit, deleted: seq<(nat, nat)>): seq<Field> {
    Heads(e) + Pointers(e.compactPointers) + Deletions(deleted) + Additions(e.newFiles)
  }

  lemma {:induction false} AppliesPointers(e: Edit, s: seq<(nat, seq<Byte>)>)
    ensures ApplyAll(e, Pointers(s)) == e.(compactPointers := e.compactPointers + s)
    decreases |s|
  {
    if s == [] {
      assert e.compactPointers + s == e.compactPointers;
    } else {
      assert Pointers(s)[1..] == Pointers(s[1..]);
      AppliesPointers(Apply(e, Pointers(s)[0]), s[1..]);
      assert e.compactPointers + [s[0]] + s[1..] == e.compactPointers + s;
    }
  }

  lemma {:induction false} AppliesDeletions(e: Edit, s: seq<(nat, nat)>)
    ensures ApplyAll(e, Deletions(s)) == e.(deletedFiles := e.deletedFiles + set x <- s)
    decreases |s|
  {
    if s == [] {
      assert e.deletedFiles + (set x <- s) == e.deletedFiles;
    } else {
      assert Deletions(s)[1..] == Deletions(s[1..]);
      AppliesDeletions(Apply(e, Deletions(s)[0]), s[1..]);
      assert s == [s[0]] + s[1..];
      assert (set x <- s) == {s[0]} + set x <- s[1..];
      assert e.deletedFiles + {s[0]} + (set x <- s[1..]) == e.deletedFiles + set x <- s;
    }
  }

  lemma {:induction false} AppliesAdditions(e: Edit, s: seq<(nat, File)>)
    ensures ApplyAll(e, Additions(s)) == e.(newFiles := e.newFiles + s)
    decreases |s|
  {
    if s == [] {
      assert e.newFiles + s == e.newFiles;
    } else {
      assert Additions(s)[1..] == Additions(s[1..]);
      AppliesAdditions(Apply(e, Additions(s)[0]), s[1..]);
      assert e.newFiles + [s[0]] + s[1..] == e.newFiles + s;
    }
  }

  /** Where no head field is set yet they are set to those of e. */
  lemma AppliesHeads(into: Edit, e: Edit)
    requires into.comparator == None && into.logNumber == None && into.prevLogNumber == None
    requires into.nextFileNumber == None && into.lastSequence == None
    ensures ApplyAll(into, Heads(e)) ==
            e.(compactPointers := into.compactPointers, deletedFiles := into.deletedFiles, newFiles := into.newFiles)
  {
    var a := if e.comparator.Some? then [Comparator(e.comparator.value)] else [];
    var b, c := Single(e.logNumber, (n: nat) => LogNumber(n)), Single(e.prevLogNumber, (n: nat) => PrevLogNumber(n));
    var d := Single(e.nextFileNumber, (n: nat) => NextFileNumber(n));
    var f := Single(e.lastSequence, (n: nat) => LastSequence(n));
    ApplyAllAppend(into, a + b + c + d, f);
    ApplyAllAppend(into, a + b + c, d);
    ApplyAllAppend(into, a + b, c);
    ApplyAllAppend(into, a, b);
  }

  /** The fields of an edit make an edit, of which only the compaction pointers were not empty, into that edit with its
      own pointers after those there were. */
  lemma AppliesFields(into: Edit, e: Edit, deleted: seq<(nat, nat)>)
    requires into == EMPTY.(compactPointers := into.compactPointers) && Lists(deleted, e.deletedFiles)
    ensures ApplyAll(into, FieldsOf(e, deleted)) == e.(compactPointers := into.compactPointers + e.compactPointers)
  {
    hide ApplyAll, Heads, Pointers, Deletions, Additions;
    var a, b, c, d := Heads(e), Pointers(e.compactPointers), Deletions(deleted), Additions(e.newFiles);
    ApplyAllAppend(into, a + b + c, d);
    ApplyAllAppend(into, a + b, c);
    ApplyAllAppend(into, a, b);
    AppliesHeads(into, e);
    AppliesPointers(ApplyAll(into, a), e.compactPointers);
    AppliesDeletions(ApplyAll(into, a + b), deleted);
    AppliesAdditions(ApplyAll(into, a + b + c), e.newFiles);
    assert {} + (set x <- deleted) == e.deletedFiles;
    assert [] + e.newFiles == e.newFiles;
  }

  // ----- Every encoded field is decoded as it was -----

  lemma NumberRoundTrip(n: nat, rest: seq<Byte>)
    requires n < POW64
    ensures GetNumber(Varint(n) + rest) == Some(Parsed(n, rest))
  {
    hide GetVarint64, Varint;
    VarintReads64(n, rest);
    assert (Varint(n) + rest)[|Varint(n)|..] == rest;
  }

  lemma TagRoundTrip(n: nat, rest: seq<Byte>)
    requires n < POW32
    ensures GetTag(Varint(n) + rest) == Some(Parsed(n, rest))
    ensures n < DbFormat.NUM_LEVELS ==> GetLevel(Varint(n) + rest) == Some(Parsed(n, rest))
  {
    VarintReads(n, rest);
    assert (Varint(n) + rest)[|Varint(n)|..] == rest;
  }

  function TagOfField(f: Field): nat {
    match f
    case Comparator(_) => 1
    case LogNumber(_) => 2
    case NextFileNumber(_) => 3
    case LastSequence(_) => 4
    case CompactPointer(_, _) => 5
    case DeletedFile(_, _) => 6
    case NewFile(_, _) => 7
    case PrevLogNumber(_) => 9
  }

  /** What follows the tag of a field. */
  function Body(f: Field): seq<Byte> {
    match f
    case Comparator(name) => Prefixed(name)
    case CompactPointer(level, key) => Varint(level) + Prefixed(key)
    case DeletedFile(level, n) => Varint(level) + Varint(n)
    case NewFile(level, f) =>
      Varint(level) + Varint(f.number) + Varint(f.size) + Prefixed(f.smallest) + Prefixed(f.largest)
    case _ => Varint(f.n)
  }

  lemma EncodeIs(f: Field)
    ensures EncodeField(f) == Varint(TagOfField(f)) + Body(f)
  {
    hide Varint, Prefixed;
  }

  lemma BodyRoundTrip(f: Field, rest: seq<Byte>)
    requires f.Fits()
    ensures DecodeField(TagOfField(f), Body(f) + rest) == Decoded(f, rest)
  {
    hide Varint, Prefixed, GetNumber, GetTag, GetLevel, GetPrefixed, GetNewFile;
    match f
    case Comparator(name) => PrefixedRoundTrip(name, rest);
    case CompactPointer(level, key) =>
      TagRoundTrip(level, Prefixed(key) + rest);
      PrefixedRoundTrip(key, rest);
      assert Body(f) + rest == Varint(level) + (Prefixed(key) + rest);
    case DeletedFile(level, n) =>
      TagRoundTrip(level, Varint(n) + rest);
      NumberRoundTrip(n, rest);
      assert Body(f) + rest == Varint(level) + (Varint(n) + rest);
    case NewFile(level, file) =>
      NewFileRoundTrip(level, file, rest);
    case _ => NumberRoundTrip(f.n, rest);
  }

  lemma NewFileRoundTrip(level: nat, f: File, rest: seq<Byte>)
    requires NewFile(level, f).Fits()
    ensures GetNewFile(Body(NewFile(level, f)) + rest) == Some(Parsed(NewFile(level, f), rest))
  {
    hide Varint, Prefixed, GetNumber, GetTag, GetLevel, GetPrefixed;
    var d := Prefixed(f.largest) + rest;
    var c := Prefixed(f.smallest) + d;
    var b := Varint(f.size) + c;
    var a := Varint(f.number) + b;
    TagRoundTrip(level, a);
    NumberRoundTrip(f.number, b);
    NumberRoundTrip(f.size, c);
    PrefixedRoundTrip(f.smallest, d);
    PrefixedRoundTrip(f.largest, rest);
    assert Body(NewFile(level, f)) + rest == Varint(level) + a;
  }

  lemma {:induction false} AllRoundTrip(fields: seq<Field>)
    requires forall f <- fields :: f.Fits()
    ensures DecodeAll(EncodeAll(fields)) == Fields(fields, WB.OK)
  {
    hide EncodeField, EncodeAll, Varint, GetTag, DecodeField, TagOfField, Body, DecodeAll, Field.Fits;
    if fields == [] {
      NoFields();
      NothingDecoded();
    } else {
      var f, rest := fields[0], EncodeAll(fields[1..]);
      EncodeAllStep(fields);
      EncodeIs(f);
      assert EncodeField(f) + rest == Varint(TagOfField(f)) + (Body(f) + rest);
      SmallTag(f);
      TagRoundTrip(TagOfField(f), Body(f) + rest);
      BodyRoundTrip(f, rest);
      AllRoundTrip(fields[1..]);
      DecodeAllStep(EncodeAll(fields));
      assert fields == [f] + fields[1..];
    }
  }

  lemma SmallTag(f: Field)
    ensures TagOfField(f) < 10
  {
  }

  lemma NothingDecoded()
    ensures DecodeAll([]) == Fields([], WB.OK)
  {
  }

  lemma DecodeAllStep(s: seq<Byte>)
    requires GetTag(s).Some?
    ensures var tag := GetTag(s).value;
            match DecodeField(tag.value, tag.rest)
            case Bad(message) => DecodeAll(s) == Fields([], WB.Corruption(message))
            case Decoded(f, rest) => DecodeAll(s) == Fields([f] + DecodeAll(rest).fields, DecodeAll(rest).status)
  {
    DecodeShrinks(GetTag(s).value.value, GetTag(s).value.rest);
    hide DecodeField, GetTag;
  }

  // ----- The round trip -----

  /** Every field of the edit fits its encoding. */
  ghost predicate Fits(e: Edit) {
    && (e.comparator.Some? ==> |e.comparator.value| < POW32)
    && (e.logNumber.Some? ==> e.logNumber.value < POW64) && (e.prevLogNumber.Some? ==> e.prevLogNumber.value < POW64)
    && (e.nextFileNumber.Some? ==> e.nextFileNumber.value < POW64)
    && (e.lastSequence.Some? ==> e.lastSequence.value < POW64)
    && (forall p <- e.compactPointers :: CompactPointer(p.0, p.1).Fits())
    && (forall d <- e.deletedFiles :: DeletedFile(d.0, d.1).Fits())
    && (forall f <- e.newFiles :: NewFile(f.0, f.1).Fits())
  }

  lemma FieldsFit(e: Edit, deleted: seq<(nat, nat)>)
    requires Fits(e) && Lists(deleted, e.deletedFiles)
    ensures forall f <- FieldsOf(e, deleted) :: f.Fits()
  {
    HeadsFit(e);
    hide Heads;
    forall i | 0 <= i < |deleted| ensures Deletions(deleted)[i].Fits() {
      assert deleted[i] in e.deletedFiles;
    }
  }

  lemma HeadsFit(e: Edit)
    requires Fits(e)
    ensures forall f <- Heads(e) :: f.Fits()
  {
  }

  /** An edit whose fields fit is decoded, into an edit that may hold compaction pointers already, as itself; with its
      own pointers after those. */
  lemma EditRoundTrip(into: Edit, e: Edit, deleted: seq<(nat, nat)>)
    requires into == EMPTY.(compactPointers := into.compactPointers)
    requires Fits(e) && Lists(deleted, e.deletedFiles)
    ensures var d := DecodeAll(EncodeAll(FieldsOf(e, deleted)));
            && d.status == WB.OK
            && ApplyAll(into, d.fields) == e.(compactPointers := into.compactPointers + e.compactPointers)
            && (ApplyAll(into, d.fields) == e <==> into.compactPointers == [])
  {
    hide ApplyAll, DecodeAll, EncodeAll, FieldsOf, Fits, Lists;
    FieldsFit(e, deleted);
    AllRoundTrip(FieldsOf(e, deleted));
    AppliesFields(into, e, deleted);
    assert |into.compactPointers + e.compactPointers| == |into.compactPointers| + |e.compactPointers|;
    assert [] + e.compactPointers == e.compactPointers;
  }

  // ----- The object -----

  class VersionEdit {
    var comparator: seq<Byte>
    var logNumber: nat
    var prevLogNumber: nat
    var nextFileNumber: nat
    var lastSequence: nat
    var hasComparator: bool
    var hasLogNumber: bool
    var hasPrevLogNumber: bool
    var hasNextFileNumber: bool
    var hasLastSequence: bool
    var compactPointers: seq<(nat, seq<Byte>)>
    var deletedFiles: set<(nat, nat)>
    var newFiles: seq<(nat, File)>

    /** What the edit says: fields that are not flagged say nothing. */
    function View(): Edit
      reads this
    {
      Edit(if hasComparator then Some(comparator) else None, if hasLogNumber then Some(logNumber) else None,
           if hasPrevLogNumber then Some(prevLogNumber) else None,
           if hasNextFileNumber then Some(nextFileNumber) else None,
           if hasLastSequence then Some(lastSequence) else None, compactPointers, deletedFiles, newFiles)
    }

    constructor ()
      ensures View() == EMPTY
    {
      compactPointers := [];
      new;
      Clear();
    }

    /** Everything but the compaction pointers. */
    method Clear()
      modifies this
      ensures View() == EMPTY.(compactPointers := old(compactPointers))
    {
      comparator := [];
      logNumber := 0;
      prevLogNumber := 0;
      lastSequence := 0;
      nextFileNumber := 0;
      hasComparator := false;
      hasLogNumber := false;
      hasPrevLogNumber := false;
      hasNextFileNumber := false;
      hasLastSequence := false;
      deletedFiles := {};
      newFiles := [];
    }

    method SetCompactPointer(level: nat, key: seq<Byte>)
      modifies this
      ensures View() == Apply(old(View()), CompactPointer(level, key))
    {
      compactPointers := compactPointers + [(level, key)];
    }

    method AddFile(level: nat, file: nat, fileSize: nat, smallest: seq<Byte>, largest: seq<Byte>)
      modifies this
      ensures View() == Apply(old(View()), NewFile(level, File(file, fileSize, smallest, largest)))
    {
      newFiles := newFiles + [(level, File(file, fileSize, smallest, largest))];
    }

    method DeleteFile(level: nat, file: nat)
      modifies this
      ensures View() == Apply(old(View()), DeletedFile(level, file))
    {
      deletedFiles := deletedFiles + {(level, file)};
    }

    method EncodeTo(dst: seq<Byte>) returns (dst': seq<Byte>, ghost deleted: seq<(nat, nat)>)
      ensures Lists(deleted, deletedFiles) && dst' == dst + EncodeAll(FieldsOf(View(), deleted))
    {
      hide EncodeAll, EncodeField;
      dst' := EncodeHeads(dst);
      dst' := EncodePointers(dst');
      dst', deleted := EncodeDeletions(dst');
      dst' := EncodeAdditions(dst');
      ghost var a, b, c, d := Heads(View()), Pointers(compactPointers), Deletions(deleted), Additions(newFiles);
      hide Heads, Pointers, Deletions, Additions;
      EncodeAllAppend(a + b + c, d);
      EncodeAllAppend(a + b, c);
      EncodeAllAppend(a, b);
      Regroup(dst, EncodeAll(a), EncodeAll(b), EncodeAll(c), EncodeAll(d));
    }

    static lemma Regroup(s: seq<Byte>, a: seq<Byte>, b: seq<Byte>, c: seq<Byte>, d: seq<Byte>)
      ensures s + a + b + c + d == s + (a + b + c + d)
    {
    }

    method EncodeHeads(dst: seq<Byte>) returns (dst': seq<Byte>)
      ensures dst' == dst + EncodeAll(Heads(View()))
    {
      hide EncodeAll, EncodeField;
      NoFields();
      ghost var a := If(hasComparator, Comparator(comparator));
      ghost var b, c := If(hasLogNumber, LogNumber(logNumber)), If(hasPrevLogNumber, PrevLogNumber(prevLogNumber));
      ghost var d := If(hasNextFileNumber, NextFileNumber(nextFileNumber));
      ghost var e := If(hasLastSequence, LastSequence(lastSequence));
      HeadsAre(a, b, c, d, e);
      hide If;
      dst' := PutIf(dst, dst, hasComparator, Comparator(comparator), []);
      dst' := PutIf(dst, dst', hasLogNumber, LogNumber(logNumber), [] + a);
      dst' := PutIf(dst, dst', hasPrevLogNumber, PrevLogNumber(prevLogNumber), [] + a + b);
      dst' := PutIf(dst, dst', hasNextFileNumber, NextFileNumber(nextFileNumber), [] + a + b + c);
      dst' := PutIf(dst, dst', hasLastSequence, LastSequence(lastSequence), [] + a + b + c + d);
    }

    ghost function If(has: bool, f: Field): seq<Field> {
      if has then [f] else []
    }

    lemma HeadsAre(a: seq<Field>, b: seq<Field>, c: seq<Field>, d: seq<Field>, e: seq<Field>)
      requires a == If(hasComparator, Comparator(comparator))
      requires b == If(hasLogNumber, LogNumber(logNumber)) && c == If(hasPrevLogNumber, PrevLogNumber(prevLogNumber))
      requires d == If(hasNextFileNumber, NextFileNumber(nextFileNumber))
      requires e == If(hasLastSequence, LastSequence(lastSequence))
      ensures [] + a + b + c + d + e == Heads(View())
    {
    }

    /** Appends a field if it is flagged. */
    method PutIf(ghost dst: seq<Byte>, sofar: seq<Byte>, has: bool, f: Field, ghost done: seq<Field>)
      returns (r: seq<Byte>)
      requires sofar == dst + EncodeAll(done)
      ensures r == dst + EncodeAll(done + If(has, f))
    {
      r := sofar;
      if has {
        r := PutField(dst, sofar, f, done);
      } else {
        assert done + [] == done;
      }
    }

    /** Appends one field to what has been written since `dst`. */
    static method PutField(ghost dst: seq<Byte>, sofar: seq<Byte>, f: Field, ghost done: seq<Field>)
      returns (r: seq<Byte>)
      requires sofar == dst + EncodeAll(done)
      ensures r == dst + EncodeAll(done + [f])
    {
      hide EncodeAll;
      r := sofar + EncodeField(f);
      EncodeAllAppend(done, [f]);
      EncodeOne(f);
      assert dst + EncodeAll(done) + EncodeField(f) == dst + (EncodeAll(done) + EncodeField(f));
    }

    method EncodePointers(dst: seq<Byte>) returns (dst': seq<Byte>)
      ensures dst' == dst + EncodeAll(Pointers(compactPointers))
    {
      hide EncodeAll, EncodeField;
      dst' := dst;
      NoFields();
      assert Pointers(compactPointers[..0]) == [] && dst + [] == dst;
      for i := 0 to |compactPointers|
        invariant dst' == dst + EncodeAll(Pointers(compactPointers[..i]))
      {
        var p := compactPointers[i];
        dst' := PutField(dst, dst', CompactPointer(p.0, p.1), Pointers(compactPointers[..i]));
        assert Pointers(compactPointers[..i]) + [CompactPointer(p.0, p.1)] == Pointers(compactPointers[..i + 1]);
      }
      assert compactPointers[..|compactPointers|] == compactPointers;
    }

    /** The set is walked in ascending order. */
    method EncodeDeletions(dst: seq<Byte>) returns (dst': seq<Byte>, ghost deleted: seq<(nat, nat)>)
      ensures Lists(deleted, deletedFiles) && dst' == dst + EncodeAll(Deletions(deleted))
    {
      hide EncodeAll, EncodeField;
      dst', deleted := dst, [];
      var rest := deletedFiles;
      NoFields();
      assert Deletions([]) == [] && dst + [] == dst;
      while rest != {}
        invariant dst' == dst + EncodeAll(Deletions(deleted))
        invariant forall x :: x in deletedFiles <==> x in deleted || x in rest
        invariant forall i, j :: 0 <= i < j < |deleted| ==> Before(deleted[i], deleted[j])
        invariant forall x, y :: x in deleted && y in rest ==> Before(x, y)
        decreases rest
      {
        ghost var least := LeastExists(rest);
        var x :| x in rest && forall y <- rest :: y == x || Before(x, y);
        dst' := PutField(dst, dst', DeletedFile(x.0, x.1), Deletions(deleted));
        assert Deletions(deleted) + [DeletedFile(x.0, x.1)] == Deletions(deleted + [x]);
        rest := rest - {x};
        deleted := deleted + [x];
      }
    }

    static lemma Compares(x: (nat, nat), y: (nat, nat))
      ensures x == y || Before(x, y) || Before(y, x)
    {
    }

    static lemma BeforeBoth(x: (nat, nat), y: (nat, nat), z: (nat, nat))
      ensures Before(x, y) && Before(y, z) ==> Before(x, z)
    {
    }

    static ghost predicate Least(x: (nat, nat), s: set<(nat, nat)>) {
      x in s && forall y <- s :: y == x || Before(x, y)
    }

    static lemma {:induction false} LeastExists(s: set<(nat, nat)>) returns (x: (nat, nat))
      requires s != {}
      ensures Least(x, s)
      decreases |s|
    {
      hide Before;
      var z :| z in s;
      x := z;
      var rest := s - {z};
      if rest != {} {
        var least := LeastExists(rest);
        Compares(least, z);
        x := if Before(least, z) then least else z;
        forall y | y in s ensures y == x || Before(x, y) {
          if y != z {
            BeforeBoth(z, least, y);
          }
        }
      } else {
        forall y | y in s ensures y == z {
          assert y != z ==> y in rest;
        }
      }
    }

    method EncodeAdditions(dst: seq<Byte>) returns (dst': seq<Byte>)
      ensures dst' == dst + EncodeAll(Additions(newFiles))
    {
      hide EncodeAll, EncodeField;
      dst' := dst;
      NoFields();
      assert Additions(newFiles[..0]) == [] && dst + [] == dst;
      for i := 0 to |newFiles|
        invariant dst' == dst + EncodeAll(Additions(newFiles[..i]))
      {
        var f := newFiles[i];
        dst' := PutField(dst, dst', NewFile(f.0, f.1), Additions(newFiles[..i]));
        assert Additions(newFiles[..i]) + [NewFile(f.0, f.1)] == Additions(newFiles[..i + 1]);
      }
      assert newFiles[..|newFiles|] == newFiles;
    }

    /** Decodes fields until the input ends or one is bad. The compaction pointers there were stay. */
    method DecodeFrom(src: seq<Byte>) returns (status: WB.Status)
      modifies this
      ensures var d := DecodeAll(src);
              && status == d.status
              && View() == ApplyAll(EMPTY.(compactPointers := old(compactPointers)), d.fields)
    {
      Clear();
      ghost var start, all := View(), DecodeAll(src);
      hide DecodeAll, ApplyAll, DecodeField, GetTag, Rest, Apply;
      var input := src;
      ghost var done: seq<Field> := [];
      NothingApplied(start);
      RestOf(all, input, done);
      while GetTag(input).Some?
        invariant View() == ApplyAll(start, done) && Rest(all, input, done)
        decreases |input|
      {
        RestOf(all, input, done);
        var tag := GetTag(input).value;
        DecodeShrinks(tag.value, tag.rest);
        match DecodeField(tag.value, tag.rest)
        case Bad(message) =>
          return WB.Corruption(message);
        case Decoded(f, rest) =>
          AppliesOneMore(start, done, f);
          Set(f);
          input := rest;
          done := done + [f];
      }
      RestOf(all, input, done);
      status := if input == [] then WB.OK else WB.Corruption("invalid tag");
    }

    /** These fields are done, and the others are still in the input. */
    static ghost predicate Rest(all: Fields, input: seq<Byte>, done: seq<Field>) {
      all == DecodeAll(input).(fields := done + DecodeAll(input).fields)
    }

    static lemma RestOf(all: Fields, input: seq<Byte>, done: seq<Field>)
      ensures done == [] && all == DecodeAll(input) ==> Rest(all, input, done)
      ensures Rest(all, input, done) ==>
                if GetTag(input) == None then
                  all == Fields(done, if input == [] then WB.OK else WB.Corruption("invalid tag"))
                else
                  var tag := GetTag(input).value;
                  match DecodeField(tag.value, tag.rest)
                  case Bad(message) => all == Fields(done, WB.Corruption(message))
                  case Decoded(f, rest) => Rest(all, rest, done + [f])
    {
      hide DecodeField, DecodeAll, GetTag;
      assert done + [] == done && [] + DecodeAll(input).fields == DecodeAll(input).fields;
      if GetTag(input) == None {
        NoTagLeft(input);
      } else {
        DecodeAllStep(input);
        var tag := GetTag(input).value;
        match DecodeField(tag.value, tag.rest)
        case Bad(_) =>
        case Decoded(f, rest) => assert done + ([f] + DecodeAll(rest).fields) == done + [f] + DecodeAll(rest).fields;
      }
    }

    static lemma NoTagLeft(input: seq<Byte>)
      requires GetTag(input) == None
      ensures DecodeAll(input) == Fields([], if input == [] then WB.OK else WB.Corruption("invalid tag"))
    {
    }

    static lemma AppliesOneMore(start: Edit, done: seq<Field>, f: Field)
      ensures ApplyAll(start, done + [f]) == Apply(ApplyAll(start, done), f)
    {
      ApplyAllAppend(start, done, [f]);
      AppliesOne(f, start, done);
    }

    static lemma NothingApplied(e: Edit)
      ensures ApplyAll(e, []) == e
    {
    }

    static lemma AppliesOne(f: Field, start: Edit, done: seq<Field>)
      ensures ApplyAll(ApplyAll(start, done), [f]) == Apply(ApplyAll(start, done), f)
    {
      assert [f][1..] == [];
    }

    /** Stores one decoded field. */
    method Set(f: Field)
      modifies this
      ensures View() == Apply(old(View()), f)
    {
      match f
      case Comparator(name) => comparator, hasComparator := name, true;
      case LogNumber(n) => logNumber, hasLogNumber := n, true;
      case PrevLogNumber(n) => prevLogNumber, hasPrevLogNumber := n, true;
      case NextFileNumber(n) => nextFileNumber, hasNextFileNumber := n, true;
      case LastSequence(n) => lastSequence, hasLastSequence := n, true;
      case CompactPointer(level, key) => SetCompactPointer(level, key);
      case DeletedFile(level, n) => DeleteFile(level, n);
      case NewFile(level, file) => AddFile(level, file.number, file.size, file.smallest, file.largest);
    }
  }
}

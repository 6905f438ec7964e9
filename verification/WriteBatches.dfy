/** Write batches: how operations are packed into the string that is logged, and unpacked into a memtable. */
module WriteBatches {
  import opened Bytes
  import opened Coding
  import opened DbFormat
  import opened MemTables

  const HEADER := 12

  datatype Op = Put(key: seq<Byte>, value: seq<Byte>) | Delete(key: seq<Byte>)
  {
    predicate Fits() {
      |key| < POW32 && (Put? ==> |value| < POW32)
    }
  }

  datatype Status = OK | Corruption(message: string)

  // ----- Packing -----

  function EncodeOp(op: Op): (s: seq<Byte>)
    ensures s != []
  {
    match op
    case Put(key, value) => [Code(Value)] + Prefixed(key) + Prefixed(value)
    case Delete(key) => [Code(Deletion)] + Prefixed(key)
  }

  function EncodeOps(ops: seq<Op>): seq<Byte> {
    if ops == [] then [] else EncodeOp(ops[0]) + EncodeOps(ops[1..])
  }

  /** The string of a batch. */
  function Rep(sequence: nat, ops: seq<Op>): (s: seq<Byte>)
    ensures |s| >= HEADER
  {
    LE(8, sequence) + LE(4, |ops| % POW32) + EncodeOps(ops)
  }

  lemma NoOps()
    ensures EncodeOps([]) == []
  {
  }

  lemma EncodeOpsStep(ops: seq<Op>)
    requires ops != []
    ensures EncodeOps(ops) == EncodeOp(ops[0]) + EncodeOps(ops[1..])
  {
  }

  lemma {:induction false} EncodeOpsAppend(a: seq<Op>, b: seq<Op>)
    ensures EncodeOps(a + b) == EncodeOps(a) + EncodeOps(b)
  {
    hide EncodeOps, EncodeOp;
    if a == [] {
      assert a + b == b;
      NoOps();
    } else {
      EncodeOpsAppend(a[1..], b);
      EncodeOpsStep(a);
      EncodeOpsStep(a + b);
      assert (a + b)[1..] == a[1..] + b;
    }
  }

  // ----- Unpacking -----

  datatype One = One(op: Op, rest: seq<Byte>) | Bad(message: string)

  function ParseOp(s: seq<Byte>): (r: One)
    requires s != []
    ensures r.One? ==> |r.rest| < |s|
  {
    var tag, input := s[0], s[1..];
    if tag == Code(Value) then
      match GetPrefixed(input)
      case None => Bad("bad WriteBatch Put")
      case Some(key) =>
        match GetPrefixed(key.rest)
        case None => Bad("bad WriteBatch Put")
        case Some(value) => One(Put(key.data, value.data), value.rest)
    else if tag == Code(Deletion) then
      match GetPrefixed(input)
      case None => Bad("bad WriteBatch Delete")
      case Some(key) => One(Delete(key.data), key.rest)
    else Bad("unknown WriteBatch tag")
  }

  /** The operations a handler is given, and how that ends. */
  datatype Unpacked = Unpacked(ops: seq<Op>, status: Status)

  function ParseOps(s: seq<Byte>): Unpacked
    decreases |s|
  {
    if s == [] then Unpacked([], OK)
    else
      match ParseOp(s)
      case Bad(message) => Unpacked([], Corruption(message))
      case One(op, rest) =>
        var u := ParseOps(rest);
        Unpacked([op] + u.ops, u.status)
  }

  function CountOf(rep: seq<Byte>): nat
    requires |rep| >= HEADER
  {
    FromLE(rep[8..12])
  }

  function SequenceOf(rep: seq<Byte>): nat
    requires |rep| >= HEADER
  {
    FromLE(rep[..8])
  }

  function Unpack(rep: seq<Byte>): Unpacked {
    if |rep| < HEADER then Unpacked([], Corruption("malformed WriteBatch (too small)"))
    else
      var u := ParseOps(rep[HEADER..]);
      if u.status == OK && |u.ops| % POW32 != CountOf(rep) then
        u.(status := Corruption("WriteBatch has wrong count"))
      else u
  }

  lemma ParsesOp(op: Op, rest: seq<Byte>)
    requires op.Fits()
    ensures ParseOp(EncodeOp(op) + rest) == One(op, rest)
  {
    hide GetPrefixed, Prefixed;
    var s := EncodeOp(op) + rest;
    match op
    case Put(key, value) =>
      PrefixedRoundTrip(key, Prefixed(value) + rest);
      PrefixedRoundTrip(value, rest);
      assert s[1..] == Prefixed(key) + (Prefixed(value) + rest);
    case Delete(key) =>
      PrefixedRoundTrip(key, rest);
      assert s[1..] == Prefixed(key) + rest;
  }

  lemma {:induction false} ParsesOps(ops: seq<Op>)
    requires forall op <- ops :: op.Fits()
    ensures ParseOps(EncodeOps(ops)) == Unpacked(ops, OK)
  {
    hide ParseOp, EncodeOp;
    if ops != [] {
      ParsesOp(ops[0], EncodeOps(ops[1..]));
      ParsesOps(ops[1..]);
      assert ops == [ops[0]] + ops[1..];
    }
  }

  lemma {:induction false} ParsedFits(s: seq<Byte>)
    ensures forall op <- ParseOps(s).ops :: op.Fits()
    decreases |s|
  {
    if s != [] {
      match ParseOp(s)
      case Bad(_) =>
      case One(_, rest) => ParsedFits(rest);
    }
  }

  lemma RepHeader(sequence: nat, ops: seq<Op>)
    ensures var rep := Rep(sequence, ops);
            && (sequence < POW64 ==> SequenceOf(rep) == sequence)
            && CountOf(rep) == |ops| % POW32 && rep[HEADER..] == EncodeOps(ops)
  {
    hide EncodeOps, LE, FromLE;
    SpanOf8();
    assert Span(2) == 0x10000 && Span(4) == POW32;
    if sequence < POW64 {
      LERoundTrip(8, sequence);
    }
    LERoundTrip(4, |ops| % POW32);
    Slices(LE(8, sequence), LE(4, |ops| % POW32), EncodeOps(ops));
  }

  lemma Slices(a: seq<Byte>, b: seq<Byte>, c: seq<Byte>)
    ensures var s := a + b + c; s[..|a|] == a && s[|a|..|a| + |b|] == b && s[|a| + |b|..] == c && s[|a|..] == b + c
  {
  }

  /** A batch is unpacked to the operations put into it exactly when no key or value is too long for its 32-bit size. */
  lemma BatchRoundTrip(sequence: nat, ops: seq<Op>)
    ensures Unpack(Rep(sequence, ops)) == Unpacked(ops, OK) <==> forall op <- ops :: op.Fits()
  {
    hide ParseOps, EncodeOps;
    RepHeader(sequence, ops);
    if forall op <- ops :: op.Fits() {
      ParsesOps(ops);
    } else {
      ParsedFits(EncodeOps(ops));
    }
  }

  /** With another count in its header a batch is refused. */
  lemma WrongCount(sequence: nat, count: nat, ops: seq<Op>)
    requires count < POW32 && forall op <- ops :: op.Fits()
    ensures Unpack(LE(8, sequence) + LE(4, count) + EncodeOps(ops)).status == OK <==> count == |ops| % POW32
  {
    hide ParseOps, EncodeOps, LE, FromLE;
    assert Span(2) == 0x10000 && Span(4) == POW32;
    LERoundTrip(4, count);
    Slices(LE(8, sequence), LE(4, count), EncodeOps(ops));
    ParsesOps(ops);
  }

  lemma OpCut(op: Op, m: nat)
    requires op.Fits() && 0 < m < |EncodeOp(op)|
    ensures ParseOp(EncodeOp(op)[..m]).Bad?
  {
    hide GetPrefixed, Prefixed;
    var s := EncodeOp(op)[..m];
    match op
    case Put(key, value) =>
      var k := |Prefixed(key)|;
      PutCut(Code(Value), Prefixed(key), Prefixed(value), m);
      if m - 1 < k {
        PrefixedCut(key, m - 1);
      } else {
        PrefixedRoundTrip(key, Prefixed(value)[..m - 1 - k]);
        PrefixedCut(value, m - 1 - k);
      }
    case Delete(key) =>
      PrefixedCut(key, m - 1);
      assert s[1..] == Prefixed(key)[..m - 1];
  }

  lemma PutCut(kind: Byte, key: seq<Byte>, value: seq<Byte>, m: nat)
    requires 0 < m <= 1 + |key| + |value|
    ensures var s := ([kind] + key + value)[..m];
            s[0] == kind && s[1..] == if m - 1 < |key| then key[..m - 1] else key + value[..m - 1 - |key|]
  {
  }

  lemma {:induction false} OpsCut(ops: seq<Op>, m: nat)
    requires (forall op <- ops :: op.Fits()) && m < |EncodeOps(ops)|
    ensures var u := ParseOps(EncodeOps(ops)[..m]); u.status == OK ==> |u.ops| < |ops|
    decreases |ops|
  {
    hide ParseOp, EncodeOp;
    var first, s := EncodeOp(ops[0]), EncodeOps(ops)[..m];
    assert ops[0] in ops;
    if 0 < m < |first| {
      OpCut(ops[0], m);
      assert s == first[..m];
    } else if m > 0 {
      OpsCut(ops[1..], m - |first|);
      ParsesOp(ops[0], EncodeOps(ops[1..])[..m - |first|]);
      assert s == first + EncodeOps(ops[1..])[..m - |first|];
    }
  }

  /** A batch that is cut off anywhere is refused. */
  lemma CutBatch(sequence: nat, ops: seq<Op>, n: nat)
    requires (forall op <- ops :: op.Fits()) && |ops| < POW32 && n < |Rep(sequence, ops)|
    ensures Unpack(Rep(sequence, ops)[..n]).status != OK
  {
    hide ParseOps, EncodeOps, LE, FromLE;
    var rep := Rep(sequence, ops);
    RepHeader(sequence, ops);
    if n >= HEADER {
      assert rep[..n][8..12] == rep[8..12] && rep[..n][HEADER..] == rep[HEADER..][..n - HEADER];
      OpsCut(ops, n - HEADER);
    }
  }

  // ----- Inserting into a memtable -----

  /** The entries for operations numbered from a sequence number on. */
  function Numbered(ops: seq<Op>, sequence: nat): (s: seq<Entry>)
    ensures |s| == |ops|
  {
    if ops == [] then []
    else [EntryFor(ops[0], sequence % POW64)] + Numbered(ops[1..], sequence + 1)
  }

  function EntryFor(op: Op, sequence: nat): Entry {
    match op
    case Put(key, value) => Entry(key, sequence, Value, value)
    case Delete(key) => Entry(key, sequence, Deletion, [])
  }

  lemma {:induction false} NumberedAt(ops: seq<Op>, sequence: nat, i: nat)
    requires i < |ops|
    ensures Numbered(ops, sequence)[i] == EntryFor(ops[i], (sequence + i) % POW64)
  {
    if i > 0 {
      NumberedAt(ops[1..], sequence + 1, i - 1);
    }
  }

  lemma NothingNumbered(sequence: nat)
    ensures Numbered([], sequence) == []
  {
  }

  lemma NumberedStep(ops: seq<Op>, sequence: nat)
    requires ops != []
    ensures Numbered(ops, sequence) == [EntryFor(ops[0], sequence % POW64)] + Numbered(ops[1..], sequence + 1)
  {
  }

  lemma {:induction false} NumberedAppend(a: seq<Op>, b: seq<Op>, sequence: nat)
    ensures Numbered(a + b, sequence) == Numbered(a, sequence) + Numbered(b, sequence + |a|)
  {
    hide Numbered, EntryFor;
    if a == [] {
      assert a + b == b;
      NothingNumbered(sequence);
    } else {
      NumberedAppend(a[1..], b, sequence + 1);
      NumberedStep(a, sequence);
      NumberedStep(a + b, sequence);
      assert (a + b)[1..] == a[1..] + b;
    }
  }

  /** Numbers the operations it is given and adds them to a memtable, here the list of what is added. */
  class MemTableInserter {
    var sequence: nat
    var mem: seq<Entry>

    constructor (sequence: nat, mem: seq<Entry>)
      ensures this.sequence == sequence && this.mem == mem
    {
      this.sequence, this.mem := sequence, mem;
    }

    method Put(key: seq<Byte>, value: seq<Byte>)
      modifies this
      ensures mem == old(mem) + [Entry(key, old(sequence), Value, value)] && sequence == (old(sequence) + 1) % POW64
    {
      mem := mem + [Entry(key, sequence, Value, value)];
      sequence := (sequence + 1) % POW64;
    }

    method Delete(key: seq<Byte>)
      modifies this
      ensures mem == old(mem) + [Entry(key, old(sequence), Deletion, [])] && sequence == (old(sequence) + 1) % POW64
    {
      mem := mem + [Entry(key, sequence, Deletion, [])];
      sequence := (sequence + 1) % POW64;
    }
  }

  /** Sums may be reduced to a word as they are formed. */
  lemma AddWraps(a: nat, b: nat, word: nat)
    requires word > 0
    ensures (a % word + b) % word == (a + b) % word && (a % word + b % word) % word == (a + b) % word
  {
    var p, q := a / word, b / word;
    var r := a % word + b % word;
    var c := r / word;
    assert a == word * p + a % word && b == word * q + b % word && r == word * c + r % word;
    assert a + b == word * (p + q + c) + r % word;
    ModUnique(a + b, word, p + q + c, r % word);
    assert a % word + b == word * (q + c) + r % word;
    ModUnique(a % word + b, word, q + c, r % word);
  }

  lemma CountsAdd(count: nat, n: nat, more: nat)
    requires count == n % POW32 + more || count == n % POW32 + more % POW32
    ensures count % POW32 == (n + more) % POW32
  {
    AddWraps(n, more, POW32);
  }

  /** What SetCount and an append make of a batch. */
  lemma RepExtended(sequence: nat, ops: seq<Op>, more: seq<Op>, count: nat)
    requires count == CountOf(Rep(sequence, ops)) + |more| || count == CountOf(Rep(sequence, ops)) + |more| % POW32
    ensures var rep := Rep(sequence, ops);
            rep[..8] + LE(4, count % POW32) + rep[HEADER..] + EncodeOps(more) == Rep(sequence, ops + more)
  {
    hide EncodeOps, LE, FromLE, CountOf, SequenceOf;
    RepHeader(sequence, ops);
    EncodeOpsAppend(ops, more);
    CountsAdd(count, |ops|, |more|);
    var a, b, b' := LE(8, sequence), LE(4, |ops| % POW32), LE(4, count % POW32);
    assert Rep(sequence, ops + more) == a + b' + EncodeOps(ops + more) by {
      assert |ops + more| == |ops| + |more|;
    }
    Recount(a, b, b', EncodeOps(ops), EncodeOps(more));
  }

  lemma Recount(a: seq<Byte>, b: seq<Byte>, b': seq<Byte>, c: seq<Byte>, d: seq<Byte>)
    ensures var s := a + b + c; s[..|a|] + b' + s[|a| + |b|..] + d == a + b' + (c + d)
  {
    Slices(a, b, c);
    assert a + b' + c + d == a + b' + (c + d);
  }

  class WriteBatch {
    var rep: seq<Byte>

    ghost predicate Valid()
      reads this
    {
      |rep| >= HEADER
    }

    constructor ()
      ensures Valid() && rep == Rep(0, [])
    {
      rep := Rep(0, []);
    }

    method Clear()
      modifies this
      ensures Valid() && rep == Rep(0, [])
    {
      rep := [];
      rep := rep + seq(HEADER, _ => 0);
      assert LE(8, 0) == seq(8, _ => 0) by { Zeros(8); }
      assert LE(4, 0) == seq(4, _ => 0) by { Zeros(4); }
    }

    static lemma {:induction false} Zeros(n: nat)
      ensures LE(n, 0) == seq(n, _ => 0)
    {
      if n > 0 {
        Zeros(n - 1);
      }
    }

    method SetCount(n: nat)
      requires Valid()
      modifies this
      ensures Valid() && rep == old(rep)[..8] + LE(4, n % POW32) + old(rep)[HEADER..]
    {
      rep := rep[..8] + LE(4, n % POW32) + rep[HEADER..];
    }

    method SetSequence(sequence: nat)
      requires Valid() && sequence < POW64
      modifies this
      ensures Valid()
      ensures forall s, ops :: old(rep) == Rep(s, ops) ==> rep == Rep(sequence, ops)
    {
      rep := LE(8, sequence) + rep[8..];
      forall s, ops | old(rep) == Rep(s, ops) ensures rep == Rep(sequence, ops) {
        hide LE, EncodeOps;
        Slices(LE(8, s), LE(4, |ops| % POW32), EncodeOps(ops));
      }
    }

    method SetContents(contents: seq<Byte>)
      requires |contents| >= HEADER
      modifies this
      ensures Valid() && rep == contents
    {
      rep := contents;
    }

    method Put(key: seq<Byte>, value: seq<Byte>)
      requires Valid()
      modifies this
      ensures Valid()
      ensures forall s, ops :: old(rep) == Rep(s, ops) ==> rep == Rep(s, ops + [Op.Put(key, value)])
    {
      hide Rep, EncodeOps, Prefixed, LE, FromLE, CountOf;
      SetCount(CountOf(rep) + 1);
      ghost var counted := rep;
      rep := rep + [Code(Value)];
      rep := rep + Prefixed(key);
      rep := rep + Prefixed(value);
      IsOne(counted, Op.Put(key, value));
      forall s, ops | old(rep) == Rep(s, ops) ensures rep == Rep(s, ops + [Op.Put(key, value)]) {
        RepExtended(s, ops, [Op.Put(key, value)], CountOf(old(rep)) + 1);
      }
    }

    method Delete(key: seq<Byte>)
      requires Valid()
      modifies this
      ensures Valid()
      ensures forall s, ops :: old(rep) == Rep(s, ops) ==> rep == Rep(s, ops + [Op.Delete(key)])
    {
      hide Rep, EncodeOps, Prefixed, LE, FromLE, CountOf;
      SetCount(CountOf(rep) + 1);
      ghost var counted := rep;
      rep := rep + [Code(Deletion)];
      rep := rep + Prefixed(key);
      IsOne(counted, Op.Delete(key));
      forall s, ops | old(rep) == Rep(s, ops) ensures rep == Rep(s, ops + [Op.Delete(key)]) {
        RepExtended(s, ops, [Op.Delete(key)], CountOf(old(rep)) + 1);
      }
    }

    static lemma IsOne(counted: seq<Byte>, op: Op)
      ensures match op
              case Put(key, value) =>
                counted + [Code(Value)] + Prefixed(key) + Prefixed(value) == counted + EncodeOps([op])
              case Delete(key) => counted + [Code(Deletion)] + Prefixed(key) == counted + EncodeOps([op])
    {
      hide Prefixed;
      NoOps();
      EncodeOpsStep([op]);
      hide EncodeOps;
      assert EncodeOps([op]) == EncodeOp(op);
    }

    /** The operations of both batches, one batch's after the other's. */
    method Append(src: WriteBatch)
      requires Valid() && src.Valid() && src != this
      modifies this
      ensures Valid()
      ensures forall s, ops, t, more :: old(rep) == Rep(s, ops) && src.rep == Rep(t, more) ==> rep == Rep(s, ops + more)
    {
      hide Rep, EncodeOps, LE, FromLE, CountOf;
      SetCount(CountOf(rep) + CountOf(src.rep));
      rep := rep + src.rep[HEADER..];
      forall s, ops, t, more | old(rep) == Rep(s, ops) && src.rep == Rep(t, more) ensures rep == Rep(s, ops + more) {
        RepHeader(t, more);
        RepExtended(s, ops, more, CountOf(old(rep)) + CountOf(src.rep));
      }
    }

    /** Hands the operations to the handler in order, up to the first one that cannot be unpacked. */
    method Iterate(handler: MemTableInserter) returns (status: Status)
      requires handler.sequence < POW64
      modifies handler
      ensures handler.mem == old(handler.mem) + Numbered(Unpack(rep).ops, old(handler.sequence))
      ensures status == Unpack(rep).status
    {
      hide ParseOps, Numbered;
      var input := rep;
      if |input| < HEADER {
        NothingNumbered(handler.sequence);
        return Corruption("malformed WriteBatch (too small)");
      }
      var found;
      status, found := HandleAll(input[HEADER..], handler);
      if status == OK && found != CountOf(rep) {
        return Corruption("WriteBatch has wrong count");
      }
    }

    /** The loop of Iterate. */
    static method HandleAll(records: seq<Byte>, handler: MemTableInserter) returns (status: Status, found: nat)
      requires handler.sequence < POW64
      modifies handler
      ensures handler.mem == old(handler.mem) + Numbered(ParseOps(records).ops, old(handler.sequence))
      ensures status == ParseOps(records).status && (status == OK ==> found == |ParseOps(records).ops| % POW32)
    {
      hide ParseOps, ParseOp, Numbered, EntryFor;
      var input := records;
      found := 0;
      ghost var all, first, mem, done := ParseOps(input), handler.sequence, handler.mem, [];
      NothingNumbered(first);
      hide Rest;
      RestOf(all, input, done);
      while input != []
        invariant handler.mem == mem + Numbered(done, first) && handler.sequence == (first + |done|) % POW64
        invariant found == |done| % POW32 && Rest(all, input, done)
        decreases |input|
      {
        RestOf(all, input, done);
        match ParseOp(input)
        case Bad(message) =>
          return Corruption(message), found;
        case One(op, rest) =>
          found := Handle(op, handler, found, mem, done, first);
          done := done + [op];
          input := rest;
      }
      RestOf(all, input, done);
      status := OK;
    }

    /** These operations are done, and the others are still in the input. */
    static ghost predicate Rest(all: Unpacked, input: seq<Byte>, done: seq<Op>) {
      all == ParseOps(input).(ops := done + ParseOps(input).ops)
    }

    static lemma RestOf(all: Unpacked, input: seq<Byte>, done: seq<Op>)
      ensures done == [] && all == ParseOps(input) ==> Rest(all, input, done)
      ensures Rest(all, input, done) ==>
                if input == [] then all == Unpacked(done, OK)
                else match ParseOp(input)
                     case Bad(message) => all == Unpacked(done, Corruption(message))
                     case One(op, rest) => Rest(all, rest, done + [op])
    {
      assert done + [] == done;
      if input != [] && ParseOp(input).One? {
        var op, more := ParseOp(input).op, ParseOps(ParseOp(input).rest).ops;
        assert done + ([op] + more) == done + [op] + more;
      }
    }

    /** One turn of that loop, on an operation. */
    static method Handle(op: Op, handler: MemTableInserter, found: nat, ghost mem: seq<Entry>, ghost done: seq<Op>,
                         ghost first: nat)
      returns (found': nat)
      requires handler.mem == mem + Numbered(done, first) && handler.sequence == (first + |done|) % POW64
      requires found == |done| % POW32
      modifies handler
      ensures handler.mem == mem + Numbered(done + [op], first)
      ensures handler.sequence == (first + |done + [op]|) % POW64 && found' == |done + [op]| % POW32
    {
      hide Numbered;
      NumberedOneMore(done, op, first);
      AddWraps(first + |done|, 1, POW64);
      AddWraps(|done|, 1, POW32);
      found' := (found + 1) % POW32;
      match op
      case Put(key, value) => handler.Put(key, value);
      case Delete(key) => handler.Delete(key);
    }

    static lemma NumberedOneMore(done: seq<Op>, op: Op, first: nat)
      ensures Numbered(done + [op], first) == Numbered(done, first) + [EntryFor(op, (first + |done|) % POW64)]
    {
      hide Numbered;
      NumberedAppend(done, [op], first);
      NumberedStep([op], first + |done|);
      NothingNumbered(first + |done| + 1);
      assert [op][1..] == [];
    }

    /** Adds the entries of the batch, numbered from its own sequence number on. */
    method InsertInto(mem: seq<Entry>) returns (mem': seq<Entry>, status: Status)
      requires Valid()
      ensures mem' == mem + Numbered(Unpack(rep).ops, SequenceOf(rep))
      ensures status == Unpack(rep).status
    {
      SpanOf8();
      var inserter := new MemTableInserter(SequenceOf(rep), mem);
      status := Iterate(inserter);
      mem' := inserter.mem;
    }
  }
}

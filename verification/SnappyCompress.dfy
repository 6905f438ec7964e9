/** The compressor: a hash table of recent positions proposes matches; what is emitted is right whatever the hash. */
module SnappyCompress {
  import opened Bytes
  import opened SnappyFormat
  import opened SnappyMatch
  import opened SnappyEmit
  import opened SnappySource

  const INPUT_MARGIN_BYTES := 15
  const MAX_HASH_TABLE_SIZE := 0x4000

  /** What a 16-bit table entry can hold. */
  type Slot = p: int | 0 <= p < BLOCK_SIZE

  function MaxCompressedLength(n: nat): nat {
    32 + n + n / 6
  }

  /** UNALIGNED_LOAD32, as the hash sees it. */
  function Load32At(s: seq<Byte>, i: nat): nat
    requires i + 4 <= |s|
  {
    FromLE(s[i..i + 4])
  }

  lemma {:induction false} FromLEInjective(a: seq<Byte>, b: seq<Byte>)
    requires |a| == |b| && FromLE(a) == FromLE(b)
    ensures a == b
  {
    if a != [] {
      FromLEInjective(a[1..], b[1..]);
      assert a == [a[0]] + a[1..] && b == [b[0]] + b[1..];
    }
  }

  /** Every position in the table lies before bound. */
  ghost predicate Behind(table: seq<Slot>, bound: nat) {
    forall k | 0 <= k < |table| :: table[k] < bound
  }

  /** Four bytes at candidate and at ip agree. */
  ghost predicate FourMatch(input: seq<Byte>, candidate: nat, ip: nat) {
    candidate < ip && ip + 4 <= |input| && Same(input, candidate, ip, 4)
  }

  /** Step 1: look at ip, then further and further ahead, until the table knows a place with the same four bytes. */
  method ScanForMatch(input: seq<Byte>, table: array<Slot>, hash: nat -> nat, start: nat, startHash: nat)
    returns (found: bool, ip: nat, candidate: nat)
    requires forall x :: hash(x) < table.Length
    requires INPUT_MARGIN_BYTES <= |input| <= BLOCK_SIZE && 0 < start && start + 4 <= |input|
    requires startHash == hash(Load32At(input, start)) && Behind(table[..], start)
    modifies table
    ensures found ==> start <= ip < |input| - INPUT_MARGIN_BYTES && FourMatch(input, candidate, ip)
    ensures found ==> Behind(table[..], ip + 1)
  {
    var ipLimit := |input| - INPUT_MARGIN_BYTES;
    var nextIp, nextHash, skip := start, startHash, 32;
    ip, candidate := start, 0;
    var same := false;
    while !same
      invariant 32 <= skip && nextIp + 4 <= |input|
      invariant !same ==> start <= nextIp && nextHash == hash(Load32At(input, nextIp)) && Behind(table[..], nextIp)
      invariant same ==> start <= ip < ipLimit && FourMatch(input, candidate, ip) && Behind(table[..], ip + 1)
      decreases !same, |input| - nextIp
    {
      ip := nextIp;
      var h := nextHash;
      var bytesBetweenHashLookups := skip / 32;
      skip := skip + bytesBetweenHashLookups;
      nextIp := ip + bytesBetweenHashLookups;
      if nextIp > ipLimit {
        return false, ip, candidate;
      }
      nextHash := hash(Load32At(input, nextIp));
      candidate := table[h];
      table[h] := ip;
      same := Load32At(input, ip) == Load32At(input, candidate);
      if same {
        FromLEInjective(input[candidate..candidate + 4], input[ip..ip + 4]);
      }
    }
    found := true;
  }

  /** What stands in the output after the first nextEmit bytes of the input: items that turn `before` into `before`
      followed by those bytes, in no more than 31/30 of their room. */
  ghost predicate Progress(mem: seq<Byte>, first: nat, op: nat, input: seq<Byte>, nextEmit: nat, before: seq<Byte>) {
    && first <= op <= |mem| && nextEmit <= |input|
    && Emits(mem[first..op], before, before + input[..nextEmit])
    && 30 * (op - first) <= 31 * nextEmit
  }

  /** The same after ip bytes, a literal's extra tag bytes not yet paid for by the copy that follows it. */
  ghost predicate Pending(mem: seq<Byte>, first: nat, op: nat, input: seq<Byte>, ip: nat, before: seq<Byte>) {
    && first <= op <= |mem| && ip <= |input|
    && Emits(mem[first..op], before, before + input[..ip])
    && 30 * (op - first) <= 31 * ip + 34
  }

  lemma ProgressByLiteral(mem: seq<Byte>, mem': seq<Byte>, first: nat, op: nat, input: seq<Byte>, nextEmit: nat,
                          ip: nat, before: seq<Byte>)
    requires Progress(mem, first, op, input, nextEmit, before) && nextEmit < ip <= |input| <= BLOCK_SIZE
    requires Appended(mem, mem', op, LiteralBytes(input[nextEmit..ip]))
    ensures Pending(mem', first, op + |LiteralBytes(input[nextEmit..ip])|, input, ip, before)
    ensures mem'[..first] == mem[..first]
  {
    var b := input[nextEmit..ip];
    var mid, after := before + input[..nextEmit], before + input[..ip];
    LiteralEmits(b, mid);
    assert mid + b == after;
    Glue(mem, mem', first, op, LiteralBytes(b));
    EmitsThenEmits(mem[first..op], LiteralBytes(b), before, mid, after);
    LiteralCost(b);
  }

  lemma Glue(mem: seq<Byte>, mem': seq<Byte>, first: nat, op: nat, bytes: seq<Byte>)
    requires first <= op && Appended(mem, mem', op, bytes)
    ensures mem'[first..op + |bytes|] == mem[first..op] + bytes
    ensures mem'[..first] == mem[..first]
  {
    assert mem'[first..op] == mem'[..op][first..] && mem[first..op] == mem[..op][first..];
    assert mem'[first..op + |bytes|] == mem'[first..op] + mem'[op..op + |bytes|];
    assert mem'[..first] == mem'[..op][..first] && mem[..first] == mem[..op][..first];
  }

  lemma ProgressByCopy(mem: seq<Byte>, mem': seq<Byte>, first: nat, op: nat, input: seq<Byte>, ip: nat,
                       candidate: nat, matched: nat, before: seq<Byte>)
    requires Pending(mem, first, op, input, ip, before)
    requires candidate < ip && 4 <= matched && ip + matched <= |input| && ip - candidate < BLOCK_SIZE
    requires Same(input, candidate, ip, matched)
    requires Appended(mem, mem', op, CopyBytes(ip - candidate, matched))
    ensures Progress(mem', first, op + |CopyBytes(ip - candidate, matched)|, input, ip + matched, before)
    ensures mem'[..first] == mem[..first]
  {
    hide Emits, CopyBytes;
    var offset := ip - candidate;
    var mid, after := before + input[..ip], before + input[..ip + matched];
    CopyEmits(offset, matched, mid);
    CopyOfInput(input, ip, candidate, matched, before);
    Glue(mem, mem', first, op, CopyBytes(offset, matched));
    EmitsThenEmits(mem[first..op], CopyBytes(offset, matched), before, mid, after);
    CopyCost(offset, matched);
  }

  lemma CopyOfInput(input: seq<Byte>, ip: nat, candidate: nat, matched: nat, before: seq<Byte>)
    requires candidate < ip && ip + matched <= |input| && Same(input, candidate, ip, matched)
    ensures CopyWithin(before + input[..ip], ip - candidate, matched) == before + input[..ip + matched]
  {
    var text := before + input;
    var base, offset := |before| + ip, ip - candidate;
    assert text[..base] == before + input[..ip] && text[..base + matched] == before + input[..ip + matched];
    assert text[base..base + matched] == input[ip..ip + matched];
    assert text[base - offset..base - offset + matched] == input[candidate..candidate + matched];
    CopyOfMatch(text, base, offset, matched);
  }

  /** Room for the compressed form of n bytes from first on, and for the stores that run over. */
  ghost predicate Room(length: nat, first: nat, n: nat) {
    30 * first + 31 * n + 720 <= 30 * length
  }

  /** Step 3: copies, as long as the input right after one of them matches again. Ends when the input runs short
      (done) or when a literal is needed next. */
  method EmitCopyRun(mem: array<Byte>, ghost first: nat, start: nat, input: seq<Byte>, table: array<Slot>,
                     hash: nat -> nat, startIp: nat, startCandidate: nat, ghost before: seq<Byte>)
    returns (done: bool, op: nat, ip: nat)
    requires forall x :: hash(x) < table.Length
    requires INPUT_MARGIN_BYTES <= |input| <= BLOCK_SIZE && Room(mem.Length, first, |input|)
    requires Pending(mem[..], first, start, input, startIp, before)
    requires FourMatch(input, startCandidate, startIp) && Behind(table[..], startIp + 1)
    modifies mem, table
    ensures Progress(mem[..], first, op, input, ip, before) && mem[..first] == old(mem[..first])
    ensures startIp < ip
    ensures !done ==> ip < |input| - INPUT_MARGIN_BYTES && Behind(table[..], ip + 1)
  {
    var ipLimit := |input| - INPUT_MARGIN_BYTES;
    op, ip := start, startIp;
    var candidate: nat := startCandidate;
    var again := true;
    while again
      invariant startIp <= ip && (!again ==> startIp < ip)
      invariant mem[..first] == old(mem[..first]) && Behind(table[..], ip + 1)
      invariant again ==> Pending(mem[..], first, op, input, ip, before) && FourMatch(input, candidate, ip)
      invariant !again ==> Progress(mem[..], first, op, input, ip, before) && ip < ipLimit
      decreases again, |input| - ip
    {
      op, ip := EmitOneCopy(mem, first, op, input, ip, candidate, before);
      if ip >= ipLimit {
        return true, op, ip;
      }
      var prevHash := hash(Load32At(input, ip - 1));
      table[prevHash] := ip - 1;
      var curHash := hash(Load32At(input, ip));
      candidate := table[curHash];
      var candidateBytes := Load32At(input, candidate);
      table[curHash] := ip;
      again := Load32At(input, ip) == candidateBytes;
      if again {
        FromLEInjective(input[candidate..candidate + 4], input[ip..ip + 4]);
      }
    }
    done := false;
  }

  method EmitOneCopy(mem: array<Byte>, ghost first: nat, start: nat, input: seq<Byte>, base: nat, candidate: nat,
                     ghost before: seq<Byte>)
    returns (op: nat, ip: nat)
    requires |input| <= BLOCK_SIZE && Room(mem.Length, first, |input|)
    requires Pending(mem[..], first, start, input, base, before) && FourMatch(input, candidate, base)
    modifies mem
    ensures base < ip && Progress(mem[..], first, op, input, ip, before) && mem[..first] == old(mem[..first])
  {
    hide Emits, CopyBytes, Pending, Progress, Room;
    var n, lessThan8 := FindMatchLength64(input, candidate + 4, base + 4);
    var matched := 4 + n;
    ip := base + matched;
    var offset := base - candidate;
    MatchedBytes(input, candidate, base, n);
    RoomForCopy(mem[..], first, start, input, base, offset, matched, before);
    ghost var was := mem[..];
    op := EmitCopy(mem, start, offset, matched, lessThan8);
    ProgressByCopy(was, mem[..], first, start, input, base, candidate, matched, before);
  }

  /** Four bytes that match, and as many more as were found. */
  lemma MatchedBytes(input: seq<Byte>, candidate: nat, base: nat, n: nat)
    requires FourMatch(input, candidate, base) && MatchLength(input, candidate + 4, base + 4, n)
    ensures base + 4 + n <= |input| && Same(input, candidate, base, 4 + n)
  {
    SnappyMatch.Append(input, candidate, base, 4, n);
  }

  lemma RoomForCopy(mem: seq<Byte>, first: nat, start: nat, input: seq<Byte>, base: nat, offset: nat, matched: nat,
                    before: seq<Byte>)
    requires Pending(mem, first, start, input, base, before) && Room(|mem|, first, |input|)
    requires 4 <= matched && base + matched <= |input| && offset < BLOCK_SIZE
    ensures start + |CopyBytes(offset, matched)| + 2 <= |mem|
  {
    hide Emits, CopyBytes;
    CopyCost(offset, matched);
  }

  /** The literal before a match (fast) or at the end of the input. */
  method EmitPending(mem: array<Byte>, ghost first: nat, start: nat, input: seq<Byte>, nextEmit: nat, ip: nat,
                     fast: bool, ghost before: seq<Byte>)
    returns (op: nat)
    requires nextEmit < ip <= |input| <= BLOCK_SIZE && Room(mem.Length, first, |input|)
    requires fast ==> nextEmit + 16 <= |input|
    requires Progress(mem[..], first, start, input, nextEmit, before)
    modifies mem
    ensures Pending(mem[..], first, op, input, ip, before) && mem[..first] == old(mem[..first])
  {
    hide Emits, LiteralBytes;
    LiteralCost(input[nextEmit..ip]);
    ghost var was := mem[..];
    op := EmitLiteral(mem, start, input, nextEmit, ip - nextEmit, fast);
    ProgressByLiteral(was, mem[..], first, start, input, nextEmit, ip, before);
  }

  /** Everything up to emit_remainder: how far the input has been emitted. */
  method EmitMatches(input: seq<Byte>, mem: array<Byte>, first: nat, table: array<Slot>, hash: nat -> nat,
                     ghost before: seq<Byte>)
    returns (op: nat, nextEmit: nat)
    requires forall x :: hash(x) < table.Length
    requires forall k | 0 <= k < table.Length :: table[k] == 0
    requires INPUT_MARGIN_BYTES <= |input| <= BLOCK_SIZE && Room(mem.Length, first, |input|)
    requires Progress(mem[..], first, first, input, 0, before)
    modifies mem, table
    ensures Progress(mem[..], first, op, input, nextEmit, before) && mem[..first] == old(mem[..first])
  {
    hide Emits, Progress, Pending;
    op, nextEmit := first, 0;
    var ip := 1;
    var nextHash := hash(Load32At(input, ip));
    while true
      invariant nextEmit < ip && ip + 4 <= |input| && nextHash == hash(Load32At(input, ip))
      invariant Progress(mem[..], first, op, input, nextEmit, before) && mem[..first] == old(mem[..first])
      invariant Behind(table[..], ip)
      decreases |input| - ip
    {
      var found, matchIp, candidate := ScanForMatch(input, table, hash, ip, nextHash);
      if !found { return; }
      op := EmitPending(mem, first, op, input, nextEmit, matchIp, true, before);
      var done;
      done, op, nextEmit := EmitCopyRun(mem, first, op, input, table, hash, matchIp, candidate, before);
      if done { return; }
      ip := nextEmit + 1;
      nextHash := hash(Load32At(input, ip));
    }
  }

  /** Compresses one block. Reading back what it leaves appends the block to whatever was there before, for every
      hash that stays inside the table. */
  method CompressFragment(input: seq<Byte>, mem: array<Byte>, first: nat, table: array<Slot>, hash: nat -> nat,
                          ghost before: seq<Byte>)
    returns (op: nat)
    requires forall x :: hash(x) < table.Length
    requires forall k | 0 <= k < table.Length :: table[k] == 0
    requires |input| <= BLOCK_SIZE && Room(mem.Length, first, |input|)
    modifies mem, table
    ensures first <= op <= mem.Length && mem[..first] == old(mem[..first])
    ensures Emits(mem[first..op], before, before + input)
    ensures 30 * (op - first) <= 31 * |input| + 90
  {
    hide Emits;
    var nextEmit := 0;
    op := first;
    EmitsNothing(before);
    assert mem[first..op] == [] && before + input[..0] == before;
    if |input| >= INPUT_MARGIN_BYTES {
      op, nextEmit := EmitMatches(input, mem, first, table, hash, before);
    }
    if nextEmit < |input| {
      op := EmitPending(mem, first, op, input, nextEmit, |input|, false, before);
    }
    assert input[..|input|] == input;
  }

  // ----- The hash table -----

  /** The code's own hash: the top bits of a 32-bit product. */
  function HashBytes(bytes: nat, shift: nat): nat {
    Quotient(bytes * 0x1e35a7bd % POW32, Pow2(shift))
  }

  function Quotient(n: nat, d: nat): nat
    requires d > 0
  {
    n / d
  }

  /** The base-2 logarithm, rounded down; -1 for zero. The loop over shifts 16, 8, 4, 2, 1, written out. */
  method Log2Floor(n: nat) returns (log: int)
    requires n < POW32
    ensures n == 0 ==> log == -1
    ensures n > 0 ==> 0 <= log && Pow2(log) <= n < 2 * Pow2(log)
  {
    if n == 0 { return -1; }
    assert Pow2(2) == 4 && Pow2(4) == 16;
    PowSum(4, 4);
    PowSum(8, 8);
    PowSum(16, 16);
    var value := n;
    log := 0;
    value, log := LogRound(n, value, log, 16);
    value, log := LogRound(n, value, log, 8);
    value, log := LogRound(n, value, log, 4);
    value, log := LogRound(n, value, log, 2);
    value, log := LogRound(n, value, log, 1);
  }

  /** value is n / p, rounded down. */
  ghost predicate Scaled(n: nat, value: nat, p: nat) {
    value * p <= n < (value + 1) * p
  }

  method LogRound(ghost n: nat, value: nat, log: nat, shift: nat) returns (value': nat, log': nat)
    requires 0 < value < Pow2(shift + shift)
    requires Scaled(n, value, Pow2(log))
    ensures 0 < value' < Pow2(shift)
    ensures Scaled(n, value', Pow2(log'))
  {
    hide Pow2, Scaled;
    PowSum(shift, shift);
    PowSum(log, shift);
    LogStep(n, value, Pow2(log), Pow2(shift));
    var x := value / Pow2(shift);
    if x != 0 {
      value', log' := x, log + shift;
    } else {
      value', log' := value, log;
    }
  }

  lemma LogStep(n: nat, value: nat, p: nat, q: nat)
    requires p > 0 && q > 0 && value < q * q && Scaled(n, value, p)
    ensures value / q < q
    ensures value / q == 0 ==> value < q
    ensures Scaled(n, value / q, p * q)
  {
    ShiftDown(n, value, p, q);
    QuotientBelow(value, q, q);
  }

  lemma QuotientBelow(v: nat, p: nat, q: nat)
    requires p > 0 && v < p * q
    ensures Quotient(v, p) < q
  {
  }

  lemma ShiftDown(n: nat, value: nat, p: nat, q: nat)
    requires p > 0 && q > 0 && value * p <= n < (value + 1) * p
    ensures value / q * (p * q) <= n < (value / q + 1) * (p * q)
  {
    var x, r := value / q, value % q;
    assert value == x * q + r;
    assert x * (p * q) == x * q * p;
    assert (x + 1) * (p * q) == (x * q + q) * p;
    assert (x * q) * p <= value * p;
    assert (value + 1) * p <= (x * q + q) * p;
  }

  lemma PowZero()
    ensures Pow2(0) == 1
  {
  }

  lemma PowStep(n: nat)
    requires n > 0
    ensures Pow2(n) == 2 * Pow2(n - 1)
  {
  }

  lemma Regrouped(a: nat, x: nat, y: nat)
    ensures (a * x) * y == a * (x * y)
  {
  }

  lemma {:induction false} PowSum(a: nat, b: nat)
    ensures Pow2(a + b) == Pow2(a) * Pow2(b)
  {
    hide Pow2;
    if a == 0 {
      PowZero();
    } else {
      PowSum(a - 1, b);
      PowStep(a);
      PowStep(a + b);
      Regrouped(2, Pow2(a - 1), Pow2(b));
    }
  }

  /** Shifting by 32 - log2 of the table size keeps the hash inside the table. */
  lemma HashInsideTable(bytes: nat, k: nat)
    requires k <= 32
    ensures HashBytes(bytes, 32 - k) < Pow2(k)
  {
    hide Pow2, Quotient;
    WordPower(k);
    QuotientBelow(bytes * 0x1e35a7bd % POW32, Pow2(32 - k), Pow2(k));
  }

  lemma WordPower(k: nat)
    requires k <= 32
    ensures Pow2(32 - k) * Pow2(k) == POW32
  {
    hide Pow2;
    PowSum(32 - k, k);
    HalfWord();
    PowSum(16, 16);
  }

  lemma HalfWord()
    ensures Pow2(16) == 0x10000
  {
    assert Pow2(4) == 16;
    hide Pow2;
    PowSum(4, 4);
    PowSum(8, 8);
  }

  /** The smallest power of two from 256 to 16384 that reaches the input size, all entries zero. */
  method GetHashTable(inputSize: nat) returns (table: array<Slot>, ghost k: nat)
    ensures fresh(table) && 8 <= k <= 14 && table.Length == Pow2(k)
    ensures forall i | 0 <= i < table.Length :: table[i] == 0
    ensures table.Length >= inputSize || table.Length == MAX_HASH_TABLE_SIZE
    ensures table.Length == 256 || table.Length < 2 * inputSize
  {
    assert Pow2(4) == 16 && Pow2(6) == 64;
    PowSum(4, 4);
    PowSum(8, 6);
    var size := 256;
    k := 8;
    while size < MAX_HASH_TABLE_SIZE && size < inputSize
      invariant 8 <= k && size == Pow2(k) && size <= MAX_HASH_TABLE_SIZE
      invariant k <= 14 && (size < MAX_HASH_TABLE_SIZE ==> k < 14)
      invariant size == 256 || size < 2 * inputSize
      decreases MAX_HASH_TABLE_SIZE - size
    {
      size := 2 * size;
      k := k + 1;
      Monotone(k, 14);
    }
    table := new Slot[size](_ => 0);
  }

  lemma Monotone(k: nat, n: nat)
    ensures k > n ==> Pow2(k) > Pow2(n)
    ensures k < n ==> Pow2(k) < Pow2(n)
  {
    if k > n { PowSum(n, k - n); assert Pow2(k - n) >= 2; }
    if k < n { PowSum(k, n - k); assert Pow2(n - k) >= 2; }
  }

  // ----- Whole inputs -----

  /** v in base 128, lowest digit first; a length of 2^32 or more loses its high bits on the way into 32. */
  method Encode32(length: nat) returns (s: seq<Byte>)
    ensures s == Varint(length % POW32)
  {
    var v := length % POW32;
    var a, b, c, d := v / 0x80, v / 0x4000, v / 0x20_0000, v / 0x1000_0000;
    assert b == a / 0x80 && c == b / 0x80 && d == c / 0x80;
    if v < 0x80 {
      s := [v];
    } else if v < 0x4000 {
      s := [0x80 + v % 0x80, a];
      assert Varint(a) == [a];
    } else if v < 0x20_0000 {
      s := [0x80 + v % 0x80, 0x80 + a % 0x80, b];
      assert Varint(b) == [b] && Varint(a) == [0x80 + a % 0x80] + Varint(b);
    } else if v < 0x1000_0000 {
      s := [0x80 + v % 0x80, 0x80 + a % 0x80, 0x80 + b % 0x80, c];
      assert Varint(c) == [c] && Varint(b) == [0x80 + b % 0x80] + Varint(c);
      assert Varint(a) == [0x80 + a % 0x80] + Varint(b);
    } else {
      s := [0x80 + v % 0x80, 0x80 + a % 0x80, 0x80 + b % 0x80, 0x80 + c % 0x80, d];
      assert Varint(d) == [d] && Varint(c) == [0x80 + c % 0x80] + Varint(d);
      assert Varint(b) == [0x80 + b % 0x80] + Varint(c);
      assert Varint(a) == [0x80 + a % 0x80] + Varint(b);
    }
  }

  /** The next n bytes: the region itself when it is long enough, else regions joined in a scratch buffer. What is
      still to be skipped afterwards comes back as pendingAdvance. */
  method ReadBlock(reader: Source, n: nat) returns (fragment: seq<Byte>, pendingAdvance: nat)
    requires reader.Valid() && 0 < n <= |reader.Rest()|
    modifies reader
    ensures fragment == old(reader.Rest())[..n]
    ensures reader.Valid() && pendingAdvance <= |reader.Rest()|
    ensures reader.Rest()[pendingAdvance..] == old(reader.Rest())[n..]
  {
    ghost var all := reader.Rest();
    var region := reader.Peek();
    if |region| >= n {
      return region[..n], n;
    }
    var scratch := region;
    reader.Skip(|region|);
    while |scratch| < n
      invariant reader.Valid() && |scratch| <= n
      invariant scratch + reader.Rest() == all
      decreases n - |scratch|
    {
      region := reader.Peek();
      var k := if |region| < n - |scratch| then |region| else n - |scratch|;
      ghost var rest := reader.Rest();
      scratch := scratch + region[..k];
      reader.Skip(k);
      assert rest == region[..k] + reader.Rest();
    }
    fragment, pendingAdvance := scratch, 0;
  }

  /** A hash for every table size the compressor may use. */
  ghost predicate HashFamily(hash: (nat, nat) -> nat) {
    forall x, k {:trigger hash(x, Pow2(k))} | k <= 14 :: hash(x, Pow2(k)) < Pow2(k)
  }

  /** What has been written after c bytes of the input: the length, then items producing those bytes. */
  ghost predicate Written(out: seq<Byte>, data: seq<Byte>, c: nat) {
    var v := |Varint(|data| % POW32)|;
    && c <= |data| && v <= |out| && out[..v] == Varint(|data| % POW32)
    && Emits(out[v..], [], data[..c])
  }

  lemma WrittenLength(data: seq<Byte>)
    ensures Written(Varint(|data| % POW32), data, 0)
  {
    var out := Varint(|data| % POW32);
    assert out[|out|..] == [] && data[..0] == [];
    EmitsNothing([]);
  }

  lemma WrittenBlock(out: seq<Byte>, out': seq<Byte>, data: seq<Byte>, c: nat, c': nat)
    requires Written(out, data, c) && c <= c' <= |data| && out <= out'
    requires Emits(out'[|out|..], data[..c], data[..c] + data[c..c'])
    ensures Written(out', data, c')
  {
    var v := |Varint(|data| % POW32)|;
    assert data[..c] + data[c..c'] == data[..c'];
    assert out'[v..] == out[v..] + out'[|out|..];
    EmitsThenEmits(out[v..], out'[|out|..], [], data[..c], data[..c']);
    assert out'[..v] == out[..v];
  }

  lemma {:induction false} DecodeWithin(s: seq<Byte>, out: seq<Byte>, limit: nat)
    requires |out| <= limit
    ensures Decode(s, out, limit).Some? ==> |Decode(s, out, limit).value| <= limit
    ensures Decode(s, out, limit).Some? ==> forall k | limit <= k :: Decode(s, out, k) == Decode(s, out, limit)
    decreases |s|
  {
    if s != [] && ParseItem(s).Some? {
      var p := ParseItem(s).value;
      if Apply(p.item, out, limit).Some? {
        DecodeWithin(s[p.size..], Apply(p.item, out, limit).value, limit);
      }
    }
  }

  lemma DecodeBody(body: seq<Byte>, data: seq<Byte>)
    requires Emits(body, [], data[..|data|])
    ensures Decode(body, [], |data|) == Some(data)
  {
    assert body + [] == body && data[..|data|] == data;
    assert Decode(body + [], [], |data|) == Decode([], data, |data|);
  }

  /** The whole stream reads back as the input, exactly when the length fits the 32 bits it is written in. */
  lemma WrittenReadsBack(out: seq<Byte>, data: seq<Byte>)
    requires Written(out, data, |data|)
    ensures Uncompressed(out) == if |data| < POW32 then Some(data) else None
  {
    hide Decode, Emits;
    var n := |data| % POW32;
    var v := |Varint(n)|;
    assert out == Varint(n) + out[v..];
    RoundTrip32(n, out[v..]);
    var body := out[v..];
    DecodeBody(body, data);
    if |data| >= POW32 {
      DecodeWithin(body, [], n);
    }
  }

  /** Compresses everything the source holds into mem. For every hash, the output reads back as the input (when its
      length fits 32 bits), fits the promised bound, and no store leaves a buffer of that size. */
  method Compress(reader: Source, mem: array<Byte>, hash: (nat, nat) -> nat) returns (written: nat)
    requires reader.Valid() && HashFamily(hash)
    requires mem.Length >= MaxCompressedLength(|reader.Rest()|)
    modifies reader, mem
    ensures written <= MaxCompressedLength(|old(reader.Rest())|) <= mem.Length
    ensures Uncompressed(mem[..written]) ==
            if |old(reader.Rest())| < POW32 then Some(old(reader.Rest())) else None
  {
    hide Emits, Written, Uncompressed, MaxCompressedLength, Source.Rest;
    ghost var data := reader.Rest();
    var n := reader.Available();
    BoundKept(|data|);
    written := WriteLength(mem, n, data);
    ghost var c := 0;
    while n > 0
      invariant reader.Valid() && 0 <= c <= |data| && reader.Rest() == data[c..] && n == |data| - c
      invariant written <= mem.Length && Written(mem[..written], data, c)
      invariant 30 * written <= 32 * c + 240 && (n > 0 ==> 30 * written <= 32 * c + 150)
    {
      var numToRead := if n < BLOCK_SIZE then n else BLOCK_SIZE;
      var fragment, pendingAdvance := ReadBlock(reader, numToRead);
      written := CompressBlock(fragment, mem, written, hash, data, c);
      n := n - numToRead;
      reader.Skip(pendingAdvance);
      c := c + numToRead;
    }
    WrittenReadsBack(mem[..written], data);
  }

  lemma BoundKept(n: nat)
    ensures MaxCompressedLength(n) >= 5
    ensures forall written: nat :: 30 * written <= 32 * n + 240 ==> written <= MaxCompressedLength(n)
  {
  }

  method WriteLength(mem: array<Byte>, n: nat, ghost data: seq<Byte>) returns (written: nat)
    requires n == |data| && 5 <= mem.Length
    modifies mem
    ensures written <= 5 && Written(mem[..written], data, 0)
  {
    hide Written;
    var length := Encode32(n);
    VarintLength(|data| % POW32);
    Store(mem, 0, length);
    written := |length|;
    assert mem[..written] == length;
    WrittenLength(data);
  }

  method CompressBlock(fragment: seq<Byte>, mem: array<Byte>, start: nat, hash: (nat, nat) -> nat,
                       ghost data: seq<Byte>, ghost c: nat)
    returns (written: nat)
    requires HashFamily(hash) && 0 < |fragment| <= BLOCK_SIZE
    requires c + |fragment| <= |data| && fragment == data[c..c + |fragment|]
    requires start <= mem.Length && Written(mem[..start], data, c)
    requires 30 * start <= 32 * c + 150 && mem.Length >= MaxCompressedLength(|data|)
    modifies mem
    ensures start <= written <= mem.Length && Written(mem[..written], data, c + |fragment|)
    ensures 30 * (written - start) <= 31 * |fragment| + 90
  {
    hide Emits, Written;
    var table, k := GetHashTable(|fragment|);
    var size := table.Length;
    var h: nat -> nat := x => hash(x, size);
    forall x
      ensures h(x) < table.Length
    {
      assert hash(x, Pow2(k)) < Pow2(k);
    }
    ghost var out := mem[..start];
    written := CompressFragment(fragment, mem, start, table, h, data[..c]);
    assert mem[..written][start..] == mem[start..written];
    WrittenBlock(out, mem[..written], data, c, c + |fragment|);
  }

  /** The code's own hash is one of those. */
  function CodeHash(bytes: nat, tableSize: nat): nat {
    var k := Log(tableSize);
    if k <= 32 then HashBytes(bytes, 32 - k) else 0
  }

  /** log2, by definition. */
  function Log(n: nat): (k: nat)
    ensures k <= n
  {
    if n < 2 then 0 else 1 + Log(n / 2)
  }

  lemma {:induction false} LogOfPower(k: nat)
    ensures Log(Pow2(k)) == k
  {
    if k > 0 {
      LogOfPower(k - 1);
    }
  }

  lemma CodeHashIsAHashFamily()
    ensures HashFamily(CodeHash)
  {
    forall x, k | k <= 14
      ensures CodeHash(x, Pow2(k)) < Pow2(k)
    {
      LogOfPower(k);
      HashInsideTable(x, k);
    }
  }
}

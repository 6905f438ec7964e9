/** How the rows of a table scan reach the caller: cut into batches by the high-water mark, handed over as one reversed
    array per batch, and popped pair by pair. */
module ScanDelivery {
  import opened Bytes

  // ----- What the scan yields -----

  type Pair = (seq<Byte>, seq<Byte>)

  /** A row whose key and value can be read as strings, or one that cannot. */
  datatype Row = Row(key: seq<Byte>, value: seq<Byte>) | BadRow

  /** What one NextBatch delivers, perhaps no rows at all; or that it fails. */
  datatype Batch = Rows(rows: seq<Row>) | Failed

  predicate CleanRows(rows: seq<Row>) {
    forall i :: 0 <= i < |rows| ==> rows[i].Row?
  }

  predicate Clean(batches: seq<Batch>) {
    forall i :: 0 <= i < |batches| ==> batches[i].Rows? && CleanRows(batches[i].rows)
  }

  function PairsOf(rows: seq<Row>): (s: seq<Pair>)
    requires CleanRows(rows)
    ensures |s| == |rows|
  {
    if rows == [] then [] else [(rows[0].key, rows[0].value)] + PairsOf(rows[1..])
  }

  /** Every row of the scan, in order. */
  function AllPairs(batches: seq<Batch>): seq<Pair>
    requires Clean(batches)
  {
    if batches == [] then [] else PairsOf(batches[0].rows) + AllPairs(batches[1..])
  }

  /** What keys and values take up. */
  function PairBytes(pairs: seq<Pair>): nat {
    if pairs == [] then 0
    else
      var last := pairs[|pairs| - 1];
      PairBytes(pairs[..|pairs| - 1]) + |last.0| + |last.1|
  }

  lemma OnePairMore(pairs: seq<Pair>, pair: Pair)
    ensures PairBytes(pairs + [pair]) == PairBytes(pairs) + |pair.0| + |pair.1|
  {
    assert (pairs + [pair])[..|pairs|] == pairs;
  }

  // ----- The reversed array -----

  /** The pairs that popping a key and then a value, again and again, takes off the end. */
  function Popped(cache: seq<seq<Byte>>): seq<Pair> {
    if |cache| < 2 then [] else [(cache[|cache| - 1], cache[|cache| - 2])] + Popped(cache[..|cache| - 2])
  }

  /** Keys and values in descending order. */
  function Layout(pairs: seq<Pair>): (s: seq<seq<Byte>>)
    ensures |s| == 2 * |pairs|
  {
    if pairs == [] then [] else Layout(pairs[1..]) + [pairs[0].1, pairs[0].0]
  }

  lemma {:induction false} PoppedLayout(pairs: seq<Pair>)
    ensures Popped(Layout(pairs)) == pairs
  {
    if pairs != [] {
      var s := Layout(pairs);
      PoppedLayout(pairs[1..]);
      assert s[..|s| - 2] == Layout(pairs[1..]);
      assert pairs[0] == (s[|s| - 1], s[|s| - 2]);
    }
  }

  lemma {:induction false} LayoutAt(pairs: seq<Pair>, i: nat)
    requires i < |pairs|
    ensures Layout(pairs)[2 * |pairs| - 2 * i - 1] == pairs[i].0
    ensures Layout(pairs)[2 * |pairs| - 2 * i - 2] == pairs[i].1
  {
    if i > 0 {
      LayoutAt(pairs[1..], i - 1);
    }
  }

  // ----- The scanner -----

  class Scanner {
    const batches: seq<Batch>
    var next: nat

    ghost predicate Valid()
      reads this
    {
      next <= |batches|
    }

    constructor (batches: seq<Batch>)
      ensures Valid() && this.batches == batches && next == 0
    {
      this.batches, next := batches, 0;
    }

    predicate HasMoreRows()
      reads this
    {
      next < |batches|
    }

    method NextBatch() returns (b: Batch)
      requires Valid() && HasMoreRows()
      modifies this
      ensures Valid() && next == old(next) + 1 && b == batches[old(next)]
    {
      b := batches[next];
      next := next + 1;
    }
  }

  lemma {:induction false} PairsOfMore(rows: seq<Row>, row: Row)
    requires CleanRows(rows) && row.Row?
    ensures CleanRows(rows + [row]) && PairsOf(rows + [row]) == PairsOf(rows) + [(row.key, row.value)]
  {
    if rows != [] {
      assert (rows + [row])[1..] == rows[1..] + [row];
      PairsOfMore(rows[1..], row);
    }
  }

  lemma NoBytes()
    ensures PairBytes([]) == 0
  {
  }

  lemma NoPairs()
    ensures PairsOf([]) == []
  {
  }

  lemma FirstBatch(table: seq<Batch>, n: nat)
    requires n < |table|
    ensures Clean(table) ==>
              && !table[n].Failed? && CleanRows(table[n].rows)
              && AllPairs(table[n..]) == PairsOf(table[n].rows) + AllPairs(table[n + 1..])
  {
    assert table[n..][0] == table[n] && table[n..][1..] == table[n + 1..];
  }

  // ----- The native iterator -----

  class Iterator {
    const table: seq<Batch>
    const opens: bool  // whether the scanner can be opened
    const limit: int
    const highWaterMark: nat
    var scanner: Scanner?
    var batch: seq<Row>
    var batchRowCount: nat
    var currentRowCount: nat
    var totalRowCount: nat
    var nexting: bool
    var statusOk: bool

    ghost predicate Valid()
      reads this, scanner
    {
      && currentRowCount <= batchRowCount
      && if scanner == null then batchRowCount == 0
         else
           && scanner.Valid() && scanner.batches == table && batchRowCount <= |batch|
           && (batchRowCount > 0 ==> batchRowCount == |batch|)
    }

    /** Nothing goes wrong, and the rows of all the batches that were fetched are counted. */
    ghost predicate Flows()
      reads this, scanner
    {
      && opens && Clean(table) && statusOk && CleanRows(batch)
      && (scanner == null ==> totalRowCount == 0)
      && (scanner != null && scanner.next <= |table| ==>
            totalRowCount + |AllPairs(table[scanner.next..])| == |AllPairs(table)|)
    }

    /** The rows fetched reach the limit, if there is one. */
    predicate AtLimit()
      reads this
    {
      limit > 0 && totalRowCount >= limit
    }

    /** Nothing goes wrong, and the number of rows is not limited, or there are fewer. */
    ghost predicate Smooth()
      reads this, scanner
    {
      Flows() && (limit <= 0 || |AllPairs(table)| < limit)
    }

    /** The rows that have not been handed out yet. */
    ghost function Remaining(): seq<Pair>
      requires Valid() && Flows()
      reads this, scanner
    {
      if scanner == null then AllPairs(table)
      else PairsOf(batch[currentRowCount..batchRowCount]) + AllPairs(table[scanner.next..])
    }

    constructor (table: seq<Batch>, opens: bool, limit: int, highWaterMark: nat)
      ensures Valid() && this.table == table && this.opens == opens && this.limit == limit
      ensures this.highWaterMark == highWaterMark && scanner == null && statusOk && batch == [] && totalRowCount == 0
    {
      this.table, this.opens, this.limit, this.highWaterMark := table, opens, limit, highWaterMark;
      scanner, batch, batchRowCount, currentRowCount, totalRowCount := null, [], 0, 0, 0;
      nexting, statusOk := false, true;
    }

    ghost function Footprint(): set<object>
      reads this
    {
      {this} + if scanner != null then {scanner} else {}
    }

    /** True if a scanner was made; none is if there is one already, or if it cannot be opened. */
    method CreateScanner() returns (created: bool)
      requires Valid()
      modifies this
      ensures Valid() && (scanner != old(scanner) ==> scanner != null && fresh(scanner))
      ensures created <==> scanner != old(scanner)
      ensures scanner == null ==> !statusOk && !opens
      ensures totalRowCount == old(totalRowCount)
      ensures old(Flows()) ==> scanner != null && Flows() && Remaining() == old(Remaining())
    {
      if scanner == null {
        statusOk := opens;
        if !statusOk {
          return false;
        }
        scanner := new Scanner(table);
        batch := [];
        currentRowCount := 0;
        assert table[0..] == table;
        return true;
      }
      return false;
    }

    /** Asks for batches until one has rows or there are no more. */
    method FillBatch() returns (ok: bool)
      requires Valid() && scanner != null && currentRowCount == batchRowCount && statusOk
      modifies this, scanner
      ensures Valid() && scanner == old(scanner) && (ok <==> statusOk)
      ensures old(Flows()) ==> ok && Flows() && Remaining() == old(Remaining())
      ensures ok ==> currentRowCount == 0 && (batchRowCount == 0 ==> scanner.next == |table|)
    {
      hide AllPairs, PairsOf, Clean, CleanRows;
      NoPairs();
      batchRowCount := 0;
      currentRowCount := 0;
      while scanner.HasMoreRows() && batchRowCount == 0
        invariant Valid() && scanner == old(scanner) && currentRowCount == 0 && statusOk
        invariant old(Flows()) ==> Flows() && Remaining() == old(Remaining())
        decreases |table| - scanner.next
      {
        FirstBatch(table, scanner.next);
        var b := scanner.NextBatch();
        if b.Failed? {
          statusOk := false;
          nexting := false;
          return false;
        }
        nexting := true;
        batch := b.rows;
        batchRowCount := |batch|;
        totalRowCount := totalRowCount + batchRowCount;
        assert batch[0..|batch|] == batch;
      }
      ok := true;
    }

    /** The next rows of the batch in hand, until the high-water mark is reached or the batch used up; false when there
        are none left, or on an error. Once the rows fetched reach the limit there are none, handed out or not. */
    method IteratorNext() returns (ok: bool, result: seq<Pair>)
      requires Valid()
      modifies Footprint()
      ensures Valid() && (scanner != old(scanner) ==> scanner != null && fresh(scanner))
      ensures ok && highWaterMark > 0 ==> result != []
      ensures ok && highWaterMark == 0 ==> result == []
      ensures ok && result != [] ==> PairBytes(result[..|result| - 1]) < highWaterMark
      ensures ok ==> PairBytes(result) >= highWaterMark || currentRowCount == batchRowCount
      ensures ok ==> statusOk && JustTaken(result)
      ensures old(AtLimit()) ==> !ok && result == []
      ensures old(Flows()) ==> Flows() && old(Remaining()) == result + Remaining()
      ensures old(Flows()) ==> (ok <==> old(Remaining()) != [] && !old(AtLimit()))
    {
      hide PairsOf, AllPairs, CleanRows, Clean, PairBytes;
      result := [];
      ok := HasRow();
      if ok {
        ok, result := TakeRows();
      }
    }

    /** Sees to it that there is a row of a batch in hand. */
    method HasRow() returns (ok: bool)
      requires Valid()
      modifies Footprint()
      ensures Valid() && (scanner != old(scanner) ==> scanner != null && fresh(scanner))
      ensures ok ==> scanner != null && currentRowCount < batchRowCount && statusOk
      ensures old(AtLimit()) ==> !ok
      ensures old(Flows()) ==>
                && Flows() && Remaining() == old(Remaining())
                && (ok <==> Remaining() != [] && !old(AtLimit()))
    {
      hide PairsOf, AllPairs, CleanRows, Clean, PairBytes;
      var created := CreateScanner();
      if scanner == null {
        return false;
      }
      if !statusOk {
        nexting := false;
        return false;
      }
      if AtLimit() {
        nexting := false;
        return false;
      }
      if currentRowCount >= batchRowCount {
        var filled := FillBatch();
        if !filled {
          return false;
        }
        if batchRowCount == 0 {
          NothingLeft();
          nexting := false;
          return false;
        }
      }
      SomethingLeft();
      ok := true;
    }

    /** The rows before the current one, all readable, are these. */
    ghost predicate JustTaken(result: seq<Pair>)
      requires Valid()
      reads this, scanner
    {
      && scanner != null && |result| <= currentRowCount
      && var rows := batch[currentRowCount - |result|..currentRowCount]; CleanRows(rows) && PairsOf(rows) == result
    }

    lemma SomethingLeft()
      requires Valid() && scanner != null && currentRowCount < batchRowCount
      ensures Flows() ==> Remaining() != []
    {
      if Flows() {
        FirstRemaining();
      }
    }

    lemma NothingLeft()
      requires Valid() && scanner != null && batchRowCount == 0 && scanner.next == |table|
      ensures Flows() ==> Remaining() == []
    {
      assert table[|table|..] == [] && batch[0..0] == [];
    }

    lemma NothingTaken()
      requires Valid() && scanner != null
      ensures JustTaken([])
    {
      assert batch[currentRowCount..currentRowCount] == [];
    }

    /** One more row is taken. */
    lemma TakesOne(result: seq<Pair>)
      requires Valid() && scanner != null && |result| < currentRowCount && batch[currentRowCount - 1].Row?
      requires var rows := batch[currentRowCount - 1 - |result|..currentRowCount - 1];
               CleanRows(rows) && PairsOf(rows) == result
      ensures var row := batch[currentRowCount - 1]; JustTaken(result + [(row.key, row.value)])
    {
      var rows, row := batch[currentRowCount - 1 - |result|..currentRowCount - 1], batch[currentRowCount - 1];
      assert batch[currentRowCount - 1 - |result|..currentRowCount] == rows + [row];
      PairsOfMore(rows, row);
    }

    /** Takes rows of the batch in hand until the high-water mark is reached. */
    method TakeRows() returns (ok: bool, result: seq<Pair>)
      requires Valid() && scanner != null && currentRowCount < batchRowCount && statusOk
      modifies this
      ensures Valid() && scanner == old(scanner)
      ensures ok && highWaterMark > 0 ==> result != []
      ensures ok && highWaterMark == 0 ==> result == []
      ensures ok && result != [] ==> PairBytes(result[..|result| - 1]) < highWaterMark
      ensures ok ==> PairBytes(result) >= highWaterMark || currentRowCount == batchRowCount
      ensures ok ==> statusOk && JustTaken(result)
      ensures old(Flows()) ==> ok && Flows() && old(Remaining()) == result + Remaining() && old(Remaining()) != []
    {
      hide PairsOf, AllPairs, CleanRows, Clean, PairBytes;
      SomethingLeft();
      ok, result := TakeUpToMark();
      if !ok {
        statusOk := false;
      }
      nexting := ok;
    }

    /** The loop of it; false if a row cannot be read. */
    method TakeUpToMark() returns (ok: bool, result: seq<Pair>)
      requires Valid() && scanner != null && currentRowCount < batchRowCount
      modifies this`currentRowCount
      ensures Valid()
      ensures ok && highWaterMark > 0 ==> result != []
      ensures ok && highWaterMark == 0 ==> result == []
      ensures ok && result != [] ==> PairBytes(result[..|result| - 1]) < highWaterMark
      ensures ok ==> PairBytes(result) >= highWaterMark || currentRowCount == batchRowCount
      ensures ok ==> JustTaken(result)
      ensures old(Flows()) ==> ok && Flows() && old(Remaining()) == result + Remaining()
    {
      hide PairsOf, AllPairs, CleanRows, Clean, PairBytes, JustTaken, Flows, Remaining;
      result := [];
      var size := 0;
      NoBytes();
      NothingTaken();
      ghost var flows := Flows();
      ghost var rows := if flows then Remaining() else [];
      while size < highWaterMark && currentRowCount < batchRowCount
        invariant Valid() && (size == 0 || result != []) && size == PairBytes(result)
        invariant JustTaken(result)
        invariant result != [] ==> PairBytes(result[..|result| - 1]) < highWaterMark
        invariant highWaterMark == 0 ==> result == []
        invariant result == [] ==> currentRowCount < batchRowCount
        invariant flows ==> Flows() && rows == result + Remaining()
        decreases batchRowCount - currentRowCount
      {
        var row := TakeRow(result);
        if row.BadRow? {
          return false, result;
        }
        size := size + |row.key| + |row.value|;
        OnePairMore(result, (row.key, row.value));
        assert (result + [(row.key, row.value)])[..|result|] == result;
        result := result + [(row.key, row.value)];
      }
      ok := true;
    }

    /** The current row; the next one is now current. */
    method TakeRow(ghost result: seq<Pair>) returns (row: Row)
      requires Valid() && scanner != null && currentRowCount < batchRowCount && JustTaken(result)
      modifies this`currentRowCount
      ensures Valid() && currentRowCount == old(currentRowCount) + 1 && row == batch[old(currentRowCount)]
      ensures row.Row? ==> JustTaken(result + [(row.key, row.value)])
      ensures old(Flows()) ==> Flows() && row.Row? && old(Remaining()) == [(row.key, row.value)] + Remaining()
      ensures old(Flows()) ==> forall s: seq<Pair> :: s + old(Remaining()) == s + [(row.key, row.value)] + Remaining()
    {
      hide PairsOf, AllPairs;
      if Flows() {
        FirstRemaining();
      }
      row := batch[currentRowCount];
      currentRowCount := currentRowCount + 1;
      if row.Row? {
        TakesOne(result);
      }
    }

    /** The first row that is still to be handed out is the current one of the batch. */
    lemma FirstRemaining()
      requires Valid() && Flows() && scanner != null && currentRowCount < batchRowCount
      ensures var row := batch[currentRowCount];
              && row.Row? && CleanRows(batch[currentRowCount + 1..batchRowCount])
              && Remaining() == [(row.key, row.value)] +
                   (PairsOf(batch[currentRowCount + 1..batchRowCount]) + AllPairs(table[scanner.next..]))
    {
      var rows := batch[currentRowCount..batchRowCount];
      assert rows[0] == batch[currentRowCount] && rows[1..] == batch[currentRowCount + 1..batchRowCount];
    }
  }

  // ----- Handing a batch over -----

  datatype Delivery = Delivered(items: seq<seq<Byte>>, finished: bool) | Error

  /** NextWorker: runs IteratorNext and lays out its rows in an array, last one first. */
  class NextWorker {
    const it: Iterator
    var ok: bool
    var failed: bool
    var result: seq<Pair>

    constructor (it: Iterator)
      ensures this.it == it && ok && !failed && result == []
    {
      this.it, ok, failed, result := it, true, false, [];
    }

    method Execute()
      requires it.Valid()
      modifies this, it.Footprint()
      ensures it.Valid() && (it.scanner != old(it.scanner) ==> it.scanner != null && fresh(it.scanner))
      ensures ok && it.highWaterMark > 0 ==> result != []
      ensures ok ==> !failed
      ensures old(it.Smooth()) ==>
                && it.Smooth() && !failed && old(it.Remaining()) == result + it.Remaining()
                && (ok <==> old(it.Remaining()) != [])
    {
      hide PairsOf, AllPairs, CleanRows, Clean, PairBytes, Iterator.JustTaken;
      ok, result := it.IteratorNext();
      failed := !ok && !it.statusOk;
    }

    /** The rows in reverse, each value before its key. */
    method HandleOKCallback() returns (d: Delivery)
      ensures d == Delivered(Layout(result), !ok)
    {
      var arraySize := |result| * 2;
      var returnArray := new seq<Byte>[arraySize];
      ghost var layout := Layout(result);
      for idx := 0 to |result|
        invariant forall k :: arraySize - 2 * idx <= k < arraySize ==> returnArray[k] == layout[k]
      {
        returnArray[arraySize - idx * 2 - 1] := result[idx].0;
        returnArray[arraySize - idx * 2 - 2] := result[idx].1;
        LayoutAt(result, idx);
      }
      assert returnArray[..] == layout;
      d := Delivered(returnArray[..], !ok);
    }
  }

  /** binding.next: what its callback is called with. */
  method BindingNext(it: Iterator) returns (d: Delivery)
    requires it.Valid()
    modifies it.Footprint()
    ensures it.Valid() && (it.scanner != old(it.scanner) ==> it.scanner != null && fresh(it.scanner))
    ensures d.Delivered? ==> |d.items| % 2 == 0 && (it.highWaterMark > 0 ==> d.items != [] || d.finished)
    ensures old(it.Smooth()) ==>
              && it.Smooth() && d.Delivered? && old(it.Remaining()) == Popped(d.items) + it.Remaining()
              && (d.finished ==> old(it.Remaining()) == [])
  {
    hide Iterator.Remaining, Iterator.Valid, Iterator.Flows, Popped, Layout, AllPairs;
    var worker := new NextWorker(it);
    worker.Execute();
    if worker.failed {
      return Error;
    }
    PoppedLayout(worker.result);
    d := worker.HandleOKCallback();
  }

  // ----- The iterator in JavaScript -----

  /** What the callback of _next is called with. */
  datatype Answer = Handed(key: seq<Byte>, value: seq<Byte>) | End | Failure

  class JsIterator {
    const binding: Iterator
    var cache: seq<seq<Byte>>
    var finished: bool

    ghost predicate Valid()
      reads this, binding, binding.scanner
    {
      binding.Valid() && |cache| % 2 == 0
    }

    /** The rows that are still to come. */
    ghost function Pending(): seq<Pair>
      requires Valid() && binding.Smooth()
      reads this, binding, binding.scanner
    {
      Popped(cache) + if finished then [] else binding.Remaining()
    }

    constructor (binding: Iterator)
      requires binding.Valid()
      ensures Valid() && this.binding == binding && cache == [] && !finished
    {
      this.binding, cache, finished := binding, [], false;
    }

    /** Pops a key and then its value off the cache. */
    method Pop() returns (answer: Answer)
      requires Valid() && cache != []
      modifies this`cache
      ensures Valid() && answer.Handed? && Popped(old(cache)) == [(answer.key, answer.value)] + Popped(cache)
      ensures old(binding.Smooth()) ==>
                old(Pending()) != [] && old(Pending())[0] == (answer.key, answer.value) &&
                Pending() == old(Pending())[1..]
    {
      hide Iterator.Remaining, Iterator.Valid, Iterator.Smooth;
      var key, value := cache[|cache| - 1], cache[|cache| - 2];
      cache := cache[..|cache| - 2];
      answer := Handed(key, value);
    }

    /** Asks the native iterator for its next batch. */
    method Refill() returns (ok: bool)
      requires Valid() && cache == [] && !finished && binding.highWaterMark > 0
      modifies this, binding.Footprint()
      ensures Valid() && (binding.scanner != old(binding.scanner) ==> binding.scanner != null && fresh(binding.scanner))
      ensures ok ==> cache != [] || finished
      ensures old(binding.Smooth()) ==> ok && binding.Smooth() && Pending() == old(Pending())
    {
      hide Iterator.Remaining, Iterator.Valid, Iterator.Smooth;
      var d := BindingNext(binding);
      if d.Error? {
        return false;
      }
      cache := d.items;
      finished := d.finished;
      ok := true;
    }

    /** Hands out the next row, fetching more when the cache is used up. */
    method Next() returns (answer: Answer)
      requires Valid() && binding.highWaterMark > 0
      modifies this, binding.Footprint()
      ensures Valid() && (binding.scanner != old(binding.scanner) ==> binding.scanner != null && fresh(binding.scanner))
      ensures old(binding.Smooth()) ==>
                && binding.Smooth()
                && if old(Pending()) == [] then answer == End && Pending() == []
                   else
                     && answer == Handed(old(Pending())[0].0, old(Pending())[0].1)
                     && Pending() == old(Pending())[1..]
      decreases if cache == [] && !finished then 1 else 0
    {
      hide Iterator.Remaining, Iterator.Valid, Iterator.Smooth;
      if |cache| > 0 {
        answer := Pop();
      } else if finished {
        answer := End;
      } else {
        var ok := Refill();
        if !ok {
          return Failure;
        }
        answer := Next();
      }
    }
  }

  // ----- The whole scan -----

  lemma AllPending(it: JsIterator)
    requires it.Valid() && it.binding.Smooth() && it.cache == [] && !it.finished && it.binding.scanner == null
    ensures [] + it.Pending() == AllPairs(it.binding.table)
  {
  }

  /** Calling next until it says there is no more hands out every row of the table once, in scan order, if there is no
      limit or the table has fewer rows. */
  method ReadAll(table: seq<Batch>, limit: int, highWaterMark: nat) returns (rows: seq<Pair>)
    requires Clean(table) && (limit <= 0 || |AllPairs(table)| < limit) && highWaterMark > 0
    ensures rows == AllPairs(table)
  {
    hide Popped, AllPairs, JsIterator.Pending;
    var binding := new Iterator(table, true, limit, highWaterMark);
    var it := new JsIterator(binding);
    rows := [];
    var more := true;
    AllPending(it);
    while more
      invariant it.Valid() && it.binding == binding && binding.Smooth() && binding.highWaterMark > 0
      invariant fresh(it) && fresh(binding) && (binding.scanner != null ==> fresh(binding.scanner))
      invariant AllPairs(table) == rows + it.Pending() && (!more ==> it.Pending() == [])
      decreases |it.Pending()|, more
    {
      ghost var pending := it.Pending();
      var answer := it.Next();
      match answer
      case Handed(key, value) =>
        rows := rows + [(key, value)];
        assert pending == [(key, value)] + pending[1..];
      case End => more := false;
      case Failure => assert false;
    }
  }

  /** The limit counts rows that were fetched: of a batch that reaches it, what is behind the high-water mark is never
      handed out, although no more rows than the limit were asked for. */
  method LimitCutsShort(first: Row, second: Row) returns (rows: seq<Pair>, more: seq<Pair>, ok: bool)
    requires first.Row? && second.Row? && |first.key| > 0
    ensures AllPairs([Rows([first, second])]) == [(first.key, first.value), (second.key, second.value)]
    ensures rows == [(first.key, first.value)] && more == [] && !ok
  {
    var table := [Rows([first, second])];
    TwoPairs(first, second);
    hide AllPairs, PairsOf, Clean, CleanRows, PairBytes;
    var binding := new Iterator(table, true, 2, 1);
    ghost var all := binding.Remaining();
    var found;
    found, rows := binding.IteratorNext();
    OnlyFirst(rows, binding.Remaining(), (first.key, first.value), (second.key, second.value));
    assert table[0..] == table;
    ok, more := binding.IteratorNext();
  }

  lemma TwoPairs(first: Row, second: Row)
    requires first.Row? && second.Row?
    ensures var table := [Rows([first, second])];
            Clean(table) && AllPairs(table) == [(first.key, first.value), (second.key, second.value)] &&
            Clean(table[1..]) && AllPairs(table[1..]) == [] && CleanRows([])
  {
    var rows := [first, second];
    assert rows[1..] == [second] && [second][1..] == [];
    assert PairsOf(rows) == [(first.key, first.value)] + PairsOf([second]);
    assert [Rows(rows)][1..] == [] && PairsOf(rows) + [] == PairsOf(rows);
  }

  /** What was taken before the mark of one byte was reached. */
  lemma OnlyFirst(rows: seq<Pair>, rest: seq<Pair>, a: Pair, b: Pair)
    requires rows != [] && rows + rest == [a, b] && PairBytes(rows[..|rows| - 1]) < 1 && |a.0| > 0
    ensures rows == [a] && rest == [b]
  {
    var front := rows[..|rows| - 1];
    assert rows[0] == (rows + rest)[0];
    AtLeastFirst(front);
    assert front == [];
    assert rest == (rows + rest)[1..];
  }

  lemma {:induction false} AtLeastFirst(pairs: seq<Pair>)
    ensures pairs != [] ==> PairBytes(pairs) >= |pairs[0].0|
  {
    if |pairs| > 1 {
      AtLeastFirst(pairs[..|pairs| - 1]);
    }
  }
}

/** The iterator users see: a cursor over a map, made from entries for many versions of each key. */
module DbIter {
  import opened Bytes
  import opened SkipLists
  import opened DbFormat
  import opened Compaction
  import M = MemTables
  import CM = CompactionMeaning

  // ----- Which entries are shown -----

  function UserAt(items: seq<Item>, i: nat): seq<Byte>
    requires i < |items|
  {
    UserOf(items[i].key)
  }

  predicate VisibleAt(items: seq<Item>, s: nat, i: nat)
    requires i < |items|
  {
    items[i].Parsed().Some? && items[i].Parsed().value.sequence <= s
  }

  predicate IsValue(items: seq<Item>, i: nat)
    requires i < |items|
  {
    items[i].Parsed().Some? && items[i].Parsed().value.kind == Value
  }

  /** The newest visible entry for its user key is this one, and it is a value. */
  ghost predicate Shown(cmp: Comparator, items: seq<Item>, s: nat, i: nat) {
    && i < |items| && VisibleAt(items, s, i) && IsValue(items, i)
    && forall j :: 0 <= j < i && VisibleAt(items, s, j) ==> cmp(UserAt(items, j), UserAt(items, i)) != 0
  }

  /** c is the first shown entry from index `from` on, or there is none. */
  ghost predicate FirstShown(cmp: Comparator, items: seq<Item>, s: nat, from: nat, c: Option<nat>) {
    match c
    case Some(i) => from <= i && Shown(cmp, items, s, i) && forall j :: from <= j < i ==> !Shown(cmp, items, s, j)
    case None => forall j :: from <= j < |items| ==> !Shown(cmp, items, s, j)
  }

  /** c is the last shown entry before index `upto`, or there is none. */
  ghost predicate LastShown(cmp: Comparator, items: seq<Item>, s: nat, upto: nat, c: Option<nat>) {
    match c
    case Some(i) => i < upto && Shown(cmp, items, s, i) && forall j :: i < j < upto ==> !Shown(cmp, items, s, j)
    case None => forall j :: 0 <= j < upto ==> !Shown(cmp, items, s, j)
  }

  lemma UsersAscendTo(cmp: Comparator, items: seq<Item>, i: nat, j: nat)
    requires Ordered(cmp) && Ascending(cmp, items) && i <= j < |items|
    ensures cmp(UserAt(items, i), UserAt(items, j)) <= 0
  {
    UsersAscend(cmp, items, i);
  }

  // ----- Going forward -----

  /** Everything from index p up to `from`, and every entry from there on whose user key is not beyond skip, is to be
      passed over. */
  ghost predicate Passing(cmp: Comparator, items: seq<Item>, s: nat, p: nat, from: nat, skipping: bool, skip: seq<Byte>)
  {
    && (forall i :: p <= i < from && i < |items| ==>
          skipping && cmp(UserAt(items, i), skip) <= 0 && (VisibleAt(items, s, i) ==> IsValue(items, i)))
    && (skipping ==>
          forall j :: p <= j < |items| && from <= j && cmp(UserAt(items, j), skip) <= 0 ==> !Shown(cmp, items, s, j))
    && (forall i, j :: 0 <= i < p && p <= j < |items| && from <= j && VisibleAt(items, s, i) ==>
          (skipping && cmp(UserAt(items, j), skip) <= 0) || cmp(UserAt(items, i), UserAt(items, j)) != 0)
  }

  lemma PassInvisible(cmp: Comparator, items: seq<Item>, s: nat, p: nat, from: nat, skipping: bool, skip: seq<Byte>)
    requires p < |items| && Passing(cmp, items, s, p, from, skipping, skip) && !VisibleAt(items, s, p)
    ensures Passing(cmp, items, s, p + 1, from, skipping, skip) && !Shown(cmp, items, s, p)
  {
  }

  lemma PassHidden(cmp: Comparator, items: seq<Item>, s: nat, p: nat, from: nat, skipping: bool, skip: seq<Byte>)
    requires Ordered(cmp) && Ascending(cmp, items)
    requires p < |items| && Passing(cmp, items, s, p, from, skipping, skip)
    requires skipping && cmp(UserAt(items, p), skip) <= 0
    ensures Passing(cmp, items, s, p + 1, from, skipping, skip) && (p >= from ==> !Shown(cmp, items, s, p))
  {
    hide Ordered, Ascending, Shown, VisibleAt, IsValue;
    forall j | p < j < |items| && from <= j && cmp(UserAt(items, p), UserAt(items, j)) == 0
      ensures cmp(UserAt(items, j), skip) <= 0
    {
      Transitive(cmp, UserAt(items, j), UserAt(items, p), skip);
      Transitive(cmp, UserAt(items, p), UserAt(items, j), skip);
      Transitive(cmp, skip, UserAt(items, j), UserAt(items, p));
      Transitive(cmp, UserAt(items, j), skip, UserAt(items, p));
      Transitive(cmp, UserAt(items, p), skip, UserAt(items, j));
    }
  }

  lemma PassDeletion(cmp: Comparator, items: seq<Item>, s: nat, p: nat, from: nat, skipping: bool, skip: seq<Byte>)
    requires Ordered(cmp) && Ascending(cmp, items)
    requires p < |items| && Passing(cmp, items, s, p, from, skipping, skip)
    requires VisibleAt(items, s, p) && !IsValue(items, p)
    ensures p >= from && Passing(cmp, items, s, p + 1, from, true, UserAt(items, p)) && !Shown(cmp, items, s, p)
  {
    var user := UserAt(items, p);
    hide Ordered, Ascending;
    forall j | p < j < |items| && cmp(UserAt(items, j), user) <= 0 ensures !Shown(cmp, items, s, j) {
      UsersAscendTo(cmp, items, p, j);
      Transitive(cmp, user, UserAt(items, j), user);
    }
    hide Shown, IsValue;
    forall i, j | 0 <= i <= p && p < j < |items| && from <= j && VisibleAt(items, s, i)
      ensures cmp(UserAt(items, j), user) <= 0 || cmp(UserAt(items, i), UserAt(items, j)) != 0
    {
      UsersAscendTo(cmp, items, i, p);
      Transitive(cmp, UserAt(items, i), user, UserAt(items, j));
      Transitive(cmp, UserAt(items, j), user, user);
    }
  }

  lemma ShowsHere(cmp: Comparator, items: seq<Item>, s: nat, p: nat, from: nat, skipping: bool, skip: seq<Byte>)
    requires p < |items| && Passing(cmp, items, s, p, from, skipping, skip)
    requires VisibleAt(items, s, p) && IsValue(items, p) && !(skipping && cmp(UserAt(items, p), skip) <= 0)
    ensures p >= from && Shown(cmp, items, s, p)
  {
  }

  /** After the entry that is shown, the rest for its user key is passed over. */
  lemma PassingCurrent(cmp: Comparator, items: seq<Item>, s: nat, p: nat, c: nat)
    requires Ordered(cmp) && Ascending(cmp, items) && Shown(cmp, items, s, c) && p <= c
    requires forall j :: p <= j < c ==> !VisibleAt(items, s, j)
    ensures Passing(cmp, items, s, p, c + 1, true, UserAt(items, c))
  {
    var user := UserAt(items, c);
    assert VisibleAt(items, s, c) && IsValue(items, c);
    hide Ordered, Ascending;
    forall i | p <= i <= c ensures cmp(UserAt(items, i), user) <= 0 {
      UsersAscendTo(cmp, items, i, c);
    }
    forall j | c < j < |items| && cmp(UserAt(items, j), user) <= 0 ensures !Shown(cmp, items, s, j) {
      UsersAscendTo(cmp, items, c, j);
      Transitive(cmp, user, UserAt(items, j), user);
    }
    hide Shown;
    forall i, j | 0 <= i < p && c < j < |items|
      ensures cmp(UserAt(items, j), user) <= 0 || cmp(UserAt(items, i), UserAt(items, j)) != 0
    {
      UsersAscendTo(cmp, items, i, c);
      Transitive(cmp, UserAt(items, i), user, UserAt(items, j));
      Transitive(cmp, UserAt(items, j), user, user);
    }
  }

  /** What lies before the key sought is for lesser user keys, or too new to be seen. */
  lemma SoughtBefore(cmp: Comparator, items: seq<Item>, s: nat, target: seq<Byte>, p: nat)
    requires Ordered(cmp) && Ascending(cmp, items) && s <= MAX_SEQUENCE && p <= |items|
    requires var key := InternalKey(target, s, KIND_FOR_SEEK);
             && (forall i :: 0 <= i < p ==> Compare(cmp, items[i].key, key) < 0)
             && (p < |items| ==> Compare(cmp, items[p].key, key) >= 0)
    ensures forall i :: 0 <= i < p ==>
              cmp(UserAt(items, i), target) < 0 || (cmp(UserAt(items, i), target) == 0 && !VisibleAt(items, s, i))
    ensures forall i :: p <= i < |items| ==> cmp(UserAt(items, i), target) >= 0
  {
    KeyParts(target, s, KIND_FOR_SEEK);
    hide InternalKey, Pack;
    forall i | p <= i < |items| ensures cmp(UserAt(items, i), target) >= 0 {
      UsersAscendTo(cmp, items, p, i);
      hide Ordered, Ascending;
      Transitive(cmp, UserAt(items, p), UserAt(items, i), target);
    }
  }

  lemma PassingSought(cmp: Comparator, items: seq<Item>, s: nat, target: seq<Byte>, p: nat)
    requires Ordered(cmp) && p <= |items|
    requires forall i :: 0 <= i < p ==>
              cmp(UserAt(items, i), target) < 0 || (cmp(UserAt(items, i), target) == 0 && !VisibleAt(items, s, i))
    requires forall i :: p <= i < |items| ==> cmp(UserAt(items, i), target) >= 0
    ensures Passing(cmp, items, s, p, p, false, [])
    ensures forall i :: 0 <= i < p && cmp(UserAt(items, i), target) >= 0 ==> !Shown(cmp, items, s, i)
  {
    hide Ordered;
    forall i, j | 0 <= i < p && p <= j < |items| && VisibleAt(items, s, i)
      ensures cmp(UserAt(items, i), UserAt(items, j)) != 0
    {
      Transitive(cmp, UserAt(items, i), UserAt(items, j), target);
      Transitive(cmp, target, UserAt(items, j), UserAt(items, i));
      Transitive(cmp, UserAt(items, j), UserAt(items, i), target);
    }
  }

  // ----- Going backward -----

  /** From index q on everything before `upto` has been looked at: b is the newest visible entry met for its user key, a
      value, or, after a deletion, there is nothing to show. */
  ghost predicate Searching(cmp: Comparator, items: seq<Item>, s: nat, q: nat, upto: nat, kind: Kind, b: nat) {
    && q <= upto <= |items|
    && if kind == Deletion then forall j :: q <= j < upto ==> !Shown(cmp, items, s, j)
       else
         && q <= b < upto && VisibleAt(items, s, b) && IsValue(items, b)
         && (forall j :: q <= j < b ==> !VisibleAt(items, s, j))
         && (forall j :: b < j < upto ==> !Shown(cmp, items, s, j))
  }

  lemma SearchInvisible(cmp: Comparator, items: seq<Item>, s: nat, p: nat, upto: nat, kind: Kind, b: nat)
    requires p < |items| && Searching(cmp, items, s, p + 1, upto, kind, b) && !VisibleAt(items, s, p)
    ensures Searching(cmp, items, s, p, upto, kind, b)
  {
  }

  lemma SearchVisible(cmp: Comparator, items: seq<Item>, s: nat, p: nat, upto: nat, kind: Kind, b: nat)
    requires Ordered(cmp) && Ascending(cmp, items)
    requires p < |items| && Searching(cmp, items, s, p + 1, upto, kind, b) && VisibleAt(items, s, p)
    requires kind == Deletion || cmp(UserAt(items, p), UserAt(items, b)) >= 0
    ensures var kind' := items[p].Parsed().value.kind;
            Searching(cmp, items, s, p, upto, kind', if kind' == Value then p else b)
  {
    if kind == Value {
      UsersAscendTo(cmp, items, p, b);
    }
  }

  /** The entry b is shown once everything before it is for lesser user keys, or not visible. */
  lemma FoundBefore(cmp: Comparator, items: seq<Item>, s: nat, p: nat, upto: nat, b: nat)
    requires Ordered(cmp) && Ascending(cmp, items) && p < |items| && Searching(cmp, items, s, p + 1, upto, Value, b)
    requires cmp(UserAt(items, p), UserAt(items, b)) < 0
    ensures Shown(cmp, items, s, b)
  {
    hide Ordered, Ascending, VisibleAt, IsValue;
    forall j | 0 <= j < b && VisibleAt(items, s, j) ensures cmp(UserAt(items, j), UserAt(items, b)) != 0 {
      UsersAscendTo(cmp, items, j, p);
      Transitive(cmp, UserAt(items, j), UserAt(items, p), UserAt(items, b));
    }
  }

  lemma SearchDone(cmp: Comparator, items: seq<Item>, s: nat, q: nat, upto: nat, kind: Kind, b: nat)
    requires Searching(cmp, items, s, q, upto, kind, b) && (q == 0 || (kind == Value && Shown(cmp, items, s, b)))
    ensures LastShown(cmp, items, s, upto, if kind == Value then Some(b) else None)
    ensures kind == Value ==>
              && b < |items| && q <= b && Shown(cmp, items, s, b)
              && forall j :: q <= j < b ==> !VisibleAt(items, s, j)
  {
  }

  /** Nothing is shown between the entries for the same user key. */
  lemma NoneShownWithin(cmp: Comparator, items: seq<Item>, s: nat, p: nat, c: nat)
    requires Ordered(cmp) && Ascending(cmp, items) && Shown(cmp, items, s, c)
    requires forall j :: p <= j < c ==> cmp(UserAt(items, j), UserAt(items, c)) >= 0
    ensures forall j :: p <= j < c ==> !Shown(cmp, items, s, j)
  {
    forall j | p <= j < c ensures !Shown(cmp, items, s, j) {
      UsersAscendTo(cmp, items, j, c);
    }
  }

  // ----- The iterator over all entries -----

  class InternalIterator {
    const items: seq<Item>
    var pos: Option<nat>

    ghost predicate Sound()
      reads this
    {
      pos.Some? ==> pos.value < |items|
    }

    constructor (items: seq<Item>)
      ensures this.items == items && pos == None
    {
      this.items, pos := items, None;
    }

    method Next()
      requires Sound() && pos.Some?
      modifies this
      ensures Sound() && pos == if old(pos).value + 1 < |items| then Some(old(pos).value + 1) else None
    {
      pos := if pos.value + 1 < |items| then Some(pos.value + 1) else None;
    }

    method Prev()
      requires Sound() && pos.Some?
      modifies this
      ensures Sound() && pos == if old(pos).value > 0 then Some(old(pos).value - 1) else None
    {
      pos := if pos.value > 0 then Some(pos.value - 1) else None;
    }

    method SeekToFirst()
      modifies this
      ensures Sound() && pos == if items == [] then None else Some(0)
    {
      pos := if items == [] then None else Some(0);
    }

    method SeekToLast()
      modifies this
      ensures Sound() && pos == if items == [] then None else Some(|items| - 1)
    {
      pos := if items == [] then None else Some(|items| - 1);
    }

    /** The first entry at or after the key. */
    method Seek(cmp: Comparator, key: seq<Byte>)
      modifies this
      ensures Sound()
      ensures var p := if pos.Some? then pos.value else |items|;
              && (forall i :: 0 <= i < p ==> Compare(cmp, items[i].key, key) < 0)
              && (pos.Some? ==> Compare(cmp, items[p].key, key) >= 0)
    {
      var i := 0;
      while i < |items| && Compare(cmp, items[i].key, key) < 0
        invariant 0 <= i <= |items| && forall j :: 0 <= j < i ==> Compare(cmp, items[j].key, key) < 0
      {
        i := i + 1;
      }
      pos := if i < |items| then Some(i) else None;
    }
  }

  // ----- The iterator users see -----

  datatype Direction = Forward | Reverse

  class DBIter {
    const cmp: Comparator
    const iter: InternalIterator
    const sequence: nat
    var savedKey: seq<Byte>
    var savedValue: seq<Byte>
    var direction: Direction
    var valid: bool
    var corrupt: bool
    /** The entry the iterator stands on. */
    ghost var current: Option<nat>

    ghost predicate Ready()
      reads this, iter
    {
      Ordered(cmp) && Ascending(cmp, iter.items) && iter.Sound()
    }

    /** Forward, the inner iterator is on the entry that is shown. Backward, that entry is saved, and the inner iterator
        has gone past it and everything before it that the snapshot does not see. */
    ghost predicate Sound()
      reads this, iter
    {
      && Ready() && (valid <==> current.Some?)
      && (valid ==>
            && Shown(cmp, iter.items, sequence, current.value)
            && if direction == Forward then iter.pos == current
               else
                 && savedKey == UserAt(iter.items, current.value) && savedValue == iter.items[current.value].value
                 && (iter.pos.Some? ==> iter.pos.value < current.value)
                 && forall j :: (if iter.pos.Some? then iter.pos.value < j else true) && 0 <= j < current.value ==>
                      !VisibleAt(iter.items, sequence, j))
    }

    constructor (cmp: Comparator, iter: InternalIterator, sequence: nat)
      requires Ordered(cmp) && Ascending(cmp, iter.items) && iter.Sound()
      ensures Sound() && !valid && this.cmp == cmp && this.iter == iter && this.sequence == sequence
    {
      this.cmp, this.iter, this.sequence := cmp, iter, sequence;
      savedKey, savedValue, direction, valid, corrupt, current := [], [], Forward, false, false, None;
    }

    method GetKey() returns (key: seq<Byte>)
      requires Sound() && valid
      ensures key == UserAt(iter.items, current.value)
    {
      key := if direction == Forward then UserOf(iter.items[iter.pos.value].key) else savedKey;
    }

    method GetValue() returns (value: seq<Byte>)
      requires Sound() && valid
      ensures value == iter.items[current.value].value
    {
      value := if direction == Forward then iter.items[iter.pos.value].value else savedValue;
    }

    method ParseKey() returns (parsed: Option<Parsed>)
      requires Ready() && iter.pos.Some?
      modifies this`corrupt
      ensures parsed == iter.items[iter.pos.value].Parsed()
    {
      parsed := iter.items[iter.pos.value].Parsed();
      if parsed == None {
        corrupt := true;
      }
    }

    /** Moves on to the first shown entry from `from` on. */
    method FindNextUserEntry(skipping0: bool, skip0: seq<Byte>, ghost from: nat)
      requires Ready() && iter.pos.Some? && direction == Forward && iter.pos.value <= from <= |iter.items|
      requires Passing(cmp, iter.items, sequence, iter.pos.value, from, skipping0, skip0)
      modifies this, iter
      ensures Sound() && FirstShown(cmp, iter.items, sequence, from, current)
    {
      hide Ordered, Shown, Ascending, Passing;
      var skipping, skip := skipping0, skip0;
      ghost var p := iter.pos.value;
      while iter.pos.Some?
        invariant Ready() && direction == Forward && p <= |iter.items| &&
                  (if iter.pos.Some? then p == iter.pos.value else p == |iter.items|)
        invariant forall j :: from <= j < p ==> !Shown(cmp, iter.items, sequence, j)
        invariant p < |iter.items| ==> Passing(cmp, iter.items, sequence, p, from, skipping, skip)
        decreases |iter.items| - p
      {
        var parsed := ParseKey();
        if parsed.Some? && parsed.value.sequence <= sequence {
          var user := parsed.value.user;
          match parsed.value.kind {
            case Deletion =>
              PassDeletion(cmp, iter.items, sequence, p, from, skipping, skip);
              skip, skipping := user, true;
            case Value =>
              if skipping && cmp(user, skip) <= 0 {
                PassHidden(cmp, iter.items, sequence, p, from, skipping, skip);
              } else {
                ShowsHere(cmp, iter.items, sequence, p, from, skipping, skip);
                valid, savedKey, current := true, [], Some(p);
                return;
              }
          }
        } else {
          PassInvisible(cmp, iter.items, sequence, p, from, skipping, skip);
        }
        iter.Next();
        p := p + 1;
      }
      savedKey, valid, current := [], false, None;
    }

    method Next()
      requires Sound() && valid
      modifies this, iter
      ensures Sound() && FirstShown(cmp, iter.items, sequence, old(current).value + 1, current)
    {
      hide Ordered, Ascending, Passing;
      ghost var c := current.value;
      if direction == Reverse {
        direction := Forward;
        if iter.pos == None {
          iter.SeekToFirst();
        } else {
          iter.Next();
        }
        if iter.pos == None {
          assert false;  // the entry that is shown is still ahead
        }
      } else {
        savedKey := UserOf(iter.items[iter.pos.value].key);
      }
      PassingCurrent(cmp, iter.items, sequence, iter.pos.value, c);
      FindNextUserEntry(true, savedKey, c + 1);
    }

    method Seek(target: seq<Byte>)
      requires Ready() && sequence <= MAX_SEQUENCE
      modifies this, iter
      ensures Sound()
      ensures current.Some? ==> cmp(UserAt(iter.items, current.value), target) >= 0
      ensures forall i ::
                0 <= i < |iter.items| && cmp(UserAt(iter.items, i), target) >= 0 &&
                Shown(cmp, iter.items, sequence, i) ==>
                current.Some? && current.value <= i
    {
      direction, savedValue := Forward, [];
      savedKey := InternalKey(target, sequence, KIND_FOR_SEEK);
      iter.Seek(cmp, savedKey);
      ghost var p := if iter.pos.Some? then iter.pos.value else |iter.items|;
      SoughtBefore(cmp, iter.items, sequence, target, p);
      hide Ordered, Ascending, Passing, InternalKey, Shown;
      if iter.pos.Some? {
        PassingSought(cmp, iter.items, sequence, target, p);
        FindNextUserEntry(false, savedKey, p);
      } else {
        valid, current := false, None;
      }
    }

    method SeekToFirst()
      requires Ready()
      modifies this, iter
      ensures Sound() && FirstShown(cmp, iter.items, sequence, 0, current)
    {
      hide Ordered, Ascending;
      direction, savedValue := Forward, [];
      iter.SeekToFirst();
      if iter.pos.Some? {
        FindNextUserEntry(false, savedKey, 0);
      } else {
        valid, current := false, None;
      }
    }

    method Prev()
      requires Sound() && valid
      modifies this, iter
      ensures Sound() && LastShown(cmp, iter.items, sequence, old(current).value, current)
    {
      hide Ordered, Ascending;
      ghost var c := current.value;
      if direction == Forward {
        savedKey := UserOf(iter.items[iter.pos.value].key);
        while true
          invariant Ready() && iter.pos.Some? && iter.pos.value <= c && direction == Forward &&
                    savedKey == UserAt(iter.items, c)
          invariant forall j :: iter.pos.value <= j < c ==> cmp(UserAt(iter.items, j), savedKey) >= 0
          decreases iter.pos.value
        {
          ghost var p := iter.pos.value;
          iter.Prev();
          if iter.pos == None {
            NoneShownWithin(cmp, iter.items, sequence, 0, c);
            valid, savedKey, savedValue, current := false, [], [], None;
            return;
          }
          if cmp(UserOf(iter.items[iter.pos.value].key), savedKey) < 0 {
            NoneShownWithin(cmp, iter.items, sequence, p, c);
            break;
          }
        }
        direction := Reverse;
      }
      FindPrevUserEntry(c);
    }

    method SeekToLast()
      requires Ready()
      modifies this, iter
      ensures Sound() && LastShown(cmp, iter.items, sequence, |iter.items|, current)
    {
      direction, savedValue := Reverse, [];
      iter.SeekToLast();
      FindPrevUserEntry(|iter.items|);
    }

    /** Moves back to the last shown entry before `upto`. */
    method FindPrevUserEntry(ghost upto: nat)
      requires Ready() && direction == Reverse
      requires Searching(cmp, iter.items, sequence, Remaining(), upto, Deletion, 0)
      modifies this, iter
      ensures Sound() && LastShown(cmp, iter.items, sequence, upto, current)
    {
      hide Ordered, Ascending, Shown, Searching, LastShown;
      var kind;
      ghost var b;
      kind, b := SearchBack(upto);
      SearchDone(cmp, iter.items, sequence, Remaining(), upto, kind, b);
      if kind == Deletion {
        valid, savedKey, savedValue, direction, current := false, [], [], Forward, None;
      } else {
        valid, current := true, Some(b);
      }
    }

    /** The loop: what is saved when it ends is entry b. */
    method SearchBack(ghost upto: nat) returns (kind: Kind, ghost b: nat)
      requires Ready() && direction == Reverse
      requires Searching(cmp, iter.items, sequence, Remaining(), upto, Deletion, 0)
      modifies this, iter
      ensures Ready() && direction == Reverse && Searching(cmp, iter.items, sequence, Remaining(), upto, kind, b)
      ensures iter.pos == None || (kind == Value && Shown(cmp, iter.items, sequence, b))
      ensures kind == Value ==>
                b < |iter.items| && savedKey == UserAt(iter.items, b) && savedValue == iter.items[b].value
    {
      hide Ordered, Ascending, Shown, Searching;
      kind, b := Deletion, 0;
      if iter.pos.Some? {
        while iter.pos.Some?
          invariant Ready() && direction == Reverse
          invariant Searching(cmp, iter.items, sequence, Remaining(), upto, kind, b)
          invariant kind == Value ==>
                      b < |iter.items| && savedKey == UserAt(iter.items, b) && savedValue == iter.items[b].value
          decreases Remaining()
        {
          var parsed := ParseKey();
          ghost var p := iter.pos.value;
          if parsed.Some? && parsed.value.sequence <= sequence {
            if kind != Deletion && cmp(parsed.value.user, savedKey) < 0 {
              FoundBefore(cmp, iter.items, sequence, p, upto, b);
              break;
            }
            SearchVisible(cmp, iter.items, sequence, p, upto, kind, b);
            kind := parsed.value.kind;
            if kind == Deletion {
              savedKey, savedValue := [], [];
            } else {
              savedValue := iter.items[iter.pos.value].value;
              savedKey := UserOf(iter.items[iter.pos.value].key);
              b := p;
            }
          } else {
            SearchInvisible(cmp, iter.items, sequence, p, upto, kind, b);
          }
          iter.Prev();
        }
      }
    }

    /** How many entries the inner iterator has not gone past, on its way back. */
    ghost function Remaining(): nat
      reads this, iter
    {
      if iter.pos.Some? then iter.pos.value + 1 else 0
    }
  }

  // ----- The sequence the iterator moves over -----

  /** The shown entries among the first n, in order. */
  ghost function View(cmp: Comparator, items: seq<Item>, s: nat, n: nat): seq<nat>
    requires n <= |items|
  {
    if n == 0 then []
    else View(cmp, items, s, n - 1) + if Shown(cmp, items, s, n - 1) then [n - 1] else []
  }

  lemma {:induction false} ViewElements(cmp: Comparator, items: seq<Item>, s: nat, n: nat)
    requires n <= |items|
    ensures forall r :: 0 <= r < |View(cmp, items, s, n)| ==>
              View(cmp, items, s, n)[r] < n && Shown(cmp, items, s, View(cmp, items, s, n)[r])
    ensures forall i :: 0 <= i < n && Shown(cmp, items, s, i) ==> i in View(cmp, items, s, n)
    ensures forall q, r :: 0 <= q < r < |View(cmp, items, s, n)| ==>
              View(cmp, items, s, n)[q] < View(cmp, items, s, n)[r]
  {
    hide Shown;
    if n > 0 {
      ViewElements(cmp, items, s, n - 1);
    }
  }

  /** What is shown has strictly ascending user keys. */
  lemma ViewAscends(cmp: Comparator, items: seq<Item>, s: nat, q: nat, r: nat)
    requires Ordered(cmp) && Ascending(cmp, items) && q < r < |View(cmp, items, s, |items|)|
    ensures var view := View(cmp, items, s, |items|);
            && view[q] < |items| && view[r] < |items| && cmp(UserAt(items, view[q]), UserAt(items, view[r])) < 0
  {
    ViewElements(cmp, items, s, |items|);
    var view := View(cmp, items, s, |items|);
    UsersAscendTo(cmp, items, view[q], view[r]);
    assert Shown(cmp, items, s, view[q]) && Shown(cmp, items, s, view[r]);
  }

  /** Going on from a shown entry is one step along the sequence, and going back one step back. */
  lemma MovesAlongView(cmp: Comparator, items: seq<Item>, s: nat, r: nat, c: Option<nat>)
    requires r < |View(cmp, items, s, |items|)|
    ensures var view := View(cmp, items, s, |items|);
            && (FirstShown(cmp, items, s, view[r] + 1, c) ==> c == if r + 1 < |view| then Some(view[r + 1]) else None)
            && (LastShown(cmp, items, s, view[r], c) ==> c == if r > 0 then Some(view[r - 1]) else None)
  {
    hide View, FirstShown, LastShown;
    var view := View(cmp, items, s, |items|);
    if FirstShown(cmp, items, s, view[r] + 1, c) {
      NextInView(cmp, items, s, r, c);
    }
    if LastShown(cmp, items, s, view[r], c) {
      PreviousInView(cmp, items, s, r, c);
    }
  }

  lemma NextInView(cmp: Comparator, items: seq<Item>, s: nat, r: nat, c: Option<nat>)
    requires r < |View(cmp, items, s, |items|)|
    requires FirstShown(cmp, items, s, View(cmp, items, s, |items|)[r] + 1, c)
    ensures var view := View(cmp, items, s, |items|); c == if r + 1 < |view| then Some(view[r + 1]) else None
  {
    hide View, Shown;
    ViewElements(cmp, items, s, |items|);
    var view := View(cmp, items, s, |items|);
    var next := if r + 1 < |view| then Some(view[r + 1]) else None;
    assert next.Some? ==> Shown(cmp, items, s, next.value) && view[r] < next.value < |items|;
    if c.Some? {
      var q := PlaceInView(cmp, items, s, c.value);
      assert q > r;
    }
  }

  lemma PreviousInView(cmp: Comparator, items: seq<Item>, s: nat, r: nat, c: Option<nat>)
    requires r < |View(cmp, items, s, |items|)|
    requires LastShown(cmp, items, s, View(cmp, items, s, |items|)[r], c)
    ensures var view := View(cmp, items, s, |items|); c == if r > 0 then Some(view[r - 1]) else None
  {
    hide View, Shown;
    ViewElements(cmp, items, s, |items|);
    var view := View(cmp, items, s, |items|);
    var previous := if r > 0 then Some(view[r - 1]) else None;
    assert previous.Some? ==> Shown(cmp, items, s, previous.value) && previous.value < view[r];
    if c.Some? {
      var q := PlaceInView(cmp, items, s, c.value);
      assert q < r;
    }
  }

  lemma PlaceInView(cmp: Comparator, items: seq<Item>, s: nat, i: nat) returns (q: nat)
    requires Shown(cmp, items, s, i)
    ensures q < |View(cmp, items, s, |items|)| && View(cmp, items, s, |items|)[q] == i
  {
    ShownInRange(cmp, items, s);
    hide View, Shown;
    ViewElements(cmp, items, s, |items|);
    q :| q < |View(cmp, items, s, |items|)| && View(cmp, items, s, |items|)[q] == i;
  }

  /** The ends of the sequence. */
  lemma EndsOfView(cmp: Comparator, items: seq<Item>, s: nat, c: Option<nat>)
    ensures var view := View(cmp, items, s, |items|);
            && (FirstShown(cmp, items, s, 0, c) ==> c == if view != [] then Some(view[0]) else None)
            && (LastShown(cmp, items, s, |items|, c) ==> c == if view != [] then Some(view[|view| - 1]) else None)
  {
    hide View, Shown;
    ViewElements(cmp, items, s, |items|);
    var view := View(cmp, items, s, |items|);
    assert view != [] ==> Shown(cmp, items, s, view[0]) && Shown(cmp, items, s, view[|view| - 1]);
    if c.Some? && Shown(cmp, items, s, c.value) {
      var q := PlaceInView(cmp, items, s, c.value);
    }
  }

  lemma ShownInRange(cmp: Comparator, items: seq<Item>, s: nat)
    ensures forall i: nat :: Shown(cmp, items, s, i) ==> i < |items|
  {
  }

  /** What is shown for a user key is exactly what a reader at that sequence number finds. */
  lemma ViewIsTheMap(cmp: Comparator, items: seq<Item>, s: nat, user: seq<Byte>, v: seq<Byte>)
    requires Ordered(cmp) && Ascending(cmp, items) && CM.AllGood(items) && CM.Distinct(cmp, CM.Entries(items))
    ensures CM.Read(cmp, CM.Entries(items), user, s) == Some(v) <==>
            exists i: nat :: Shown(cmp, items, s, i) && cmp(UserAt(items, i), user) == 0 && items[i].value == v
  {
    ShownInRange(cmp, items, s);
    hide Ordered, Ascending, Shown, CM.Read, CM.Distinct, CM.AllGood, UserAt;
    if i: nat :| Shown(cmp, items, s, i) && cmp(UserAt(items, i), user) == 0 {
      ShownIsRead(cmp, items, s, i, user);
      forall j: nat | Shown(cmp, items, s, j) && cmp(UserAt(items, j), user) == 0 ensures j == i {
        ShownOnce(cmp, items, s, i, j, user);
      }
    } else if CM.Read(cmp, CM.Entries(items), user, s) == Some(v) {
      ReadIsShown(cmp, items, s, user, v);
    }
  }

  lemma ShownOnce(cmp: Comparator, items: seq<Item>, s: nat, i: nat, j: nat, user: seq<Byte>)
    requires Ordered(cmp) && Shown(cmp, items, s, i) && Shown(cmp, items, s, j)
    requires cmp(UserAt(items, i), user) == 0 && cmp(UserAt(items, j), user) == 0
    ensures i == j
  {
    var a, b := UserAt(items, i), UserAt(items, j);
    hide Ordered;
    CM.Flip(cmp, a, user);
    CM.Flip(cmp, b, user);
    CM.Transfer(cmp, a, user, b);
    CM.Transfer(cmp, b, user, a);
  }

  /** A shown entry is the latest one for its user key. */
  lemma ShownIsRead(cmp: Comparator, items: seq<Item>, s: nat, i: nat, user: seq<Byte>)
    requires Ordered(cmp) && Ascending(cmp, items) && CM.AllGood(items) && CM.Distinct(cmp, CM.Entries(items))
    requires Shown(cmp, items, s, i) && cmp(UserAt(items, i), user) == 0
    ensures CM.Read(cmp, CM.Entries(items), user, s) == Some(items[i].value)
  {
    var e := CM.EntryOf(items[i]);
    assert items[i] in items && e in CM.Entries(items);
    CM.PartsOf(items[i]);
    assert M.Visible(cmp, e, user, s) && e.kind == Value && e.value == items[i].value;
    hide Ordered, Ascending, Shown, CM.Distinct, CM.EntryOf;
    forall f | f in CM.Entries(items) && M.Visible(cmp, f, user, s) ensures f.sequence <= e.sequence {
      var item :| item in items && CM.EntryOf(item) == f;
      var j :| 0 <= j < |items| && items[j] == item;
      EntryIsVisible(cmp, items, s, j, user);
      VisibleIsLater(cmp, items, s, i, j, user);
    }
    CM.ReadIs(cmp, CM.Entries(items), user, s, e);
  }

  lemma EntryIsVisible(cmp: Comparator, items: seq<Item>, s: nat, j: nat, user: seq<Byte>)
    requires j < |items| && items[j].Parsed().Some? && M.Visible(cmp, CM.EntryOf(items[j]), user, s)
    ensures VisibleAt(items, s, j) && cmp(UserAt(items, j), user) == 0
  {
  }

  lemma VisibleIsLater(cmp: Comparator, items: seq<Item>, s: nat, i: nat, j: nat, user: seq<Byte>)
    requires Ordered(cmp) && Ascending(cmp, items) && CM.AllGood(items) && j < |items|
    requires Shown(cmp, items, s, i) && cmp(UserAt(items, i), user) == 0
    requires VisibleAt(items, s, j) && cmp(UserAt(items, j), user) == 0
    ensures CM.EntryOf(items[j]).sequence <= CM.EntryOf(items[i]).sequence
  {
    assert items[i] in items && items[j] in items;
    CM.PartsOf(items[i]);
    CM.PartsOf(items[j]);
    CM.Flip(cmp, UserAt(items, i), user);
    CM.Transfer(cmp, UserAt(items, j), user, UserAt(items, i));
    CM.Flip(cmp, UserAt(items, j), UserAt(items, i));
    assert i <= j;
    hide Shown, Ascending, Ordered;
    CM.Descends(cmp, items, i, j, j);
  }

  lemma ReadIsShown(cmp: Comparator, items: seq<Item>, s: nat, user: seq<Byte>, v: seq<Byte>)
    requires Ordered(cmp) && Ascending(cmp, items) && CM.AllGood(items) && CM.Distinct(cmp, CM.Entries(items))
    requires CM.Read(cmp, CM.Entries(items), user, s) == Some(v)
    ensures exists i: nat :: Shown(cmp, items, s, i) && cmp(UserAt(items, i), user) == 0
  {
    var e :| CM.Latest(cmp, CM.Entries(items), user, s, e) && e.kind == Value;
    var item :| item in items && CM.EntryOf(item) == e;
    var i :| 0 <= i < |items| && items[i] == item;
    CM.PartsOf(items[i]);
    forall j | 0 <= j < i && VisibleAt(items, s, j) ensures cmp(UserAt(items, j), UserAt(items, i)) != 0 {
      if cmp(UserAt(items, j), UserAt(items, i)) == 0 {
        EarlierIsNewer(cmp, items, s, i, j, user);
      }
    }
    assert Shown(cmp, items, s, i);
  }

  lemma EarlierIsNewer(cmp: Comparator, items: seq<Item>, s: nat, i: nat, j: nat, user: seq<Byte>)
    requires Ordered(cmp) && Ascending(cmp, items) && CM.AllGood(items) && CM.Distinct(cmp, CM.Entries(items))
    requires j < i < |items| && VisibleAt(items, s, j) && cmp(UserAt(items, j), UserAt(items, i)) == 0
    requires cmp(UserAt(items, i), user) == 0
    ensures CM.EntryOf(items[j]) in CM.Entries(items) && M.Visible(cmp, CM.EntryOf(items[j]), user, s)
    ensures CM.EntryOf(items[j]).sequence > CM.EntryOf(items[i]).sequence
  {
    assert items[i] in items && items[j] in items;
    CM.PartsOf(items[i]);
    CM.PartsOf(items[j]);
    hide Ordered, Ascending;
    CM.Transfer(cmp, UserAt(items, j), UserAt(items, i), user);
    CM.Descends(cmp, items, j, i, i);
    CM.NotSame(cmp, items, j, i);
  }
}

/** The list of live snapshots. */
module Snapshots {

  class SnapshotImpl {
    const number: nat
    var prev: SnapshotImpl?
    var next: SnapshotImpl?

    constructor (number: nat)
      ensures this.number == number
    {
      this.number, prev, next := number, null, null;
    }
  }

  /** A circular doubly linked list with a dummy head. */
  class SnapshotList {
    const head: SnapshotImpl
    /** The head and the live snapshots, as the links run. */
    ghost var ring: seq<SnapshotImpl>

    ghost predicate Valid()
      reads this, ring
    {
      && ring != [] && ring[0] == head
      && (forall i, j :: 0 <= i < j < |ring| ==> ring[i] != ring[j])
      && (forall i, j :: 0 <= i < |ring| && j == i + 1 && j < |ring| ==>
          ring[i].next == ring[j] && ring[j].prev == ring[i])
      && ring[|ring| - 1].next == head && head.prev == ring[|ring| - 1]
    }

    /** The sequence numbers of the live snapshots, in the order they were taken. */
    ghost function Numbers(): (s: seq<nat>)
      requires ring != []
      reads this
      ensures |s| + 1 == |ring| && forall i :: 0 <= i < |s| ==> s[i] == ring[i + 1].number
    {
      var r := ring;
      seq(|r| - 1, i requires 0 <= i < |r| - 1 => r[i + 1].number)
    }

    constructor ()
      ensures Valid() && Numbers() == [] && fresh(ring)
    {
      head := new SnapshotImpl(0);
      new;
      ring := [head];
      head.prev := head;
      head.next := head;
    }

    predicate Empty()
      requires Valid()
      reads this, ring
      ensures Empty() <==> Numbers() == []
    {
      assert |ring| > 1 ==> ring[0].next == ring[1];
      head.next == head
    }

    method Oldest() returns (s: SnapshotImpl)
      requires Valid() && Numbers() != []
      ensures s == ring[1] && s.number == Numbers()[0]
    {
      assert ring[0].next == ring[1];
      s := head.next;
    }

    method Newest() returns (s: SnapshotImpl)
      requires Valid() && Numbers() != []
      ensures s == ring[|ring| - 1] && s.number == Numbers()[|Numbers()| - 1]
    {
      s := head.prev;
    }

    method New(number: nat) returns (s: SnapshotImpl)
      requires Valid()
      modifies this, ring
      ensures Valid() && fresh(s) && s.number == number && ring == old(ring) + [s]
      ensures Numbers() == old(Numbers()) + [number]
    {
      s := new SnapshotImpl(number);
      s.next := head;
      s.prev := head.prev;
      s.prev.next := s;
      s.next.prev := s;
      ring := ring + [s];
    }

    method Delete(s: SnapshotImpl, ghost i: nat)
      requires Valid() && 0 < i < |ring| && ring[i] == s
      modifies this, ring
      ensures Valid() && ring == old(ring)[..i] + old(ring)[i + 1..]
      ensures Numbers() == old(Numbers())[..i - 1] + old(Numbers())[i..]
    {
      ghost var was := ring;
      assert ring[i - 1].next == ring[i] && ring[i].prev == ring[i - 1];
      assert i + 1 < |ring| ==> ring[i].next == ring[i + 1] && ring[i + 1].prev == ring[i];
      s.prev.next := s.next;
      s.next.prev := s.prev;
      ring := ring[..i] + ring[i + 1..];
      forall j, k | 0 <= j < |ring| && k == j + 1 && k < |ring|
        ensures ring[j].next == ring[k] && ring[k].prev == ring[j]
      {
        var a, b := if j < i then j else j + 1, if k < i then k else k + 1;
        assert ring[j] == was[a] && ring[k] == was[b];
        assert j != i - 1 ==> old(was[a].next) == was[b] && old(was[b].prev) == was[a];
      }
    }
  }
}

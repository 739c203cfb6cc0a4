/** Pipes: a ring buffer with a status flag, shared by readers and writers that take the lock for one round at a
    time and yield in between. */
module Pipes {
  import opened Bytes

  datatype RingBufferStatus = FULL | EMPTY | NORMAL

  /** The place behind x in the ring. */
  ghost function Next(x: nat): (y: nat)
    requires x < 32
    ensures y < 32
  {
    if x == 31 then 0 else x + 1
  }

  lemma {:induction false} Wraps(x: nat)
    requires x < 32
    ensures (x + 1) % 32 == Next(x)
  {
  }

  /** Place i counted from head. */
  ghost function Place(head: nat, i: nat): (p: nat)
    requires head < 32 && i < 32
    ensures p < 32
  {
    if head + i < 32 then head + i else head + i - 32
  }

  lemma {:induction false} Places(head: nat, i: nat, j: nat)
    requires head < 32 && i < j < 32
    ensures Place(head, i) != Place(head, j)
  {
  }

  lemma {:induction false} PlaceNext(head: nat, i: nat)
    requires head < 32 && i < 31
    ensures Place(Next(head), i) == Place(head, i + 1) && Place(head, 0) == head
  {
  }

  /** How many bytes lie between head and tail when the ring is neither known to be empty nor full. */
  function Distance(head: nat, tail: nat): nat
    requires head < 32 && tail < 32
  {
    if tail > head then tail - head else tail + 32 - head
  }

  lemma {:induction false} DistanceSteps(head: nat, tail: nat)
    requires head < 32 && tail < 32
    ensures Distance(head, tail) < 32 ==> Place(head, Distance(head, tail)) == tail
    ensures Next(tail) != head && head != tail ==> Distance(head, Next(tail)) == Distance(head, tail) + 1
    ensures Next(tail) == head && head != tail ==> Distance(head, tail) == 31
    ensures Next(head) != tail && head != tail ==> Distance(Next(head), tail) == Distance(head, tail) - 1
    ensures Next(head) == tail ==> Distance(head, tail) == 1
    ensures head == tail ==> Distance(head, Next(tail)) == 1 && Distance(Next(head), tail) == 31
  {
  }

  class PipeRingBuffer {
    const arr: array<byte>
    var head: nat
    var tail: nat
    var status: RingBufferStatus
    ghost var contents: seq<byte>

    /** How full the ring is follows from head, tail and status alone. */
    ghost predicate Counted()
      reads this
    {
      && head < 32 && tail < 32 && |contents| <= 32
      && (status == EMPTY ==> contents == [] && head == tail)
      && (status == FULL ==> |contents| == 32 && head == tail)
      && (status == NORMAL ==> head != tail && |contents| == Distance(head, tail))
    }

    ghost predicate Valid()
      reads this, arr
    {
      && arr.Length == 32 && Counted()
      && forall i :: 0 <= i < |contents| ==> contents[i] == arr[Place(head, i)]
    }

    constructor ()
      ensures Valid() && contents == [] && fresh(arr)
    {
      arr := new byte[32](_ => 0);
      head, tail, status, contents := 0, 0, EMPTY, [];
    }

    function AvailableRead(): (n: nat)
      requires Counted()
      reads this
      ensures n == |contents|
    {
      DistanceSteps(head, tail);
      if status == EMPTY then 0
      else if tail > head then tail - head else tail + 32 - head
    }

    /** What can be read and what can be written always add up to the size of the ring. */
    function AvailableWrite(): (n: nat)
      requires Counted()
      reads this
      ensures n + AvailableRead() == 32
    {
      if status == FULL then 0 else 32 - AvailableRead()
    }

    method WriteByte(b: byte)
      requires Valid() && |contents| < 32
      modifies this, arr
      ensures Valid() && contents == old(contents) + [b]
    {
      DistanceSteps(head, tail);
      assert Place(head, |contents|) == tail;
      forall i | 0 <= i < |contents| ensures Place(head, i) != tail {
        Places(head, i, |contents|);
      }
      Wraps(tail);
      status := NORMAL;
      arr[tail] := b;
      tail := (tail + 1) % 32;
      if tail == head {
        status := FULL;
      }
      contents := contents + [b];
    }

    method ReadByte() returns (c: byte)
      requires Valid() && |contents| > 0
      modifies this
      ensures Valid() && [c] + contents == old(contents)
    {
      DistanceSteps(head, tail);
      forall i | 0 <= i < |contents| - 1 ensures contents[i + 1] == arr[Place(Next(head), i)] {
        PlaceNext(head, i);
      }
      assert contents[0] == arr[Place(head, 0)];
      Wraps(head);
      status := NORMAL;
      c := arr[head];
      head := (head + 1) % 32;
      if head == tail {
        status := EMPTY;
      }
      contents := contents[1..];
    }
  }
}

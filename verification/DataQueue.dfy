/** rt_data_queue: a ring of slots behind two 16-bit counters, as a first-in first-out queue. */
module DataQueue {
  import opened Options
  import opened Arith

  /** rt_data_queue without its waiting threads; pointers and sizes are one value. */
  class Queue {
    const slots: array<int>
    var put: nat
    var get: nat

    /** rt_data_queue_init. */
    constructor (size: nat)
      requires 0 < size < 0x1_0000
      ensures Valid() && Contents() == [] && put == 0 && slots.Length == size && fresh(slots)
    {
      slots := new int[size];
      put, get := 0, 0;
    }

    /** Neither counter has wrapped: there were fewer than 65536 pushes. */
    predicate Valid()
      reads this
    {
      0 < slots.Length < 0x1_0000 && get <= put < 0x1_0000 && put - get <= slots.Length
    }

    /** The queued items, oldest first. */
    ghost function Contents(): (s: seq<int>)
      requires Valid()
      reads this, slots
      ensures |s| == put - get
    {
      Items(slots[..], get, put)
    }

    /** rt_data_queue_push without waiting: refused when full. */
    method Push(x: int) returns (ok: bool)
      requires Valid() && put < 0xffff
      modifies this`put, slots
      ensures Valid() && ok == (|old(Contents())| < slots.Length)
      ensures Contents() == if ok then old(Contents()) + [x] else old(Contents())
      ensures put == if ok then old(put) + 1 else old(put)
    {
      if put - get == slots.Length {
        return false;
      }
      ghost var before := slots[..];
      slots[put % slots.Length] := x;
      assert slots[..] == before[put % slots.Length := x];
      PushItems(before, get, put, x);
      put := put + 1;
      ok := true;
    }

    /** rt_data_queue_pop without waiting. */
    method Pop() returns (r: Option<int>)
      requires Valid()
      modifies this`get
      ensures Valid()
      ensures old(Contents()) == [] ==> r == None && Contents() == []
      ensures old(Contents()) != [] ==> r == Some(old(Contents())[0]) && Contents() == old(Contents())[1..]
    {
      if get == put {
        return None;
      }
      PopItems(slots[..], get, put);
      r := Some(slots[get % slots.Length]);
      get := get + 1;
    }

    /** rt_data_queue_peak. */
    method Peak() returns (r: Option<int>)
      requires Valid()
      ensures r == if Contents() == [] then None else Some(Contents()[0])
    {
      if get == put {
        return None;
      }
      PopItems(slots[..], get, put);
      r := Some(slots[get % slots.Length]);
    }
  }

  /** The items at counters `get` to `put` - 1. */
  function Items(slots: seq<int>, get: nat, put: nat): (s: seq<int>)
    requires |slots| > 0 && get <= put
    ensures |s| == put - get
    decreases put
  {
    if get == put then [] else Items(slots, get, put - 1) + [slots[(put - 1) % |slots|]]
  }

  lemma {:induction false} PopItems(slots: seq<int>, get: nat, put: nat)
    requires |slots| > 0 && get < put
    ensures Items(slots, get, put) == [slots[get % |slots|]] + Items(slots, get + 1, put)
    decreases put
  {
    if get < put - 1 {
      PopItems(slots, get, put - 1);
    }
  }

  /** While there is room, the new slot is none of the queued ones. */
  lemma {:induction false} OtherSlots(slots: seq<int>, get: nat, put: nat, at: nat, x: int)
    requires |slots| > 0 && get <= put <= at < get + |slots|
    ensures Items(slots[at % |slots| := x], get, put) == Items(slots, get, put)
    decreases put
  {
    if get < put {
      OtherSlots(slots, get, put - 1, at, x);
      DifferentSlots(put - 1, at, |slots|);
    }
  }

  lemma PushItems(slots: seq<int>, get: nat, put: nat, x: int)
    requires |slots| > 0 && get <= put < get + |slots|
    ensures Items(slots[put % |slots| := x], get, put + 1) == Items(slots, get, put) + [x]
  {
    OtherSlots(slots, get, put, put, x);
  }

  /** Counters less than a ring apart use different slots. */
  lemma DifferentSlots(i: nat, j: nat, n: nat)
    requires 0 < n && i < j < i + n
    ensures i % n != j % n
  {
    var p, q := i / n, j / n;
    assert i == n * p + i % n && j == n * q + j % n;
    if i % n == j % n {
      assert j - i == n * (q - p) by { Difference(n, p, q); }
      if q <= p {
        MulMonotone(n, q - p, 0);
      } else {
        MulMonotone(n, 1, q - p);
      }
    }
  }

  lemma Difference(n: int, p: int, q: int)
    ensures n * q - n * p == n * (q - p)
  {}
}

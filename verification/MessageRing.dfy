/** The ring buffer of k_msgq_t in kernel/scheduler.c: its contents, and the masked copies on its bytes. */
module MessageRing {
  import opened Bytes
  import opened Multiplication

  function Wrap(x: nat, cap: nat): (r: nat)
    requires x < cap + cap
    ensures r < cap || x < cap
  {
    if x < cap then x else x - cap
  }

  lemma WrapIsMod(x: nat, cap: nat)
    requires x < cap
    ensures (x + 1) % cap == Wrap(x + 1, cap)
  {
  }

  predicate RingOk<T>(slots: seq<T>, head: nat, tail: nat, count: nat) {
    && count <= |slots|
    && if |slots| == 0 then head == tail == 0 else head < |slots| && tail == Wrap(head + count, |slots|)
  }

  /** The stored items, oldest first. */
  function Contents<T>(slots: seq<T>, head: nat, count: nat): seq<T>
    requires count <= |slots| && (|slots| > 0 ==> head < |slots|)
  {
    seq(count, i requires 0 <= i < count => slots[Wrap(head + i, |slots|)])
  }

  /** An item copied to the tail is appended. */
  lemma PutContents<T>(slots: seq<T>, head: nat, tail: nat, count: nat, x: T)
    requires RingOk(slots, head, tail, count) && count < |slots|
    ensures RingOk(slots[tail := x], head, (tail + 1) % |slots|, count + 1)
    ensures Contents(slots[tail := x], head, count + 1) == Contents(slots, head, count) + [x]
  {
    WrapIsMod(tail, |slots|);
    var a, b := Contents(slots[tail := x], head, count + 1), Contents(slots, head, count) + [x];
    forall i | 0 <= i < count + 1 ensures a[i] == b[i] {
      assert i < count ==> Wrap(head + i, |slots|) != tail;
    }
    assert a == b;
  }

  /** The item copied from the head is the oldest. */
  lemma TakeContents<T>(slots: seq<T>, head: nat, tail: nat, count: nat)
    requires RingOk(slots, head, tail, count) && count > 0
    ensures RingOk(slots, (head + 1) % |slots|, tail, count - 1)
    ensures [slots[head]] + Contents(slots, (head + 1) % |slots|, count - 1) == Contents(slots, head, count)
  {
    WrapIsMod(head, |slots|);
    var next := Wrap(head + 1, |slots|);
    var a, b := [slots[head]] + Contents(slots, next, count - 1), Contents(slots, head, count);
    forall i | 0 <= i < count ensures a[i] == b[i] {
      assert b[i] == slots[Wrap(head + i, |slots|)];
      if i > 0 {
        assert a[i] == Contents(slots, next, count - 1)[i - 1] == slots[Wrap(next + (i - 1), |slots|)];
      }
    }
    assert a == b;
  }

  class Buffer {
    const buf: array<byte>
    const itemSize: nat
    const capacity: nat
    var head: nat
    var tail: nat
    var count: nat

    ghost predicate Shape() {
      buf.Length == itemSize * capacity
    }

    static lemma SlotFits(k: nat, size: nat, cap: nat)
      requires k < cap
      ensures k * size <= (k + 1) * size <= cap * size
      ensures (k + 1) * size == k * size + size
    {
      MulLe(k + 1, cap, size);
    }

    /** The bytes of slot k. */
    ghost function Slot(k: nat): (s: seq<byte>)
      requires Shape() && k < capacity
      reads buf
      ensures |s| == itemSize
    {
      SlotFits(k, itemSize, capacity);
      buf[k * itemSize..k * itemSize + itemSize]
    }

    ghost function Slots(): (s: seq<seq<byte>>)
      requires Shape()
      reads buf
      ensures |s| == capacity
    {
      seq(capacity, k requires 0 <= k < capacity && Shape() reads buf => Slot(k))
    }

    ghost predicate Valid()
      reads this, buf
    {
      Shape() && RingOk(Slots(), head, tail, count)
    }

    ghost function Items(): seq<seq<byte>>
      requires Valid()
      reads this, buf
    {
      Contents(Slots(), head, count)
    }

    /** The ring part of k_msgq_init over a buffer of cap items of size bytes. */
    constructor (b: array<byte>, size: nat, cap: nat)
      requires b.Length == size * cap
      ensures Valid() && buf == b && itemSize == size && capacity == cap && Items() == []
    {
      buf, itemSize, capacity, head, tail, count := b, size, cap, 0, 0, 0;
    }

    /** memcpy of an item into slot t. */
    method WriteSlot(t: nat, item: seq<byte>)
      requires Shape() && |item| == itemSize && t < capacity
      modifies buf
      ensures Slots() == old(Slots())[t := item]
    {
      ghost var slots := Slots();
      SlotFits(t, itemSize, capacity);
      var at := t * itemSize;
      forall k | 0 <= k < itemSize {
        buf[at + k] := item[k];
      }
      forall k: nat | k < capacity ensures Slot(k) == slots[t := item][k] {
        SlotsApart(k, t, itemSize, capacity);
      }
    }

    /** Distinct slots share no byte. */
    static lemma SlotsApart(k: nat, t: nat, size: nat, cap: nat)
      requires k < cap && t < cap
      ensures k * size + size <= cap * size && t * size + size <= cap * size
      ensures k < t ==> k * size + size <= t * size
      ensures t < k ==> t * size + size <= k * size
    {
      SlotFits(k, size, cap);
      SlotFits(t, size, cap);
      if k < t {
        MulLe(k + 1, t, size);
      } else if t < k {
        MulLe(t + 1, k, size);
      }
    }

    /** The masked copy of k_msgq_send; a permit guarantees the free slot. */
    method CopyIn(item: seq<byte>)
      requires Valid() && |item| == itemSize && count < capacity
      modifies this`tail, this`count, buf
      ensures Valid() && Slots() == old(Slots())[old(tail) := item] && tail == (old(tail) + 1) % capacity &&
              count == old(count) + 1
      ensures Items() == old(Items()) + [item]
    {
      PutContents(Slots(), head, tail, count, item);
      WriteSlot(tail, item);
      tail := (tail + 1) % capacity;
      count := count + 1;
    }

    /** The masked copy of k_msgq_recv; a permit guarantees the item. */
    method CopyOut() returns (item: seq<byte>)
      requires Valid() && count > 0
      modifies this`head, this`count
      ensures Valid() && item == old(Slots())[old(head)] && head == (old(head) + 1) % capacity &&
              count == old(count) - 1
      ensures [item] + Items() == old(Items())
    {
      TakeContents(Slots(), head, tail, count);
      SlotFits(head, itemSize, capacity);
      item := buf[head * itemSize..head * itemSize + itemSize];
      head := (head + 1) % capacity;
      count := count - 1;
    }
  }
}

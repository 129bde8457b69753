/** src/ring.c: a circular packet buffer that overwrites its oldest entry when full. */
module Ring {
  import opened Bytes
  import opened Circular

  const DEFAULT_CAPACITY: nat := 64
  const MAX_PKT_SIZE: nat := 2048

  /** A slot's storage keeps its full size; only the first `len` bytes belong to the packet. */
  datatype Slot = Slot(data: seq<byte>, len: nat, timestamp: nat)

  datatype Packet = Packet(data: seq<byte>, timestamp: nat)

  predicate Holds(s: Slot, p: Packet) {
    |s.data| == MAX_PKT_SIZE && s.len == |p.data| <= MAX_PKT_SIZE && s.data[..s.len] == p.data && s.timestamp == p.timestamp
  }

  class RingBuf {
    const entries: array<Slot>
    var head: nat
    var tail: nat
    var count: nat
    var dropped: nat
    /** All packets ever accepted, in order, and how many were popped. */
    ghost var pushed: seq<Packet>
    ghost var pops: nat

    /** The ring holds exactly the last `count` accepted packets, oldest first from the tail. */
    ghost predicate Valid()
      reads this, entries
    {
      var n := entries.Length;
      && head < n && tail < n && count <= n && head == Ahead(tail, count, n)
      && |pushed| == pops + dropped + count
      && (forall i :: 0 <= i < n ==> |entries[i].data| == MAX_PKT_SIZE)
      && (forall i :: 0 <= i < count ==> HeldAt(i))
    }

    /** The packet i places after the oldest one held is where it should be. */
    ghost predicate HeldAt(i: nat)
      requires tail < entries.Length && i < count <= entries.Length && count <= |pushed|
      reads this, entries
    {
      Holds(entries[Ahead(tail, i, entries.Length)], pushed[|pushed| - count + i])
    }

    /** Written out: the head is count places behind the tail, every accepted packet was popped, dropped
        or is held, and those held are the last ones, in order, with their lengths, bytes and times. */
    lemma {:induction false} HeldAre()
      requires Valid()
      ensures head == (tail + count) % entries.Length && |pushed| == pops + dropped + count
      ensures forall i :: 0 <= i < count ==>
        var s, p := entries[Ahead(tail, i, entries.Length)], pushed[pops + dropped + i];
        s.len == |p.data| <= |s.data| && s.data[..s.len] == p.data && s.timestamp == p.timestamp
    {
      AheadIs(tail, count, entries.Length);
      hide Ahead;
      forall i | 0 <= i < count
        ensures var s, p := entries[Ahead(tail, i, entries.Length)], pushed[pops + dropped + i];
          s.len == |p.data| <= |s.data| && s.data[..s.len] == p.data && s.timestamp == p.timestamp
      {
        assert HeldAt(i);
      }
    }

    constructor (capacity: nat)
      ensures Valid() && fresh(entries) && pushed == [] && pops == dropped == count == 0
      ensures entries.Length == if capacity == 0 then 64 else capacity
    {
      var n := if capacity == 0 then DEFAULT_CAPACITY else capacity;
      entries := new Slot[n](_ => Slot(seq(MAX_PKT_SIZE, _ => 0), 0, 0));
      head, tail, count, dropped := 0, 0, 0, 0;
      pushed, pops := [], 0;
    }

    method Push(data: seq<byte>, timestamp: nat) returns (r: int)
      requires Valid()
      modifies this, entries
      ensures Valid() && pops == old(pops)
      ensures if |data| == 0 || |data| > 2048 then
          r == -1 && unchanged(this) && unchanged(entries)
        else
          && r == 0 && pushed == old(pushed) + [Packet(data, timestamp)]
          && (if old(count) == entries.Length then count == old(count) && dropped == old(dropped) + 1
              else count == old(count) + 1 && dropped == old(dropped))
    {
      if |data| == 0 || |data| > MAX_PKT_SIZE {
        return -1;
      }
      NextSlot(tail, entries.Length);
      NextSlot(head, entries.Length);
      ghost var skipped := if count == entries.Length then 1 else 0;
      if count == entries.Length {
        tail := (tail + 1) % entries.Length;
        dropped := dropped + 1;
      } else {
        count := count + 1;
      }
      var slot := entries[head];
      entries[head] := Slot(data + slot.data[|data|..], |data|, timestamp);
      pushed := pushed + [Packet(data, timestamp)];
      head := (head + 1) % entries.Length;
      forall i | 0 <= i < count ensures HeldAt(i) {
        if i < count - 1 {
          assert Ahead(tail, i, entries.Length) == old(Ahead(tail, i + skipped, entries.Length));
          assert old(HeldAt(i + skipped));
        }
      }
      hide HeldAt;
      return 0;
    }

    /** A pop hands out accepted packet number pops + dropped: the oldest one still held. */
    method Pop(dst: Slot) returns (r: int, dst': Slot)
      requires Valid()
      modifies this
      ensures Valid() && pushed == old(pushed) && dropped == old(dropped)
      ensures if old(count) == 0 then r == 1 && dst' == dst && unchanged(this)
        else r == 0 && Holds(dst', pushed[old(pops) + dropped]) && pops == old(pops) + 1 && count == old(count) - 1
    {
      if count == 0 {
        return 1, dst;
      }
      NextSlot(tail, entries.Length);
      assert HeldAt(0);
      dst' := entries[tail];
      tail := (tail + 1) % entries.Length;
      count := count - 1;
      pops := pops + 1;
      forall i | 0 <= i < count ensures HeldAt(i) { assert old(HeldAt(i + 1)); }
      r := 0;
    }

    /** The slot of the oldest packet, or -1 for a null pointer. */
    method Peek() returns (slot: int)
      requires Valid()
      ensures if count == 0 then slot == -1
        else 0 <= slot < entries.Length && Holds(entries[slot], pushed[pops + dropped])
    {
      if count == 0 {
        return -1;
      }
      assert HeldAt(0);
      return tail;
    }
  }
}

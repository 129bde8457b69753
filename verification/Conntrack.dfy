/** src/conntrack.c: a connection table with linear probing and reusable tombstones. */
module Conntrack {
  import opened Circular
  import opened Widths

  const DEFAULT_MAX_ENTRIES: nat := 1024

  datatype Key = Key(srcIp: bv32, dstIp: bv32, srcPort: bv16, dstPort: bv16, proto: bv8)

  datatype ConnState = New | Established | Closing | Closed

  datatype Entry = Entry(
    key: Key, state: ConnState,
    bytesFwd: nat, bytesRev: nat, pktsFwd: nat, pktsRev: nat,
    firstSeen: int, lastSeen: int)

  /** The contents of a table: its slots and the counter of active connections. */
  datatype Table = Table(slots: seq<Entry>, count: int)

  /** One call that can change a table; `now` is what the clock returns during the call. */
  datatype Op =
    | Packet(key: Key, len: nat, reverse: bool, now: int)
    | Sweep(timeout: int, now: int)

  const ZERO_KEY := Key(0, 0, 0, 0, 0)
  const ZERO_ENTRY := Entry(ZERO_KEY, New, 0, 0, 0, 0, 0, 0)

  // ---------- hashing and probe order ----------

  function Mix(k: Key): nat {
    var h: bv32 := k.srcIp ^ k.dstIp;
    var h: bv32 := h ^ ((k.srcPort as bv32 << 16) | k.dstPort as bv32);
    var h: bv32 := h ^ (k.proto as bv32);
    (h ^ (h >> 16)) as nat
  }

  /** The home slot of a key. The results below hold for any way of mixing the key's fields; the
      program uses Mix. */
  function ConnHash(mix: Key -> nat, k: Key, max: nat): (h: nat)
    requires 0 < max
    ensures h < max
  {
    mix(k) % max
  }

  // ---------- what a probe stops at ----------

  predicate Used(e: Entry) { e.firstSeen != 0 }

  predicate Live(e: Entry) { Used(e) && e.state != Closed }

  predicate Free(e: Entry) {
    e.state == Closed || (e.state == New && e.firstSeen == 0)
  }

  /** The three probes: by an update, by a lookup, and by a lookup that would give up at a gap. */
  datatype Goal = ForUpdate(key: Key) | ForLookup(key: Key) | ForLookupToGap(key: Key)

  predicate Stops(g: Goal, e: Entry) {
    match g
    case ForUpdate(k) => Free(e) || e.key == k
    case ForLookup(k) => Used(e) && e.key == k
    case ForLookupToGap(k) => !Used(e) || e.key == k
  }

  /** The number of steps from `home`, at least `d`, to the first slot the probe stops at; |s| if none. */
  function First(s: seq<Entry>, home: nat, g: Goal, d: nat): (r: nat)
    requires home < |s| && d <= |s|
    ensures d <= r <= |s|
    ensures r < |s| ==> Stops(g, s[Ahead(home, r, |s|)])
    ensures forall i :: 0 <= i < |s| && d <= Dist(home, i, |s|) < r ==> !Stops(g, s[i])
    decreases |s| - d
  {
    if d == |s| || Stops(g, s[Ahead(home, d, |s|)]) then d else First(s, home, g, d + 1)
  }

  function Probe(mix: Key -> nat, s: seq<Entry>, g: Goal): (r: nat)
    requires 0 < |s|
    ensures r <= |s|
  {
    First(s, ConnHash(mix, g.key, |s|), g, 0)
  }

  /** The slot where the probe stops. */
  function Slot(mix: Key -> nat, s: seq<Entry>, g: Goal): (i: nat)
    requires 0 < |s| && Probe(mix, s, g) < |s|
    ensures i < |s| && Stops(g, s[i])
    ensures Dist(ConnHash(mix, g.key, |s|), i, |s|) == Probe(mix, s, g)
  {
    Ahead(ConnHash(mix, g.key, |s|), Probe(mix, s, g), |s|)
  }

  // ---------- one call on the contents ----------

  function Fresh(p: Op): Entry
    requires p.Packet?
  {
    Entry(p.key, New,
      if p.reverse then 0 else p.len, if p.reverse then p.len else 0,
      if p.reverse then 0 else 1, if p.reverse then 1 else 0,
      p.now, p.now)
  }

  function Bumped(e: Entry, p: Op): Entry
    requires p.Packet?
  {
    var e := if p.reverse
      then e.(bytesRev := (e.bytesRev + p.len) % U64, pktsRev := (e.pktsRev + 1) % U32)
      else e.(bytesFwd := (e.bytesFwd + p.len) % U64, pktsFwd := (e.pktsFwd + 1) % U32);
    e.(lastSeen := p.now, state := if e.state == New then Established else e.state)
  }

  predicate Accepts(mix: Key -> nat, s: seq<Entry>, k: Key)
    requires 0 < |s|
  {
    Probe(mix, s, ForUpdate(k)) < |s|
  }

  /** What an accepted packet leaves in its slot, whichever branch it takes. */
  function Written(e: Entry, p: Op): Entry
    requires p.Packet?
  {
    if Free(e) then Fresh(p) else Bumped(e, p)
  }

  /** The slots after an accepted packet. */
  function Stored(mix: Key -> nat, s: seq<Entry>, p: Op): (s': seq<Entry>)
    requires 0 < |s| && p.Packet? && Accepts(mix, s, p.key)
    ensures |s'| == |s|
  {
    var i := Slot(mix, s, ForUpdate(p.key));
    s[i := Written(s[i], p)]
  }

  function Updated(mix: Key -> nat, t: Table, p: Op): Table
    requires 0 < |t.slots| && p.Packet?
  {
    if !Accepts(mix, t.slots, p.key) then t
    else
      var i := Slot(mix, t.slots, ForUpdate(p.key));
      Table(Stored(mix, t.slots, p), t.count + if Free(t.slots[i]) then 1 else 0)
  }

  predicate Stale(e: Entry, timeout: int, now: int) {
    Live(e) && now - e.lastSeen >= timeout
  }

  function AfterSweep(e: Entry, timeout: int, now: int): Entry {
    if Stale(e, timeout, now) then e.(state := Closed) else e
  }

  function Swept(s: seq<Entry>, timeout: int, now: int): (r: seq<Entry>)
    ensures |r| == |s|
  {
    seq(|s|, i requires 0 <= i < |s| => AfterSweep(s[i], timeout, now))
  }

  function Stales(s: seq<Entry>, timeout: int, now: int): nat {
    if s == [] then 0
    else Stales(s[..|s| - 1], timeout, now) + if Stale(s[|s| - 1], timeout, now) then 1 else 0
  }

  function Expired(t: Table, timeout: int, now: int): Table {
    Table(Swept(t.slots, timeout, now), t.count - Stales(t.slots, timeout, now))
  }

  /** The slots a sweep closes: live, and last seen at least the timeout ago. */
  predicate Due(e: Entry, timeout: int, now: int) {
    e.firstSeen != 0 && e.state != Closed && now - e.lastSeen >= timeout
  }

  ghost function DueSlots(s: seq<Entry>, timeout: int, now: int): set<nat> {
    set i: nat | i < |s| && Due(s[i], timeout, now)
  }

  /** A sweep closes exactly those, changes nothing else, and counts them. */
  lemma {:induction false} SweepIs(s: seq<Entry>, timeout: int, now: int)
    ensures forall i :: 0 <= i < |s| ==>
      Swept(s, timeout, now)[i] == if Due(s[i], timeout, now) then s[i].(state := Closed) else s[i]
    ensures Stales(s, timeout, now) == |DueSlots(s, timeout, now)|
  {
    if s != [] {
      var init, n := s[..|s| - 1], |s| - 1;
      SweepIs(init, timeout, now);
      assert DueSlots(s, timeout, now) == DueSlots(init, timeout, now) + if Due(s[n], timeout, now) then {n} else {};
    }
  }

  // ---------- the program ----------

  class ConnTable {
    const entries: array<Entry>
    var count: int

    ghost predicate Valid()
      reads this, entries
    {
      0 < entries.Length
    }

    ghost function Contents(): Table
      reads this, entries
    {
      Table(entries[..], count)
    }

    constructor (maxEntries: int)
      ensures Valid() && fresh(entries)
      ensures entries.Length == if maxEntries <= 0 then 1024 else maxEntries
      ensures count == 0 && forall i :: 0 <= i < entries.Length ==> entries[i] == ZERO_ENTRY
    {
      var n := if maxEntries <= 0 then DEFAULT_MAX_ENTRIES else maxEntries;
      entries := new Entry[n](_ => ZERO_ENTRY);
      count := 0;
    }

    /** The branch of an update that takes over a free slot. */
    method Claim(i: nat, key: Key, pktLen: nat, isReverse: bool, now: int)
      requires i < entries.Length
      modifies this, entries
      ensures entries[..] == old(entries[..])[i := Fresh(Packet(key, pktLen, isReverse, now))]
      ensures count == old(count) + 1
    {
      entries[i] := Entry(key, New,
        if isReverse then 0 else pktLen, if isReverse then pktLen else 0,
        if isReverse then 0 else 1, if isReverse then 1 else 0,
        now, now);
      count := count + 1;
    }

    /** The branch of an update that adds to a record already in the table. */
    method Bump(i: nat, key: Key, pktLen: nat, isReverse: bool, now: int)
      requires i < entries.Length
      modifies entries
      ensures entries[..] == old(entries[..])[i := Bumped(old(entries[i]), Packet(key, pktLen, isReverse, now))]
    {
      var e := entries[i].(lastSeen := now);
      if isReverse {
        e := e.(bytesRev := (e.bytesRev + pktLen) % U64, pktsRev := (e.pktsRev + 1) % U32);
      } else {
        e := e.(bytesFwd := (e.bytesFwd + pktLen) % U64, pktsFwd := (e.pktsFwd + 1) % U32);
      }
      if e.state == New {
        e := e.(state := Established);
      }
      entries[i] := e;
    }

    method Update(key: Key, pktLen: nat, isReverse: bool, now: int) returns (r: int)
      requires Valid() && pktLen < U32
      modifies this, entries
      ensures r == if Accepts(Mix, old(entries[..]), key) then 0 else -1
      ensures Contents() == Updated(Mix, old(Contents()), Packet(key, pktLen, isReverse, now))
    {
      ghost var s := entries[..];
      var n := entries.Length;
      var idx := ConnHash(Mix, key, n);
      var start := idx;
      ghost var d := 0;
      while true
        invariant d < n && idx == Ahead(start, d, n)
        invariant count == old(count) && entries[..] == s
        invariant First(s, start, ForUpdate(key), 0) == First(s, start, ForUpdate(key), d)
        decreases n - d
      {
        if Free(entries[idx]) {
          assert Slot(Mix, s, ForUpdate(key)) == idx;
          Claim(idx, key, pktLen, isReverse, now);
          return 0;
        }
        if entries[idx].key == key {
          assert Slot(Mix, s, ForUpdate(key)) == idx;
          Bump(idx, key, pktLen, isReverse, now);
          return 0;
        }
        NextSlot(idx, n);
        idx := (idx + 1) % n;
        d := d + 1;
        if idx == start {
          break;
        }
      }
      return -1;
    }

    /** The slot of the record, or -1 where the program returns a null pointer. */
    method Lookup(key: Key) returns (slot: int)
      requires Valid()
      ensures if Probe(Mix, entries[..], ForLookup(key)) < entries.Length
              then slot == Slot(Mix, entries[..], ForLookup(key)) else slot == -1
    {
      ghost var s := entries[..];
      var n := entries.Length;
      var idx := ConnHash(Mix, key, n);
      var start := idx;
      ghost var d := 0;
      while true
        invariant d < n && idx == Ahead(start, d, n)
        invariant First(s, start, ForLookup(key), 0) == First(s, start, ForLookup(key), d)
        decreases n - d
      {
        if entries[idx].firstSeen != 0 && entries[idx].key == key {
          return idx;
        }
        NextSlot(idx, n);
        idx := (idx + 1) % n;
        d := d + 1;
        if idx == start {
          break;
        }
      }
      return -1;
    }

    method Expire(timeout: int, now: int) returns (expired: int)
      requires Valid()
      modifies this, entries
      ensures forall i :: 0 <= i < entries.Length ==>
        entries[i] == if Due(old(entries[i]), timeout, now) then old(entries[i]).(state := Closed) else old(entries[i])
      ensures expired == |DueSlots(old(entries[..]), timeout, now)| && count == old(count) - expired
      ensures Contents() == Expired(old(Contents()), timeout, now)
    {
      ghost var s := entries[..];
      expired := 0;
      for i := 0 to entries.Length
        invariant expired == Stales(s[..i], timeout, now) && count == old(count) - expired
        invariant forall j :: 0 <= j < i ==> entries[j] == AfterSweep(s[j], timeout, now)
        invariant forall j :: i <= j < entries.Length ==> entries[j] == s[j]
      {
        assert s[..i + 1][..i] == s[..i];
        if entries[i].firstSeen != 0 && entries[i].state != Closed {
          if now - entries[i].lastSeen >= timeout {
            entries[i] := entries[i].(state := Closed);
            count := count - 1;
            expired := expired + 1;
          }
        }
      }
      assert s[..entries.Length] == s;
      assert entries[..] == Swept(s, timeout, now);
      SweepIs(s, timeout, now);
    }
  }
}

/** What the connection table accounts for: active connections, bytes, and, until a sweep closes
    something, the exact traffic of every connection. */
module ConntrackTotals {
  import opened Circular
  import opened Conntrack
  import opened ConntrackRuns
  import opened Widths

  /** The width of a packet length in the program. */
  ghost predicate Legal(ops: seq<Op>) {
    ClockOk(ops) && forall i :: 0 <= i < |ops| && ops[i].Packet? ==> ops[i].len < U32
  }

  // ---------- sums over the slots ----------

  datatype Measure = LiveSlots | AllBytes

  function Weight(m: Measure, e: Entry): nat {
    match m
    case LiveSlots => if Live(e) then 1 else 0
    case AllBytes => Bytes(e)
  }

  function Total(s: seq<Entry>, m: Measure): nat {
    if s == [] then 0 else Total(s[..|s| - 1], m) + Weight(m, s[|s| - 1])
  }

  lemma {:induction false} TotalUpdate(s: seq<Entry>, m: Measure, i: nat, e: Entry)
    requires i < |s|
    ensures Total(s[i := e], m) == Total(s, m) - Weight(m, s[i]) + Weight(m, e)
  {
    var s' := s[i := e];
    if i < |s| - 1 {
      assert s'[..|s| - 1] == s[..|s| - 1][i := e];
      TotalUpdate(s[..|s| - 1], m, i, e);
    } else {
      assert s'[..|s| - 1] == s[..|s| - 1];
    }
  }

  lemma {:induction false} TotalZero(n: nat, m: Measure)
    ensures Total(seq(n, _ => ZERO_ENTRY), m) == 0
  {
    if n > 0 {
      assert seq(n, _ => ZERO_ENTRY)[..n - 1] == seq(n - 1, _ => ZERO_ENTRY);
      TotalZero(n - 1, m);
    }
  }

  /** A sweep reports exactly the number of slots it closes, and it moves no bytes. */
  lemma {:induction false} SweepTotals(s: seq<Entry>, timeout: int, now: int)
    ensures Total(Swept(s, timeout, now), LiveSlots) == Total(s, LiveSlots) - Stales(s, timeout, now)
    ensures Total(Swept(s, timeout, now), AllBytes) == Total(s, AllBytes)
    ensures Stales(s, timeout, now) == 0 ==> Swept(s, timeout, now) == s
  {
    if s != [] {
      assert Swept(s, timeout, now)[..|s| - 1] == Swept(s[..|s| - 1], timeout, now);
      SweepTotals(s[..|s| - 1], timeout, now);
    }
  }

  // ---------- sums over the accepted packets ----------

  /** Bytes of the packets of key k that went in the given direction. */
  function LenSum(acc: seq<Op>, k: Key, rev: bool): nat {
    if acc == [] then 0
    else
      var p := acc[|acc| - 1];
      LenSum(acc[..|acc| - 1], k, rev) + if p.Packet? && p.key == k && p.reverse == rev then p.len else 0
  }

  function Count(acc: seq<Op>, k: Key, rev: bool): nat {
    if acc == [] then 0
    else
      var p := acc[|acc| - 1];
      Count(acc[..|acc| - 1], k, rev) + if p.Packet? && p.key == k && p.reverse == rev then 1 else 0
  }

  function AcceptedBytes(acc: seq<Op>): nat {
    if acc == [] then 0
    else
      var p := acc[|acc| - 1];
      AcceptedBytes(acc[..|acc| - 1]) + if p.Packet? then p.len else 0
  }

  lemma {:induction false} NoPacketsNoBytes(acc: seq<Op>, k: Key, rev: bool)
    requires Count(acc, k, rev) == 0
    ensures LenSum(acc, k, rev) == 0
  {
    if acc != [] { NoPacketsNoBytes(acc[..|acc| - 1], k, rev); }
  }

  // ---------- the accounting of every run ----------

  ghost predicate Narrow(s: seq<Entry>) {
    forall i :: 0 <= i < |s| ==> s[i].bytesFwd < U64 && s[i].bytesRev < U64
  }

  ghost predicate BytesBalance(w: World) {
    Total(w.table.slots, AllBytes) + w.overwritten + w.wraps * U64 == AcceptedBytes(w.accepted)
  }

  ghost predicate Balanced(w: World) {
    w.table.count == Total(w.table.slots, LiveSlots) && BytesBalance(w) && Narrow(w.table.slots)
  }

  /** A packet adds its length to the bytes of a record, less 2^64 when a counter wraps. */
  lemma {:induction false} WrittenBytes(e: Entry, p: Op)
    requires p.Packet? && p.len < U32 && e.bytesFwd < U64 && e.bytesRev < U64
    ensures Bytes(Fresh(p)) == p.len
    ensures Bytes(Bumped(e, p)) == Bytes(e) + p.len - if Overflows(e, p) then U64 else 0
    ensures Bumped(e, p).bytesFwd < U64 && Bumped(e, p).bytesRev < U64
    ensures Fresh(p).bytesFwd < U64 && Fresh(p).bytesRev < U64
  {
    var x := (if p.reverse then e.bytesRev else e.bytesFwd) + p.len;
    assert x % U64 == if x < U64 then x else x - U64;
  }

  lemma {:induction false} SlotBalances(w: World, w': World, i: nat, e: Entry, len: nat, lost: nat, wrapped: bool)
    requires i < |w.table.slots| && Balanced(w) && w'.table.slots == w.table.slots[i := e]
    requires Live(e) && e.bytesFwd < U64 && e.bytesRev < U64
    requires w'.table.count == w.table.count + if Live(w.table.slots[i]) then 0 else 1
    requires AcceptedBytes(w'.accepted) == AcceptedBytes(w.accepted) + len
    requires w'.overwritten == w.overwritten + lost && w'.wraps == w.wraps + if wrapped then 1 else 0
    requires Bytes(e) + lost + (if wrapped then U64 else 0) == Bytes(w.table.slots[i]) + len
    ensures Balanced(w')
  {
    TotalUpdate(w.table.slots, LiveSlots, i, e);
    TotalUpdate(w.table.slots, AllBytes, i, e);
  }

  /** What an accepted packet writes is live, and it takes over a slot only if that was not. */
  lemma {:induction false} WrittenIsLive(e: Entry, clock: int, p: Op)
    requires Tidy(e, clock) && p.Packet? && 0 < p.now
    ensures Live(e) <==> !Free(e)
    ensures Live(Fresh(p)) && (Live(e) ==> Live(Bumped(e, p)))
  {
  }

  /** What an accepted packet makes of everything, given the slot it is written to. */
  function Wrote(w: World, i: nat, p: Op): World
    requires i < |w.table.slots| && p.Packet?
  {
    var e := w.table.slots[i];
    World(Table(w.table.slots[i := Written(e, p)], w.table.count + if Free(e) then 1 else 0),
          p.now, w.accepted + [p],
          w.overwritten + if Free(e) then Bytes(e) else 0,
          w.wraps + if !Free(e) && Overflows(e, p) then 1 else 0, w.closed)
  }

  lemma {:induction false} AcceptedMore(acc: seq<Op>, p: Op)
    requires p.Packet?
    ensures AcceptedBytes(acc + [p]) == AcceptedBytes(acc) + p.len
  {
    assert (acc + [p])[..|acc|] == acc;
  }

  lemma {:induction false} WroteBalances(w: World, i: nat, p: Op)
    requires i < |w.table.slots| && Balanced(w) && Tidy(w.table.slots[i], w.clock)
    requires p.Packet? && p.len < U32 && 0 < p.now
    ensures Balanced(Wrote(w, i, p))
  {
    var e := w.table.slots[i];
    assert e.bytesFwd < U64 && e.bytesRev < U64;
    hide Balanced, Narrow, BytesBalance, Total, Fresh, Bumped, Live, Free, Bytes, Overflows, AcceptedBytes, Tidy;
    WrittenIsLive(e, w.clock, p);
    WrittenBytes(e, p);
    AcceptedMore(w.accepted, p);
    SlotBalances(w, Wrote(w, i, p), i, Written(e, p), p.len, if Free(e) then Bytes(e) else 0, !Free(e) && Overflows(e, p));
  }

  lemma {:induction false} PacketBalances(mix: Key -> nat, w: World, p: Op)
    requires 0 < |w.table.slots| && AllTidy(w.table.slots, w.clock) && Balanced(w)
    requires p.Packet? && p.len < U32 && 0 < p.now && Accepts(mix, w.table.slots, p.key)
    ensures Balanced(Step(mix, w, p))
  {
    var i := Slot(mix, w.table.slots, ForUpdate(p.key));
    assert Step(mix, w, p) == Wrote(w, i, p);
    hide Wrote, Step, Balanced;
    WroteBalances(w, i, p);
  }

  lemma {:induction false} SweepBalances(mix: Key -> nat, w: World, op: Op)
    requires 0 < |w.table.slots| && Balanced(w) && op.Sweep?
    ensures Balanced(Step(mix, w, op))
  {
    SweepTotals(w.table.slots, op.timeout, op.now);
  }

  lemma {:induction false} ReachableTidy(mix: Key -> nat, n: nat, ops: seq<Op>)
    requires 0 < n && ClockOk(ops)
    ensures AllTidy(Run(mix, n, ops).table.slots, Run(mix, n, ops).clock)
  {
    ReachableInv(mix, n, ops);
  }

  /** Through any run: `count` is the number of live slots, and the bytes in the slots plus the bytes
      of the overwritten closed records are the bytes of all accepted packets, 2^64 for each
      wrap-around of a counter apart. */
  lemma {:induction false} Accounting(mix: Key -> nat, n: nat, ops: seq<Op>)
    requires 0 < n && Legal(ops)
    ensures Balanced(Run(mix, n, ops))
  {
    if ops == [] {
      TotalZero(n, LiveSlots);
      TotalZero(n, AllBytes);
    } else {
      Accounting(mix, n, ops[..|ops| - 1]);
      ReachableTidy(mix, n, ops[..|ops| - 1]);
      var w, op := Run(mix, n, ops[..|ops| - 1]), ops[|ops| - 1];
      if op.Sweep? {
        SweepBalances(mix, w, op);
      } else if Accepts(mix, w.table.slots, op.key) {
        PacketBalances(mix, w, op);
      }
    }
  }

  // ---------- exact traffic until a sweep closes something ----------

  ghost predicate Holds(s: seq<Entry>, k: Key) {
    exists i :: 0 <= i < |s| && Used(s[i]) && s[i].key == k
  }

  function Packets(acc: seq<Op>, k: Key): nat {
    Count(acc, k, false) + Count(acc, k, true)
  }

  /** When the first and the last accepted packet of k were taken in. */
  function FirstTime(acc: seq<Op>, k: Key): int {
    if acc == [] then 0
    else
      var init, p := acc[..|acc| - 1], acc[|acc| - 1];
      if Packets(init, k) == 0 && p.Packet? && p.key == k then p.now else FirstTime(init, k)
  }

  function LastTime(acc: seq<Op>, k: Key): int {
    if acc == [] then 0
    else
      var init, p := acc[..|acc| - 1], acc[|acc| - 1];
      if p.Packet? && p.key == k then p.now else LastTime(init, k)
  }

  /** The record of a connection after exactly the accepted packets. */
  predicate Records(e: Entry, acc: seq<Op>) {
    && e.bytesFwd == LenSum(acc, e.key, false) % U64
    && e.bytesRev == LenSum(acc, e.key, true) % U64
    && e.pktsFwd == Count(acc, e.key, false) % U32
    && e.pktsRev == Count(acc, e.key, true) % U32
    && e.firstSeen == FirstTime(acc, e.key) && e.lastSeen == LastTime(acc, e.key)
    && e.state == if Packets(acc, e.key) >= 2 then Established else New
  }

  ghost predicate OneSlotPerKey(s: seq<Entry>) {
    forall i, j :: 0 <= i < |s| && 0 <= j < |s| && Used(s[i]) && Used(s[j]) && s[i].key == s[j].key ==> i == j
  }

  /** The slots are a map from the keys of the accepted packets to their traffic. */
  ghost predicate Exact(s: seq<Entry>, acc: seq<Op>) {
    && OneSlotPerKey(s)
    && (forall i :: 0 <= i < |s| && Used(s[i]) ==> Records(s[i], acc))
    && (forall k :: Holds(s, k) <==> Packets(acc, k) > 0)
  }

  lemma {:induction false} SumsSnoc(acc: seq<Op>, p: Op, k: Key)
    requires p.Packet?
    ensures forall rev :: LenSum(acc + [p], k, rev) == LenSum(acc, k, rev) + if p.key == k && p.reverse == rev then p.len else 0
    ensures forall rev :: Count(acc + [p], k, rev) == Count(acc, k, rev) + if p.key == k && p.reverse == rev then 1 else 0
    ensures LastTime(acc + [p], k) == if p.key == k then p.now else LastTime(acc, k)
    ensures FirstTime(acc + [p], k) == if Packets(acc, k) == 0 && p.key == k then p.now else FirstTime(acc, k)
  {
    assert (acc + [p])[..|acc|] == acc;
  }

  /** With nothing closed, an update claims a slot only for a key that has none. */
  lemma {:induction false} ClaimsForNewKey(mix: Key -> nat, s: seq<Entry>, clock: int, k: Key)
    requires Inv(mix, s, clock) && Accepts(mix, s, k)
    requires NoneClosed(s)
    ensures var t := Slot(mix, s, ForUpdate(k)); Free(s[t]) <==> !Holds(s, k)
  {
  }

  lemma {:induction false} BumpedRecords(e: Entry, acc: seq<Op>, p: Op)
    requires p.Packet? && e.key == p.key && Records(e, acc) && Packets(acc, p.key) > 0
    ensures Records(Bumped(e, p), acc + [p])
  {
    SumsSnoc(acc, p, p.key);
    CountOn64(LenSum(acc, p.key, p.reverse), p.len);
    CountOn32(Count(acc, p.key, p.reverse), 1);
  }

  lemma {:induction false} FreshRecords(acc: seq<Op>, p: Op)
    requires p.Packet? && p.len < U32 && Packets(acc, p.key) == 0
    ensures Records(Fresh(p), acc + [p])
  {
    SumsSnoc(acc, p, p.key);
    NoPacketsNoBytes(acc, p.key, false);
    NoPacketsNoBytes(acc, p.key, true);
    hide Count, LenSum, FirstTime, LastTime;
  }

  lemma {:induction false} WrittenRecords(mix: Key -> nat, s: seq<Entry>, clock: int, acc: seq<Op>, p: Op)
    requires Inv(mix, s, clock) && Exact(s, acc) && p.Packet? && Accepts(mix, s, p.key) && p.len < U32 && 0 < p.now
    requires NoneClosed(s)
    ensures Records(Written(s[Slot(mix, s, ForUpdate(p.key))], p), acc + [p])
  {
    var e := s[Slot(mix, s, ForUpdate(p.key))];
    ClaimsForNewKey(mix, s, clock, p.key);
    if Free(e) {
      FreshRecords(acc, p);
    } else {
      assert Tidy(e, clock);
      BumpedRecords(e, acc, p);
    }
  }

  /** Writing slot t for key k makes k, and no other key, held. */
  lemma {:induction false} HoldsAfterWrite(s: seq<Entry>, t: nat, e: Entry, k: Key)
    requires t < |s| && Used(e) && (Used(s[t]) ==> s[t].key == e.key)
    ensures Holds(s[t := e], k) <==> Holds(s, k) || k == e.key
  {
    var s' := s[t := e];
    assert Used(s'[t]) && s'[t].key == e.key;
    if Holds(s', k) && k != e.key {
      var i :| 0 <= i < |s'| && Used(s'[i]) && s'[i].key == k;
      assert Used(s[i]) && s[i].key == k;
    }
    if Holds(s, k) {
      var i :| 0 <= i < |s| && Used(s[i]) && s[i].key == k;
      assert i != t ==> Used(s'[i]) && s'[i].key == k;
    }
  }

  lemma {:induction false} UpdateKeepsExact(mix: Key -> nat, s: seq<Entry>, clock: int, acc: seq<Op>, p: Op)
    requires Inv(mix, s, clock) && Exact(s, acc) && p.Packet? && Accepts(mix, s, p.key) && p.len < U32 && 0 < p.now
    requires NoneClosed(s)
    ensures Exact(Stored(mix, s, p), acc + [p])
  {
    var t := Slot(mix, s, ForUpdate(p.key));
    var s' := Stored(mix, s, p);
    assert Tidy(s[t], clock);
    assert Used(s'[t]) && s'[t].key == p.key;
    ClaimsForNewKey(mix, s, clock, p.key);
    WrittenRecords(mix, s, clock, acc, p);
    forall i | 0 <= i < |s'| && Used(s'[i])
      ensures Records(s'[i], acc + [p])
      ensures s'[i].key == p.key ==> i == t
    {
      if i != t {
        SumsSnoc(acc, p, s[i].key);
      }
    }
    forall k ensures Holds(s', k) <==> Packets(acc + [p], k) > 0 {
      SumsSnoc(acc, p, k);
      HoldsAfterWrite(s, t, s'[t], k);
    }
  }

  ghost predicate NoneClosed(s: seq<Entry>) {
    forall i :: 0 <= i < |s| ==> s[i].state != Closed
  }

  lemma {:induction false} StepClosesNothing(mix: Key -> nat, w: World, op: Op)
    requires 0 < |w.table.slots| && NoneClosed(w.table.slots) && Step(mix, w, op).closed == w.closed
    ensures NoneClosed(Step(mix, w, op).table.slots)
  {
    if op.Sweep? {
      SweepTotals(w.table.slots, op.timeout, op.now);
    } else if Accepts(mix, w.table.slots, op.key) {
      assert Written(w.table.slots[Slot(mix, w.table.slots, ForUpdate(op.key))], op).state != Closed;
    }
  }

  lemma {:induction false} NothingClosed(mix: Key -> nat, n: nat, ops: seq<Op>)
    requires 0 < n && Run(mix, n, ops).closed == 0
    ensures NoneClosed(Run(mix, n, ops).table.slots)
  {
    if ops != [] {
      NothingClosed(mix, n, ops[..|ops| - 1]);
      StepClosesNothing(mix, Run(mix, n, ops[..|ops| - 1]), ops[|ops| - 1]);
    }
  }

  lemma {:induction false} ExactStep(mix: Key -> nat, n: nat, ops: seq<Op>, op: Op)
    requires 0 < n && Legal(ops) && (op.Packet? ==> op.len < U32 && 0 < op.now)
    requires var w := Run(mix, n, ops); Exact(w.table.slots, w.accepted) && NoneClosed(w.table.slots)
    requires Step(mix, Run(mix, n, ops), op).closed == Run(mix, n, ops).closed
    ensures var w' := Step(mix, Run(mix, n, ops), op); Exact(w'.table.slots, w'.accepted)
  {
    ReachableInv(mix, n, ops);
    var w := Run(mix, n, ops);
    if op.Sweep? {
      SweepTotals(w.table.slots, op.timeout, op.now);
    } else if Accepts(mix, w.table.slots, op.key) {
      UpdateKeepsExact(mix, w.table.slots, w.clock, w.accepted, op);
    }
  }

  lemma {:induction false} ExactRun(mix: Key -> nat, n: nat, ops: seq<Op>)
    requires 0 < n && Legal(ops) && Run(mix, n, ops).closed == 0
    ensures Exact(Run(mix, n, ops).table.slots, Run(mix, n, ops).accepted)
  {
    if ops == [] {
      assert forall k :: !Holds(Start(n).table.slots, k);
    } else {
      var init := ops[..|ops| - 1];
      ExactRun(mix, n, init);
      NothingClosed(mix, n, init);
      ExactStep(mix, n, init, ops[|ops| - 1]);
    }
  }

  /** Until some sweep closes a slot the table is a finite map: a lookup finds a key exactly when a
      packet of it was accepted; the record found is live, is the key's only one, and holds the sums
      over exactly those packets, in the widths of the counters, and the times of the first and the last
      of them; it is established if and only if there were at least two of them. */
  lemma {:induction false} TableIsMap(mix: Key -> nat, n: nat, ops: seq<Op>, k: Key)
    requires 0 < n && Legal(ops) && Run(mix, n, ops).closed == 0
    ensures var w := Run(mix, n, ops); var s := w.table.slots;
      && (Probe(mix, s, ForLookup(k)) < n <==> Packets(w.accepted, k) > 0)
      && (Probe(mix, s, ForLookup(k)) < n ==>
            var i := Slot(mix, s, ForLookup(k));
            && Live(s[i]) && s[i].key == k && Records(s[i], w.accepted)
            && forall j :: 0 <= j < n && Used(s[j]) && s[j].key == k ==> j == i)
  {
    ExactRun(mix, n, ops);
    NothingClosed(mix, n, ops);
    var s := Run(mix, n, ops).table.slots;
    if Probe(mix, s, ForLookup(k)) < n {
      var i := Slot(mix, s, ForLookup(k));
      assert Stops(ForLookup(k), s[i]);
      assert Holds(s, k);
    } else {
      forall j | 0 <= j < n ensures !(Used(s[j]) && s[j].key == k) { assert !Stops(ForLookup(k), s[j]); }
      assert !Holds(s, k);
    }
  }
}

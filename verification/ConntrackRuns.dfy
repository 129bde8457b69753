/** What every run of the connection table keeps, and what its lookups can therefore promise. */
module ConntrackRuns {
  import opened Circular
  import opened Conntrack
  import opened Widths

  /** A table together with the history that led to it: the latest clock reading, the packets an
      update accepted, the bytes of the closed records that updates overwrote, how often a 64-bit
      byte counter wrapped around, and how many records the sweeps closed. */
  datatype World = World(
    table: Table, clock: int, accepted: seq<Op>, overwritten: nat, wraps: nat, closed: nat)

  function Start(n: nat): (w: World)
    ensures |w.table.slots| == n
  {
    World(Table(seq(n, _ => ZERO_ENTRY), 0), 0, [], 0, 0, 0)
  }

  /** Adding the packet carries its byte counter over 2^64. */
  predicate Overflows(e: Entry, p: Op)
    requires p.Packet?
  {
    (if p.reverse then e.bytesRev else e.bytesFwd) + p.len >= U64
  }

  function Step(mix: Key -> nat, w: World, op: Op): (w': World)
    requires 0 < |w.table.slots|
    ensures |w'.table.slots| == |w.table.slots| && w'.clock == op.now
  {
    var s := w.table.slots;
    match op
    case Sweep(timeout, now) =>
      w.(table := Expired(w.table, timeout, now), clock := now, closed := w.closed + Stales(s, timeout, now))
    case Packet(k, _, _, now) =>
      if !Accepts(mix, s, k) then w.(clock := now)
      else
        var e := s[Slot(mix, s, ForUpdate(k))];
        w.(table := Updated(mix, w.table, op), clock := now, accepted := w.accepted + [op],
           overwritten := w.overwritten + if Free(e) then Bytes(e) else 0,
           wraps := w.wraps + if !Free(e) && Overflows(e, op) then 1 else 0)
  }

  function Run(mix: Key -> nat, n: nat, ops: seq<Op>): (w: World)
    requires 0 < n
    ensures |w.table.slots| == n
    ensures w.clock == if ops == [] then 0 else ops[|ops| - 1].now
  {
    if ops == [] then Start(n) else Step(mix, Run(mix, n, ops[..|ops| - 1]), ops[|ops| - 1])
  }

  /** Readings of a clock that is positive and never goes back. */
  ghost predicate ClockOk(ops: seq<Op>) {
    (forall i :: 0 <= i < |ops| ==> 0 < ops[i].now) &&
    (forall i, j :: 0 <= i <= j < |ops| ==> ops[i].now <= ops[j].now)
  }

  function Bytes(e: Entry): nat { e.bytesFwd + e.bytesRev }

  // ---------- the invariant ----------

  function Home(mix: Key -> nat, s: seq<Entry>, e: Entry): (h: nat)
    requires 0 < |s|
    ensures h < |s|
  {
    ConnHash(mix, e.key, |s|)
  }

  /** Slot i comes strictly before slot j in the probe order of j's own key. */
  predicate Before(mix: Key -> nat, s: seq<Entry>, i: nat, j: nat)
    requires i < |s| && j < |s|
  {
    Dist(Home(mix, s, s[j]), i, |s|) < Dist(Home(mix, s, s[j]), j, |s|)
  }

  /** A slot that was never written is all zero; a written one carries positive times in order. */
  predicate Tidy(e: Entry, clock: int) {
    if Used(e) then 0 < e.firstSeen <= e.lastSeen <= clock else e == ZERO_ENTRY
  }

  ghost predicate AllTidy(s: seq<Entry>, clock: int) {
    forall i :: 0 <= i < |s| ==> Tidy(s[i], clock)
  }

  /** No never-written slot interrupts the way from a key's home to a slot holding the key. */
  ghost predicate Chained(mix: Key -> nat, s: seq<Entry>) {
    forall i, j :: 0 <= i < |s| && 0 <= j < |s| && Used(s[j]) && Before(mix, s, i, j) ==> Used(s[i])
  }

  /** Of two records of one key, the one met first is at least as fresh, and closed only if both are. */
  ghost predicate Ordered(mix: Key -> nat, s: seq<Entry>) {
    forall i, j :: 0 <= i < |s| && 0 <= j < |s| && Used(s[i]) && Used(s[j])
      && s[i].key == s[j].key && Before(mix, s, i, j)
      ==> s[i].lastSeen >= s[j].lastSeen && (s[i].state == Closed ==> s[j].state == Closed)
  }

  ghost predicate Inv(mix: Key -> nat, s: seq<Entry>, clock: int) {
    0 < |s| && AllTidy(s, clock) && Chained(mix, s) && Ordered(mix, s)
  }

  /** Everything the probe of an accepted update passes over is in use, live and of another key. */
  lemma {:induction false} PassedOver(mix: Key -> nat, s: seq<Entry>, clock: int, k: Key, i: nat)
    requires 0 < |s| && AllTidy(s, clock) && i < |s|
    requires Dist(ConnHash(mix, k, |s|), i, |s|) < Probe(mix, s, ForUpdate(k))
    ensures Live(s[i]) && s[i].key != k
  {
  }

  lemma {:induction false} UpdateKeepsInv(mix: Key -> nat, s: seq<Entry>, clock: int, p: Op)
    requires Inv(mix, s, clock) && p.Packet? && Accepts(mix, s, p.key) && clock <= p.now && 0 < p.now
    ensures Inv(mix, Stored(mix, s, p), p.now)
  {
    var t := Slot(mix, s, ForUpdate(p.key));
    var s' := Stored(mix, s, p);
    assert Tidy(s[t], clock);
    assert Tidy(s'[t], p.now);
    assert s'[t].key == p.key && s'[t].lastSeen == p.now && Live(s'[t]);
    assert AllTidy(s', p.now) by {
      forall i | 0 <= i < |s'| ensures Tidy(s'[i], p.now) { assert Tidy(s[i], clock); }
    }
    forall i, j | 0 <= i < |s| && 0 <= j < |s| && Used(s'[j]) && Before(mix, s', i, j)
      ensures Used(s'[i])
    {
      if j == t {
        if i != t { PassedOver(mix, s, clock, p.key, i); }
      } else if i != t {
        assert Before(mix, s, i, j);
      }
    }
    forall i, j | 0 <= i < |s| && 0 <= j < |s| && Used(s'[i]) && Used(s'[j])
      && s'[i].key == s'[j].key && Before(mix, s', i, j)
      ensures s'[i].lastSeen >= s'[j].lastSeen && (s'[i].state == Closed ==> s'[j].state == Closed)
    {
      if j == t {
        PassedOver(mix, s, clock, p.key, i);
      } else if i == t {
        assert Tidy(s'[j], p.now);
      } else {
        assert Before(mix, s, i, j);
      }
    }
  }

  /** A sweep keeps the order because of the order: what it closes is older than what it leaves. */
  lemma {:induction false} SweepKeepsInv(mix: Key -> nat, s: seq<Entry>, clock: int, timeout: int, now: int)
    requires Inv(mix, s, clock) && clock <= now
    ensures Inv(mix, Swept(s, timeout, now), now)
  {
    var s' := Swept(s, timeout, now);
    assert AllTidy(s', now) by {
      forall i | 0 <= i < |s'| ensures Tidy(s'[i], now) { assert Tidy(s[i], clock); }
    }
    forall i, j | 0 <= i < |s| && 0 <= j < |s| && Used(s'[j]) && Before(mix, s', i, j)
      ensures Used(s'[i])
      ensures Used(s'[i]) && s'[i].key == s'[j].key
        ==> s'[i].lastSeen >= s'[j].lastSeen && (s'[i].state == Closed ==> s'[j].state == Closed)
    {
      assert Before(mix, s, i, j);
    }
  }

  /** Every reachable table, of any size, through any mix of updates and sweeps. */
  lemma {:induction false} ReachableInv(mix: Key -> nat, n: nat, ops: seq<Op>)
    requires 0 < n && ClockOk(ops)
    ensures Inv(mix, Run(mix, n, ops).table.slots, Run(mix, n, ops).clock)
  {
    if ops != [] {
      var init, op := ops[..|ops| - 1], ops[|ops| - 1];
      ReachableInv(mix, n, init);
      var w := Run(mix, n, init);
      if op.Sweep? {
        SweepKeepsInv(mix, w.table.slots, w.clock, op.timeout, op.now);
      } else if Accepts(mix, w.table.slots, op.key) {
        UpdateKeepsInv(mix, w.table.slots, w.clock, op);
      } else {
        forall i | 0 <= i < n ensures Tidy(w.table.slots[i], op.now) { assert Tidy(w.table.slots[i], w.clock); }
      }
    }
  }

  // ---------- what a lookup returns ----------

  /** A lookup finds the freshest record of its key; it reports a closed record, or none at all,
      only when the key has no live record, although the key may have several records. */
  lemma {:induction false} LookupIsFreshest(mix: Key -> nat, n: nat, ops: seq<Op>, k: Key)
    requires 0 < n && ClockOk(ops)
    ensures var s := Run(mix, n, ops).table.slots;
      if Probe(mix, s, ForLookup(k)) < n then
        var e := s[Slot(mix, s, ForLookup(k))];
        && Used(e) && e.key == k
        && (forall j :: 0 <= j < n && Used(s[j]) && s[j].key == k ==> s[j].lastSeen <= e.lastSeen)
        && (e.state == Closed ==> forall j :: 0 <= j < n && s[j].key == k ==> !Live(s[j]))
      else forall j :: 0 <= j < n ==> !(Used(s[j]) && s[j].key == k)
  {
    ReachableInv(mix, n, ops);
    var s := Run(mix, n, ops).table.slots;
    if Probe(mix, s, ForLookup(k)) < n {
      var i := Slot(mix, s, ForLookup(k));
      forall j | 0 <= j < n && Used(s[j]) && s[j].key == k
        ensures s[j].lastSeen <= s[i].lastSeen && (s[i].state == Closed ==> s[j].state == Closed)
      {
        assert Stops(ForLookup(k), s[j]);
        if j != i { assert Before(mix, s, i, j); }
      }
    } else {
      forall j | 0 <= j < n ensures !(Used(s[j]) && s[j].key == k) {
        assert !Stops(ForLookup(k), s[j]);
      }
    }
  }

  /** A lookup that gave up at the first never-written slot would give the same answer. */
  lemma {:induction false} StopAtGap(mix: Key -> nat, n: nat, ops: seq<Op>, k: Key)
    requires 0 < n && ClockOk(ops)
    ensures var s := Run(mix, n, ops).table.slots;
      var short := Probe(mix, s, ForLookupToGap(k));
      Probe(mix, s, ForLookup(k)) == if short < n && Used(s[Slot(mix, s, ForLookupToGap(k))]) then short else n
  {
    ReachableInv(mix, n, ops);
    var s := Run(mix, n, ops).table.slots;
    var full, short := Probe(mix, s, ForLookup(k)), Probe(mix, s, ForLookupToGap(k));
    if full < n && short < n {
      var i, g := Slot(mix, s, ForLookup(k)), Slot(mix, s, ForLookupToGap(k));
      assert !Used(s[g]) ==> !Before(mix, s, g, i);
      SameDist(ConnHash(mix, k, n), i, g, n);
    }
  }

  lemma {:induction false} RefusedWhenFull(mix: Key -> nat, s: seq<Entry>, clock: int, k: Key)
    requires 0 < |s| && AllTidy(s, clock)
    ensures !Accepts(mix, s, k) <==> forall i :: 0 <= i < |s| ==> Live(s[i]) && s[i].key != k
  {
  }

  lemma {:induction false} FoundAfterUpdate(mix: Key -> nat, s: seq<Entry>, clock: int, p: Op)
    requires Inv(mix, s, clock) && p.Packet? && Accepts(mix, s, p.key) && 0 < p.now
    ensures var t := Slot(mix, s, ForUpdate(p.key)); var s' := Stored(mix, s, p);
      && Probe(mix, s', ForLookup(p.key)) < |s| && Slot(mix, s', ForLookup(p.key)) == t && Live(s'[t])
      && s'[t].key == p.key && s'[t].lastSeen == p.now
      && s'[t].firstSeen == if Live(s[t]) then s[t].firstSeen else p.now
  {
  }

  /** An update is refused if and only if every slot is live and none holds the key; otherwise the
      next lookup of the key returns exactly the slot just written, live, with its counters and last
      seen now; first seen then as well, unless it was live before. */
  lemma {:induction false} UpdateThenLookup(mix: Key -> nat, n: nat, ops: seq<Op>, p: Op)
    requires 0 < n && ClockOk(ops) && p.Packet? && Run(mix, n, ops).clock <= p.now && 0 < p.now
    ensures var s, s' := Run(mix, n, ops).table.slots, Step(mix, Run(mix, n, ops), p).table.slots;
      if forall i :: 0 <= i < n ==> Live(s[i]) && s[i].key != p.key then !Accepts(mix, s, p.key) && s' == s
      else
        && Accepts(mix, s, p.key) && s' == Stored(mix, s, p)
        && Probe(mix, s', ForLookup(p.key)) < n
        && Slot(mix, s', ForLookup(p.key)) == Slot(mix, s, ForUpdate(p.key))
        && var e, e' := s[Slot(mix, s, ForUpdate(p.key))], s'[Slot(mix, s, ForUpdate(p.key))];
        && Live(e') && e'.key == p.key && e'.lastSeen == p.now
        && e'.firstSeen == (if Live(e) then e.firstSeen else p.now)
  {
    ReachableInv(mix, n, ops);
    var w := Run(mix, n, ops);
    RefusedWhenFull(mix, w.table.slots, w.clock, p.key);
    if Accepts(mix, w.table.slots, p.key) {
      FoundAfterUpdate(mix, w.table.slots, w.clock, p);
    }
    hide Inv, AllTidy, Run, Probe, Slot, Stored, Live;
  }

  // ---------- when a sweep closes a connection ----------

  /** A lookup of k finds slot i. */
  predicate FoundAt(mix: Key -> nat, s: seq<Entry>, k: Key, i: nat)
    requires 0 < |s|
  {
    Probe(mix, s, ForLookup(k)) < |s| && Slot(mix, s, ForLookup(k)) == i
  }

  /** Slot i comes first among the slots that hold k. */
  ghost predicate FirstOf(mix: Key -> nat, s: seq<Entry>, k: Key, i: nat)
    requires 0 < |s|
  {
    && i < |s| && Used(s[i]) && s[i].key == k
    && forall j :: 0 <= j < |s| && Used(s[j]) && s[j].key == k ==>
         Dist(ConnHash(mix, k, |s|), i, |s|) <= Dist(ConnHash(mix, k, |s|), j, |s|)
  }

  lemma {:induction false} FoundAtFirst(mix: Key -> nat, s: seq<Entry>, k: Key, i: nat)
    requires 0 < |s|
    ensures FoundAt(mix, s, k, i) <==> FirstOf(mix, s, k, i)
  {
    if FirstOf(mix, s, k, i) {
      assert Stops(ForLookup(k), s[i]);
      SameDist(ConnHash(mix, k, |s|), Slot(mix, s, ForLookup(k)), i, |s|);
    }
  }

  /** Where k is found stays the same when other slots of k disappear. */
  lemma {:induction false} StillFound(mix: Key -> nat, s: seq<Entry>, s': seq<Entry>, k: Key, i: nat)
    requires 0 < |s| == |s'| && FoundAt(mix, s, k, i) && i < |s| && Used(s'[i]) && s'[i].key == k
    requires forall j :: 0 <= j < |s| && Used(s'[j]) && s'[j].key == k ==> Used(s[j]) && s[j].key == k
    ensures FoundAt(mix, s', k, i)
  {
    FoundAtFirst(mix, s, k, i);
    FoundAtFirst(mix, s', k, i);
  }

  /** The call is none of k's packets, and no sweep that is due for a record last seen at `seen`. */
  predicate Spares(op: Op, k: Key, seen: int) {
    match op
    case Packet(q, _, _, _) => q != k
    case Sweep(timeout, now) => now - seen < timeout
  }

  /** Lookups of k find slot i, live and last seen at `seen`. */
  predicate LiveAt(mix: Key -> nat, s: seq<Entry>, k: Key, i: nat, seen: int)
    requires 0 < |s|
  {
    FoundAt(mix, s, k, i) && i < |s| && Live(s[i]) && s[i].key == k && s[i].lastSeen == seen
  }

  lemma {:induction false} SparedUpdate(mix: Key -> nat, s: seq<Entry>, p: Op, k: Key, i: nat, seen: int)
    requires 0 < |s| && LiveAt(mix, s, k, i, seen) && p.Packet? && p.key != k && Accepts(mix, s, p.key)
    ensures LiveAt(mix, Stored(mix, s, p), k, i, seen)
  {
    var t, s' := Slot(mix, s, ForUpdate(p.key)), Stored(mix, s, p);
    assert t != i && s'[t].key != k;
    StillFound(mix, s, s', k, i);
  }

  lemma {:induction false} SparedSweep(mix: Key -> nat, s: seq<Entry>, timeout: int, now: int, k: Key, i: nat, seen: int)
    requires 0 < |s| && LiveAt(mix, s, k, i, seen)
    ensures var s' := Swept(s, timeout, now);
      && FoundAt(mix, s', k, i) && Used(s'[i]) && s'[i].key == k && s'[i].lastSeen == seen
      && (s'[i].state == Closed <==> now - seen >= timeout)
  {
    SweepIs(s, timeout, now);
    StillFound(mix, s, Swept(s, timeout, now), k, i);
  }

  lemma {:induction false} SparedRun(mix: Key -> nat, n: nat, before: seq<Op>, after: seq<Op>, k: Key, i: nat, seen: int)
    requires 0 < n && LiveAt(mix, Run(mix, n, before).table.slots, k, i, seen)
    requires forall j :: 0 <= j < |after| ==> Spares(after[j], k, seen)
    ensures LiveAt(mix, Run(mix, n, before + after).table.slots, k, i, seen)
  {
    if after == [] {
      assert before + after == before;
    } else {
      var init, op := after[..|after| - 1], after[|after| - 1];
      assert Spares(op, k, seen);
      SparedRun(mix, n, before, init, k, i, seen);
      LastOfTwo(before, after);
      SparedStep(mix, n, before + init, op, k, i, seen);
    }
  }

  lemma {:induction false} LastOfTwo<T>(a: seq<T>, b: seq<T>)
    requires b != []
    ensures a + b[..|b| - 1] + [b[|b| - 1]] == a + b
  {
  }

  lemma {:induction false} SparedStep(mix: Key -> nat, n: nat, ops: seq<Op>, op: Op, k: Key, i: nat, seen: int)
    requires 0 < n && LiveAt(mix, Run(mix, n, ops).table.slots, k, i, seen) && Spares(op, k, seen)
    ensures LiveAt(mix, Run(mix, n, ops + [op]).table.slots, k, i, seen)
  {
    hide Run, Step, FoundAt, Accepts, Stored, Swept;
    var s := Run(mix, n, ops).table.slots;
    if op.Sweep? {
      SweepSnoc(mix, n, ops, op.timeout, op.now);
      SparedSweep(mix, s, op.timeout, op.now, k, i, seen);
    } else if Accepts(mix, s, op.key) {
      StepStores(mix, n, ops, op);
      SparedUpdate(mix, s, op, k, i, seen);
    } else {
      StepRefuses(mix, n, ops, op);
    }
  }

  lemma {:induction false} StepRefuses(mix: Key -> nat, n: nat, ops: seq<Op>, p: Op)
    requires 0 < n && p.Packet? && !Accepts(mix, Run(mix, n, ops).table.slots, p.key)
    ensures Run(mix, n, ops + [p]).table.slots == Run(mix, n, ops).table.slots
  {
    RunSnoc(mix, n, ops, p);
  }

  lemma {:induction false} SweepSnoc(mix: Key -> nat, n: nat, ops: seq<Op>, timeout: int, now: int)
    requires 0 < n
    ensures Run(mix, n, ops + [Sweep(timeout, now)]).table.slots == Swept(Run(mix, n, ops).table.slots, timeout, now)
  {
    RunSnoc(mix, n, ops, Sweep(timeout, now));
  }

  lemma {:induction false} LiveAtOnce(mix: Key -> nat, s: seq<Entry>, clock: int, p: Op)
    requires Inv(mix, s, clock) && p.Packet? && Accepts(mix, s, p.key) && 0 < p.now
    ensures LiveAt(mix, Stored(mix, s, p), p.key, Slot(mix, s, ForUpdate(p.key)), p.now)
  {
    hide Inv, Stored, Live;
    FoundAfterUpdate(mix, s, clock, p);
  }

  lemma {:induction false} LiveAfterPacket(mix: Key -> nat, n: nat, before: seq<Op>, p: Op)
    requires 0 < n && ClockOk(before + [p]) && p.Packet? && Accepts(mix, Run(mix, n, before).table.slots, p.key)
    ensures var i := Slot(mix, Run(mix, n, before).table.slots, ForUpdate(p.key));
      LiveAt(mix, Run(mix, n, before + [p]).table.slots, p.key, i, p.now)
  {
    ClockInit(before, p);
    hide *;
    ReachableInv(mix, n, before);
    StepStores(mix, n, before, p);
    LiveAtOnce(mix, Run(mix, n, before).table.slots, Run(mix, n, before).clock, p);
  }

  lemma {:induction false} ClockInit(ops: seq<Op>, op: Op)
    requires ClockOk(ops + [op])
    ensures ClockOk(ops) && 0 < op.now
  {
    assert (ops + [op])[|ops|] == op && forall i :: 0 <= i < |ops| ==> (ops + [op])[i] == ops[i];
  }

  lemma {:induction false} StepStores(mix: Key -> nat, n: nat, ops: seq<Op>, p: Op)
    requires 0 < n && p.Packet? && Accepts(mix, Run(mix, n, ops).table.slots, p.key)
    ensures Run(mix, n, ops + [p]).table.slots == Stored(mix, Run(mix, n, ops).table.slots, p)
  {
    RunSnoc(mix, n, ops, p);
  }

  /** A connection closes by time since its last packet: after an accepted packet p, then any calls
      without a packet of its key or a sweep due for it, then a sweep, the lookup of the key finds the
      record of p, closed if and only if the sweep's timeout has passed since p. */
  lemma {:induction false} ClosedIffIdle(mix: Key -> nat, n: nat, before: seq<Op>, p: Op, after: seq<Op>, timeout: int, now: int)
    requires 0 < n && ClockOk(before + [p]) && p.Packet? && Accepts(mix, Run(mix, n, before).table.slots, p.key)
    requires forall j :: 0 <= j < |after| ==> Spares(after[j], p.key, p.now)
    ensures var s := Run(mix, n, before + [p] + after + [Sweep(timeout, now)]).table.slots;
      && Probe(mix, s, ForLookup(p.key)) < n
      && var e := s[Slot(mix, s, ForLookup(p.key))];
      && e.key == p.key && e.lastSeen == p.now && (e.state == Closed <==> now - p.now >= timeout)
  {
    var i := Slot(mix, Run(mix, n, before).table.slots, ForUpdate(p.key));
    hide Run, ClockOk, LiveAt, Probe, Slot, Accepts, Swept, Step;
    LiveAfterPacket(mix, n, before, p);
    SparedRun(mix, n, before + [p], after, p.key, i, p.now);
    SweepSnoc(mix, n, before + [p] + after, timeout, now);
    SparedSweep(mix, Run(mix, n, before + [p] + after).table.slots, timeout, now, p.key, i, p.now);
  }

  // ---------- when a key has one live slot ----------

  ghost predicate OneLive(s: seq<Entry>) {
    forall i, j :: 0 <= i < |s| && 0 <= j < |s| && Live(s[i]) && Live(s[j]) && s[i].key == s[j].key ==> i == j
  }

  /** A closed slot stands before a live record of k in k's probe order. */
  ghost predicate Shadowed(mix: Key -> nat, s: seq<Entry>, k: Key)
    requires 0 < |s|
  {
    exists i, j :: 0 <= i < |s| && 0 <= j < |s| && s[i].state == Closed && Live(s[j]) && s[j].key == k
      && Dist(ConnHash(mix, k, |s|), i, |s|) < Dist(ConnHash(mix, k, |s|), j, |s|)
  }

  /** The update writes the live record of its key, wherever that is, unless a closed slot precedes it. */
  lemma {:induction false} WritesLiveRecord(mix: Key -> nat, s: seq<Entry>, clock: int, k: Key, j: nat)
    requires Inv(mix, s, clock) && OneLive(s) && Accepts(mix, s, k)
    requires j < |s| && Live(s[j]) && s[j].key == k && !Shadowed(mix, s, k)
    ensures Slot(mix, s, ForUpdate(k)) == j
  {
    var t, home := Slot(mix, s, ForUpdate(k)), ConnHash(mix, k, |s|);
    assert Stops(ForUpdate(k), s[j]) && Dist(home, t, |s|) <= Dist(home, j, |s|);
    SameDist(home, t, j, |s|);
    if t != j {
      assert Before(mix, s, t, j);
    }
  }

  /** What shadows a live record is met first, so the update makes a second live record. */
  lemma {:induction false} ShadowDuplicates(mix: Key -> nat, s: seq<Entry>, clock: int, p: Op)
    requires Inv(mix, s, clock) && p.Packet? && Accepts(mix, s, p.key) && 0 < p.now && Shadowed(mix, s, p.key)
    ensures !OneLive(Stored(mix, s, p))
  {
    var t, home := Slot(mix, s, ForUpdate(p.key)), ConnHash(mix, p.key, |s|);
    var i, j :| 0 <= i < |s| && 0 <= j < |s| && s[i].state == Closed && Live(s[j]) && s[j].key == p.key
      && Dist(home, i, |s|) < Dist(home, j, |s|);
    assert Stops(ForUpdate(p.key), s[i]) && Dist(home, t, |s|) <= Dist(home, i, |s|);
    hide Inv, Shadowed, Stops;
    FoundAfterUpdate(mix, s, clock, p);
    assert Stored(mix, s, p)[j] == s[j];
  }

  /** An accepted update of a table with one live slot per key keeps one live slot per key if and only
      if no closed slot stands before a live record of its key. */
  lemma {:induction false} OneLiveIff(mix: Key -> nat, s: seq<Entry>, clock: int, p: Op)
    requires Inv(mix, s, clock) && OneLive(s) && p.Packet? && Accepts(mix, s, p.key) && 0 < p.now
    ensures OneLive(Stored(mix, s, p)) <==> !Shadowed(mix, s, p.key)
  {
    if Shadowed(mix, s, p.key) {
      ShadowDuplicates(mix, s, clock, p);
    } else {
      var t, s' := Slot(mix, s, ForUpdate(p.key)), Stored(mix, s, p);
      assert Tidy(s[t], clock);
      forall j | 0 <= j < |s| && j != t && Live(s'[j]) ensures s'[j].key != p.key {
        if s[j].key == p.key { WritesLiveRecord(mix, s, clock, p.key, j); }
      }
      assert s'[t].key == p.key;
    }
  }

  lemma {:induction false} SweepKeepsOneLive(s: seq<Entry>, timeout: int, now: int)
    requires OneLive(s)
    ensures OneLive(Swept(s, timeout, now))
  {
    var s' := Swept(s, timeout, now);
    assert forall i :: 0 <= i < |s| ==> s'[i].key == s[i].key && (Live(s'[i]) ==> Live(s[i]));
  }

  lemma {:induction false} RefusedIsNotShadowed(mix: Key -> nat, s: seq<Entry>, clock: int, k: Key)
    requires 0 < |s| && AllTidy(s, clock) && !Accepts(mix, s, k)
    ensures !Shadowed(mix, s, k)
  {
    RefusedWhenFull(mix, s, clock, k);
  }

  /** At no point does the run take in a packet whose key has a live record behind a closed slot. */
  ghost predicate NeverShadowed(mix: Key -> nat, n: nat, ops: seq<Op>)
    requires 0 < n
  {
    ops == [] || (
      var init, op := ops[..|ops| - 1], ops[|ops| - 1];
      NeverShadowed(mix, n, init) && (op.Packet? ==> !Shadowed(mix, Run(mix, n, init).table.slots, op.key)))
  }

  /** At every point of the run every key has at most one live slot. */
  ghost predicate AlwaysOneLive(mix: Key -> nat, n: nat, ops: seq<Op>)
    requires 0 < n
  {
    OneLive(Run(mix, n, ops).table.slots) && (ops != [] ==> AlwaysOneLive(mix, n, ops[..|ops| - 1]))
  }

  lemma {:induction false} OneLiveStep(mix: Key -> nat, n: nat, ops: seq<Op>, op: Op)
    requires 0 < n && ClockOk(ops + [op]) && OneLive(Run(mix, n, ops).table.slots)
    ensures OneLive(Step(mix, Run(mix, n, ops), op).table.slots)
      <==> (op.Packet? ==> !Shadowed(mix, Run(mix, n, ops).table.slots, op.key))
  {
    assert (ops + [op])[|ops|] == op && forall i :: 0 <= i < |ops| ==> (ops + [op])[i] == ops[i];
    ReachableInv(mix, n, ops);
    var w := Run(mix, n, ops);
    if op.Sweep? {
      SweepKeepsOneLive(w.table.slots, op.timeout, op.now);
    } else if Accepts(mix, w.table.slots, op.key) {
      OneLiveIff(mix, w.table.slots, w.clock, op);
    } else {
      RefusedIsNotShadowed(mix, w.table.slots, w.clock, op.key);
    }
  }

  /** Through a whole run every key has at most one live slot if and only if no packet of the run
      finds a closed slot before a live record of its key. */
  lemma {:induction false} OneLiveRunIff(mix: Key -> nat, n: nat, ops: seq<Op>)
    requires 0 < n && ClockOk(ops)
    ensures AlwaysOneLive(mix, n, ops) <==> NeverShadowed(mix, n, ops)
  {
    if ops == [] {
      assert OneLive(Run(mix, n, []).table.slots);
    } else {
      var init, op := ops[..|ops| - 1], ops[|ops| - 1];
      OneLiveRunIff(mix, n, init);
      if AlwaysOneLive(mix, n, init) {
        assert init + [op] == ops;
        OneLiveStep(mix, n, init, op);
      }
    }
  }

  lemma {:induction false} RunSnoc(mix: Key -> nat, n: nat, ops: seq<Op>, op: Op)
    requires 0 < n
    ensures Run(mix, n, ops + [op]) == Step(mix, Run(mix, n, ops), op)
  {
  }

  lemma {:induction false} UpdateOfTwoSlots(mix: Key -> nat, s: seq<Entry>, k: Key)
    requires |s| == 2 && ConnHash(mix, k, 2) == 0
    ensures Free(s[0]) ==> Accepts(mix, s, k) && Slot(mix, s, ForUpdate(k)) == 0
    ensures !Free(s[0]) && s[0].key != k && Free(s[1]) ==> Accepts(mix, s, k) && Slot(mix, s, ForUpdate(k)) == 1
  {
  }

  lemma {:induction false} HashesOfTwoKeys()
    ensures ConnHash(Mix, ZERO_KEY, 2) == 0 && ConnHash(Mix, Key(2, 0, 0, 0, 0), 2) == 0
  {
  }

  /** After a sweep one key can own two live slots, so no table-wide "one slot per key" holds:
      in a table of two slots, the older record of another key expires and its slot is reused. */
  lemma {:induction false} DuplicatesAfterSweep(ops: seq<Op>)
    requires var k := Key(2, 0, 0, 0, 0);
      ops == [Packet(ZERO_KEY, 10, false, 1), Packet(k, 10, false, 5), Sweep(5, 7), Packet(k, 10, false, 8)]
    ensures ClockOk(ops)
    ensures var s := Run(Mix, 2, ops).table.slots;
      s[0].key == s[1].key == Key(2, 0, 0, 0, 0) && Live(s[0]) && Live(s[1])
  {
    HashesOfTwoKeys();
    var s0, s1 := Run(Mix, 2, []).table.slots, [Fresh(ops[0]), ZERO_ENTRY];
    UpdateOfTwoSlots(Mix, s0, ZERO_KEY);
    RunSnoc(Mix, 2, [], ops[0]);
    assert s0[0 := Fresh(ops[0])] == s1;
    UpdateOfTwoSlots(Mix, s1, ops[1].key);
    RunSnoc(Mix, 2, [ops[0]], ops[1]);
    assert [ops[0]] + [ops[1]] == [ops[0], ops[1]] && [] + [ops[0]] == [ops[0]];
    var s2 := s1[1 := Fresh(ops[1])];
    assert Run(Mix, 2, [ops[0], ops[1]]).table.slots == s2;
    var s3 := Swept(s2, 5, 7);
    RunSnoc(Mix, 2, [ops[0], ops[1]], ops[2]);
    UpdateOfTwoSlots(Mix, s3, ops[3].key);
    RunSnoc(Mix, 2, [ops[0], ops[1]] + [ops[2]], ops[3]);
    assert [ops[0], ops[1]] + [ops[2]] + [ops[3]] == ops;
  }
}

/** How much a run of checks can admit, in packets and in bytes. */
module ThrottleRuns {
  import opened Clock
  import opened Throttle
  import opened Widths

  datatype Packet = Packet(len: nat, now: Timespec)

  function After(w: Window, ps: seq<Packet>): Window {
    if ps == [] then w else Checked(After(w, ps[..|ps| - 1]), ps[|ps| - 1].len, ps[|ps| - 1].now)
  }

  /** The last check admits its packet. */
  predicate LastAdmitted(w: Window, ps: seq<Packet>)
    requires ps != []
  {
    Admits(Rolled(After(w, ps[..|ps| - 1]), ps[|ps| - 1].now), ps[|ps| - 1].len)
  }

  function AdmittedPackets(w: Window, ps: seq<Packet>): nat {
    if ps == [] then 0 else AdmittedPackets(w, ps[..|ps| - 1]) + if LastAdmitted(w, ps) then 1 else 0
  }

  function AdmittedBytes(w: Window, ps: seq<Packet>): nat {
    if ps == [] then 0
    else AdmittedBytes(w, ps[..|ps| - 1]) + if LastAdmitted(w, ps) then ps[|ps| - 1].len else 0
  }

  /** How many windows the run opens. */
  function Opened(w: Window, ps: seq<Packet>): nat {
    if ps == [] then 0
    else
      Opened(w, ps[..|ps| - 1])
      + if ElapsedMs(After(w, ps[..|ps| - 1]).start, ps[|ps| - 1].now) >= WINDOW_MS then 1 else 0
  }

  /** A limiter as the program leaves it: its limits have 32 bits, its counts are within them. */
  ghost predicate Within(w: Window) {
    && w.maxPps < U32 && w.maxBps < U32 && Reading(w.start)
    && w.pktCount <= Limit(w.maxPps) && w.byteCount <= Limit(w.maxBps)
  }

  /** Checks at readings of a clock that does not go back. */
  ghost predicate Timed(w: Window, ps: seq<Packet>) {
    && (forall i :: 0 <= i < |ps| ==> ps[i].len < U32 && Reading(ps[i].now) && Ns(w.start) <= Ns(ps[i].now))
    && (forall i, j :: 0 <= i <= j < |ps| ==> Ns(ps[i].now) <= Ns(ps[j].now))
  }

  function LastNs(w: Window, ps: seq<Packet>): int {
    if ps == [] then Ns(w.start) else Ns(ps[|ps| - 1].now)
  }

  // ---------- windows ----------

  lemma {:induction false} CheckedStart(w: Window, len: nat, now: Timespec)
    ensures Checked(w, len, now).start == if ElapsedMs(w.start, now) >= WINDOW_MS then now else w.start
  {
  }

  /** Windows opened one after the other start more than 99 ms apart. */
  lemma {:induction false} WindowsAreApart(w: Window, ps: seq<Packet>)
    requires Within(w) && Timed(w, ps)
    ensures var w' := After(w, ps); var k := Opened(w, ps);
      && Reading(w'.start) && Ns(w'.start) <= LastNs(w, ps)
      && Ns(w'.start) >= Ns(w.start) + 99_000_000 * k
      && (k == 0 ==> w'.start == w.start)
      && (k > 0 ==> Ns(w'.start) >= Ns(ps[0].now) + 99_000_000 * (k - 1))
  {
    if ps != [] {
      var init, p := ps[..|ps| - 1], ps[|ps| - 1];
      WindowsAreApart(w, init);
      WindowTiming(After(w, init).start, p.now);
      CheckedStart(After(w, init), p.len, p.now);
      hide ElapsedMs, Checked;
      assert init != [] ==> init[0] == ps[0];
    }
  }

  // ---------- what the windows hold ----------

  /** A check keeps the counts within the limits and counts exactly what it admits. */
  lemma {:induction false} CheckCounts(w0: Window, len: nat, now: Timespec)
    requires Within(w0) && len < U32 && Reading(now)
    ensures var w, w' := Rolled(w0, now), Checked(w0, len, now);
      && Within(w') && w'.maxPps == w0.maxPps && w'.maxBps == w0.maxBps && w'.start == w.start
      && w'.pktCount == w.pktCount + (if Admits(w, len) then 1 else 0)
      && (w0.maxBps > 0 ==> w'.byteCount == w.byteCount + if Admits(w, len) then len else 0)
  {
  }

  lemma {:induction false} RunWithin(w: Window, ps: seq<Packet>)
    requires Within(w) && Timed(w, ps)
    ensures Within(After(w, ps)) && After(w, ps).maxPps == w.maxPps && After(w, ps).maxBps == w.maxBps
  {
    if ps != [] {
      RunWithin(w, ps[..|ps| - 1]);
      CheckCounts(After(w, ps[..|ps| - 1]), ps[|ps| - 1].len, ps[|ps| - 1].now);
    }
  }

  lemma {:induction false} DropCounted(w: Window, len: nat, now: Timespec)
    requires w.dropped < U32
    ensures Checked(w, len, now).dropped == (w.dropped + if Admits(Rolled(w, now), len) then 0 else 1) % U32
  {
  }

  /** The counter of dropped packets counts, in its 32 bits, exactly the checks that admit nothing. */
  lemma {:induction false} DropsAreCounted(w: Window, ps: seq<Packet>)
    requires w.dropped < U32
    ensures AdmittedPackets(w, ps) <= |ps|
    ensures After(w, ps).dropped == (w.dropped + |ps| - AdmittedPackets(w, ps)) % U32
  {
    if ps != [] {
      var init := ps[..|ps| - 1];
      DropsAreCounted(w, init);
      DropCounted(After(w, init), ps[|ps| - 1].len, ps[|ps| - 1].now);
      CountOn32(w.dropped + |init| - AdmittedPackets(w, init), if LastAdmitted(w, ps) then 0 else 1);
      hide Checked, Rolled, Admits, LastAdmitted;
    }
  }

  lemma {:induction false} PacketsPerWindow(w: Window, ps: seq<Packet>)
    requires Within(w) && Timed(w, ps)
    ensures w.pktCount + AdmittedPackets(w, ps) <= Opened(w, ps) * Limit(w.maxPps) + After(w, ps).pktCount
  {
    if ps != [] {
      var init, p := ps[..|ps| - 1], ps[|ps| - 1];
      PacketsPerWindow(w, init);
      RunWithin(w, init);
      CheckCounts(After(w, init), p.len, p.now);
      OneMore(Opened(w, init), Limit(w.maxPps));
    }
  }

  lemma {:induction false} BytesPerWindow(w: Window, ps: seq<Packet>)
    requires Within(w) && Timed(w, ps) && w.maxBps > 0
    ensures w.byteCount + AdmittedBytes(w, ps) <= Opened(w, ps) * Limit(w.maxBps) + After(w, ps).byteCount
  {
    if ps != [] {
      var init, p := ps[..|ps| - 1], ps[|ps| - 1];
      BytesPerWindow(w, init);
      RunWithin(w, init);
      CheckCounts(After(w, init), p.len, p.now);
      OneMore(Opened(w, init), Limit(w.maxBps));
    }
  }

  lemma {:induction false} OneMore(k: nat, limit: nat)
    ensures (k + 1) * limit == k * limit + limit
  {
  }

  lemma {:induction false} MoreWindows(k: nat, k': nat, limit: nat)
    requires k <= k'
    ensures k * limit <= k' * limit
  {
  }

  // ---------- the bounds ----------

  /** A run without a reset, measured from the start of the window it begins in (after init or a
      reset: from that moment), admits at most one window's limit for every 99 ms begun, less what
      that window had already admitted. */
  lemma {:induction false} RunBound(w: Window, ps: seq<Packet>)
    requires Within(w) && Timed(w, ps)
    ensures var windows := (LastNs(w, ps) - Ns(w.start)) / 99_000_000 + 1;
      && windows >= 1
      && w.pktCount + AdmittedPackets(w, ps) <= windows * Limit(w.maxPps)
      && (w.maxBps > 0 ==> w.byteCount + AdmittedBytes(w, ps) <= windows * Limit(w.maxBps))
  {
    WindowsAreApart(w, ps);
    RunWithin(w, ps);
    var k := Opened(w, ps);
    var windows := (LastNs(w, ps) - Ns(w.start)) / 99_000_000 + 1;
    assert k + 1 <= windows;
    PacketsPerWindow(w, ps);
    OneMore(k, Limit(w.maxPps));
    MoreWindows(k + 1, windows, Limit(w.maxPps));
    if w.maxBps > 0 {
      BytesPerWindow(w, ps);
      OneMore(k, Limit(w.maxBps));
      MoreWindows(k + 1, windows, Limit(w.maxBps));
    }
  }

  /** Any stretch of checks, wherever in a window it begins, admits at most one window's limit more
      than that, measured from its first check to its last. */
  lemma {:induction false} StretchBound(w: Window, ps: seq<Packet>)
    requires Within(w) && Timed(w, ps) && ps != []
    ensures var windows := (Ns(ps[|ps| - 1].now) - Ns(ps[0].now)) / 99_000_000 + 2;
      && windows >= 2
      && AdmittedPackets(w, ps) <= windows * Limit(w.maxPps)
      && (w.maxBps > 0 ==> AdmittedBytes(w, ps) <= windows * Limit(w.maxBps))
  {
    WindowsAreApart(w, ps);
    RunWithin(w, ps);
    var k := Opened(w, ps);
    var windows := (Ns(ps[|ps| - 1].now) - Ns(ps[0].now)) / 99_000_000 + 2;
    assert k + 1 <= windows;
    PacketsPerWindow(w, ps);
    OneMore(k, Limit(w.maxPps));
    MoreWindows(k + 1, windows, Limit(w.maxPps));
    if w.maxBps > 0 {
      BytesPerWindow(w, ps);
      OneMore(k, Limit(w.maxBps));
      MoreWindows(k + 1, windows, Limit(w.maxBps));
    }
  }

  // ---------- the limits as rates per second ----------

  /** A window's limit is a tenth of the limit per second, rounded down. */
  lemma {:induction false} TenthOf(max: nat, x: nat)
    requires 0 < max
    ensures x <= Limit(max) <==> 10 * x <= max
  {
  }

  /** What a check can still count in its window: packets and bytes, as its limits per second say.
      A limit of 0 admits all, short of the end of the 64-bit packet counter. */
  lemma {:induction false} AdmittedIff(w: Window, len: nat, now: Timespec)
    requires Within(w) && len < U32
    ensures var rolled := ElapsedMs(w.start, now) >= 100;
      var packets, bytes := if rolled then 0 else w.pktCount, if rolled then 0 else w.byteCount;
      Admits(Rolled(w, now), len) ==
        ((if w.maxPps == 0 then packets < 0xFFFF_FFFF_FFFF_FFFF else 10 * (packets + 1) <= w.maxPps)
         && (w.maxBps > 0 ==> 10 * (bytes + len) <= w.maxBps))
  {
    var v := Rolled(w, now);
    assert v.maxPps == w.maxPps && v.maxBps == w.maxBps && v.byteCount <= Limit(w.maxBps);
    if w.maxPps > 0 { TenthOf(w.maxPps, v.pktCount + 1); }
    if w.maxBps > 0 { TenthOf(w.maxBps, v.byteCount + len); }
    hide ElapsedMs;
  }

  /** In an empty window without a byte limit the k-th check admits its packet if and only if k packets
      per window are within the limit per second. */
  lemma {:induction false} KthCheck(w: Window, ps: seq<Packet>)
    requires Within(w) && w.pktCount == 0 && w.maxPps > 0 && w.maxBps == 0
    requires ps != [] && Timed(w, ps) && Opened(w, ps) == 0
    ensures LastAdmitted(w, ps) <==> 10 * |ps| <= w.maxPps
    ensures After(w, ps).pktCount == if 10 * |ps| <= w.maxPps then |ps| else w.maxPps / 10
  {
    var init, p := ps[..|ps| - 1], ps[|ps| - 1];
    RunWithin(w, init);
    if init != [] {
      KthCheck(w, init);
    }
    AdmittedIff(After(w, init), p.len, p.now);
    CheckCounts(After(w, init), p.len, p.now);
    hide ElapsedMs, Checked, Admits, Limit;
  }

  /** A run admits at most a tenth of the limit per second for every 99 ms begun since its window started. */
  lemma {:induction false} RateBound(w: Window, ps: seq<Packet>)
    requires Within(w) && Timed(w, ps)
    ensures var windows := (LastNs(w, ps) - Ns(w.start)) / 99_000_000 + 1;
      && (w.maxPps > 0 ==> 10 * (w.pktCount + AdmittedPackets(w, ps)) <= windows * w.maxPps)
      && (w.maxBps > 0 ==> 10 * (w.byteCount + AdmittedBytes(w, ps)) <= windows * w.maxBps)
  {
    RunBound(w, ps);
    var windows := (LastNs(w, ps) - Ns(w.start)) / 99_000_000 + 1;
    if w.maxPps > 0 { TenthTimes(windows, w.maxPps); }
    if w.maxBps > 0 { TenthTimes(windows, w.maxBps); }
    hide Limit, LastNs;
  }

  lemma {:induction false} TenthTimes(windows: nat, max: nat)
    requires 0 < max
    ensures 10 * (windows * Limit(max)) <= windows * max
  {
    TenthOf(max, Limit(max));
    hide Limit;
    assert windows * (max - 10 * Limit(max)) >= 0;
  }

  // ---------- exactly when the extra window is not needed ----------

  datatype Unit = PacketCount | ByteCount

  function Admitted(w: Window, u: Unit, ps: seq<Packet>): nat {
    if u.PacketCount? then AdmittedPackets(w, ps) else AdmittedBytes(w, ps)
  }

  function Cap(w: Window, u: Unit): nat { if u.PacketCount? then Limit(w.maxPps) else Limit(w.maxBps) }

  function Counted(w: Window, u: Unit): nat { if u.PacketCount? then w.pktCount else w.byteCount }

  predicate Opens(w: Window, now: Timespec) { ElapsedMs(w.start, now) >= WINDOW_MS }

  /** A stretch of checks that begins at t0, whatever was checked before. */
  ghost predicate StretchFrom(w: Window, t0: Timespec, ps: seq<Packet>) {
    ps != [] && Timed(w, ps) && ps[0].now == t0
  }

  /** The spans of 99 ms begun from the first check of a stretch to its last. */
  function Begun(ps: seq<Packet>): int
    requires ps != []
  {
    (Ns(ps[|ps| - 1].now) - Ns(ps[0].now)) / 99_000_000 + 1
  }

  ghost predicate TightFrom(w: Window, u: Unit, t0: Timespec) {
    forall ps :: StretchFrom(w, t0, ps) ==> Admitted(w, u, ps) <= Begun(ps) * Cap(w, u)
  }

  /** Less than 99 ms after t0 a check can open the next window. */
  ghost predicate OpensSoon(w: Window, t0: Timespec) {
    exists t :: Reading(t) && Ns(t0) <= Ns(t) < Ns(t0) + 99_000_000 && Opens(w, t)
  }

  lemma {:induction false} RolledTwice(w: Window, now: Timespec)
    ensures Rolled(Rolled(w, now), now) == Rolled(w, now)
  {
  }

  /** A run is the same run when its first window is rolled beforehand. */
  lemma {:induction false} RolledFirst(w: Window, u: Unit, ps: seq<Packet>)
    requires ps != []
    ensures var w' := Rolled(w, ps[0].now); After(w', ps) == After(w, ps) && Admitted(w', u, ps) == Admitted(w, u, ps)
  {
    var w', init := Rolled(w, ps[0].now), ps[..|ps| - 1];
    if init == [] {
      RolledTwice(w, ps[0].now);
      hide Rolled;
      assert After(w, init) == w && After(w', init) == w';
      assert Admitted(w, u, init) == 0 == Admitted(w', u, init);
    } else {
      RolledFirst(w, u, init);
      hide Rolled;
    }
  }

  /** A run that begins by opening a window is within one limit for every 99 ms begun. */
  lemma {:induction false} TightWhenOpening(w: Window, u: Unit, t0: Timespec, ps: seq<Packet>)
    requires Within(w) && StretchFrom(w, t0, ps) && (u.ByteCount? ==> w.maxBps > 0) && Opens(w, t0)
    ensures Admitted(w, u, ps) <= Begun(ps) * Cap(w, u)
  {
    RolledFirst(w, u, ps);
    RunBound(Rolled(w, t0), ps);
  }

  /** Windows opened after an instant before which none opens. */
  lemma {:induction false} WindowsAfter(w: Window, ps: seq<Packet>, from: int)
    requires Within(w) && Timed(w, ps)
    requires forall i :: 0 <= i < |ps| && Opens(w, ps[i].now) ==> from <= Ns(ps[i].now)
    ensures var w', k := After(w, ps), Opened(w, ps);
      && Reading(w'.start) && Ns(w'.start) <= LastNs(w, ps)
      && (k == 0 ==> w'.start == w.start) && (k > 0 ==> Ns(w'.start) >= from + 99_000_000 * (k - 1))
  {
    if ps != [] {
      var init, p := ps[..|ps| - 1], ps[|ps| - 1];
      WindowsAfter(w, init, from);
      WindowTiming(After(w, init).start, p.now);
      CheckedStart(After(w, init), p.len, p.now);
      hide ElapsedMs, Checked;
    }
  }

  lemma {:induction false} PerWindow(w: Window, u: Unit, ps: seq<Packet>)
    requires Within(w) && Timed(w, ps) && (u.ByteCount? ==> w.maxBps > 0)
    ensures Counted(w, u) + Admitted(w, u, ps) <= Opened(w, ps) * Cap(w, u) + Cap(w, u)
  {
    RunWithin(w, ps);
    if u.PacketCount? { PacketsPerWindow(w, ps); } else { BytesPerWindow(w, ps); }
  }

  lemma {:induction false} FullCheck(w: Window, len: nat, now: Timespec)
    requires w.pktCount == Limit(w.maxPps) && !Opens(w, now)
    ensures !Admits(Rolled(w, now), len) && Checked(w, len, now).pktCount == w.pktCount
  {
  }

  /** A window full of packets admits no bytes either. */
  lemma {:induction false} FullAdmitsNothing(w: Window, ps: seq<Packet>)
    requires w.pktCount == Limit(w.maxPps) && Opened(w, ps) == 0
    ensures AdmittedBytes(w, ps) == 0
    ensures var w' := After(w, ps); w'.pktCount == w.pktCount && w'.maxPps == w.maxPps && w'.start == w.start
  {
    if ps != [] {
      var init, p := ps[..|ps| - 1], ps[|ps| - 1];
      FullAdmitsNothing(w, init);
      FullCheck(After(w, init), p.len, p.now);
      hide ElapsedMs, Limit;
    }
  }

  lemma {:induction false} Tally(k: nat, opens: bool, limit: nat, admitted: nat, held: nat, more: nat)
    requires held <= limit && if k == 0 then opens && admitted == 0 else admitted + limit <= k * limit + held
    ensures admitted + more + limit <= (k + if opens then 1 else 0) * limit + (if opens then 0 else held) + more
  {
    OneMore(k, limit);
  }

  lemma {:induction false} BytesAfterFull(w: Window, ps: seq<Packet>)
    requires Within(w) && Timed(w, ps) && w.maxBps > 0 && w.pktCount == Limit(w.maxPps) && Opened(w, ps) > 0
    ensures AdmittedBytes(w, ps) + Limit(w.maxBps) <= Opened(w, ps) * Limit(w.maxBps) + After(w, ps).byteCount
  {
    hide ElapsedMs, Checked, Admits, Limit;
    var init, p := ps[..|ps| - 1], ps[|ps| - 1];
    var v := After(w, init);
    RunWithin(w, init);
    CheckCounts(v, p.len, p.now);
    assert Rolled(v, p.now).byteCount == if Opens(v, p.now) then 0 else v.byteCount;
    assert Opened(w, ps) == Opened(w, init) + if Opens(v, p.now) then 1 else 0;
    assert AdmittedBytes(w, ps) == AdmittedBytes(w, init) + if Admits(Rolled(v, p.now), p.len) then p.len else 0;
    assert After(w, ps) == Checked(v, p.len, p.now) && Timed(w, init) && v.byteCount <= Limit(w.maxBps);
    hide Rolled, Opened, AdmittedBytes, After, Within, Timed, Opens;
    if Opened(w, init) == 0 {
      FullAdmitsNothing(w, init);
    } else {
      BytesAfterFull(w, init);
    }
    Tally(Opened(w, init), Opens(v, p.now), Limit(w.maxBps), AdmittedBytes(w, init), v.byteCount,
          if Admits(Rolled(v, p.now), p.len) then p.len else 0);
  }

  lemma {:induction false} TightWhenFull(w: Window, u: Unit, t0: Timespec, ps: seq<Packet>)
    requires Within(w) && StretchFrom(w, t0, ps) && (u.ByteCount? ==> w.maxBps > 0)
    requires Counted(w, u) == Cap(w, u) || w.pktCount == Limit(w.maxPps)
    ensures Admitted(w, u, ps) <= Begun(ps) * Cap(w, u)
  {
    var k := Opened(w, ps);
    WindowsAreApart(w, ps);
    assert k <= Begun(ps);
    if Counted(w, u) == Cap(w, u) {
      PerWindow(w, u, ps);
    } else {
      if k == 0 { FullAdmitsNothing(w, ps); } else { BytesAfterFull(w, ps); }
      RunWithin(w, ps);
    }
    MoreWindows(k, Begun(ps), Cap(w, u));
  }

  lemma {:induction false} TightWhenLate(w: Window, u: Unit, t0: Timespec, ps: seq<Packet>)
    requires Within(w) && StretchFrom(w, t0, ps) && (u.ByteCount? ==> w.maxBps > 0) && !OpensSoon(w, t0)
    ensures Admitted(w, u, ps) <= Begun(ps) * Cap(w, u)
  {
    var k := Opened(w, ps);
    WindowsAfter(w, ps, Ns(t0) + 99_000_000);
    assert k + 1 <= Begun(ps);
    PerWindow(w, u, ps);
    OneMore(k, Cap(w, u));
    MoreWindows(k + 1, Begun(ps), Cap(w, u));
  }

  // ---------- a stretch that needs it ----------

  lemma {:induction false} TwoRuns(w: Window, u: Unit, a: seq<Packet>, b: seq<Packet>)
    ensures After(w, a + b) == After(After(w, a), b)
    ensures Admitted(w, u, a + b) == Admitted(w, u, a) + Admitted(After(w, a), u, b)
  {
    if b == [] {
      assert a + b == a;
    } else {
      TwoRuns(w, u, a, b[..|b| - 1]);
      assert (a + b)[..|a + b| - 1] == a + b[..|b| - 1];
      assert (a + b)[|a + b| - 1] == b[|b| - 1];
      hide Checked, Admits, Rolled;
    }
  }

  /** n checks of empty packets at one instant. */
  function Burst(now: Timespec, n: nat): (ps: seq<Packet>)
    ensures |ps| == n && forall i :: 0 <= i < n ==> ps[i] == Packet(0, now)
  {
    seq(n, _ => Packet(0, now))
  }

  /** A run with one check more. */
  lemma {:induction false} CheckMore(w: Window, ps: seq<Packet>, p: Packet)
    ensures After(w, ps + [p]) == Checked(After(w, ps), p.len, p.now)
    ensures AdmittedPackets(w, ps + [p]) == AdmittedPackets(w, ps) + if Admits(Rolled(After(w, ps), p.now), p.len) then 1 else 0
  {
    assert (ps + [p])[..|ps|] == ps;
  }

  lemma {:induction false} EmptyCheck(w: Window, now: Timespec)
    requires Within(w) && !Opens(w, now) && w.pktCount < Limit(w.maxPps)
    ensures Checked(w, 0, now) == w.(pktCount := w.pktCount + 1) && Admits(Rolled(w, now), 0)
  {
  }

  lemma {:induction false} BurstFills(w: Window, now: Timespec, n: nat)
    requires Within(w) && !Opens(w, now) && w.pktCount + n <= Limit(w.maxPps)
    ensures AdmittedPackets(w, Burst(now, n)) == n && After(w, Burst(now, n)) == w.(pktCount := w.pktCount + n)
  {
    hide ElapsedMs, Checked, Admits, Rolled, Limit;
    if n > 0 {
      var v := w.(pktCount := w.pktCount + n - 1);
      assert Within(v) && !Opens(v, now);
      assert Burst(now, n) == Burst(now, n - 1) + [Packet(0, now)];
      BurstFills(w, now, n - 1);
      hide After, AdmittedPackets, Burst, Within, Opens;
      EmptyCheck(v, now);
      CheckMore(w, Burst(now, n - 1), Packet(0, now));
    }
  }

  lemma {:induction false} OneCheck(w: Window, p: Packet)
    ensures After(w, [p]) == Checked(w, p.len, p.now)
    ensures AdmittedBytes(w, [p]) == if Admits(Rolled(w, p.now), p.len) then p.len else 0
  {
    assert [p][..0] == [];
  }

  /** What is left of the window's limit can be admitted at once. */
  lemma {:induction false} Fill(w: Window, u: Unit, now: Timespec) returns (ps: seq<Packet>)
    requires Within(w) && (u.ByteCount? ==> w.maxBps > 0) && !Opens(w, now)
    requires Counted(w, u) < Cap(w, u) && w.pktCount < Limit(w.maxPps)
    ensures ps != [] && forall i :: 0 <= i < |ps| ==> ps[i].now == now && ps[i].len < U32
    ensures Admitted(w, u, ps) == Cap(w, u) - Counted(w, u) && After(w, ps).start == w.start
  {
    if u.PacketCount? {
      ps := Burst(now, Cap(w, u) - Counted(w, u));
      BurstFills(w, now, Cap(w, u) - Counted(w, u));
    } else {
      ps := [Packet(Cap(w, u) - Counted(w, u), now)];
      OneCheck(w, ps[0]);
      assert (w.byteCount + ps[0].len) % U64 == Limit(w.maxBps);
    }
  }

  lemma {:induction false} FillNext(w: Window, u: Unit, now: Timespec) returns (ps: seq<Packet>)
    requires Within(w) && (u.ByteCount? ==> w.maxBps > 0) && Reading(now) && Opens(w, now)
    requires 0 < Cap(w, u) && 0 < Limit(w.maxPps)
    ensures ps != [] && forall i :: 0 <= i < |ps| ==> ps[i].now == now && ps[i].len < U32
    ensures Admitted(w, u, ps) == Cap(w, u)
  {
    var w' := Rolled(w, now);
    assert w' == w.(pktCount := 0, byteCount := 0, start := now) && ElapsedMs(now, now) == 0;
    ps := Fill(w', u, now);
    RolledFirst(w, u, ps);
  }

  /** The rest of the window's limit at t0 and a whole one at t1, less than 99 ms later. */
  lemma {:induction false} LooseStretch(w: Window, u: Unit, t0: Timespec, t1: Timespec) returns (ps: seq<Packet>)
    requires Within(w) && (u.ByteCount? ==> w.maxBps > 0) && Reading(t0) && Ns(w.start) <= Ns(t0) && !Opens(w, t0)
    requires Counted(w, u) < Cap(w, u) && w.pktCount < Limit(w.maxPps)
    requires Reading(t1) && Ns(t0) <= Ns(t1) < Ns(t0) + 99_000_000 && Opens(w, t1)
    ensures StretchFrom(w, t0, ps) && Begun(ps) == 1 && Admitted(w, u, ps) > Cap(w, u)
  {
    var a := Fill(w, u, t0);
    assert Timed(w, a);
    RunWithin(w, a);
    var b := FillNext(After(w, a), u, t1);
    hide After, Admitted, Within, Limit, Opens;
    TwoRuns(w, u, a, b);
    ps := a + b;
  }

  /** The bound of one limit for every 99 ms begun holds for every stretch that begins at t0 if and
      only if the first check opens a window, or the window has nothing left to admit, or the next one
      cannot open less than 99 ms later. */
  lemma {:induction false} TightIff(w: Window, u: Unit, t0: Timespec)
    requires Within(w) && (u.ByteCount? ==> w.maxBps > 0) && Reading(t0) && Ns(w.start) <= Ns(t0)
    ensures TightFrom(w, u, t0)
      <==> Opens(w, t0) || Counted(w, u) == Cap(w, u) || w.pktCount == Limit(w.maxPps) || !OpensSoon(w, t0)
  {
    if Opens(w, t0) || Counted(w, u) == Cap(w, u) || w.pktCount == Limit(w.maxPps) || !OpensSoon(w, t0) {
      forall ps | StretchFrom(w, t0, ps) ensures Admitted(w, u, ps) <= Begun(ps) * Cap(w, u) {
        if Opens(w, t0) {
          TightWhenOpening(w, u, t0, ps);
        } else if !OpensSoon(w, t0) {
          TightWhenLate(w, u, t0, ps);
        } else {
          TightWhenFull(w, u, t0, ps);
        }
      }
    } else {
      var t1 :| Reading(t1) && Ns(t0) <= Ns(t1) < Ns(t0) + 99_000_000 && Opens(w, t1);
      var ps := LooseStretch(w, u, t0, t1);
      assert Begun(ps) * Cap(w, u) == Cap(w, u);
    }
  }

  /** The latest instant less than 99 ms after t. */
  function JustBefore99(t: Timespec): Timespec {
    if t.nsec + 98_999_999 < 1_000_000_000 then Timespec(t.sec, t.nsec + 98_999_999)
    else Timespec(t.sec + 1, t.nsec + 98_999_999 - 1_000_000_000)
  }

  /** Measured milliseconds never go back, although they are rounded now down and now up. */
  lemma {:induction false} ElapsedGrows(start: Timespec, a: Timespec, b: Timespec)
    requires Reading(start) && Reading(a) && Reading(b) && Ns(start) <= Ns(a) <= Ns(b)
    ensures ElapsedMs(start, a) <= ElapsedMs(start, b)
  {
    ElapsedIsRounded(start, a);
    ElapsedIsRounded(start, b);
  }

  /** Whether the next window can open so soon is seen from the times of t0 and of the window alone. */
  lemma {:induction false} OpensSoonIff(w: Window, t0: Timespec)
    requires Within(w) && Reading(t0) && Ns(w.start) <= Ns(t0) && Reading(JustBefore99(t0))
    ensures OpensSoon(w, t0) <==> Opens(w, JustBefore99(t0))
  {
    var last := JustBefore99(t0);
    assert Ns(last) == Ns(t0) + 98_999_999;
    if OpensSoon(w, t0) {
      var t :| Reading(t) && Ns(t0) <= Ns(t) < Ns(t0) + 99_000_000 && Opens(w, t);
      ElapsedGrows(w.start, t, last);
    }
  }

  /** The extra window is needed: two checks 0.1 ms apart, on either side of a window's end, both
      admit a packet under a limit of one packet per window. */
  lemma {:induction false} StretchNeedsTwoWindows(w: Window, ps: seq<Packet>)
    requires w == Window(10, 0, 0, 0, Timespec(0, 0), 0)
    requires ps == [Packet(64, Timespec(0, 99_900_000)), Packet(64, Timespec(0, 100_000_000))]
    ensures Within(w) && Timed(w, ps) && Limit(w.maxPps) == 1 && AdmittedPackets(w, ps) == 2
  {
    assert ps[..1] == [ps[0]] && ps[..1][..0] == [];
    assert After(w, []) == w;
    assert LastAdmitted(w, ps[..1]);
    assert After(w, ps[..1]).pktCount == 1 && After(w, ps[..1]).start == w.start;
    assert AdmittedPackets(w, ps[..1]) == 1;
    assert LastAdmitted(w, ps);
  }
}

/** src/throttle.c: a fixed-window limiter whose windows are timed in truncated milliseconds. */
module Throttle {
  import opened Clock
  import opened Widths

  const WINDOW_MS: nat := 100
  /** The seconds whose milliseconds a signed 64-bit integer can hold. */
  const MAX_SEC: nat := 9_223_372_036_854_774

  // ---------- elapsed time ----------

  /** Integer division as C does it: the quotient is rounded toward zero. */
  function TruncDiv(x: int, y: int): int
    requires y > 0
  {
    if x >= 0 then x / y else -((-x) / y)
  }

  function ElapsedMs(start: Timespec, end: Timespec): nat {
    ((end.sec - start.sec) * 1000 + TruncDiv(end.nsec - start.nsec, 1_000_000)) % U64
  }

  predicate Reading(t: Timespec) { 0 <= t.sec < MAX_SEC && 0 <= t.nsec < 1_000_000_000 }

  function Ns(t: Timespec): int { t.sec * 1_000_000_000 + t.nsec }

  lemma {:induction false} WholeSeconds(sec: int, nsec: int)
    ensures (sec * 1_000_000_000 + nsec) / 1_000_000 == sec * 1000 + nsec / 1_000_000
  {
  }

  lemma {:induction false} RoundedUp(nsec: nat)
    ensures (999_999 - nsec) / 1_000_000 == -(nsec / 1_000_000)
  {
  }

  lemma {:induction false} InRange(n: nat)
    ensures n < U64 ==> n % U64 == n
  {
  }

  /** The elapsed milliseconds are the true ones rounded down or, when the nanoseconds of the later
      reading are the smaller ones, rounded up. */
  lemma {:induction false} ElapsedIsRounded(start: Timespec, end: Timespec)
    requires Reading(start) && Reading(end) && Ns(start) <= Ns(end)
    ensures ElapsedMs(start, end) == if start.nsec <= end.nsec
      then (Ns(end) - Ns(start)) / 1_000_000 else (Ns(end) - Ns(start) + 999_999) / 1_000_000
  {
    var sec, nsec := end.sec - start.sec, end.nsec - start.nsec;
    if nsec >= 0 {
      WholeSeconds(sec, nsec);
    } else {
      WholeSeconds(sec, nsec + 999_999);
      RoundedUp(-nsec);
    }
    assert 0 <= sec * 1000 + TruncDiv(nsec, 1_000_000) < U64;
    InRange(sec * 1000 + TruncDiv(nsec, 1_000_000));
  }

  /** So a window is left only after more than 99 ms and kept only for less than 100 ms. */
  lemma {:induction false} WindowTiming(start: Timespec, end: Timespec)
    requires Reading(start) && Reading(end) && Ns(start) <= Ns(end)
    ensures ElapsedMs(start, end) >= WINDOW_MS ==> Ns(end) - Ns(start) > 99_000_000
    ensures ElapsedMs(start, end) < WINDOW_MS ==> Ns(end) - Ns(start) < 100_000_000
  {
    ElapsedIsRounded(start, end);
  }

  // ---------- one check ----------

  datatype Window = Window(
    maxPps: nat, maxBps: nat, pktCount: nat, byteCount: nat, start: Timespec, dropped: nat)

  /** A limit per second scaled to a window; 0 means no limit. */
  function Limit(max: nat): nat { if max == 0 then U64 - 1 else max * WINDOW_MS / 1000 }

  function Rolled(w: Window, now: Timespec): Window {
    if ElapsedMs(w.start, now) >= WINDOW_MS then w.(pktCount := 0, byteCount := 0, start := now) else w
  }

  predicate Admits(w: Window, len: nat) {
    w.pktCount < Limit(w.maxPps) && (w.byteCount + len) % U64 <= Limit(w.maxBps)
  }

  function Checked(w0: Window, len: nat, now: Timespec): Window {
    var w := Rolled(w0, now);
    if Admits(w, len) then w.(pktCount := (w.pktCount + 1) % U64, byteCount := (w.byteCount + len) % U64)
    else w.(dropped := (w.dropped + 1) % U32)
  }

  // ---------- the program ----------

  class Limiter {
    var maxPps: nat
    var maxBps: nat
    var pktCount: nat
    var byteCount: nat
    var windowStart: Timespec
    var droppedPkts: nat

    ghost function View(): Window
      reads this
    {
      Window(maxPps, maxBps, pktCount, byteCount, windowStart, droppedPkts)
    }

    constructor (maxPps: nat, maxBps: nat, now: Timespec)
      ensures View() == Window(maxPps, maxBps, 0, 0, now, 0)
    {
      this.maxPps, this.maxBps, pktCount, byteCount, windowStart, droppedPkts := maxPps, maxBps, 0, 0, now, 0;
    }

    method Reset(now: Timespec)
      modifies this
      ensures View() == old(View()).(pktCount := 0, byteCount := 0, start := now)
    {
      pktCount := 0;
      byteCount := 0;
      windowStart := now;
    }

    method CheckPacket(len: nat, now: Timespec) returns (r: int)
      requires len < U32
      modifies this
      ensures View() == Checked(old(View()), len, now)
      ensures r == if Admits(Rolled(old(View()), now), len) then 1 else 0
    {
      var elapsed := ElapsedMs(windowStart, now);
      if elapsed >= WINDOW_MS {
        pktCount := 0;
        byteCount := 0;
        windowStart := now;
        elapsed := 0;
      }
      var ppsLimit := if maxPps == 0 then U64 - 1 else maxPps * WINDOW_MS / 1000;
      var bpsLimit := if maxBps == 0 then U64 - 1 else maxBps * WINDOW_MS / 1000;
      if pktCount >= ppsLimit || (byteCount + len) % U64 > bpsLimit {
        droppedPkts := (droppedPkts + 1) % U32;
        return 0;
      }
      pktCount := (pktCount + 1) % U64;
      byteCount := (byteCount + len) % U64;
      return 1;
    }
  }
}

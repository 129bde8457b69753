/** src/ratelimit.c: a token bucket, over real numbers, and the bound it keeps over every interval. */
module RateLimit {
  import opened Clock

  const NANO: real := 0.000000001
  const EINVAL: int := 22

  function DiffSec(a: Timespec, b: Timespec): real {
    (a.sec - b.sec) as real + (a.nsec - b.nsec) as real * NANO
  }

  function Instant(t: Timespec): real { t.sec as real + t.nsec as real * NANO }

  lemma {:induction false} DiffOfInstants(a: Timespec, b: Timespec)
    ensures DiffSec(a, b) == Instant(a) - Instant(b)
  {
  }

  /** A second is one later, and 10^9 nanoseconds are one second. */
  lemma {:induction false} InstantIs(sec: int, nsec: int)
    ensures Instant(Timespec(0, 0)) == 0.0
    ensures Instant(Timespec(sec + 1, nsec)) == Instant(Timespec(sec, nsec)) + 1.0
    ensures Instant(Timespec(sec, nsec + 1_000_000_000)) == Instant(Timespec(sec + 1, nsec))
    ensures Instant(Timespec(sec, nsec + 1)) > Instant(Timespec(sec, nsec))
    ensures (Instant(Timespec(sec, nsec)) - sec as real) * 1_000_000_000.0 == nsec as real
  {
  }

  // ---------- the bucket after a history of checks ----------

  /** One check: when it was made, and whether it let the packet through. */
  datatype Check = Check(at: real, allowed: bool)

  datatype Bucket = Bucket(capacity: real, rate: real, origin: real)

  /** The latest instant of the history; the bucket was last full by decree at its origin. */
  function Latest(b: Bucket, log: seq<Check>): real {
    if log == [] then b.origin else log[|log| - 1].at
  }

  function TokensAfter(b: Bucket, log: seq<Check>): real
    decreases |log|, 0
  {
    if log == [] then b.capacity
    else
      var c := log[|log| - 1];
      Refilled(b, log[..|log| - 1], c.at) - if c.allowed then 1.0 else 0.0
  }

  function Refilled(b: Bucket, log: seq<Check>, now: real): real
    decreases |log|, 1
  {
    Min(b.capacity, TokensAfter(b, log) + Earned(b.rate, now - Latest(b, log)))
  }

  /** The tokens earned in a span of time. */
  function Earned(rate: real, span: real): real { span * rate }

  lemma {:induction false} EarnedSum(rate: real, x: real, y: real)
    ensures Earned(rate, x + y) == Earned(rate, x) + Earned(rate, y)
  {
  }

  lemma {:induction false} EarnedNothing(rate: real)
    ensures Earned(rate, 0.0) == 0.0
  {
  }

  lemma {:induction false} EarnedGrows(rate: real, x: real, y: real)
    requires rate >= 0.0 && x >= y
    ensures Earned(rate, x) >= Earned(rate, y)
  {
    assert (x - y) * rate >= 0.0;
  }

  lemma {:induction false} EarnedIs(rate: real, span: real)
    ensures Earned(rate, span) == span * rate
  {
  }

  function Min(x: real, y: real): real { if x <= y then x else y }

  // ---------- the characterisation ----------

  /** How many packets were let through from check i on. */
  function AllowedFrom(log: seq<Check>, i: nat): nat
    requires i <= |log|
    decreases |log| - i
  {
    if i == |log| then 0 else AllowedFrom(log, i + 1) + if log[i].allowed then 1 else 0
  }

  /** The instants an interval ending now can start at: the origin, every check, and now. */
  function StartAt(b: Bucket, log: seq<Check>, now: real, j: nat): real
    requires j <= |log| + 1
  {
    if j == 0 then b.origin else if j <= |log| then log[j - 1].at else now
  }

  function AllowedSince(log: seq<Check>, j: nat): nat
    requires j <= |log| + 1
  {
    AllowedFrom(log, if j == 0 then 0 else j - 1)
  }

  /** What the burst and the rate leave for a packet now, judged from start j alone. */
  function Allowance(b: Bucket, log: seq<Check>, now: real, j: nat): real
    requires j <= |log| + 1
  {
    b.capacity + Earned(b.rate, now - StartAt(b, log, now, j)) - AllowedSince(log, j) as real
  }

  ghost predicate Ordered(b: Bucket, log: seq<Check>) {
    (forall i :: 0 <= i < |log| ==> b.origin <= log[i].at) &&
    (forall i, j :: 0 <= i <= j < |log| ==> log[i].at <= log[j].at)
  }

  ghost predicate IsLeastAllowance(x: real, b: Bucket, log: seq<Check>, now: real) {
    && (forall j: nat :: j <= |log| + 1 ==> x <= Allowance(b, log, now, j))
    && (exists j: nat :: j <= |log| + 1 && x == Allowance(b, log, now, j))
  }

  lemma {:induction false} AllowedSnoc(log: seq<Check>, c: Check, i: nat)
    requires i <= |log|
    ensures AllowedFrom(log + [c], i) == AllowedFrom(log, i) + if c.allowed then 1 else 0
    decreases |log| - i
  {
    if i < |log| {
      AllowedSnoc(log, c, i + 1);
    } else {
      assert AllowedFrom(log + [c], |log| + 1) == 0;
    }
  }

  /** A check shifts all earlier allowances alike; only the allowance from now is new. */
  lemma {:induction false} AllowanceSnoc(b: Bucket, log: seq<Check>, c: Check, now: real, j: nat)
    requires j <= |log| + 1
    ensures Allowance(b, log + [c], now, j)
      == Allowance(b, log, c.at, j) + Earned(b.rate, now - c.at) - if c.allowed then 1.0 else 0.0
  {
    AllowedSnoc(log, c, if j == 0 then 0 else j - 1);
    var s := StartAt(b, log, c.at, j);
    assert StartAt(b, log + [c], now, j) == s;
    EarnedSum(b.rate, c.at - s, now - c.at);
    assert (c.at - s) + (now - c.at) == now - s;
    hide Earned;
  }

  lemma {:induction false} LeastSnoc(b: Bucket, log: seq<Check>, c: Check, now: real, x: real)
    requires IsLeastAllowance(x, b, log, c.at)
    ensures IsLeastAllowance(
      Min(b.capacity, x - (if c.allowed then 1.0 else 0.0) + Earned(b.rate, now - c.at)), b, log + [c], now)
  {
    hide Earned;
    var d := Earned(b.rate, now - c.at) - if c.allowed then 1.0 else 0.0;
    var y := Min(b.capacity, x + d);
    assert AllowedFrom(log + [c], |log| + 1) == 0;
    assert Allowance(b, log + [c], now, |log| + 2) == b.capacity by { EarnedNothing(b.rate); }
    forall j: nat | j <= |log| + 2 ensures y <= Allowance(b, log + [c], now, j) {
      if j <= |log| + 1 { AllowanceSnoc(b, log, c, now, j); }
    }
    var i: nat :| i <= |log| + 1 && x == Allowance(b, log, c.at, i);
    AllowanceSnoc(b, log, c, now, i);
    assert y == Allowance(b, log + [c], now, if x + d <= b.capacity then i else |log| + 2);
  }

  /** The tokens after a refill are exactly the least allowance over all starts: the burst and the
      rate over the interval, less what was let through in it. */
  lemma {:induction false} RefillIsLeastAllowance(b: Bucket, log: seq<Check>, now: real)
    requires b.rate >= 0.0 && Latest(b, log) <= now && Ordered(b, log)
    ensures IsLeastAllowance(Refilled(b, log, now), b, log, now)
  {
    hide Earned;
    EarnedNothing(b.rate);
    if log == [] {
      EarnedGrows(b.rate, now - b.origin, 0.0);
      assert Allowance(b, log, now, 1) == b.capacity && Allowance(b, log, now, 0) >= b.capacity;
    } else {
      var init, c := log[..|log| - 1], log[|log| - 1];
      assert init + [c] == log && Latest(b, init) <= c.at && Ordered(b, init);
      assert Refilled(b, log, now)
        == Min(b.capacity, Refilled(b, init, c.at) - (if c.allowed then 1.0 else 0.0) + Earned(b.rate, now - c.at));
      hide Refilled, Allowance, Ordered, IsLeastAllowance, Min;
      RefillIsLeastAllowance(b, init, c.at);
      LeastSnoc(b, init, c, now, Refilled(b, init, c.at));
    }
  }

  // ---------- what the bound means for decisions and intervals ----------

  /** Letting a packet through now keeps the number let through since each start, this packet
      included, within the burst plus the rate over the time since. */
  ghost predicate Admissible(b: Bucket, log: seq<Check>, now: real) {
    forall j: nat :: j <= |log| + 1 ==> Allowance(b, log, now, j) >= 1.0
  }

  lemma {:induction false} EnoughTokensIffAdmissible(b: Bucket, log: seq<Check>, now: real)
    requires b.rate >= 0.0 && Latest(b, log) <= now && Ordered(b, log)
    ensures Refilled(b, log, now) >= 1.0 <==> Admissible(b, log, now)
  {
    RefillIsLeastAllowance(b, log, now);
    hide Refilled, Allowance, Ordered, Latest;
  }

  /** Every decision in the history was made by the limiter. */
  ghost predicate Decided(b: Bucket, log: seq<Check>) {
    forall i :: 0 <= i < |log| ==> (log[i].allowed <==> Admissible(b, log[..i], log[i].at))
  }

  /** How many packets were let through by checks i to k. */
  function AllowedIn(log: seq<Check>, i: nat, k: nat): nat
    requires i <= k < |log|
  {
    AllowedFrom(log[..k + 1], i)
  }

  lemma {:induction false} AdmittedWithin(b: Bucket, log: seq<Check>, i: nat, now: real)
    requires i <= |log| && Admissible(b, log, now)
    ensures AllowedFrom(log, i) as real + 1.0
      <= b.capacity + Earned(b.rate, now - if i < |log| then log[i].at else now)
  {
    assert Allowance(b, log, now, i + 1) >= 1.0;
  }

  lemma {:induction false} EarnedBound(b: Bucket, log: seq<Check>, i: nat, k: nat)
    requires i <= k < |log| && b.rate >= 0.0 && b.capacity >= 0.0 && Ordered(b, log) && Decided(b, log)
    ensures AllowedIn(log, i, k) as real <= b.capacity + Earned(b.rate, log[k].at - log[i].at)
    decreases k
  {
    assert log[..k + 1] == log[..k] + [log[k]] && (i == k ==> AllowedFrom(log[..k], i) == 0);
    assert log[k].allowed ==> Admissible(b, log[..k], log[k].at);
    assert log[i].at <= log[k].at && (i < k ==> log[i].at <= log[k - 1].at <= log[k].at);
    assert AllowedIn(log, i, k) == AllowedFrom(log[..k + 1], i) && (i < k ==> AllowedIn(log, i, k - 1) == AllowedFrom(log[..k], i));
    hide *;
    EarnedNothing(b.rate);
    AllowedSnoc(log[..k], log[k], i);
    EarnedGrows(b.rate, log[k].at - log[i].at, 0.0);
    if log[k].allowed {
      AdmittedWithin(b, log[..k], i, log[k].at);
    } else if i < k {
      EarnedBound(b, log, i, k - 1);
      EarnedGrows(b.rate, log[k].at - log[i].at, log[k - 1].at - log[i].at);
    }
  }

  /** No interval admits more than the burst plus the rate times its length. */
  lemma {:induction false} IntervalBound(b: Bucket, log: seq<Check>, i: nat, k: nat)
    requires i <= k < |log| && b.rate >= 0.0 && b.capacity >= 0.0 && Ordered(b, log) && Decided(b, log)
    ensures AllowedIn(log, i, k) as real <= b.capacity + (log[k].at - log[i].at) * b.rate
  {
    hide Earned, Ordered, Decided, AllowedIn;
    EarnedBound(b, log, i, k);
    EarnedIs(b.rate, log[k].at - log[i].at);
  }

  /** Written out: a packet is admissible if and only if there is a burst of at least one, and the
      packets let through since the origin, and since each check, this one included, are at most the
      burst plus the rate times the time since. */
  lemma {:induction false} AdmissibleIff(b: Bucket, log: seq<Check>, now: real)
    ensures Admissible(b, log, now) ==
      (b.capacity >= 1.0
       && AllowedFrom(log, 0) as real + 1.0 <= b.capacity + (now - b.origin) * b.rate
       && forall i :: 0 <= i < |log| ==> AllowedFrom(log, i) as real + 1.0 <= b.capacity + (now - log[i].at) * b.rate)
  {
    hide Earned, AllowedFrom;
    AllowanceAtEnds(b, log, now);
    forall i | 0 <= i < |log|
      ensures Allowance(b, log, now, i + 1) == b.capacity + (now - log[i].at) * b.rate - AllowedFrom(log, i) as real
    {
      EarnedIs(b.rate, now - log[i].at);
    }
    if Admissible(b, log, now) {
      forall i | 0 <= i < |log| ensures AllowedFrom(log, i) as real + 1.0 <= b.capacity + (now - log[i].at) * b.rate {
        assert Allowance(b, log, now, i + 1) >= 1.0;
      }
      assert Allowance(b, log, now, 0) >= 1.0 && Allowance(b, log, now, |log| + 1) >= 1.0;
    } else {
      var j: nat :| j <= |log| + 1 && Allowance(b, log, now, j) < 1.0;
      if 1 <= j <= |log| {
        assert Allowance(b, log, now, (j - 1) + 1) < 1.0;
      }
    }
  }

  lemma {:induction false} AllowanceAtEnds(b: Bucket, log: seq<Check>, now: real)
    ensures Allowance(b, log, now, 0) == b.capacity + (now - b.origin) * b.rate - AllowedFrom(log, 0) as real
    ensures Allowance(b, log, now, |log| + 1) == b.capacity
  {
  }

  lemma {:induction false} LogSnoc(b: Bucket, log: seq<Check>, c: Check)
    requires Ordered(b, log) && Decided(b, log) && Latest(b, log) <= c.at
    requires c.allowed <==> Admissible(b, log, c.at)
    ensures Ordered(b, log + [c]) && Decided(b, log + [c]) && Latest(b, log + [c]) == c.at
    ensures TokensAfter(b, log + [c]) == Refilled(b, log, c.at) - if c.allowed then 1.0 else 0.0
    ensures AllowedFrom(log + [c], 0) == AllowedFrom(log, 0) + if c.allowed then 1 else 0
  {
    hide Admissible, Refilled;
    assert (log + [c])[..|log|] == log;
    AllowedSnoc(log, c, 0);
    forall i | 0 <= i < |log| ensures (log + [c])[..i] == log[..i] {}
  }

  lemma {:induction false} NeverOverfull(b: Bucket, log: seq<Check>)
    ensures TokensAfter(b, log) <= b.capacity
  {
  }

  // ---------- the program ----------

  class Limiter {
    var tokens: real
    var capacity: real
    var rate: real
    var lastRefill: Timespec
    var dropped: nat
    var allowed: nat
    ghost var origin: real
    ghost var log: seq<Check>

    ghost function Spec(): Bucket
      reads this
    {
      Bucket(capacity, rate, origin)
    }

    ghost predicate Valid()
      reads this
    {
      && capacity > 0.0 && rate > 0.0
      && tokens == TokensAfter(Spec(), log) && Instant(lastRefill) == Latest(Spec(), log)
      && Ordered(Spec(), log) && Decided(Spec(), log)
      && allowed == AllowedFrom(log, 0) && dropped == |log| - allowed
    }

    constructor ()
    {
      tokens, capacity, rate, lastRefill, dropped, allowed := 0.0, 0.0, 0.0, Timespec(0, 0), 0, 0;
      origin, log := 0.0, [];
    }

    method Init(ratePps: real, burst: real, now: Timespec) returns (r: int)
      modifies this
      ensures if ratePps <= 0.0 || burst <= 0.0
        then r == -22 && unchanged(this)
        else r == 0 && tokens == burst && allowed == dropped == 0 && Valid() && Spec() == Bucket(burst, ratePps, Instant(now)) && log == []
    {
      if ratePps <= 0.0 || burst <= 0.0 {
        return -EINVAL;
      }
      dropped, allowed := 0, 0;
      rate := ratePps;
      capacity := burst;
      tokens := burst;
      lastRefill := now;
      origin, log := Instant(now), [];
      return 0;
    }

    /** A packet is dropped if and only if letting it through would break the bound for some start. */
    method CheckPacket(now: Timespec) returns (r: int)
      requires Valid() && Instant(lastRefill) <= Instant(now)
      modifies this
      ensures Valid() && Spec() == old(Spec())
      ensures r == if Admissible(Spec(), old(log), Instant(now)) then 1 else 0
      ensures log == old(log) + [Check(Instant(now), r == 1)]
      ensures allowed == old(allowed) + r && dropped == old(dropped) + 1 - r
    {
      hide Earned, Instant, DiffSec, Admissible, Ordered, Decided, AllowedFrom, TokensAfter, Latest;
      ghost var b, t := Spec(), Instant(now);
      EarnedNothing(rate);
      EarnedIs(rate, DiffSec(now, lastRefill));
      EnoughTokensIffAdmissible(b, log, t);
      DiffOfInstants(now, lastRefill);
      NeverOverfull(b, log);
      LogSnoc(b, log, Check(t, Refilled(b, log, t) >= 1.0));
      var elapsed := DiffSec(now, lastRefill);
      if elapsed > 0.0 {
        tokens := tokens + elapsed * rate;
        if tokens > capacity {
          tokens := capacity;
        }
        lastRefill := now;
      }
      assert tokens == Refilled(b, log, t);
      hide Refilled;
      if tokens >= 1.0 {
        tokens := tokens - 1.0;
        allowed := allowed + 1;
        r := 1;
      } else {
        dropped := dropped + 1;
        r := 0;
      }
      log := log + [Check(t, r == 1)];
    }

    method Reset(now: Timespec)
      requires Valid()
      modifies this
      ensures Valid() && Spec() == Bucket(old(capacity), old(rate), Instant(now)) && log == []
      ensures tokens == capacity && allowed == dropped == 0
    {
      tokens := capacity;
      dropped, allowed := 0, 0;
      lastRefill := now;
      origin, log := Instant(now), [];
    }
  }
}

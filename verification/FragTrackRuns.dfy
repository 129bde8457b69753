/** What every run of the fragment tracker conserves, and that it agrees with the defragmenter. */
module FragTrackRuns {
  import opened FragTrack
  import D = IpDefrag
  import R = IpDefragRuns
  import opened Bytes
  import opened Widths

  // ---------- conservation over every run ----------

  datatype Call =
    | Add(key: FragKey, piece: Piece, now: int)
    | Expire(now: int)
    | Remove(key: FragKey)

  function Step(t: Tracker, capacity: nat, c: Call): Tracker {
    match c
    case Add(k, p, now) => AfterAdd(t, capacity, k, p, now).0
    case Expire(now) => AfterExpiry(t, now)
    case Remove(k) => AfterRemoval(t, k)
  }

  function Run(capacity: nat, cs: seq<Call>): Tracker {
    if cs == [] then EMPTY else Step(Run(capacity, cs[..|cs| - 1]), capacity, cs[|cs| - 1])
  }

  /** Every entry created is still active, was removed on request, or was evicted by age; the counter
      of expired entries has exactly those evicted incomplete; never more than the capacity are active;
      and every entry is filed under its own key with at most as many pieces as it can hold. */
  ghost predicate Conserved(t: Tracker, capacity: nat) {
    && t.created == |t.m| + t.removed + t.evicted
    && t.evicted == t.expired + t.evictedComplete
    && |t.m| <= capacity
    && forall k :: k in t.m ==> t.m[k].key == k && |t.m[k].pieces| <= MAX_FRAGS
  }

  /** What age evicts was either complete or is counted as expired. */
  lemma {:induction false} KeptSize(m: map<FragKey, Entry>, now: int)
    ensures |Kept(m, now)| == |m| - |m.Keys - Kept(m, now).Keys|
    ensures |m.Keys - Kept(m, now).Keys| == |Lost(m, now)| + |Done(m, now)|
  {
    var gone := m.Keys - Kept(m, now).Keys;
    assert Kept(m, now).Keys == m.Keys - gone && gone <= m.Keys;
    assert gone == Lost(m, now) + Done(m, now) && Lost(m, now) !! Done(m, now);
  }

  lemma {:induction false} SubsetSize<T>(a: set<T>, b: set<T>)
    requires a <= b
    ensures |a| <= |b|
  {
    assert b == a + (b - a);
  }

  lemma {:induction false} ExpiryConserves(t: Tracker, capacity: nat, now: int)
    requires Conserved(t, capacity)
    ensures Conserved(AfterExpiry(t, now), capacity)
  {
    KeptSize(t.m, now);
  }

  lemma {:induction false} CreationConserves(t: Tracker, capacity: nat, k: FragKey, now: int)
    requires Conserved(t, capacity) && k !in t.m && |t.m| < capacity
    ensures Conserved(Created(t, k, now), capacity)
  {
  }

  lemma {:induction false} NotingConserves(t: Tracker, capacity: nat, k: FragKey, p: Piece, now: int)
    requires Conserved(t, capacity) && k in t.m
    ensures Conserved(NotedIn(t, k, t.m[k], p, now).0, capacity)
  {
  }

  lemma {:induction false} AddConserves(t0: Tracker, capacity: nat, k: FragKey, p: Piece, now: int)
    requires Conserved(t0, capacity)
    ensures Conserved(AfterAdd(t0, capacity, k, p, now).0, capacity)
  {
    ExpiryConserves(t0, capacity, now);
    var t := AfterExpiry(t0, now);
    hide AfterExpiry, NotedIn;
    if k in t.m {
      NotingConserves(t, capacity, k, p, now);
    } else if |t.m| < capacity {
      CreationConserves(t, capacity, k, now);
      NotingConserves(Created(t, k, now), capacity, k, p, now);
    }
  }

  lemma {:induction false} RemovalConserves(t: Tracker, capacity: nat, k: FragKey)
    requires Conserved(t, capacity)
    ensures Conserved(AfterRemoval(t, k), capacity)
  {
  }

  lemma {:induction false} RunConserves(capacity: nat, cs: seq<Call>)
    ensures Conserved(Run(capacity, cs), capacity)
  {
    if cs != [] {
      var init, c := cs[..|cs| - 1], cs[|cs| - 1];
      RunConserves(capacity, init);
      match c {
        case Add(k, p, now) => AddConserves(Run(capacity, init), capacity, k, p, now);
        case Expire(now) => ExpiryConserves(Run(capacity, init), capacity, now);
        case Remove(k) => RemovalConserves(Run(capacity, init), capacity, k);
      }
    }
  }

  /** An addition is refused exactly when, after old entries are evicted, its entry holds as many
      pieces as it can or there is no entry and no room; every refusal is counted. Whatever becomes
      of it, the entries of all other keys are only subject to eviction. */
  lemma {:induction false} AddTouchesOnlyItsFlow(t0: Tracker, capacity: nat, k: FragKey, p: Piece, now: int)
    ensures var (t, r) := AfterAdd(t0, capacity, k, p, now); var m := Kept(t0.m, now);
      && (r == -1 <==> if k in m then |m[k].pieces| >= MAX_FRAGS else |m| >= capacity)
      && t.dropped == t0.dropped + (if r == -1 then 1 else 0) && (r == -1 ==> t.m == m)
      && (forall j :: j != k ==> (j in t.m <==> j in m) && (j in m ==> t.m[j] == m[j]))
      && (r == 0 ==> (k in t.m && t.m[k].lastSeen == now && t.m[k].pieces == (if k in m then m[k].pieces else []) + [p]))
  {
  }

  /** What an accepted addition leaves in its entry and counts. `m` is the table after eviction. */
  lemma {:induction false} AddedIs(t0: Tracker, capacity: nat, k: FragKey, p: Piece, now: int)
    ensures var (t, r) := AfterAdd(t0, capacity, k, p, now); var m := Kept(t0.m, now);
      r == 0 ==>
        && k in t.m && t.m[k].key == (if k in m then m[k].key else k)
        && var e := t.m[k];
        && e.pieces == (if k in m then m[k].pieces else []) + [p]
        && e.firstSeen == (if k in m then m[k].firstSeen else now) && e.lastSeen == now
        && e.totalLen == (if !p.more then (p.offset + p.size) % 0x1_0000 else if k in m then m[k].totalLen else 0)
        && var reached := e.totalLen > 0 && SizeSum(e.pieces) % 0x1_0000 >= e.totalLen;
        && (e.complete <==> (k in m && m[k].complete) || reached)
        && t.reassembled == t0.reassembled + if reached then 1 else 0
  {
    CoveredIsSum((if k in Kept(t0.m, now) then Kept(t0.m, now)[k].pieces else []) + [p]);
    hide CoveredLen, SizeSum;
  }

  // ---------- when an entry is active ----------

  /** Eviction: what was last seen more than 30 seconds ago goes, what was not stays as it is. */
  lemma {:induction false} EvictionIs(t: Tracker, now: int)
    ensures var m := AfterExpiry(t, now).m;
      && (forall k :: k in m <==> k in t.m && now - t.m[k].lastSeen <= 30)
      && (forall k :: k in m ==> m[k] == t.m[k])
    ensures AfterExpiry(t, now).expired == t.expired + |set k | k in t.m && now - t.m[k].lastSeen > 30 && !t.m[k].complete|
  {
    assert Lost(t.m, now) == set k | k in t.m && now - t.m[k].lastSeen > 30 && !t.m[k].complete;
  }

  function ResultOf(capacity: nat, cs: seq<Call>, c: Call): int
    requires c.Add?
  {
    AfterAdd(Run(capacity, cs), capacity, c.key, c.piece, c.now).1
  }

  /** Call i of the run is an accepted addition for k. */
  predicate Adds(capacity: nat, cs: seq<Call>, i: nat, k: FragKey)
    requires i < |cs|
  {
    cs[i].Add? && cs[i].key == k && ResultOf(capacity, cs[..i], cs[i]) == 0
  }

  function TimeOf(c: Call): int { if c.Remove? then 0 else c.now }

  /** Call i ends the activity of an entry of k last seen at `seen`: it removes k, or evicts by age. */
  predicate Ends(cs: seq<Call>, i: nat, k: FragKey, seen: int)
    requires i < |cs|
  {
    if cs[i].Remove? then cs[i].key == k else TimeOf(cs[i]) - seen > 30
  }

  /** Call i makes or ends the activity of an entry of k last seen at `seen`. */
  predicate Touches(capacity: nat, cs: seq<Call>, i: nat, k: FragKey, seen: int)
    requires i < |cs|
  {
    Adds(capacity, cs, i, k) || Ends(cs, i, k, seen)
  }

  /** Call i is the last accepted addition for k, and no later call ends the entry's activity. */
  ghost predicate KeptSince(capacity: nat, cs: seq<Call>, i: nat, k: FragKey)
    requires i < |cs|
  {
    Adds(capacity, cs, i, k) && forall j :: i < j < |cs| ==> !Touches(capacity, cs, j, k, TimeOf(cs[i]))
  }

  lemma {:induction false} RunStep(capacity: nat, cs: seq<Call>, k: FragKey)
    requires cs != []
    ensures var t, t', c := Run(capacity, cs[..|cs| - 1]), Run(capacity, cs), cs[|cs| - 1];
      if Adds(capacity, cs, |cs| - 1, k) then k in t'.m && t'.m[k].lastSeen == TimeOf(c)
      else
        && (k in t'.m <==> k in t.m && !Ends(cs, |cs| - 1, k, t.m[k].lastSeen))
        && (k in t'.m ==> t'.m[k] == t.m[k])
  {
    var t, c := Run(capacity, cs[..|cs| - 1]), cs[|cs| - 1];
    if c.Add? {
      AddTouchesOnlyItsFlow(t, capacity, c.key, c.piece, c.now);
      EvictionIs(t, c.now);
    } else if c.Expire? {
      EvictionIs(t, c.now);
    }
  }

  lemma {:induction false} TouchesInit(capacity: nat, cs: seq<Call>, i: nat, k: FragKey, seen: int)
    requires i < |cs| - 1
    ensures Adds(capacity, cs, i, k) <==> Adds(capacity, cs[..|cs| - 1], i, k)
    ensures Touches(capacity, cs, i, k, seen) <==> Touches(capacity, cs[..|cs| - 1], i, k, seen)
  {
    assert cs[..i] == cs[..|cs| - 1][..i];
  }

  lemma {:induction false} KeptSinceStep(capacity: nat, cs: seq<Call>, i: nat, k: FragKey)
    requires i < |cs| - 1
    ensures KeptSince(capacity, cs, i, k)
      == (KeptSince(capacity, cs[..|cs| - 1], i, k) && !Touches(capacity, cs, |cs| - 1, k, TimeOf(cs[i])))
  {
    hide Adds, Ends, Touches, TimeOf;
    var init, seen := cs[..|cs| - 1], TimeOf(cs[i]);
    TouchesInit(capacity, cs, i, k, seen);
    forall j: nat | j < |init| ensures Touches(capacity, cs, j, k, seen) == Touches(capacity, init, j, k, seen) {
      TouchesInit(capacity, cs, j, k, seen);
    }
  }

  lemma {:induction false} TouchesIs(capacity: nat, cs: seq<Call>, i: nat, k: FragKey, seen: int)
    requires i < |cs|
    ensures Touches(capacity, cs, i, k, seen) <==> Adds(capacity, cs, i, k) || Ends(cs, i, k, seen)
    ensures KeptSince(capacity, cs, i, k) ==> Adds(capacity, cs, i, k)
    ensures i == |cs| - 1 && Adds(capacity, cs, i, k) ==> KeptSince(capacity, cs, i, k)
  {
  }

  /** The entry of k is active because of call i, and was last seen then. */
  ghost predicate ActiveBy(capacity: nat, cs: seq<Call>, i: nat, k: FragKey) {
    i < |cs| && KeptSince(capacity, cs, i, k) && k in Run(capacity, cs).m && Run(capacity, cs).m[k].lastSeen == TimeOf(cs[i])
  }

  /** A key is active only if some addition of it was accepted and, since the last of those, it was
      not removed, and no addition or expiry came more than 30 seconds later; it was last seen then. */
  lemma {:induction false} ActiveHasReason(capacity: nat, cs: seq<Call>, k: FragKey) returns (i: nat)
    requires cs != [] && k in Run(capacity, cs).m
    ensures ActiveBy(capacity, cs, i, k)
  {
    hide Adds, Ends, Run, KeptSince, Touches;
    var last := |cs| - 1;
    RunStep(capacity, cs, k);
    TouchesIs(capacity, cs, last, k, 0);
    if Adds(capacity, cs, last, k) {
      i := last;
    } else {
      NothingActive(capacity, k);
      i := ActiveHasReason(capacity, cs[..last], k);
      KeptSinceStep(capacity, cs, i, k);
      TouchesIs(capacity, cs, last, k, TimeOf(cs[i]));
    }
  }

  lemma {:induction false} NothingActive(capacity: nat, k: FragKey)
    ensures k !in Run(capacity, []).m
  {
  }

  /** And whenever that is so, it is active. */
  lemma {:induction false} ReasonIsActive(capacity: nat, cs: seq<Call>, i: nat, k: FragKey)
    requires i < |cs| && KeptSince(capacity, cs, i, k)
    ensures ActiveBy(capacity, cs, i, k)
  {
    hide Adds, Ends, Run, KeptSince, Touches;
    var last := |cs| - 1;
    RunStep(capacity, cs, k);
    TouchesIs(capacity, cs, last, k, TimeOf(cs[i]));
    if i < last {
      KeptSinceStep(capacity, cs, i, k);
      ReasonIsActive(capacity, cs[..last], i, k);
    }
  }

  lemma {:induction false} ActiveIff(capacity: nat, cs: seq<Call>, k: FragKey)
    ensures k in Run(capacity, cs).m <==> exists i: nat :: i < |cs| && KeptSince(capacity, cs, i, k)
  {
    hide KeptSince, Run;
    NothingActive(capacity, k);
    if cs != [] && k in Run(capacity, cs).m {
      var i := ActiveHasReason(capacity, cs, k);
    }
    if i: nat :| i < |cs| && KeptSince(capacity, cs, i, k) {
      ReasonIsActive(capacity, cs, i, k);
    }
  }

  // ---------- agreement with the defragmenter ----------

  function PieceOf(f: D.Frag): Piece { Piece(f.offset, |f.payload|, f.more) }

  /** The tracker fed with one flow's fragments, fs[i] at time ts[i]. */
  function Feed(t: Tracker, capacity: nat, k: FragKey, fs: seq<D.Frag>, ts: seq<int>): Tracker
    requires |fs| == |ts|
  {
    if fs == [] then t
    else AfterAdd(Feed(t, capacity, k, fs[..|fs| - 1], ts[..|ts| - 1]), capacity, k,
                  PieceOf(fs[|fs| - 1]), ts[|ts| - 1]).0
  }

  /** The times never leave the flow's own entry idle for longer than the timeout. */
  ghost predicate Timely(ts: seq<int>) {
    forall i :: 0 < i < |ts| ==> ts[i - 1] <= ts[i] <= ts[i - 1] + TIMEOUT_SEC
  }

  /** What both trackers can represent: lengths in 16 bits, a datagram that is not empty. */
  ghost predicate Fits(fs: seq<D.Frag>) {
    && |fs| <= MAX_FRAGS && D.MAX_DATAGRAM >= R.FlowOf(fs).received
    && forall i :: 0 <= i < |fs| ==> D.End(fs[i]) <= D.MAX_DATAGRAM && (!fs[i].more ==> D.End(fs[i]) > 0)
  }

  /** The defragmenter has reported completion by the end of these fragments. */
  ghost predicate EverComplete(fs: seq<D.Frag>) {
    exists n :: 0 < n <= |fs| && D.StatusOf(R.FlowOf(fs[..n])) == D.Complete
  }

  /** How often it has. */
  function Completions(fs: seq<D.Frag>): nat {
    if fs == [] then 0
    else Completions(fs[..|fs| - 1]) + if D.StatusOf(R.FlowOf(fs)) == D.Complete then 1 else 0
  }

  lemma {:induction false} FitsInit(fs: seq<D.Frag>)
    requires fs != [] && Fits(fs)
    ensures Fits(fs[..|fs| - 1])
  {
  }

  lemma {:induction false} EverCompleteStep(fs: seq<D.Frag>)
    requires fs != []
    ensures EverComplete(fs) <==> EverComplete(fs[..|fs| - 1]) || D.StatusOf(R.FlowOf(fs)) == D.Complete
  {
    var init := fs[..|fs| - 1];
    assert fs[..|fs|] == fs;
    if EverComplete(init) {
      var n :| 0 < n <= |init| && D.StatusOf(R.FlowOf(init[..n])) == D.Complete;
      assert init[..n] == fs[..n];
    }
    if EverComplete(fs) {
      var n :| 0 < n <= |fs| && D.StatusOf(R.FlowOf(fs[..n])) == D.Complete;
      if n < |fs| { assert init[..n] == fs[..n]; }
    }
  }

  /** The entry follows the flow: same count of bytes, same total, complete once the flow ever was. */
  ghost predicate Follows(e: Entry, fs: seq<D.Frag>) {
    var w := R.FlowOf(fs);
    && |e.pieces| == |fs| && CoveredLen(e.pieces) == w.received
    && e.totalLen == (if w.last then w.total else 0) && (w.last ==> w.total > 0)
    && (e.complete <==> EverComplete(fs))
  }

  lemma {:induction false} CoveredSnoc(ps: seq<Piece>, p: Piece)
    requires CoveredLen(ps) + p.size < U16
    ensures CoveredLen(ps + [p]) == CoveredLen(ps) + p.size
  {
  }

  lemma {:induction false} FollowStep(e: Entry, fs: seq<D.Frag>, now: int)
    requires fs != [] && Fits(fs) && Follows(e, fs[..|fs| - 1])
    ensures var p := PieceOf(fs[|fs| - 1]);
      Follows(Recorded(e, p, now), fs) && (Completes(Noted(e, p, now)) <==> D.StatusOf(R.FlowOf(fs)) == D.Complete)
  {
    var f := fs[|fs| - 1];
    assert D.End(f) <= D.MAX_DATAGRAM && (!f.more ==> D.End(f) > 0);
    assert R.FlowOf(fs) == D.Extend(R.FlowOf(fs[..|fs| - 1]), f);
    CoveredSnoc(e.pieces, PieceOf(f));
    EverCompleteStep(fs);
    hide R.FlowOf, CoveredLen, EverComplete;
  }

  /** Whatever else is in the table and expires meanwhile, the flow's entry follows the flow, and the
      counter of reassembled datagrams counts the flow's completions. */
  lemma {:induction false} FeedFollows(t: Tracker, capacity: nat, k: FragKey, fs: seq<D.Frag>, ts: seq<int>)
    requires k !in t.m && |t.m| < capacity && |fs| == |ts| && Timely(ts) && Fits(fs) && fs != []
    ensures var t' := Feed(t, capacity, k, fs, ts);
      && k in t'.m && Follows(t'.m[k], fs) && t'.m[k].lastSeen == ts[|ts| - 1]
      && t'.reassembled == t.reassembled + Completions(fs)
  {
    var init, now := fs[..|fs| - 1], ts[|ts| - 1];
    FitsInit(fs);
    if init == [] {
      assert Feed(t, capacity, k, init, ts[..|ts| - 1]) == t && Completions(init) == 0;
      FirstFollows(t, capacity, k, fs, now);
    } else {
      assert ts[|ts| - 2] <= now <= ts[|ts| - 2] + TIMEOUT_SEC && Timely(ts[..|ts| - 1]);
      assert Feed(t, capacity, k, fs, ts)
        == AfterAdd(Feed(t, capacity, k, init, ts[..|ts| - 1]), capacity, k, PieceOf(fs[|fs| - 1]), now).0;
      assert Completions(fs) == Completions(init) + if D.StatusOf(R.FlowOf(fs)) == D.Complete then 1 else 0;
      hide AfterAdd, Fits, Follows, Timely, Feed, Completions, R.FlowOf, D.StatusOf, PieceOf;
      FeedFollows(t, capacity, k, init, ts[..|ts| - 1]);
      NextFollows(Feed(t, capacity, k, init, ts[..|ts| - 1]), capacity, k, fs, now);
    }
  }

  lemma {:induction false} FirstFollows(t: Tracker, capacity: nat, k: FragKey, fs: seq<D.Frag>, now: int)
    requires k !in t.m && |t.m| < capacity && |fs| == 1 && Fits(fs)
    ensures var t' := AfterAdd(t, capacity, k, PieceOf(fs[0]), now).0;
      && k in t'.m && Follows(t'.m[k], fs) && t'.m[k].lastSeen == now
      && t'.reassembled == t.reassembled + if D.StatusOf(R.FlowOf(fs)) == D.Complete then 1 else 0
  {
    assert fs[..0] == [] && Follows(FreshEntry(k, now), []);
    KeptSize(t.m, now);
    FollowStep(FreshEntry(k, now), fs, now);
    NoteFollows(t, capacity, k, FreshEntry(k, now), fs, now);
  }

  lemma {:induction false} NextFollows(t: Tracker, capacity: nat, k: FragKey, fs: seq<D.Frag>, now: int)
    requires |fs| > 1 && Fits(fs) && k in t.m && Follows(t.m[k], fs[..|fs| - 1])
    requires t.m[k].lastSeen <= now <= t.m[k].lastSeen + TIMEOUT_SEC
    ensures var t' := AfterAdd(t, capacity, k, PieceOf(fs[|fs| - 1]), now).0;
      && k in t'.m && Follows(t'.m[k], fs) && t'.m[k].lastSeen == now
      && t'.reassembled == t.reassembled + if D.StatusOf(R.FlowOf(fs)) == D.Complete then 1 else 0
  {
    assert |t.m[k].pieces| < MAX_FRAGS && k in Kept(t.m, now);
    hide AfterAdd, Follows, Completes, R.FlowOf, Fits;
    FollowStep(t.m[k], fs, now);
    NoteFollows(t, capacity, k, t.m[k], fs, now);
  }

  lemma {:induction false} NoteFollows(t: Tracker, capacity: nat, k: FragKey, e: Entry, fs: seq<D.Frag>, now: int)
    requires fs != [] && Fits(fs) && |e.pieces| < MAX_FRAGS
    requires var p := PieceOf(fs[|fs| - 1]);
      Follows(Recorded(e, p, now), fs) && (Completes(Noted(e, p, now)) <==> D.StatusOf(R.FlowOf(fs)) == D.Complete)
    requires if k in Kept(t.m, now) then e == t.m[k] else e == FreshEntry(k, now) && |Kept(t.m, now)| < capacity
    ensures var t' := AfterAdd(t, capacity, k, PieceOf(fs[|fs| - 1]), now).0;
      && k in t'.m && Follows(t'.m[k], fs) && t'.m[k].lastSeen == now
      && t'.reassembled == t.reassembled + if D.StatusOf(R.FlowOf(fs)) == D.Complete then 1 else 0
  {
  }

  /** Fed the same fragments, the tracker calls a datagram complete exactly when the defragmenter has
      reported it complete by then. */
  lemma {:induction false} TrackersAgree(t: Tracker, capacity: nat, k: FragKey, fs: seq<D.Frag>, ts: seq<int>)
    requires k !in t.m && |t.m| < capacity && |fs| == |ts| && Timely(ts) && Fits(fs) && fs != []
    ensures var t' := Feed(t, capacity, k, fs, ts);
      k in t'.m && (t'.m[k].complete <==> EverComplete(fs))
  {
    FeedFollows(t, capacity, k, fs, ts);
  }

  lemma {:induction false} FirstByteIsNew(fs: seq<D.Frag>)
    requires fs != [] && R.Disjoint(fs) && fs[|fs| - 1].payload != []
    ensures !R.Covered(fs[..|fs| - 1], fs[|fs| - 1].offset)
  {
  }

  /** A datagram cut into disjoint non-empty pieces completes only with its last missing piece. */
  lemma {:induction false} CompletesOnce(fs: seq<D.Frag>, d: seq<byte>)
    requires R.PiecesOf(fs, d) && R.Disjoint(fs)
    requires d != [] && forall i :: 0 <= i < |fs| ==> fs[i].payload != []
    ensures Completions(fs) == if R.Whole(fs, d) then 1 else 0
  {
    if fs == [] {
      assert !R.LastSeen(fs);
    } else {
      var init, f := fs[..|fs| - 1], fs[|fs| - 1];
      CompletesOnce(init, d);
      R.CompleteIffCovered(fs, d);
      assert R.PieceOf(f, d);
      FirstByteIsNew(fs);
      assert f.offset < |d| && !R.Whole(init, d);
    }
  }

  /** What pieces of one datagram completed stays complete, so a datagram is counted more than once
      if and only if a piece of it arrives when it already is complete. */
  lemma {:induction false} CountedAgainIff(fs: seq<D.Frag>, d: seq<byte>)
    requires R.PiecesOf(fs, d) && fs != []
    ensures Completions(fs) > 0 <==> D.StatusOf(R.FlowOf(fs)) == D.Complete
    ensures Completions(fs) > 1 <==> D.StatusOf(R.FlowOf(fs[..|fs| - 1])) == D.Complete
  {
    var init := fs[..|fs| - 1];
    R.TotalIsLength(fs, d);
    R.TotalIsLength(init, d);
    assert R.FlowOf(fs).received >= R.FlowOf(init).received;
    if init != [] {
      CountedAgainIff(init, d);
    }
  }

  lemma {:induction false} TwoCompletions(fs: seq<D.Frag>, d: seq<byte>)
    requires |d| == 1 && fs == [D.Frag(0, false, d), D.Frag(0, false, d)]
    ensures Completions(fs) == 2 && R.FlowOf(fs).received == 2
  {
    var first := fs[..1];
    assert fs[..|fs| - 1] == first && first[..|first| - 1] == [];
    assert Completions(first) == 1 && R.FlowOf(first).received == 1;
  }

  /** A datagram of one byte that is delivered twice is counted twice. */
  lemma {:induction false} CountedTwice(t: Tracker, capacity: nat, k: FragKey, fs: seq<D.Frag>, d: seq<byte>, now: int)
    requires k !in t.m && |t.m| < capacity && MAX_FRAGS >= 2
    requires |d| == 1 && fs == [D.Frag(0, false, d), D.Frag(0, false, d)]
    ensures R.PiecesOf(fs, d) && Feed(t, capacity, k, fs, [now, now]).reassembled == t.reassembled + 2
  {
    TwoCompletions(fs, d);
    assert Fits(fs);
    hide Completions, R.FlowOf, Follows;
    FeedFollows(t, capacity, k, fs, [now, now]);
  }

  /** So the tracker counts each such datagram exactly once, when its last missing piece arrives. */
  lemma {:induction false} ReassembledOnce(t: Tracker, capacity: nat, k: FragKey, fs: seq<D.Frag>, ts: seq<int>, d: seq<byte>)
    requires k !in t.m && |t.m| < capacity && |fs| == |ts| && Timely(ts) && 0 < |fs| <= MAX_FRAGS
    requires R.PiecesOf(fs, d) && R.Disjoint(fs) && 0 < |d| <= D.MAX_DATAGRAM
    requires forall i :: 0 <= i < |fs| ==> fs[i].payload != []
    ensures Feed(t, capacity, k, fs, ts).reassembled == t.reassembled + if R.Whole(fs, d) then 1 else 0
  {
    R.CountIsCoverage(fs);
    R.DisjointRepeatsNothing(fs);
    R.CellsAreOriginal(fs, d);
    assert R.FlowOf(fs).cells.Keys <= R.Range(0, |d|);
    SubsetSize(R.FlowOf(fs).cells.Keys, R.Range(0, |d|));
    forall i | 0 <= i < |fs|
      ensures D.End(fs[i]) <= D.MAX_DATAGRAM && (!fs[i].more ==> D.End(fs[i]) > 0)
    {
      assert R.PieceOf(fs[i], d);
    }
    FeedFollows(t, capacity, k, fs, ts);
    CompletesOnce(fs, d);
  }
}

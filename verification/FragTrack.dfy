/** src/fragtrack.c: fragment bookkeeping in a swap-compacted table, with eviction and statistics. */
module FragTrack {
  import opened SwapTable
  import opened Widths

  /** How many pieces an entry can hold: 16 in the program, any positive number here. */
  const MAX_FRAGS: Positive
  const TIMEOUT_SEC: int := 30

  datatype FragKey = FragKey(srcIp: nat, dstIp: nat, ipId: nat, protocol: nat)

  datatype Piece = Piece(offset: nat, size: nat, more: bool)

  datatype Entry = Entry(
    key: FragKey, pieces: seq<Piece>, totalLen: nat, complete: bool, firstSeen: int, lastSeen: int)

  // ---------- one entry ----------

  function FreshEntry(k: FragKey, now: int): Entry { Entry(k, [], 0, false, now, 0) }

  /** The sum of the sizes, in the 16 bits the program adds them in. */
  function CoveredLen(ps: seq<Piece>): nat {
    if ps == [] then 0 else (CoveredLen(ps[..|ps| - 1]) + ps[|ps| - 1].size) % U16
  }

  function Noted(e: Entry, p: Piece, now: int): Entry {
    e.(pieces := e.pieces + [p], lastSeen := now, totalLen := if p.more then e.totalLen else (p.offset + p.size) % U16)
  }

  predicate Completes(e: Entry) { e.totalLen > 0 && CoveredLen(e.pieces) >= e.totalLen }

  function Recorded(e: Entry, p: Piece, now: int): Entry {
    var e' := Noted(e, p, now);
    e'.(complete := e.complete || Completes(e'))
  }

  predicate Old(e: Entry, now: int) { now - e.lastSeen > TIMEOUT_SEC }

  // ---------- the table as a map, with its statistics ----------

  /** The entries by key; the program's counters; and, beyond what it counts, how many entries were
      created, removed on request, evicted by age at all and evicted when they were complete. */
  datatype Tracker = Tracker(
    m: map<FragKey, Entry>, reassembled: nat, dropped: nat, expired: nat,
    created: nat, removed: nat, evicted: nat, evictedComplete: nat)

  const EMPTY := Tracker(map[], 0, 0, 0, 0, 0, 0, 0)

  function Kept(m: map<FragKey, Entry>, now: int): map<FragKey, Entry> {
    map k | k in m && !Old(m[k], now) :: m[k]
  }

  /** The keys of the incomplete entries that age evicts. */
  function Lost(m: map<FragKey, Entry>, now: int): set<FragKey> {
    set k | k in m && Old(m[k], now) && !m[k].complete
  }

  /** The keys of the complete entries that age evicts. */
  function Done(m: map<FragKey, Entry>, now: int): set<FragKey> {
    set k | k in m && Old(m[k], now) && m[k].complete
  }

  function AfterExpiry(t: Tracker, now: int): Tracker {
    t.(m := Kept(t.m, now), expired := t.expired + |Lost(t.m, now)|,
       evicted := t.evicted + |t.m.Keys - Kept(t.m, now).Keys|, evictedComplete := t.evictedComplete + |Done(t.m, now)|)
  }

  function Created(t: Tracker, k: FragKey, now: int): Tracker {
    t.(m := t.m[k := FreshEntry(k, now)], created := t.created + 1)
  }

  /** Noting a piece in the entry e of key k. */
  function NotedIn(t: Tracker, k: FragKey, e: Entry, p: Piece, now: int): (Tracker, int) {
    if |e.pieces| >= MAX_FRAGS then (t.(dropped := t.dropped + 1), -1)
    else (t.(m := t.m[k := Recorded(e, p, now)],
             reassembled := t.reassembled + if Completes(Noted(e, p, now)) then 1 else 0), 0)
  }

  function AfterAdd(t0: Tracker, capacity: nat, k: FragKey, p: Piece, now: int): (Tracker, int) {
    var t := AfterExpiry(t0, now);
    if k in t.m then NotedIn(t, k, t.m[k], p, now)
    else if |t.m| < capacity then NotedIn(Created(t, k, now), k, FreshEntry(k, now), p, now)
    else (t.(dropped := t.dropped + 1), -1)
  }

  function AfterRemoval(t: Tracker, k: FragKey): Tracker {
    if k in t.m then t.(m := t.m - {k}, removed := t.removed + 1) else t
  }

  /** The sum of the sizes without a limit, of which the program keeps the remainder in 16 bits. */
  function SizeSum(ps: seq<Piece>): nat {
    if ps == [] then 0 else SizeSum(ps[..|ps| - 1]) + ps[|ps| - 1].size
  }

  lemma {:induction false} CoveredIsSum(ps: seq<Piece>)
    ensures CoveredLen(ps) == SizeSum(ps) % 0x1_0000
  {
    if ps != [] {
      CoveredIsSum(ps[..|ps| - 1]);
      CountOn16(SizeSum(ps[..|ps| - 1]), ps[|ps| - 1].size);
    }
  }

  // ---------- the sweep ----------

  function Pairs(es: seq<Entry>): (ps: seq<(FragKey, Entry)>)
    ensures |ps| == |es|
  {
    seq(|es|, i requires 0 <= i < |es| => (es[i].key, es[i]))
  }

  function MapOfEntries(es: seq<Entry>): map<FragKey, Entry> { ToMap(Pairs(es)) }

  ghost predicate OneEach(es: seq<Entry>) { Distinct(Pairs(es)) }

  /** The sweep from position i on: what remains, in its new order, and how many incomplete entries
      it evicts. */
  function Sweep(es: seq<Entry>, now: int, i: nat): (r: (seq<Entry>, nat))
    requires i <= |es|
    ensures |r.0| <= |es|
    decreases |es| - i
  {
    if i == |es| then (es, 0)
    else if Old(es[i], now) then
      var (rest, n) := Sweep(SwapOut(es, i), now, i);
      (rest, n + if es[i].complete then 0 else 1)
    else Sweep(es, now, i + 1)
  }

  lemma {:induction false} SweepStep(es: seq<Entry>, now: int, i: nat)
    requires i < |es|
    ensures if Old(es[i], now) then
        var (rest, n) := Sweep(SwapOut(es, i), now, i); Sweep(es, now, i) == (rest, n + if es[i].complete then 0 else 1)
      else Sweep(es, now, i) == Sweep(es, now, i + 1)
  {
  }

  lemma {:induction false} SweepEnd(es: seq<Entry>, now: int)
    ensures Sweep(es, now, |es|) == (es, 0)
  {
  }

  lemma {:induction false} EntriesOf(es: seq<Entry>)
    requires OneEach(es)
    ensures |MapOfEntries(es)| == |es|
    ensures forall i :: 0 <= i < |es| ==> es[i].key in MapOfEntries(es) && MapOfEntries(es)[es[i].key] == es[i]
    ensures forall k :: k in MapOfEntries(es) ==> exists i :: 0 <= i < |es| && es[i].key == k
  {
    var ps := Pairs(es);
    MapOf(ps);
    forall i | 0 <= i < |es|
      ensures es[i].key in MapOfEntries(es) && MapOfEntries(es)[es[i].key] == es[i]
    {
      assert ps[i] == (es[i].key, es[i]);
    }
    forall k | k in MapOfEntries(es) ensures exists i :: 0 <= i < |es| && es[i].key == k {
      var i :| 0 <= i < |ps| && ps[i].0 == k;
      assert es[i].key == k;
    }
  }

  lemma {:induction false} EntryOut(es: seq<Entry>, i: nat)
    requires OneEach(es) && i < |es|
    ensures OneEach(SwapOut(es, i)) && MapOfEntries(SwapOut(es, i)) == MapOfEntries(es) - {es[i].key}
  {
    assert Pairs(SwapOut(es, i)) == SwapOut(Pairs(es), i);
    SwapTable.Removed(Pairs(es), i);
  }

  lemma {:induction false} EntryIn(es: seq<Entry>, e: Entry)
    requires OneEach(es) && e.key !in MapOfEntries(es)
    ensures OneEach(es + [e]) && MapOfEntries(es + [e]) == MapOfEntries(es)[e.key := e]
  {
    assert Pairs(es + [e]) == Pairs(es) + [(e.key, e)];
    SwapTable.Added(Pairs(es), e.key, e);
  }

  lemma {:induction false} EntryChanged(es: seq<Entry>, i: nat, e: Entry)
    requires OneEach(es) && i < |es| && e.key == es[i].key
    ensures OneEach(es[i := e]) && MapOfEntries(es[i := e]) == MapOfEntries(es)[e.key := e]
  {
    assert Pairs(es[i := e]) == Pairs(es)[i := (e.key, e)];
    SwapTable.Changed(Pairs(es), i, e);
  }

  lemma {:induction false} KeptWithout(m: map<FragKey, Entry>, k: FragKey, now: int)
    requires k in m && Old(m[k], now)
    ensures Kept(m - {k}, now) == Kept(m, now)
    ensures |Lost(m, now)| == |Lost(m - {k}, now)| + if m[k].complete then 0 else 1
  {
    assert Kept(m - {k}, now) == Kept(m, now);
    assert Lost(m, now) == Lost(m - {k}, now) + if m[k].complete then {} else {k};
  }

  lemma {:induction false} AllKept(m: map<FragKey, Entry>, now: int)
    requires forall k :: k in m ==> !Old(m[k], now)
    ensures Kept(m, now) == m && Lost(m, now) == {}
  {
  }

  /** The sweep keeps exactly the entries within the timeout, unchanged, and counts exactly the
      incomplete ones among the others, whatever it does to their order. */
  lemma {:induction false} SweepKeepsFresh(es: seq<Entry>, now: int, i: nat)
    requires OneEach(es) && i <= |es| && forall j :: 0 <= j < i ==> !Old(es[j], now)
    ensures OneEach(Sweep(es, now, i).0)
    ensures MapOfEntries(Sweep(es, now, i).0) == Kept(MapOfEntries(es), now)
    ensures Sweep(es, now, i).1 == |Lost(MapOfEntries(es), now)|
    decreases |es| - i
  {
    EntriesOf(es);
    hide MapOfEntries, OneEach, Kept, Lost;
    if i == |es| {
      AllKept(MapOfEntries(es), now);
    } else if Old(es[i], now) {
      EntryOut(es, i);
      SweepKeepsFresh(SwapOut(es, i), now, i);
      KeptWithout(MapOfEntries(es), es[i].key, now);
    } else {
      SweepKeepsFresh(es, now, i + 1);
    }
  }

  // ---------- the program ----------

  method SumSizes(ps: seq<Piece>) returns (covered: nat)
    ensures covered == CoveredLen(ps)
  {
    covered := 0;
    for i := 0 to |ps|
      invariant covered == CoveredLen(ps[..i])
    {
      assert ps[..i + 1][..i] == ps[..i];
      covered := (covered + ps[i].size) % U16;
    }
    assert ps[..|ps|] == ps;
  }

  /** The changes to one entry when a piece is noted in it, and whether the piece completes it. */
  method Record(e: Entry, p: Piece, now: int) returns (e': Entry, done: bool)
    ensures e' == Recorded(e, p, now) && done == Completes(Noted(e, p, now))
  {
    e' := e.(pieces := e.pieces + [p], lastSeen := now);
    if !p.more {
      e' := e'.(totalLen := (p.offset + p.size) % U16);
    }
    done := false;
    if e'.totalLen > 0 {
      var covered := SumSizes(e'.pieces);
      if covered >= e'.totalLen {
        e' := e'.(complete := true);
        done := true;
      }
    }
  }

  class FragTracker {
    const entries: array<Entry>
    var count: nat
    var reassembled: nat
    var dropped: nat
    var expired: nat
    ghost var view: Tracker

    ghost predicate Valid()
      reads this, entries
    {
      && count <= entries.Length
      && OneEach(entries[..count]) && view.m == MapOfEntries(entries[..count])
      && view.reassembled == reassembled && view.dropped == dropped && view.expired == expired
    }

    /** Written out: one entry per key, filed in the map under its key, and the counters. */
    lemma {:induction false} TableIs()
      requires Valid()
      ensures count == |view.m| <= entries.Length
      ensures forall i :: 0 <= i < count ==> entries[i].key in view.m && view.m[entries[i].key] == entries[i]
      ensures forall i, j :: 0 <= i < j < count ==> entries[i].key != entries[j].key
      ensures reassembled == view.reassembled && dropped == view.dropped && expired == view.expired
    {
      ghost var es := entries[..count];
      EntriesOf(es);
      forall i, j | 0 <= i < j < count ensures entries[i].key != entries[j].key {
        assert Pairs(es)[i].0 == es[i].key && Pairs(es)[j].0 == es[j].key;
      }
      forall i | 0 <= i < count ensures entries[i].key in view.m && view.m[entries[i].key] == entries[i] {
        assert es[i] == entries[i];
      }
    }

    constructor (capacity: nat)
      ensures Valid() && entries.Length == capacity && view == EMPTY
    {
      entries := new Entry[capacity](_ => Entry(FragKey(0, 0, 0, 0), [], 0, false, 0, 0));
      count, reassembled, dropped, expired, view := 0, 0, 0, 0, EMPTY;
      new;
      assert Pairs(entries[..0]) == [];
    }

    method FindEntry(k: FragKey) returns (idx: int)
      requires Valid()
      ensures if k in view.m then 0 <= idx < count && entries[idx].key == k && entries[idx] == view.m[k] else idx == -1
      ensures |view.m| == count
    {
      EntriesOf(entries[..count]);
      for i := 0 to count
        invariant forall j :: 0 <= j < i ==> entries[j].key != k
      {
        if entries[i].key == k {
          assert entries[..count][i] == entries[i];
          return i;
        }
      }
      return -1;
    }

    /** Removes an entry by moving the last one into its place. */
    method TakeOut(idx: nat)
      requires idx < count <= entries.Length
      modifies this`count, entries
      ensures count == old(count) - 1
      ensures entries[..count] == SwapOut(old(entries[..count]), idx)
    {
      count := count - 1;
      entries[idx] := entries[count];
    }

    method Expire(now: int)
      requires Valid()
      modifies this, entries
      ensures Valid() && view == AfterExpiry(old(view), now)
    {
      ghost var es := entries[..count];
      hide Sweep, MapOfEntries, OneEach, Kept, Lost, SwapOut;
      var i := 0;
      ghost var cur := es;
      while i < count
        invariant i <= count <= entries.Length && entries[..count] == cur
        invariant Sweep(es, now, 0).0 == Sweep(cur, now, i).0
        invariant expired + Sweep(cur, now, i).1 == old(expired) + Sweep(es, now, 0).1
        invariant reassembled == old(reassembled) && dropped == old(dropped) && view == old(view)
        decreases count - i
      {
        SweepStep(cur, now, i);
        if now - entries[i].lastSeen > TIMEOUT_SEC {
          if !entries[i].complete {
            expired := expired + 1;
          }
          TakeOut(i);
          cur := SwapOut(cur, i);
        } else {
          i := i + 1;
        }
      }
      SweepEnd(cur, now);
      SweepKeepsFresh(es, now, 0);
      view := AfterExpiry(view, now);
    }

    method Remove(k: FragKey)
      requires Valid()
      modifies this, entries
      ensures Valid() && view.m == old(view).m - {k}
      ensures reassembled == old(reassembled) && dropped == old(dropped) && expired == old(expired)
      ensures view == old(view).(m := view.m, removed := old(view).removed + if k in old(view).m then 1 else 0)
      ensures view == AfterRemoval(old(view), k)
    {
      EntriesOf(entries[..count]);
      ghost var es := entries[..count];
      for i := 0 to count
        invariant count == |es| && entries[..count] == es
        invariant view == old(view) && Valid()
        invariant forall j :: 0 <= j < i ==> es[j].key != k
      {
        if entries[i].key == k {
          EntryOut(es, i);
          TakeOut(i);
          view := AfterRemoval(view, k);
          return;
        }
      }
    }

    method IsComplete(k: FragKey) returns (r: bool)
      requires Valid()
      ensures r == (k in view.m && view.m[k].complete)
    {
      var idx := FindEntry(k);
      return idx >= 0 && entries[idx].complete;
    }

    /** Notes a piece in an entry that was found or made, and checks it for completion. */
    method Note(idx: nat, p: Piece, now: int) returns (r: int)
      requires Valid() && idx < count && p.size < U16
      modifies this`reassembled, this`dropped, this`view, entries
      ensures Valid() && (view, r) == NotedIn(old(view), old(entries[idx].key), old(entries[idx]), p, now)
    {
      var e := entries[idx];
      if |e.pieces| >= MAX_FRAGS {
        dropped := dropped + 1;
        view := view.(dropped := dropped);
        return -1;
      }
      var done := false;
      e, done := Record(e, p, now);
      if done {
        reassembled := reassembled + 1;
      }
      ghost var es := entries[..count];
      EntryChanged(es, idx, e);
      entries[idx] := e;
      assert entries[..count] == es[idx := e];
      view := NotedIn(view, e.key, es[idx], p, now).0;
      return 0;
    }

    /** A fresh entry for a key not in the table, or -1 when the table is full. */
    method AllocEntry(k: FragKey, now: int) returns (idx: int)
      requires Valid() && k !in view.m && |view.m| == count
      modifies this`count, this`view, entries
      ensures Valid()
      ensures if |old(view).m| >= entries.Length then idx == -1 && view == old(view)
        else 0 <= idx < count && entries[idx] == FreshEntry(k, now) && view == Created(old(view), k, now)
    {
      if count >= entries.Length {
        return -1;
      }
      ghost var es := entries[..count];
      EntryIn(es, FreshEntry(k, now));
      idx := count;
      entries[idx] := Entry(k, [], 0, false, now, 0);
      count := count + 1;
      assert entries[..count] == es + [entries[idx]];
      view := Created(view, k, now);
    }

    method Add(k: FragKey, p: Piece, now: int) returns (r: int)
      requires Valid() && p.size < U16
      modifies this, entries
      ensures Valid() && (view, r) == AfterAdd(old(view), entries.Length, k, p, now)
    {
      Expire(now);
      var idx := FindEntry(k);
      if idx < 0 {
        idx := AllocEntry(k, now);
        if idx < 0 {
          dropped := dropped + 1;
          view := view.(dropped := dropped);
          return -1;
        }
      }
      r := Note(idx, p, now);
    }
  }
}

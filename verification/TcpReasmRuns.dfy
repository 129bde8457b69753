/** Why the order in which segments arrive does not matter, and what reading a stream returns. */
module TcpReasmRuns {
  import opened Bytes
  import opened TcpReasm
  import opened Widths

  // ---------- consecutive segments of one byte stream ----------

  /** Where segment i starts, counted without wrapping around. */
  function StartOf(ss: seq<Seg>, start: nat, i: nat): nat
    requires i <= |ss|
  {
    start + |Concat(ss, i)|
  }

  predicate NumberedAt(ss: seq<Seg>, start: nat, i: nat)
    requires i < |ss|
  {
    ss[i].seqNo == StartOf(ss, start, i) % U32
  }

  /** The segments cut the stream d, whose first byte has sequence number `start`, into consecutive
      pieces of legal length; numbers go on after 2^32 - 1 with 0. */
  ghost predicate Cuts(ss: seq<Seg>, start: nat, d: seq<byte>) {
    && Concat(ss, |ss|) == d
    && start < U32
    && (forall i :: 0 <= i < |ss| ==> 1 <= |ss[i].data| <= MAX_SEG_LEN)
    && (forall i :: 0 <= i < |ss| ==> NumberedAt(ss, start, i))
  }

  /** The last segment, and so every one, starts before the numbers begin again; it may end after. */
  predicate StartsInRange(ss: seq<Seg>, start: nat) {
    ss != [] ==> StartOf(ss, start, |ss| - 1) < U32
  }

  /** The stream after the segments were added in the given order, and whether all were accepted. */
  function AddAll(v: StreamView, order: seq<Seg>): (StreamView, bool) {
    if order == [] then (v, true)
    else
      var (v', ok) := AddAll(v, order[..|order| - 1]);
      var (v'', r) := Added(v', order[|order| - 1].seqNo, order[|order| - 1].data);
      (v'', ok && r == 0)
  }

  // ---------- sorted lists are determined by their segments ----------

  lemma {:induction false} ConcatGrows(ss: seq<Seg>, i: nat, j: nat)
    requires i <= j <= |ss|
    requires forall k :: 0 <= k < |ss| ==> 1 <= |ss[k].data|
    ensures |Concat(ss, i)| + (j - i) <= |Concat(ss, j)|
  {
    if i < j { ConcatGrows(ss, i, j - 1); }
  }

  predicate StrictlySorted(ss: seq<Seg>) {
    forall i, j :: 0 <= i < j < |ss| ==> ss[i].seqNo < ss[j].seqNo
  }

  lemma {:induction false} CutAt(ss: seq<Seg>, start: nat, d: seq<byte>, i: nat, j: nat)
    requires Cuts(ss, start, d) && i <= j < |ss|
    ensures ss[i].seqNo == StartOf(ss, start, i) % U32
    ensures StartOf(ss, start, i) + (j - i) <= StartOf(ss, start, j)
    ensures StartOf(ss, start, 0) < U32
    ensures StartOf(ss, start, i) < StartOf(ss, start, i + 1) <= StartOf(ss, start, i) + MAX_SEG_LEN
  {
    ConcatGrows(ss, i, j);
    assert NumberedAt(ss, start, i);
  }

  lemma {:induction false} CutsAreStrict(ss: seq<Seg>, start: nat, d: seq<byte>)
    requires Cuts(ss, start, d) && StartsInRange(ss, start)
    ensures StrictlySorted(ss)
  {
    forall i, j | 0 <= i < j < |ss| ensures ss[i].seqNo < ss[j].seqNo {
      assert StartOf(ss, start, |ss| - 1) < U32;
      hide Cuts, Concat, StartOf;
      CutAt(ss, start, d, i, j);
      CutAt(ss, start, d, j, |ss| - 1);
      Wrap32(StartOf(ss, start, i));
      Wrap32(StartOf(ss, start, j));
    }
  }

  /** The first segment that starts past 2^32 has a smaller number than the one before it. */
  lemma {:induction false} WrappedIsUnsorted(ss: seq<Seg>, start: nat, d: seq<byte>, n: nat)
    requires Cuts(ss, start, d) && n < |ss| && StartOf(ss, start, n) >= U32
    ensures exists i :: 0 < i < |ss| && ss[i].seqNo < ss[i - 1].seqNo
  {
    hide Cuts, Concat, StartOf;
    CutAt(ss, start, d, 0, n);
    CutAt(ss, start, d, n, n);
    CutAt(ss, start, d, n - 1, n);
    if StartOf(ss, start, n - 1) >= U32 {
      WrappedIsUnsorted(ss, start, d, n - 1);
    } else {
      Wrap32(StartOf(ss, start, n - 1));
      Wrap32(StartOf(ss, start, n));
      assert ss[n].seqNo < ss[n - 1].seqNo;
    }
  }

  lemma {:induction false} LastOf(s: seq<Seg>)
    requires s != []
    ensures s == s[..|s| - 1] + [s[|s| - 1]]
    ensures multiset(s) == multiset(s[..|s| - 1]) + multiset{s[|s| - 1]}
  {
  }

  lemma {:induction false} SameLast(a: seq<Seg>, b: seq<Seg>)
    requires Sorted(a) && StrictlySorted(b) && multiset(a) == multiset(b) && a != [] && b != []
    ensures a[|a| - 1] == b[|b| - 1]
  {
    var x, y := a[|a| - 1], b[|b| - 1];
    assert x in multiset(b) && y in multiset(a);
    var i :| 0 <= i < |b| && b[i] == x;
    var j :| 0 <= j < |a| && a[j] == y;
    assert x.seqNo >= y.seqNo;
  }

  lemma {:induction false} SameInit(a: seq<Seg>, b: seq<Seg>)
    requires a != [] && b != [] && a[|a| - 1] == b[|b| - 1] && multiset(a) == multiset(b)
    ensures multiset(a[..|a| - 1]) == multiset(b[..|b| - 1])
  {
    LastOf(a);
    LastOf(b);
    var x := multiset{a[|a| - 1]};
    assert multiset(a[..|a| - 1]) == multiset(a) - x;
    assert multiset(b[..|b| - 1]) == multiset(b) - x;
  }

  /** Of all lists with the same segments, only one is sorted, if no two have the same number. */
  lemma {:induction false} SortedIsUnique(a: seq<Seg>, b: seq<Seg>)
    requires Sorted(a) && StrictlySorted(b) && multiset(a) == multiset(b)
    ensures a == b
  {
    assert |a| == |multiset(a)| == |multiset(b)| == |b|;
    if a != [] {
      SameLast(a, b);
      SameInit(a, b);
      LastOf(a);
      LastOf(b);
      SortedIsUnique(a[..|a| - 1], b[..|b| - 1]);
      hide Sorted, StrictlySorted;
    }
  }

  lemma {:induction false} InsertKeepsSegments(ss: seq<Seg>, x: Seg)
    ensures multiset(Insert(ss, x)) == multiset(ss) + multiset{x}
  {
    var p := Position(ss, x.seqNo, 0);
    assert Insert(ss, x) == ss[..p] + [x] + ss[p..];
    assert ss == ss[..p] + ss[p..];
  }

  lemma {:induction false} PositionIs(ss: seq<Seg>, seqNo: nat, p: nat, i: nat)
    requires i <= p <= |ss| && (forall j :: i <= j < p ==> ss[j].seqNo < seqNo) && (p < |ss| ==> seqNo <= ss[p].seqNo)
    ensures Position(ss, seqNo, i) == p
    decreases p - i
  {
  }

  lemma {:induction false} InsertInOrder(ss: seq<Seg>, x: Seg, y: Seg)
    requires Sorted(ss) && x.seqNo < y.seqNo
    ensures Insert(Insert(ss, x), y) == Insert(Insert(ss, y), x)
  {
    var p, q := Position(ss, x.seqNo, 0), Position(ss, y.seqNo, 0);
    assert p <= q;
    PositionIs(Insert(ss, x), y.seqNo, q + 1, 0);
    PositionIs(Insert(ss, y), x.seqNo, p, 0);
  }

  /** Two additions commute exactly when the segments do not compete for one number: of two different
      segments with the same number, the later one is put first. */
  lemma {:induction false} AdditionsCommuteIff(ss: seq<Seg>, x: Seg, y: Seg)
    requires Sorted(ss)
    ensures Insert(Insert(ss, x), y) == Insert(Insert(ss, y), x) <==> x.seqNo != y.seqNo || x == y
  {
    if x.seqNo < y.seqNo {
      InsertInOrder(ss, x, y);
    } else if y.seqNo < x.seqNo {
      InsertInOrder(ss, y, x);
    } else {
      var p := Position(ss, x.seqNo, 0);
      PositionIs(Insert(ss, x), y.seqNo, p, 0);
      PositionIs(Insert(ss, y), x.seqNo, p, 0);
      assert Insert(Insert(ss, x), y)[p] == y && Insert(Insert(ss, y), x)[p] == x;
    }
  }

  /** An addition is refused exactly for empty data or a full list. Otherwise the first 1500 bytes are
      put behind all segments with a smaller number and before all others, also before the earlier
      ones with the same number. */
  lemma {:induction false} AddedAt(v: StreamView, seqNo: nat, data: seq<byte>) returns (p: nat)
    requires Sorted(v.segments)
    ensures var (v', r) := Added(v, seqNo, data); var ss := v.segments; var kept := if |data| <= 1500 then |data| else 1500;
      if data == [] || |ss| >= MAX_SEG_BUF then r == -1 && v' == v
      else
        && r == 0 && p <= |ss| && v' == v.(segments := ss[..p] + [Seg(seqNo, data[..kept])] + ss[p..])
        && (forall i :: 0 <= i < p ==> ss[i].seqNo < seqNo) && (forall i :: p <= i < |ss| ==> ss[i].seqNo >= seqNo)
  {
    p := Position(v.segments, seqNo, 0);
    var x := Seg(seqNo, Kept(data));
    assert Insert(v.segments, x) == v.segments[..p] + [x] + v.segments[p..];
    assert |data| <= 1500 ==> data[..|data|] == data;
  }

  /** Adding keeps the list sorted and made of exactly the segments added. */
  lemma {:induction false} AddAllSorts(v: StreamView, order: seq<Seg>)
    requires Sorted(v.segments) && |v.segments| + |order| <= MAX_SEG_BUF
    requires forall i :: 0 <= i < |order| ==> 1 <= |order[i].data| <= MAX_SEG_LEN
    ensures var (v', ok) := AddAll(v, order);
      && ok && v' == v.(segments := v'.segments)
      && Sorted(v'.segments) && |v'.segments| == |v.segments| + |order|
      && multiset(v'.segments) == multiset(v.segments) + multiset(order)
  {
    if order == [] {
    } else {
      var init, x := order[..|order| - 1], order[|order| - 1];
      AddAllSorts(v, init);
      var w := AddAll(v, init).0;
      InsertSorts(w.segments, x);
      InsertKeepsSegments(w.segments, x);
      LastOf(order);
      assert Seg(x.seqNo, Kept(x.data)) == x;
    }
  }

  lemma {:induction false} AllAccepted(v: StreamView, ss: seq<Seg>, order: seq<Seg>, start: nat, d: seq<byte>)
    requires v.segments == [] && Cuts(ss, start, d) && |ss| <= MAX_SEG_BUF && multiset(order) == multiset(ss)
    ensures var (v', ok) := AddAll(v, order);
      ok && v' == v.(segments := v'.segments) && Sorted(v'.segments) && multiset(v'.segments) == multiset(ss)
  {
    assert |order| == |multiset(order)| == |multiset(ss)| == |ss|;
    forall i | 0 <= i < |order| ensures 1 <= |order[i].data| <= MAX_SEG_LEN {
      assert order[i] in multiset(ss);
    }
    hide Cuts, Concat;
    AddAllSorts(v, order);
  }

  /** The segments of a stream, at most as many as a list can hold, added in any order at all, are
      in the list in stream order if and only if the last of them starts before the numbers begin again. */
  lemma {:induction false} AnyOrderReassembles(v: StreamView, ss: seq<Seg>, order: seq<Seg>, start: nat, d: seq<byte>)
    requires v.segments == [] && Cuts(ss, start, d) && |ss| <= MAX_SEG_BUF
    requires multiset(order) == multiset(ss)
    ensures AddAll(v, order) == (v.(segments := ss), true) <==> StartsInRange(ss, start)
  {
    AllAccepted(v, ss, order, start, d);
    hide Cuts, AddAll;
    if StartsInRange(ss, start) {
      CutsAreStrict(ss, start, d);
      hide *;
      SortedIsUnique(AddAll(v, order).0.segments, ss);
    } else {
      WrappedIsUnsorted(ss, start, d, |ss| - 1);
      assert !Sorted(ss);
    }
  }

  /** A stream of two bytes whose numbers begin again is read back the wrong way round. */
  lemma {:induction false} WrapsRound(v: StreamView, ss: seq<Seg>, d: seq<byte>)
    requires v.segments == [] && d == [1, 2] && ss == [Seg(U32 - 1, [1]), Seg(0, [2])] && MAX_SEG_BUF >= 2
    ensures Cuts(ss, U32 - 1, d) && Read(AddAll(v, ss).0.segments, 2) == [2, 1]
  {
    FitEnds(ss, 2);
    FitStep(ss, 2, 0);
    FitStep(ss, 2, 1);
    assert ss[..1] == [ss[0]] && ss[..1][..0] == [];
    var one, two := [ss[0]], [ss[1], ss[0]];
    assert AddAll(v, ss[..1]).0.segments == Insert([], ss[0]) == one;
    assert AddAll(v, ss).0.segments == Insert(one, ss[1]) == two;
    FitEnds(two, 2);
    FitStep(two, 2, 0);
    FitStep(two, 2, 1);
  }

  // ---------- reading ----------

  lemma {:induction false} ConcatIsPrefix(ss: seq<Seg>, n: nat)
    requires n <= |ss|
    ensures Concat(ss, n) <= Concat(ss, |ss|)
    decreases |ss| - n
  {
    if n < |ss| { ConcatIsPrefix(ss, n + 1); }
  }

  /** What fits is the longest run of whole leading segments: its segments fit, one more would not. */
  lemma {:induction false} FitIsLongest(ss: seq<Seg>, room: nat, i: nat)
    requires i <= |ss| && |Concat(ss, i)| <= room
    ensures var n := Fit(ss, room, i); |Concat(ss, n)| <= room && (n < |ss| ==> |Concat(ss, n + 1)| > room)
    decreases |ss| - i
  {
    hide *;
    if i == |ss| {
      FitEnds(ss, room);
    } else {
      FitStep(ss, room, i);
      if |Concat(ss, i + 1)| <= room { FitIsLongest(ss, room, i + 1); }
    }
  }

  lemma {:induction false} FitIsMaximal(ss: seq<Seg>, room: nat, n: nat)
    requires n <= |ss| && |Concat(ss, n)| <= room
    requires forall k :: 0 <= k < |ss| ==> 1 <= |ss[k].data|
    ensures n <= Fit(ss, room, 0)
  {
    FitIsLongest(ss, room, 0);
    hide *;
    var m := Fit(ss, room, 0);
    if m < n {
      ConcatGrows(ss, m + 1, n);
      assert false;
    }
  }

  /** What a read into a buffer of the given size returns. */
  function Read(ss: seq<Seg>, room: nat): seq<byte> { Concat(ss, Fit(ss, room, 0)) }

  lemma {:induction false} ReadIsPrefix(ss: seq<Seg>, start: nat, d: seq<byte>, room: nat)
    requires Cuts(ss, start, d)
    ensures Read(ss, room) <= d && |Read(ss, room)| <= room
  {
    FitIsLongest(ss, room, 0);
    ConcatIsPrefix(ss, Fit(ss, room, 0));
  }

  lemma {:induction false} ReadIsLongestPrefix(ss: seq<Seg>, start: nat, d: seq<byte>, room: nat)
    requires Cuts(ss, start, d)
    ensures Read(ss, room) <= d && |Read(ss, room)| <= room
    ensures forall m :: Fit(ss, room, 0) < m <= |ss| ==> |Concat(ss, m)| > room
    ensures |d| <= room ==> Read(ss, room) == d
  {
    ReadIsPrefix(ss, start, d, room);
    assert Read(ss, room) == Concat(ss, Fit(ss, room, 0)) && Concat(ss, |ss|) == d;
    assert forall k :: 0 <= k < |ss| ==> 1 <= |ss[k].data|;
    hide *;
    forall m | Fit(ss, room, 0) < m <= |ss| ensures |Concat(ss, m)| > room {
      if |Concat(ss, m)| <= room { FitIsMaximal(ss, room, m); }
    }
  }

  /** From segments to the caller's buffer: after any arrival order, a read returns the longest
      prefix of the stream made of whole segments that fits, hence all of it if there is room. */
  lemma {:induction false} ReadsTheStream(v: StreamView, ss: seq<Seg>, order: seq<Seg>, start: nat, d: seq<byte>, room: nat)
    requires v.segments == [] && Cuts(ss, start, d) && StartsInRange(ss, start) && |ss| <= MAX_SEG_BUF
    requires multiset(order) == multiset(ss)
    ensures var read := Read(AddAll(v, order).0.segments, room);
      && read <= d && |read| <= room
      && (forall m :: 0 <= m <= |ss| && |Concat(ss, m)| <= room ==> |Concat(ss, m)| <= |read|)
      && (|d| <= room ==> read == d)
  {
    AnyOrderReassembles(v, ss, order, start, d);
    ReadIsLongestPrefix(ss, start, d, room);
    forall m | 0 <= m <= |ss| && |Concat(ss, m)| <= room ensures |Concat(ss, m)| <= |Read(ss, room)| {
      ConcatGrows(ss, m, Fit(ss, room, 0));
    }
  }
}

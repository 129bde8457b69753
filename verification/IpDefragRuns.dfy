/** When counting bytes amounts to covering the datagram, what is then handed out, and why flows do
    not disturb each other. */
module IpDefragRuns {
  import opened Bytes
  import opened IpDefrag

  /** What a flow amounts to after these fragments, in the order of their arrival. */
  function FlowOf(fs: seq<Frag>): Flow {
    if fs == [] then NO_FRAGS else Extend(FlowOf(fs[..|fs| - 1]), fs[|fs| - 1])
  }

  // ---------- fragments of one datagram ----------

  /** The fragment is a piece of datagram d; a last fragment ends where d ends. */
  predicate PieceOf(f: Frag, d: seq<byte>) {
    End(f) <= |d| && f.payload == d[f.offset..End(f)] && (!f.more ==> End(f) == |d|)
  }

  predicate PiecesOf(fs: seq<Frag>, d: seq<byte>) {
    forall i :: 0 <= i < |fs| ==> PieceOf(fs[i], d)
  }

  predicate Covers(f: Frag, b: nat) { f.offset <= b < End(f) }

  ghost predicate Covered(fs: seq<Frag>, b: nat) {
    exists i :: 0 <= i < |fs| && Covers(fs[i], b)
  }

  ghost predicate LastSeen(fs: seq<Frag>) {
    exists i :: 0 <= i < |fs| && !fs[i].more
  }

  /** A last fragment was seen and every byte of the datagram is covered. */
  ghost predicate Whole(fs: seq<Frag>, d: seq<byte>) {
    LastSeen(fs) && forall b: nat :: b < |d| ==> Covered(fs, b)
  }

  ghost predicate Disjoint(fs: seq<Frag>) {
    forall i, j, b :: 0 <= i < j < |fs| && Covers(fs[i], b) ==> !Covers(fs[j], b)
  }

  // ---------- the state against the fragments ----------

  lemma {:induction false} CoveredSnoc(fs: seq<Frag>, f: Frag, b: nat)
    ensures Covered(fs + [f], b) <==> Covered(fs, b) || Covers(f, b)
  {
    if Covered(fs, b) { var i :| 0 <= i < |fs| && Covers(fs[i], b); assert Covers((fs + [f])[i], b); }
    if Covers(f, b) { assert Covers((fs + [f])[|fs|], b); }
  }

  lemma {:induction false} CellsAreCovered(fs: seq<Frag>, b: nat)
    ensures b in FlowOf(fs).cells <==> Covered(fs, b)
  {
    if fs != [] {
      CellsAreCovered(fs[..|fs| - 1], b);
      CoveredSnoc(fs[..|fs| - 1], fs[|fs| - 1], b);
      assert fs == fs[..|fs| - 1] + [fs[|fs| - 1]];
    }
  }

  lemma {:induction false} CellsAreOriginal(fs: seq<Frag>, d: seq<byte>)
    requires PiecesOf(fs, d)
    ensures forall b :: b in FlowOf(fs).cells ==> b < |d| && FlowOf(fs).cells[b] == d[b]
  {
    if fs != [] {
      assert PieceOf(fs[|fs| - 1], d);
      CellsAreOriginal(fs[..|fs| - 1], d);
    }
  }

  /** A buffer is as long as its fragments reach, and no longer. */
  lemma {:induction false} ReachIsLargest(fs: seq<Frag>)
    ensures forall i :: 0 <= i < |fs| ==> End(fs[i]) <= FlowOf(fs).reach
    ensures FlowOf(fs).reach == 0 || exists i :: 0 <= i < |fs| && End(fs[i]) == FlowOf(fs).reach
  {
    if fs != [] {
      var init, f := fs[..|fs| - 1], fs[|fs| - 1];
      ReachIsLargest(init);
      var r := FlowOf(init).reach;
      if End(f) > r || r == 0 {
        assert End(fs[|fs| - 1]) == FlowOf(fs).reach || FlowOf(fs).reach == 0;
      } else {
        var i :| 0 <= i < |init| && End(init[i]) == r;
        assert End(fs[i]) == FlowOf(fs).reach;
      }
    }
  }

  lemma {:induction false} LastIsSeen(fs: seq<Frag>)
    ensures FlowOf(fs).last <==> LastSeen(fs)
  {
    if fs != [] {
      var init := fs[..|fs| - 1];
      LastIsSeen(init);
      if LastSeen(init) { var i :| 0 <= i < |init| && !init[i].more; assert !fs[i].more; }
    }
  }

  lemma {:induction false} TotalIsLength(fs: seq<Frag>, d: seq<byte>)
    requires PiecesOf(fs, d)
    ensures FlowOf(fs).last <==> LastSeen(fs)
    ensures FlowOf(fs).last ==> FlowOf(fs).total == |d|
  {
    LastIsSeen(fs);
    if fs != [] {
      assert PieceOf(fs[|fs| - 1], d);
      TotalIsLength(fs[..|fs| - 1], d);
    }
  }

  /** How many bytes came a second time. */
  function Repeated(fs: seq<Frag>): nat
  {
    if fs == [] then 0
    else
      var init, f := fs[..|fs| - 1], fs[|fs| - 1];
      Repeated(init) + |FlowOf(init).cells.Keys * Cells(f).Keys|
  }

  function Range(lo: nat, hi: nat): (r: set<nat>)
    requires lo <= hi
    ensures |r| == hi - lo && forall b :: b in r <==> lo <= b < hi
    decreases hi - lo
  {
    if lo == hi then {} else Range(lo, hi - 1) + {hi - 1}
  }

  /** The bytes counted are the bytes covered and the bytes repeated: the pigeonholes of completion. */
  lemma {:induction false} CountIsCoverage(fs: seq<Frag>)
    ensures FlowOf(fs).received == |FlowOf(fs).cells.Keys| + Repeated(fs)
  {
    if fs != [] {
      var init, f := fs[..|fs| - 1], fs[|fs| - 1];
      CountIsCoverage(init);
      assert Cells(f).Keys == Range(f.offset, End(f));
      var a, b := FlowOf(init).cells.Keys, Cells(f).Keys;
      assert FlowOf(fs).cells.Keys == a + b;
      assert |a + b| == |a| + |b| - |a * b|;
    }
  }

  lemma {:induction false} DisjointRepeatsNothing(fs: seq<Frag>)
    requires Disjoint(fs)
    ensures Repeated(fs) == 0
  {
    if fs != [] {
      var init, f := fs[..|fs| - 1], fs[|fs| - 1];
      DisjointRepeatsNothing(init);
      var both := FlowOf(init).cells.Keys * Cells(f).Keys;
      forall b | b in both ensures false {
        CellsAreCovered(init, b);
        var i :| 0 <= i < |init| && Covers(init[i], b);
        assert Covers(fs[i], b) && Covers(fs[|fs| - 1], b);
      }
      assert both == {};
    }
  }

  /** The bytes of d no fragment covers. */
  ghost function Missing(fs: seq<Frag>, d: seq<byte>): set<nat> {
    set b: nat | b < |d| && !Covered(fs, b)
  }

  lemma {:induction false} MissingCount(fs: seq<Frag>, d: seq<byte>)
    requires PiecesOf(fs, d)
    ensures |Missing(fs, d)| == |d| - |FlowOf(fs).cells.Keys|
  {
    CellsAreOriginal(fs, d);
    var all, have := Range(0, |d|), FlowOf(fs).cells.Keys;
    forall b: nat ensures b in have <==> Covered(fs, b) { CellsAreCovered(fs, b); }
    assert Missing(fs, d) == all - have && have <= all;
  }

  /** Exactly when pieces of a datagram, overlapping or not, are reported complete: when a last
      fragment was seen and no more bytes are missing than came twice. */
  lemma {:induction false} CompleteIff(fs: seq<Frag>, d: seq<byte>)
    requires PiecesOf(fs, d)
    ensures StatusOf(FlowOf(fs)) == Complete <==> LastSeen(fs) && |Missing(fs, d)| <= Repeated(fs)
  {
    TotalIsLength(fs, d);
    CountIsCoverage(fs);
    MissingCount(fs, d);
    hide FlowOf, Missing, PiecesOf, LastSeen, Repeated;
  }

  /** Pieces of a datagram that do not overlap, in any order and number, are reported complete
      exactly when a last fragment was seen and every byte is covered. */
  lemma {:induction false} CompleteIffCovered(fs: seq<Frag>, d: seq<byte>)
    requires PiecesOf(fs, d) && Disjoint(fs)
    ensures StatusOf(FlowOf(fs)) == Complete <==> Whole(fs, d)
  {
    CompleteIff(fs, d);
    DisjointRepeatsNothing(fs);
    if b: nat :| b < |d| && !Covered(fs, b) {
      assert b in Missing(fs, d);
      assert |Missing(fs, d)| > 0;
    } else {
      assert Missing(fs, d) == {};
    }
  }

  /** Overlapping pieces can be reported complete while a byte is missing. */
  lemma {:induction false} OverlapCompletesEarly(d: seq<byte>, fs: seq<Frag>)
    requires |d| == 4
    requires fs == [Frag(0, true, d[0..2]), Frag(0, true, d[0..2]), Frag(3, false, d[3..4])]
    ensures PiecesOf(fs, d) && StatusOf(FlowOf(fs)) == Complete && !Covered(fs, 2)
  {
    assert fs[..2] == [fs[0], fs[1]] && fs[..2][..1] == [fs[0]] && fs[..2][..1][..0] == [];
    assert FlowOf(fs[..2][..1]).received == 2;
    assert FlowOf(fs[..2]).received == 4;
  }

  /** What is handed out for a covered datagram, whatever its fragments overlap, is the datagram. */
  lemma {:induction false} CoveredIsOriginal(fs: seq<Frag>, d: seq<byte>, out: seq<byte>, outLen: nat)
    requires PiecesOf(fs, d) && Whole(fs, d)
    requires outLen == FlowOf(fs).total <= |out|
    requires forall b :: b in FlowOf(fs).cells && b < outLen ==> out[b] == FlowOf(fs).cells[b]
    ensures out[..outLen] == d
  {
    TotalIsLength(fs, d);
    CellsAreOriginal(fs, d);
    forall b: nat | b < |d| ensures b in FlowOf(fs).cells { CellsAreCovered(fs, b); }
  }

  /** What a get may hand out for a flow: covered bytes as written, all others arbitrary. */
  ghost predicate MayHandOut(w: Flow, out: seq<byte>) {
    |out| == w.total && forall b :: b in w.cells && b < |out| ==> out[b] == w.cells[b]
  }

  /** A get does not ask for completion, only for a last fragment. What it hands out is sure to be the
      datagram if and only if the datagram is covered. */
  lemma {:induction false} GetIsSureIffWhole(fs: seq<Frag>, d: seq<byte>)
    requires PiecesOf(fs, d) && LastSeen(fs)
    ensures (forall out :: MayHandOut(FlowOf(fs), out) ==> out == d) <==> Whole(fs, d)
  {
    TotalIsLength(fs, d);
    CellsAreOriginal(fs, d);
    forall b: nat ensures b in FlowOf(fs).cells <==> Covered(fs, b) { CellsAreCovered(fs, b); }
    if b: nat :| b < |d| && !Covered(fs, b) {
      var wrong := d[b := if d[b] == 0 then 1 else 0];
      assert MayHandOut(FlowOf(fs), wrong) && wrong[b] != d[b];
    }
  }

  /** So a get can succeed on a flow that every addition reported as pending. */
  lemma {:induction false} GetBeforeComplete(d: seq<byte>, fs: seq<Frag>, m: Flows, k: FlowKey, max: nat)
    requires |d| == 8 && fs == [Frag(4, false, d[4..8])] && k in m && m[k] == FlowOf(fs) && max >= 8
    ensures PiecesOf(fs, d) && StatusOf(FlowOf(fs)) == Pending && Gettable(m, k, max) && !Covered(fs, 0)
  {
  }

  function Fed(m: Flows, k: FlowKey, fs: seq<Frag>): Flows {
    if fs == [] then m else m[k := FlowOf(fs)]
  }

  /** The statuses the additions report, one after the other. */
  function Replies(fs: seq<Frag>): (r: seq<Status>)
    ensures |r| == |fs|
  {
    if fs == [] then [] else Replies(fs[..|fs| - 1]) + [StatusOf(FlowOf(fs))]
  }

  lemma {:induction false} FlowSnoc(fs: seq<Frag>, f: Frag)
    ensures FlowOf(fs + [f]) == Extend(FlowOf(fs), f)
    ensures Replies(fs + [f]) == Replies(fs) + [StatusOf(FlowOf(fs + [f]))]
  {
  }

  lemma {:induction false} AddToKnown(m: Flows, capacity: nat, k: FlowKey, w: Flow, f: Frag)
    ensures Apply(m[k := w], capacity, AddFrag(k, f)) == (m[k := Extend(w, f)], Reply(StatusOf(Extend(w, f)), NO_FRAGS))
  {
    assert m[k := w][k := Extend(w, f)] == m[k := Extend(w, f)];
  }

  lemma {:induction false} FedStep(m: Flows, capacity: nat, k: FlowKey, fs: seq<Frag>, f: Frag)
    requires k !in m && |m| < capacity
    ensures Apply(Fed(m, k, fs), capacity, AddFrag(k, f))
      == (Fed(m, k, fs + [f]), Reply(StatusOf(FlowOf(fs + [f])), NO_FRAGS))
  {
    FlowSnoc(fs, f);
    if fs != [] {
      AddToKnown(m, capacity, k, FlowOf(fs), f);
    }
  }

  lemma {:induction false} GetAfterFed(m: Flows, capacity: nat, k: FlowKey, fs: seq<Frag>, d: seq<byte>, max: nat)
    requires k !in m && PiecesOf(fs, d) && LastSeen(fs) && |d| <= max
    ensures Apply(Fed(m, k, fs), capacity, GetData(k, max)) == (m, Reply(Complete, FlowOf(fs)))
  {
    TotalIsLength(fs, d);
    assert Fed(m, k, fs) - {k} == m;
  }

  /** A get of a flow of pieces of a datagram succeeds if and only if a last fragment was seen and
      there is room for the datagram, and then removes the flow; otherwise it errs and changes nothing. */
  lemma {:induction false} GetReplies(m: Flows, capacity: nat, k: FlowKey, fs: seq<Frag>, d: seq<byte>, max: nat)
    requires k in m && m[k] == FlowOf(fs) && PiecesOf(fs, d)
    ensures Apply(m, capacity, GetData(k, max)) == if LastSeen(fs) && |d| <= max
      then (m - {k}, Reply(Complete, FlowOf(fs))) else (m, Reply(Err, NO_FRAGS))
  {
    TotalIsLength(fs, d);
  }

  /** Whatever its fragments, a flow without a last one cannot be got, and neither can an unknown flow. */
  lemma {:induction false} GetNeedsLast(m: Flows, capacity: nat, k: FlowKey, fs: seq<Frag>, max: nat)
    requires k in m ==> m[k] == FlowOf(fs) && !LastSeen(fs)
    ensures Apply(m, capacity, GetData(k, max)) == (m, Reply(Err, NO_FRAGS))
  {
    LastIsSeen(fs);
  }

  /** As when the only fragment is one byte that more fragments follow. */
  lemma {:induction false} GetWithoutLast(m: Flows, capacity: nat, k: FlowKey, max: nat)
    requires k in m && m[k] == FlowOf([Frag(0, true, [0xFF])])
    ensures Apply(m, capacity, GetData(k, max)) == (m, Reply(Err, NO_FRAGS))
  {
    GetNeedsLast(m, capacity, k, [Frag(0, true, [0xFF])], max);
  }

  /** Every reported status tells whether the datagram is whole at that point. */
  lemma {:induction false} RepliesTell(fs: seq<Frag>, d: seq<byte>, i: nat)
    requires PiecesOf(fs, d) && Disjoint(fs) && i < |fs|
    ensures Replies(fs)[i] == Complete <==> Whole(fs[..i + 1], d)
  {
    if i == |fs| - 1 {
      assert fs[..i + 1] == fs;
      CompleteIffCovered(fs, d);
    } else {
      RepliesTell(fs[..|fs| - 1], d, i);
      assert fs[..|fs| - 1][..i + 1] == fs[..i + 1];
    }
  }

  method FeedOne(t: Defragmenter, key: FlowKey, ghost m: Flows, ghost added: seq<Frag>, f: Frag) returns (s: Status)
    requires t.Valid() && key !in m && |m| < t.table.Length
    requires t.Contents() == Fed(m, key, added) && End(f) <= MAX_DATAGRAM
    modifies t, t.table, t.buffers
    ensures t.Valid() && fresh(t.buffers - old(t.buffers))
    ensures t.Contents() == Fed(m, key, added + [f]) && Replies(added) + [s] == Replies(added + [f])
  {
    FedStep(m, t.table.Length, key, added, f);
    FlowSnoc(added, f);
    s := t.Add(key, f);
  }

  /** Adds all fragments of one flow, in the order given, to a table that has room for the flow. */
  method Feed(t: Defragmenter, key: FlowKey, fs: seq<Frag>) returns (replies: seq<Status>)
    requires t.Valid() && key !in t.Contents() && |t.Contents()| < t.table.Length
    requires forall i :: 0 <= i < |fs| ==> End(fs[i]) <= MAX_DATAGRAM
    modifies t, t.table, t.buffers
    ensures t.Valid() && fresh(t.buffers - old(t.buffers))
    ensures t.Contents() == Fed(old(t.Contents()), key, fs)
    ensures replies == Replies(fs)
  {
    hide *;
    replies := [];
    ghost var m, added: seq<Frag> := t.Contents(), [];
    FedNothing(m, key);
    for i := 0 to |fs|
      invariant t.Valid() && fresh(t.buffers - old(t.buffers))
      invariant added == fs[..i]
      invariant t.Contents() == Fed(m, key, added) && replies == Replies(added)
    {
      var s := FeedOne(t, key, m, added, fs[i]);
      replies := replies + [s];
      added := added + [fs[i]];
    }
    assert added == fs;
  }

  lemma {:induction false} FedNothing(m: Flows, k: FlowKey)
    ensures Fed(m, k, []) == m && Replies([]) == []
  {
  }

  /** The whole way of one datagram through the program: disjoint pieces of d, in any order, are added
      to a table with room; the statuses reported are those of RepliesTell, and the get that follows
      returns exactly d and removes the flow. */
  method Reassemble(t: Defragmenter, key: FlowKey, fs: seq<Frag>, ghost d: seq<byte>, out: array<byte>)
    returns (replies: seq<Status>, r: Status, outLen: nat)
    requires t.Valid() && key !in t.Contents() && |t.Contents()| < t.table.Length
    requires PiecesOf(fs, d) && Whole(fs, d)
    requires |d| <= out.Length && |d| <= MAX_DATAGRAM && out !in t.buffers
    modifies t, t.table, t.buffers, out
    ensures t.Valid() && t.Contents() == old(t.Contents()) && replies == Replies(fs)
    ensures r == Complete && outLen == |d| && out[..|d|] == d
  {
    forall i | 0 <= i < |fs| ensures End(fs[i]) <= MAX_DATAGRAM { assert PieceOf(fs[i], d); }
    replies := Feed(t, key, fs);
    TotalIsLength(fs, d);
    GetAfterFed(old(t.Contents()), t.table.Length, key, fs, d, out.Length);
    r, outLen := t.Get(key, out, out.Length);
    CoveredIsOriginal(fs, d, out[..], outLen);
    assert out[..|d|] == out[..][..outLen];
  }

  /** The same of the program: gets a flow of pieces of d, complete or not, or no known flow at all. */
  method Fetch(t: Defragmenter, key: FlowKey, ghost fs: seq<Frag>, ghost d: seq<byte>, out: array<byte>, max: nat)
    returns (r: Status, outLen: nat)
    requires t.Valid() && max <= out.Length && out !in t.buffers
    requires key in t.Contents() ==> t.Contents()[key] == FlowOf(fs) && PiecesOf(fs, d)
    modifies t, t.table, out
    ensures t.Valid()
    ensures if key in old(t.Contents()) && LastSeen(fs) && |d| <= max
      then r == Complete && outLen == |d| && t.Contents() == old(t.Contents()) - {key}
        && forall b: nat :: b < |d| && Covered(fs, b) ==> out[b] == d[b]
      else r == Err && t.Contents() == old(t.Contents()) && out[..] == old(out[..])
  {
    if key in t.Contents() {
      TotalIsLength(fs, d);
      CellsAreOriginal(fs, d);
      forall b: nat ensures b in FlowOf(fs).cells <==> Covered(fs, b) { CellsAreCovered(fs, b); }
    }
    r, outLen := t.Get(key, out, max);
  }

  // ---------- runs over many flows ----------

  function After(capacity: nat, ops: seq<Call>): Flows {
    if ops == [] then map[] else Apply(After(capacity, ops[..|ops| - 1]), capacity, ops[|ops| - 1]).0
  }

  function ReplyTo(capacity: nat, ops: seq<Call>, op: Call): Reply {
    Apply(After(capacity, ops), capacity, op).1
  }

  predicate Concerns(op: Call, k: FlowKey) { op.FlushAll? || op.key == k }

  /** The calls that concern flow k, alone. */
  function Only(ops: seq<Call>, k: FlowKey): seq<Call> {
    if ops == [] then []
    else Only(ops[..|ops| - 1], k) + if Concerns(ops[|ops| - 1], k) then [ops[|ops| - 1]] else []
  }

  /** No addition of the run finds the table full. */
  predicate NeverFull(capacity: nat, ops: seq<Call>) {
    ops == [] || (
      var init, op := ops[..|ops| - 1], ops[|ops| - 1];
      NeverFull(capacity, init) && (op.AddFrag? ==> HasRoom(After(capacity, init), op.key, capacity)))
  }

  predicate SameAt(m: Flows, m': Flows, k: FlowKey) {
    (k in m <==> k in m') && (k in m ==> m[k] == m'[k])
  }

  lemma {:induction false} AloneAfter(capacity: nat, ops: seq<Call>, k: FlowKey)
    requires NeverFull(capacity, ops)
    ensures SameAt(After(capacity, ops), After(1, Only(ops, k)), k)
    ensures After(1, Only(ops, k)).Keys <= {k}
  {
    if ops != [] {
      var init, op := ops[..|ops| - 1], ops[|ops| - 1];
      AloneAfter(capacity, init, k);
      var alone := After(1, Only(init, k));
      if Concerns(op, k) {
        assert (Only(init, k) + [op])[..|Only(init, k)|] == Only(init, k);
        OneFlowFits(alone, k);
      } else {
        assert Only(init, k) + [] == Only(init, k);
      }
    }
  }

  lemma {:induction false} OneFlowFits(m: Flows, k: FlowKey)
    requires m.Keys <= {k}
    ensures HasRoom(m, k, 1)
  {
  }

  /** Flows do not interfere: in any interleaving that never fills the table, every call gets exactly
      the reply it would get if its flow's calls were made alone, in a table with a single entry. */
  lemma {:induction false} FlowsAreIsolated(capacity: nat, ops: seq<Call>, op: Call)
    requires !op.FlushAll? && NeverFull(capacity, ops + [op])
    ensures ReplyTo(capacity, ops, op) == ReplyTo(1, Only(ops, op.key), op)
  {
    assert (ops + [op])[..|ops|] == ops;
    AloneAfter(capacity, ops, op.key);
    OneFlowFits(After(1, Only(ops, op.key)), op.key);
  }
}

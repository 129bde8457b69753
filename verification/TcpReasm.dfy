/** src/tcpreasm.c: TCP segments kept in sorted linked lists, one per stream of a fixed table. */
module TcpReasm {
  import opened Bytes
  import opened Widths

  /** How many segments a list can hold: 16 in the program, any positive number here. */
  const MAX_SEG_BUF: Positive
  const MAX_SEG_LEN: nat := 1500
  const TIMEOUT_SEC: nat := 30

  // ---------- lists of segments as values ----------

  datatype Seg = Seg(seqNo: nat, data: seq<byte>)

  predicate Sorted(ss: seq<Seg>) {
    forall i, j :: 0 <= i < j < |ss| ==> ss[i].seqNo <= ss[j].seqNo
  }

  /** How many leading segments of the list have a smaller sequence number, counting from i. */
  function Position(ss: seq<Seg>, seqNo: nat, i: nat): (p: nat)
    requires i <= |ss|
    ensures i <= p <= |ss|
    ensures forall j :: i <= j < p ==> ss[j].seqNo < seqNo
    ensures p < |ss| ==> seqNo <= ss[p].seqNo
    decreases |ss| - i
  {
    if i < |ss| && ss[i].seqNo < seqNo then Position(ss, seqNo, i + 1) else i
  }

  /** The sequence with x put in at position p. */
  function Spliced<T>(s: seq<T>, p: nat, x: T): (r: seq<T>)
    requires p <= |s|
    ensures |r| == |s| + 1
  {
    seq(|s| + 1, j requires 0 <= j <= |s| => if j < p then s[j] else if j == p then x else s[j - 1])
  }

  /** The list with one more segment, put before the first that does not precede it. */
  function Insert(ss: seq<Seg>, x: Seg): (r: seq<Seg>)
    ensures |r| == |ss| + 1
  {
    Spliced(ss, Position(ss, x.seqNo, 0), x)
  }

  /** The data of the first n segments, one after the other. */
  function Concat(ss: seq<Seg>, n: nat): seq<byte>
    requires n <= |ss|
  {
    if n == 0 then [] else Concat(ss, n - 1) + ss[n - 1].data
  }

  /** How many leading segments fit into the room, whole, given that the first i do. */
  function Fit(ss: seq<Seg>, room: nat, i: nat): (n: nat)
    requires i <= |ss|
    ensures i <= n <= |ss|
    decreases |ss| - i
  {
    if i < |ss| && |Concat(ss, i + 1)| <= room then Fit(ss, room, i + 1) else i
  }

  lemma {:induction false} FitStep(ss: seq<Seg>, room: nat, i: nat)
    requires i < |ss|
    ensures Concat(ss, i + 1) == Concat(ss, i) + ss[i].data
    ensures Fit(ss, room, i) == if |Concat(ss, i + 1)| <= room then Fit(ss, room, i + 1) else i
  {
  }

  lemma {:induction false} FitEnds(ss: seq<Seg>, room: nat)
    ensures Concat(ss, 0) == [] && Fit(ss, room, |ss|) == |ss|
  {
  }

  lemma {:induction false} ShorterTails(a: seq<byte>, b: seq<byte>, at: nat, n: nat)
    requires |a| == |b| && at + n <= |a| && a[at..] == b[at..]
    ensures a[at + n..] == b[at + n..]
  {
    assert a[at + n..] == a[at..][n..] && b[at + n..] == b[at..][n..];
  }

  lemma {:induction false} InsertIs(ss: seq<Seg>, x: Seg)
    ensures Insert(ss, x) == Spliced(ss, Position(ss, x.seqNo, 0), x)
  {
  }

  lemma {:induction false} InsertSorts(ss: seq<Seg>, x: Seg)
    requires Sorted(ss)
    ensures Sorted(Insert(ss, x))
  {
  }

  // ---------- the program ----------

  class Segment {
    const seqNo: nat
    const data: seq<byte>
    var next: Segment?
    /** The stream whose list the segment is in; null once it is freed. */
    ghost var owner: Stream?

    constructor (seqNo: nat, data: seq<byte>)
      ensures this.seqNo == seqNo && this.data == data && next == null && owner == null
    {
      this.seqNo, this.data, next, owner := seqNo, data, null, null;
    }
  }

  datatype FourTuple = FourTuple(srcIp: nat, dstIp: nat, srcPort: nat, dstPort: nat)

  function Values(nodes: seq<Segment>): (ss: seq<Seg>)
    ensures |ss| == |nodes|
  {
    seq(|nodes|, i requires 0 <= i < |nodes| => Seg(nodes[i].seqNo, nodes[i].data))
  }

  /** The segment after position i of a list, or null. */
  function Follower(nodes: seq<Segment>, i: nat): Segment?
    requires i < |nodes|
  {
    if i + 1 < |nodes| then nodes[i + 1] else null
  }

  ghost predicate Chained(nodes: seq<Segment>)
    reads nodes
  {
    forall i {:trigger nodes[i]} :: 0 <= i < |nodes| ==> nodes[i].next == Follower(nodes, i)
  }

  ghost predicate Owned(nodes: seq<Segment>, s: Stream)
    reads nodes
  {
    forall i :: 0 <= i < |nodes| ==> nodes[i].owner == s
  }

  ghost predicate Distinct(nodes: seq<Segment>) {
    forall i, j :: 0 <= i < j < |nodes| ==> nodes[i] != nodes[j]
  }

  lemma {:induction false} SplicedValues(nodes: seq<Segment>, p: nat, x: Segment)
    requires p <= |nodes|
    ensures Values(Spliced(nodes, p, x)) == Spliced(Values(nodes), p, Seg(x.seqNo, x.data))
    ensures Spliced(nodes, p, x)[0] == if p == 0 then x else nodes[0]
  {
  }

  lemma {:induction false} SplicedMembers<T>(s: seq<T>, p: nat, x: T)
    requires p <= |s|
    ensures forall y :: y in Spliced(s, p, x) <==> y in s || y == x
  {
    var r := Spliced(s, p, x);
    assert r[p] == x;
    forall y | y in s ensures y in r {
      var j :| 0 <= j < |s| && s[j] == y;
      assert r[if j < p then j else j + 1] == y;
    }
  }

  lemma {:induction false} SplicedDistinct(nodes: seq<Segment>, p: nat, x: Segment)
    requires p <= |nodes| && Distinct(nodes) && x !in nodes
    ensures Distinct(Spliced(nodes, p, x))
  {
  }

  lemma {:induction false} SplicedOwned(nodes: seq<Segment>, p: nat, x: Segment, s: Stream)
    requires p <= |nodes| && Owned(nodes, s) && x.owner == s
    ensures Owned(Spliced(nodes, p, x), s)
  {
  }

  /** Redirecting one link, and nothing else, splices a segment into the chain. */
  lemma {:induction false} SplicedChain(nodes: seq<Segment>, p: nat, x: Segment)
    requires p <= |nodes|
    requires forall i {:trigger nodes[i]} :: 0 <= i < |nodes| ==>
      nodes[i].next == if i + 1 == p then x else Follower(nodes, i)
    requires x.next == if p < |nodes| then nodes[p] else null
    ensures Chained(Spliced(nodes, p, x))
  {
  }

  /** What a caller can know of a stream. */
  datatype StreamView = StreamView(
    key: FourTuple, nextSeq: nat, lastSeen: nat, inUse: bool, segments: seq<Seg>)

  class Stream {
    var key: FourTuple
    var nextSeq: nat
    var lastSeen: nat
    var segCount: nat
    var segHead: Segment?
    var inUse: bool
    ghost var nodes: seq<Segment>

    /** The list is acyclic, owned by this stream alone, sorted and counted. */
    ghost predicate Valid()
      reads this, nodes
    {
      && segCount == |nodes| <= MAX_SEG_BUF
      && segHead == (if nodes == [] then null else nodes[0])
      && Chained(nodes) && Owned(nodes, this) && Distinct(nodes)
      && Sorted(Values(nodes))
    }

    ghost function Contents(): seq<Seg>
      reads this
    {
      Values(nodes)
    }

    ghost function View(): StreamView
      reads this
    {
      StreamView(key, nextSeq, lastSeen, inUse, Contents())
    }

    lemma {:induction false} Parts()
      ensures Contents() == Values(nodes)
      ensures Valid() <==>
        && segCount == |nodes| <= MAX_SEG_BUF
        && segHead == (if nodes == [] then null else nodes[0])
        && Chained(nodes) && Owned(nodes, this) && Distinct(nodes) && Sorted(Values(nodes))
    {
    }

    constructor ()
      ensures Valid() && !inUse && nodes == []
    {
      key, nextSeq, lastSeen, segCount, segHead, inUse, nodes := FourTuple(0, 0, 0, 0), 0, 0, 0, null, false, [];
    }

    /** Takes a free stream into use for a key: everything else is cleared. */
    method Claim(k: FourTuple)
      requires Valid() && nodes == []
      modifies this
      ensures Valid() && nodes == [] && View() == StreamView(k, 0, 0, true, [])
    {
      key, nextSeq, lastSeen, segCount, segHead, inUse := k, 0, 0, 0, null, true;
      assert Values(nodes) == [];
    }

    /** Walks to the link where a segment belongs: that of `prev`, or of the list itself if null. */
    method Seek(seqNo: nat) returns (prev: Segment?, cur: Segment?, ghost i: nat)
      requires Valid()
      ensures i == Position(Contents(), seqNo, 0)
      ensures prev == (if i == 0 then null else nodes[i - 1]) && cur == if i < |nodes| then nodes[i] else null
    {
      prev, cur, i := null, segHead, 0;
      while cur != null && cur.seqNo < seqNo
        invariant i <= |nodes|
        invariant prev == (if i == 0 then null else nodes[i - 1]) && cur == if i < |nodes| then nodes[i] else null
        invariant Position(Contents(), seqNo, 0) == Position(Contents(), seqNo, i)
        decreases |nodes| - i
      {
        prev, cur, i := cur, cur.next, i + 1;
      }
    }

    /** Redirects the link found by Seek to a new segment. */
    method Splice(seg: Segment, prev: Segment?, cur: Segment?, ghost i: nat)
      requires Chained(nodes) && Owned(nodes, this) && Distinct(nodes) && seg !in nodes && i <= |nodes|
      requires prev == (if i == 0 then null else nodes[i - 1]) && cur == if i < |nodes| then nodes[i] else null
      modifies this`segHead, nodes, seg
      ensures Chained(Spliced(nodes, i, seg)) && Owned(Spliced(nodes, i, seg), this)
      ensures segHead == if i == 0 then seg else old(segHead)
    {
      seg.owner := this;
      seg.next := cur;
      if prev == null {
        segHead := seg;
      } else {
        prev.next := seg;
      }
      forall j | 0 <= j < |nodes|
        ensures nodes[j].owner == this && nodes[j].next == if j + 1 == i then seg else Follower(nodes, j)
      {
        assert old(nodes[j].next) == Follower(nodes, j);
      }
      SplicedChain(nodes, i, seg);
      SplicedOwned(nodes, i, seg, this);
    }

    /** Puts a new segment into the sorted list. */
    method Link(seqNo: nat, data: seq<byte>) returns (seg: Segment)
      requires Valid() && segCount < MAX_SEG_BUF
      modifies this`segHead, this`segCount, this`nodes, nodes
      ensures Valid() && fresh(seg)
      ensures nodes == Spliced(old(nodes), Position(old(Contents()), seqNo, 0), seg)
      ensures Contents() == Insert(old(Contents()), Seg(seqNo, data))
    {
      hide *;
      ghost var ns, ss, x := nodes, Contents(), Seg(seqNo, data);
      Parts();
      InsertSorts(ss, x);
      seg := new Segment(seqNo, data);
      var prev, cur, i := Seek(seqNo);
      InsertIs(ss, x);
      SplicedDistinct(ns, i, seg);
      SplicedValues(ns, i, seg);
      Splice(seg, prev, cur, i);
      segCount := segCount + 1;
      nodes := Spliced(ns, i, seg);
      Parts();
    }

    /** Copies the longest prefix of whole segments that fits; -1 if that is nothing. */
    method GetData(buf: array<byte>) returns (r: int, outLen: nat)
      requires Valid()
      modifies buf
      ensures var n := Fit(Contents(), buf.Length, 0);
        && outLen == |Concat(Contents(), n)| <= buf.Length
        && buf[..outLen] == Concat(Contents(), n) && buf[outLen..] == old(buf[outLen..])
      ensures r == if outLen > 0 then 0 else -1
    {
      hide Fit, Concat;
      outLen := 0;
      var seg := segHead;
      ghost var i, ss, was := 0, Contents(), buf[..];
      FitEnds(ss, buf.Length);
      while seg != null
        invariant Valid() && 0 <= i <= |nodes|
        invariant seg == if i < |nodes| then nodes[i] else null
        invariant outLen == |Concat(ss, i)| <= buf.Length
        invariant buf[..outLen] == Concat(ss, i) && buf[outLen..] == was[outLen..]
        invariant Fit(ss, buf.Length, 0) == Fit(ss, buf.Length, i)
        modifies buf
        decreases |nodes| - i
      {
        FitStep(ss, buf.Length, i);
        if outLen + |seg.data| > buf.Length {
          break;
        }
        ShorterTails(buf[..], was, outLen, |seg.data|);
        Append(buf, outLen, seg.data);
        outLen := outLen + |seg.data|;
        seg := seg.next;
        i := i + 1;
      }
      assert was[outLen..] == old(buf[outLen..]);
      return if outLen > 0 then 0 else -1, outLen;
    }

    /** Frees every segment of the list, each once, and takes the stream out of use. */
    method Free()
      requires Valid()
      modifies this`segHead, this`segCount, this`inUse, this`nodes, nodes
      ensures Valid() && !inUse && nodes == []
      ensures forall n :: n in old(nodes) ==> n.owner == null
    {
      var seg := segHead;
      ghost var i := 0;
      while seg != null
        invariant 0 <= i <= |nodes|
        invariant seg == if i < |nodes| then nodes[i] else null
        modifies nodes
        invariant forall j :: 0 <= j < |nodes| ==> nodes[j].owner == if j < i then null else this
        invariant Chained(nodes)
        decreases |nodes| - i
      {
        var next := seg.next;
        assert seg.owner == this;
        seg.owner := null;
        seg := next;
        i := i + 1;
      }
      segHead, segCount, inUse, nodes := null, 0, false, [];
    }
  }

  /** `now - last_seen` in 32-bit arithmetic. */
  function Age(lastSeen: nat, now: nat): int { (now - lastSeen) % U32 }

  predicate Stale(lastSeen: nat, now: nat) { Age(lastSeen, now) >= TIMEOUT_SEC }

  /** The part of a payload that a segment can hold. */
  function Kept(data: seq<byte>): seq<byte> {
    if |data| > MAX_SEG_LEN then data[..MAX_SEG_LEN] else data
  }

  /** What adding a segment makes of a stream, and the result returned. */
  function Added(v: StreamView, seqNo: nat, data: seq<byte>): (StreamView, int) {
    if data == [] || |v.segments| >= MAX_SEG_BUF then (v, -1)
    else (v.(segments := Insert(v.segments, Seg(seqNo, Kept(data)))), 0)
  }

  function AfterExpiry(v: StreamView, now: nat): StreamView {
    if v.inUse && Stale(v.lastSeen, now) then v.(inUse := false, segments := []) else v
  }

  lemma {:induction false} AgeIs(lastSeen: nat, now: nat)
    ensures Age(lastSeen, now) == (now - lastSeen) % U32
  {
  }

  /** How long ago in 32-bit seconds: of a time that is `age` seconds before now, exactly that. */
  lemma {:induction false} AgeOf(lastSeen: nat, age: nat, now: nat)
    requires lastSeen < U32 && age < U32 && now == (lastSeen + age) % U32
    ensures Age(lastSeen, now) == age
  {
    Wrap32(lastSeen + age);
  }

  /** A stream in use is freed if and only if it was last seen at least 30 seconds ago, through the
      wrap-around of the clock at 2^32, and otherwise stays as it is. */
  lemma {:induction false} ExpiryByAge(v: StreamView, age: nat, now: nat)
    requires v.lastSeen < U32 && age < U32 && now == (v.lastSeen + age) % U32
    ensures AfterExpiry(v, now) == if v.inUse && age >= 30 then v.(inUse := false, segments := []) else v
  {
    AgeOf(v.lastSeen, age, now);
    hide Age;
  }

  /** How many of the streams an expiry frees. */
  function Freed(vs: seq<StreamView>, now: nat): nat {
    if vs == [] then 0
    else
      var v := vs[|vs| - 1];
      Freed(vs[..|vs| - 1], now) + if v.inUse && Stale(v.lastSeen, now) then 1 else 0
  }

  /** Those in use and last seen at least 30 seconds ago, in 32-bit arithmetic. */
  ghost function Idle(vs: seq<StreamView>, now: nat): set<nat> {
    set i: nat | i < |vs| && vs[i].inUse && Age(vs[i].lastSeen, now) >= 30
  }

  lemma {:induction false} FreedAreIdle(vs: seq<StreamView>, now: nat)
    ensures Freed(vs, now) == |Idle(vs, now)|
    ensures forall i: nat :: i < |vs| ==>
      AfterExpiry(vs[i], now) == if i in Idle(vs, now) then vs[i].(inUse := false, segments := []) else vs[i]
  {
    hide Age;
    if vs != [] {
      var init, n := vs[..|vs| - 1], |vs| - 1;
      FreedAreIdle(init, now);
      assert Idle(vs, now) == Idle(init, now) + if vs[n].inUse && Stale(vs[n].lastSeen, now) then {n} else {};
    }
  }

  class Reassembler {
    const streams: seq<Stream>
    var streamCount: int
    var droppedOoo: nat
    var expired: nat
    /** How many streams were ever put into use. */
    ghost var created: nat
    /** The segments allocated and not yet freed. */
    ghost var segments: set<Segment>

    /** Every list is well formed, empty unless its stream is in use, and made of live segments. */
    ghost predicate Lists()
      reads this`segments, streams, segments
    {
      forall s :: s in streams ==>
        (forall n :: n in s.nodes ==> n in segments) && s.Valid() && (!s.inUse ==> s.nodes == [])
    }

    /** No live segment is outside the lists: nothing leaks. */
    ghost predicate NoLeaks()
      reads this`segments, streams, segments
    {
      forall n :: n in segments ==> n.owner != null && n.owner in streams && n in n.owner.nodes
    }

    /** No two streams in use share a 4-tuple. */
    ghost predicate OneStreamPerKey()
      reads streams
    {
      forall s, t :: s in streams && t in streams && s != t && s.inUse && t.inUse ==> s.key != t.key
    }

    ghost function InUse(): set<Stream>
      reads streams
    {
      set s | s in streams && s.inUse
    }

    ghost predicate Valid()
      reads this, streams, segments
    {
      && (forall i, j :: 0 <= i < j < |streams| ==> streams[i] != streams[j])
      && Lists() && NoLeaks() && OneStreamPerKey()
      && streamCount == |InUse()| && created == streamCount + expired
    }

    /** Written out: how many streams are in use and were ever, that no two of them share a key, and that
        their lists are sorted, counted, within the limit, without a segment twice or in two lists, and
        together hold exactly the live segments. */
    lemma {:induction false} BooksAre()
      requires Valid()
      ensures streamCount == |set s | s in streams && s.inUse| && created == streamCount + expired
      ensures forall s, t :: s in streams && t in streams && s != t && s.inUse && t.inUse ==> s.key != t.key
      ensures forall s :: s in streams ==> s.segCount == |s.nodes| <= MAX_SEG_BUF && Sorted(s.Contents())
      ensures forall s :: s in streams && !s.inUse ==> s.nodes == []
      ensures forall s :: s in streams ==> forall i, j :: 0 <= i < j < |s.nodes| ==> s.nodes[i] != s.nodes[j]
      ensures forall s, t, n :: s in streams && t in streams && n in s.nodes && n in t.nodes ==> s == t
      ensures forall n :: n in segments <==> exists s :: s in streams && n in s.nodes
    {
      assert InUse() == set s | s in streams && s.inUse;
      forall s | s in streams ensures Owned(s.nodes, s) && Distinct(s.nodes) { s.Parts(); }
      forall s, t, n | s in streams && t in streams && n in s.nodes && n in t.nodes ensures s == t {
        assert n.owner == s && n.owner == t;
      }
    }

    constructor (maxStreams: nat)
      ensures Valid() && |streams| == maxStreams && streamCount == droppedOoo == expired == created == 0
      ensures forall i :: 0 <= i < maxStreams ==> !streams[i].inUse && fresh(streams[i])
    {
      var ss: seq<Stream> := [];
      for k := 0 to maxStreams
        invariant |ss| == k
        invariant forall i :: 0 <= i < k ==> fresh(ss[i]) && ss[i].Valid() && !ss[i].inUse && ss[i].nodes == []
        invariant forall i, j :: 0 <= i < j < k ==> ss[i] != ss[j]
      {
        var s := new Stream();
        ss := ss + [s];
      }
      streams := ss;
      streamCount, droppedOoo, expired, created, segments := 0, 0, 0, 0, {};
      new;
      assert InUse() == {};
    }

    /** The stream of a key: the one in use for it, or else the first free one, or null. */
    method GetStream(k: FourTuple) returns (s: Stream?, ghost at: int)
      requires Valid()
      modifies this`streamCount, this`created, streams
      ensures Valid() && expired == old(expired)
      ensures -1 <= at < |streams| && s == (if at < 0 then null else streams[at])
      ensures forall i :: 0 <= i < |streams| && i != at ==> streams[i].View() == old(streams[i].View())
      ensures if at < 0 then
          streamCount == old(streamCount) && forall i :: 0 <= i < |streams| ==> old(streams[i].inUse) && old(streams[i].key) != k
        else if old(streams[at].inUse) then
          streamCount == old(streamCount) && s.View() == old(s.View()) && s.key == k
        else
          && streamCount == old(streamCount) + 1 && s.View() == StreamView(k, 0, 0, true, [])
          && (forall i :: 0 <= i < |streams| && old(streams[i].inUse) ==> old(streams[i].key) != k)
          && (forall i :: 0 <= i < at ==> old(streams[i].inUse))
    {
      hide Lists, NoLeaks, OneStreamPerKey, InUse, Values;
      for i := 0 to |streams|
        modifies {}
        invariant forall j :: 0 <= j < i && streams[j].inUse ==> streams[j].key != k
      {
        if streams[i].inUse && streams[i].key == k {
          return streams[i], i;
        }
      }
      var i := 0;
      while i < |streams| && streams[i].inUse
        modifies {}
        invariant i <= |streams| && forall j :: 0 <= j < i ==> streams[j].inUse
      {
        i := i + 1;
      }
      if i == |streams| {
        return null, -1;
      }
      Open(streams[i], k);
      return streams[i], i;
    }

    /** Puts a free stream into use. */
    method Open(s: Stream, k: FourTuple)
      requires Valid() && s in streams && !s.inUse
      requires forall t :: t in streams && t.inUse ==> t.key != k
      modifies this`streamCount, this`created, s
      ensures Valid() && streamCount == old(streamCount) + 1 && s.View() == StreamView(k, 0, 0, true, [])
    {
      hide Values, Stream.Valid, Stream.View;
      ClaimAlone(s, k);
      streamCount := streamCount + 1;
      created := created + 1;
      assert OneStreamPerKey();
      InUseGrows(old(InUse()), InUse(), s);
      hide InUse, OneStreamPerKey;
      assert Lists();
      assert NoLeaks() by {
        forall n | n in segments ensures n.owner != null && n.owner in streams && n in n.owner.nodes {
          assert n.owner == old(n.owner) && n.owner.nodes == old(n.owner.nodes);
        }
      }
      hide Lists, NoLeaks;
    }

    /** Taking one stream into use leaves all other streams as they are. */
    method ClaimAlone(s: Stream, k: FourTuple)
      requires Valid() && s in streams && !s.inUse
      modifies s
      ensures s.Valid() && s.nodes == [] && s.inUse && s.key == k && s.View() == StreamView(k, 0, 0, true, [])
      ensures forall t :: t in streams && t != s ==>
        t.Valid() && t.inUse == old(t.inUse) && t.key == old(t.key) && t.nodes == old(t.nodes)
    {
      hide Values, Stream.Valid, InUse, NoLeaks, OneStreamPerKey;
      Member(s);
      s.Claim(k);
      forall t | t in streams && t != s ensures t.Valid() { assert old(t.Valid()); }
    }

    lemma {:induction false} InUseGrows(a: set<Stream>, b: set<Stream>, s: Stream)
      requires s !in a && forall t :: t in b <==> t in a || t == s
      ensures |b| == |a| + 1
    {
      assert b == a + {s};
    }

    /** Adds a segment to a stream, cut to the length a segment can hold. The program does not ask
        whether the stream still is in use: the books stay in order if and only if it is, or the
        segment is refused. */
    method AddSegment(s: Stream, seqNo: nat, data: seq<byte>) returns (r: int)
      requires Valid() && s in streams
      modifies this`droppedOoo, this`segments, s, s.nodes
      ensures Valid() <==> old(s.inUse) || r < 0
      ensures streamCount == old(streamCount) && expired == old(expired)
      ensures forall t :: t in streams && t != s ==> t.View() == old(t.View())
      ensures Added(old(s.View()), seqNo, data) == (s.View(), r)
      ensures droppedOoo == old(droppedOoo) + if data != [] && r < 0 then 1 else 0
    {
      assert s.Valid() by { Member(s); }
      if |data| == 0 {
        return -1;
      }
      if s.segCount >= MAX_SEG_BUF {
        droppedOoo := droppedOoo + 1;
        return -1;
      }
      Store(s, seqNo, if |data| > MAX_SEG_LEN then data[..MAX_SEG_LEN] else data);
      return 0;
    }

    lemma {:induction false} Member(s: Stream)
      requires Lists() && s in streams
      ensures s.Valid() && (forall n :: n in s.nodes ==> n in segments) && (!s.inUse ==> s.nodes == [])
    {
    }

    method Store(s: Stream, seqNo: nat, data: seq<byte>)
      requires Valid() && s in streams && |s.nodes| < MAX_SEG_BUF
      modifies this`segments, s`segHead, s`segCount, s`nodes, s.nodes
      ensures Valid() <==> old(s.inUse)
      ensures forall t :: t in streams && t != s ==> t.View() == old(t.View())
      ensures var v := old(s.View()); s.View() == v.(segments := Insert(v.segments, Seg(seqNo, data)))
    {
      hide Values, Insert, Spliced, Stream.Valid, Stream.View;
      var seg := LinkAlone(s, seqNo, data);
      segments := segments + {seg};
      assert OneStreamPerKey() && InUse() == old(InUse());
      hide OneStreamPerKey, InUse;
      assert seg in s.nodes && (Lists() <==> s.inUse);
      assert NoLeaks() by {
        forall n | n in segments ensures n.owner != null && n.owner in streams && n in n.owner.nodes {
          if n !in s.nodes {
            assert n.owner == old(n.owner) && n.owner.nodes == old(n.owner.nodes);
          }
        }
      }
      hide Lists, NoLeaks;
    }

    /** Linking a segment into one list leaves all other streams as they are. */
    method LinkAlone(s: Stream, seqNo: nat, data: seq<byte>) returns (seg: Segment)
      requires Valid() && s in streams && |s.nodes| < MAX_SEG_BUF
      modifies s`segHead, s`segCount, s`nodes, s.nodes
      ensures fresh(seg) && s.Valid() && (forall n :: n in s.nodes <==> n in old(s.nodes) || n == seg)
      ensures forall n :: n in s.nodes ==> n.owner == s
      ensures forall t :: t in streams ==> t.key == old(t.key) && t.inUse == old(t.inUse)
      ensures forall t :: t in streams && t != s ==> t.Valid() && t.nodes == old(t.nodes) && t.View() == old(t.View())
      ensures var v := old(s.View()); s.View() == v.(segments := Insert(v.segments, Seg(seqNo, data)))
    {
      hide Values, Insert, Spliced, Stream.Valid;
      Member(s);
      ghost var ns := s.nodes;
      forall t | t in streams ensures t.Valid() && Owned(t.nodes, t) { Member(t); t.Parts(); }
      seg := s.Link(seqNo, data);
      SplicedMembers(ns, Position(old(s.Contents()), seqNo, 0), seg);
      s.Parts();
      forall t | t in streams && t != s ensures t.nodes == old(t.nodes) && t.Valid() {
        assert old(t.Valid() && Owned(t.nodes, t));
      }
    }

    /** Frees every stream in use whose timeout has passed, and nothing else. */
    method Expire(now: nat)
      requires Valid()
      modifies this`streamCount, this`expired, this`segments, streams, segments
      ensures Valid() && created == old(created) && segments <= old(segments)
      ensures forall s :: s in streams ==> s.View() == AfterExpiry(old(s.View()), now)
      ensures expired == old(expired) + Freed(old(Views()), now)
    {
      hide Stale, Values, Stream.Valid, Stream.View, NoLeaks, Lists, OneStreamPerKey, InUse;
      ghost var views := Views();
      for i := 0 to |streams|
        invariant Valid() && created == old(created) && segments <= old(segments)
        invariant forall j :: 0 <= j < i ==> streams[j].View() == AfterExpiry(views[j], now)
        invariant forall j :: i <= j < |streams| ==> streams[j].View() == views[j]
        invariant expired == old(expired) + Freed(views[..i], now)
      {
        assert views[..i + 1][..i] == views[..i];
        Member(streams[i]);
        ExpireOne(streams[i], now);
      }
      assert views[..|streams|] == views;
    }

    /** One turn of the loop. */
    method ExpireOne(s: Stream, now: nat)
      requires Valid() && s in streams
      modifies this`streamCount, this`expired, this`segments, s`segHead, s`segCount, s`inUse, s`nodes, s.nodes
      ensures Valid() && segments <= old(segments)
      ensures forall t :: t in streams && t != s ==> t.View() == old(t.View())
      ensures s.View() == AfterExpiry(old(s.View()), now)
      ensures expired == old(expired) + if old(s.View().inUse) && Stale(old(s.View().lastSeen), now) then 1 else 0
    {
      hide Age, Values, Stream.Valid, Stream.View, NoLeaks, Lists, OneStreamPerKey, InUse;
      ViewIs(s);
      AgeIs(s.lastSeen, now);
      if s.inUse && (now - s.lastSeen) % U32 >= TIMEOUT_SEC {
        Retire(s);
      }
    }

    ghost function Views(): (vs: seq<StreamView>)
      reads this, streams
      ensures |vs| == |streams| && forall i :: 0 <= i < |vs| ==> vs[i] == streams[i].View()
    {
      seq(|streams|, i requires 0 <= i < |streams| reads streams => streams[i].View())
    }

    lemma {:induction false} ViewIs(s: Stream)
      ensures s.View() == StreamView(s.key, s.nextSeq, s.lastSeen, s.inUse, s.Contents())
    {
    }

    /** Frees a stream in use; the segments freed are exactly those of its list. */
    method Retire(s: Stream)
      requires Valid() && s in streams && s.inUse
      modifies this`streamCount, this`expired, this`segments, s`segHead, s`segCount, s`inUse, s`nodes, s.nodes
      ensures Valid() && segments == old(segments) - set n | n in old(s.nodes)
      ensures expired == old(expired) + 1
      ensures forall t :: t in streams && t != s ==> t.View() == old(t.View())
      ensures s.View() == old(s.View()).(inUse := false, segments := [])
    {
      hide Stream.Valid, Stream.View;
      FreeAlone(s);
      streamCount := streamCount - 1;
      expired := expired + 1;
      segments := segments - set n | n in old(s.nodes);
      assert OneStreamPerKey();
      InUseGrows(InUse(), old(InUse()), s);
      hide OneStreamPerKey, InUse;
      assert Lists();
      assert NoLeaks() by {
        forall n | n in segments ensures n.owner != null && n.owner in streams && n in n.owner.nodes {
          assert n.owner == old(n.owner) && n.owner.nodes == old(n.owner.nodes);
        }
      }
      hide Lists, NoLeaks;
    }

    /** Freeing one list leaves all other streams as they are. */
    method FreeAlone(s: Stream)
      requires Valid() && s in streams
      modifies s`segHead, s`segCount, s`inUse, s`nodes, s.nodes
      ensures s.Valid() && !s.inUse && s.nodes == []
      ensures forall t :: t in streams ==> t.key == old(t.key)
      ensures forall t :: t in streams && t != s ==> t.inUse == old(t.inUse) && t.View() == old(t.View())
      ensures forall t :: t in streams && t != s ==> t.Valid() && t.nodes == old(t.nodes)
      ensures forall t :: t in streams && t != s ==> forall n :: n in t.nodes ==> n !in old(s.nodes)
      ensures s.View() == old(s.View()).(inUse := false, segments := [])
    {
      hide Stream.Valid;
      Member(s);
      forall t | t in streams ensures t.Valid() && Owned(t.nodes, t) { Member(t); t.Parts(); }
      s.Free();
      assert Values(s.nodes) == [];
      hide Values;
      forall t | t in streams && t != s ensures t.nodes == old(t.nodes) && t.Valid() {
        assert old(t.Valid() && Owned(t.nodes, t) && Owned(s.nodes, s));
      }
    }
  }
}

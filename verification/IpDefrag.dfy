/** src/ipdefrag.c: reassembly of fragmented IP datagrams in a swap-compacted table of flows. */
module IpDefrag {
  import opened Bytes
  import opened SwapTable
  import opened Widths

  const MAX_DATAGRAM: nat := 0xFFFF

  datatype FlowKey = FlowKey(id: nat, src: nat, dst: nat)

  /** One fragment as it is handed over: where its payload goes, and whether more follow it. */
  datatype Frag = Frag(offset: nat, more: bool, payload: seq<byte>)

  datatype Status = Complete | Pending | Err

  function End(f: Frag): nat { f.offset + |f.payload| }

  // ---------- the abstract state ----------

  /** What one flow amounts to: the bytes received, how far they reach, the length announced by the
      latest last fragment, and the byte most recently written at every covered position. */
  datatype Flow = Flow(received: nat, reach: nat, total: nat, last: bool, cells: map<nat, byte>)

  const NO_FRAGS := Flow(0, 0, 0, false, map[])

  function Cells(f: Frag): map<nat, byte> {
    map i: nat {:trigger f.payload[i - f.offset]} | f.offset <= i < End(f) :: f.payload[i - f.offset]
  }

  function Extend(w: Flow, f: Frag): Flow {
    Flow(
      w.received + |f.payload|,
      if End(f) > w.reach then End(f) else w.reach,
      if f.more then w.total else End(f),
      w.last || !f.more,
      w.cells + Cells(f))
  }

  function StatusOf(w: Flow): Status {
    if w.last && w.received >= w.total then Complete else Pending
  }

  type Flows = map<FlowKey, Flow>

  function Held(flows: Flows, k: FlowKey): Flow {
    if k in flows then flows[k] else NO_FRAGS
  }

  /** The flow can take a fragment: it is known, or there is room for it. */
  predicate HasRoom(flows: Flows, k: FlowKey, capacity: nat) {
    k in flows || |flows| < capacity
  }

  predicate Gettable(flows: Flows, k: FlowKey, max: nat) {
    k in flows && flows[k].last && flows[k].total <= max
  }

  datatype Call =
    | AddFrag(key: FlowKey, frag: Frag)
    | GetData(key: FlowKey, max: nat)
    | FlushAll

  /** What a caller sees of one call: its status and, for a successful get, the flow it is given. */
  datatype Reply = Reply(status: Status, given: Flow)

  /** One call on the table as a map. */
  function Apply(m: Flows, capacity: nat, c: Call): (Flows, Reply) {
    match c
    case AddFrag(k, f) =>
      if !HasRoom(m, k, capacity) then (m, Reply(Err, NO_FRAGS))
      else (m[k := Extend(Held(m, k), f)], Reply(StatusOf(Extend(Held(m, k), f)), NO_FRAGS))
    case GetData(k, max) =>
      if !Gettable(m, k, max) then (m, Reply(Err, NO_FRAGS)) else (m - {k}, Reply(Complete, m[k]))
    case FlushAll => (map[], Reply(Complete, NO_FRAGS))
  }

  // ---------- the table against the abstract state ----------

  datatype Entry = Entry(
    key: FlowKey, data: array?<byte>, bufLen: nat, received: nat, totalLen: nat, lastSeen: nat)

  /** The entry and its buffer hold exactly what the flow amounts to. */
  ghost predicate Holds(e: Entry, w: Flow)
    reads e.data
  {
    && e.bufLen == w.reach && e.received == w.received && e.totalLen == w.total
    && (e.lastSeen != 0 <==> w.last) && w.total <= w.reach
    && if e.data == null then w.reach == 0 && w.cells == map[]
       else e.data.Length == w.reach && forall i :: i in w.cells ==> i < w.reach && e.data[i] == w.cells[i]
  }

  /** An entry with what its flow amounts to. */
  datatype Row = Row(entry: Entry, flow: Flow)

  /** Every entry is as its flow says, in a buffer of its own. */
  ghost predicate Buffered(rows: seq<Row>, buffers: set<array<byte>>)
    reads buffers
  {
    && (forall i :: 0 <= i < |rows| ==>
          (rows[i].entry.data == null || rows[i].entry.data in buffers) && Holds(rows[i].entry, rows[i].flow))
    && (forall i, j :: 0 <= i < j < |rows| && rows[i].entry.data != null ==> rows[i].entry.data != rows[j].entry.data)
  }

  function Pairs(rows: seq<Row>): (ps: seq<(FlowKey, Flow)>)
    ensures |ps| == |rows|
  {
    seq(|rows|, i requires 0 <= i < |rows| => (rows[i].entry.key, rows[i].flow))
  }

  function FlowsOf(rows: seq<Row>): Flows { ToMap(Pairs(rows)) }

  ghost predicate OneEach(rows: seq<Row>) { Distinct(Pairs(rows)) }

  lemma {:induction false} RowsAdd(rows: seq<Row>, buffers: set<array<byte>>, e: Entry)
    requires OneEach(rows) && Buffered(rows, buffers)
    requires e.key !in FlowsOf(rows) && e.data == null && Holds(e, NO_FRAGS)
    ensures var rows' := rows + [Row(e, NO_FRAGS)];
      OneEach(rows') && Buffered(rows', buffers) && FlowsOf(rows') == FlowsOf(rows)[e.key := NO_FRAGS]
  {
    assert Pairs(rows + [Row(e, NO_FRAGS)]) == Pairs(rows) + [(e.key, NO_FRAGS)];
    Added(Pairs(rows), e.key, NO_FRAGS);
  }

  lemma {:induction false} RowsChange(rows: seq<Row>, i: nat, r: Row)
    requires OneEach(rows) && i < |rows| && r.entry.key == rows[i].entry.key
    ensures OneEach(rows[i := r]) && FlowsOf(rows[i := r]) == FlowsOf(rows)[r.entry.key := r.flow]
  {
    assert Pairs(rows[i := r]) == Pairs(rows)[i := (r.entry.key, r.flow)];
    Changed(Pairs(rows), i, r.flow);
  }

  lemma {:induction false} RowsRemove(rows: seq<Row>, buffers: set<array<byte>>, i: nat)
    requires OneEach(rows) && Buffered(rows, buffers) && i < |rows|
    ensures OneEach(SwapOut(rows, i)) && Buffered(SwapOut(rows, i), buffers)
    ensures FlowsOf(SwapOut(rows, i)) == FlowsOf(rows) - {rows[i].entry.key}
  {
    assert Pairs(SwapOut(rows, i)) == SwapOut(Pairs(rows), i);
    Removed(Pairs(rows), i);
  }

  lemma {:induction false} RowsSize(rows: seq<Row>)
    requires OneEach(rows)
    ensures |FlowsOf(rows)| == |rows|
  {
    MapOf(Pairs(rows));
  }

  /** Where a flow is, and that it is nowhere else. */
  lemma {:induction false} RowsLookup(rows: seq<Row>)
    requires OneEach(rows)
    ensures forall i :: 0 <= i < |rows| ==> rows[i].entry.key in FlowsOf(rows) && FlowsOf(rows)[rows[i].entry.key] == rows[i].flow
    ensures forall k :: (forall i :: 0 <= i < |rows| ==> rows[i].entry.key != k) ==> k !in FlowsOf(rows)
  {
    var ps := Pairs(rows);
    MapOf(ps);
    forall i | 0 <= i < |rows|
      ensures rows[i].entry.key in FlowsOf(rows) && FlowsOf(rows)[rows[i].entry.key] == rows[i].flow
    {
      assert ps[i].0 == rows[i].entry.key;
    }
  }

  // ---------- the program ----------

  /** A larger block that starts with the old bytes; the bytes gained are arbitrary. */
  method Realloc(data: array?<byte>, size: nat) returns (nb: array<byte>)
    requires data != null ==> data.Length <= size
    ensures fresh(nb) && nb.Length == size
    ensures data != null ==> forall i :: 0 <= i < data.Length ==> nb[i] == data[i]
  {
    nb := new byte[size];
    if data != null {
      Memcpy(nb, 0, data[..]);
    }
  }

  /** Additions are defined for fragments that end within 65535 bytes: exactly then the buffer, grown to
      the 16-bit end if that is larger, has room for the copy. */
  lemma {:induction false} CopyFitsIff(bufLen: nat, f: Frag)
    requires bufLen <= MAX_DATAGRAM && f.offset < U16 && |f.payload| < U16
    ensures var end := End(f) % U16;
      End(f) <= (if end > bufLen then end else bufLen) <==> End(f) <= MAX_DATAGRAM
  {
  }

  /** The part of an addition that grows one entry's buffer, copies the payload and counts it. */
  method Put(e: Entry, f: Frag, ghost w: Flow) returns (e': Entry)
    requires Holds(e, w) && End(f) <= MAX_DATAGRAM
    modifies e.data
    ensures Holds(e', Extend(w, f)) && e'.key == e.key
    ensures e'.data == e.data || (e'.data != null && fresh(e'.data))
  {
    var end := End(f) % U16;
    e' := e;
    if end > e.bufLen {
      var nb := Realloc(e.data, end);
      e' := e'.(data := nb, bufLen := end);
    }
    if e'.data != null {
      Memcpy(e'.data, f.offset, f.payload);
    }
    e' := e'.(received := e'.received + |f.payload|);
    if !f.more {
      e' := e'.(totalLen := end, lastSeen := 1);
    }
  }

  class Defragmenter {
    const table: array<Entry>
    var count: nat
    ghost var rows: seq<Row>
    ghost var buffers: set<array<byte>>

    ghost predicate Valid()
      reads this, table, buffers
    {
      && count == |rows| <= table.Length
      && (forall i :: 0 <= i < count ==> table[i] == rows[i].entry)
      && OneEach(rows) && Buffered(rows, buffers)
    }

    /** The table as a map from flows to what they amount to. */
    ghost function Contents(): Flows
      reads this
    {
      FlowsOf(rows)
    }

    /** Written out: one entry per flow, with its counts, the covered bytes in a buffer as long as the
        flow reaches, and no buffer shared. */
    lemma {:induction false} TableIs()
      requires Valid()
      ensures count == |Contents()| <= table.Length
      ensures forall i :: 0 <= i < count ==>
        && table[i].key in Contents()
        && var e, w := table[i], Contents()[table[i].key];
        && e.received == w.received && e.totalLen == w.total <= e.bufLen == w.reach && (e.lastSeen != 0 <==> w.last)
        && (e.data == null ==> w.reach == 0 && w.cells == map[])
        && (e.data != null ==> e.data.Length == w.reach)
        && (e.data != null ==> forall b :: b in w.cells ==> b < w.reach && e.data[b] == w.cells[b])
      ensures forall i, j :: 0 <= i < j < count ==>
        table[i].key != table[j].key && (table[i].data != null ==> table[i].data != table[j].data)
    {
      RowsSize(rows);
      RowsLookup(rows);
      forall i | 0 <= i < count ensures Holds(table[i], Contents()[table[i].key]) { assert table[i] == rows[i].entry; }
      forall i, j | 0 <= i < j < count ensures table[i].key != table[j].key {
        assert Pairs(rows)[i].0 == rows[i].entry.key && Pairs(rows)[j].0 == rows[j].entry.key;
      }
    }

    constructor (capacity: nat)
      ensures Valid() && fresh(table) && buffers == {} && table.Length == capacity && Contents() == map[]
    {
      table := new Entry[capacity](_ => Entry(FlowKey(0, 0, 0), null, 0, 0, 0, 0));
      count, rows, buffers := 0, [], {};
    }

    method FindEntry(key: FlowKey) returns (idx: int)
      requires Valid()
      ensures if key in Contents() then 0 <= idx < count && rows[idx].entry.key == key && rows[idx].flow == Contents()[key]
              else idx == -1
    {
      RowsLookup(rows);
      for i := 0 to count
        invariant forall j :: 0 <= j < i ==> rows[j].entry.key != key
      {
        if table[i].key == key {
          return i;
        }
      }
      return -1;
    }

    /** A fresh entry for a flow not in the table, or -1 when the table is full. */
    method AllocEntry(key: FlowKey) returns (idx: int)
      requires Valid() && key !in Contents()
      modifies this, table
      ensures Valid() && buffers == old(buffers)
      ensures idx == if |old(rows)| < table.Length then |old(rows)| else -1
      ensures idx < 0 ==> rows == old(rows)
      ensures idx >= 0 ==> idx < count && rows[idx].entry.key == key && rows[idx].flow == NO_FRAGS
      ensures idx >= 0 ==> Contents() == old(Contents())[key := NO_FRAGS]
    {
      if count >= table.Length {
        return -1;
      }
      idx := count;
      var e := Entry(key, null, 0, 0, 0, 0);
      RowsAdd(rows, buffers, e);
      rows := rows + [Row(e, NO_FRAGS)];
      table[idx] := e;
      count := count + 1;
    }

    method FreeEntry(idx: nat)
      requires Valid() && idx < count
      modifies this, table
      ensures Valid() && buffers == old(buffers) && Contents() == old(Contents()) - {old(rows[idx].entry.key)}
    {
      RowsRemove(rows, buffers, idx);
      rows := SwapOut(rows, idx);
      if idx < count - 1 {
        table[idx] := table[count - 1];
      }
      count := count - 1;
    }

    /** The part of an addition after its entry was found or made. */
    method AddAt(idx: nat, f: Frag) returns (r: Status)
      requires Valid() && idx < count && End(f) <= MAX_DATAGRAM
      modifies this, table, buffers
      ensures Valid() && fresh(buffers - old(buffers))
      ensures Contents() == old(Contents())[old(rows[idx].entry.key) := Extend(old(rows[idx].flow), f)]
      ensures r == StatusOf(Extend(old(rows[idx].flow), f))
    {
      var e := Put(table[idx], f, rows[idx].flow);
      ghost var row, owned := Row(e, Extend(rows[idx].flow, f)), if e.data == null then buffers else buffers + {e.data};
      assert Buffered(rows[idx := row], owned) by {
        forall i | 0 <= i < |rows| && i != idx
          ensures (rows[i].entry.data == null || rows[i].entry.data in buffers) && Holds(rows[i].entry, rows[i].flow)
          ensures rows[i].entry.data != null ==> rows[i].entry.data != e.data
        {
          assert old(Holds(rows[i].entry, rows[i].flow));
        }
      }
      RowsChange(rows, idx, row);
      rows, buffers := rows[idx := row], owned;
      table[idx] := e;
      return if e.lastSeen != 0 && e.received >= e.totalLen then Complete else Pending;
    }

    method Add(key: FlowKey, f: Frag) returns (r: Status)
      requires Valid() && End(f) <= MAX_DATAGRAM
      modifies this, table, buffers
      ensures Valid() && fresh(buffers - old(buffers))
      ensures r == Err <==> key !in old(Contents()) && |old(Contents())| >= table.Length
      ensures r == Err ==> Contents() == old(Contents())
      ensures var (m, reply) := Apply(old(Contents()), table.Length, AddFrag(key, f)); Contents() == m && r == reply.status
    {
      RowsSize(rows);
      var idx := FindEntry(key);
      if idx < 0 {
        idx := AllocEntry(key);
        if idx < 0 {
          return Err;
        }
      }
      r := AddAt(idx, f);
    }

    method Get(key: FlowKey, out: array<byte>, max: nat) returns (r: Status, outLen: nat)
      requires Valid() && out !in buffers && max <= out.Length
      modifies this, table, out
      ensures Valid() && buffers == old(buffers)
      ensures var m := old(Contents());
        if key in m && m[key].last && m[key].total <= max then r == Complete && Contents() == m - {key}
        else r == Err && Contents() == m
      ensures var (m, reply) := Apply(old(Contents()), table.Length, GetData(key, max));
        && Contents() == m && r == reply.status
        && (r == Complete ==> outLen == reply.given.total <= max)
        && (r == Complete ==> forall i :: i in reply.given.cells && i < outLen ==> out[i] == reply.given.cells[i])
      ensures forall i :: (if r == Complete then outLen else 0) <= i < out.Length ==> out[i] == old(out[i])
    {
      var idx := FindEntry(key);
      if idx < 0 || table[idx].lastSeen == 0 || table[idx].totalLen > max {
        return Err, 0;
      }
      var e := table[idx];
      assert Holds(e, rows[idx].flow);
      if e.data != null {
        Memcpy(out, 0, e.data[..e.totalLen]);
      }
      outLen := e.totalLen;
      assert Buffered(rows, buffers);
      FreeEntry(idx);
      r := Complete;
    }

    method Flush()
      requires Valid()
      modifies this, table
      ensures Valid() && buffers == old(buffers)
      ensures Contents() == map[] == Apply(old(Contents()), table.Length, FlushAll).0
    {
      for i := 0 to table.Length
        modifies table
      {
        table[i] := Entry(FlowKey(0, 0, 0), null, 0, 0, 0, 0);
      }
      count, rows := 0, [];
    }
  }
}

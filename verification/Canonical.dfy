/** The canonical chunk layout: name-sorted tensors, floor(len / 32) chunks of 32 bytes each,
    found in the GGUF file through a table of (first chunk index, file offset). */
module Canonical {
  import opened Arith
  import opened Bytes

  /** A tensor: where its bytes lie in the file, and those bytes. */
  datatype Tensor = Tensor(fileOff: nat, data: seq<byte>) {
    /** Number of whole chunks. */
    function Full(): nat {
      |data| / 32
    }

    function Chunk(c: nat): Bytes32
      requires c < Full()
    {
      data[c * 32..c * 32 + 32]
    }

    function Chunks(): (cs: seq<Bytes32>)
      ensures |cs| == Full()
    {
      seq(Full(), c requires 0 <= c < Full() => Chunk(c))
    }
  }

  datatype TableEntry = TableEntry(start: nat, fileOff: nat)

  /** The file holds each tensor's bytes at its offset. */
  predicate InFile(gguf: seq<byte>, ts: seq<Tensor>) {
    forall t | t in ts :: t.fileOff + |t.data| <= |gguf| && gguf[t.fileOff..t.fileOff + |t.data|] == t.data
  }

  /** The model's chunks in canonical order. */
  function Chunks(ts: seq<Tensor>): seq<Bytes32> {
    if ts == [] then [] else Chunks(ts[..|ts| - 1]) + ts[|ts| - 1].Chunks()
  }

  /** The table, which skips tensors shorter than a chunk. */
  function Table(ts: seq<Tensor>): seq<TableEntry> {
    if ts == [] then []
    else
      var rest := ts[..|ts| - 1];
      var last := ts[|ts| - 1];
      Table(rest) + if last.Full() > 0 then [TableEntry(|Chunks(rest)|, last.fileOff)] else []
  }

  /** The tensor that chunk `off` belongs to. */
  function Owner(ts: seq<Tensor>, off: nat): (o: nat)
    requires off < |Chunks(ts)|
    ensures o < |ts|
  {
    var rest := ts[..|ts| - 1];
    if off < |Chunks(rest)| then Owner(rest, off) else |ts| - 1
  }

  ghost predicate Ascending(table: seq<TableEntry>) {
    forall i, j | 0 <= i < j < |table| :: table[i].start < table[j].start
  }

  /** `p` splits the table into the entries that start at or before `off` and those that start after. */
  ghost predicate Splits(table: seq<TableEntry>, off: nat, p: nat) {
    && p <= |table|
    && (forall i | 0 <= i < p :: table[i].start <= off)
    && (forall i | p <= i < |table| :: off < table[i].start)
  }

  lemma {:induction false} TableAscending(ts: seq<Tensor>)
    ensures Ascending(Table(ts))
    ensures forall i | 0 <= i < |Table(ts)| :: Table(ts)[i].start < |Chunks(ts)|
    ensures Chunks(ts) != [] ==> Table(ts) != [] && Table(ts)[0].start == 0
  {
    hide Table, Chunks;
    if ts == [] {
      EmptyTable();
    } else {
      var rest, last := ts[..|ts| - 1], ts[|ts| - 1];
      TableAscending(rest);
      AppendAscends(Table(rest), |Chunks(rest)|, last.fileOff);
      TableStep(ts);
    }
  }

  lemma EmptyTable()
    ensures Table([]) == [] && Chunks([]) == []
  {
  }

  lemma TableStep(ts: seq<Tensor>)
    requires ts != []
    ensures var rest, last := ts[..|ts| - 1], ts[|ts| - 1];
      && |Chunks(ts)| == |Chunks(rest)| + last.Full()
      && Table(ts) == if last.Full() > 0 then Table(rest) + [TableEntry(|Chunks(rest)|, last.fileOff)] else Table(rest)
  {
  }

  lemma AppendAscends(table: seq<TableEntry>, start: nat, fileOff: nat)
    requires Ascending(table) && (forall i | 0 <= i < |table| :: table[i].start < start)
    ensures Ascending(table + [TableEntry(start, fileOff)])
  {
  }

  /** The entry before the split is the owner's, and chunk `off` lies at the offset read, inside the owner. */
  lemma {:induction false} EntryLocatesChunk(ts: seq<Tensor>, off: nat, p: nat)
    requires off < |Chunks(ts)| && Splits(Table(ts), off, p)
    ensures p > 0
    ensures var entry := Table(ts)[p - 1];
            var owner := ts[Owner(ts, off)];
            && entry.start <= off
            && entry.fileOff == owner.fileOff
            && off - entry.start < owner.Full()
            && Chunks(ts)[off] == owner.Chunk(off - entry.start)
  {
    hide Table, Chunks;
    var last := LastOf(ts, off);
    var rest := ts[..|ts| - 1];
    TableAscending(rest);
    TableStep(ts);
    ChunksStep(ts);
    var start := |Chunks(rest)|;
    if off < start {
      SplitsBefore(Table(rest), Table(ts), off, start, p);
      EntryLocatesChunk(rest, off, p);
    } else {
      SplitsAtEnd(Table(rest), TableEntry(start, last.fileOff), off, p);
      assert last.Chunks()[off - start] == last.Chunk(off - start);
    }
  }

  /** A model with chunks has a last tensor. */
  lemma LastOf(ts: seq<Tensor>, off: nat) returns (last: Tensor)
    requires off < |Chunks(ts)|
    ensures ts != [] && last == ts[|ts| - 1]
  {
    last := ts[|ts| - 1];
  }

  lemma ChunksStep(ts: seq<Tensor>)
    requires ts != []
    ensures Chunks(ts) == Chunks(ts[..|ts| - 1]) + ts[|ts| - 1].Chunks()
  {
  }

  lemma SplitsBefore(table: seq<TableEntry>, longer: seq<TableEntry>, off: nat, start: nat, p: nat)
    requires Splits(longer, off, p) && off < start && table <= longer
    requires forall i | |table| <= i < |longer| :: longer[i].start == start
    ensures p <= |table| && Splits(table, off, p)
    ensures p > 0 ==> table[p - 1] == longer[p - 1]
  {
    if |table| < |longer| {
      assert longer[|table|].start == start;
    }
    assert forall i | 0 <= i < |table| :: table[i] == longer[i];
  }

  lemma SplitsAtEnd(table: seq<TableEntry>, last: TableEntry, off: nat, p: nat)
    requires Splits(table + [last], off, p) && last.start <= off
    ensures p == |table| + 1
  {
    assert (table + [last])[|table|] == last;
  }

  /** `slice::partition_point` on the sorted table. */
  method PartitionPoint(table: seq<TableEntry>, off: nat) returns (p: nat)
    requires Ascending(table)
    ensures Splits(table, off, p)
  {
    var lo, hi := 0, |table|;
    while lo < hi
      invariant 0 <= lo <= hi <= |table|
      invariant forall i | 0 <= i < lo :: table[i].start <= off
      invariant forall i | hi <= i < |table| :: off < table[i].start
    {
      var mid := (lo + hi) / 2;
      if table[mid].start <= off {
        lo := mid + 1;
      } else {
        hi := mid;
      }
    }
    p := lo;
  }

  /** `read_chunk_bytes`: the read at the computed file offset is the `off`-th canonical chunk. */
  method ReadChunkBytes(gguf: seq<byte>, table: seq<TableEntry>, off: nat,
          ghost ts: seq<Tensor>) returns (chunk: Bytes32)
    requires InFile(gguf, ts) && table == Table(ts)
    requires off < |Chunks(ts)|
    ensures chunk == Chunks(ts)[off]
  {
    hide Table, Chunks, Ascending, Splits, Owner;
    TableAscending(ts);
    var p := PartitionPoint(table, off);
    EntryLocatesChunk(ts, off, p);
    SplitsInside(table, off, p);
    ghost var owner := ts[Owner(ts, off)];
    var entry := table[p - 1];
    ReadInside(gguf, owner, off - entry.start);
    var at := entry.fileOff + (off - entry.start) * 32;
    chunk := gguf[at..at + 32];
  }

  lemma SplitsInside(table: seq<TableEntry>, off: nat, p: nat)
    requires Splits(table, off, p)
    ensures p <= |table|
  {
  }

  /** A chunk's read stays inside its tensor and gives the chunk. */
  lemma ReadInside(gguf: seq<byte>, t: Tensor, c: nat)
    requires c < t.Full() && t.fileOff + |t.data| <= |gguf| && gguf[t.fileOff..t.fileOff + |t.data|] == t.data
    ensures t.fileOff + c * 32 + 32 <= t.fileOff + |t.data|
    ensures gguf[t.fileOff + c * 32..t.fileOff + c * 32 + 32] == t.Chunk(c)
  {
    SubSlice(gguf, t.fileOff, |t.data|, c * 32, c * 32 + 32);
  }
}

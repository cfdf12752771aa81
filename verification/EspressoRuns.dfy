/** Whole runs of one chunk store, against a map from descriptors to the bytes that were written. */
module EspressoRuns {
  import opened Extents
  import opened Allocation
  import opened EspressoStorage
  import opened EspressoLayouts

  datatype Op =
    | Write(d: Descriptor, offset: nat, buf: seq<byte>)
    | Read(d: Descriptor, offset: nat, count: int)
    | Delete(d: Descriptor)

  /** An operation and what it returned. A read that begins past the end of its chunk, which no
      caller may ask for, is left out of the run: it is `skipped`. */
  datatype Event = Event(op: Op, result: int, bytes: seq<byte>, skipped: bool)

  // ---------------------------------------------------------------------------
  // The simple form of the store: what is known of each chunk
  // ---------------------------------------------------------------------------

  /** A chunk of `len` bytes. The bytes that were never written are not known. */
  datatype Chunk = Chunk(len: nat, known: map<nat, byte>)

  type AbstractStore = map<Descriptor, Chunk>

  function Empty(): Chunk { Chunk(0, map[]) }

  /** The byte that writing `buf` at `offset` puts at position `i`. */
  function ByteAt(offset: nat, buf: seq<byte>, i: nat): byte
    requires offset <= i < offset + |buf|
  {
    buf[i - offset]
  }

  function WriteTo(c: Chunk, offset: nat, buf: seq<byte>): Chunk {
    Chunk(if offset + |buf| > c.len then offset + |buf| else c.len,
          c.known + map i | offset <= i < offset + |buf| :: ByteAt(offset, buf, i))
  }

  lemma WriteToFacts(c: Chunk, offset: nat, buf: seq<byte>)
    ensures var c' := WriteTo(c, offset, buf);
            && c'.len == (if offset + |buf| > c.len then offset + |buf| else c.len)
            && (forall i: nat :: i in c'.known <==> i in c.known || offset <= i < offset + |buf|)
            && (forall i: nat :: offset <= i < offset + |buf| ==> c'.known[i] == buf[i - offset])
            && (forall i :: i in c.known && !(offset <= i < offset + |buf|) ==> c'.known[i] == c.known[i])
  {
  }

  function StepStore(s: AbstractStore, e: Event): AbstractStore {
    if e.skipped || e.result == ERROR then s
    else match e.op
      case Write(d, offset, buf) => s[d := WriteTo(if d in s then s[d] else Empty(), offset, buf)]
      case Read(_, _, _) => s
      case Delete(d) => s - {d}
  }

  function RunStore(log: seq<Event>): AbstractStore {
    if log == [] then map[] else StepStore(RunStore(log[..|log| - 1]), log[|log| - 1])
  }

  ghost predicate KnownBytes(bytes: seq<byte>, c: Chunk, from: nat) {
    forall i :: i in c.known && from <= i < from + |bytes| ==> bytes[i - from] == c.known[i]
  }

  ghost predicate RefinesChunk(bytes: seq<byte>, c: Chunk) {
    && |bytes| == c.len
    && (forall i :: i in c.known ==> i < c.len && bytes[i] == c.known[i])
  }

  /** The bytes in the data file agree with everything that is known of the chunks. */
  ghost predicate Refines(contents: map<Descriptor, seq<byte>>, s: AbstractStore) {
    && contents.Keys == s.Keys
    && forall d :: d in s ==> RefinesChunk(contents[d], s[d])
  }

  /** What a client may conclude from the result of an operation issued in abstract state `s`. */
  ghost predicate Explained(s: AbstractStore, e: Event) {
    match e.op
    case Write(d, offset, buf) =>
      && !e.skipped
      && (e.result == |buf| || e.result == ERROR)
      && (d in s && offset + |buf| <= s[d].len ==> e.result != ERROR)
    case Read(d, offset, count) =>
      && (e.skipped <==> d in s && s[d].len < offset)
      && (!e.skipped ==> (e.result == ERROR <==> count < 0 || d !in s))
      && (!e.skipped && e.result != ERROR ==>
            && e.result == |e.bytes| == (if offset + count <= s[d].len then count else s[d].len - offset)
            && KnownBytes(e.bytes, s[d], offset))
    case Delete(d) =>
      && !e.skipped
      && e.result == if d in s then 0 else ERROR
  }

  /** Every result in the log is explained by the operations before it. */
  ghost predicate AllExplained(log: seq<Event>) {
    forall i :: 0 <= i < |log| ==> Explained(RunStore(log[..i]), log[i])
  }

  lemma AllExplainedSnoc(log: seq<Event>, e: Event)
    ensures AllExplained(log + [e]) <==> AllExplained(log) && Explained(RunStore(log), e)
  {
    hide Explained, RunStore;
    var log' := log + [e];
    assert log'[..|log|] == log;
    forall i | 0 <= i < |log| ensures log'[i] == log[i] && log'[..i] == log[..i] {
    }
    if AllExplained(log') {
      forall i | 0 <= i < |log| ensures Explained(RunStore(log[..i]), log[i]) {
        assert Explained(RunStore(log'[..i]), log'[i]);
      }
      assert Explained(RunStore(log'[..|log|]), log'[|log|]);
    }
  }

  /** A write of no bytes at the start of a chunk is the one request that can break a store. */
  predicate Harmless(op: Op) {
    op.Write? ==> 0 < op.offset + |op.buf|
  }

  lemma ChunkWriteRefines(bytes: seq<byte>, bytes': seq<byte>, chunk: Chunk, offset: nat, buf: seq<byte>)
    requires RefinesChunk(bytes, chunk) && Written(bytes, bytes', offset, buf)
    ensures RefinesChunk(bytes', WriteTo(chunk, offset, buf))
  {
    WriteToFacts(chunk, offset, buf);
    var chunk' := WriteTo(chunk, offset, buf);
    hide WriteTo;
    forall i | i in chunk'.known ensures i < chunk'.len && bytes'[i] == chunk'.known[i] {
      if offset <= i < offset + |buf| {
        assert bytes'[offset + (i - offset)] == buf[i - offset];
      } else {
        assert i in chunk.known;
      }
    }
  }

  lemma WriteRefines(c: map<Descriptor, seq<byte>>, c': map<Descriptor, seq<byte>>, s: AbstractStore,
                     d: Descriptor, offset: nat, buf: seq<byte>)
    requires Refines(c, s)
    requires OthersKept(c, c', d) && Written(ChunkOf(c, d), c'[d], offset, buf)
    ensures Refines(c', s[d := WriteTo(if d in s then s[d] else Empty(), offset, buf)])
  {
    hide WriteTo, Written;
    assert RefinesChunk(ChunkOf(c, d), if d in s then s[d] else Empty());
    hide RefinesChunk;
    ChunkWriteRefines(ChunkOf(c, d), c'[d], if d in s then s[d] else Empty(), offset, buf);
  }

  lemma RefinesNothing(contents: map<Descriptor, seq<byte>>)
    requires contents == map[]
    ensures RunStore([]) == map[] && Refines(contents, RunStore([])) && AllExplained([])
  {
  }

  lemma RunStoreSnoc(log: seq<Event>, e: Event)
    ensures RunStore(log + [e]) == StepStore(RunStore(log), e)
  {
  }

  // ---------------------------------------------------------------------------
  // What is known, read off the log alone
  // ---------------------------------------------------------------------------

  datatype Option<T> = None | Some(value: T)

  /** The byte that the last write covering position `i` of chunk `d` put there, unless the
      chunk was deleted since. */
  function LastWritten(log: seq<Event>, d: Descriptor, i: nat): Option<byte> {
    if log == [] then None
    else
      var e, before := log[|log| - 1], log[..|log| - 1];
      if e.skipped || e.result == ERROR || e.op.d != d || e.op.Read? then LastWritten(before, d, i)
      else if e.op.Delete? then None
      else if e.op.offset <= i < e.op.offset + |e.op.buf| then Some(e.op.buf[i - e.op.offset])
      else LastWritten(before, d, i)
  }

  /** What the store is known to hold is exactly what the log says was last written. */
  lemma {:induction false} KnownIsLastWritten(log: seq<Event>, d: Descriptor, i: nat)
    ensures var s := RunStore(log);
            LastWritten(log, d, i) == if d in s && i in s[d].known then Some(s[d].known[i]) else None
  {
    if log != [] {
      KnownIsLastWritten(log[..|log| - 1], d, i);
    }
  }

  /** Every byte of a chunk that was written is the byte that was written there last. */
  ghost predicate HoldsLastWritten(contents: map<Descriptor, seq<byte>>, log: seq<Event>) {
    forall d: Descriptor, i: nat :: LastWritten(log, d, i).Some? ==>
      d in contents && i < |contents[d]| && contents[d][i] == LastWritten(log, d, i).value
  }

  lemma RefinesHoldsLastWritten(contents: map<Descriptor, seq<byte>>, log: seq<Event>)
    requires Refines(contents, RunStore(log))
    ensures HoldsLastWritten(contents, log)
  {
    forall d: Descriptor, i: nat | LastWritten(log, d, i).Some?
      ensures d in contents && i < |contents[d]| && contents[d][i] == LastWritten(log, d, i).value
    {
      KnownIsLastWritten(log, d, i);
      assert RefinesChunk(contents[d], RunStore(log)[d]);
    }
  }

  /** Where an operation leaves the chunks, and that a write fails for lack of room and for nothing else. */
  ghost predicate LayoutStep(m: Layout, m': Layout, maxSize: int, e: Event) {
    match e.op
    case Write(d, offset, buf) => WritePlaces(m, m', maxSize, d, offset + |buf|, e.result == ERROR)
    case Read(_, _, _) => m' == m
    case Delete(d) => m' == m - {d}
  }

  /** `layouts` are the places of the chunks before each operation of the log and at its end. */
  ghost predicate LayoutTrace(layouts: seq<Layout>, maxSize: int, log: seq<Event>) {
    && |layouts| == |log| + 1 && layouts[0] == map[]
    && forall i :: 0 <= i < |log| ==> LayoutStep(layouts[i], layouts[i + 1], maxSize, log[i])
  }

  lemma LayoutTraceSnoc(layouts: seq<Layout>, maxSize: int, log: seq<Event>, m: Layout, e: Event)
    requires LayoutTrace(layouts, maxSize, log) && LayoutStep(layouts[|log|], m, maxSize, e)
    ensures LayoutTrace(layouts + [m], maxSize, log + [e])
  {
    hide LayoutStep;
  }

  /** One operation on a store that agrees with abstract state `s`. */
  method Perform(store: EspressoStore, op: Op, ghost s: AbstractStore) returns (e: Event)
    requires store.Valid() && Refines(store.Contents(), s) && Harmless(op)
    modifies store
    ensures e.op == op && store.Valid()
    ensures Explained(s, e)
    ensures Refines(store.Contents(), StepStore(s, e))
    ensures LayoutStep(old(store.metadata), store.metadata, store.maxSize, e)
  {
    match op
    case Write(d, offset, buf) => e := PerformWrite(store, d, offset, buf, s);
    case Read(d, offset, count) =>
      assert d in s ==> RefinesChunk(store.Contents()[d], s[d]);
      if d in store.metadata && store.metadata[d].size < offset {
        e := Event(op, ERROR, [], true);
      } else {
        var r, bytes := store.ReadChunk(d, offset, count);
        e := Event(op, r, bytes, false);
      }
    case Delete(d) =>
      var r := store.DeleteChunk(d);
      e := Event(op, r, [], false);
      assert s - {d} == if d in s then s - {d} else s;
  }

  method PerformWrite(store: EspressoStore, d: Descriptor, offset: nat, buf: seq<byte>, ghost s: AbstractStore)
      returns (e: Event)
    requires store.Valid() && Refines(store.Contents(), s) && 0 < offset + |buf|
    modifies store
    ensures e.op == Write(d, offset, buf) && store.Valid()
    ensures Explained(s, e)
    ensures Refines(store.Contents(), StepStore(s, e))
    ensures LayoutStep(old(store.metadata), store.metadata, store.maxSize, e)
  {
    hide WritePlaces, AllDisjoint, Canonical, FreeIsComplement, Placement, HasRun, HasRunWith, WriteTo, Written,
         OthersKept;
    ghost var c, m, free := store.Contents(), store.metadata, store.freeExtents;
    assert buf[..|buf|] == buf;
    var r := store.WriteChunk(d, offset, buf, |buf|);
    e := Event(Write(d, offset, buf), r, [], false);
    WrittenPlaces(m, free, store.metadata, store.freeExtents, store.maxSize, d, offset + |buf|, r == ERROR);
    if r != ERROR {
      WriteRefines(c, store.Contents(), s, d, offset, buf);
    }
    assert d in s ==> RefinesChunk(c[d], s[d]);
  }

  /** Every run from a fresh store, whatever it writes, reads and deletes: the store always
      agrees with the simple form, every result is one the simple form explains, and a write fails
      when there is no room for it and for nothing else. */
  method Run(store: EspressoStore, ops: seq<Op>) returns (log: seq<Event>, ghost layouts: seq<Layout>)
    requires store.Valid() && store.metadata == map[]
    requires forall i :: 0 <= i < |ops| ==> Harmless(ops[i])
    modifies store
    ensures store.Valid() && |log| == |ops|
    ensures forall i :: 0 <= i < |ops| ==> log[i].op == ops[i]
    ensures AllExplained(log)
    ensures Refines(store.Contents(), RunStore(log))
    ensures HoldsLastWritten(store.Contents(), log)
    ensures LayoutTrace(layouts, store.maxSize, log) && layouts[|log|] == store.metadata
  {
    hide EspressoStore.Valid, Refines, Explained, StepStore, RunStore, HoldsLastWritten, LayoutStep, AllExplained;
    log, layouts := [], [map[]];
    RefinesNothing(store.Contents());
    for k := 0 to |ops|
      invariant store.Valid() && |log| == k
      invariant forall i :: 0 <= i < k ==> log[i].op == ops[i]
      invariant AllExplained(log)
      invariant Refines(store.Contents(), RunStore(log))
      invariant LayoutTrace(layouts, store.maxSize, log) && layouts[|log|] == store.metadata
    {
      ghost var m := store.metadata;
      var e := Perform(store, ops[k], RunStore(log));
      LayoutTraceSnoc(layouts, store.maxSize, log, store.metadata, e);
      layouts := layouts + [store.metadata];
      RunStoreSnoc(log, e);
      AllExplainedSnoc(log, e);
      log := log + [e];
    }
    RefinesHoldsLastWritten(store.Contents(), log);
  }

  /** A concrete request that breaks a store: writing no bytes at the start of a new chunk makes
      the only free extent disappear, so that no byte of the file is free or allocated any more. */
  method ZeroByteWriteLosesTheFile(d: Descriptor) returns (store: EspressoStore)
    ensures store.maxSize == 10 && !store.Valid()
    ensures forall p :: 0 <= p < 10 ==> !Free(store.freeExtents, p) && !Allocated(store.metadata, p)
  {
    store := new EspressoStore(10);
    assert 0 in store.freeExtents;
    var r := store.WriteChunk(d, 0, [], 0);
    assert store.freeExtents == map[];
    assert store.metadata == map[][d := store.metadata[d]];
  }
}

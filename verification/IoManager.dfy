/** From stripes to chunks: where each chunk and its replica are kept, and what is sent to whom. */
module IoManager {
  import opened EspressoStorage
  import opened EspressoRuns
  import opened Nodes
  import opened Striping
  import opened FileChunks
  import opened VolatileMetadata
  import opened WriteRequests
  import opened ReadRequests
  import opened DeleteRequests
  import opened Acknowledgements
  import PersistentMetadata
  import LockingStrategy

  const NODE_FAILURE: int := -1
  const NODE_SUCCESS: int := 0

  function DescriptorOf(c: FileChunk): Descriptor {
    Descriptor(c.fileId, c.stripeId, c.chunkNum)
  }

  /** The connections to the nodes. What was sent is kept as one log; each node gets its packets
      in the order of the log. */
  class Network {
    var sent: seq<Packet>
    var reachable: set<int>

    constructor (reachable: set<int>)
      ensures sent == [] && this.reachable == reachable
    {
      sent, this.reachable := [], reachable;
    }

    method Send(p: Packet) returns (r: int)
      modifies this`sent
      ensures r == if p.node in reachable then NODE_SUCCESS else NODE_FAILURE
      ensures sent == if p.node in reachable then old(sent) + [p] else old(sent)
    {
      if p.node in reachable {
        sent := sent + [p];
        return NODE_SUCCESS;
      }
      return NODE_FAILURE;
    }
  }

  // ---------------------------------------------------------------------------
  // Placement
  // ---------------------------------------------------------------------------

  /** The distribution strategy: odd chunks on the first node, even ones on the second, and on the
      other of the two when that one is down. */
  function PutChunk(up: seq<int>, chunkNum: nat): (node: int)
    ensures node == FIRST || node == SECOND
    ensures FIRST in up || SECOND in up ==> node in up
    ensures FIRST in up && SECOND in up ==> (node == FIRST <==> chunkNum % 2 == 1)
  {
    var node := if chunkNum % 2 == 1 then FIRST else SECOND;
    if node in up then node else if node == FIRST then SECOND else FIRST
  }

  /** The replication strategy: the same with the two replica nodes. */
  function PutReplica(up: seq<int>, chunkNum: nat): (node: int)
    ensures node == FIRST_REPLICA || node == SECOND_REPLICA
    ensures FIRST_REPLICA in up || SECOND_REPLICA in up ==> node in up
    ensures FIRST_REPLICA in up && SECOND_REPLICA in up ==> (node == FIRST_REPLICA <==> chunkNum % 2 == 1)
  {
    var node := if chunkNum % 2 == 1 then FIRST_REPLICA else SECOND_REPLICA;
    if node in up then node else if node == FIRST_REPLICA then SECOND_REPLICA else FIRST_REPLICA
  }

  /** With all nodes up, chunks that follow each other are placed on different nodes, and so are their replicas. */
  lemma NeighboursApart(up: seq<int>, chunkNum: nat)
    requires FIRST in up && SECOND in up && FIRST_REPLICA in up && SECOND_REPLICA in up
    ensures PutChunk(up, chunkNum) != PutChunk(up, chunkNum + 1)
    ensures PutReplica(up, chunkNum) != PutReplica(up, chunkNum + 1)
  {
  }

  // ---------------------------------------------------------------------------
  // What a sequence of fragment writes does
  // ---------------------------------------------------------------------------

  /** Where each chunk and its replica are kept, the chunks of which the replica has missed a write, the
      nodes that are taken to be up, the log of what was sent, and the nodes that can be reached. */
  datatype IoState = IoState(nodes: map<FileChunk, int>, replicas: map<FileChunk, int>, stale: set<FileChunk>,
                             up: seq<int>, sent: seq<Packet>, reachable: set<int>)

  /** One write request: for which file, and under which ids. */
  datatype WriteContext = WriteContext(fileId: int, request: WriteRequest, buf: seq<byte>)

  function ChunkOfFragment(fileId: int, f: Fragment): FileChunk {
    FileChunk(fileId, f.stripeId, f.chunkId)
  }

  predicate InBuffer(f: Fragment, buf: seq<byte>) {
    f.start + f.size <= |buf|
  }

  predicate AllInBuffer(fs: seq<Fragment>, buf: seq<byte>) {
    forall i :: 0 <= i < |fs| ==> InBuffer(fs[i], buf)
  }

  /** The node that a chunk is kept on, or would be placed on. */
  function PrimaryFor(s: IoState, c: FileChunk): (node: int) {
    if c in s.nodes then s.nodes[c] else PutChunk(s.up, c.chunkNum)
  }

  function ReplicaFor(s: IoState, c: FileChunk): (node: int) {
    if c in s.replicas then s.replicas[c] else PutReplica(s.up, c.chunkNum)
  }

  /** The node that a replica is sent to instead, when its own node cannot be reached. */
  function SubstituteFor(s: IoState, c: FileChunk): (node: int) {
    PutReplica(Without(s.up, ReplicaFor(s, c)), c.chunkNum)
  }

  /** No node gets the replica of a write to the chunk. */
  predicate ReplicaLost(s: IoState, c: FileChunk) {
    ReplicaFor(s, c) !in s.reachable && SubstituteFor(s, c) !in s.reachable
  }

  /** Sends the replica of a write to a chunk. If its node cannot be reached it is taken to be down, and the
      replica is sent to the other replica node, of which the tables know nothing. */
  function ReplicaSent(s: IoState, c: FileChunk, p: Packet): IoState {
    if p.node in s.reachable then s.(sent := s.sent + [p])
    else
      var up := Without(s.up, p.node);
      var other := PutReplica(up, c.chunkNum);
      s.(stale := s.stale + {c}, up := up,
         sent := s.sent + if other in s.reachable then [p.(node := other)] else [])
  }

  /** Sends a fragment to the primary and to the replica node of its chunk; a chunk that is new
      is placed first. */
  function IssueWrite(s: IoState, f: Fragment, c: WriteContext): IoState
    requires InBuffer(f, c.buf)
  {
    var chunk := ChunkOfFragment(c.fileId, f);
    var node, replica := PrimaryFor(s, chunk), ReplicaFor(s, chunk);
    var body := WriteBody(f.offset, c.buf[f.start..f.start + f.size]);
    var placed := s.(nodes := s.nodes[chunk := node], replicas := s.replicas[chunk := replica]);
    ReplicaSent(placed.(sent := s.sent + [Packet(node, c.request.requestId, DescriptorOf(chunk), body)]),
                chunk, Packet(replica, c.request.replicaRequestId, DescriptorOf(chunk), body))
  }

  /** The copies of a fragment: the one for the primary node goes under the first id of the request, and the
      other one, if there is a node for it, to a replica node under the second id. They write the same bytes to
      the same place of the same chunk: the ones that the fragment has in the buffer. */
  ghost predicate AreCopies(packets: seq<Packet>, f: Fragment, c: WriteContext)
    requires InBuffer(f, c.buf)
  {
    && 1 <= |packets| <= 2
    && (forall i :: 0 <= i < |packets| ==>
          && packets[i].d == Descriptor(c.fileId, f.stripeId, f.chunkId)
          && packets[i].body == WriteBody(f.offset, c.buf[f.start..f.start + f.size]))
    && packets[0].node in {FIRST, SECOND} && packets[0].id == c.request.requestId
    && (|packets| == 2 ==>
          packets[1].node in {FIRST_REPLICA, SECOND_REPLICA} && packets[1].id == c.request.replicaRequestId)
  }

  /** What is sent for a fragment: its copies, two of them unless the replica is lost. */
  lemma CopiesOfFragment(s: IoState, f: Fragment, c: WriteContext)
    requires InBuffer(f, c.buf) && Separated(s)
    ensures var s' := IssueWrite(s, f, c);
            && s.sent <= s'.sent && AreCopies(s'.sent[|s.sent|..], f, c)
            && (|s'.sent| == |s.sent| + 1 <==> ReplicaLost(s, ChunkOfFragment(c.fileId, f)))
  {
    hide Without;
  }

  /** Where a chunk is kept that is new: by its number, on the first or the second node, or on the other one when
      that one is down; and its replica likewise. A chunk that is not new stays where it is. */
  lemma PlacedByNumber(s: IoState, f: Fragment, c: WriteContext)
    requires InBuffer(f, c.buf)
    ensures var s', chunk, odd := IssueWrite(s, f, c), FileChunk(c.fileId, f.stripeId, f.chunkId), f.chunkId % 2 == 1;
            && chunk in s'.nodes && chunk in s'.replicas
            && (chunk in s.nodes ==> s'.nodes == s.nodes)
            && (chunk in s.replicas ==> s'.replicas == s.replicas)
            && (chunk !in s.nodes ==>
                  && s'.nodes == s.nodes[chunk := s'.nodes[chunk]]
                  && (odd && FIRST in s.up ==> s'.nodes[chunk] == FIRST)
                  && (odd && FIRST !in s.up ==> s'.nodes[chunk] == SECOND)
                  && (!odd && SECOND in s.up ==> s'.nodes[chunk] == SECOND)
                  && (!odd && SECOND !in s.up ==> s'.nodes[chunk] == FIRST))
            && (chunk !in s.replicas ==>
                  && s'.replicas == s.replicas[chunk := s'.replicas[chunk]]
                  && (odd && FIRST_REPLICA in s.up ==> s'.replicas[chunk] == FIRST_REPLICA)
                  && (odd && FIRST_REPLICA !in s.up ==> s'.replicas[chunk] == SECOND_REPLICA)
                  && (!odd && SECOND_REPLICA in s.up ==> s'.replicas[chunk] == SECOND_REPLICA)
                  && (!odd && SECOND_REPLICA !in s.up ==> s'.replicas[chunk] == FIRST_REPLICA))
  {
    hide Without;
  }

  /** Which nodes are taken to be down: besides those that were, the replica node of the chunk, if it cannot be
      reached. */
  lemma UpAfterWrite(s: IoState, f: Fragment, c: WriteContext)
    requires InBuffer(f, c.buf)
    ensures var s', chunk := IssueWrite(s, f, c), FileChunk(c.fileId, f.stripeId, f.chunkId);
            && chunk in s'.replicas
            && forall n :: n in s'.up <==> n in s.up && (n == s'.replicas[chunk] ==> n in s.reachable)
  {
  }

  function IssueWrites(s: IoState, fs: seq<Fragment>, c: WriteContext): IoState
    requires AllInBuffer(fs, c.buf)
  {
    if fs == [] then s else IssueWrite(IssueWrites(s, fs[..|fs| - 1], c), fs[|fs| - 1], c)
  }

  lemma IssueWritesSnoc(s: IoState, fs: seq<Fragment>, f: Fragment, c: WriteContext)
    requires AllInBuffer(fs, c.buf)
    requires InBuffer(f, c.buf)
    ensures IssueWrites(s, fs + [f], c) == IssueWrite(IssueWrites(s, fs, c), f, c)
  {
  }

  lemma IssueOneWrite(s: IoState, f: Fragment, c: WriteContext)
    requires InBuffer(f, c.buf)
    ensures IssueWrites(s, [f], c) == IssueWrite(s, f, c)
  {
    assert [f][..0] == [];
  }

  lemma {:induction false} IssueWritesConcat(s: IoState, a: seq<Fragment>, b: seq<Fragment>, c: WriteContext)
    requires AllInBuffer(a, c.buf)
    requires AllInBuffer(b, c.buf)
    ensures IssueWrites(s, a + b, c) == IssueWrites(IssueWrites(s, a, c), b, c)
  {
    hide IssueWrite;
    if b == [] {
      assert a + b == a;
    } else {
      var n := |b| - 1;
      IssueWritesConcat(s, a, b[..n], c);
      assert a + b == (a + b[..n]) + [b[n]];
      IssueWritesSnoc(s, a + b[..n], b[n], c);
    }
  }

  function TotalBytes(fs: seq<Fragment>): nat {
    if fs == [] then 0 else TotalBytes(fs[..|fs| - 1]) + fs[|fs| - 1].size
  }

  /** How many of the replicas are lost when these fragments are issued. */
  function LostCopies(s: IoState, fs: seq<Fragment>, c: WriteContext): nat
    requires AllInBuffer(fs, c.buf)
  {
    if fs == [] then 0
    else
      var before, f := fs[..|fs| - 1], fs[|fs| - 1];
      LostCopies(s, before, c)
        + if ReplicaLost(IssueWrites(s, before, c), ChunkOfFragment(c.fileId, f)) then 1 else 0
  }

  lemma LostCopiesSnoc(s: IoState, fs: seq<Fragment>, f: Fragment, c: WriteContext)
    requires AllInBuffer(fs, c.buf) && InBuffer(f, c.buf)
    ensures LostCopies(s, fs + [f], c)
            == LostCopies(s, fs, c)
               + if ReplicaLost(IssueWrites(s, fs, c), ChunkOfFragment(c.fileId, f)) then 1 else 0
  {
  }

  lemma {:induction false} LostCopiesConcat(s: IoState, a: seq<Fragment>, b: seq<Fragment>, c: WriteContext)
    requires AllInBuffer(a, c.buf) && AllInBuffer(b, c.buf)
    ensures LostCopies(s, a + b, c) == LostCopies(s, a, c) + LostCopies(IssueWrites(s, a, c), b, c)
  {
    hide IssueWrite, ReplicaLost, IssueWrites;
    if b == [] {
      assert a + b == a;
    } else {
      var n := |b| - 1;
      LostCopiesConcat(s, a, b[..n], c);
      IssueWritesConcat(s, a, b[..n], c);
      assert a + b == (a + b[..n]) + [b[n]];
      LostCopiesSnoc(s, a + b[..n], b[n], c);
    }
  }

  /** The ledger after these fragments were issued, of which `lost` replicas could not be sent. */
  function CountFragments(ledger: map<WriteRequest, Entry>, r: WriteRequest, fs: seq<Fragment>, lost: nat)
      : map<WriteRequest, Entry>
    requires r in ledger
  {
    var e := ledger[r];
    ledger[r := e.(issued := e.issued + |fs|, replicasIssued := e.replicasIssued + |fs|, lost := e.lost + lost,
                   total := e.total + TotalBytes(fs))]
  }

  lemma CountFragmentsSnoc(ledger: map<WriteRequest, Entry>, r: WriteRequest, fs: seq<Fragment>, lost: nat,
                           f: Fragment, more: nat)
    requires r in ledger
    ensures CountFragments(ledger, r, fs + [f], lost + more)
            == CountFragments(CountFragments(ledger, r, fs, lost), r, [f], more)
  {
    assert (fs + [f])[..|fs|] == fs;
    assert [f][..0] == [] && TotalBytes([f]) == f.size;
    var mid := CountFragments(ledger, r, fs, lost);
    assert CountFragments(ledger, r, fs + [f], lost + more)
        == mid[r := CountFragments(ledger, r, fs + [f], lost + more)[r]];
  }

  lemma CountOneFragment(ledger: map<WriteRequest, Entry>, r: WriteRequest, f: Fragment)
    requires r in ledger
    ensures var primary := IssuedTo(ledger[r], true, f.size);
            && CountFragments(ledger, r, [f], 0) == ledger[r := primary][r := IssuedTo(primary, false, f.size)]
            && CountFragments(ledger, r, [f], 1) == ledger[r := primary][r := LostOne(primary)]
  {
    assert [f][..0] == [] && TotalBytes([f]) == f.size;
    var primary := IssuedTo(ledger[r], true, f.size);
    assert ledger[r := primary][r := IssuedTo(primary, false, f.size)] == ledger[r := IssuedTo(primary, false, f.size)];
    assert ledger[r := primary][r := LostOne(primary)] == ledger[r := LostOne(primary)];
  }

  // ---------------------------------------------------------------------------
  // Which writes come to an end, and which replicas are lost
  // ---------------------------------------------------------------------------

  /** Whether the replica of a chunk that is not placed yet would be lost. */
  predicate NewReplicaLost(up: seq<int>, reachable: set<int>, chunkNum: nat) {
    var node := PutReplica(up, chunkNum);
    node !in reachable && PutReplica(Without(up, node), chunkNum) !in reachable
  }

  /** When a replica node that cannot be reached is taken to be down, that does not change. */
  lemma LostAllTheSame(up: seq<int>, reachable: set<int>, chunkNum: nat, node: int)
    requires node == FIRST_REPLICA || node == SECOND_REPLICA
    requires node !in reachable
    ensures NewReplicaLost(Without(up, node), reachable, chunkNum) <==> NewReplicaLost(up, reachable, chunkNum)
  {
    hide Without;
  }

  lemma SameReplicaFate(s: IoState, f: Fragment, c: WriteContext, x: FileChunk)
    requires InBuffer(f, c.buf) && Separated(s)
    ensures ReplicaLost(IssueWrite(s, f, c), x) <==> ReplicaLost(s, x)
  {
    var chunk := ChunkOfFragment(c.fileId, f);
    var node, s' := ReplicaFor(s, chunk), IssueWrite(s, f, c);
    if node !in s.reachable {
      if x == chunk {
        WithoutAbsent(Without(s.up, node), node);
      } else if x !in s.replicas {
        LostAllTheSame(s.up, s.reachable, x.chunkNum, node);
      }
    }
    hide Without;
  }

  /** Issuing one fragment neither changes where another goes in the end, nor whether its replica is lost. */
  lemma SameFate(s: IoState, f: Fragment, c: WriteContext, x: FileChunk)
    requires InBuffer(f, c.buf) && Separated(s)
    ensures Separated(IssueWrite(s, f, c)) && IssueWrite(s, f, c).reachable == s.reachable
    ensures PrimaryFor(IssueWrite(s, f, c), x) == PrimaryFor(s, x)
    ensures ReplicaLost(IssueWrite(s, f, c), x) <==> ReplicaLost(s, x)
  {
    SameReplicaFate(s, f, c, x);
    hide Without, ReplicaLost;
  }

  /** Whether a replica is lost can be told before the write: none is if and only if for each fragment
      the replica node or its substitute can be reached. */
  lemma {:induction false} NoneLost(s: IoState, fs: seq<Fragment>, c: WriteContext)
    requires AllInBuffer(fs, c.buf) && Separated(s)
    ensures Separated(IssueWrites(s, fs, c)) && IssueWrites(s, fs, c).reachable == s.reachable
    ensures forall x :: PrimaryFor(IssueWrites(s, fs, c), x) == PrimaryFor(s, x)
    ensures forall x :: ReplicaLost(IssueWrites(s, fs, c), x) <==> ReplicaLost(s, x)
    ensures LostCopies(s, fs, c) == 0 <==> forall f :: f in fs ==> !ReplicaLost(s, ChunkOfFragment(c.fileId, f))
  {
    hide IssueWrite, ReplicaLost, PrimaryFor, Separated;
    if fs != [] {
      var n := |fs| - 1;
      NoneLost(s, fs[..n], c);
      assert fs == fs[..n] + [fs[n]];
      forall x ensures PrimaryFor(IssueWrites(s, fs, c), x) == PrimaryFor(s, x)
        ensures ReplicaLost(IssueWrites(s, fs, c), x) <==> ReplicaLost(s, x) {
        SameFate(IssueWrites(s, fs[..n], c), fs[n], c, x);
      }
      SameFate(IssueWrites(s, fs[..n], c), fs[n], c, ChunkOfFragment(c.fileId, fs[n]));
    }
  }

  /** How far a write has come that began in `io` and with the ledger `l`: the fragments `done` are issued. */
  ghost predicate WriteProgress(io: IoState, now: IoState, l: map<WriteRequest, Entry>, l': map<WriteRequest, Entry>,
                                done: seq<Fragment>, c: WriteContext) {
    && AllInBuffer(done, c.buf) && now == IssueWrites(io, done, c)
    && c.request in l && !l[c.request].finished
    && l' == CountFragments(l, c.request, done, LostCopies(io, done, c))
  }

  lemma WriteProgressStart(io: IoState, l: map<WriteRequest, Entry>, c: WriteContext)
    requires c.request in l && !l[c.request].finished
    ensures WriteProgress(io, io, l, l, [], c)
  {
    assert l == l[c.request := l[c.request]];
  }

  lemma WriteProgressStep(io: IoState, now: IoState, l: map<WriteRequest, Entry>, l': map<WriteRequest, Entry>,
                          done: seq<Fragment>, f: Fragment, c: WriteContext)
    requires WriteProgress(io, now, l, l', done, c) && InBuffer(f, c.buf) && Separated(io)
    ensures Separated(now) && forall x :: PrimaryFor(now, x) == PrimaryFor(io, x)
    ensures now.reachable == io.reachable
    ensures c.request in l' && !l'[c.request].finished
    ensures WriteProgress(io, IssueWrite(now, f, c), l,
                          CountFragments(l', c.request, [f],
                                         if ReplicaLost(now, ChunkOfFragment(c.fileId, f)) then 1 else 0),
                          done + [f], c)
  {
    hide IssueWrite, ReplicaLost, PrimaryFor, Separated;
    NoneLost(io, done, c);
    IssueWritesSnoc(io, done, f, c);
    LostCopiesSnoc(io, done, f, c);
    CountFragmentsSnoc(l, c.request, done, LostCopies(io, done, c), f,
                       if ReplicaLost(now, ChunkOfFragment(c.fileId, f)) then 1 else 0);
  }

  lemma WriteProgressEnd(io: IoState, now: IoState, l: map<WriteRequest, Entry>, l': map<WriteRequest, Entry>,
                         done: seq<Fragment>, c: WriteContext)
    requires WriteProgress(io, now, l, l', done, c) && Separated(io)
    ensures AllInBuffer(done, c.buf) && now == IssueWrites(io, done, c) && c.request in l
    ensures l' == CountFragments(l, c.request, done, LostCopies(io, done, c))
    ensures now.reachable == io.reachable && forall x :: PrimaryFor(now, x) == PrimaryFor(io, x)
  {
    NoneLost(io, done, c);
  }

  /** Primaries are on the two primary nodes and replicas on the two replica nodes, so that the
      two copies of a chunk are never on the same node. */
  ghost predicate Separated(io: IoState) {
    && (forall c :: c in io.nodes ==> io.nodes[c] == FIRST || io.nodes[c] == SECOND)
    && (forall c :: c in io.replicas ==> io.replicas[c] == FIRST_REPLICA || io.replicas[c] == SECOND_REPLICA)
  }

  // ---------------------------------------------------------------------------
  // What a fragment read may answer
  // ---------------------------------------------------------------------------

  /** The bytes that a node may answer to a read, given what it is known to store. Nothing is said
      of a read from a chunk that the node does not have, or that begins past the end of its chunk. */
  ghost predicate MayAnswer(s: AbstractStore, d: Descriptor, offset: nat, count: nat, bytes: seq<byte>) {
    d in s && offset <= s[d].len ==>
      && |bytes| == (if offset + count <= s[d].len then count else s[d].len - offset)
      && KnownBytes(bytes, s[d], offset)
  }

  /** What a real chunk store answers to a read, a node may answer. */
  lemma StoreMayAnswer(s: AbstractStore, e: Event)
    requires e.op.Read? && 0 <= e.op.count && Explained(s, e)
    ensures MayAnswer(s, e.op.d, e.op.offset, e.op.count, e.bytes)
  {
  }

  /** A node answers a read of a chunk. */
  method NodeAnswers(s: AbstractStore, p: Packet, chunk: FileChunk) returns (response: Response)
    requires p.body.ReadBody? && p.d == DescriptorOf(chunk)
    ensures response.chunk == chunk && MayAnswer(s, p.d, p.body.offset, p.body.count, response.bytes)
  {
    var offset := p.body.offset;
    if p.d !in s || s[p.d].len < offset {
      return Response(chunk, []);
    }
    var n := if offset + p.body.count <= s[p.d].len then p.body.count else s[p.d].len - offset;
    var known := s[p.d].known;
    return Response(chunk, seq(n, i requires 0 <= i < n => if offset + i in known then known[offset + i] else 0));
  }

  /** The packet that asks for a fragment: it goes to the primary when that is up, and to the replica
      otherwise. */
  function ReadPacket(io: IoState, up: seq<int>, requestId: nat, fileId: int, f: Fragment): Packet
    requires var chunk := ChunkOfFragment(fileId, f);
             chunk in io.nodes && (io.nodes[chunk] in up || chunk in io.replicas)
  {
    var chunk := ChunkOfFragment(fileId, f);
    Packet(if io.nodes[chunk] in up then io.nodes[chunk] else io.replicas[chunk],
           requestId, DescriptorOf(chunk), ReadBody(f.offset, f.size))
  }

  /** The copy of the chunk that `table` leads to may answer these bytes. */
  ghost predicate CopyServes(table: map<FileChunk, int>, sent: seq<Packet>, chunk: FileChunk, f: Fragment,
                             bytes: seq<byte>) {
    chunk in table && MayAnswer(NodeState(sent, table[chunk]), DescriptorOf(chunk), f.offset, f.size, bytes)
  }

  /** The primary of the chunk is asked, because it is up and can be reached. Otherwise the replica is. */
  predicate FromPrimary(io: IoState, c: FileChunk) {
    c in io.nodes && io.nodes[c] in io.up && io.nodes[c] in io.reachable
  }

  /** `piece` is an answer to the fragment from the copy of its chunk that is asked. */
  ghost predicate Serves(io: IoState, fileId: int, f: Fragment, piece: Response) {
    var chunk := ChunkOfFragment(fileId, f);
    && piece.chunk == chunk
    && CopyServes(if FromPrimary(io, chunk) then io.nodes else io.replicas, io.sent, chunk, f, piece.bytes)
  }

  /** All pieces are for chunks before `c`. */
  ghost predicate AllBefore(pieces: seq<Response>, c: FileChunk) {
    forall i :: 0 <= i < |pieces| ==> ChunkLess(pieces[i].chunk, c)
  }

  /** The pieces answer the first fragments, one for one. */
  ghost predicate ServesAll(io: IoState, fileId: int, fs: seq<Fragment>, pieces: seq<Response>) {
    |pieces| <= |fs| && forall i :: 0 <= i < |pieces| ==> Serves(io, fileId, fs[i], pieces[i])
  }

  /** Reads do not change what nodes store. */
  ghost predicate OnlyReadsSince(sent: seq<Packet>, sent': seq<Packet>) {
    sent <= sent' && forall i :: |sent| <= i < |sent'| ==> sent'[i].body.ReadBody?
  }

  /** Nothing but reads: at most nodes that cannot be reached have been found out to be down. */
  ghost predicate OnlyReads(io: IoState, io': IoState) {
    && io' == io.(up := io'.up, sent := io'.sent)
    && OnlyReadsSince(io.sent, io'.sent) && OnlyLostDown(io.up, io'.up, io.reachable)
  }

  lemma NothingRead(io: IoState)
    ensures OnlyReads(io, io)
  {
  }

  lemma OnlyReadsTrans(a: IoState, b: IoState, c: IoState)
    requires OnlyReads(a, b) && OnlyReads(b, c)
    ensures OnlyReads(a, c)
  {
  }

  lemma {:induction false} ReadsKeepNodes(sent: seq<Packet>, sent': seq<Packet>, node: int)
    requires OnlyReadsSince(sent, sent')
    ensures NodeState(sent', node) == NodeState(sent, node)
    decreases |sent'|
  {
    if |sent'| == |sent| {
      assert sent' == sent;
    } else {
      ReadsKeepNodes(sent, sent'[..|sent'| - 1], node);
    }
  }

  lemma FromPrimaryStill(io: IoState, io': IoState, c: FileChunk)
    requires OnlyReads(io, io')
    ensures FromPrimary(io', c) <==> FromPrimary(io, c)
  {
    hide OnlyReadsSince;
    if c in io.nodes {
      var node := io.nodes[c];
      assert node in io'.up ==> node in io.up;
      assert node in io.up && node in io.reachable ==> node in io'.up;
    }
  }

  /** Earlier reads make no difference to what an answer may be. */
  lemma ServesBeforeReads(io: IoState, io': IoState, fileId: int, f: Fragment, piece: Response)
    requires OnlyReads(io, io') && Serves(io', fileId, f, piece)
    ensures Serves(io, fileId, f, piece)
  {
    var chunk := ChunkOfFragment(fileId, f);
    FromPrimaryStill(io, io', chunk);
    ReadsKeepNodes(io.sent, io'.sent, (if FromPrimary(io, chunk) then io.nodes else io.replicas)[chunk]);
  }

  /** The fragments that a read of a stripe asks for: those before the first one whose chunk does
      not exist. */
  function Present(nodes: map<FileChunk, int>, fileId: int, fs: seq<Fragment>): seq<Fragment> {
    if fs == [] || ChunkOfFragment(fileId, fs[0]) !in nodes then [] else [fs[0]] + Present(nodes, fileId, fs[1..])
  }

  ghost predicate AllPresent(nodes: map<FileChunk, int>, fileId: int, fs: seq<Fragment>) {
    forall i :: 0 <= i < |fs| ==> ChunkOfFragment(fileId, fs[i]) in nodes
  }

  lemma {:induction false} PresentIs(nodes: map<FileChunk, int>, fileId: int, done: seq<Fragment>, rest: seq<Fragment>)
    requires AllPresent(nodes, fileId, done)
    requires rest != [] ==> ChunkOfFragment(fileId, rest[0]) !in nodes
    ensures Present(nodes, fileId, done + rest) == done
  {
    if done != [] {
      assert (done + rest)[1..] == done[1..] + rest;
      PresentIs(nodes, fileId, done[1..], rest);
    } else {
      assert done + rest == rest;
    }
  }

  /** A stripe read asks for all fragments up to the first one whose chunk does not exist. */
  lemma {:induction false} PresentIsPrefix(nodes: map<FileChunk, int>, fileId: int, fs: seq<Fragment>)
    ensures var asked := Present(nodes, fileId, fs);
            && asked <= fs
            && (forall i :: 0 <= i < |asked| ==> FileChunk(fileId, fs[i].stripeId, fs[i].chunkId) in nodes)
            && (|asked| < |fs| ==> FileChunk(fileId, fs[|asked|].stripeId, fs[|asked|].chunkId) !in nodes)
  {
    if fs != [] && ChunkOfFragment(fileId, fs[0]) in nodes {
      PresentIsPrefix(nodes, fileId, fs[1..]);
    }
  }

  lemma {:induction false} PresentHas(nodes: map<FileChunk, int>, fileId: int, done: seq<Fragment>, f: Fragment,
                                      fs: seq<Fragment>)
    requires AllPresent(nodes, fileId, done) && ChunkOfFragment(fileId, f) in nodes && done + [f] <= fs
    ensures f in Present(nodes, fileId, fs)
  {
    assert (done + [f])[|done|] == f;
    if done != [] {
      assert fs[0] == (done + [f])[0] == done[0];
      PresentHas(nodes, fileId, done[1..], f, fs[1..]);
    }
  }

  /** How far a stripe read has come: the fragments `done` are asked for and `pieces` are what the
      nodes answer to them. */
  ghost predicate ReadProgress(io: IoState, now: IoState, l: map<nat, ReadEntry>, l': map<nat, ReadEntry>,
                               requestId: nat, fileId: int, stripeId: nat, chunkId: nat,
                               done: seq<Fragment>, pieces: seq<Response>) {
    && |pieces| == |done| && AllPresent(io.nodes, fileId, done)
    && OnlyReads(io, now)
    && ServesAll(io, fileId, done, pieces)
    && PiecesIssued(l, l', requestId, pieces)
    && requestId in l' && !l'[requestId].finished
    && forall next :: chunkId <= next ==> AllBefore(l'[requestId].issued, FileChunk(fileId, stripeId, next))
  }

  lemma ReadProgressStep(io: IoState, io': IoState, now: IoState, l: map<nat, ReadEntry>, l': map<nat, ReadEntry>,
                         l'': map<nat, ReadEntry>, requestId: nat, fileId: int, stripeId: nat, chunkId: nat,
                         done: seq<Fragment>, pieces: seq<Response>, f: Fragment, piece: Response)
    requires ReadProgress(io, io', l, l', requestId, fileId, stripeId, chunkId, done, pieces)
    requires OnlyReads(io', now)
    requires ChunkOfFragment(fileId, f) == FileChunk(fileId, stripeId, chunkId)
             && ChunkOfFragment(fileId, f) in io.nodes
    requires Serves(io', fileId, f, piece)
    requires PiecesIssued(l', l'', requestId, [piece])
    ensures ReadProgress(io, now, l, l'', requestId, fileId, stripeId, chunkId + 1, done + [f], pieces + [piece])
  {
    ServesBeforeReads(io, io', fileId, f, piece);
    OnlyReadsTrans(io, io', now);
    PiecesIssuedTrans(l, l', l'', requestId, pieces, [piece]);
    forall next | chunkId + 1 <= next ensures AllBefore(l''[requestId].issued, FileChunk(fileId, stripeId, next)) {
      assert AllBefore(l'[requestId].issued, FileChunk(fileId, stripeId, next));
    }
  }

  lemma ReadProgressNow(io: IoState, now: IoState, l: map<nat, ReadEntry>, l': map<nat, ReadEntry>,
                        requestId: nat, fileId: int, stripeId: nat, chunkId: nat,
                        done: seq<Fragment>, pieces: seq<Response>)
    requires ReadProgress(io, now, l, l', requestId, fileId, stripeId, chunkId, done, pieces)
    ensures requestId in l' && !l'[requestId].finished && AllPresent(io.nodes, fileId, done)
    ensures AllBefore(l'[requestId].issued, FileChunk(fileId, stripeId, chunkId))
  {
  }

  lemma ReadProgressStart(io: IoState, l: map<nat, ReadEntry>, requestId: nat, fileId: int, stripeId: nat, chunkId: nat)
    requires requestId in l && !l[requestId].finished
    requires forall next :: AllBefore(l[requestId].issued, FileChunk(fileId, stripeId, next))
    ensures ReadProgress(io, io, l, l, requestId, fileId, stripeId, chunkId, [], [])
  {
  }

  lemma ReadProgressEnd(io: IoState, now: IoState, l: map<nat, ReadEntry>, l': map<nat, ReadEntry>,
                        requestId: nat, fileId: int, stripeId: nat, chunkId: nat,
                        done: seq<Fragment>, pieces: seq<Response>, rest: seq<Fragment>)
    requires ReadProgress(io, now, l, l', requestId, fileId, stripeId, chunkId, done, pieces)
    requires rest != [] ==> ChunkOfFragment(fileId, rest[0]) !in io.nodes
    ensures OnlyReads(io, now)
    ensures Present(io.nodes, fileId, done + rest) == done
    ensures ServesAll(io, fileId, done, pieces) && |pieces| == |done|
    ensures PiecesIssued(l, l', requestId, pieces)
  {
    PresentIs(io.nodes, fileId, done, rest);
  }

  // ---------------------------------------------------------------------------
  // What deleting the chunks of a file does
  // ---------------------------------------------------------------------------

  /** The chunks of a file, in the order in which the table is walked. */
  ghost predicate ChunksOfFile(chunks: seq<FileChunk>, table: map<FileChunk, int>, fileId: int) {
    && (forall c :: c in chunks <==> c in table && c.fileId == fileId)
    && (forall i, j :: 0 <= i < j < |chunks| ==> ChunkLess(chunks[i], chunks[j]))
  }

  /** The packet that deletes one copy of a chunk, if that copy is on a node that is up. */
  function CopyDelete(table: map<FileChunk, int>, c: FileChunk, up: seq<int>, id: nat): seq<Packet> {
    if c in table && table[c] in up then [Packet(table[c], id, DescriptorOf(c), DeleteBody)] else []
  }

  function DeletePackets(io: IoState, chunks: seq<FileChunk>, id: nat): seq<Packet> {
    if chunks == [] then []
    else
      var c := chunks[|chunks| - 1];
      DeletePackets(io, chunks[..|chunks| - 1], id) + CopyDelete(io.nodes, c, io.up, id)
        + CopyDelete(io.replicas, c, io.up, id)
  }

  /** The copy of `c` in `table` is one of those that are deleted. */
  predicate IsErased(table: map<FileChunk, int>, chunks: seq<FileChunk>, up: seq<int>, c: FileChunk) {
    c in table && table[c] in up && c in chunks
  }

  function Erased(table: map<FileChunk, int>, chunks: seq<FileChunk>, up: seq<int>): map<FileChunk, int> {
    map c | c in table && !IsErased(table, chunks, up, c) :: table[c]
  }

  /** The packets that get through: those to nodes that can be reached. */
  function Reaching(packets: seq<Packet>, reachable: set<int>): seq<Packet> {
    if packets == [] then []
    else
      var p := packets[|packets| - 1];
      Reaching(packets[..|packets| - 1], reachable) + if p.node in reachable then [p] else []
  }

  lemma {:induction false} ReachingConcat(a: seq<Packet>, b: seq<Packet>, reachable: set<int>)
    ensures Reaching(a + b, reachable) == Reaching(a, reachable) + Reaching(b, reachable)
  {
    if b == [] {
      assert a + b == a;
    } else {
      var n := |b| - 1;
      ReachingConcat(a, b[..n], reachable);
      assert (a + b)[..|a| + n] == a + b[..n];
    }
  }

  lemma {:induction false} ReachingAre(packets: seq<Packet>, reachable: set<int>)
    ensures |Reaching(packets, reachable)| <= |packets|
    ensures forall p :: p in Reaching(packets, reachable) <==> p in packets && p.node in reachable
  {
    if packets != [] {
      var n := |packets| - 1;
      ReachingAre(packets[..n], reachable);
      assert packets == packets[..n] + [packets[n]];
    }
  }

  /** Deletes the copies of these chunks that are on nodes that are up. A node that is taken to be up
      and cannot be reached hears nothing of it, and yet the copy is taken out of the tables. */
  function DeleteChunks(io: IoState, chunks: seq<FileChunk>, id: nat): IoState {
    io.(nodes := Erased(io.nodes, chunks, io.up), replicas := Erased(io.replicas, chunks, io.up),
        sent := io.sent + Reaching(DeletePackets(io, chunks, id), io.reachable))
  }

  /** Of the chunks of the file in the table of primaries, the copies on nodes that are up have left the tables,
      and nothing else has changed there. */
  ghost predicate UpCopiesGone(io: IoState, io': IoState, fileId: int) {
    && (forall c :: c in io'.nodes <==> c in io.nodes && (c.fileId == fileId ==> io.nodes[c] !in io.up))
    && (forall c :: c in io'.replicas <==>
          c in io.replicas && (c.fileId == fileId && c in io.nodes ==> io.replicas[c] !in io.up))
    && (forall c :: c in io'.nodes ==> io'.nodes[c] == io.nodes[c])
    && (forall c :: c in io'.replicas ==> io'.replicas[c] == io.replicas[c])
  }

  /** What a delete takes out of the tables. */
  lemma DeletedTables(io: IoState, chunks: seq<FileChunk>, id: nat, fileId: int)
    requires ChunksOfFile(chunks, io.nodes, fileId)
    ensures UpCopiesGone(io, DeleteChunks(io, chunks, id), fileId)
  {
    hide DeletePackets, Reaching, ChunkLess;
  }

  lemma ErasedSnoc(table: map<FileChunk, int>, chunks: seq<FileChunk>, up: seq<int>, c: FileChunk)
    ensures Erased(table, chunks + [c], up)
            == if c in table && table[c] in up then Erased(table, chunks, up) - {c} else Erased(table, chunks, up)
    ensures c in Erased(table, chunks, up) ==> c in table && Erased(table, chunks, up)[c] == table[c]
    ensures c in table && c !in chunks ==> c in Erased(table, chunks, up)
  {
  }

  lemma DeletePacketsSnoc(io: IoState, chunks: seq<FileChunk>, id: nat, c: FileChunk)
    ensures DeletePackets(io, chunks + [c], id)
            == DeletePackets(io, chunks, id) + CopyDelete(io.nodes, c, io.up, id)
               + CopyDelete(io.replicas, c, io.up, id)
  {
  }

  lemma DeleteNoChunks(io: IoState, id: nat)
    ensures DeleteChunks(io, [], id) == io && DeletePackets(io, [], id) == []
  {
  }

  /** One turn of the loop, for one of the tables. */
  lemma ErasedStep(table: map<FileChunk, int>, all: seq<FileChunk>, i: nat, up: seq<int>, id: nat)
    requires i < |all| && forall x, y :: 0 <= x < y < |all| ==> ChunkLess(all[x], all[y])
    ensures var t := Erased(table, all[..i], up);
            && CopyDelete(t, all[i], up, id) == CopyDelete(table, all[i], up, id)
            && Erased(table, all[..i + 1], up) == if CopyDelete(t, all[i], up, id) == [] then t else t - {all[i]}
  {
    var c := all[i];
    assert all[..i + 1] == all[..i] + [c];
    assert c !in all[..i] by {
      forall x | 0 <= x < i ensures all[x] != c {
        ChunkLessTotal(all[x], c);
      }
    }
    hide ChunkLess;
    ErasedSnoc(table, all[..i], up, c);
    hide Erased;
  }

  /** One turn of the loop over the chunks of a file. */
  lemma DeleteChunkStep(io: IoState, all: seq<FileChunk>, i: nat, id: nat)
    requires i < |all| && forall x, y :: 0 <= x < y < |all| ==> ChunkLess(all[x], all[y])
    ensures var io', c := DeleteChunks(io, all[..i], id), all[i];
            var a, b := CopyDelete(io'.nodes, c, io.up, id), CopyDelete(io'.replicas, c, io.up, id);
            && DeletePackets(io, all[..i + 1], id) == DeletePackets(io, all[..i], id) + (a + b)
            && DeleteChunks(io, all[..i + 1], id)
               == io'.(nodes := if a == [] then io'.nodes else io'.nodes - {c},
                       replicas := if b == [] then io'.replicas else io'.replicas - {c},
                       sent := io'.sent + Reaching(a + b, io.reachable))
  {
    hide ChunkLess, Erased, CopyDelete, Reaching, DeletePackets;
    var c := all[i];
    assert all[..i + 1] == all[..i] + [c];
    ErasedStep(io.nodes, all, i, io.up, id);
    ErasedStep(io.replicas, all, i, io.up, id);
    DeletePacketsSnoc(io, all[..i], id, c);
    var before, a, b := DeletePackets(io, all[..i], id), CopyDelete(io.nodes, c, io.up, id),
      CopyDelete(io.replicas, c, io.up, id);
    assert before + a + b == before + (a + b);
    ReachingConcat(before, a + b, io.reachable);
  }

  /** The ledger after deletes for these packets were issued, of which those to nodes out of reach are lost. */
  function CountDeletes(ledger: map<nat, DeleteEntry>, id: nat, packets: seq<Packet>, reachable: set<int>)
      : map<nat, DeleteEntry>
    requires id in ledger
  {
    ReachingAre(packets, reachable);
    var e := ledger[id];
    ledger[id := e.(issued := e.issued + |packets|, lost := e.lost + |packets| - |Reaching(packets, reachable)|)]
  }

  lemma CountDeletesConcat(ledger: map<nat, DeleteEntry>, id: nat, a: seq<Packet>, b: seq<Packet>, reachable: set<int>)
    requires id in ledger
    ensures CountDeletes(ledger, id, a + b, reachable)
            == CountDeletes(CountDeletes(ledger, id, a, reachable), id, b, reachable)
  {
    ReachingConcat(a, b, reachable);
    var mid := CountDeletes(ledger, id, a, reachable);
    assert CountDeletes(ledger, id, a + b, reachable) == mid[id := CountDeletes(ledger, id, a + b, reachable)[id]];
  }

  lemma CountOneDelete(ledger: map<nat, DeleteEntry>, id: nat, p: Packet, reachable: set<int>)
    requires id in ledger
    ensures CountDeletes(ledger, id, [p], reachable) == ledger[id := CountDelete(ledger[id], p.node in reachable)]
    ensures Reaching([p], reachable) == if p.node in reachable then [p] else []
  {
    assert [p][..0] == [];
    assert Reaching([p], reachable) == if p.node in reachable then [p] else [];
  }

  lemma StillCounting(ledger: map<nat, DeleteEntry>, id: nat, packets: seq<Packet>, reachable: set<int>)
    requires id in ledger && !ledger[id].finished
    ensures id in CountDeletes(ledger, id, packets, reachable)
            && !CountDeletes(ledger, id, packets, reachable)[id].finished
  {
  }

  lemma CountNoDeletes(ledger: map<nat, DeleteEntry>, id: nat, reachable: set<int>)
    requires id in ledger
    ensures CountDeletes(ledger, id, [], reachable) == ledger && Reaching([], reachable) == []
  {
    assert CountDeletes(ledger, id, [], reachable) == ledger[id := ledger[id]];
  }

  class IoManagerTable {
    const net: Network
    const volatile: VolatileMetadataTable
    const writeTable: WriteRequestTable
    const readTable: ReadRequestTable
    const deleteTable: DeleteRequestTable
    var chunkToNode: map<FileChunk, int>
    var chunkToReplicaNode: map<FileChunk, int>

    // the chunks of which the replica missed a write
    ghost var stale: set<FileChunk>

    /** Primaries and replicas are on different nodes. */
    ghost predicate Placed()
      reads this
    {
      && (forall c :: c in chunkToNode ==> chunkToNode[c] == FIRST || chunkToNode[c] == SECOND)
      && (forall c :: c in chunkToReplicaNode ==>
            chunkToReplicaNode[c] == FIRST_REPLICA || chunkToReplicaNode[c] == SECOND_REPLICA)
    }

    ghost predicate Valid()
      reads this, net, volatile, writeTable, readTable
    {
      && Placed() && volatile.Valid() && writeTable.Valid() && readTable.Valid()
      && Acknowledged(net.sent, writeTable.StateNow())
    }

    ghost function Io(): IoState
      reads this, net, volatile`upNodes
    {
      IoState(chunkToNode, chunkToReplicaNode, stale, volatile.upNodes, net.sent, net.reachable)
    }

    constructor (net: Network, volatile: VolatileMetadataTable, writeTable: WriteRequestTable,
                 readTable: ReadRequestTable, deleteTable: DeleteRequestTable)
      requires volatile.Valid() && writeTable.Valid() && readTable.Valid()
      requires Acknowledged(net.sent, writeTable.StateNow())
      ensures Valid() && chunkToNode == map[] && chunkToReplicaNode == map[] && stale == {}
      ensures this.net == net && this.volatile == volatile && this.writeTable == writeTable
              && this.readTable == readTable
      ensures this.deleteTable == deleteTable
    {
      this.net, this.volatile, this.writeTable, this.readTable := net, volatile, writeTable, readTable;
      this.deleteTable := deleteTable;
      chunkToNode, chunkToReplicaNode, stale := map[], map[], {};
    }

    /** Chooses nodes for a chunk and its replica, unless they were chosen before. */
    method PlaceChunk(chunk: FileChunk)
      requires Placed()
      modifies this`chunkToNode, this`chunkToReplicaNode
      ensures Placed() && chunk in chunkToNode && chunk in chunkToReplicaNode
      ensures chunkToNode == old(chunkToNode)[chunk := PrimaryFor(old(Io()), chunk)]
      ensures chunkToReplicaNode == old(chunkToReplicaNode)[chunk := ReplicaFor(old(Io()), chunk)]
    {
      if chunk !in chunkToNode {
        chunkToNode := chunkToNode[chunk := PutChunk(volatile.upNodes, chunk.chunkNum)];
      }
      if chunk !in chunkToReplicaNode {
        chunkToReplicaNode := chunkToReplicaNode[chunk := PutReplica(volatile.upNodes, chunk.chunkNum)];
      }
    }

    /** The primary of the chunk, or the node that it would be placed on, can be reached. */
    predicate CanWrite(c: FileChunk)
      reads this`chunkToNode, volatile`upNodes, net`reachable
    {
      (if c in chunkToNode then chunkToNode[c] else PutChunk(volatile.upNodes, c.chunkNum)) in net.reachable
    }

    /** A write of these fragments can reach all primaries. */
    predicate Writable(fileId: int, fs: seq<Fragment>)
      reads this`chunkToNode, volatile`upNodes, net`reachable
    {
      forall f :: f in fs ==> CanWrite(ChunkOfFragment(fileId, f))
    }

    /** Sends a write packet. When it gets through, the node will acknowledge it, under the id that it carries and
        with the number of its bytes. Acknowledgements of this and of other packets may arrive at once. */
    method SendCopy(p: Packet) returns (r: int)
      requires Valid() && p.body.WriteBody? && RightId(p, writeTable.owner)
      requires writeTable.owner[p.id] in writeTable.ledger && !writeTable.ledger[writeTable.owner[p.id]].finished
      modifies net`sent
      modifies writeTable`inFlight, writeTable`arrived, writeTable`ledger, writeTable`lookups, writeTable`active,
               writeTable`results, writeTable`answers
      ensures Valid() && r == if p.node in net.reachable then NODE_SUCCESS else NODE_FAILURE
      ensures net.sent == if p.node in net.reachable then old(net.sent) + [p] else old(net.sent)
      ensures var request, n := writeTable.owner[p.id], |p.body.bytes|;
              writeTable.ledger
              == if p.node !in net.reachable then old(writeTable.ledger)
                 else old(writeTable.ledger)[request :=
                        IssuedTo(old(writeTable.ledger)[request], p.id == request.requestId, n)]
    {
      hide Acknowledged, ByArrivals, Inv, ReadInv, Placed;
      r := net.Send(p);
      if r == NODE_SUCCESS {
        ghost var s, sent := writeTable.StateNow(), old(net.sent);
        writeTable.CopySent(p.id, |p.body.bytes|);
        SentAcknowledged(sent, p, s);
        ArrivalsKeepCounts(Next(s, Issue(p.id, |p.body.bytes|)), writeTable.StateNow());
        StillAcknowledged(net.sent, Next(s, Issue(p.id, |p.body.bytes|)), writeTable.StateNow());
      }
    }

    /** Sends the replica of a write to a chunk. */
    method WriteReplica(request: WriteRequest, chunk: FileChunk, replicaNode: int, body: Body)
      requires Valid() && (replicaNode == FIRST_REPLICA || replicaNode == SECOND_REPLICA) && body.WriteBody?
      requires request in writeTable.ledger && !writeTable.ledger[request].finished
      modifies this`stale, net`sent, volatile`upNodes
      modifies writeTable`inFlight, writeTable`arrived, writeTable`ledger, writeTable`lookups, writeTable`active,
               writeTable`results, writeTable`answers
      ensures Valid()
      ensures Io() == ReplicaSent(old(Io()), chunk,
                                  Packet(replicaNode, request.replicaRequestId, DescriptorOf(chunk), body))
      ensures writeTable.ledger
              == old(writeTable.ledger)[request :=
                   if replicaNode in net.reachable
                      || PutReplica(Without(old(volatile.upNodes), replicaNode), chunk.chunkNum) in net.reachable
                   then IssuedTo(old(writeTable.ledger)[request], false, |body.bytes|)
                   else LostOne(old(writeTable.ledger)[request])]
    {
      hide PutReplica, Without, Acknowledged;
      hide WriteRequestTable.Valid, ReadRequestTable.Valid, VolatileMetadataTable.Valid;
      IdsNow(request);
      var r := SendCopy(Packet(replicaNode, request.replicaRequestId, DescriptorOf(chunk), body));
      if r == NODE_FAILURE {
        var down := volatile.SetNodeDown(replicaNode);
        var other := PutReplica(volatile.upNodes, chunk.chunkNum);
        r := SendCopy(Packet(other, request.replicaRequestId, DescriptorOf(chunk), body));
        stale := stale + {chunk};
      }
      if r == NODE_FAILURE {
        ghost var s := writeTable.StateNow();
        writeTable.CopyLost(request);
        StillAcknowledged(net.sent, s, writeTable.StateNow());
      }
    }

    lemma IdsNow(request: WriteRequest)
      requires Valid() && request in writeTable.ledger
      ensures request.requestId != request.replicaRequestId
      ensures request.requestId in writeTable.owner && writeTable.owner[request.requestId] == request
      ensures request.replicaRequestId in writeTable.owner && writeTable.owner[request.replicaRequestId] == request
    {
      hide Acknowledged, ReadInv, Placed;
      IdsOfRequest(writeTable.StateNow(), request);
    }

    lemma CanWriteNow()
      ensures forall c :: CanWrite(c) <==> PrimaryFor(Io(), c) in Io().reachable
    {
    }

    /** Writes one fragment to the primary and to the replica node of its chunk, placing the chunk
        first if it is new. Acknowledgements may arrive at any moment while this goes on. */
    method WriteFragment(request: WriteRequest, fileId: int, f: Fragment, buf: seq<byte>)
      requires Valid() && InBuffer(f, buf) && CanWrite(ChunkOfFragment(fileId, f))
      requires request in writeTable.ledger && !writeTable.ledger[request].finished
      modifies this`chunkToNode, this`chunkToReplicaNode, this`stale, net`sent, volatile`upNodes
      modifies writeTable`inFlight, writeTable`arrived, writeTable`ledger, writeTable`lookups, writeTable`active,
               writeTable`results, writeTable`answers
      ensures Valid()
      ensures Io() == IssueWrite(old(Io()), f, WriteContext(fileId, request, buf))
      ensures writeTable.ledger == CountFragments(old(writeTable.ledger), request, [f],
                                                  if ReplicaLost(old(Io()), ChunkOfFragment(fileId, f)) then 1 else 0)
    {
      hide PutChunk, PutReplica, Without, ReplicaSent, CountFragments, Acknowledged;
      hide WriteRequestTable.Valid, ReadRequestTable.Valid, VolatileMetadataTable.Valid;
      var chunk := FileChunk(fileId, f.stripeId, f.chunkId);
      CountOneFragment(writeTable.ledger, request, f);
      PlaceChunk(chunk);
      var node, replicaNode := chunkToNode[chunk], chunkToReplicaNode[chunk];
      var body := WriteBody(f.offset, buf[f.start..f.start + f.size]);
      IdsNow(request);
      var r := SendCopy(Packet(node, request.requestId, DescriptorOf(chunk), body));
      WriteReplica(request, chunk, replicaNode, body);
    }

    /** The same, as the next step of a stripe write that began in `io` and with the ledger `l`. */
    method WriteNextFragment(request: WriteRequest, fileId: int, f: Fragment, buf: seq<byte>, ghost io: IoState,
                             ghost l: map<WriteRequest, Entry>, ghost done: seq<Fragment>)
      requires Valid() && InBuffer(f, buf) && Separated(io)
      requires PrimaryFor(io, ChunkOfFragment(fileId, f)) in io.reachable
      requires WriteProgress(io, Io(), l, writeTable.ledger, done, WriteContext(fileId, request, buf))
      modifies this`chunkToNode, this`chunkToReplicaNode, this`stale, net`sent, volatile`upNodes
      modifies writeTable`inFlight, writeTable`arrived, writeTable`ledger, writeTable`lookups, writeTable`active,
               writeTable`results, writeTable`answers
      ensures Valid()
      ensures WriteProgress(io, Io(), l, writeTable.ledger, done + [f], WriteContext(fileId, request, buf))
    {
      hide Valid, WriteProgress, IssueWrite, CountFragments, ReplicaLost;
      WriteProgressStep(io, Io(), l, writeTable.ledger, done, f, WriteContext(fileId, request, buf));
      assert PrimaryFor(Io(), ChunkOfFragment(fileId, f)) == PrimaryFor(io, ChunkOfFragment(fileId, f));
      WriteFragment(request, fileId, f, buf);
    }

    /** Writes `count` bytes of a stripe, the ones from `start` on in the client's buffer. */
    method ProcessWriteStripe(request: WriteRequest, fileId: int, stripeId: nat, stripeSize: nat, chunkSize: nat,
                              buf: seq<byte>, start: nat, offset: nat, count: nat)
      returns (chunksWritten: nat, replicaChunksWritten: nat)
      requires Valid() && 0 < chunkSize && count - offset <= stripeSize && start + count <= |buf|
      requires Writable(fileId, StripeFragments(stripeId, offset, start, count, chunkSize))
      requires request in writeTable.ledger && !writeTable.ledger[request].finished
      modifies this`chunkToNode, this`chunkToReplicaNode, this`stale, net`sent, volatile`upNodes
      modifies writeTable`inFlight, writeTable`arrived, writeTable`ledger, writeTable`lookups, writeTable`active,
               writeTable`results, writeTable`answers
      ensures Valid() && forall c :: old(CanWrite(c)) ==> CanWrite(c)
      ensures var fs, c := StripeFragments(stripeId, offset, start, count, chunkSize),
                           WriteContext(fileId, request, buf);
              && AllInBuffer(fs, buf)
              && Io() == IssueWrites(old(Io()), fs, c)
              && chunksWritten == replicaChunksWritten == |fs|
              && writeTable.ledger == CountFragments(old(writeTable.ledger), request, fs,
                                                     LostCopies(old(Io()), fs, c))
    {
      hide Inv, ReadInv, Acknowledged, IssueWrites, ChunkFragments, ReplicaLost, PutChunk, CountFragments, LostCopies,
           FirstUnit, AllInBuffer;
      ghost var fs := StripeFragments(stripeId, offset, start, count, chunkSize);
      ghost var c, io, done := WriteContext(fileId, request, buf), Io(), [];
      assert Separated(io);
      WriteProgressStart(io, writeTable.ledger, c);
      CanWriteNow();
      hide Valid, WriteProgress, Separated, CanWrite, PrimaryFor;
      chunksWritten, replicaChunksWritten := 0, 0;
      var bytesWritten := 0;
      var chunkId, chunkOffset := GetFirstChunk(chunkSize, offset);
      while bytesWritten < count
        invariant Valid() && 0 <= bytesWritten <= count && 0 <= chunkOffset <= chunkSize
        invariant fs == done + ChunkFragments(stripeId, chunkId, chunkOffset, start + bytesWritten,
                                              count - bytesWritten, chunkSize)
        invariant WriteProgress(io, Io(), old(writeTable.ledger), writeTable.ledger, done, c)
        invariant chunksWritten == replicaChunksWritten == |done|
        decreases count - bytesWritten, chunkOffset
      {
        var writeSize := if count - bytesWritten > chunkSize - chunkOffset then chunkSize - chunkOffset
                         else count - bytesWritten;
        var f := Fragment(stripeId, chunkId, chunkOffset, start + bytesWritten, writeSize);
        ChunkFragmentsStep(done, f, count - bytesWritten, chunkSize);
        assert fs[|done|] == f && old(CanWrite(ChunkOfFragment(fileId, f)));
        WriteNextFragment(request, fileId, f, buf, io, old(writeTable.ledger), done);
        done := done + [f];
        chunkOffset := 0;
        bytesWritten := bytesWritten + writeSize;
        chunkId := chunkId + 1;
        chunksWritten := chunksWritten + 1;
        replicaChunksWritten := replicaChunksWritten + 1;
      }
      ChunkFragmentsFirst(stripeId, chunkId, chunkOffset, start + bytesWritten, count - bytesWritten, chunkSize);
      assert fs == done;
      WriteProgressEnd(io, Io(), old(writeTable.ledger), writeTable.ledger, done, c);
      CanWriteNow();
    }

    /** A read of the chunk can reach one of its copies. */
    predicate CanRead(c: FileChunk)
      reads this, volatile`upNodes, net`reachable
    {
      c in chunkToNode ==>
        || (c in chunkToReplicaNode && chunkToReplicaNode[c] in net.reachable)
        || (chunkToNode[c] in volatile.upNodes && chunkToNode[c] in net.reachable)
    }

    /** A read of these fragments can reach a copy of each chunk. */
    predicate Readable(fileId: int, fs: seq<Fragment>)
      reads this, volatile`upNodes, net`reachable
    {
      forall f :: f in fs ==> CanRead(ChunkOfFragment(fileId, f))
    }

    /** One attempt to read a fragment, from the primary when that is up and from the replica
        otherwise. It fails only when the primary was believed to be up and cannot be reached. */
    method ReadFragment(requestId: nat, fileId: int, f: Fragment) returns (ok: bool, piece: Response)
      requires Valid() && CanRead(ChunkOfFragment(fileId, f)) && ChunkOfFragment(fileId, f) in chunkToNode
      requires requestId in readTable.ledger && !readTable.ledger[requestId].finished
      requires AllBefore(readTable.ledger[requestId].issued, ChunkOfFragment(fileId, f))
      modifies net`sent, volatile`upNodes
      modifies readTable`inFlight, readTable`ledger, readTable`active, readTable`results, readTable`answers
      ensures Valid() && OnlyReads(old(Io()), Io())
      ensures forall c :: old(CanRead(c)) ==> CanRead(c)
      ensures !ok ==>
                && net.sent == old(net.sent) && readTable.ledger == old(readTable.ledger)
                && chunkToNode[ChunkOfFragment(fileId, f)] in old(volatile.upNodes)
                && chunkToNode[ChunkOfFragment(fileId, f)] !in volatile.upNodes
      ensures ok ==>
                && (chunkToNode[ChunkOfFragment(fileId, f)] in old(volatile.upNodes)
                    || ChunkOfFragment(fileId, f) in chunkToReplicaNode)
                && net.sent == old(net.sent) + [ReadPacket(old(Io()), old(volatile.upNodes), requestId, fileId, f)]
                && Serves(old(Io()), fileId, f, piece)
                && PiecesIssued(old(readTable.ledger), readTable.ledger, requestId, [piece])
    {
      hide Inv, ReadInv, Acknowledged;
      var chunk := FileChunk(fileId, f.stripeId, f.chunkId);
      var node := chunkToNode[chunk];
      if !volatile.IsNodeUp(node) {
        node := chunkToReplicaNode[chunk];
      }
      assert CanRead(chunk);
      var p := Packet(node, requestId, DescriptorOf(chunk), ReadBody(f.offset, f.size));
      piece := NodeAnswers(NodeState(net.sent, p.node), p, chunk);
      var r := net.Send(p);
      ok := r != NODE_FAILURE;
      if ok {
        OthersAcknowledged(old(net.sent), net.sent, writeTable.StateNow());
        readTable.PieceSent(p.id, piece);
      } else {
        var down := volatile.SetNodeDown(node);
      }
    }

    /** The same, as the next step of a stripe read that began with the chunk tables and the log
        as in `io` and with the ledger `l`. */
    method ReadNextFragment(requestId: nat, fileId: int, f: Fragment, ghost io: IoState, ghost l: map<nat, ReadEntry>,
                            ghost done: seq<Fragment>, ghost pieces: seq<Response>)
      returns (ok: bool, piece: Response)
      requires Valid() && CanRead(ChunkOfFragment(fileId, f)) && ChunkOfFragment(fileId, f) in chunkToNode
      requires ReadProgress(io, Io(), l, readTable.ledger, requestId, fileId, f.stripeId, f.chunkId, done, pieces)
      modifies net`sent, volatile`upNodes
      modifies readTable`inFlight, readTable`ledger, readTable`active, readTable`results, readTable`answers
      ensures Valid() && forall c :: old(CanRead(c)) ==> CanRead(c)
      ensures !ok ==>
                && ReadProgress(io, Io(), l, readTable.ledger, requestId, fileId, f.stripeId, f.chunkId, done,
                                pieces)
                && chunkToNode[ChunkOfFragment(fileId, f)] in old(volatile.upNodes)
                && chunkToNode[ChunkOfFragment(fileId, f)] !in volatile.upNodes
      ensures ok ==> ReadProgress(io, Io(), l, readTable.ledger, requestId, fileId, f.stripeId, f.chunkId + 1,
                                  done + [f], pieces + [piece])
    {
      hide Inv, ReadInv, Acknowledged, Serves, ServesAll, AllBefore, OnlyReadsSince, PiecesIssued, CanRead, Placed;
      ghost var io', l' := Io(), readTable.ledger;
      ReadProgressNow(io, Io(), l, l', requestId, fileId, f.stripeId, f.chunkId, done, pieces);
      hide ReadProgress;
      ok, piece := ReadFragment(requestId, fileId, f);
      if ok {
        ReadProgressStep(io, io', Io(), l, l', readTable.ledger,
                         requestId, fileId, f.stripeId, f.chunkId, done, pieces, f, piece);
      }
    }

    /** Asks for `count` bytes of a stripe, the ones from `start` on in the client's buffer, and
        stops at a chunk that does not exist. Returns for how many chunks it asked. */
    method ProcessReadStripe(requestId: nat, fileId: int, stripeId: nat, stripeSize: nat, chunkSize: nat,
                             start: nat, offset: nat, count: nat)
      returns (numChunks: nat, ghost pieces: seq<Response>)
      requires Valid() && 0 < chunkSize && count - offset <= stripeSize
      requires var fs := StripeFragments(stripeId, offset, start, count, chunkSize);
               Readable(fileId, Present(chunkToNode, fileId, fs))
      requires requestId in readTable.ledger && !readTable.ledger[requestId].finished
      requires forall chunkId :: AllBefore(readTable.ledger[requestId].issued, FileChunk(fileId, stripeId, chunkId))
      modifies net`sent, volatile`upNodes
      modifies readTable`inFlight, readTable`ledger, readTable`active, readTable`results, readTable`answers
      ensures Valid() && OnlyReads(old(Io()), Io()) && forall c :: old(CanRead(c)) ==> CanRead(c)
      ensures var asked := Present(chunkToNode, fileId, StripeFragments(stripeId, offset, start, count, chunkSize));
              numChunks == |pieces| == |asked| && ServesAll(old(Io()), fileId, asked, pieces)
      ensures PiecesIssued(old(readTable.ledger), readTable.ledger, requestId, pieces)
    {
      hide Serves, ServesAll, AllBefore, OnlyReads, PiecesIssued, ChunkFragments, CanRead, FirstUnit, Present,
           Valid;
      numChunks, pieces := 0, [];
      var bytesRead := 0;
      var chunkId, chunkOffset := GetFirstChunk(chunkSize, offset);
      ghost var fs := StripeFragments(stripeId, offset, start, count, chunkSize);
      ghost var done: seq<Fragment> := [];
      ReadProgressStart(Io(), readTable.ledger, requestId, fileId, stripeId, chunkId);
      hide ReadProgress;
      while bytesRead < count
        invariant Valid() && chunkToNode == old(chunkToNode) && forall c :: old(CanRead(c)) ==> CanRead(c)
        invariant 0 <= bytesRead <= count && 0 <= chunkOffset <= chunkSize
        invariant fs == done + ChunkFragments(stripeId, chunkId, chunkOffset, start + bytesRead,
                                              count - bytesRead, chunkSize)
        invariant numChunks == |pieces| == |done|
        invariant ReadProgress(old(Io()), Io(), old(readTable.ledger), readTable.ledger, requestId, fileId,
                               stripeId, chunkId, done, pieces)
        decreases count - bytesRead, chunkOffset,
                  if FileChunk(fileId, stripeId, chunkId) in chunkToNode
                     && chunkToNode[FileChunk(fileId, stripeId, chunkId)] in volatile.upNodes then 1 else 0
      {
        var chunk := FileChunk(fileId, stripeId, chunkId);
        if chunk !in chunkToNode {
          break;
        }
        var readSize := if count - bytesRead > chunkSize - chunkOffset then chunkSize - chunkOffset
                        else count - bytesRead;
        var f := Fragment(stripeId, chunkId, chunkOffset, start + bytesRead, readSize);
        ChunkFragmentsStep(done, f, count - bytesRead, chunkSize);
        ReadProgressNow(old(Io()), Io(), old(readTable.ledger), readTable.ledger, requestId, fileId, stripeId, chunkId,
                        done, pieces);
        PresentHas(chunkToNode, fileId, done, f, fs);
        assert old(CanRead(ChunkOfFragment(fileId, f)));
        var ok, piece := ReadNextFragment(requestId, fileId, f, old(Io()), old(readTable.ledger), done, pieces);
        if ok {
          pieces, done := pieces + [piece], done + [f];
          chunkOffset := 0;
          bytesRead := bytesRead + readSize;
          chunkId := chunkId + 1;
          numChunks := numChunks + 1;
        }
      }
      ChunkFragmentsFirst(stripeId, chunkId, chunkOffset, start + bytesRead, count - bytesRead, chunkSize);
      ReadProgressEnd(old(Io()), Io(), old(readTable.ledger), readTable.ledger, requestId, fileId, stripeId,
                      chunkId, done, pieces,
                      ChunkFragments(stripeId, chunkId, chunkOffset, start + bytesRead, count - bytesRead, chunkSize));
    }

    /** Walks the table of primaries and collects the chunks of one file. */
    method GetAllChunks(fileId: int) returns (chunks: seq<FileChunk>)
      ensures ChunksOfFile(chunks, chunkToNode, fileId)
    {
      chunks := [];
      var rest := chunkToNode.Keys;
      while rest != {}
        invariant rest <= chunkToNode.Keys
        invariant forall c :: c in chunks <==> c in chunkToNode && c !in rest && c.fileId == fileId
        invariant forall i, c :: 0 <= i < |chunks| && c in rest ==> ChunkLess(chunks[i], c)
        invariant forall i, j :: 0 <= i < j < |chunks| ==> ChunkLess(chunks[i], chunks[j])
        decreases rest
      {
        var cur := Least(rest);
        hide ChunkLess;
        if cur.fileId == fileId {
          chunks := chunks + [cur];
        }
        rest := rest - {cur};
      }
    }

    /** Deletes one copy of a chunk, if it is on a node that is up, and takes it out of its table. */
    method DeleteCopy(requestId: nat, chunk: FileChunk, table: map<FileChunk, int>)
        returns (table': map<FileChunk, int>, n: nat)
      requires deleteTable.Valid()
      requires requestId in deleteTable.ledger && !deleteTable.ledger[requestId].finished
      modifies net`sent
      modifies deleteTable`inFlight, deleteTable`ledger, deleteTable`active, deleteTable`results, deleteTable`answers
      modifies deleteTable.files`metadata, deleteTable.files`pathnameToFileId, deleteTable.locks
      ensures deleteTable.Valid() && (old(deleteTable.locks.Valid()) ==> deleteTable.locks.Valid())
      ensures deleteTable.lastId == old(deleteTable.lastId)
      ensures OnlyDeletesSince(old(deleteTable.TablesNow()), deleteTable.TablesNow(),
                               old(deleteTable.files.metadata), deleteTable.files.metadata,
                               old(deleteTable.locks.fileLocks), deleteTable.locks.fileLocks)
      ensures var packets := CopyDelete(table, chunk, volatile.upNodes, requestId);
              && table' == (if packets == [] then table else table - {chunk})
              && net.sent == old(net.sent) + Reaching(packets, net.reachable)
              && n == |packets|
              && deleteTable.ledger == CountDeletes(old(deleteTable.ledger), requestId, packets, net.reachable)
    {
      hide DeleteInv, OnlyDeletesSince, CountDeletes, Reaching;
      hide PersistentMetadata.MutuallyInverse, LockingStrategy.AllConsistent;
      NothingSince(deleteTable.TablesNow(), deleteTable.files.metadata, deleteTable.locks.fileLocks);
      CountNoDeletes(deleteTable.ledger, requestId, net.reachable);
      table', n := table, 0;
      if chunk in table {
        var node := table[chunk];
        if volatile.IsNodeUp(node) {
          var p := Packet(node, requestId, DescriptorOf(chunk), DeleteBody);
          CountOneDelete(deleteTable.ledger, requestId, p, net.reachable);
          var sent := net.Send(p);
          deleteTable.CopySent(p.id, sent == NODE_SUCCESS);
          table', n := table - {chunk}, 1;
        }
      }
    }

    /** Deletes both copies of one chunk. */
    method DeleteChunk(requestId: nat, chunk: FileChunk) returns (n: nat)
      requires deleteTable.Valid()
      requires requestId in deleteTable.ledger && !deleteTable.ledger[requestId].finished
      modifies this`chunkToNode, this`chunkToReplicaNode, net`sent
      modifies deleteTable`inFlight, deleteTable`ledger, deleteTable`active, deleteTable`results, deleteTable`answers
      modifies deleteTable.files`metadata, deleteTable.files`pathnameToFileId, deleteTable.locks
      ensures deleteTable.Valid() && (old(deleteTable.locks.Valid()) ==> deleteTable.locks.Valid())
      ensures deleteTable.lastId == old(deleteTable.lastId)
      ensures OnlyDeletesSince(old(deleteTable.TablesNow()), deleteTable.TablesNow(),
                               old(deleteTable.files.metadata), deleteTable.files.metadata,
                               old(deleteTable.locks.fileLocks), deleteTable.locks.fileLocks)
      ensures var a, b := CopyDelete(old(chunkToNode), chunk, volatile.upNodes, requestId),
                          CopyDelete(old(chunkToReplicaNode), chunk, volatile.upNodes, requestId);
              && chunkToNode == (if a == [] then old(chunkToNode) else old(chunkToNode) - {chunk})
              && chunkToReplicaNode == (if b == [] then old(chunkToReplicaNode) else old(chunkToReplicaNode) - {chunk})
              && net.sent == old(net.sent) + Reaching(a + b, net.reachable)
              && n == |a + b|
              && deleteTable.ledger == CountDeletes(old(deleteTable.ledger), requestId, a + b, net.reachable)
    {
      hide DeleteInv, OnlyDeletesSince, CopyDelete, CountDeletes, Reaching;
      hide PersistentMetadata.MutuallyInverse, LockingStrategy.AllConsistent;
      ghost var a, b := CopyDelete(chunkToNode, chunk, volatile.upNodes, requestId),
                        CopyDelete(chunkToReplicaNode, chunk, volatile.upNodes, requestId);
      CountDeletesConcat(deleteTable.ledger, requestId, a, b, net.reachable);
      ReachingConcat(a, b, net.reachable);
      StillCounting(deleteTable.ledger, requestId, a, net.reachable);
      ghost var t, metadata, fileLocks := deleteTable.TablesNow(), deleteTable.files.metadata,
        deleteTable.locks.fileLocks;
      var table, copies := DeleteCopy(requestId, chunk, chunkToNode);
      chunkToNode := table;
      ghost var t', metadata', fileLocks' := deleteTable.TablesNow(), deleteTable.files.metadata,
        deleteTable.locks.fileLocks;
      var replicaTable, replicas := DeleteCopy(requestId, chunk, chunkToReplicaNode);
      chunkToReplicaNode := replicaTable;
      n := copies + replicas;
      OnlyDeletesTrans(t, t', deleteTable.TablesNow(), metadata, metadata', deleteTable.files.metadata,
                       fileLocks, fileLocks', deleteTable.locks.fileLocks);
    }

    /** Deletes the chunks of a file. Returns how many copies were on nodes that are up, whether or not
        these could be reached. */
    method ProcessDeleteFile(requestId: nat, fileId: int) returns (numChunks: nat, ghost chunks: seq<FileChunk>)
      requires deleteTable.Valid()
      requires requestId in deleteTable.ledger && !deleteTable.ledger[requestId].finished
      modifies this`chunkToNode, this`chunkToReplicaNode, net`sent
      modifies deleteTable`inFlight, deleteTable`ledger, deleteTable`active, deleteTable`results, deleteTable`answers
      modifies deleteTable.files`metadata, deleteTable.files`pathnameToFileId, deleteTable.locks
      ensures deleteTable.Valid() && (old(deleteTable.locks.Valid()) ==> deleteTable.locks.Valid())
      ensures deleteTable.lastId == old(deleteTable.lastId)
      ensures OnlyDeletesSince(old(deleteTable.TablesNow()), deleteTable.TablesNow(),
                               old(deleteTable.files.metadata), deleteTable.files.metadata,
                               old(deleteTable.locks.fileLocks), deleteTable.locks.fileLocks)
      ensures ChunksOfFile(chunks, old(chunkToNode), fileId)
      ensures Io() == DeleteChunks(old(Io()), chunks, requestId)
      ensures var packets := DeletePackets(old(Io()), chunks, requestId);
              && numChunks == |packets|
              && deleteTable.ledger == CountDeletes(old(deleteTable.ledger), requestId, packets, net.reachable)
    {
      hide DeleteInv, OnlyDeletesSince, ChunkLess, CopyDelete, Erased, Reaching, DeletePackets, CountDeletes;
      hide PersistentMetadata.MutuallyInverse, LockingStrategy.AllConsistent;
      var all := GetAllChunks(fileId);
      chunks, numChunks := all, 0;
      ghost var io, up, n := Io(), volatile.upNodes, |all|;
      ghost var t, metadata, fileLocks := deleteTable.TablesNow(), deleteTable.files.metadata,
        deleteTable.locks.fileLocks;
      NothingSince(t, metadata, fileLocks);
      DeleteNoChunks(io, requestId);
      CountNoDeletes(deleteTable.ledger, requestId, net.reachable);
      for i := 0 to |all|
        invariant deleteTable.Valid() && (old(deleteTable.locks.Valid()) ==> deleteTable.locks.Valid())
        invariant deleteTable.lastId == old(deleteTable.lastId)
        invariant OnlyDeletesSince(t, deleteTable.TablesNow(), metadata, deleteTable.files.metadata,
                                   fileLocks, deleteTable.locks.fileLocks)
        invariant Io() == DeleteChunks(io, all[..i], requestId)
        invariant numChunks == |DeletePackets(io, all[..i], requestId)|
        invariant requestId in deleteTable.ledger && !deleteTable.ledger[requestId].finished
        invariant deleteTable.ledger
                  == CountDeletes(old(deleteTable.ledger), requestId, DeletePackets(io, all[..i], requestId),
                                  net.reachable) {
        ghost var t', metadata', fileLocks' := deleteTable.TablesNow(), deleteTable.files.metadata,
          deleteTable.locks.fileLocks;
        ghost var a, b := CopyDelete(chunkToNode, all[i], up, requestId),
          CopyDelete(chunkToReplicaNode, all[i], up, requestId);
        StillCounting(deleteTable.ledger, requestId, a + b, net.reachable);
        CountDeletesConcat(old(deleteTable.ledger), requestId, DeletePackets(io, all[..i], requestId), a + b,
                           net.reachable);
        var copies := DeleteChunk(requestId, all[i]);
        numChunks := numChunks + copies;
        DeleteChunkStep(io, all, i, requestId);
        OnlyDeletesTrans(t, t', deleteTable.TablesNow(), metadata, metadata', deleteTable.files.metadata,
                         fileLocks, fileLocks', deleteTable.locks.fileLocks);
      }
      assert all[..|all|] == all;
    }
  }
}

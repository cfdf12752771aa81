/** The Espresso nodes as the Barista sees them: packets go in, and each node stores chunks. */
module Nodes {
  import opened EspressoStorage
  import opened EspressoRuns

  const FIRST: int := 1
  const SECOND: int := 2
  const FIRST_REPLICA: int := 3
  const SECOND_REPLICA: int := 4

  datatype Body =
    | WriteBody(offset: nat, bytes: seq<byte>)
    | ReadBody(offset: nat, count: nat)
    | DeleteBody

  /** A request for one chunk, addressed to one node. */
  datatype Packet = Packet(node: int, id: nat, d: Descriptor, body: Body)

  /** What a node that has room does with a packet. */
  function Apply(s: AbstractStore, p: Packet): AbstractStore {
    match p.body
    case WriteBody(offset, bytes) => s[p.d := WriteTo(if p.d in s then s[p.d] else Empty(), offset, bytes)]
    case ReadBody(_, _) => s
    case DeleteBody => s - {p.d}
  }

  /** What a node stores once it has handled all packets sent to it. A node handles its packets
      in the order in which they were sent, so nothing else than that order matters. */
  function NodeState(sent: seq<Packet>, node: int): AbstractStore {
    if sent == [] then map[]
    else
      var before, p := NodeState(sent[..|sent| - 1], node), sent[|sent| - 1];
      if p.node == node then Apply(before, p) else before
  }

  lemma NodeStateSnoc(sent: seq<Packet>, p: Packet, node: int)
    ensures NodeState(sent + [p], node)
            == if p.node == node then Apply(NodeState(sent, node), p) else NodeState(sent, node)
  {
  }

  function OpOf(p: Packet): Op {
    match p.body
    case WriteBody(offset, bytes) => Write(p.d, offset, bytes)
    case ReadBody(offset, count) => Read(p.d, offset, count)
    case DeleteBody => Delete(p.d)
  }

  /** The packets of the log that one node gets, as operations on its store. */
  function OpsFor(sent: seq<Packet>, node: int): seq<Op> {
    if sent == [] then []
    else
      var before, p := OpsFor(sent[..|sent| - 1], node), sent[|sent| - 1];
      if p.node == node then before + [OpOf(p)] else before
  }

  /** No packet in the log asks a node for a write that would break its store. */
  ghost predicate HarmlessLog(sent: seq<Packet>) {
    forall i :: 0 <= i < |sent| ==> Harmless(OpOf(sent[i]))
  }

  /** No write failed for lack of space. */
  ghost predicate AllRoom(log: seq<Event>) {
    forall i :: 0 <= i < |log| && log[i].op.Write? ==> !log[i].skipped && log[i].result != ERROR
  }

  ghost predicate LogOf(log: seq<Event>, ops: seq<Op>) {
    && |log| == |ops|
    && (forall i :: 0 <= i < |log| ==> log[i].op == ops[i])
    && AllExplained(log)
  }

  /** A store that has room does with an operation what the node does with the packet. */
  lemma StepIsApply(s: AbstractStore, p: Packet, e: Event)
    requires e.op == OpOf(p) && Explained(s, e) && (e.op.Write? ==> !e.skipped && e.result != ERROR)
    ensures StepStore(s, e) == Apply(s, p)
  {
    hide WriteTo;
    if e.op.Delete? && p.d !in s {
      assert s - {p.d} == s;
    }
  }

  /** A real chunk store that is fed the packets of a node, and never runs out of space, ends up
      storing what `NodeState` says. */
  lemma {:induction false} NodeStateIsStore(sent: seq<Packet>, node: int, log: seq<Event>)
    requires LogOf(log, OpsFor(sent, node)) && AllRoom(log)
    ensures RunStore(log) == NodeState(sent, node)
  {
    hide Apply, OpOf, Explained, AllExplained, StepStore;
    if sent != [] {
      var before, p := sent[..|sent| - 1], sent[|sent| - 1];
      if p.node == node {
        var log0, e := log[..|log| - 1], log[|log| - 1];
        assert log == log0 + [e];
        AllExplainedSnoc(log0, e);
        assert OpsFor(sent, node)[..|log0|] == OpsFor(before, node);
        NodeStateIsStore(before, node, log0);
        StepIsApply(NodeState(before, node), p, e);
      } else {
        NodeStateIsStore(before, node, log);
      }
    }
  }

  lemma {:induction false} OpsHarmless(sent: seq<Packet>, node: int)
    requires HarmlessLog(sent)
    ensures forall op :: op in OpsFor(sent, node) ==> Harmless(op)
  {
    if sent != [] {
      OpsHarmless(sent[..|sent| - 1], node);
    }
  }

  /** A real chunk store is given the packets of a node. Unless it runs out of space, its data file ends
      up holding what `NodeState` says. */
  method Feed(store: EspressoStore, sent: seq<Packet>, node: int) returns (log: seq<Event>)
    requires store.Valid() && store.metadata == map[] && HarmlessLog(sent)
    modifies store
    ensures store.Valid() && |log| == |OpsFor(sent, node)|
    ensures AllRoom(log) ==> Refines(store.Contents(), NodeState(sent, node))
  {
    hide EspressoStore.Valid, Refines, AllExplained, RunStore, NodeState, LayoutTrace;
    OpsHarmless(sent, node);
    ghost var layouts;
    log, layouts := Run(store, OpsFor(sent, node));
    if AllRoom(log) {
      NodeStateIsStore(sent, node, log);
    }
  }
}

/** Every write packet is acknowledged under the id that it carries, and with the number of its bytes. */
module Acknowledgements {
  import opened Nodes
  import opened WriteRequests

  /** How many bytes a packet writes, if it goes by `id`. */
  function BytesUnder(p: Packet, id: nat): seq<int> {
    if p.body.WriteBody? && p.id == id then [|p.body.bytes|] else []
  }

  /** The lengths of all write packets in the log that go by `id`. */
  function LengthsUnder(sent: seq<Packet>, id: nat): seq<int> {
    if sent == [] then []
    else LengthsUnder(sent[..|sent| - 1], id) + BytesUnder(sent[|sent| - 1], id)
  }

  predicate ToPrimary(p: Packet) {
    p.node == FIRST || p.node == SECOND
  }

  /** A write packet belongs to a request. To a primary node it goes under the first id of the request, and to
      any other node under the second. */
  ghost predicate RightId(p: Packet, owner: map<nat, WriteRequest>) {
    p.body.WriteBody? ==>
      p.id in owner && p.id == if ToPrimary(p) then owner[p.id].requestId else owner[p.id].replicaRequestId
  }

  /** The acknowledgements of writes, those that have arrived and those on their way, are one for each write
      packet that was sent, under its id and with the number of its bytes. */
  ghost predicate Acknowledged(sent: seq<Packet>, s: State) {
    && (forall i :: 0 <= i < |sent| ==> RightId(sent[i], s.owner))
    && (forall id :: id in s.inFlight ==> id in s.arrived && CountsUnder(s, id) == multiset(LengthsUnder(sent, id)))
  }

  lemma NothingSent()
    ensures Acknowledged([], Initial())
  {
  }

  lemma LengthsSnoc(sent: seq<Packet>, p: Packet, id: nat)
    ensures LengthsUnder(sent + [p], id) == LengthsUnder(sent, id) + BytesUnder(p, id)
  {
    assert (sent + [p])[..|sent|] == sent;
  }

  lemma {:induction false} NoneUnder(sent: seq<Packet>, id: nat)
    requires forall i :: 0 <= i < |sent| && sent[i].body.WriteBody? ==> sent[i].id != id
    ensures LengthsUnder(sent, id) == []
  {
    if sent != [] {
      NoneUnder(sent[..|sent| - 1], id);
    }
  }

  /** A new request has fresh ids, which no packet carries yet. */
  lemma BegunAcknowledged(sent: seq<Packet>, s: State, step: Step)
    requires Inv(s) && Acknowledged(sent, s) && step.Begin? && Enabled(s, step)
    ensures Acknowledged(sent, Next(s, step))
  {
    var r, s' := step.r, Next(s, step);
    forall i | 0 <= i < |sent| ensures RightId(sent[i], s'.owner) {
      assert RightId(sent[i], s.owner) && IdInv(s, sent[i].id);
    }
    forall id | id in s'.inFlight ensures id in s'.arrived && CountsUnder(s', id) == multiset(LengthsUnder(sent, id)) {
      assert IdInv(s, id);
      if id == r.requestId || id == r.replicaRequestId {
        forall i | 0 <= i < |sent| && sent[i].body.WriteBody? ensures sent[i].id != id {
          assert RightId(sent[i], s.owner) && IdInv(s, sent[i].id);
        }
        NoneUnder(sent, id);
      }
    }
  }

  /** One more write packet goes out, and its acknowledgement is on its way. */
  lemma SentAcknowledged(sent: seq<Packet>, p: Packet, s: State)
    requires Acknowledged(sent, s) && p.body.WriteBody? && RightId(p, s.owner)
    requires Enabled(s, Issue(p.id, |p.body.bytes|)) && Found(s, Issue(p.id, |p.body.bytes|))
    ensures Acknowledged(sent + [p], Next(s, Issue(p.id, |p.body.bytes|)))
  {
    var n := |p.body.bytes|;
    var s' := Next(s, Issue(p.id, n));
    forall id | id in s'.inFlight
      ensures id in s'.arrived && CountsUnder(s', id) == multiset(LengthsUnder(sent + [p], id)) {
      OneMoreUnder(sent, p, s, id);
    }
  }

  lemma OneMoreUnder(sent: seq<Packet>, p: Packet, s: State, id: nat)
    requires Acknowledged(sent, s) && p.body.WriteBody? && id in s.inFlight
    requires Enabled(s, Issue(p.id, |p.body.bytes|)) && Found(s, Issue(p.id, |p.body.bytes|))
    ensures var s' := Next(s, Issue(p.id, |p.body.bytes|));
            id in s'.inFlight && id in s'.arrived
            && CountsUnder(s', id) == multiset(LengthsUnder(sent + [p], id))
  {
    hide RightId;
    LengthsSnoc(sent, p, id);
    hide LengthsUnder;
    assert CountsUnder(s, id) == multiset(LengthsUnder(sent, id));
    if id == p.id {
      MultisetSnoc(s.inFlight[id], |p.body.bytes|);
      MultisetSnoc(LengthsUnder(sent, id), |p.body.bytes|);
    }
  }

  lemma MultisetSnoc(a: seq<int>, x: int)
    ensures multiset(a + [x]) == multiset(a) + multiset{x}
  {
  }

  /** The state of the requests may have changed, but not which acknowledgements there are. */
  lemma StillAcknowledged(sent: seq<Packet>, s: State, s': State)
    requires Acknowledged(sent, s) && SameCounts(s, s')
    ensures Acknowledged(sent, s')
  {
    hide CountsUnder, LengthsUnder;
    assert forall id :: id in s'.inFlight ==> id in s'.inFlight.Keys && id in s.inFlight;
    assert forall id :: id in s.arrived ==> id in s.arrived.Keys && id in s'.arrived;
  }

  /** What else was sent are no writes. */
  ghost predicate NoWritesSince(sent: seq<Packet>, sent': seq<Packet>) {
    sent <= sent' && forall i :: |sent| <= i < |sent'| ==> !sent'[i].body.WriteBody?
  }

  lemma {:induction false} LengthsKept(sent: seq<Packet>, sent': seq<Packet>, id: nat)
    requires NoWritesSince(sent, sent')
    ensures LengthsUnder(sent', id) == LengthsUnder(sent, id)
    decreases |sent'|
  {
    if |sent'| == |sent| {
      assert sent' == sent;
    } else {
      LengthsKept(sent, sent'[..|sent'| - 1], id);
    }
  }

  lemma OthersAcknowledged(sent: seq<Packet>, sent': seq<Packet>, s: State)
    requires Acknowledged(sent, s) && NoWritesSince(sent, sent')
    ensures Acknowledged(sent', s)
  {
    forall i | 0 <= i < |sent'| ensures RightId(sent'[i], s.owner) {
      if i < |sent| {
        assert sent'[i] == sent[i];
      }
    }
    forall id | id in s.inFlight ensures id in s.arrived && CountsUnder(s, id) == multiset(LengthsUnder(sent', id)) {
      LengthsKept(sent, sent', id);
    }
  }

  // ---------------------------------------------------------------------------
  // What that says about one request
  // ---------------------------------------------------------------------------

  lemma MultisetWithout(b: seq<int>, k: nat)
    requires k < |b|
    ensures multiset(b) == multiset(b[..k] + b[k + 1..]) + multiset{b[k]}
  {
    assert b == b[..k] + [b[k]] + b[k + 1..];
  }

  lemma {:induction false} SameMultisetSameSum(a: seq<int>, b: seq<int>)
    requires multiset(a) == multiset(b)
    ensures |a| == |b| && Sum(a) == Sum(b)
  {
    assert |multiset(a)| == |a| && |multiset(b)| == |b|;
    if a != [] {
      var n := |a| - 1;
      assert a == a[..n] + [a[n]];
      assert a[n] in multiset(b);
      var k :| 0 <= k < |b| && b[k] == a[n];
      MultisetSnoc(a[..n], a[n]);
      MultisetWithout(b, k);
      assert multiset(a[..n]) == multiset(a) - multiset{a[n]};
      assert multiset(b[..k] + b[k + 1..]) == multiset(b) - multiset{a[n]};
      SumRemove(b, k);
      SameMultisetSameSum(a[..n], b[..k] + b[k + 1..]);
    }
  }

  /** Of every request: as many packets went out under its first id as fragments were issued, with as many
      bytes in all as they have; and under its second id one for each, but for the ones that were lost. */
  lemma PacketsOfRequest(sent: seq<Packet>, s: State, r: WriteRequest)
    requires Inv(s) && Acknowledged(sent, s) && r in s.ledger
    ensures |LengthsUnder(sent, r.requestId)| == s.ledger[r].issued
    ensures Sum(LengthsUnder(sent, r.requestId)) == s.ledger[r].total
    ensures |LengthsUnder(sent, r.replicaRequestId)| + s.ledger[r].lost == s.ledger[r].replicasIssued
  {
    hide Inv, LengthsUnder;
    IdsOfRequest(s, r);
    var p, q := r.requestId, r.replicaRequestId;
    assert CountsUnder(s, p) == multiset(s.arrived[p] + s.inFlight[p]);
    assert CountsUnder(s, q) == multiset(s.arrived[q] + s.inFlight[q]);
    SameMultisetSameSum(s.arrived[p] + s.inFlight[p], LengthsUnder(sent, p));
    SameMultisetSameSum(s.arrived[q] + s.inFlight[q], LengthsUnder(sent, q));
    SumConcat(s.arrived[p], s.inFlight[p]);
  }
}

/** Outstanding write requests: counting the acknowledgements of both copies, and answering once. */
module WriteRequests {
  import opened VolatileMetadata
  import opened Requests

  /** A write goes out under two ids, one for the primary chunks and one for the replicas. */
  datatype WriteRequest = WriteRequest(requestId: nat, replicaRequestId: nat)

  datatype WriteRequestInfo = WriteRequestInfo(info: RequestInfo, replicaInfo: RequestInfo, fd: int, count: int)

  datatype WriteResult = WriteResult(client: Client, fd: int, count: int)

  // ---------------------------------------------------------------------------
  // The tables of the Barista, and what the handlers do to them
  // ---------------------------------------------------------------------------

  datatype Tables = Tables(lookups: map<nat, WriteRequest>, active: map<WriteRequest, WriteRequestInfo>,
                           results: seq<WriteResult>)

  predicate RequestExists(t: Tables, id: nat) {
    id in t.lookups && t.lookups[id] in t.active
  }

  /** An expected count of zero says that fragments are still being issued. */
  predicate Complete(w: WriteRequestInfo) {
    && w.info.chunksExpected != 0
    && w.info.chunksExpected == w.info.chunksReceived
    && w.replicaInfo.chunksExpected == w.replicaInfo.chunksReceived
  }

  function Begun(t: Tables, r: WriteRequest, client: Client, fileId: int, fd: int): Tables {
    var info := RequestInfo(0, 0, fileId, client);
    t.(lookups := t.lookups[r.requestId := r][r.replicaRequestId := r],
       active := t.active[r := WriteRequestInfo(info, info, fd, 0)])
  }

  function Checked(t: Tables, id: nat): Tables
    requires RequestExists(t, id)
  {
    var r := t.lookups[id];
    var w := t.active[r];
    if Complete(w) then
      Tables(t.lookups - {r.requestId, r.replicaRequestId}, t.active - {r},
             t.results + [WriteResult(w.info.client, w.fd, w.count)])
    else t
  }

  function Counted(w: WriteRequestInfo, primary: bool, count: int): WriteRequestInfo {
    if primary then
      w.(info := w.info.(chunksReceived := w.info.chunksReceived + 1), count := w.count + count)
    else
      w.(replicaInfo := w.replicaInfo.(chunksReceived := w.replicaInfo.chunksReceived + 1))
  }

  function Responded(t: Tables, id: nat, count: int): Tables
    requires RequestExists(t, id)
  {
    var r := t.lookups[id];
    Checked(t.(active := t.active[r := Counted(t.active[r], id == r.requestId, count)]), id)
  }

  function ExpectedSet(t: Tables, r: WriteRequest, expected: nat, replicasExpected: nat): Tables
    requires r in t.active && RequestExists(t, r.requestId)
  {
    var w := t.active[r];
    Checked(t.(active := t.active[r := w.(info := w.info.(chunksExpected := expected),
                                          replicaInfo := w.replicaInfo.(chunksExpected := replicasExpected))]),
            r.requestId)
  }

  // ---------------------------------------------------------------------------
  // The tables together with the network
  // ---------------------------------------------------------------------------

  /** What happened to one request: how many fragments were issued to primary and to replica nodes, how
      many of the replicas were lost because no node for them could be reached, and what the
      acknowledgements of the primary copies add up to. */
  datatype Entry = Entry(client: Client, fd: int, issued: nat, replicasIssued: nat, lost: nat, total: int,
                         finished: bool)

  /** `inFlight` and `arrived` have, for each request id, the counts in the acknowledgements that are still to
      arrive and in those that have arrived. `owner` and `ledger` remember all requests, `answers` the request
      of each result. */
  datatype State = State(tables: Tables, inFlight: map<nat, seq<int>>, arrived: map<nat, seq<int>>,
                         owner: map<nat, WriteRequest>, ledger: map<WriteRequest, Entry>,
                         answers: seq<WriteRequest>, lastId: nat)

  function Initial(): State {
    State(Tables(map[], map[], []), map[], map[], map[], map[], [], 0)
  }

  function IssuedTo(e: Entry, primary: bool, count: int): Entry {
    if primary then e.(issued := e.issued + 1, total := e.total + count)
    else e.(replicasIssued := e.replicasIssued + 1)
  }

  /** A replica is counted all the same when it could not be sent to any node. */
  function LostOne(e: Entry): Entry {
    e.(replicasIssued := e.replicasIssued + 1, lost := e.lost + 1)
  }

  datatype Step =
    | Begin(r: WriteRequest, client: Client, fileId: int, fd: int)
    | Issue(id: nat, count: int)
    | Lose(r: WriteRequest)
    | Deliver(id: nat, k: nat)
    | Finish(r: WriteRequest)

  ghost predicate Enabled(s: State, step: Step) {
    match step
    case Begin(r, _, _, _) => s.lastId < r.requestId < r.replicaRequestId
    case Issue(id, _) => id in s.owner && s.owner[id] in s.ledger && !s.ledger[s.owner[id]].finished
    case Lose(r) => r in s.ledger && !s.ledger[r].finished
    case Deliver(id, k) => id in s.inFlight && k < |s.inFlight[id]|
    case Finish(r) => r in s.ledger && !s.ledger[r].finished && 0 < s.ledger[r].issued
  }

  /** The tables and the answers after a handler took `tables` to `t`, on behalf of `r`. */
  function Handled(s: State, t: Tables, r: WriteRequest): State {
    s.(tables := t, answers := if |t.results| > |s.tables.results| then s.answers + [r] else s.answers)
  }

  /** Whether the handlers find the request that they are called for. */
  ghost predicate Found(s: State, step: Step) {
    match step
    case Begin(_, _, _, _) => true
    case Issue(id, _) => id in s.inFlight
    case Lose(_) => true
    case Deliver(id, _) => RequestExists(s.tables, id) && id in s.arrived
    case Finish(r) => r in s.tables.active && RequestExists(s.tables, r.requestId)
  }

  ghost function Next(s: State, step: Step): State
    requires Enabled(s, step) && Found(s, step)
  {
    match step
    case Begin(r, client, fileId, fd) =>
      s.(tables := Begun(s.tables, r, client, fileId, fd),
         inFlight := s.inFlight[r.requestId := []][r.replicaRequestId := []],
         arrived := s.arrived[r.requestId := []][r.replicaRequestId := []],
         owner := s.owner[r.requestId := r][r.replicaRequestId := r],
         ledger := s.ledger[r := Entry(client, fd, 0, 0, 0, 0, false)],
         lastId := r.replicaRequestId)
    case Issue(id, count) =>
      var r := s.owner[id];
      s.(inFlight := s.inFlight[id := s.inFlight[id] + [count]],
         ledger := s.ledger[r := IssuedTo(s.ledger[r], id == r.requestId, count)])
    case Lose(r) =>
      s.(ledger := s.ledger[r := LostOne(s.ledger[r])])
    case Deliver(id, k) =>
      var acks := s.inFlight[id];
      Handled(s.(inFlight := s.inFlight[id := acks[..k] + acks[k + 1..]],
                 arrived := s.arrived[id := s.arrived[id] + [acks[k]]]),
              Responded(s.tables, id, acks[k]), s.tables.lookups[id])
    case Finish(r) =>
      var e := s.ledger[r];
      Handled(s.(ledger := s.ledger[r := e.(finished := true)]),
              ExpectedSet(s.tables, r, e.issued, e.replicasIssued), r)
  }

  function Sum(counts: seq<int>): int {
    if counts == [] then 0 else Sum(counts[..|counts| - 1]) + counts[|counts| - 1]
  }

  // ---------------------------------------------------------------------------
  // The invariant
  // ---------------------------------------------------------------------------

  /** What has arrived and what is in flight add up to what was issued. */
  ghost predicate Accounted(s: State, r: WriteRequest)
    requires r in s.ledger && r.requestId in s.inFlight && r.replicaRequestId in s.inFlight
    requires r.requestId in s.arrived && r.replicaRequestId in s.arrived
  {
    var e := s.ledger[r];
    && |s.arrived[r.requestId]| + |s.inFlight[r.requestId]| == e.issued
    && |s.arrived[r.replicaRequestId]| + |s.inFlight[r.replicaRequestId]| + e.lost == e.replicasIssued
    && Sum(s.arrived[r.requestId]) + Sum(s.inFlight[r.requestId]) == e.total
  }

  /** An active request has counted what has arrived. */
  ghost predicate CountedUp(w: WriteRequestInfo, e: Entry, primary: seq<int>, replica: seq<int>) {
    && w.info.chunksReceived == |primary| && w.replicaInfo.chunksReceived == |replica|
    && w.count == Sum(primary)
    && w.info.client == e.client && w.fd == e.fd
    && w.info.chunksExpected == (if e.finished then e.issued else 0)
    && w.replicaInfo.chunksExpected == (if e.finished then e.replicasIssued else 0)
    && (e.finished ==> 0 < e.issued)
  }

  ghost predicate RequestInv(s: State, r: WriteRequest) {
    r in s.ledger ==>
      && r.requestId != r.replicaRequestId
      && r.requestId in s.owner && s.owner[r.requestId] == r
      && r.replicaRequestId in s.owner && s.owner[r.replicaRequestId] == r
      && r.requestId in s.inFlight && r.replicaRequestId in s.inFlight
      && r.requestId in s.arrived && r.replicaRequestId in s.arrived && Accounted(s, r)
      && if r in s.tables.active then
           && r.requestId in s.tables.lookups && r.replicaRequestId in s.tables.lookups
           && CountedUp(s.tables.active[r], s.ledger[r], s.arrived[r.requestId], s.arrived[r.replicaRequestId])
           && !Complete(s.tables.active[r])
         else
           && r.requestId !in s.tables.lookups && r.replicaRequestId !in s.tables.lookups
           && s.inFlight[r.requestId] == [] && s.inFlight[r.replicaRequestId] == []
           && s.ledger[r].finished && 0 < s.ledger[r].issued && s.ledger[r].lost == 0 && r in s.answers
  }

  ghost predicate IdInv(s: State, id: nat) {
    && (id in s.owner <==> id in s.inFlight) && (id in s.owner <==> id in s.arrived)
    && (id in s.owner ==>
          && id <= s.lastId
          && s.owner[id] in s.ledger
          && (id == s.owner[id].requestId || id == s.owner[id].replicaRequestId))
    && (id in s.tables.lookups ==> id in s.owner && s.tables.lookups[id] == s.owner[id])
  }

  ghost predicate AnswerInv(s: State, i: nat) {
    i < |s.answers| == |s.tables.results| ==>
      && s.answers[i] in s.ledger
      && s.answers[i] !in s.tables.active
      && s.tables.results[i] == WriteResult(s.ledger[s.answers[i]].client, s.ledger[s.answers[i]].fd,
                                            s.ledger[s.answers[i]].total)
  }

  ghost predicate Inv(s: State) {
    && (forall r :: RequestInv(s, r))
    && (forall id :: IdInv(s, id))
    && (forall r :: r in s.tables.active ==> r in s.ledger)
    && |s.answers| == |s.tables.results|
    && (forall i :: AnswerInv(s, i))
    && (forall i, j :: 0 <= i < j < |s.answers| ==> s.answers[i] != s.answers[j])
  }

  lemma {:induction false} SumConcat(a: seq<int>, b: seq<int>)
    ensures Sum(a + b) == Sum(a) + Sum(b)
  {
    if b == [] {
      assert a + b == a;
    } else {
      var n := |b| - 1;
      SumConcat(a, b[..n]);
      assert (a + b)[..|a| + n] == a + b[..n];
    }
  }

  lemma SumRemove(counts: seq<int>, k: nat)
    requires k < |counts|
    ensures Sum(counts[..k] + counts[k + 1..]) == Sum(counts) - counts[k]
  {
    var a, x, b := counts[..k], [counts[k]], counts[k + 1..];
    assert counts == a + (x + b);
    SumConcat(a, x + b);
    SumConcat(x, b);
    SumConcat(a, b);
    SumOne(counts[k]);
  }

  lemma SumOne(count: int)
    ensures Sum([count]) == count
  {
  }

  /** Whatever arrives or is finished, its request is there. */
  lemma NeverMissing(s: State, step: Step)
    requires Inv(s) && Enabled(s, step)
    ensures Found(s, step)
  {
    match step
    case Begin(_, _, _, _) =>
    case Issue(id, _) =>
      assert IdInv(s, id);
    case Lose(_) =>
    case Deliver(id, k) =>
      assert IdInv(s, id) && RequestInv(s, s.owner[id]);
    case Finish(r) =>
      assert RequestInv(s, r) && IdInv(s, r.requestId);
  }

  lemma BeginKeepsInv(s: State, step: Step)
    requires Inv(s) && step.Begin? && Enabled(s, step)
    ensures Inv(Next(s, step))
  {
    var s', r := Next(s, step), step.r;
    assert IdInv(s, r.requestId) && IdInv(s, r.replicaRequestId) && RequestInv(s, r);
    forall x ensures RequestInv(s', x) {
      assert RequestInv(s, x) && IdInv(s, x.requestId) && IdInv(s, x.replicaRequestId);
    }
    forall id ensures IdInv(s', id) {
      assert IdInv(s, id);
    }
    forall i ensures AnswerInv(s', i) {
      assert AnswerInv(s, i);
    }
  }

  lemma IssueKeepsInv(s: State, step: Step)
    requires Inv(s) && step.Issue? && Enabled(s, step) && Found(s, step)
    ensures Inv(Next(s, step))
  {
    var s', r := Next(s, step), s.owner[step.id];
    assert RequestInv(s, r) && IdInv(s, step.id);
    SumConcat(s.inFlight[step.id], [step.count]);
    SumOne(step.count);
    forall x ensures RequestInv(s', x) {
      assert RequestInv(s, x);
    }
    forall id ensures IdInv(s', id) {
      assert IdInv(s, id);
    }
    forall i ensures AnswerInv(s', i) {
      assert AnswerInv(s, i);
    }
  }

  lemma LoseKeepsInv(s: State, step: Step)
    requires Inv(s) && step.Lose? && Enabled(s, step)
    ensures Inv(Next(s, step))
  {
    var s' := Next(s, step);
    assert RequestInv(s, step.r);
    forall x ensures RequestInv(s', x) {
      assert RequestInv(s, x);
    }
    forall id ensures IdInv(s', id) {
      assert IdInv(s, id);
    }
    forall i ensures AnswerInv(s', i) {
      assert AnswerInv(s, i);
    }
  }

  /** A handler has updated the entry of an active request: it stays active, or it was complete,
      is answered and goes away. */
  lemma HandledKeepsInv(s: State, mid: State, r: WriteRequest, w: WriteRequestInfo, t: Tables)
    requires Inv(s) && r in s.tables.active && r in s.ledger && r in mid.ledger
    requires mid.tables == s.tables.(active := s.tables.active[r := w])
    requires mid.owner == s.owner && mid.answers == s.answers && mid.lastId == s.lastId
    requires mid.ledger == s.ledger[r := mid.ledger[r]]
    requires mid.ledger[r].client == s.ledger[r].client && mid.ledger[r].fd == s.ledger[r].fd
    requires mid.ledger[r].total == s.ledger[r].total && mid.ledger[r].lost == s.ledger[r].lost
    requires mid.inFlight.Keys == s.inFlight.Keys && mid.arrived.Keys == s.arrived.Keys
    requires forall id :: id in s.inFlight && id in s.arrived && id != r.requestId && id != r.replicaRequestId ==>
               mid.inFlight[id] == s.inFlight[id] && mid.arrived[id] == s.arrived[id]
    requires r.requestId in mid.inFlight && r.replicaRequestId in mid.inFlight
    requires r.requestId in mid.arrived && r.replicaRequestId in mid.arrived && Accounted(mid, r)
    requires CountedUp(w, mid.ledger[r], mid.arrived[r.requestId], mid.arrived[r.replicaRequestId])
    requires t == if Complete(w) then
                    Tables(s.tables.lookups - {r.requestId, r.replicaRequestId}, mid.tables.active - {r},
                           s.tables.results + [WriteResult(w.info.client, w.fd, w.count)])
                  else mid.tables
    ensures Inv(Handled(mid, t, r))
  {
    var s' := Handled(mid, t, r);
    assert RequestInv(s, r);
    forall x ensures RequestInv(s', x) {
      assert RequestInv(s, x) && IdInv(s, x.requestId) && IdInv(s, x.replicaRequestId);
    }
    forall id ensures IdInv(s', id) {
      assert IdInv(s, id);
    }
    forall i ensures AnswerInv(s', i) {
      assert AnswerInv(s, i);
    }
    forall i, j | 0 <= i < j < |s'.answers| ensures s'.answers[i] != s'.answers[j] {
      assert AnswerInv(s, i);
    }
  }

  lemma DeliverKeepsInv(s: State, step: Step)
    requires Inv(s) && step.Deliver? && Enabled(s, step) && Found(s, step)
    ensures Inv(Next(s, step))
  {
    var id, k := step.id, step.k;
    var acks := s.inFlight[id];
    var r := s.tables.lookups[id];
    assert IdInv(s, id) && RequestInv(s, r);
    SumRemove(acks, k);
    SumConcat(s.arrived[id], [acks[k]]);
    SumOne(acks[k]);
    var w := Counted(s.tables.active[r], id == r.requestId, acks[k]);
    var mid := s.(inFlight := s.inFlight[id := acks[..k] + acks[k + 1..]],
                  arrived := s.arrived[id := s.arrived[id] + [acks[k]]],
                  tables := s.tables.(active := s.tables.active[r := w]));
    HandledKeepsInv(s, mid, r, w, Responded(s.tables, id, acks[k]));
  }

  lemma FinishKeepsInv(s: State, step: Step)
    requires Inv(s) && step.Finish? && Enabled(s, step) && Found(s, step)
    ensures Inv(Next(s, step))
  {
    var r := step.r;
    var e := s.ledger[r];
    assert RequestInv(s, r) && IdInv(s, r.requestId);
    var w0 := s.tables.active[r];
    var w := w0.(info := w0.info.(chunksExpected := e.issued),
                 replicaInfo := w0.replicaInfo.(chunksExpected := e.replicasIssued));
    var mid := s.(ledger := s.ledger[r := e.(finished := true)],
                  tables := s.tables.(active := s.tables.active[r := w]));
    HandledKeepsInv(s, mid, r, w, ExpectedSet(s.tables, r, e.issued, e.replicasIssued));
  }

  // ---------------------------------------------------------------------------
  // All runs
  // ---------------------------------------------------------------------------

  /** A run in which responses arrive in any order, also while fragments are still being issued. */
  ghost predicate IsRun(s: State, steps: seq<Step>, s': State)
    decreases |steps|
  {
    if steps == [] then s' == s
    else Enabled(s, steps[0]) && Found(s, steps[0]) && IsRun(Next(s, steps[0]), steps[1..], s')
  }

  lemma StepKeepsInv(s: State, step: Step)
    requires Inv(s) && Enabled(s, step)
    ensures Found(s, step) && Inv(Next(s, step))
  {
    NeverMissing(s, step);
    match step
    case Begin(_, _, _, _) => BeginKeepsInv(s, step);
    case Issue(_, _) => IssueKeepsInv(s, step);
    case Lose(_) => LoseKeepsInv(s, step);
    case Deliver(_, _) => DeliverKeepsInv(s, step);
    case Finish(_) => FinishKeepsInv(s, step);
  }

  lemma {:induction false} RunKeepsInv(s: State, steps: seq<Step>, s': State)
    requires Inv(s) && IsRun(s, steps, s')
    ensures Inv(s')
    decreases |steps|
  {
    if steps != [] {
      StepKeepsInv(s, steps[0]);
      RunKeepsInv(Next(s, steps[0]), steps[1..], s');
    }
  }

  lemma InitialInv()
    ensures Inv(Initial())
  {
  }

  /** Whether the client that sent the request has been told the result. */
  ghost predicate Answered(s: State, r: WriteRequest) {
    r in s.answers
  }

  ghost predicate AllArrived(s: State, r: WriteRequest) {
    && r.requestId in s.inFlight && s.inFlight[r.requestId] == []
    && r.replicaRequestId in s.inFlight && s.inFlight[r.replicaRequestId] == []
  }

  /** The request is answered once, to its own client and descriptor, with the sum of the primary
      counts; and both its ids are forgotten. */
  ghost predicate AnsweredOnce(s: State, r: WriteRequest) {
    && r in s.ledger
    && r !in s.tables.active && r.requestId !in s.tables.lookups && r.replicaRequestId !in s.tables.lookups
    && exists i :: 0 <= i < |s.answers| == |s.tables.results|
         && s.answers[i] == r
         && s.tables.results[i] == WriteResult(s.ledger[r].client, s.ledger[r].fd, s.ledger[r].total)
         && forall j :: 0 <= j < |s.answers| && s.answers[j] == r ==> j == i
  }

  /** In every reachable state a request has been answered if and only if all its fragments were
      issued, no replica was lost and both copies of each fragment were acknowledged, and then it is
      answered once. */
  lemma AnsweredOnceWhenComplete(steps: seq<Step>, s: State, r: WriteRequest)
    requires IsRun(Initial(), steps, s) && r in s.ledger
    ensures Answered(s, r) <==> s.ledger[r].finished && s.ledger[r].lost == 0 && AllArrived(s, r)
    ensures Answered(s, r) ==> AnsweredOnce(s, r)
  {
    InitialInv();
    RunKeepsInv(Initial(), steps, s);
    AnsweredByInv(s, r);
  }

  lemma AnsweredByInv(s: State, r: WriteRequest)
    requires Inv(s) && r in s.ledger
    ensures Answered(s, r) <==> s.ledger[r].finished && s.ledger[r].lost == 0 && AllArrived(s, r)
    ensures Answered(s, r) ==> AnsweredOnce(s, r)
  {
    assert RequestInv(s, r);
    if Answered(s, r) {
      var i :| 0 <= i < |s.answers| && s.answers[i] == r;
      assert AnswerInv(s, i);
    }
  }

  /** No acknowledgement ever finds its request missing, whatever happened before it. */
  lemma NoResponseLost(steps: seq<Step>, s: State, id: nat, k: nat)
    requires IsRun(Initial(), steps, s) && id in s.inFlight && k < |s.inFlight[id]|
    ensures RequestExists(s.tables, id)
  {
    InitialInv();
    RunKeepsInv(Initial(), steps, s);
    NeverMissing(s, Deliver(id, k));
  }

  // ---------------------------------------------------------------------------
  // The tables in place
  // ---------------------------------------------------------------------------

  /** `s'` is reached from `s` by arrivals alone. */
  ghost predicate ByArrivals(s: State, s': State) {
    exists steps: seq<Step> :: (forall i :: 0 <= i < |steps| ==> steps[i].Deliver?) && IsRun(s, steps, s')
  }

  lemma {:induction false} RunSnoc(s: State, steps: seq<Step>, s': State, last: Step)
    requires IsRun(s, steps, s') && Enabled(s', last) && Found(s', last)
    ensures IsRun(s, steps + [last], Next(s', last))
    decreases |steps|
  {
    if steps == [] {
      assert [last][1..] == [];
    } else {
      RunSnoc(Next(s, steps[0]), steps[1..], s', last);
      assert (steps + [last])[1..] == steps[1..] + [last];
    }
  }

  lemma NoArrivals(s: State)
    ensures ByArrivals(s, s)
  {
  }

  lemma OneMoreArrival(s: State, s': State, id: nat, k: nat)
    requires ByArrivals(s, s') && Enabled(s', Deliver(id, k)) && Found(s', Deliver(id, k))
    ensures ByArrivals(s, Next(s', Deliver(id, k)))
  {
    var steps: seq<Step> :| (forall i :: 0 <= i < |steps| ==> steps[i].Deliver?) && IsRun(s, steps, s');
    RunSnoc(s, steps, s', Deliver(id, k));
    hide Next, Enabled, Found, IsRun;
    assert forall i :: 0 <= i < |steps + [Deliver(id, k)]| ==> (steps + [Deliver(id, k)])[i].Deliver?;
  }

  /** A copy goes out, and then any number of acknowledgements arrive. */
  ghost predicate SentThenArrivals(s: State, s': State, id: nat, count: int) {
    var step := Issue(id, count);
    Enabled(s, step) && Found(s, step) && ByArrivals(Next(s, step), s')
  }

  /** The counts of all acknowledgements under an id, those that have arrived and those that are on their way. */
  ghost function CountsUnder(s: State, id: nat): multiset<int>
    requires id in s.inFlight && id in s.arrived
  {
    multiset(s.arrived[id]) + multiset(s.inFlight[id])
  }

  ghost predicate SameCounts(s: State, s': State) {
    && s'.owner == s.owner && s'.lastId == s.lastId
    && s'.inFlight.Keys == s.inFlight.Keys && s'.arrived.Keys == s.arrived.Keys
    && forall id :: id in s.inFlight && id in s.arrived ==> CountsUnder(s', id) == CountsUnder(s, id)
  }

  lemma ArrivalKeepsCounts(s: State, id: nat, k: nat)
    requires Enabled(s, Deliver(id, k)) && Found(s, Deliver(id, k))
    ensures SameCounts(s, Next(s, Deliver(id, k)))
  {
    var acks := s.inFlight[id];
    assert acks == acks[..k] + [acks[k]] + acks[k + 1..];
    assert multiset(s.arrived[id] + [acks[k]]) + multiset(acks[..k] + acks[k + 1..])
        == multiset(s.arrived[id]) + multiset(acks);
  }

  lemma {:induction false} RunKeepsCounts(s: State, steps: seq<Step>, s': State)
    requires (forall i :: 0 <= i < |steps| ==> steps[i].Deliver?) && IsRun(s, steps, s')
    ensures SameCounts(s, s')
    decreases |steps|
  {
    if steps != [] {
      ArrivalKeepsCounts(s, steps[0].id, steps[0].k);
      hide CountsUnder;
      RunKeepsCounts(Next(s, steps[0]), steps[1..], s');
    }
  }

  /** No acknowledgement is lost or made up on its way. */
  lemma ArrivalsKeepCounts(s: State, s': State)
    requires ByArrivals(s, s')
    ensures SameCounts(s, s')
  {
    var steps: seq<Step> :| (forall i :: 0 <= i < |steps| ==> steps[i].Deliver?) && IsRun(s, steps, s');
    RunKeepsCounts(s, steps, s');
  }

  /** A request goes by its own two ids, and by no other. */
  lemma IdsOfRequest(s: State, r: WriteRequest)
    requires Inv(s) && r in s.ledger
    ensures r.requestId != r.replicaRequestId
    ensures forall id :: id in s.owner && s.owner[id] == r <==> id == r.requestId || id == r.replicaRequestId
    ensures r.requestId in s.inFlight && r.replicaRequestId in s.inFlight
    ensures r.requestId in s.arrived && r.replicaRequestId in s.arrived && Accounted(s, r)
  {
    assert RequestInv(s, r);
    forall id ensures id in s.owner && s.owner[id] == r <==> id == r.requestId || id == r.replicaRequestId {
      assert IdInv(s, id);
    }
  }

  class WriteRequestTable {
    var lookups: map<nat, WriteRequest>
    var active: map<WriteRequest, WriteRequestInfo>
    var results: seq<WriteResult>

    // the acknowledgements on their way, and what happened so far
    var inFlight: map<nat, seq<int>>
    ghost var arrived: map<nat, seq<int>>
    ghost var owner: map<nat, WriteRequest>
    ghost var ledger: map<WriteRequest, Entry>
    ghost var answers: seq<WriteRequest>
    ghost var lastId: nat

    function TablesNow(): Tables
      reads this
    {
      Tables(lookups, active, results)
    }

    ghost function StateNow(): State
      reads this
    {
      State(TablesNow(), inFlight, arrived, owner, ledger, answers, lastId)
    }

    ghost predicate Valid()
      reads this
    {
      Inv(StateNow())
    }

    constructor ()
      ensures Valid() && StateNow() == Initial()
    {
      lookups, active, results, inFlight := map[], map[], [], map[];
      arrived, owner, ledger, answers, lastId := map[], map[], map[], [], 0;
      new;
      InitialInv();
    }

    method CheckWriteComplete(id: nat)
      requires RequestExists(TablesNow(), id)
      modifies this`lookups, this`active, this`results
      ensures TablesNow() == Checked(old(TablesNow()), id)
    {
      var request := lookups[id];
      var w := active[request];
      if w.info.chunksExpected == 0 {
        return;
      }
      if w.info.chunksExpected == w.info.chunksReceived
         && w.replicaInfo.chunksExpected == w.replicaInfo.chunksReceived {
        results := results + [WriteResult(w.info.client, w.fd, w.count)];
        active := active - {request};
        lookups := lookups - {request.requestId};
        lookups := lookups - {request.replicaRequestId};
        assert lookups == old(lookups) - {request.requestId, request.replicaRequestId};
      }
    }

    method WriteResponseHandler(id: nat, count: int)
      requires RequestExists(TablesNow(), id)
      modifies this`lookups, this`active, this`results
      ensures TablesNow() == Responded(old(TablesNow()), id, count)
    {
      var request := lookups[id];
      var w := active[request];
      if id == request.requestId {
        w := w.(info := w.info.(chunksReceived := w.info.chunksReceived + 1), count := w.count + count);
      } else {
        w := w.(replicaInfo := w.replicaInfo.(chunksReceived := w.replicaInfo.chunksReceived + 1));
      }
      active := active[request := w];
      CheckWriteComplete(id);
    }

    /** Registers a request before any of its fragments is issued. */
    method BeginRequest(r: WriteRequest, client: Client, fileId: int, fd: int)
      requires Valid() && Enabled(StateNow(), Begin(r, client, fileId, fd))
      modifies this
      ensures Valid() && StateNow() == Next(old(StateNow()), Begin(r, client, fileId, fd))
      ensures active == old(active)[r := WriteRequestInfo(RequestInfo(0, 0, fileId, client),
                                                          RequestInfo(0, 0, fileId, client), fd, 0)]
      ensures lookups == old(lookups)[r.requestId := r][r.replicaRequestId := r]
    {
      StepKeepsInv(StateNow(), Begin(r, client, fileId, fd));
      lookups := lookups[r.requestId := r];
      lookups := lookups[r.replicaRequestId := r];
      var info := RequestInfo(0, 0, fileId, client);
      active := active[r := WriteRequestInfo(info, info, fd, 0)];
      inFlight := inFlight[r.requestId := []][r.replicaRequestId := []];
      arrived := arrived[r.requestId := []][r.replicaRequestId := []];
      owner := owner[r.requestId := r][r.replicaRequestId := r];
      ledger := ledger[r := Entry(client, fd, 0, 0, 0, 0, false)];
      lastId := r.replicaRequestId;
    }

    /** A copy of a fragment is on its way to a node, which will acknowledge `count` bytes under the id of the
        packet. */
    method CopyIssued(id: nat, count: int)
      requires Valid() && Enabled(StateNow(), Issue(id, count))
      modifies this`inFlight, this`ledger
      ensures Found(old(StateNow()), Issue(id, count))
      ensures Valid() && StateNow() == Next(old(StateNow()), Issue(id, count))
    {
      ghost var s := StateNow();
      StepKeepsInv(s, Issue(id, count));
      inFlight := inFlight[id := inFlight[id] + [count]];
      ledger := Next(s, Issue(id, count)).ledger;
    }

    /** One acknowledgement arrives. */
    method Arrive(id: nat, k: nat)
      requires Valid() && Enabled(StateNow(), Deliver(id, k))
      modifies this`inFlight, this`arrived, this`lookups, this`active, this`results, this`answers
      ensures Found(old(StateNow()), Deliver(id, k))
      ensures Valid() && StateNow() == Next(old(StateNow()), Deliver(id, k))
    {
      ghost var s := StateNow();
      StepKeepsInv(s, Deliver(id, k));
      var acks := inFlight[id];
      inFlight := inFlight[id := acks[..k] + acks[k + 1..]];
      WriteResponseHandler(id, acks[k]);
      arrived, answers := Next(s, Deliver(id, k)).arrived, Next(s, Deliver(id, k)).answers;
    }

    /** Any number of acknowledgements arrive, in any order. */
    method ArriveSome()
      requires Valid()
      modifies this`inFlight, this`arrived, this`lookups, this`active, this`results, this`answers
      ensures Valid() && ByArrivals(old(StateNow()), StateNow())
    {
      ghost var s := StateNow();
      NoArrivals(s);
      var n: nat := *;
      while 0 < n
        invariant Valid() && ByArrivals(s, StateNow()) {
        var pending := set id | id in inFlight && inFlight[id] != [];
        if pending == {} {
          return;
        }
        var id :| id in pending;
        var k: nat :| k < |inFlight[id]|;
        NeverMissing(StateNow(), Deliver(id, k));
        OneMoreArrival(s, StateNow(), id, k);
        Arrive(id, k);
        n := n - 1;
      }
    }

    /** A copy goes out; acknowledgements of this and of other copies may arrive before it returns. */
    method CopySent(id: nat, count: int)
      requires Valid() && id in owner && owner[id] in ledger && !ledger[owner[id]].finished
      modifies this`inFlight, this`arrived, this`lookups, this`active, this`results, this`answers, this`ledger
      ensures Valid() && SentThenArrivals(old(StateNow()), StateNow(), id, count)
      ensures var r := owner[id];
              ledger == old(ledger)[r := IssuedTo(old(ledger)[r], id == r.requestId, count)]
    {
      CopyIssued(id, count);
      hide Inv;
      ghost var s := StateNow();
      ArriveSome();
      ArrivalsKeepCounts(s, StateNow());
    }

    /** A replica could not be sent to any node, and is waited for all the same. */
    method CopyLost(r: WriteRequest)
      requires Valid() && r in ledger && !ledger[r].finished
      modifies this`ledger
      ensures Valid() && StateNow() == Next(old(StateNow()), Lose(r))
    {
      StepKeepsInv(StateNow(), Lose(r));
      ledger := ledger[r := LostOne(ledger[r])];
    }

    /** All fragments are issued: from now on the request is complete when all responses are in. */
    method FinishRequest(r: WriteRequest, expected: nat, replicasExpected: nat)
      requires Valid() && Enabled(StateNow(), Finish(r))
      requires expected == ledger[r].issued && replicasExpected == ledger[r].replicasIssued
      modifies this`ledger, this`lookups, this`active, this`results, this`answers
      ensures Found(old(StateNow()), Finish(r))
      ensures Valid() && StateNow() == Next(old(StateNow()), Finish(r))
    {
      ghost var s := StateNow();
      StepKeepsInv(s, Finish(r));
      var w := active[r];
      active := active[r := w.(info := w.info.(chunksExpected := expected))];
      active := active[r := active[r].(replicaInfo := w.replicaInfo.(chunksExpected := replicasExpected))];
      assert active == s.tables.active[r := active[r]];
      CheckWriteComplete(r.requestId);
      ledger, answers := Next(s, Finish(r)).ledger, Next(s, Finish(r)).answers;
    }
  }
}

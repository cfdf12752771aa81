/** Outstanding read requests: collecting the pieces and putting them in order. */
module ReadRequests {
  import opened VolatileMetadata
  import opened FileChunks
  import opened EspressoStorage
  import opened Requests

  /** A piece of a file, from one chunk. */
  datatype Response = Response(chunk: FileChunk, bytes: seq<byte>)

  datatype ReadRequestInfo = ReadRequestInfo(info: RequestInfo, fd: int, packets: map<FileChunk, seq<byte>>)

  datatype ReadResult = ReadResult(client: Client, fd: int, count: int, bytes: seq<byte>)

  // ---------------------------------------------------------------------------
  // The table of the Barista, and what the handlers do to it
  // ---------------------------------------------------------------------------

  datatype ReadTables = ReadTables(active: map<nat, ReadRequestInfo>, results: seq<ReadResult>)

  /** The pieces one after the other, in the order of their chunks. */
  function Assembled(packets: map<FileChunk, seq<byte>>): seq<byte>
    decreases packets.Keys
  {
    if packets.Keys == {} then []
    else
      var first := Least(packets.Keys);
      assert (packets - {first}).Keys == packets.Keys - {first};
      packets[first] + Assembled(packets - {first})
  }

  predicate ReadComplete(w: ReadRequestInfo) {
    w.info.chunksExpected != 0 && w.info.chunksExpected == w.info.chunksReceived
  }

  function ReadChecked(t: ReadTables, id: nat): ReadTables
    requires id in t.active
  {
    var w := t.active[id];
    if ReadComplete(w) then
      var bytes := Assembled(w.packets);
      ReadTables(t.active - {id}, t.results + [ReadResult(w.info.client, w.fd, |bytes|, bytes)])
    else t
  }

  function Collected(w: ReadRequestInfo, r: Response): ReadRequestInfo {
    w.(info := w.info.(chunksReceived := w.info.chunksReceived + 1), packets := w.packets[r.chunk := r.bytes])
  }

  function ReadResponded(t: ReadTables, id: nat, r: Response): ReadTables
    requires id in t.active
  {
    ReadChecked(t.(active := t.active[id := Collected(t.active[id], r)]), id)
  }

  function ReadExpectedSet(t: ReadTables, id: nat, expected: nat): ReadTables
    requires id in t.active
  {
    var w := t.active[id];
    ReadChecked(t.(active := t.active[id := w.(info := w.info.(chunksExpected := expected))]), id)
  }

  // ---------------------------------------------------------------------------
  // Pieces that arrive in any order
  // ---------------------------------------------------------------------------

  /** The table of pieces after they arrived in this order. */
  function Gathered(arrived: seq<Response>): map<FileChunk, seq<byte>> {
    if arrived == [] then map[]
    else Gathered(arrived[..|arrived| - 1])[arrived[|arrived| - 1].chunk := arrived[|arrived| - 1].bytes]
  }

  /** The bytes of the pieces in the order in which they were asked for. */
  function Joined(issued: seq<Response>): seq<byte> {
    if issued == [] then [] else issued[0].bytes + Joined(issued[1..])
  }

  /** The pieces are for different chunks, in ascending order. */
  ghost predicate Ascending(issued: seq<Response>) {
    forall i, j :: 0 <= i < j < |issued| ==> ChunkLess(issued[i].chunk, issued[j].chunk)
  }

  ghost predicate DistinctChunks(s: seq<Response>) {
    forall i, j :: 0 <= i < j < |s| ==> s[i].chunk != s[j].chunk
  }

  lemma {:induction false} GatheredHas(arrived: seq<Response>)
    requires DistinctChunks(arrived)
    ensures forall c :: c in Gathered(arrived) ==> Response(c, Gathered(arrived)[c]) in arrived
    ensures forall r :: r in arrived ==> r.chunk in Gathered(arrived) && Gathered(arrived)[r.chunk] == r.bytes
  {
    if arrived != [] {
      var n := |arrived| - 1;
      GatheredHas(arrived[..n]);
      assert arrived == arrived[..n] + [arrived[n]];
      forall r | r in arrived ensures r.chunk in Gathered(arrived) && Gathered(arrived)[r.chunk] == r.bytes {
        if r in arrived[..n] {
          var i :| 0 <= i < n && arrived[i] == r;
        }
      }
    }
  }

  /** Pieces in ascending order are assembled in that order. */
  lemma {:induction false} AscendingAssembled(issued: seq<Response>, packets: map<FileChunk, seq<byte>>)
    requires Ascending(issued)
    requires forall c :: c in packets ==> Response(c, packets[c]) in issued
    requires forall r :: r in issued ==> r.chunk in packets && packets[r.chunk] == r.bytes
    ensures Assembled(packets) == Joined(issued)
  {
    if issued == [] {
      assert packets.Keys == {};
    } else {
      var first := issued[0];
      assert first in issued;
      assert packets.Keys != {};
      var least := Least(packets.Keys);
      assert Response(least, packets[least]) in issued;
      assert least == first.chunk by {
        ChunkLessTotal(least, first.chunk);
      }
      var rest := packets - {least};
      forall c | c in rest ensures Response(c, rest[c]) in issued[1..] {
        var i :| 0 <= i < |issued| && issued[i] == Response(c, packets[c]);
        assert issued[1..][i - 1] == issued[i];
      }
      forall r | r in issued[1..] ensures r.chunk in rest && rest[r.chunk] == r.bytes {
        var i :| 0 <= i < |issued[1..]| && issued[1..][i] == r;
        assert issued[i + 1] == r && ChunkLess(issued[0].chunk, issued[i + 1].chunk);
        ChunkLessTotal(first.chunk, r.chunk);
      }
      AscendingAssembled(issued[1..], rest);
    }
  }

  /** Whatever the order of arrival, the pieces are assembled in the order of their chunks. */
  lemma ArrivalOrderIrrelevant(issued: seq<Response>, arrived: seq<Response>)
    requires Ascending(issued) && multiset(arrived) == multiset(issued)
    ensures Assembled(Gathered(arrived)) == Joined(issued)
  {
    DistinctByCount(issued, arrived);
    GatheredHas(arrived);
    forall r ensures r in arrived <==> r in issued {
      assert r in multiset(arrived) <==> r in multiset(issued);
    }
    AscendingAssembled(issued, Gathered(arrived));
  }

  /** A rearrangement of pieces for different chunks has pieces for different chunks. */
  lemma DistinctByCount(issued: seq<Response>, arrived: seq<Response>)
    requires Ascending(issued) && multiset(arrived) == multiset(issued)
    ensures DistinctChunks(arrived)
  {
    forall i, j | 0 <= i < j < |arrived| ensures arrived[i].chunk != arrived[j].chunk {
      var a, b := arrived[i], arrived[j];
      assert a in multiset(issued) && b in multiset(issued);
      var x :| 0 <= x < |issued| && issued[x] == a;
      var y :| 0 <= y < |issued| && issued[y] == b;
      if a == b {
        AtMostOnce(issued, x);
        AtLeastTwice(arrived, i, j);
      } else {
        assert x != y;
        ChunkLessTotal(issued[x].chunk, issued[y].chunk);
        assert if x < y then ChunkLess(issued[x].chunk, issued[y].chunk)
               else ChunkLess(issued[y].chunk, issued[x].chunk);
      }
    }
  }

  lemma AtMostOnce(issued: seq<Response>, x: nat)
    requires Ascending(issued) && x < |issued|
    ensures multiset(issued)[issued[x]] == 1
  {
    var before, after := issued[..x], issued[x + 1..];
    assert issued == before + [issued[x]] + after;
    assert issued[x] !in before by {
      forall i | 0 <= i < x ensures before[i] != issued[x] {
        assert ChunkLess(issued[i].chunk, issued[x].chunk);
        ChunkLessTotal(issued[i].chunk, issued[x].chunk);
      }
    }
    assert issued[x] !in after by {
      forall i | 0 <= i < |after| ensures after[i] != issued[x] {
        assert ChunkLess(issued[x].chunk, issued[x + 1 + i].chunk);
        ChunkLessTotal(issued[x].chunk, issued[x + 1 + i].chunk);
      }
    }
  }

  lemma AtLeastTwice(s: seq<Response>, i: nat, j: nat)
    requires i < j < |s| && s[i] == s[j]
    ensures multiset(s)[s[i]] >= 2
  {
    assert s == s[..j] + s[j..];
    assert s[i] in s[..j] && s[j] in s[j..] by {
      assert s[..j][i] == s[i] && s[j..][0] == s[j];
    }
  }

  // ---------------------------------------------------------------------------
  // The table together with the network
  // ---------------------------------------------------------------------------

  /** What happened to one request: the pieces asked for, in order, and those that arrived. */
  datatype ReadEntry = ReadEntry(client: Client, fd: int, issued: seq<Response>, arrived: seq<Response>, finished: bool)

  datatype ReadState = ReadState(tables: ReadTables, inFlight: map<nat, seq<Response>>,
                                 ledger: map<nat, ReadEntry>, answers: seq<nat>, lastId: nat)

  function ReadInitial(): ReadState {
    ReadState(ReadTables(map[], []), map[], map[], [], 0)
  }

  datatype ReadStep =
    | ReadBegin(id: nat, client: Client, fileId: int, fd: int)
    | ReadIssue(id: nat, response: Response)
    | ReadDeliver(id: nat, k: nat)
    | ReadFinish(id: nat)

  ghost predicate ReadEnabled(s: ReadState, step: ReadStep) {
    match step
    case ReadBegin(id, _, _, _) => s.lastId < id
    case ReadIssue(id, r) =>
      && id in s.ledger && !s.ledger[id].finished
      && forall i :: 0 <= i < |s.ledger[id].issued| ==> ChunkLess(s.ledger[id].issued[i].chunk, r.chunk)
    case ReadDeliver(id, k) => id in s.inFlight && k < |s.inFlight[id]|
    case ReadFinish(id) => id in s.ledger && !s.ledger[id].finished && s.ledger[id].issued != []
  }

  ghost predicate ReadFound(s: ReadState, step: ReadStep) {
    match step
    case ReadBegin(_, _, _, _) => true
    case ReadIssue(id, _) => id in s.inFlight
    case ReadDeliver(id, _) => id in s.tables.active && id in s.ledger
    case ReadFinish(id) => id in s.tables.active
  }

  function ReadHandled(s: ReadState, t: ReadTables, id: nat): ReadState {
    s.(tables := t, answers := if |t.results| > |s.tables.results| then s.answers + [id] else s.answers)
  }

  ghost function ReadNext(s: ReadState, step: ReadStep): ReadState
    requires ReadEnabled(s, step) && ReadFound(s, step)
  {
    match step
    case ReadBegin(id, client, fileId, fd) =>
      s.(tables := s.tables.(
           active := s.tables.active[id := ReadRequestInfo(RequestInfo(0, 0, fileId, client), fd, map[])]),
         inFlight := s.inFlight[id := []], ledger := s.ledger[id := ReadEntry(client, fd, [], [], false)], lastId := id)
    case ReadIssue(id, r) =>
      var e := s.ledger[id];
      s.(inFlight := s.inFlight[id := s.inFlight[id] + [r]], ledger := s.ledger[id := e.(issued := e.issued + [r])])
    case ReadDeliver(id, k) =>
      var pieces, e := s.inFlight[id], s.ledger[id];
      ReadHandled(s.(inFlight := s.inFlight[id := pieces[..k] + pieces[k + 1..]],
                     ledger := s.ledger[id := e.(arrived := e.arrived + [pieces[k]])]),
                  ReadResponded(s.tables, id, pieces[k]), id)
    case ReadFinish(id) =>
      var e := s.ledger[id];
      ReadHandled(s.(ledger := s.ledger[id := e.(finished := true)]), ReadExpectedSet(s.tables, id, |e.issued|), id)
  }

  // ---------------------------------------------------------------------------
  // The invariant
  // ---------------------------------------------------------------------------

  /** Every piece asked for has either arrived or is in flight. */
  ghost predicate Split(e: ReadEntry, flying: seq<Response>) {
    Ascending(e.issued) && multiset(e.arrived) + multiset(flying) == multiset(e.issued)
  }

  ghost predicate Waiting(w: ReadRequestInfo, e: ReadEntry, flying: seq<Response>) {
    && w.info.chunksReceived == |e.arrived|
    && w.packets == Gathered(e.arrived)
    && w.info.client == e.client && w.fd == e.fd
    && w.info.chunksExpected == (if e.finished then |e.issued| else 0)
    && (e.finished ==> e.issued != [] && flying != [])
  }

  ghost predicate ReadRequestInv(s: ReadState, id: nat) {
    && (id in s.ledger <==> id in s.inFlight)
    && (id in s.tables.active ==> id in s.ledger)
    && (id in s.ledger ==>
          && id <= s.lastId
          && Split(s.ledger[id], s.inFlight[id])
          && if id in s.tables.active then Waiting(s.tables.active[id], s.ledger[id], s.inFlight[id])
             else s.ledger[id].finished && s.ledger[id].issued != [] && s.inFlight[id] == [] && id in s.answers)
  }

  ghost predicate ReadAnswerInv(s: ReadState, i: nat) {
    i < |s.answers| == |s.tables.results| ==>
      && s.answers[i] in s.ledger
      && s.answers[i] !in s.tables.active
      && s.tables.results[i] == ResultFor(s.ledger[s.answers[i]])
  }

  /** The answer to a request: all pieces, in order. */
  function ResultFor(e: ReadEntry): ReadResult {
    ReadResult(e.client, e.fd, |Joined(e.issued)|, Joined(e.issued))
  }

  ghost predicate ReadInv(s: ReadState) {
    && (forall id :: ReadRequestInv(s, id))
    && |s.answers| == |s.tables.results|
    && (forall i :: ReadAnswerInv(s, i))
    && (forall i, j :: 0 <= i < j < |s.answers| ==> s.answers[i] != s.answers[j])
  }

  lemma ReadNeverMissing(s: ReadState, step: ReadStep)
    requires ReadInv(s) && ReadEnabled(s, step)
    ensures ReadFound(s, step)
  {
    if !step.ReadBegin? {
      assert ReadRequestInv(s, step.id);
    }
  }

  lemma SplitSizes(e: ReadEntry, flying: seq<Response>)
    requires Split(e, flying)
    ensures |e.arrived| + |flying| == |e.issued|
  {
    assert |multiset(e.arrived) + multiset(flying)| == |multiset(e.issued)|;
  }

  lemma AscendingSnoc(issued: seq<Response>, r: Response)
    requires Ascending(issued) && forall i :: 0 <= i < |issued| ==> ChunkLess(issued[i].chunk, r.chunk)
    ensures Ascending(issued + [r])
  {
  }

  lemma ReadBeginKeepsInv(s: ReadState, step: ReadStep)
    requires ReadInv(s) && step.ReadBegin? && ReadEnabled(s, step)
    ensures ReadInv(ReadNext(s, step))
  {
    var s' := ReadNext(s, step);
    assert ReadRequestInv(s, step.id);
    forall id ensures ReadRequestInv(s', id) {
      assert ReadRequestInv(s, id);
    }
    forall i ensures ReadAnswerInv(s', i) {
      assert ReadAnswerInv(s, i);
    }
  }

  lemma ReadIssueKeepsInv(s: ReadState, step: ReadStep)
    requires ReadInv(s) && step.ReadIssue? && ReadEnabled(s, step) && ReadFound(s, step)
    ensures ReadInv(ReadNext(s, step))
  {
    var s' := ReadNext(s, step);
    assert ReadRequestInv(s, step.id);
    AscendingSnoc(s.ledger[step.id].issued, step.response);
    forall id ensures ReadRequestInv(s', id) {
      assert ReadRequestInv(s, id);
    }
    forall i ensures ReadAnswerInv(s', i) {
      assert ReadAnswerInv(s, i);
    }
  }

  /** A handler has updated the entry of an active request: it keeps waiting, or it was complete,
      is answered and goes away. */
  lemma ReadHandledKeepsInv(s: ReadState, mid: ReadState, id: nat, w: ReadRequestInfo, t: ReadTables)
    requires ReadInv(s) && id in s.tables.active && id in s.ledger && id in mid.ledger && id in mid.inFlight
    requires mid.tables == s.tables.(active := s.tables.active[id := w])
    requires mid.answers == s.answers && mid.lastId == s.lastId
    requires mid.ledger == s.ledger[id := mid.ledger[id]] && mid.inFlight == s.inFlight[id := mid.inFlight[id]]
    requires Split(mid.ledger[id], mid.inFlight[id])
    requires w.info.chunksReceived == |mid.ledger[id].arrived| && w.packets == Gathered(mid.ledger[id].arrived)
    requires w.info.client == mid.ledger[id].client && w.fd == mid.ledger[id].fd
    requires w.info.chunksExpected == (if mid.ledger[id].finished then |mid.ledger[id].issued| else 0)
    requires mid.ledger[id].finished ==> mid.ledger[id].issued != []
    requires t == ReadChecked(mid.tables, id)
    ensures ReadInv(ReadHandled(mid, t, id))
  {
    var s' := ReadHandled(mid, t, id);
    var e := mid.ledger[id];
    SplitSizes(e, mid.inFlight[id]);
    assert ReadComplete(w) <==> e.finished && mid.inFlight[id] == [];
    if ReadComplete(w) {
      assert multiset(e.arrived) == multiset(e.issued) by {
        assert multiset(mid.inFlight[id]) == multiset{};
      }
      ArrivalOrderIrrelevant(e.issued, e.arrived);
    }
    forall x ensures ReadRequestInv(s', x) {
      assert ReadRequestInv(s, x);
    }
    forall i ensures ReadAnswerInv(s', i) {
      assert ReadAnswerInv(s, i);
    }
    forall i, j | 0 <= i < j < |s'.answers| ensures s'.answers[i] != s'.answers[j] {
      assert ReadAnswerInv(s, i);
    }
  }

  lemma ReadDeliverKeepsInv(s: ReadState, step: ReadStep)
    requires ReadInv(s) && step.ReadDeliver? && ReadEnabled(s, step) && ReadFound(s, step)
    ensures ReadInv(ReadNext(s, step))
  {
    var id, k := step.id, step.k;
    var pieces, e := s.inFlight[id], s.ledger[id];
    assert ReadRequestInv(s, id);
    var flying, e' := pieces[..k] + pieces[k + 1..], e.(arrived := e.arrived + [pieces[k]]);
    assert pieces == pieces[..k] + [pieces[k]] + pieces[k + 1..];
    assert e'.arrived[..|e.arrived|] == e.arrived;
    var w := Collected(s.tables.active[id], pieces[k]);
    var mid := s.(inFlight := s.inFlight[id := flying], ledger := s.ledger[id := e'],
                  tables := s.tables.(active := s.tables.active[id := w]));
    ReadHandledKeepsInv(s, mid, id, w, ReadResponded(s.tables, id, pieces[k]));
  }

  lemma ReadFinishKeepsInv(s: ReadState, step: ReadStep)
    requires ReadInv(s) && step.ReadFinish? && ReadEnabled(s, step) && ReadFound(s, step)
    ensures ReadInv(ReadNext(s, step))
  {
    var id := step.id;
    var e := s.ledger[id];
    assert ReadRequestInv(s, id);
    var w0 := s.tables.active[id];
    var w := w0.(info := w0.info.(chunksExpected := |e.issued|));
    var mid := s.(ledger := s.ledger[id := e.(finished := true)],
                  tables := s.tables.(active := s.tables.active[id := w]));
    ReadHandledKeepsInv(s, mid, id, w, ReadExpectedSet(s.tables, id, |e.issued|));
  }

  // ---------------------------------------------------------------------------
  // All runs
  // ---------------------------------------------------------------------------

  lemma ReadStepKeepsInv(s: ReadState, step: ReadStep)
    requires ReadInv(s) && ReadEnabled(s, step)
    ensures ReadFound(s, step) && ReadInv(ReadNext(s, step))
  {
    ReadNeverMissing(s, step);
    match step
    case ReadBegin(_, _, _, _) => ReadBeginKeepsInv(s, step);
    case ReadIssue(_, _) => ReadIssueKeepsInv(s, step);
    case ReadDeliver(_, _) => ReadDeliverKeepsInv(s, step);
    case ReadFinish(_) => ReadFinishKeepsInv(s, step);
  }

  ghost predicate IsReadRun(s: ReadState, steps: seq<ReadStep>, s': ReadState)
    decreases |steps|
  {
    if steps == [] then s' == s
    else ReadEnabled(s, steps[0]) && ReadFound(s, steps[0]) && IsReadRun(ReadNext(s, steps[0]), steps[1..], s')
  }

  lemma {:induction false} ReadRunKeepsInv(s: ReadState, steps: seq<ReadStep>, s': ReadState)
    requires ReadInv(s) && IsReadRun(s, steps, s')
    ensures ReadInv(s')
    decreases |steps|
  {
    if steps != [] {
      ReadStepKeepsInv(s, steps[0]);
      ReadRunKeepsInv(ReadNext(s, steps[0]), steps[1..], s');
    }
  }

  lemma ReadInitialInv()
    ensures ReadInv(ReadInitial())
  {
  }

  /** The read is answered once, with its pieces in file order, and forgotten. */
  ghost predicate ReadAnsweredOnce(s: ReadState, id: nat) {
    && id in s.ledger && id !in s.tables.active
    && exists i :: 0 <= i < |s.answers| == |s.tables.results|
         && s.answers[i] == id && s.tables.results[i] == ResultFor(s.ledger[id])
         && forall j :: 0 <= j < |s.answers| && s.answers[j] == id ==> j == i
  }

  /** In every reachable state a read has been answered if and only if all its pieces were asked
      for and arrived, whatever the order, and then it is answered once. */
  lemma ReadAnsweredInOrder(steps: seq<ReadStep>, s: ReadState, id: nat)
    requires IsReadRun(ReadInitial(), steps, s) && id in s.ledger
    ensures id in s.inFlight
    ensures id in s.answers <==> s.ledger[id].finished && s.inFlight[id] == []
    ensures id in s.answers ==> ReadAnsweredOnce(s, id)
  {
    ReadInitialInv();
    ReadRunKeepsInv(ReadInitial(), steps, s);
    ReadAnsweredByInv(s, id);
  }

  lemma ReadAnsweredByInv(s: ReadState, id: nat)
    requires ReadInv(s) && id in s.ledger
    ensures id in s.inFlight
    ensures id in s.answers <==> s.ledger[id].finished && s.inFlight[id] == []
    ensures id in s.answers ==> ReadAnsweredOnce(s, id)
  {
    assert ReadRequestInv(s, id);
    if id in s.answers {
      var i :| 0 <= i < |s.answers| && s.answers[i] == id;
      assert ReadAnswerInv(s, i);
    }
  }

  /** `s'` is reached from `s` by arrivals alone. */
  ghost predicate ByReadArrivals(s: ReadState, s': ReadState) {
    exists steps: seq<ReadStep> :: (forall i :: 0 <= i < |steps| ==> steps[i].ReadDeliver?) && IsReadRun(s, steps, s')
  }

  lemma {:induction false} ReadRunSnoc(s: ReadState, steps: seq<ReadStep>, s': ReadState, last: ReadStep)
    requires IsReadRun(s, steps, s') && ReadEnabled(s', last) && ReadFound(s', last)
    ensures IsReadRun(s, steps + [last], ReadNext(s', last))
    decreases |steps|
  {
    if steps == [] {
      assert [last][1..] == [];
    } else {
      ReadRunSnoc(ReadNext(s, steps[0]), steps[1..], s', last);
      assert (steps + [last])[1..] == steps[1..] + [last];
    }
  }

  lemma OneMoreReadArrival(s: ReadState, s': ReadState, id: nat, k: nat)
    requires ByReadArrivals(s, s') && ReadEnabled(s', ReadDeliver(id, k)) && ReadFound(s', ReadDeliver(id, k))
    ensures ByReadArrivals(s, ReadNext(s', ReadDeliver(id, k)))
  {
    var steps: seq<ReadStep> :| (forall i :: 0 <= i < |steps| ==> steps[i].ReadDeliver?) && IsReadRun(s, steps, s');
    ReadRunSnoc(s, steps, s', ReadDeliver(id, k));
    hide ReadNext, ReadEnabled, ReadFound, IsReadRun;
    assert forall i :: 0 <= i < |steps + [ReadDeliver(id, k)]| ==> (steps + [ReadDeliver(id, k)])[i].ReadDeliver?;
  }

  /** Nothing was asked for or finished; at most some pieces arrived. */
  ghost predicate ArrivedOnly(l: map<nat, ReadEntry>, l': map<nat, ReadEntry>) {
    l'.Keys == l.Keys && forall id :: id in l ==> l'[id] == l[id].(arrived := l'[id].arrived)
  }

  /** Apart from arrivals, these pieces were asked for on behalf of `id`, and nothing else. */
  ghost predicate PiecesIssued(l: map<nat, ReadEntry>, l': map<nat, ReadEntry>, id: nat, pieces: seq<Response>) {
    && l'.Keys == l.Keys
    && forall x :: x in l ==>
         l'[x] == l[x].(arrived := l'[x].arrived, issued := if x == id then l[x].issued + pieces else l[x].issued)
  }

  lemma PiecesIssuedTrans(l: map<nat, ReadEntry>, l': map<nat, ReadEntry>, l'': map<nat, ReadEntry>, id: nat,
                          a: seq<Response>, b: seq<Response>)
    requires PiecesIssued(l, l', id, a) && PiecesIssued(l', l'', id, b)
    ensures PiecesIssued(l, l'', id, a + b)
  {
  }

  // ---------------------------------------------------------------------------
  // The table in place
  // ---------------------------------------------------------------------------

  class ReadRequestTable {
    var active: map<nat, ReadRequestInfo>
    var results: seq<ReadResult>

    // the responses on their way, and what happened so far
    var inFlight: map<nat, seq<Response>>
    ghost var ledger: map<nat, ReadEntry>
    ghost var answers: seq<nat>
    ghost var lastId: nat

    function TablesNow(): ReadTables
      reads this
    {
      ReadTables(active, results)
    }

    ghost function StateNow(): ReadState
      reads this
    {
      ReadState(TablesNow(), inFlight, ledger, answers, lastId)
    }

    ghost predicate Valid()
      reads this
    {
      ReadInv(StateNow())
    }

    constructor ()
      ensures Valid() && StateNow() == ReadInitial()
    {
      active, results, inFlight := map[], [], map[];
      ledger, answers, lastId := map[], [], 0;
      new;
      ReadInitialInv();
    }

    /** Copies the pieces behind each other, in the order in which the table of pieces is walked. */
    static method Assemble(packets: map<FileChunk, seq<byte>>) returns (bytes: seq<byte>, count: nat)
      ensures bytes == Assembled(packets) && count == |bytes|
    {
      bytes, count := [], 0;
      var rest := packets;
      while rest.Keys != {}
        invariant bytes + Assembled(rest) == Assembled(packets)
        invariant count == |bytes|
        decreases rest.Keys
      {
        var first := Least(rest.Keys);
        assert (rest - {first}).Keys == rest.Keys - {first};
        bytes := bytes + rest[first];
        count := count + |rest[first]|;
        rest := rest - {first};
      }
    }

    method CheckReadComplete(id: nat)
      requires id in active
      modifies this`active, this`results
      ensures TablesNow() == ReadChecked(old(TablesNow()), id)
    {
      var w := active[id];
      if w.info.chunksExpected == 0 {
        return;
      }
      if w.info.chunksExpected == w.info.chunksReceived {
        var bytes, count := Assemble(w.packets);
        results := results + [ReadResult(w.info.client, w.fd, count, bytes)];
        active := active - {id};
      }
    }

    method ReadResponseHandler(id: nat, response: Response)
      requires id in active
      modifies this`active, this`results
      ensures TablesNow() == ReadResponded(old(TablesNow()), id, response)
    {
      var w := active[id];
      active := active[id := w.(info := w.info.(chunksReceived := w.info.chunksReceived + 1))];
      w := active[id];
      active := active[id := w.(packets := w.packets[response.chunk := response.bytes])];
      assert active == old(active)[id := Collected(old(active)[id], response)];
      CheckReadComplete(id);
    }

    /** Registers a request before any piece is asked for. */
    method BeginRequest(id: nat, client: Client, fileId: int, fd: int)
      requires Valid() && ReadEnabled(StateNow(), ReadBegin(id, client, fileId, fd))
      modifies this
      ensures Valid() && StateNow() == ReadNext(old(StateNow()), ReadBegin(id, client, fileId, fd))
      ensures active == old(active)[id := ReadRequestInfo(RequestInfo(0, 0, fileId, client), fd, map[])]
    {
      ReadStepKeepsInv(StateNow(), ReadBegin(id, client, fileId, fd));
      active := active[id := ReadRequestInfo(RequestInfo(0, 0, fileId, client), fd, map[])];
      inFlight := inFlight[id := []];
      ledger := ledger[id := ReadEntry(client, fd, [], [], false)];
      lastId := id;
    }

    /** A piece was asked for, and this is what the node will answer. */
    method PieceIssued(id: nat, response: Response)
      requires Valid() && ReadEnabled(StateNow(), ReadIssue(id, response))
      modifies this`inFlight, this`ledger
      ensures ReadFound(old(StateNow()), ReadIssue(id, response))
      ensures Valid() && StateNow() == ReadNext(old(StateNow()), ReadIssue(id, response))
    {
      ghost var s := StateNow();
      ReadStepKeepsInv(s, ReadIssue(id, response));
      inFlight := inFlight[id := inFlight[id] + [response]];
      ledger := ReadNext(s, ReadIssue(id, response)).ledger;
    }

    /** One response arrives. */
    method Arrive(id: nat, k: nat)
      requires Valid() && ReadEnabled(StateNow(), ReadDeliver(id, k))
      modifies this`inFlight, this`active, this`results, this`answers, this`ledger
      ensures ReadFound(old(StateNow()), ReadDeliver(id, k))
      ensures Valid() && StateNow() == ReadNext(old(StateNow()), ReadDeliver(id, k))
      ensures ArrivedOnly(old(ledger), ledger)
    {
      ghost var s := StateNow();
      ReadStepKeepsInv(s, ReadDeliver(id, k));
      var pieces := inFlight[id];
      inFlight := inFlight[id := pieces[..k] + pieces[k + 1..]];
      ReadResponseHandler(id, pieces[k]);
      answers, ledger := ReadNext(s, ReadDeliver(id, k)).answers, ReadNext(s, ReadDeliver(id, k)).ledger;
    }

    /** Any number of responses arrive, in any order. */
    method ArriveSome()
      requires Valid()
      modifies this`inFlight, this`active, this`results, this`answers, this`ledger
      ensures Valid() && ByReadArrivals(old(StateNow()), StateNow())
      ensures ArrivedOnly(old(ledger), ledger)
    {
      ghost var s := StateNow();
      assert IsReadRun(s, [], s);
      var n: nat := *;
      while 0 < n
        invariant Valid() && ByReadArrivals(s, StateNow())
        invariant ArrivedOnly(old(ledger), ledger) {
        var pending := set id | id in inFlight && inFlight[id] != [];
        if pending == {} {
          return;
        }
        var id :| id in pending;
        var k: nat :| k < |inFlight[id]|;
        ReadNeverMissing(StateNow(), ReadDeliver(id, k));
        OneMoreReadArrival(s, StateNow(), id, k);
        Arrive(id, k);
        n := n - 1;
      }
    }

    /** A piece is asked for; this response and others may arrive before it returns. */
    method PieceSent(id: nat, response: Response)
      requires Valid() && ReadEnabled(StateNow(), ReadIssue(id, response))
      modifies this`inFlight, this`active, this`results, this`answers, this`ledger
      ensures Valid() && PiecesIssued(old(ledger), ledger, id, [response])
    {
      PieceIssued(id, response);
      hide ReadInv;
      ArriveSome();
    }

    /** All pieces are asked for: from now on the request is complete when all are in. */
    method FinishRequest(id: nat, expected: nat)
      requires Valid() && ReadEnabled(StateNow(), ReadFinish(id)) && expected == |ledger[id].issued|
      modifies this`ledger, this`active, this`results, this`answers
      ensures ReadFound(old(StateNow()), ReadFinish(id))
      ensures Valid() && StateNow() == ReadNext(old(StateNow()), ReadFinish(id))
    {
      ghost var s := StateNow();
      ReadStepKeepsInv(s, ReadFinish(id));
      var w := active[id];
      active := active[id := w.(info := w.info.(chunksExpected := expected))];
      CheckReadComplete(id);
      ledger, answers := ReadNext(s, ReadFinish(id)).ledger, ReadNext(s, ReadFinish(id)).answers;
    }
  }
}

/** Outstanding delete requests: the file goes away with the last acknowledgement. */
module DeleteRequests {
  import opened PersistentMetadata
  import opened VolatileMetadata
  import opened Requests
  import opened LockingStrategy

  datatype DeleteResult = DeleteResult(client: Client, fileId: int)

  datatype DeleteTables = DeleteTables(active: map<nat, RequestInfo>, results: seq<DeleteResult>)

  predicate DeleteComplete(w: RequestInfo) {
    w.chunksExpected != 0 && w.chunksExpected == w.chunksReceived
  }

  function DeleteChecked(t: DeleteTables, id: nat): DeleteTables
    requires id in t.active
  {
    var w := t.active[id];
    if DeleteComplete(w) then DeleteTables(t.active - {id}, t.results + [DeleteResult(w.client, w.fileId)])
    else t
  }

  function DeleteResponded(t: DeleteTables, id: nat): DeleteTables
    requires id in t.active
  {
    var w := t.active[id];
    DeleteChecked(t.(active := t.active[id := w.(chunksReceived := w.chunksReceived + 1)]), id)
  }

  function DeleteExpectedSet(t: DeleteTables, id: nat, expected: nat): DeleteTables
    requires id in t.active
  {
    var w := t.active[id];
    DeleteChecked(t.(active := t.active[id := w.(chunksExpected := expected)]), id)
  }

  // ---------------------------------------------------------------------------
  // The table together with the network
  // ---------------------------------------------------------------------------

  /** What happened to one delete: how many copies it was issued to, and how many of these were on
      nodes that could not be reached, so that no acknowledgement will come. */
  datatype DeleteEntry = DeleteEntry(client: Client, fileId: int, issued: nat, lost: nat, finished: bool)

  /** Acknowledgements of both copies carry the same id; `inFlight` counts those still to arrive. */
  datatype DeleteState = DeleteState(tables: DeleteTables, inFlight: map<nat, nat>, ledger: map<nat, DeleteEntry>,
                                     answers: seq<nat>, lastId: nat)

  function DeleteInitial(): DeleteState {
    DeleteState(DeleteTables(map[], []), map[], map[], [], 0)
  }

  datatype DeleteStep =
    | DeleteBegin(id: nat, client: Client, fileId: int)
    | DeleteIssue(id: nat, reached: bool)
    | DeleteDeliver(id: nat)
    | DeleteFinish(id: nat)

  ghost predicate DeleteEnabled(s: DeleteState, step: DeleteStep) {
    match step
    case DeleteBegin(id, _, _) => s.lastId < id
    case DeleteIssue(id, _) => id in s.ledger && !s.ledger[id].finished
    case DeleteDeliver(id) => id in s.inFlight && 0 < s.inFlight[id]
    case DeleteFinish(id) => id in s.ledger && !s.ledger[id].finished && 0 < s.ledger[id].issued
  }

  function CountDelete(e: DeleteEntry, reached: bool): DeleteEntry {
    e.(issued := e.issued + 1, lost := e.lost + if reached then 0 else 1)
  }

  ghost predicate DeleteFound(s: DeleteState, step: DeleteStep) {
    match step
    case DeleteBegin(_, _, _) => true
    case DeleteIssue(id, _) => id in s.inFlight
    case DeleteDeliver(id) => id in s.tables.active
    case DeleteFinish(id) => id in s.tables.active
  }

  function DeleteHandled(s: DeleteState, t: DeleteTables, id: nat): DeleteState {
    s.(tables := t, answers := if |t.results| > |s.tables.results| then s.answers + [id] else s.answers)
  }

  ghost function DeleteNext(s: DeleteState, step: DeleteStep): DeleteState
    requires DeleteEnabled(s, step) && DeleteFound(s, step)
  {
    match step
    case DeleteBegin(id, client, fileId) =>
      s.(tables := s.tables.(active := s.tables.active[id := RequestInfo(0, 0, fileId, client)]),
         inFlight := s.inFlight[id := 0], ledger := s.ledger[id := DeleteEntry(client, fileId, 0, 0, false)],
           lastId := id)
    case DeleteIssue(id, reached) =>
      s.(inFlight := s.inFlight[id := s.inFlight[id] + if reached then 1 else 0],
         ledger := s.ledger[id := CountDelete(s.ledger[id], reached)])
    case DeleteDeliver(id) =>
      DeleteHandled(s.(inFlight := s.inFlight[id := s.inFlight[id] - 1]), DeleteResponded(s.tables, id), id)
    case DeleteFinish(id) =>
      DeleteHandled(s.(ledger := s.ledger[id := s.ledger[id].(finished := true)]),
                    DeleteExpectedSet(s.tables, id, s.ledger[id].issued), id)
  }

  // ---------------------------------------------------------------------------
  // The invariant
  // ---------------------------------------------------------------------------

  ghost predicate Pending(w: RequestInfo, e: DeleteEntry, flying: nat) {
    && w.client == e.client && w.fileId == e.fileId
    && w.chunksReceived + flying + e.lost == e.issued
    && w.chunksExpected == (if e.finished then e.issued else 0)
    && (e.finished ==> 0 < flying + e.lost)
  }

  ghost predicate DeleteRequestInv(s: DeleteState, id: nat) {
    && (id in s.ledger <==> id in s.inFlight)
    && (id in s.tables.active ==> id in s.ledger)
    && (id in s.ledger ==>
          && id <= s.lastId
          && if id in s.tables.active then Pending(s.tables.active[id], s.ledger[id], s.inFlight[id])
             else
               && s.ledger[id].finished && 0 < s.ledger[id].issued && s.ledger[id].lost == 0
               && s.inFlight[id] == 0 && id in s.answers)
  }

  ghost predicate DeleteAnswerInv(s: DeleteState, i: nat) {
    i < |s.answers| == |s.tables.results| ==>
      && s.answers[i] in s.ledger
      && s.answers[i] !in s.tables.active
      && s.tables.results[i] == DeleteResult(s.ledger[s.answers[i]].client, s.ledger[s.answers[i]].fileId)
  }

  ghost predicate DeleteInv(s: DeleteState) {
    && (forall id :: DeleteRequestInv(s, id))
    && |s.answers| == |s.tables.results|
    && (forall i :: DeleteAnswerInv(s, i))
    && (forall i, j :: 0 <= i < j < |s.answers| ==> s.answers[i] != s.answers[j])
  }

  lemma DeleteStepKeepsInv(s: DeleteState, step: DeleteStep)
    requires DeleteInv(s) && DeleteEnabled(s, step)
    ensures DeleteFound(s, step) && DeleteInv(DeleteNext(s, step))
  {
    assert DeleteRequestInv(s, step.id);
    var s' := DeleteNext(s, step);
    forall id ensures DeleteRequestInv(s', id) {
      assert DeleteRequestInv(s, id);
    }
    forall i ensures DeleteAnswerInv(s', i) {
      assert DeleteAnswerInv(s, i);
    }
    forall i, j | 0 <= i < j < |s'.answers| ensures s'.answers[i] != s'.answers[j] {
      assert DeleteAnswerInv(s, i);
    }
  }

  lemma ActiveDeletesOld(s: DeleteState)
    requires DeleteInv(s)
    ensures forall id :: id in s.tables.active ==> id <= s.lastId
  {
    assert forall id :: id in s.tables.active ==> DeleteRequestInv(s, id);
  }

  // ---------------------------------------------------------------------------
  // All runs
  // ---------------------------------------------------------------------------

  ghost predicate IsDeleteRun(s: DeleteState, steps: seq<DeleteStep>, s': DeleteState)
    decreases |steps|
  {
    if steps == [] then s' == s
    else DeleteEnabled(s, steps[0]) && DeleteFound(s, steps[0]) && IsDeleteRun(DeleteNext(s, steps[0]), steps[1..], s')
  }

  lemma {:induction false} DeleteRunKeepsInv(s: DeleteState, steps: seq<DeleteStep>, s': DeleteState)
    requires DeleteInv(s) && IsDeleteRun(s, steps, s')
    ensures DeleteInv(s')
    decreases |steps|
  {
    if steps != [] {
      DeleteStepKeepsInv(s, steps[0]);
      DeleteRunKeepsInv(DeleteNext(s, steps[0]), steps[1..], s');
    }
  }

  lemma DeleteInitialInv()
    ensures DeleteInv(DeleteInitial())
  {
  }

  /** The delete is answered once and forgotten. */
  ghost predicate DeleteAnsweredOnce(s: DeleteState, id: nat) {
    && id in s.ledger && id !in s.tables.active
    && exists i :: 0 <= i < |s.answers| == |s.tables.results| && s.answers[i] == id
         && s.tables.results[i] == DeleteResult(s.ledger[id].client, s.ledger[id].fileId)
         && forall j :: 0 <= j < |s.answers| && s.answers[j] == id ==> j == i
  }

  /** In every reachable state a delete has been answered if and only if it was issued to all copies,
      none of them was out of reach, and the last one has acknowledged it; and then it was answered once. */
  lemma DeletedOnceAfterLastAck(steps: seq<DeleteStep>, s: DeleteState, id: nat)
    requires IsDeleteRun(DeleteInitial(), steps, s) && id in s.ledger
    ensures id in s.inFlight
    ensures id in s.answers <==> s.ledger[id].finished && s.inFlight[id] == 0 && s.ledger[id].lost == 0
    ensures id in s.answers ==> DeleteAnsweredOnce(s, id)
  {
    DeleteInitialInv();
    DeleteRunKeepsInv(DeleteInitial(), steps, s);
    DeleteAnsweredByInv(s, id);
  }

  lemma DeleteAnsweredByInv(s: DeleteState, id: nat)
    requires DeleteInv(s) && id in s.ledger
    ensures id in s.inFlight
    ensures id in s.answers <==> s.ledger[id].finished && s.inFlight[id] == 0 && s.ledger[id].lost == 0
    ensures id in s.answers ==> DeleteAnsweredOnce(s, id)
  {
    assert DeleteRequestInv(s, id);
    if id in s.answers {
      var i :| 0 <= i < |s.answers| && s.answers[i] == id;
      assert DeleteAnswerInv(s, i);
    }
  }

  // ---------------------------------------------------------------------------
  // The table in place
  // ---------------------------------------------------------------------------

  /** The last acknowledgement takes the file out of both indexes and frees its lock; any other
      acknowledgement leaves them alone. */
  ghost predicate FileGone(done: bool, fileId: int, client: Client, files: map<int, FileInfo>,
                           files': map<int, FileInfo>, locks: map<int, FileLock>, locks': map<int, FileLock>) {
    if done then
      && files' == files - {fileId}
      && (Holds(locks, client, fileId, Exclusive) ==> locks' == locks - {fileId})
    else
      files' == files && locks' == locks
  }

  /** The files that these answers are about. */
  function FilesOf(results: seq<DeleteResult>): set<int> {
    set i | 0 <= i < |results| :: results[i].fileId
  }

  /** Every pending delete holds its file exclusively; so no two of them delete the same file. */
  ghost predicate DeletesHold(active: map<nat, RequestInfo>, locks: map<int, FileLock>) {
    && (forall id :: id in active ==> Holds(locks, active[id].client, active[id].fileId, Exclusive))
    && (forall id, id' :: id in active && id' in active && id != id' ==> active[id].fileId != active[id'].fileId)
  }

  /** Some deletes are completed, none is added. */
  ghost predicate FewerDeletes(active: map<nat, RequestInfo>, active': map<nat, RequestInfo>) {
    forall id :: id in active' ==>
      id in active && active'[id].client == active[id].client && active'[id].fileId == active[id].fileId
  }

  /** The files of the deletes that were completed are in `gone`. */
  ghost predicate CompletedIn(active: map<nat, RequestInfo>, active': map<nat, RequestInfo>, gone: set<int>) {
    forall id :: id in active && id !in active' ==> active[id].fileId in gone
  }

  lemma CompletedTrans(active: map<nat, RequestInfo>, active': map<nat, RequestInfo>, active'': map<nat, RequestInfo>,
                       gone: set<int>, gone': set<int>)
    requires FewerDeletes(active, active') && CompletedIn(active, active', gone)
             && CompletedIn(active', active'', gone')
    ensures CompletedIn(active, active'', gone + gone')
  {
  }

  /** The files that are being deleted. */
  function ActiveFiles(active: map<nat, RequestInfo>): set<int> {
    set id | id in active :: active[id].fileId
  }

  /** While deletes went on, the files of those that were completed went away, and so did their
      locks if they were held as they should. */
  ghost predicate OnlyDeletesSince(t: DeleteTables, t': DeleteTables, files: map<int, FileInfo>,
                                   files': map<int, FileInfo>, locks: map<int, FileLock>, locks': map<int, FileLock>) {
    && t.results <= t'.results
    && FewerDeletes(t.active, t'.active)
    && FilesOf(t'.results[|t.results|..]) <= ActiveFiles(t.active)
    && CompletedIn(t.active, t'.active, FilesOf(t'.results[|t.results|..]))
    && files' == files - FilesOf(t'.results[|t.results|..])
    && (DeletesHold(t.active, locks) ==>
          DeletesHold(t'.active, locks') && locks' == locks - FilesOf(t'.results[|t.results|..]))
  }

  lemma NothingSince(t: DeleteTables, files: map<int, FileInfo>, locks: map<int, FileLock>)
    ensures OnlyDeletesSince(t, t, files, files, locks, locks)
  {
  }

  lemma OnlyDeletesTrans(t: DeleteTables, t': DeleteTables, t'': DeleteTables,
                         files: map<int, FileInfo>, files': map<int, FileInfo>, files'': map<int, FileInfo>,
                         locks: map<int, FileLock>, locks': map<int, FileLock>, locks'': map<int, FileLock>)
    requires OnlyDeletesSince(t, t', files, files', locks, locks')
    requires OnlyDeletesSince(t', t'', files', files'', locks', locks'')
    ensures OnlyDeletesSince(t, t'', files, files'', locks, locks'')
  {
    hide CompletedIn, FilesOf, DeletesHold;
    var a, b := t'.results[|t.results|..], t''.results[|t'.results|..];
    CompletedTrans(t.active, t'.active, t''.active, FilesOf(a), FilesOf(b));
    assert t''.results[|t.results|..] == a + b;
    FilesOfConcat(a, b);
    assert files'' == files - FilesOf(a) - FilesOf(b) == files - (FilesOf(a) + FilesOf(b));
    assert ActiveFiles(t'.active) <= ActiveFiles(t.active);
    if DeletesHold(t.active, locks) {
      assert locks'' == locks - FilesOf(a) - FilesOf(b) == locks - (FilesOf(a) + FilesOf(b));
    }
  }

  lemma FilesOfConcat(a: seq<DeleteResult>, b: seq<DeleteResult>)
    ensures FilesOf(a + b) == FilesOf(a) + FilesOf(b)
  {
    forall f ensures f in FilesOf(a + b) <==> f in FilesOf(a) + FilesOf(b) {
      if f in FilesOf(a) {
        var i :| 0 <= i < |a| && a[i].fileId == f;
        assert (a + b)[i].fileId == f;
      }
      if f in FilesOf(b) {
        var i :| 0 <= i < |b| && b[i].fileId == f;
        assert (a + b)[|a| + i].fileId == f;
      }
    }
  }

  /** A handler has changed how much request `id` expects or has received; it goes on, or it was
      complete and is answered. */
  lemma HandledSince(t: DeleteTables, id: nat, w: RequestInfo, files: map<int, FileInfo>, files': map<int, FileInfo>,
                     locks: map<int, FileLock>, locks': map<int, FileLock>)
    requires id in t.active && w.client == t.active[id].client && w.fileId == t.active[id].fileId
    requires FileGone(DeleteComplete(w), w.fileId, w.client, files, files', locks, locks')
    ensures OnlyDeletesSince(t, DeleteChecked(t.(active := t.active[id := w]), id), files, files', locks, locks')
  {
    var t' := DeleteChecked(t.(active := t.active[id := w]), id);
    var answers := t'.results[|t.results|..];
    if DeleteComplete(w) {
      assert answers == [DeleteResult(w.client, w.fileId)];
      assert FilesOf(answers) == {w.fileId} by {
        assert answers[0].fileId in FilesOf(answers);
      }
    } else {
      NothingSince(t, files, locks);
    }
  }

  class DeleteRequestTable {
    const files: PersistentMetadataTable
    const locks: LockTable
    var active: map<nat, RequestInfo>
    var results: seq<DeleteResult>

    // the acknowledgements on their way, and what happened so far
    var inFlight: map<nat, nat>
    ghost var ledger: map<nat, DeleteEntry>
    ghost var answers: seq<nat>
    ghost var lastId: nat

    function TablesNow(): DeleteTables
      reads this
    {
      DeleteTables(active, results)
    }

    ghost function StateNow(): DeleteState
      reads this
    {
      DeleteState(TablesNow(), inFlight, ledger, answers, lastId)
    }

    ghost predicate Valid()
      reads this, files
    {
      && DeleteInv(StateNow()) && files.Valid()
      && forall id :: id in active ==> Proper(active[id].client)
    }

    constructor (files: PersistentMetadataTable, locks: LockTable)
      requires files.Valid()
      ensures Valid() && StateNow() == DeleteInitial() && this.files == files && this.locks == locks
    {
      this.files, this.locks := files, locks;
      active, results, inFlight := map[], [], map[];
      ledger, answers, lastId := map[], [], 0;
      new;
      DeleteInitialInv();
    }

    method CheckDeleteComplete(id: nat)
      requires id in active && Proper(active[id].client) && files.Valid()
      modifies this`active, this`results, files`metadata, files`pathnameToFileId, locks
      ensures TablesNow() == DeleteChecked(old(TablesNow()), id)
      ensures files.Valid() && (old(locks.Valid()) ==> locks.Valid())
      ensures FileGone(DeleteComplete(old(active)[id]), old(active)[id].fileId, old(active)[id].client,
                       old(files.metadata), files.metadata, old(locks.fileLocks), locks.fileLocks)
    {
      var w := active[id];
      if w.chunksExpected == 0 {
        return;
      }
      if w.chunksExpected == w.chunksReceived {
        results := results + [DeleteResult(w.client, w.fileId)];
        var r := files.DeleteFileContents(w.fileId);
        var released := locks.ReleaseLock(w.client, w.fileId);
        active := active - {id};
      }
    }

    method DeleteResponseHandler(id: nat)
      requires id in active && Proper(active[id].client) && files.Valid()
      modifies this`active, this`results, files`metadata, files`pathnameToFileId, locks
      ensures TablesNow() == DeleteResponded(old(TablesNow()), id)
      ensures files.Valid() && (old(locks.Valid()) ==> locks.Valid())
      ensures FileGone(|results| > |old(results)|, old(active)[id].fileId, old(active)[id].client,
                       old(files.metadata), files.metadata, old(locks.fileLocks), locks.fileLocks)
    {
      active := active[id := active[id].(chunksReceived := active[id].chunksReceived + 1)];
      CheckDeleteComplete(id);
    }

    /** Registers a request before anything is sent. */
    method BeginRequest(id: nat, client: Client, fileId: int)
      requires Valid() && Proper(client) && DeleteEnabled(StateNow(), DeleteBegin(id, client, fileId))
      modifies this
      ensures Valid() && StateNow() == DeleteNext(old(StateNow()), DeleteBegin(id, client, fileId))
      ensures active == old(active)[id := RequestInfo(0, 0, fileId, client)]
    {
      DeleteStepKeepsInv(StateNow(), DeleteBegin(id, client, fileId));
      active := active[id := RequestInfo(0, 0, fileId, client)];
      inFlight := inFlight[id := 0];
      ledger := ledger[id := DeleteEntry(client, fileId, 0, 0, false)];
      lastId := id;
    }

    /** A delete is on its way to one copy of one chunk, or its node could not be reached. */
    method CopyIssued(id: nat, reached: bool)
      requires Valid() && DeleteEnabled(StateNow(), DeleteIssue(id, reached))
      modifies this`inFlight, this`ledger
      ensures DeleteFound(old(StateNow()), DeleteIssue(id, reached))
      ensures Valid() && StateNow() == DeleteNext(old(StateNow()), DeleteIssue(id, reached))
    {
      ghost var s := StateNow();
      DeleteStepKeepsInv(s, DeleteIssue(id, reached));
      if reached {
        inFlight := inFlight[id := inFlight[id] + 1];
      }
      assert inFlight == s.inFlight[id := s.inFlight[id] + if reached then 1 else 0];
      ledger := DeleteNext(s, DeleteIssue(id, reached)).ledger;
    }

    /** One acknowledgement arrives. */
    method Arrive(id: nat)
      requires Valid() && DeleteEnabled(StateNow(), DeleteDeliver(id))
      modifies this`inFlight, this`active, this`results, this`answers, files`metadata, files`pathnameToFileId, locks
      ensures DeleteFound(old(StateNow()), DeleteDeliver(id))
      ensures Valid() && StateNow() == DeleteNext(old(StateNow()), DeleteDeliver(id))
      ensures OnlyDeletesSince(old(TablesNow()), TablesNow(), old(files.metadata), files.metadata,
                               old(locks.fileLocks), locks.fileLocks)
      ensures old(locks.Valid()) ==> locks.Valid()
    {
      hide DeleteInv, OnlyDeletesSince, FileGone, MutuallyInverse, AllConsistent;
      ghost var s := StateNow();
      DeleteStepKeepsInv(s, DeleteDeliver(id));
      ghost var w := active[id].(chunksReceived := active[id].chunksReceived + 1);
      inFlight := inFlight[id := inFlight[id] - 1];
      DeleteResponseHandler(id);
      HandledSince(s.tables, id, w, old(files.metadata), files.metadata, old(locks.fileLocks), locks.fileLocks);
      answers := DeleteNext(s, DeleteDeliver(id)).answers;
    }

    /** Any number of acknowledgements arrive, in any order. */
    method ArriveSome()
      requires Valid()
      modifies this`inFlight, this`active, this`results, this`answers, files`metadata, files`pathnameToFileId, locks
      ensures Valid() && ledger == old(ledger) && lastId == old(lastId)
      ensures OnlyDeletesSince(old(TablesNow()), TablesNow(), old(files.metadata), files.metadata,
                               old(locks.fileLocks), locks.fileLocks)
      ensures old(locks.Valid()) ==> locks.Valid()
    {
      hide DeleteInv, OnlyDeletesSince, FileGone;
      NothingSince(TablesNow(), files.metadata, locks.fileLocks);
      var n: nat := *;
      while 0 < n
        invariant Valid() && ledger == old(ledger) && lastId == old(lastId)
        invariant OnlyDeletesSince(old(TablesNow()), TablesNow(), old(files.metadata), files.metadata,
                                   old(locks.fileLocks), locks.fileLocks)
        invariant old(locks.Valid()) ==> locks.Valid() {
        var pending := set id | id in inFlight && 0 < inFlight[id];
        if pending == {} {
          return;
        }
        var id :| id in pending;
        ghost var t, metadata, fileLocks := TablesNow(), files.metadata, locks.fileLocks;
        Arrive(id);
        OnlyDeletesTrans(old(TablesNow()), t, TablesNow(), old(files.metadata), metadata, files.metadata,
                         old(locks.fileLocks), fileLocks, locks.fileLocks);
        n := n - 1;
      }
    }

    /** A delete goes out, if the node can be reached; acknowledgements of this and of other copies may
        arrive before it returns. */
    method CopySent(id: nat, reached: bool)
      requires Valid() && id in ledger && !ledger[id].finished
      modifies this`inFlight, this`ledger, this`active, this`results, this`answers
      modifies files`metadata, files`pathnameToFileId, locks
      ensures Valid() && lastId == old(lastId)
      ensures ledger == old(ledger)[id := CountDelete(old(ledger)[id], reached)]
      ensures OnlyDeletesSince(old(TablesNow()), TablesNow(), old(files.metadata), files.metadata,
                               old(locks.fileLocks), locks.fileLocks)
      ensures old(locks.Valid()) ==> locks.Valid()
    {
      CopyIssued(id, reached);
      hide DeleteInv, OnlyDeletesSince;
      ArriveSome();
    }

    /** Everything is sent: from now on the request is complete when all acknowledgements are in. */
    method FinishRequest(id: nat, expected: nat)
      requires Valid() && DeleteEnabled(StateNow(), DeleteFinish(id)) && expected == ledger[id].issued
      modifies this`ledger, this`active, this`results, this`answers, files`metadata, files`pathnameToFileId, locks
      ensures DeleteFound(old(StateNow()), DeleteFinish(id))
      ensures Valid() && StateNow() == DeleteNext(old(StateNow()), DeleteFinish(id))
      ensures OnlyDeletesSince(old(TablesNow()), TablesNow(), old(files.metadata), files.metadata,
                               old(locks.fileLocks), locks.fileLocks)
      ensures old(locks.Valid()) ==> locks.Valid()
    {
      hide DeleteInv, OnlyDeletesSince, FileGone, MutuallyInverse, AllConsistent;
      ghost var s := StateNow();
      DeleteStepKeepsInv(s, DeleteFinish(id));
      ghost var w := active[id].(chunksExpected := expected);
      active := active[id := active[id].(chunksExpected := expected)];
      CheckDeleteComplete(id);
      HandledSince(s.tables, id, w, old(files.metadata), files.metadata, old(locks.fileLocks), locks.fileLocks);
      ledger, answers := DeleteNext(s, DeleteFinish(id)).ledger, DeleteNext(s, DeleteFinish(id)).answers;
    }
  }
}


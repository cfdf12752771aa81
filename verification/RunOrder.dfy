/** Runs in which nobody shares a file that a process of the same user holds exclusively: what becomes of
    files that are deleted. */
module RunOrder {
  import opened FileChunks
  import opened PersistentMetadata
  import opened VolatileMetadata
  import opened LockingStrategy
  import opened Requests
  import opened DeleteRequests
  import opened OpenFiles
  import opened IoManager
  import opened FlatFile
  import opened BaristaState
  import opened RunLog

  /** The file is deleted or being deleted. */
  ghost predicate Gone(v: View, f: int) {
    0 < f <= v.nextFileId && (f in v.files ==> f in ActiveFiles(v.deletes))
  }

  /** The file exists and is not being deleted, or is still to be made. */
  ghost predicate Live(v: View, f: int) {
    f !in ActiveFiles(v.deletes) && (f in v.files || v.nextFileId < f)
  }

  ghost predicate LivePaired(v: View) {
    forall f :: Live(v, f) ==> Paired(v.io, f)
  }

  ghost predicate Numbered(v: View) {
    forall f :: f in v.files ==> 0 < f <= v.nextFileId
  }

  /** Cursors, locks and pending deletes are in step, and every chunk of a file that is not being
      deleted has a primary if and only if it has a replica. */
  ghost predicate InOrder(v: View) {
    LocksMatch(v.cursors, v.files, v.locks, v.deletes) && Numbered(v) && LivePaired(v)
  }

  /** What is left of a file that was deleted by request `id`: its entry and its lock until the request
      is answered and nothing after, and in the chunk tables the copies `left`, for ever. */
  ghost predicate IsBuried(v: View, id: nat, f: int, left: Copies) {
    && 0 < f <= v.nextFileId
    && (f in v.files ==> id in v.deletes && v.deletes[id].fileId == f)
    && (f !in v.files ==> f !in v.locks)
    && CopiesOf(v.io, f) == left
  }

  ghost predicate Buried(v: View, log: seq<Outcome>, i: nat) {
    i < |log| && log[i].Removed? ==>
      IsBuried(v, log[i].requestId, log[i].fileId, OnNodesDown(log[i].copies, log[i].up))
  }

  function RemovedFiles(log: seq<Outcome>): set<int> {
    set i | 0 <= i < |log| && log[i].Removed? :: log[i].fileId
  }

  function RemovedBy(e: Outcome): set<int> {
    if e.Removed? then {e.fileId} else {}
  }

  /** Every chunk in the tables belongs to a file that exists or was deleted, and every delete that is
      pending is in the log. */
  ghost predicate MappedKnown(v: View, removed: set<int>) {
    && (forall c :: c in v.io.nodes || c in v.io.replicas ==> c.fileId in v.files || c.fileId in removed)
    && (forall f :: f in ActiveFiles(v.deletes) ==> f in removed)
  }

  ghost predicate Orderly(v: View, log: seq<Outcome>) {
    InOrder(v) && MappedKnown(v, RemovedFiles(log)) && forall i: nat :: Buried(v, log, i)
  }

  // ---------------------------------------------------------------------------
  // What steps keep
  // ---------------------------------------------------------------------------

  /** Files do not come back, deletes go on until the file is gone, its lock goes with it, and nobody
      touches the chunks of a file that is gone or on its way. */
  ghost predicate OrderKept(v: View, v': View) {
    && v.nextFileId <= v'.nextFileId
    && (forall f :: f in v'.files ==> f in v.files || v.nextFileId < f)
    && (forall id :: id in v.deletes && v.deletes[id].fileId in v'.files ==>
          id in v'.deletes && v'.deletes[id].fileId == v.deletes[id].fileId)
    && (forall f :: Gone(v, f) && f !in v'.files && (f !in v.files ==> f !in v.locks) ==> f !in v'.locks)
    && (forall f :: Gone(v, f) ==> CopiesOf(v'.io, f) == CopiesOf(v.io, f))
  }

  /** New chunks belong to files that exist, and files go away only by deletes. */
  ghost predicate MappedStep(v: View, v': View, removed: set<int>) {
    && (forall c :: c in v'.io.nodes || c in v'.io.replicas ==>
          c in v.io.nodes || c in v.io.replicas || c.fileId in v'.files)
    && (forall f :: f in v.files && f !in v'.files ==> f in ActiveFiles(v.deletes) || f in removed)
    && (forall f :: f in ActiveFiles(v'.deletes) ==> f in ActiveFiles(v.deletes) || f in removed)
  }

  ghost predicate OrderStep(v: View, v': View, e: Outcome) {
    && OrderKept(v, v') && InOrder(v') && MappedStep(v, v', RemovedBy(e))
    && (e.Removed? ==> IsBuried(v', e.requestId, e.fileId, OnNodesDown(e.copies, e.up)))
  }

  lemma BuriedKept(v: View, v': View, id: nat, f: int, left: Copies)
    requires OrderKept(v, v') && IsBuried(v, id, f, left)
    ensures IsBuried(v', id, f, left)
  {
    assert f in v.files ==> f in ActiveFiles(v.deletes);
    assert Gone(v, f);
  }

  lemma MappedKept(v: View, v': View, known: set<int>, removed: set<int>)
    requires MappedKnown(v, known) && MappedStep(v, v', removed)
    ensures MappedKnown(v', known + removed)
  {
    hide ActiveFiles;
  }

  lemma RemovedFilesSnoc(log: seq<Outcome>, e: Outcome)
    ensures RemovedFiles(log + [e]) == RemovedFiles(log) + RemovedBy(e)
  {
    var log' := log + [e];
    forall f ensures f in RemovedFiles(log') <==> f in RemovedFiles(log) + RemovedBy(e) {
      if f in RemovedFiles(log) {
        var i :| 0 <= i < |log| && log[i].Removed? && log[i].fileId == f;
        assert log'[i].Removed? && log'[i].fileId == f;
      }
      if e.Removed? {
        assert log'[|log|].fileId in RemovedFiles(log');
      }
    }
  }

  lemma StepOrderly(v: View, v': View, log: seq<Outcome>, e: Outcome)
    requires Orderly(v, log) && OrderStep(v, v', e)
    ensures Orderly(v', log + [e])
  {
    hide IsBuried, InOrder, OrderKept, MappedKnown, MappedStep, RemovedFiles;
    var log' := log + [e];
    RemovedFilesSnoc(log, e);
    MappedKept(v, v', RemovedFiles(log), RemovedBy(e));
    forall i: nat ensures Buried(v', log', i) {
      if i < |log| {
        assert Buried(v, log, i);
        if log[i].Removed? {
          BuriedKept(v, v', log[i].requestId, log[i].fileId, OnNodesDown(log[i].copies, log[i].up));
        }
      }
    }
  }

  lemma QuietOrderly(v: View, v': View, log: seq<Outcome>)
    requires Orderly(v, log) && OrderStep(v, v', Nothing)
    ensures Orderly(v', log)
  {
    hide IsBuried, InOrder, OrderKept, MappedKnown, MappedStep, RemovedFiles;
    MappedKept(v, v', RemovedFiles(log), {});
    assert RemovedFiles(log) + {} == RemovedFiles(log);
    forall i: nat ensures Buried(v', log, i) {
      assert Buried(v, log, i);
      if i < |log| && log[i].Removed? {
        BuriedKept(v, v', log[i].requestId, log[i].fileId, OnNodesDown(log[i].copies, log[i].up));
      }
    }
  }

  /** No chunk is placed or taken away, and no delete begins or ends. */
  lemma UntouchedOrder(v: View, v': View)
    requires InOrder(v) && LocksMatch(v'.cursors, v'.files, v'.locks, v'.deletes) && Numbered(v')
    requires v'.io.nodes == v.io.nodes && v'.io.replicas == v.io.replicas && v'.deletes == v.deletes
    requires v.nextFileId <= v'.nextFileId && forall f :: f in v.files ==> f in v'.files
    requires forall f :: f in v'.files ==> f in v.files || v.nextFileId < f
    requires forall f :: 0 < f && f in v'.locks ==> f in v.locks || f in v'.files
    ensures OrderStep(v, v', Nothing)
  {
    hide LocksMatch;
    forall f ensures CopiesOf(v'.io, f) == CopiesOf(v.io, f) && (Paired(v.io, f) ==> Paired(v'.io, f)) {
    }
    forall f | Live(v', f) ensures Paired(v'.io, f) {
      assert Live(v, f);
    }
  }

  /** A file that exists and is not being deleted is written. */
  lemma WriteOrder(v: View, v': View, f: int)
    requires InOrder(v) && f in v.files && f !in ActiveFiles(v.deletes)
    requires LocksMatch(v'.cursors, v'.files, v'.locks, v'.deletes)
    requires v'.files.Keys == v.files.Keys && v'.deletes == v.deletes && v'.locks == v.locks
             && v'.nextFileId == v.nextFileId
    requires TouchesOnly(v.io, v'.io, f) && (Paired(v.io, f) ==> Paired(v'.io, f))
    ensures OrderStep(v, v', Nothing)
  {
    hide LocksMatch;
    assert forall x :: x in v'.files <==> x in v'.files.Keys;
    forall x | x != f ensures CopiesOf(v'.io, x) == CopiesOf(v.io, x) && (Paired(v.io, x) ==> Paired(v'.io, x)) {
      TouchedKeep(v.io, v'.io, f, x);
    }
    hide TouchesOnly, CopiesOf;
    forall x | Live(v', x) ensures Paired(v'.io, x) {
      assert Live(v, x);
    }
  }

  /** Deletes were acknowledged. */
  lemma ResponsesOrder(v: View, v': View, t: DeleteTables, t': DeleteTables)
    requires InOrder(v) && LocksMatch(v'.cursors, v'.files, v'.locks, v'.deletes)
    requires t.active == v.deletes && t'.active == v'.deletes
    requires OnlyDeletesSince(t, t', v.files, v'.files, v.locks, v'.locks)
    requires v'.nextFileId == v.nextFileId && v'.io.nodes == v.io.nodes && v'.io.replicas == v.io.replicas
    ensures OrderStep(v, v', Nothing)
  {
    var gone := FilesOf(t'.results[|t.results|..]);
    DeletesGoOn(t, t', v.files, v'.files, v.locks, v'.locks);
    assert DeletesHold(t.active, v.locks);
    assert v'.files == v.files - gone && v'.locks == v.locks - gone;
    assert gone <= ActiveFiles(v.deletes) && ActiveFiles(v'.deletes) <= ActiveFiles(v.deletes);
    assert forall f :: f in ActiveFiles(v.deletes) ==> f in v.files;
    hide LocksMatch, OnlyDeletesSince, FilesOf, DeletesHold;
    forall f ensures CopiesOf(v'.io, f) == CopiesOf(v.io, f) && (Paired(v.io, f) ==> Paired(v'.io, f)) {
    }
    hide CopiesOf, Paired;
    forall f | Live(v', f) ensures Paired(v'.io, f) {
      if f in v'.files && f in ActiveFiles(v.deletes) {
        StillDeleted(v.deletes, v'.deletes, v'.files, f);
      }
      assert Live(v, f);
    }
  }

  /** A delete of a file that still exists is still pending. */
  lemma DeletesGoOn(t: DeleteTables, t': DeleteTables, files: map<int, FileInfo>, files': map<int, FileInfo>,
                    locks: map<int, FileLock>, locks': map<int, FileLock>)
    requires OnlyDeletesSince(t, t', files, files', locks, locks')
    ensures GoOn(t.active, t'.active, files')
  {
  }

  ghost predicate GoOn(deletes: map<nat, RequestInfo>, deletes': map<nat, RequestInfo>, files': map<int, FileInfo>) {
    forall id :: id in deletes && deletes[id].fileId in files' ==>
      id in deletes' && deletes'[id].fileId == deletes[id].fileId
  }

  lemma StillDeleted(deletes: map<nat, RequestInfo>, deletes': map<nat, RequestInfo>, files': map<int, FileInfo>,
                     f: int)
    requires GoOn(deletes, deletes', files') && f in files' && f in ActiveFiles(deletes)
    ensures f in ActiveFiles(deletes')
  {
  }

  /** A delete is accepted: `t` are the tables once it is registered, `locks` once the file is locked. */
  lemma DeleteOrder(v: View, v': View, id: nat, f: int, client: Client, t: DeleteTables, t': DeleteTables, up: seq<int>)
    requires InOrder(v) && f in v.files && f !in ActiveFiles(v.deletes) && id !in v.deletes && Proper(client)
    requires LocksMatch(v'.cursors, v'.files, v'.locks, v'.deletes) && Unheld(v.locks, f)
    requires t.active == v.deletes[id := RequestInfo(0, 0, f, client)] && t'.active == v'.deletes
    requires OnlyDeletesSince(t, t', v.files, v'.files, Granted(v.locks, f, client, Exclusive), v'.locks)
    requires v'.nextFileId == v.nextFileId
    requires TouchesOnly(v.io, v'.io, f)
    requires Paired(v.io, f) ==> CopiesOf(v'.io, f) == OnNodesDown(CopiesOf(v.io, f), up)
    ensures OrderKept(v, v') && InOrder(v') && MappedStep(v, v', {f})
    ensures IsBuried(v', id, f, OnNodesDown(CopiesOf(v.io, f), up))
  {
    hide LocksMatch, OnlyDeletesSince, Granted, Unheld, GoOn, ActiveFiles, OnNodesDown;
    var gone := DeleteFacts(v, v', id, f, client, t, t');
    assert Live(v, f);
    forall x | x != f ensures CopiesOf(v'.io, x) == CopiesOf(v.io, x) && (Paired(v.io, x) ==> Paired(v'.io, x)) {
      TouchedKeep(v.io, v'.io, f, x);
    }
    hide TouchesOnly, CopiesOf, Paired;
    forall x | Live(v', x) ensures Paired(v'.io, x) {
      if x in v'.files && x in ActiveFiles(v.deletes) {
        StillDeleted(v.deletes, v'.deletes, v'.files, x);
      }
      assert x != f && Live(v, x);
    }
    GoesOn(v.deletes, v'.deletes, v'.files);
    MappedLess(v.io, v'.io, f, up);
  }

  /** A delete maps nothing new. */
  lemma MappedLess(io: IoState, io': IoState, f: int, up: seq<int>)
    requires TouchesOnly(io, io', f) && CopiesOf(io', f) == OnNodesDown(CopiesOf(io, f), up)
    ensures forall c :: c in io'.nodes || c in io'.replicas ==> c in io.nodes || c in io.replicas
  {
    forall c | c in io'.nodes || c in io'.replicas ensures c in io.nodes || c in io.replicas {
      if c.fileId == f {
        assert c in CopiesOf(io', f).nodes || c in CopiesOf(io', f).replicas;
      }
    }
  }

  lemma GoesOn(deletes: map<nat, RequestInfo>, deletes': map<nat, RequestInfo>, files': map<int, FileInfo>)
    requires GoOn(deletes, deletes', files')
    ensures forall id :: id in deletes && deletes[id].fileId in files' ==>
              id in deletes' && deletes'[id].fileId == deletes[id].fileId
  {
  }

  lemma DeleteFacts(v: View, v': View, id: nat, f: int, client: Client, t: DeleteTables, t': DeleteTables)
      returns (gone: set<int>)
    requires InOrder(v) && f in v.files && id !in v.deletes && Proper(client) && Unheld(v.locks, f)
    requires t.active == v.deletes[id := RequestInfo(0, 0, f, client)] && t'.active == v'.deletes
    requires OnlyDeletesSince(t, t', v.files, v'.files, Granted(v.locks, f, client, Exclusive), v'.locks)
    ensures v'.files == v.files - gone && forall x :: x in gone ==> x in ActiveFiles(v.deletes) || x == f
    ensures forall x :: x in ActiveFiles(v'.deletes) ==> x in ActiveFiles(v.deletes) || x == f
    ensures forall x :: x in v'.locks ==> x !in gone && (x in v.locks || x == f)
    ensures GoOn(v.deletes, v'.deletes, v'.files)
    ensures f in v'.files ==> id in v'.deletes && v'.deletes[id].fileId == f && f in ActiveFiles(v'.deletes)
    ensures forall x :: x in ActiveFiles(v.deletes) ==> x in v.files
  {
    var locks := Granted(v.locks, f, client, Exclusive);
    gone := FilesOf(t'.results[|t.results|..]);
    DeleteBegun(v.cursors, v.files, v.locks, v.deletes, id, RequestInfo(0, 0, f, client));
    DeletesGoOn(t, t', v.files, v'.files, locks, v'.locks);
    assert v'.files == v.files - gone && v'.locks == locks - gone;
    assert t.active[id].fileId == f;
    assert forall x :: x in v.deletes ==> x in t.active && t.active[x] == v.deletes[x];
    forall x | x in ActiveFiles(t.active) ensures x in ActiveFiles(v.deletes) || x == f {
      var y :| y in t.active && t.active[y].fileId == x;
      assert y != id ==> y in v.deletes && v.deletes[y].fileId == x;
    }
  }
}

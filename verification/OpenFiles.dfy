/** Open descriptors, locks and pending deletes: how the three tables of the server fit together. */
module OpenFiles {
  import opened PersistentMetadata
  import opened VolatileMetadata
  import opened LockingStrategy
  import opened Requests
  import opened DeleteRequests

  predicate HoldsSome(locks: map<int, FileLock>, c: Client, f: int) {
    Holds(locks, c, f, Exclusive) || Holds(locks, c, f, Shared)
  }

  /** The client of an open descriptor holds a lock on its file, by which no other descriptor of the
      client came; the file exists (or its name was refused, and there never was a file), and
      nobody is deleting it. A file that is being deleted exists and is held exclusively. */
  ghost predicate LocksMatch(cursors: map<nat, FileInstance>, files: map<int, FileInfo>, locks: map<int, FileLock>,
                             active: map<nat, RequestInfo>) {
    && AllConsistent(locks)
    && (forall fd :: fd in cursors ==>
          && Proper(cursors[fd].client)
          && HoldsSome(locks, cursors[fd].client, cursors[fd].fileId)
          && (cursors[fd].fileId in files || cursors[fd].fileId == FILENAME_INVALID)
          && cursors[fd].fileId !in ActiveFiles(active))
    && (forall fd, fd' :: fd in cursors && fd' in cursors && fd != fd' ==>
          cursors[fd].client != cursors[fd'].client || cursors[fd].fileId != cursors[fd'].fileId)
    && (forall id :: id in active ==> active[id].fileId in files && Proper(active[id].client))
    && DeletesHold(active, locks)
  }

  lemma NothingOpen()
    ensures LocksMatch(map[], map[], map[], map[])
  {
  }

  predicate Unheld(locks: map<int, FileLock>, f: int) {
    f !in locks || locks[f].ownerUid == 0
  }

  /** The file has no owner, or the user of the client owns it and the client does not share it yet. */
  predicate Sharable(locks: map<int, FileLock>, f: int, client: Client) {
    f in locks ==> (locks[f].ownerUid == 0 || OwnedBy(locks[f], client)) && client.ctc !in locks[f].shProcs
  }

  /** Whether a client that opens a file gets the lock it needs. */
  predicate Grantable(locks: map<int, FileLock>, f: int, client: Client, mode: Mode) {
    match mode
    case Exclusive => Unheld(locks, f)
    case Shared => Sharable(locks, f, client)
  }

  /** The lock table after the lock was granted. */
  function Granted(locks: map<int, FileLock>, f: int, client: Client, mode: Mode): map<int, FileLock> {
    var lock := EntryOf(locks, f);
    match mode
    case Exclusive => locks[f := FileLock(client.userId, client.ip, client.ctc, lock.shProcs)]
    case Shared => locks[f := FileLock(client.userId, client.ip, lock.exProc, lock.shProcs + {client.ctc})]
  }

  lemma GrantedHolds(locks: map<int, FileLock>, f: int, client: Client, mode: Mode)
    ensures Holds(Granted(locks, f, client, mode), client, f, mode)
  {
  }

  /** Nobody holds a file that has no owner. */
  lemma UnheldIsFree(locks: map<int, FileLock>, f: int, c: Client)
    requires AllConsistent(locks) && Unheld(locks, f) && Proper(c)
    ensures !HoldsSome(locks, c, f)
  {
  }

  /** A lock is granted, and the file opened: in any mode but to share a file with oneself that a
      process of the same user holds exclusively. */
  lemma Opened(cursors: map<nat, FileInstance>, files: map<int, FileInfo>, locks: map<int, FileLock>,
               active: map<nat, RequestInfo>, fd: nat, client: Client, f: int, offset: nat, mode: Mode)
    requires LocksMatch(cursors, files, locks, active) && Grantable(locks, f, client, mode) && Proper(client)
             && fd !in cursors
    requires f in files || f == FILENAME_INVALID
    requires mode == Shared ==> !HeldExclusivelyByUser(locks, client, f)
    ensures LocksMatch(cursors[fd := FileInstance(client, f, offset)], files, Granted(locks, f, client, mode), active)
  {
    match mode
    case Exclusive => OpenedForWriting(cursors, files, locks, active, fd, client, f, offset);
    case Shared => OpenedForReading(cursors, files, locks, active, fd, client, f, offset);
  }

  /** To share a file that a process of the same user holds exclusively is granted, and makes the lock table
      inconsistent. */
  lemma OffenceGranted(locks: map<int, FileLock>, f: int, client: Client)
    requires AllConsistent(locks) && HeldExclusivelyByUser(locks, client, f)
    ensures Grantable(locks, f, client, Shared) && !AllConsistent(Granted(locks, f, client, Shared))
  {
    assert Consistent(locks[f]);
    assert !Consistent(Granted(locks, f, client, Shared)[f]);
  }

  lemma OpenedForWriting(cursors: map<nat, FileInstance>, files: map<int, FileInfo>, locks: map<int, FileLock>,
                         active: map<nat, RequestInfo>, fd: nat, client: Client, f: int, offset: nat)
    requires LocksMatch(cursors, files, locks, active) && Unheld(locks, f) && Proper(client) && fd !in cursors
    requires f in files || f == FILENAME_INVALID
    ensures LocksMatch(cursors[fd := FileInstance(client, f, offset)], files, Granted(locks, f, client, Exclusive),
                       active)
  {
    var locks' := Granted(locks, f, client, Exclusive);
    GrantedHolds(locks, f, client, Exclusive);
    assert f in locks ==> Consistent(locks[f]);
    assert AllConsistent(locks');
    forall x | x in cursors ensures cursors[x].fileId != f && HoldsSome(locks', cursors[x].client, cursors[x].fileId) {
      UnheldIsFree(locks, f, cursors[x].client);
    }
    forall id | id in active
      ensures active[id].fileId != f && Holds(locks', active[id].client, active[id].fileId, Exclusive)
    {
      UnheldIsFree(locks, f, active[id].client);
    }
    hide Granted, Holds, AllConsistent, Unheld;
  }

  lemma OpenedForReading(cursors: map<nat, FileInstance>, files: map<int, FileInfo>, locks: map<int, FileLock>,
                         active: map<nat, RequestInfo>, fd: nat, client: Client, f: int, offset: nat)
    requires LocksMatch(cursors, files, locks, active) && Proper(client) && fd !in cursors
    requires f in files || f == FILENAME_INVALID
    requires !HeldExclusivelyByUser(locks, client, f) && Sharable(locks, f, client)
    ensures LocksMatch(cursors[fd := FileInstance(client, f, offset)], files, Granted(locks, f, client, Shared), active)
  {
    var locks' := Granted(locks, f, client, Shared);
    GrantedHolds(locks, f, client, Shared);
    assert f in locks ==> Consistent(locks[f]);
    assert AllConsistent(locks');
    forall x | x in cursors
      ensures HoldsSome(locks', cursors[x].client, cursors[x].fileId)
      ensures cursors[x].client != client || cursors[x].fileId != f
    {
      assert HoldsSome(locks, cursors[x].client, cursors[x].fileId);
    }
    forall id | id in active
      ensures active[id].fileId != f && Holds(locks', active[id].client, active[id].fileId, Exclusive)
    {
      assert Holds(locks, active[id].client, active[id].fileId, Exclusive);
    }
    assert f !in ActiveFiles(active);
    hide Granted, Holds, AllConsistent, Sharable;
  }

  /** What releasing a lock does to the lock table. */
  ghost predicate Released(locks: map<int, FileLock>, locks': map<int, FileLock>, client: Client, f: int) {
    if Holds(locks, client, f, Exclusive) then locks' == locks - {f}
    else if Holds(locks, client, f, Shared) then
      var sharers := locks[f].shProcs - {client.ctc};
      locks' == if sharers == {} then locks - {f} else locks[f := locks[f].(shProcs := sharers)]
    else locks' == locks[f := EntryOf(locks, f)]
  }

  /** A descriptor is closed and its lock released. */
  lemma ClosedAndReleased(cursors: map<nat, FileInstance>, files: map<int, FileInfo>, locks: map<int, FileLock>,
                          active: map<nat, RequestInfo>, fd: nat, locks': map<int, FileLock>)
    requires LocksMatch(cursors, files, locks, active) && fd in cursors && AllConsistent(locks')
    requires Released(locks, locks', cursors[fd].client, cursors[fd].fileId)
    ensures LocksMatch(cursors - {fd}, files, locks', active)
  {
    var client, f := cursors[fd].client, cursors[fd].fileId;
    forall x | x in cursors && x != fd ensures HoldsSome(locks', cursors[x].client, cursors[x].fileId) {
      var c := cursors[x].client;
      assert HoldsSome(locks, c, cursors[x].fileId) && HoldsSome(locks, client, f);
      if cursors[x].fileId == f {
        HoldersAgree(locks, f, client, if Holds(locks, client, f, Exclusive) then Exclusive else Shared,
                     c, if Holds(locks, c, f, Exclusive) then Exclusive else Shared);
        assert Holds(locks, c, f, Shared) && c.ctc in locks[f].shProcs - {client.ctc};
      }
    }
    forall id | id in active ensures active[id].fileId != f {
      assert f !in ActiveFiles(active);
    }
  }

  /** A descriptor is closed and no lock released. */
  lemma ClosedOnly(cursors: map<nat, FileInstance>, files: map<int, FileInfo>, locks: map<int, FileLock>,
                   active: map<nat, RequestInfo>, fd: nat)
    requires LocksMatch(cursors, files, locks, active)
    ensures LocksMatch(cursors - {fd}, files, locks, active)
  {
  }

  /** An exclusive lock is granted for a delete. */
  lemma DeleteBegun(cursors: map<nat, FileInstance>, files: map<int, FileInfo>, locks: map<int, FileLock>,
                    active: map<nat, RequestInfo>, id: nat, w: RequestInfo)
    requires LocksMatch(cursors, files, locks, active) && Unheld(locks, w.fileId) && Proper(w.client) && id !in active
    requires w.fileId in files
    ensures LocksMatch(cursors, files, Granted(locks, w.fileId, w.client, Exclusive), active[id := w])
  {
    var f, active' := w.fileId, active[id := w];
    assert f in locks ==> Consistent(locks[f]);
    forall x | x in cursors ensures cursors[x].fileId != f {
      UnheldIsFree(locks, f, cursors[x].client);
    }
    forall x | x in active ensures active[x].fileId != f {
      UnheldIsFree(locks, f, active[x].client);
    }
    forall x | x in cursors ensures cursors[x].fileId !in ActiveFiles(active') {
      assert cursors[x].fileId !in ActiveFiles(active);
      forall y | y in active' ensures active'[y].fileId != cursors[x].fileId {
        assert y != id ==> active[y].fileId in ActiveFiles(active);
      }
    }
  }

  /** Deletes are completed. */
  lemma DeletesCompleted(cursors: map<nat, FileInstance>, t: DeleteTables, t': DeleteTables,
                         files: map<int, FileInfo>, files': map<int, FileInfo>,
                         locks: map<int, FileLock>, locks': map<int, FileLock>)
    requires LocksMatch(cursors, files, locks, t.active) && OnlyDeletesSince(t, t', files, files', locks, locks')
    requires AllConsistent(locks')
    ensures LocksMatch(cursors, files', locks', t'.active)
  {
  }

  /** The same descriptors, with other offsets, and the same files, with other sizes. */
  ghost predicate SameOpen(cursors: map<nat, FileInstance>, cursors': map<nat, FileInstance>) {
    && cursors'.Keys == cursors.Keys
    && forall fd :: fd in cursors ==> cursors'[fd] == cursors[fd].(offset := cursors'[fd].offset)
  }

  lemma MatchedLocksValid(cursors: map<nat, FileInstance>, files: map<int, FileInfo>, locks: map<int, FileLock>,
                          active: map<nat, RequestInfo>)
    requires LocksMatch(cursors, files, locks, active)
    ensures AllConsistent(locks)
  {
  }

  lemma OnlyMoved(cursors: map<nat, FileInstance>, cursors': map<nat, FileInstance>, files: map<int, FileInfo>,
                  files': map<int, FileInfo>, locks: map<int, FileLock>, active: map<nat, RequestInfo>)
    requires LocksMatch(cursors, files, locks, active) && SameOpen(cursors, cursors') && files.Keys <= files'.Keys
    ensures LocksMatch(cursors', files', locks, active)
  {
  }

  /** What it is good for: a client that uses one of its descriptors has a file behind it, may
      read it, and may write it unless it shares it. */
  lemma OwnDescriptorWorks(cursors: map<nat, FileInstance>, files: map<int, FileInfo>, locks: map<int, FileLock>,
                           active: map<nat, RequestInfo>, fd: nat)
    requires LocksMatch(cursors, files, locks, active) && fd in cursors
    ensures var client, f := cursors[fd].client, cursors[fd].fileId;
            && HoldsSome(locks, client, f)
            && (!Holds(locks, client, f, Exclusive) <==> Holds(locks, client, f, Shared))
            && (f != FILENAME_INVALID ==> f in files)
            && forall other :: other in cursors && other != fd && cursors[other].fileId == f ==>
                 !Holds(locks, client, f, Exclusive) && SameUser(cursors[other].client, client)
  {
  }
}

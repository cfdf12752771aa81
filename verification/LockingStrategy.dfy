/** The file lock table. */
module LockingStrategy {
  import opened VolatileMetadata

  const LOCK_SUCCESS: int := 0
  const LOCK_ERROR: int := -1
  const NULL: nat := 0

  /** Who holds a file. Owner 0 means that nobody does. */
  datatype FileLock = FileLock(ownerUid: nat, ownerIp: string, exProc: nat, shProcs: set<nat>)

  function Unowned(): FileLock { FileLock(0, "", NULL, {}) }

  /** `operator[]` of the lock table: an entry that is missing is made, owned by nobody. */
  function EntryOf(locks: map<int, FileLock>, f: int): FileLock {
    if f in locks then locks[f] else Unowned()
  }

  datatype Mode = Exclusive | Shared

  /** A client that may ask for locks: a user, over a connection. */
  predicate Proper(c: Client) {
    c.userId != 0 && c.ctc != NULL
  }

  predicate SameUser(c: Client, c': Client) {
    c.userId == c'.userId && c.ip == c'.ip
  }

  predicate OwnedBy(l: FileLock, c: Client) {
    l.ownerUid == c.userId && l.ownerIp == c.ip
  }

  /** What the table says about who holds what. */
  predicate Holds(locks: map<int, FileLock>, c: Client, f: int, mode: Mode) {
    && f in locks
    && OwnedBy(locks[f], c)
    && match mode
       case Exclusive => locks[f].exProc == c.ctc
       case Shared => c.ctc in locks[f].shProcs
  }

  /** A file is not held, or exclusively by one process, or shared by one or more processes. */
  ghost predicate Consistent(l: FileLock) {
    && NULL !in l.shProcs
    && (l.ownerUid == 0 ==> l.exProc == NULL && l.shProcs == {})
    && (l.ownerUid != 0 ==> (l.exProc != NULL <==> l.shProcs == {}))
  }

  ghost predicate AllConsistent(locks: map<int, FileLock>) {
    forall f :: f in locks ==> Consistent(locks[f])
  }

  /** The file is exclusively held for the user of `c`. */
  predicate HeldExclusivelyByUser(locks: map<int, FileLock>, c: Client, f: int) {
    f in locks && locks[f].ownerUid != 0 && OwnedBy(locks[f], c) && locks[f].exProc != NULL
  }

  class LockTable {
    var fileLocks: map<int, FileLock>

    ghost predicate Valid()
      reads this
    {
      AllConsistent(fileLocks)
    }

    constructor ()
      ensures fileLocks == map[] && Valid()
    {
      fileLocks := map[];
    }

    function Entry(f: int): FileLock
      reads this
    {
      EntryOf(fileLocks, f)
    }

    method GetExclusiveLock(client: Client, f: int) returns (r: int)
      requires Proper(client)
      modifies this
      ensures r == if old(Entry(f)).ownerUid == 0 then LOCK_SUCCESS else LOCK_ERROR
      ensures r == LOCK_SUCCESS ==>
                fileLocks == old(fileLocks)[f := FileLock(client.userId, client.ip, client.ctc, old(Entry(f)).shProcs)]
      ensures r == LOCK_ERROR ==> fileLocks == old(fileLocks)
      ensures old(Valid()) ==> Valid()
    {
      fileLocks := fileLocks[f := Entry(f)];
      var lock := fileLocks[f];
      if lock.ownerUid != 0 {
        assert fileLocks == old(fileLocks);
        return LOCK_ERROR;
      }
      fileLocks := fileLocks[f := lock.(ownerUid := client.userId, ownerIp := client.ip, exProc := client.ctc)];
      return LOCK_SUCCESS;
    }

    /** Shares a file with the other processes of the same user. This is granted even when one of
        them holds the file exclusively; that is the one request that makes the table inconsistent. */
    method GetSharedLock(client: Client, f: int) returns (r: int)
      requires Proper(client)
      modifies this
      ensures r == LOCK_SUCCESS || r == LOCK_ERROR
      ensures r == LOCK_SUCCESS <==>
                && (old(Entry(f)).ownerUid == 0 || OwnedBy(old(Entry(f)), client))
                && client.ctc !in old(Entry(f)).shProcs
      ensures r == LOCK_SUCCESS ==>
                fileLocks == old(fileLocks)[f := FileLock(client.userId, client.ip, old(Entry(f)).exProc,
                                                          old(Entry(f)).shProcs + {client.ctc})]
      ensures r == LOCK_ERROR && old(Valid()) ==> fileLocks == old(fileLocks)
      ensures old(Valid()) ==> (Valid() <==> !old(HeldExclusivelyByUser(fileLocks, client, f)))
    {
      fileLocks := fileLocks[f := Entry(f)];
      var lock := fileLocks[f];
      if lock.ownerUid == 0 {
        lock := lock.(ownerUid := client.userId, ownerIp := client.ip);
        fileLocks := fileLocks[f := lock];
      } else if !OwnedBy(lock, client) {
        assert fileLocks == old(fileLocks);
        return LOCK_ERROR;
      }
      var inserted := client.ctc !in lock.shProcs;
      fileLocks := fileLocks[f := lock.(shProcs := lock.shProcs + {client.ctc})];
      if inserted {
        assert old(Valid()) && old(HeldExclusivelyByUser(fileLocks, client, f)) ==> !Consistent(fileLocks[f]);
      } else {
        assert lock.shProcs + {client.ctc} == lock.shProcs;
        assert old(Valid()) ==> fileLocks == old(fileLocks);
      }
      return if inserted then LOCK_SUCCESS else LOCK_ERROR;
    }

    /** Gives up whatever lock the process has on the file. The entry of a file goes away with its
        exclusive holder, and with the last process that shares it. */
    method ReleaseLock(client: Client, f: int) returns (r: int)
      requires Proper(client)
      modifies this
      ensures r == LOCK_SUCCESS || r == LOCK_ERROR
      ensures r == LOCK_SUCCESS <==> old(Holds(fileLocks, client, f, Exclusive) || Holds(fileLocks, client, f, Shared))
      ensures old(Holds(fileLocks, client, f, Exclusive)) ==> fileLocks == old(fileLocks) - {f}
      ensures old(!Holds(fileLocks, client, f, Exclusive) && Holds(fileLocks, client, f, Shared)) ==>
                var sharers := old(fileLocks)[f].shProcs - {client.ctc};
                fileLocks == if sharers == {} then old(fileLocks) - {f}
                             else old(fileLocks)[f := old(fileLocks)[f].(shProcs := sharers)]
      ensures r == LOCK_ERROR ==> fileLocks == old(fileLocks)[f := old(Entry(f))]
      ensures old(Valid()) ==> Valid()
    {
      fileLocks := fileLocks[f := Entry(f)];
      var lock := fileLocks[f];
      if !OwnedBy(lock, client) {
        return LOCK_ERROR;
      }
      if lock.exProc == client.ctc {
        fileLocks := fileLocks - {f};
      } else {
        var sharers := lock.shProcs - {client.ctc};
        fileLocks := fileLocks[f := lock.(shProcs := sharers)];
        if client.ctc !in lock.shProcs {
          assert sharers == lock.shProcs;
          return LOCK_ERROR;
        }
        if |sharers| == 0 {
          fileLocks := fileLocks - {f};
        }
      }
      return LOCK_SUCCESS;
    }

    method HasExclusiveLock(client: Client, f: int) returns (r: int)
      requires Proper(client)
      ensures r == if Holds(fileLocks, client, f, Exclusive) then 1 else 0
    {
      if f in fileLocks && OwnedBy(fileLocks[f], client) && fileLocks[f].exProc == client.ctc {
        return 1;
      }
      return 0;
    }

    method HasSharedLock(client: Client, f: int) returns (r: int)
      requires Proper(client)
      ensures r == if Holds(fileLocks, client, f, Shared) then 1 else 0
    {
      if f in fileLocks && OwnedBy(fileLocks[f], client) && client.ctc in fileLocks[f].shProcs {
        return 1;
      }
      return 0;
    }
  }

  // ---------------------------------------------------------------------------
  // What a consistent table promises
  // ---------------------------------------------------------------------------

  /** An exclusive holder is the only holder; processes that share a file belong to one user. */
  lemma HoldersAgree(locks: map<int, FileLock>, f: int, c: Client, mode: Mode, c': Client, mode': Mode)
    requires AllConsistent(locks) && Proper(c) && Proper(c')
    requires Holds(locks, c, f, mode) && Holds(locks, c', f, mode')
    ensures SameUser(c, c') && mode == mode'
    ensures mode == Exclusive ==> c == c'
  {
  }

  // ---------------------------------------------------------------------------
  // The table against the log of what was granted and released
  // ---------------------------------------------------------------------------

  datatype LockOp = GetExclusive | GetShared | Release

  datatype LockEvent = LockEvent(op: LockOp, client: Client, file: int, granted: bool)

  /** What the log says about who holds what: granted, and not released by the holder since. */
  predicate LogHolds(log: seq<LockEvent>, c: Client, f: int, mode: Mode) {
    log != [] &&
    var e, before := log[|log| - 1], log[..|log| - 1];
    if !e.granted || e.client != c || e.file != f then LogHolds(before, c, f, mode)
    else match e.op
      case GetExclusive => mode == Exclusive || LogHolds(before, c, f, mode)
      case GetShared => mode == Shared || LogHolds(before, c, f, mode)
      case Release => false
  }

  ghost predicate Agree(locks: map<int, FileLock>, log: seq<LockEvent>) {
    forall c, f, mode :: Proper(c) ==> (Holds(locks, c, f, mode) <==> LogHolds(log, c, f, mode))
  }

  /** By the log, a process of the same user holds the file exclusively. */
  ghost predicate UserHoldsExclusively(log: seq<LockEvent>, client: Client, f: int) {
    exists c :: Proper(c) && SameUser(c, client) && LogHolds(log, c, f, Exclusive)
  }

  /** Whether a lock manager that only reads the log grants a request. */
  ghost predicate Grants(log: seq<LockEvent>, op: LockOp, client: Client, f: int) {
    match op
    case GetExclusive => forall c, mode :: Proper(c) ==> !LogHolds(log, c, f, mode)
    case GetShared =>
      && !LogHolds(log, client, f, Shared)
      && forall c, mode :: Proper(c) && LogHolds(log, c, f, mode) ==> SameUser(c, client)
    case Release => LogHolds(log, client, f, Exclusive) || LogHolds(log, client, f, Shared)
  }

  /** In a consistent table an owned file has a holder. */
  lemma OwnerHolds(locks: map<int, FileLock>, f: int) returns (c: Client, mode: Mode)
    requires AllConsistent(locks) && f in locks && locks[f].ownerUid != 0
    ensures Proper(c) && Holds(locks, c, f, mode) && OwnedBy(locks[f], c)
  {
    var l := locks[f];
    assert Consistent(l);
    if l.exProc != NULL {
      c, mode := Client(l.ownerIp, l.ownerUid, l.exProc), Exclusive;
    } else {
      var p :| p in l.shProcs;
      c, mode := Client(l.ownerIp, l.ownerUid, p), Shared;
    }
  }

  lemma LogHoldsSnoc(log: seq<LockEvent>, e: LockEvent, c: Client, f: int, mode: Mode)
    ensures LogHolds(log + [e], c, f, mode) <==>
              if !e.granted || e.client != c || e.file != f then LogHolds(log, c, f, mode)
              else match e.op
                case GetExclusive => mode == Exclusive || LogHolds(log, c, f, mode)
                case GetShared => mode == Shared || LogHolds(log, c, f, mode)
                case Release => false
  {
  }

  /** What one request does to a consistent table. */
  ghost predicate TableStep(locks: map<int, FileLock>, locks': map<int, FileLock>, op: LockOp, client: Client, f: int,
                            granted: bool) {
    var lock := EntryOf(locks, f);
    match op
    case GetExclusive =>
      && (granted <==> lock.ownerUid == 0)
      && locks' == if granted then locks[f := FileLock(client.userId, client.ip, client.ctc, lock.shProcs)] else locks
    case GetShared =>
      && (granted <==> (lock.ownerUid == 0 || OwnedBy(lock, client)) && client.ctc !in lock.shProcs)
      && locks'
         == if granted
            then locks[f := FileLock(client.userId, client.ip, lock.exProc, lock.shProcs + {client.ctc})]
            else locks
    case Release =>
      && (granted <==> Holds(locks, client, f, Exclusive) || Holds(locks, client, f, Shared))
      && locks' == if !granted then locks[f := lock]
                   else if Holds(locks, client, f, Exclusive) || lock.shProcs - {client.ctc} == {} then locks - {f}
                   else locks[f := lock.(shProcs := lock.shProcs - {client.ctc})]
  }

  /** Who holds what afterwards: what the client was granted or released has changed, and nothing else. */
  lemma HoldsAfter(locks: map<int, FileLock>, locks': map<int, FileLock>, op: LockOp, client: Client, f: int,
                   granted: bool, c: Client, f': int, mode: Mode)
    requires AllConsistent(locks) && AllConsistent(locks') && Proper(client) && Proper(c)
    requires TableStep(locks, locks', op, client, f, granted)
    ensures Holds(locks', c, f', mode) <==>
              if !granted || client != c || f != f' then Holds(locks, c, f', mode)
              else match op
                case GetExclusive => mode == Exclusive || Holds(locks, c, f', mode)
                case GetShared => mode == Shared || Holds(locks, c, f', mode)
                case Release => false
  {
    assert Consistent(EntryOf(locks, f)) && Consistent(EntryOf(locks', f));
    if f' == f {
      match op {
        case GetExclusive =>
        case GetShared =>
        case Release =>
          assert granted && c.ctc != client.ctc && c.ctc in EntryOf(locks, f).shProcs ==>
            c.ctc in EntryOf(locks, f).shProcs - {client.ctc};
      }
    }
  }

  lemma AgreeAfter(locks: map<int, FileLock>, locks': map<int, FileLock>, log: seq<LockEvent>, e: LockEvent)
    requires AllConsistent(locks) && AllConsistent(locks') && Proper(e.client) && Agree(locks, log)
    requires TableStep(locks, locks', e.op, e.client, e.file, e.granted)
    ensures Agree(locks', log + [e])
  {
    hide Holds, LogHolds, TableStep;
    forall c, f', mode | Proper(c) ensures Holds(locks', c, f', mode) <==> LogHolds(log + [e], c, f', mode) {
      LogHoldsSnoc(log, e, c, f', mode);
      HoldsAfter(locks, locks', e.op, e.client, e.file, e.granted, c, f', mode);
      assert Holds(locks, c, f', mode) <==> LogHolds(log, c, f', mode);
    }
  }

  /** One lock request. */
  method Request(table: LockTable, op: LockOp, client: Client, f: int, ghost log: seq<LockEvent>) returns (e: LockEvent)
    requires table.Valid() && Proper(client) && Agree(table.fileLocks, log)
    modifies table
    ensures e.op == op && e.client == client && e.file == f
    ensures e.granted == Grants(log, op, client, f)
    ensures table.Valid() <==> !(op == GetShared && UserHoldsExclusively(log, client, f))
    ensures table.Valid() ==> Agree(table.fileLocks, log + [e])
  {
    ghost var locks := table.fileLocks;
    var r;
    match op {
      case GetExclusive => r := table.GetExclusiveLock(client, f);
      case GetShared => r := table.GetSharedLock(client, f);
      case Release => r := table.ReleaseLock(client, f);
    }
    e := LockEvent(op, client, f, r == LOCK_SUCCESS);
    ghost var c0, m0 := client, Exclusive;
    if f in locks && locks[f].ownerUid != 0 {
      c0, m0 := OwnerHolds(locks, f);
      assert LogHolds(log, c0, f, m0);
    }
    assert Consistent(EntryOf(locks, f));
    if table.Valid() {
      assert TableStep(locks, table.fileLocks, op, client, f, e.granted);
      AgreeAfter(locks, table.fileLocks, log, e);
    }
  }

  type LockRequest = (LockOp, Client, int)

  /** The log of a lock manager that decides from the log alone. */
  ghost function IdealLog(requests: seq<LockRequest>): (log: seq<LockEvent>)
    ensures |log| == |requests|
  {
    if requests == [] then []
    else
      var log, (op, client, f) := IdealLog(requests[..|requests| - 1]), requests[|requests| - 1];
      log + [LockEvent(op, client, f, Grants(log, op, client, f))]
  }

  /** Nobody asks to share a file that a process of the same user holds exclusively. */
  ghost predicate DisciplinedRun(requests: seq<LockRequest>) {
    forall i :: 0 <= i < |requests| && requests[i].0 == GetShared ==>
      !UserHoldsExclusively(IdealLog(requests[..i]), requests[i].1, requests[i].2)
  }

  /** By the log, an exclusive holder is the only holder of its file, and processes that share a
      file belong to one user. */
  ghost predicate HoldersCompatible(log: seq<LockEvent>) {
    forall c, c', f, mode, mode' ::
      Proper(c) && Proper(c') && LogHolds(log, c, f, mode) && LogHolds(log, c', f, mode') ==>
        SameUser(c, c') && mode == mode' && (mode == Exclusive ==> c == c')
  }

  lemma LogHoldersAgree(locks: map<int, FileLock>, log: seq<LockEvent>)
    requires AllConsistent(locks) && Agree(locks, log)
    ensures HoldersCompatible(log)
  {
  }

  /** In every disciplined run the table gives the answers of the log, and holds what it says. */
  method RunLocks(table: LockTable, requests: seq<LockRequest>) returns (log: seq<LockEvent>)
    requires table.fileLocks == map[]
    requires forall i :: 0 <= i < |requests| ==> Proper(requests[i].1)
    requires DisciplinedRun(requests)
    modifies table
    ensures log == IdealLog(requests)
    ensures table.Valid() && Agree(table.fileLocks, log)
    ensures HoldersCompatible(log)
  {
    log := [];
    for k := 0 to |requests|
      invariant log == IdealLog(requests[..k])
      invariant table.Valid() && Agree(table.fileLocks, log)
    {
      assert requests[..k + 1][..k] == requests[..k];
      var (op, client, f) := requests[k];
      var e := Request(table, op, client, f, log);
      log := log + [e];
    }
    assert requests[..|requests|] == requests;
    LogHoldersAgree(table.fileLocks, log);
  }

  /** Outside such runs the promise fails: the first process of a user holds a file exclusively,
      a second one shares it all the same and lets go of it, and the first has lost its lock. */
  method SharingEndsExclusiveLock(ip: string, f: int) returns (table: LockTable, r1: int, r2: int, r3: int)
    ensures r1 == r2 == r3 == LOCK_SUCCESS
    ensures !Holds(table.fileLocks, Client(ip, 1, 1), f, Exclusive)
  {
    table := new LockTable();
    var first, second := Client(ip, 1, 1), Client(ip, 1, 2);
    r1 := table.GetExclusiveLock(first, f);
    r2 := table.GetSharedLock(second, f);
    assert table.fileLocks[f].shProcs == {2};
    r3 := table.ReleaseLock(second, f);
  }
}

/** Where a descriptor is in its file: what goes through it follows on from what went through it before, so that
    files are written and read piece by piece. */
module ServerCursors {
  import opened EspressoStorage
  import opened Striping
  import opened FileChunks
  import opened PersistentMetadata
  import opened VolatileMetadata
  import opened LockingStrategy
  import opened ReadRequests
  import opened OpenFiles
  import opened IoManager
  import opened FlatFile
  import opened FlatReads
  import opened BaristaState
  import opened BaristaCore
  import opened RunLog
  import opened RunOrder
  import opened ServerRuns
  import opened ServerPromises

  // ---------------------------------------------------------------------------
  // From one call to the next
  // ---------------------------------------------------------------------------

  /** The client has opened the descriptor itself. */
  predicate Own(v: View, fd: nat, client: Client) {
    fd in v.cursors && v.cursors[fd].client == client
  }

  /** A call through the descriptor that is not refused. */
  predicate Uses(v: View, call: Call, fd: nat) {
    match call
    case WriteCall(d, buf, client) => d == fd && WritePasses(v.locks, v.files, v.cursors, d, buf, client)
    case ReadCall(d, count, client) => d == fd && ReadPasses(v.locks, v.files, v.cursors, d, count, client)
    case SeekCall(d, _, _, client) => d == fd && Own(v, d, client)
    case CloseCall(d, client) => d == fd && Own(v, d, client)
    case _ => false
  }

  /** The descriptor is not used between the calls `i` and `j`. */
  ghost predicate UnusedBetween(calls: seq<Call>, t: Trace, i: int, j: int, fd: nat)
    requires |t.before| == |t.log| <= |calls| && -1 <= i && j <= |t.log|
  {
    forall k :: i < k < j ==> !Uses(t.before[k], calls[k], fd)
  }

  /** A read or a write through the descriptor. */
  predicate Through(e: Outcome, fd: int) {
    (e.Wrote? || e.AskedFor?) && e.fd == fd
  }

  lemma CursorStays(v: View, v': View, call: Call, e: Outcome, fd: nat)
    requires Fits(call, v, v', e) && fd in v.cursors && !Uses(v, call, fd)
    ensures fd in v'.cursors && v'.cursors[fd] == v.cursors[fd]
  {
    hide FoundOrMade, FilesKept, Grantable, Granted, Released, WritePasses, ReadPasses, AfterWrite, ReadSent,
         SomeAnswered, ChunksDeleted, LandsAt;
  }

  /** A read or a write begins where the cursor is. */
  lemma BeginsAtCursor(v: View, v': View, call: Call, e: Outcome, fd: nat)
    requires Fits(call, v, v', e) && Through(e, fd)
    ensures fd in v.cursors && e.fileId == v.cursors[fd].fileId && e.at == v.cursors[fd].offset
  {
    hide FoundOrMade, FilesKept, Grantable, Granted, Released, AfterWrite, ReadSent, SomeAnswered, ChunksDeleted,
         LandsAt, Holds;
  }

  /** Responses move no cursor. */
  lemma ResponsesKeepCursors(v: View, v': View)
    requires IsResponses(v, v')
    ensures v'.cursors == v.cursors
  {
    hide SomeAnswered, IsQuiet, OrderStep;
  }

  lemma StepAt(first: View, calls: seq<Call>, t: Trace, last: View, k: nat)
    requires IsTrace(first, calls, t, last) && k < |t.log|
    ensures |t.before| == |t.after| == |t.log| <= |calls|
    ensures Served(calls[k], t.before[k], t.after[k], t.log[k])
    ensures Fits(calls[k], t.before[k], t.after[k], t.log[k])
    ensures IsResponses(if k == 0 then first else t.after[k - 1], t.before[k])
    ensures 0 < k ==> t.before[k].cursors == t.after[k - 1].cursors
  {
    hide Fits, IsStep, OrderStep, IsResponses;
    assert TraceStep(first, calls, t, k);
    ResponsesKeepCursors(if k == 0 then first else t.after[k - 1], t.before[k]);
  }

  /** Until it is used again, the cursor of a descriptor stays where a call has left it. */
  lemma {:induction false} CursorRests(first: View, calls: seq<Call>, t: Trace, last: View, i: nat, j: nat, fd: nat)
    requires IsTrace(first, calls, t, last) && i < j < |t.log| && fd in t.after[i].cursors
    requires UnusedBetween(calls, t, i, j, fd)
    ensures fd in t.before[j].cursors && t.before[j].cursors[fd] == t.after[i].cursors[fd]
    decreases j
  {
    hide IsTrace, Fits, Served, IsResponses, Uses;
    StepAt(first, calls, t, last, j);
    if i + 1 < j {
      StepAt(first, calls, t, last, j - 1);
      CursorRests(first, calls, t, last, i, j - 1, fd);
      CursorStays(t.before[j - 1], t.after[j - 1], calls[j - 1], t.log[j - 1], fd);
    }
  }

  /** So the next read or write through it begins there. */
  lemma NextBeginsThere(first: View, calls: seq<Call>, t: Trace, last: View, i: nat, j: nat, fd: nat)
    requires IsTrace(first, calls, t, last) && i < j < |t.log| && fd in t.after[i].cursors
    requires UnusedBetween(calls, t, i, j, fd) && Through(t.log[j], fd)
    ensures t.log[j].fileId == t.after[i].cursors[fd].fileId && t.log[j].at == t.after[i].cursors[fd].offset
  {
    hide IsTrace, Fits, Served, IsResponses, UnusedBetween;
    CursorRests(first, calls, t, last, i, j, fd);
    StepAt(first, calls, t, last, j);
    BeginsAtCursor(t.before[j], t.after[j], calls[j], t.log[j], fd);
  }

  /** A write leaves the cursor of its own client behind the last byte written. */
  lemma CursorAfterWrite(v: View, v': View, call: Call, e: Outcome)
    requires Fits(call, v, v', e) && e.Wrote?
    ensures call.WriteCall? && call.fd == e.fd && call.client == e.client && call.buf == e.buf
    ensures Own(v, call.fd, call.client) ==>
              call.fd in v'.cursors && v'.cursors[call.fd] == FileInstance(e.client, e.fileId, e.at + |e.buf|)
  {
    hide FoundOrMade, FilesKept, Grantable, Granted, Released, AfterWrite, ReadSent, SomeAnswered, ChunksDeleted,
         LandsAt, Holds;
  }

  /** A read leaves it at the end of the range, or of the file. */
  lemma CursorAfterRead(v: View, v': View, call: Call, e: Outcome)
    requires Fits(call, v, v', e) && e.AskedFor?
    ensures call.ReadCall? && call.fd == e.fd && call.client == e.client && call.count == e.count
    ensures e.fileId in v.files && e.at < v.files[e.fileId].size
    ensures Own(v, call.fd, call.client) ==>
              && call.fd in v'.cursors
              && v'.cursors[call.fd]
                 == FileInstance(e.client, e.fileId, Min(e.at + e.count, v.files[e.fileId].size))
  {
    hide FoundOrMade, FilesKept, Grantable, Granted, Released, AfterWrite, ReadSent, SomeAnswered, ChunksDeleted,
         LandsAt, Holds;
  }

  /** What goes through a descriptor next, after its own client has written through it, follows on behind what
      was written. */
  lemma WritesFollowOn(first: View, calls: seq<Call>, t: Trace, last: View, i: nat, j: nat)
    requires IsTrace(first, calls, t, last) && i < j < |t.log| && calls[i].WriteCall? && t.log[i].Wrote?
    requires Own(t.before[i], calls[i].fd, calls[i].client)
    requires UnusedBetween(calls, t, i, j, calls[i].fd) && Through(t.log[j], calls[i].fd)
    ensures t.log[j].fileId == t.log[i].fileId && t.log[j].at == t.log[i].at + |calls[i].buf|
  {
    hide IsTrace, Fits, Served, IsResponses, UnusedBetween;
    StepAt(first, calls, t, last, i);
    CursorAfterWrite(t.before[i], t.after[i], calls[i], t.log[i]);
    NextBeginsThere(first, calls, t, last, i, j, calls[i].fd);
  }

  /** After its own client has read through it, it follows on behind what was read: at the end of the range that
      was asked for, or of the file if that came first. */
  lemma ReadsFollowOn(first: View, calls: seq<Call>, t: Trace, last: View, i: nat, j: nat)
    requires IsTrace(first, calls, t, last) && i < j < |t.log| && calls[i].ReadCall? && t.log[i].AskedFor?
    requires Own(t.before[i], calls[i].fd, calls[i].client)
    requires UnusedBetween(calls, t, i, j, calls[i].fd) && Through(t.log[j], calls[i].fd)
    ensures var f := t.log[i].fileId;
            && t.log[j].fileId == f && f in t.before[i].files
            && t.log[j].at == Min(t.log[i].at + calls[i].count, t.before[i].files[f].size)
  {
    hide IsTrace, Fits, Served, IsResponses, UnusedBetween;
    StepAt(first, calls, t, last, i);
    CursorAfterRead(t.before[i], t.after[i], calls[i], t.log[i]);
    NextBeginsThere(first, calls, t, last, i, j, calls[i].fd);
  }

  lemma CursorAfterSeek(v: View, v': View, call: Call, e: Outcome)
    requires Fits(call, v, v', e) && call.SeekCall? && Own(v, call.fd, call.client)
    requires v.cursors[call.fd].fileId in v.files
    ensures var inst := v.cursors[call.fd];
            && call.fd in v'.cursors && v'.cursors[call.fd].fileId == inst.fileId
            && LandsAt(v'.cursors[call.fd].offset, inst.offset, call.offset, call.whence, v.files[inst.fileId].size)
  {
    hide LandsAt, SoughtOffset;
  }

  /** After its own client has sought through it, it begins where the seek was to lead: at the place given, or
      that far on from where the cursor was, or at the end of the file as it was then. */
  lemma SeeksLand(first: View, calls: seq<Call>, t: Trace, last: View, i: nat, j: nat)
    requires IsTrace(first, calls, t, last) && i < j < |t.log| && calls[i].SeekCall?
    requires Own(t.before[i], calls[i].fd, calls[i].client)
    requires UnusedBetween(calls, t, i, j, calls[i].fd) && Through(t.log[j], calls[i].fd)
    requires t.before[i].cursors[calls[i].fd].fileId in t.before[i].files
    ensures var inst, call := t.before[i].cursors[calls[i].fd], calls[i];
            var size, at := t.before[i].files[inst.fileId].size, t.log[j].at;
            && t.log[j].fileId == inst.fileId
            && (call.whence == SeekSet && call.offset <= size ==> at == call.offset)
            && (call.whence == SeekSet && size <= call.offset ==> at == size)
            && (call.whence == SeekEnd && size <= MAX_OFFSET ==> at == size)
            && (call.whence == SeekCur && inst.offset + call.offset <= Min(size, MAX_OFFSET) ==>
                  at == inst.offset + call.offset)
            && (call.whence == SeekCur && size <= inst.offset + call.offset <= MAX_OFFSET ==> at == size)
            && (call.whence == SeekCur && inst.offset <= Min(size, MAX_OFFSET)
                && call.offset <= MAX_OFFSET < inst.offset + call.offset ==>
                  at == inst.offset - (MAX_OFFSET + 1 - call.offset))
  {
    hide IsTrace, Fits, Served, IsResponses, UnusedBetween;
    StepAt(first, calls, t, last, i);
    CursorAfterSeek(t.before[i], t.after[i], calls[i], t.log[i]);
    NextBeginsThere(first, calls, t, last, i, j, calls[i].fd);
  }
}

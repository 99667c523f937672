/** Writing one file through a session (`SftpSession::upload` and `write_all` in `clift-transport/src/session.rs`). */
module Upload {
  import opened Prelude
  import opened Wire
  import opened Codec
  import opened RemoteFs
  import opened Session

  const WRITE_WINDOW: nat := 64

  // ---------- The local file ----------

  datatype ReadResult = Data(bytes: Bytes) | Interrupted | Failed

  /** A reader that returns as much or as little as it likes, is interrupted at most `patience` more times, and may
      fail. */
  class Source {
    var rest: Bytes
    var patience: nat
    ghost var failed: bool

    method Read(most: nat) returns (result: ReadResult)
      requires most > 0
      modifies this
      ensures result.Failed? ==> rest == old(rest)
      ensures failed == (old(failed) || result.Failed?)
      ensures result.Interrupted? ==> rest == old(rest) && patience < old(patience)
      ensures result.Data? ==> patience == old(patience)
      ensures result.Data? ==> |result.bytes| <= most && old(rest) == result.bytes + rest
      ensures result.Data? ==> (result.bytes == [] <==> old(rest) == [])
    {
      if * {
        failed := true;
        return Failed;
      }
      if patience > 0 {
        if * {
          patience := patience - 1;
          return Interrupted;
        }
      }
      if rest == [] {
        return Data([]);
      }
      var count :| 0 < count <= most && count <= |rest|;
      result := Data(rest[..count]);
      rest := rest[count..];
    }
  }

  method CopyIn(buffer: array<Byte>, count: nat, bytes: Bytes)
    requires count + |bytes| <= buffer.Length
    modifies buffer
    ensures buffer[..count + |bytes|] == old(buffer[..count]) + bytes
  {
    ghost var before := buffer[..count];
    forall i | 0 <= i < |bytes| {
      buffer[count + i] := bytes[i];
    }
    assert buffer[..count] == before && buffer[count..count + |bytes|] == bytes;
    assert buffer[..count + |bytes|] == buffer[..count] + buffer[count..count + |bytes|];
  }

  /** Short reads are put together: only the end of the source leaves the buffer part empty. */
  method Fill(source: Source, buffer: array<Byte>) returns (filled: Option<nat>)
    requires buffer.Length > 0
    modifies source, buffer
    ensures filled.Some? ==>
      && filled.value == Min(buffer.Length, |old(source.rest)|)
      && buffer[..filled.value] == old(source.rest)[..filled.value]
      && source.rest == old(source.rest)[filled.value..]
    ensures |source.rest| <= |old(source.rest)|
    ensures source.failed == (old(source.failed) || filled.None?)
  {
    var count := 0;
    while count < buffer.Length
      invariant 0 <= count <= buffer.Length
      invariant old(source.rest) == buffer[..count] + source.rest
      invariant source.failed == old(source.failed)
      decreases |source.rest|, source.patience, buffer.Length - count
    {
      var result := source.Read(buffer.Length - count);
      match result
      case Data(bytes) =>
        if bytes == [] {
          break;
        }
        ghost var before := buffer[..count];
        CopyIn(buffer, count, bytes);
        assert before + (bytes + source.rest) == before + bytes + source.rest;
        count := count + |bytes|;
      case Interrupted =>
      case Failed =>
        return None;
    }
    return Some(count);
  }

  // ---------- What the history has to show ----------

  predicate IsModeOrWrite(op: Op) {
    op.Fsetstat? || op.Write?
  }

  function AfterEvent(inFlight: set<U32>, event: Event): set<U32> {
    if event.Consumed? then inFlight - {event.id}
    else if IsModeOrWrite(event.request.op) then inFlight + {event.request.id}
    else inFlight
  }

  /** The mode and write requests sent and not yet answered, as far as the client knows. */
  function WritesInFlight(events: seq<Event>): set<U32> {
    if events == [] then {} else AfterEvent(WritesInFlight(events[..|events| - 1]), events[|events| - 1])
  }

  ghost predicate WindowHeld(events: seq<Event>) {
    forall k :: 0 <= k <= |events| ==> |WritesInFlight(events[..k])| <= WRITE_WINDOW
  }

  function Closes(events: seq<Event>, handle: Bytes): nat {
    if events == [] then 0 else
      Closes(events[..|events| - 1], handle)
      + if events[|events| - 1].Sent? && events[|events| - 1].request.op == Close(handle) then 1 else 0
  }

  /** Nothing of this upload has been written or closed yet. */
  ghost predicate Fresh(events: seq<Event>, handle: Bytes) {
    WindowHeld(events) && WritesInFlight(events) == {} && Closes(events, handle) == 0
  }

  lemma ClosedEvents(events: seq<Event>, id: U32, handle: Bytes)
    requires WindowHeld(events) && WritesInFlight(events) == {}
    ensures WindowHeld(events + [Sent(Request(id, Close(handle)))])
    ensures WindowHeld(events + [Sent(Request(id, Close(handle)))] + [Consumed(id)])
    ensures Closes(events + [Sent(Request(id, Close(handle)))] + [Consumed(id)], handle) == Closes(events, handle) + 1
  {
    OneMoreEvent(events, Sent(Request(id, Close(handle))), handle);
    OneMoreEvent(events + [Sent(Request(id, Close(handle)))], Consumed(id), handle);
  }

  lemma ConsumedEvents(events: seq<Event>, first: U32, second: U32, handle: Bytes)
    requires WindowHeld(events) && WritesInFlight(events) == {}
    ensures WindowHeld(events + [Consumed(first)]) && WindowHeld(events + [Consumed(second)])
    ensures WindowHeld(events + [Consumed(first)] + [Consumed(second)])
    ensures Closes(events + [Consumed(first)] + [Consumed(second)], handle) == Closes(events, handle)
  {
    OneMoreEvent(events, Consumed(first), handle);
    OneMoreEvent(events, Consumed(second), handle);
    OneMoreEvent(events + [Consumed(first)], Consumed(second), handle);
    hide WindowHeld, Closes;
  }

  lemma OneMoreClose(events: seq<Event>, event: Event, handle: Bytes)
    ensures Closes(events + [event], handle)
         == Closes(events, handle) + if event.Sent? && event.request.op == Close(handle) then 1 else 0
  {
    assert (events + [event])[..|events|] == events;
  }

  lemma OneMoreEvent(events: seq<Event>, event: Event, handle: Bytes)
    requires WindowHeld(events)
    ensures WritesInFlight(events + [event]) == AfterEvent(WritesInFlight(events), event)
    ensures |AfterEvent(WritesInFlight(events), event)| <= WRITE_WINDOW ==> WindowHeld(events + [event])
    ensures Closes(events + [event], handle)
         == Closes(events, handle) + if event.Sent? && event.request.op == Close(handle) then 1 else 0
  {
    var more := events + [event];
    assert more[..|events|] == events;
    if |WritesInFlight(more)| <= WRITE_WINDOW {
      forall k | 0 <= k <= |more| ensures |WritesInFlight(more[..k])| <= WRITE_WINDOW {
        if k <= |events| {
          assert more[..k] == events[..k];
        } else {
          assert more[..k] == more;
        }
      }
    }
  }

  // ---------- What the server said ----------

  function RefusalOf(reply: Reply): Option<Failure> {
    match reply
    case Status(_, code, message) => if code != OK then Some(Refused(Refusal(code, message))) else None
    case _ => None
  }

  /** The first of the server's replies that is a refusal. */
  function FirstRefusal(replies: seq<Reply>): Option<Failure> {
    if replies == [] then None
    else
      var earlier := FirstRefusal(replies[..|replies| - 1]);
      if earlier.Some? then earlier else RefusalOf(replies[|replies| - 1])
  }

  lemma OneMoreReply(replies: seq<Reply>, reply: Reply)
    ensures FirstRefusal(replies + [reply])
         == if FirstRefusal(replies).Some? then FirstRefusal(replies) else RefusalOf(reply)
  {
    assert (replies + [reply])[..|replies|] == replies;
  }

  // ---------- One file being written ----------

  /** What is being written where, and what there was before: on the server, owed to the client, and in the history.
      `granted` says whether the server grants the mode. */
  datatype Job = Job(
    server: Server, handle: Bytes, path: Path, mode: U32, total: Bytes,
    nodes: map<Path, Node>, handles: map<Bytes, Path>, owed: map<U32, Reply>, granted: bool,
    log: seq<Event>, trees: seq<Fs>, replies: seq<Reply>)

  /** Where the writing has got to, on both sides. `replies` are the server's, in the order of the requests; the first
      `read` of them have been collected. */
  datatype Progress = Progress(
    fs: Fs, owed: map<U32, Reply>, events: seq<Event>, replies: seq<Reply>, read: nat, pending: seq<U32>, offset: nat,
    finished: bool, failure: Option<Failure>, closing: Option<(U32, U32)>)

  function ToSet(ids: seq<U32>): set<U32> {
    set id | id in ids
  }

  lemma {:induction false} FewIds(ids: seq<U32>)
    ensures |ToSet(ids)| <= |ids|
  {
    if ids != [] {
      FewIds(ids[1..]);
      assert ToSet(ids) == {ids[0]} + ToSet(ids[1..]);
    }
  }

  function ClosingIds(closing: Option<(U32, U32)>): set<U32> {
    if closing.Some? then {closing.value.0, closing.value.1} else {}
  }

  predicate Granted(server: Server, n: nat, fs: Fs, op: Op) {
    AsOk(ToReply(0, Serve(server, n, fs, op).1)).Ok?
  }

  /** Only the file being written, and its handle, have changed on the server; and unless the mode was refused, the
      file never has a byte in it before it has its mode. */
  predicate OnlyThisFile(job: Job, fs: Fs) {
    && job.path in fs.nodes && fs.nodes[job.path].File?
    && fs.nodes - {job.path} == job.nodes - {job.path}
    && (fs.nodes[job.path].contents != [] ==> ModeKept(job, fs))
  }

  predicate ModeKept(job: Job, fs: Fs) {
    job.granted ==> job.path in fs.nodes && fs.nodes[job.path].bits == job.server.setBits(job.path, job.mode)
  }

  predicate HandleKept(job: Job, p: Progress) {
    && job.handle in job.handles && job.handles[job.handle] == job.path
    && (p.closing.None? ==> p.fs.handles == job.handles)
    && (p.closing.Some? ==> p.fs.handles == job.handles || p.fs.handles == job.handles - {job.handle})
  }

  /** Exactly the pending requests and the closing pair are owed an answer, besides what was owed before. */
  predicate Accounted(job: Job, p: Progress) {
    && p.owed.Keys == job.owed.Keys + ToSet(p.pending) + ClosingIds(p.closing)
    && (forall id :: id in job.owed ==> p.owed[id] == job.owed[id])
    && Distinct(p.pending)
    && ToSet(p.pending) !! job.owed.Keys
    && ClosingIds(p.closing) !! job.owed.Keys + ToSet(p.pending)
    && (p.closing.Some? ==> p.closing.value.0 != p.closing.value.1)
  }

  ghost predicate Recorded(job: Job, p: Progress) {
    && |p.pending| <= WRITE_WINDOW
    && WindowHeld(p.events)
    && WritesInFlight(p.events) == ToSet(p.pending)
    && Closes(p.events, job.handle) == if p.closing.Some? then 1 else 0
  }

  /** Unless something has been refused, the file holds exactly what has been sent so far. */
  predicate WrittenSoFar(job: Job, p: Progress)
    requires ToSet(p.pending) <= p.owed.Keys
  {
    && p.offset <= |job.total|
    && (p.finished ==> p.offset == |job.total|)
    && (p.failure.None? && (forall id :: id in p.pending ==> AsOk(p.owed[id]).Ok?)
        ==> job.path in p.fs.nodes
            && p.fs.nodes[job.path] == File(job.server.setBits(job.path, job.mode), job.total[..p.offset]))
  }

  /** The read-back, if granted, describes the file; the close, if granted, has released the handle. */
  predicate ReadBack(job: Job, p: Progress)
    requires ClosingIds(p.closing) <= p.owed.Keys
  {
    p.closing.Some? ==>
      && p.finished && job.path in p.fs.nodes
      && (AsAttrs(p.owed[p.closing.value.0]).Ok?
          ==> AsAttrs(p.owed[p.closing.value.0]).value == AttrsOf(p.fs.nodes[job.path]))
      && (AsOk(p.owed[p.closing.value.1]).Ok? ==> p.fs.handles == job.handles - {job.handle})
  }

  function ClosingCount(closing: Option<(U32, U32)>): nat {
    if closing.Some? then 2 else 0
  }

  /** The pending answers are the server's next replies in order. */
  predicate PendingInOrder(p: Progress) {
    && p.read + |p.pending| <= |p.replies|
    && forall i :: 0 <= i < |p.pending| ==>
         p.pending[i] in p.owed && p.owed[p.pending[i]] == p.replies[p.read + i] && p.replies[p.read + i].Status?
  }

  /** The closing pair are its last two. */
  predicate ClosingLast(p: Progress) {
    p.closing.Some? ==>
      && |p.replies| >= 2
      && p.closing.value.0 in p.owed && p.owed[p.closing.value.0] == p.replies[|p.replies| - 2]
      && p.closing.value.1 in p.owed && p.owed[p.closing.value.1] == p.replies[|p.replies| - 1]
  }

  /** And nothing else is outstanding; what has stopped the writing is the first refusal read so far, or the local
      file. */
  predicate Ranked(p: Progress) {
    && p.read + |p.pending| + ClosingCount(p.closing) == |p.replies|
    && PendingInOrder(p) && ClosingLast(p)
    && (p.failure == Some(Local) || p.failure == FirstRefusal(p.replies[..p.read]))
  }

  ghost predicate OnTrack(job: Job, p: Progress) {
    && OnlyThisFile(job, p.fs)
    && ModeKept(job, p.fs)
    && HandleKept(job, p)
    && Accounted(job, p)
    && Recorded(job, p)
    && WrittenSoFar(job, p)
    && ReadBack(job, p)
    && Ranked(p)
  }

  /** The far side after one more request, with its answer owed. */
  function Sending(job: Job, p: Progress, n: nat, id: U32, op: Op): Progress {
    var (after, answer) := Serve(job.server, n, p.fs, op);
    p.(fs := after, owed := p.owed[id := ToReply(id, answer)], events := p.events + [Sent(Request(id, op))],
       replies := p.replies + [ToReply(id, answer)])
  }

  lemma PendingStillInOrder(p: Progress, p': Progress)
    requires PendingInOrder(p) && p'.pending == p.pending && p'.read == p.read && p.replies <= p'.replies
    requires forall id :: id in p.owed ==> id in p'.owed && p'.owed[id] == p.owed[id]
    ensures PendingInOrder(p')
  {
  }

  lemma OneMoreInOrder(p: Progress, id: U32, p': Progress)
    requires PendingInOrder(p) && p.read + |p.pending| < |p.replies|
    requires p'.pending == p.pending + [id] && p'.read == p.read && p'.owed == p.owed && p'.replies == p.replies
    requires id in p.owed && p.owed[id] == p.replies[p.read + |p.pending|] && p.owed[id].Status?
    ensures PendingInOrder(p')
  {
    forall i | 0 <= i < |p'.pending|
      ensures p'.pending[i] in p'.owed && p'.owed[p'.pending[i]] == p'.replies[p'.read + i]
           && p'.replies[p'.read + i].Status?
    {
      if i < |p.pending| {
        assert p.pending[i] in p.owed && p.owed[p.pending[i]] == p.replies[p.read + i];
      }
    }
  }

  lemma RankedMore(p: Progress, id: U32, reply: Reply, p': Progress)
    requires Ranked(p) && p.closing.None? && p'.closing.None? && id !in p.owed && reply.Status?
    requires p'.owed == p.owed[id := reply] && p'.replies == p.replies + [reply] && p'.pending == p.pending + [id]
    requires p'.read == p.read && p'.failure == p.failure
    ensures Ranked(p')
  {
    hide FirstRefusal, PendingInOrder;
    assert p'.replies[..p.read] == p.replies[..p.read];
    PendingStillInOrder(p, p'.(pending := p.pending));
    assert p'.replies[|p.replies|] == reply && p'.owed[id] == reply;
    OneMoreInOrder(p'.(pending := p.pending), id, p');
  }

  lemma RankedClosing(p: Progress, looked: U32, closed: U32, l: Reply, c: Reply, p': Progress)
    requires Ranked(p) && p.closing.None? && looked !in p.owed && closed !in p.owed && looked != closed
    requires p'.owed == p.owed[looked := l][closed := c] && p'.replies == p.replies + [l] + [c]
    requires p'.pending == p.pending && p'.closing == Some((looked, closed))
    requires p'.read == p.read && p'.failure == p.failure
    ensures Ranked(p')
  {
    hide FirstRefusal, PendingInOrder;
    assert p'.replies[..p.read] == p.replies[..p.read];
    PendingStillInOrder(p, p');
    assert |p'.replies| == |p.replies| + 2;
    assert p'.replies[|p.replies|] == l && p'.replies[|p.replies| + 1] == c;
  }

  lemma RankedRead(p: Progress, id: U32, p': Progress)
    requires Ranked(p) && p.pending != [] && id == p.pending[0] && id in p.owed && Distinct(p.pending)
    requires p.closing.Some? ==> id != p.closing.value.0 && id != p.closing.value.1
    requires p'.owed == p.owed - {id} && p'.replies == p.replies && p'.pending == p.pending[1..]
    requires p'.closing == p.closing && p'.read == p.read + 1
    requires p'.failure == if p.failure.None? then RefusalOf(p.owed[id]) else p.failure
    ensures Ranked(p')
  {
    hide FirstRefusal, PendingInOrder, RefusalOf;
    OldestInOrder(p);
    OneMoreReply(p.replies[..p.read], p.replies[p.read]);
    assert p.replies[..p.read + 1] == p.replies[..p.read] + [p.replies[p.read]];
    OthersInOrder(p, p');
  }

  lemma OldestInOrder(p: Progress)
    requires PendingInOrder(p) && p.pending != []
    ensures p.read < |p.replies| && p.pending[0] in p.owed && p.owed[p.pending[0]] == p.replies[p.read]
  {
    assert p.pending[0] in p.owed && p.owed[p.pending[0]] == p.replies[p.read + 0];
  }

  lemma OthersInOrder(p: Progress, p': Progress)
    requires PendingInOrder(p) && p.pending != [] && Distinct(p.pending)
    requires p'.owed == p.owed - {p.pending[0]} && p'.replies == p.replies && p'.pending == p.pending[1..]
    requires p'.read == p.read + 1
    ensures PendingInOrder(p')
  {
    forall i | 0 <= i < |p'.pending|
      ensures p'.pending[i] in p'.owed && p'.owed[p'.pending[i]] == p'.replies[p'.read + i]
           && p'.replies[p'.read + i].Status?
    {
      assert p'.pending[i] == p.pending[i + 1] && p.pending[0] != p.pending[i + 1];
      assert p.owed[p.pending[i + 1]] == p.replies[p.read + (i + 1)];
    }
  }

  /** A mode or write request is answered with a status. */
  lemma StatusForWrites(server: Server, n: nat, fs: Fs, op: Op, id: U32)
    requires IsModeOrWrite(op)
    ensures ToReply(id, Serve(server, n, fs, op).1).Status?
  {
  }

  lemma PendingGrows(pending: seq<U32>, id: U32)
    requires Distinct(pending) && id !in pending
    ensures Distinct(pending + [id]) && ToSet(pending + [id]) == ToSet(pending) + {id}
  {
  }

  lemma PendingShrinks(pending: seq<U32>)
    requires pending != [] && Distinct(pending)
    ensures Distinct(pending[1..]) && ToSet(pending[1..]) == ToSet(pending) - {pending[0]}
  {
    assert pending == [pending[0]] + pending[1..];
  }

  lemma ModeSent(job: Job, p: Progress, n: nat, id: U32)
    requires RefusesHonestly(job.server)
    requires OnlyThisFile(job, p.fs) && HandleKept(job, p) && p.fs.nodes[job.path].File?
    requires p.fs.nodes[job.path].contents == []
    requires p.owed == job.owed && Fresh(p.events, job.handle) && p.pending == [] && p.offset == 0
    requires !p.finished && p.failure.None? && p.closing.None? && id !in p.owed && Ranked(p)
    requires job.granted == Granted(job.server, n, p.fs, Fsetstat(job.handle, job.mode))
    ensures OnTrack(job, Sending(job, p, n, id, Fsetstat(job.handle, job.mode)).(pending := [id]))
  {
    hide Ranked, FirstRefusal, Recorded, Serve, RefusesHonestly;
    var op := Fsetstat(job.handle, job.mode);
    var (after, answer) := Serve(job.server, n, p.fs, op);
    var p' := Sending(job, p, n, id, op).(pending := [id]);
    ModeServed(job, n, p.fs, id);
    ModeRecorded(job, p, Request(id, op), p');
    StatusForWrites(job.server, n, p.fs, op, id);
    RankedMore(p, id, ToReply(id, answer), p');
    assert ToSet([id]) == {id};
    assert p'.owed == job.owed[id := ToReply(id, answer)];
    assert p'.pending[0] == id;
  }

  lemma ModeServed(job: Job, n: nat, fs: Fs, id: U32)
    requires RefusesHonestly(job.server) && OnlyThisFile(job, fs)
    requires job.handle in fs.handles && fs.handles[job.handle] == job.path && fs.nodes[job.path].contents == []
    requires job.granted == Granted(job.server, n, fs, Fsetstat(job.handle, job.mode))
    ensures var (after, answer) := Serve(job.server, n, fs, Fsetstat(job.handle, job.mode));
            && OnlyThisFile(job, after) && ModeKept(job, after) && after.handles == fs.handles
            && (AsOk(ToReply(id, answer)).Ok?
                ==> after.nodes[job.path] == File(job.server.setBits(job.path, job.mode), job.total[..0]))
  {
    assert job.total[..0] == [];
  }

  lemma ModeRecorded(job: Job, p: Progress, request: Request, p': Progress)
    requires Fresh(p.events, job.handle) && request.op.Fsetstat? && p'.closing.None?
    requires p'.events == p.events + [Sent(request)] && p'.pending == [request.id]
    ensures Recorded(job, p')
  {
    OneMoreEvent(p.events, Sent(request), job.handle);
    assert ToSet([request.id]) == {request.id};
  }

  /** One more request in the window: who is owed what. */
  lemma PendingAccounted(job: Job, p: Progress, id: U32, reply: Reply, p': Progress)
    requires Accounted(job, p) && p.closing.None? && p'.closing.None? && id !in p.owed
    requires p'.owed == p.owed[id := reply] && p'.pending == p.pending + [id]
    ensures Accounted(job, p')
  {
    PendingGrows(p.pending, id);
  }

  /** One more request in the window: what the history shows. */
  lemma PendingRecorded(job: Job, p: Progress, request: Request, p': Progress)
    requires Recorded(job, p) && Accounted(job, p) && p.closing.None? && p'.closing.None?
    requires |p.pending| < WRITE_WINDOW && request.id !in p.owed && IsModeOrWrite(request.op)
    requires p'.events == p.events + [Sent(request)] && p'.pending == p.pending + [request.id]
    ensures Recorded(job, p')
  {
    PendingGrows(p.pending, request.id);
    OneMoreEvent(p.events, Sent(request), job.handle);
    FewIds(p'.pending);
  }

  /** One more piece of the file, handled by the server. */
  lemma PieceWritten(job: Job, p: Progress, n: nat, id: U32, data: Bytes)
    requires RefusesHonestly(job.server) && OnTrack(job, p)
    requires p.closing.None? && id !in p.owed && p.offset < 0x1_0000_0000_0000_0000
    requires p.offset + |data| <= |job.total| && data == job.total[p.offset..p.offset + |data|]
    ensures var (after, answer) := Serve(job.server, n, p.fs, Write(job.handle, p.offset, data));
            && OnlyThisFile(job, after) && ModeKept(job, after) && after.handles == p.fs.handles
            && (AsOk(ToReply(id, answer)).Ok? && p.failure.None? && (forall id :: id in p.pending ==> AsOk(p.owed[id]).Ok?)
                ==> after.nodes[job.path] == File(job.server.setBits(job.path, job.mode), job.total[..p.offset + |data|]))
  {
    assert job.total[..p.offset] + data == job.total[..p.offset + |data|];
    var after := Serve(job.server, n, p.fs, Write(job.handle, p.offset, data)).0;
    assert after.nodes - {job.path} == p.fs.nodes - {job.path};
  }

  lemma WriteSent(job: Job, p: Progress, n: nat, id: U32, data: Bytes)
    requires RefusesHonestly(job.server) && OnTrack(job, p)
    requires p.closing.None? && !p.finished && p.failure.None? && |p.pending| < WRITE_WINDOW && id !in p.owed
    requires p.offset < 0x1_0000_0000_0000_0000
    requires p.offset + |data| <= |job.total| && data == job.total[p.offset..p.offset + |data|]
    ensures OnTrack(job, Sending(job, p, n, id, Write(job.handle, p.offset, data))
                         .(pending := p.pending + [id], offset := p.offset + |data|))
  {
    hide Ranked, FirstRefusal, Recorded;
    var op := Write(job.handle, p.offset, data);
    var (after, answer) := Serve(job.server, n, p.fs, op);
    PieceWritten(job, p, n, id, data);
    var p' := Sending(job, p, n, id, op).(pending := p.pending + [id], offset := p.offset + |data|);
    PendingAccounted(job, p, id, ToReply(id, answer), p');
    PendingRecorded(job, p, Request(id, op), p');
    StatusForWrites(job.server, n, p.fs, op, id);
    RankedMore(p, id, ToReply(id, answer), p');
    WriteAnswered(job, p, id, ToReply(id, answer), p');
  }

  lemma WriteAnswered(job: Job, p: Progress, id: U32, reply: Reply, p': Progress)
    requires ToSet(p.pending) <= p.owed.Keys && ToSet(p'.pending) <= p'.owed.Keys && id !in p.owed
    requires WrittenSoFar(job, p) && p'.offset <= |job.total| && !p'.finished && p'.failure == p.failure
    requires p'.owed == p.owed[id := reply] && p'.pending == p.pending + [id]
    requires AsOk(reply).Ok? && p.failure.None? && (forall other :: other in p.pending ==> AsOk(p.owed[other]).Ok?)
             ==> job.path in p'.fs.nodes
                 && p'.fs.nodes[job.path] == File(job.server.setBits(job.path, job.mode), job.total[..p'.offset])
    ensures WrittenSoFar(job, p')
  {
    assert p'.pending[|p.pending|] == id;
    assert id in p'.pending && p'.owed[id] == reply;
    if p'.failure.None? && forall other :: other in p'.pending ==> AsOk(p'.owed[other]).Ok? {
      forall other | other in p.pending ensures AsOk(p.owed[other]).Ok? {
        assert other in p'.pending && other in ToSet(p.pending);
      }
    }
  }

  lemma FstatServed(server: Server, n: nat, fs: Fs, handle: Bytes, id: U32)
    requires RefusesHonestly(server) && handle in fs.handles && fs.handles[handle] in fs.nodes
    ensures var (after, answer) := Serve(server, n, fs, Fstat(handle));
            && after == fs
            && (AsAttrs(ToReply(id, answer)).Ok?
                ==> AsAttrs(ToReply(id, answer)).value == AttrsOf(fs.nodes[fs.handles[handle]]))
  {
  }

  lemma CloseServed(server: Server, n: nat, fs: Fs, handle: Bytes, id: U32)
    requires RefusesHonestly(server)
    ensures var (after, answer) := Serve(server, n, fs, Close(handle));
            && after.nodes == fs.nodes && (after.handles == fs.handles || after.handles == fs.handles - {handle})
            && (AsOk(ToReply(id, answer)).Ok? ==> after.handles == fs.handles - {handle})
  {
  }

  lemma ClosingAccounted(job: Job, p: Progress, looked: U32, closed: U32, l: Reply, c: Reply, p': Progress)
    requires Accounted(job, p) && p.closing.None? && looked !in p.owed && closed !in p.owed && looked != closed
    requires p'.owed == p.owed[looked := l][closed := c] && p'.pending == p.pending
    requires p'.closing == Some((looked, closed))
    ensures Accounted(job, p')
  {
  }

  /** What the file holds does not depend on anything but itself and the pending answers. */
  lemma StillWritten(job: Job, p: Progress, p': Progress)
    requires ToSet(p.pending) <= p.owed.Keys && ToSet(p'.pending) <= p'.owed.Keys && WrittenSoFar(job, p)
    requires p'.fs.nodes == p.fs.nodes && p'.offset == p.offset && p'.finished == p.finished
    requires p'.failure.None? ==> p.failure.None?
    requires forall id :: id in p.pending ==>
      (id in p'.pending && p'.owed[id] == p.owed[id]) || AsOk(p.owed[id]).Ok? || p'.failure.Some?
    ensures WrittenSoFar(job, p')
  {
    if p'.failure.None? && forall id :: id in p'.pending ==> AsOk(p'.owed[id]).Ok? {
      forall id | id in p.pending ensures AsOk(p.owed[id]).Ok? {
        assert id in ToSet(p.pending);
      }
    }
  }

  /** The read-back and the close, sent together behind the last piece. */
  lemma ClosingSent(job: Job, p: Progress, n: nat, looked: U32, closed: U32)
    requires RefusesHonestly(job.server) && OnTrack(job, p)
    requires p.finished && p.closing.None?
    requires looked !in p.owed && closed !in p.owed && looked != closed
    ensures var p1 := Sending(job, p, n, looked, Fstat(job.handle));
            OnTrack(job, Sending(job, p1, n + 1, closed, Close(job.handle)).(closing := Some((looked, closed))))
  {
    var p1 := Sending(job, p, n, looked, Fstat(job.handle));
    var p2 := Sending(job, p1, n + 1, closed, Close(job.handle)).(closing := Some((looked, closed)));
    FstatServed(job.server, n, p.fs, job.handle, looked);
    CloseServed(job.server, n + 1, p.fs, job.handle, closed);
    ClosingAnswered(job, p, looked, closed, p1.owed[looked], p2.owed[closed], p2);
  }

  lemma ClosingAnswered(job: Job, p: Progress, looked: U32, closed: U32, l: Reply, c: Reply, p2: Progress)
    requires OnTrack(job, p) && p.finished && p.closing.None?
    requires looked !in p.owed && closed !in p.owed && looked != closed
    requires p2.owed == p.owed[looked := l][closed := c] && p2.closing == Some((looked, closed))
    requires p2.pending == p.pending && p2.offset == p.offset && p2.finished == p.finished && p2.failure == p.failure
    requires p2.events == p.events + [Sent(Request(looked, Fstat(job.handle)))]
                          + [Sent(Request(closed, Close(job.handle)))]
    requires p2.replies == p.replies + [l] + [c] && p2.read == p.read
    requires p2.fs.nodes == p.fs.nodes
    requires p2.fs.handles == p.fs.handles || p2.fs.handles == p.fs.handles - {job.handle}
    requires AsAttrs(l).Ok? ==> AsAttrs(l).value == AttrsOf(p.fs.nodes[job.path])
    requires AsOk(c).Ok? ==> p2.fs.handles == p.fs.handles - {job.handle}
    ensures OnTrack(job, p2)
  {
    ClosingRecorded(job, p, p2, looked, closed);
    ClosingAccounted(job, p, looked, closed, l, c, p2);
    RankedClosing(p, looked, closed, l, c, p2);
    forall id | id in p.pending ensures id in p2.pending && p2.owed[id] == p.owed[id] {
      assert id in ToSet(p.pending);
    }
    StillWritten(job, p, p2);
  }

  lemma ClosingRecorded(job: Job, p: Progress, p2: Progress, looked: U32, closed: U32)
    requires Recorded(job, p) && p.closing.None? && p2.closing.Some? && p2.pending == p.pending
    requires p2.events == p.events + [Sent(Request(looked, Fstat(job.handle)))]
                          + [Sent(Request(closed, Close(job.handle)))]
    ensures Recorded(job, p2)
  {
    var e1 := Sent(Request(looked, Fstat(job.handle)));
    FewIds(p.pending);
    OneMoreEvent(p.events, e1, job.handle);
    OneMoreEvent(p.events + [e1], Sent(Request(closed, Close(job.handle))), job.handle);
  }

  /** The answer to the oldest pending request has been read. */
  function Collecting(p: Progress): Progress
    requires p.pending != [] && p.pending[0] in p.owed
  {
    var id := p.pending[0];
    p.(owed := p.owed - {id}, events := p.events + [Consumed(id)], pending := p.pending[1..],
       failure := if p.failure.None? then RefusalOf(p.owed[id]) else p.failure, read := p.read + 1)
  }

  lemma AnswerCollected(job: Job, p: Progress)
    requires OnTrack(job, p) && p.pending != []
    ensures p.pending[0] in p.owed && OnTrack(job, Collecting(p))
  {
    var id := p.pending[0];
    assert id in ToSet(p.pending);
    Collected(job, p, id, Collecting(p));
  }

  lemma Collected(job: Job, p: Progress, id: U32, p': Progress)
    requires OnTrack(job, p) && p.pending != [] && id == p.pending[0] && id in p.owed
    requires p'.owed == p.owed - {id} && p'.pending == p.pending[1..] && p'.events == p.events + [Consumed(id)]
    requires p'.failure == (if p.failure.None? then RefusalOf(p.owed[id]) else p.failure)
    requires p'.replies == p.replies && p'.read == p.read + 1
    requires p'.fs == p.fs && p'.offset == p.offset && p'.finished == p.finished && p'.closing == p.closing
    ensures OnTrack(job, p')
  {
    PendingShrinks(p.pending);
    CollectedAccounted(job, p, p');
    CollectedRecorded(job, p, p');
    forall other | other in p.pending
      ensures other != id ==> other in p'.pending && p'.owed[other] == p.owed[other]
    {
      if other != id {
        assert other in ToSet(p'.pending);
      }
    }
    StillWritten(job, p, p');
    CollectedReadBack(job, p, id, p');
    assert id in ToSet(p.pending);
    RankedRead(p, id, p');
    hide Ranked;
  }

  lemma CollectedAccounted(job: Job, p: Progress, p': Progress)
    requires Accounted(job, p) && p.pending != [] && p'.closing == p.closing
    requires p'.owed == p.owed - {p.pending[0]} && p'.pending == p.pending[1..]
    ensures Accounted(job, p')
  {
    PendingShrinks(p.pending);
    assert p.pending[0] in ToSet(p.pending);
  }

  lemma CollectedReadBack(job: Job, p: Progress, id: U32, p': Progress)
    requires Accounted(job, p) && Accounted(job, p') && ReadBack(job, p) && id in p.pending
    requires p'.owed == p.owed - {id} && p'.fs == p.fs && p'.finished == p.finished && p'.closing == p.closing
    ensures ReadBack(job, p')
  {
    assert id in ToSet(p.pending);
    if p.closing.Some? {
      assert p.closing.value.0 in ClosingIds(p.closing) && p.closing.value.1 in ClosingIds(p.closing);
    }
  }

  lemma CollectedRecorded(job: Job, p: Progress, p': Progress)
    requires Recorded(job, p) && p.pending != [] && Distinct(p.pending) && p'.closing == p.closing
    requires p'.pending == p.pending[1..] && p'.events == p.events + [Consumed(p.pending[0])]
    ensures Recorded(job, p')
  {
    PendingShrinks(p.pending);
    OneMoreEvent(p.events, Consumed(p.pending[0]), job.handle);
    FewIds(p'.pending);
  }

  /** What does not depend on how far reading the source has got. */
  lemma SameOtherwise(job: Job, p: Progress, p': Progress)
    requires HandleKept(job, p) && Accounted(job, p) && Recorded(job, p)
    requires p'.fs == p.fs && p'.owed == p.owed && p'.events == p.events && p'.pending == p.pending
    requires p'.closing == p.closing
    ensures HandleKept(job, p') && Accounted(job, p') && Recorded(job, p')
  {
    hide WindowHeld, WritesInFlight, Closes;
  }

  lemma RankedStill(p: Progress, p': Progress)
    requires Ranked(p) && p'.owed == p.owed && p'.replies == p.replies && p'.read == p.read
    requires p'.pending == p.pending && p'.closing == p.closing
    requires p'.failure == Some(Local) || p'.failure == p.failure
    ensures Ranked(p')
  {
    hide FirstRefusal, PendingInOrder;
    PendingStillInOrder(p, p');
  }

  lemma StoppedReading(job: Job, p: Progress)
    requires OnTrack(job, p)
    ensures OnTrack(job, p.(failure := Some(Local)))
  {
    hide HandleKept, Recorded, Ranked, OnlyThisFile;
    var p' := p.(failure := Some(Local));
    SameOtherwise(job, p, p');
    RankedStill(p, p');
    StillWritten(job, p, p');
  }

  lemma ReadTo(job: Job, p: Progress, finished: bool)
    requires OnTrack(job, p) && !p.finished && (finished ==> p.offset == |job.total|)
    ensures OnTrack(job, p.(finished := finished))
  {
    hide HandleKept, Recorded, Ranked, OnlyThisFile;
    var p' := p.(finished := finished);
    SameOtherwise(job, p, p');
    RankedStill(p, p');
  }

  // ---------- The writing itself ----------

  datatype Written = Written(failure: Option<Failure>, closing: Option<(U32, U32)>)

  /** How many write requests `size` more bytes can take. */
  function Pieces(size: nat, finished: bool): nat {
    if finished then 0 else size / WRITE_CHUNK + 1
  }

  lemma OnePieceFewer(size: nat, piece: nat)
    requires piece == Min(WRITE_CHUNK, size)
    ensures Pieces(size - piece, piece < WRITE_CHUNK) + (if piece > 0 then 1 else 0) <= Pieces(size, false)
  {
    if piece == WRITE_CHUNK {
      assert size / WRITE_CHUNK == (size - WRITE_CHUNK) / WRITE_CHUNK + 1;
    }
  }

  lemma FitsInAnOffset(size: nat)
    requires Pieces(size, false) < ID_LIMIT
    ensures size < 0x1_0000_0000_0000_0000
  {
  }

  ghost predicate Matches(session: SftpSession, job: Job, fs: Fs, owed: map<U32, Reply>, events: seq<Event>,
                          replies: seq<Reply>)
    reads session
  {
    && session.Valid() && !session.broken && session.server == job.server
    && session.fs == fs && session.Owed() == owed
    && session.log == job.log + events && session.replies == job.replies + replies
  }

  lemma StartsWell(session: SftpSession, job: Job, p: Progress)
    requires session.Valid() && !session.broken && session.server == job.server
    requires p == Progress(session.fs, session.Owed(), p.events, p.replies, |p.replies|, [], 0, false, None, None)
    requires session.log == job.log + p.events && session.replies == job.replies + p.replies
    requires FirstRefusal(p.replies) == None && p.fs.handles == job.handles
    requires job.handle in job.handles && job.handles[job.handle] == job.path
    ensures Matches(session, job, p.fs, p.owed, p.events, p.replies) && HandleKept(job, p) && Ranked(p)
  {
    assert p.replies[..|p.replies|] == p.replies;
  }

  lemma Tracked(job: Job, p: Progress)
    requires OnTrack(job, p)
    ensures OnlyThisFile(job, p.fs) && WindowHeld(p.events)
    ensures p.pending != [] ==> p.pending[0] in p.owed
  {
    assert p.pending != [] ==> p.pending[0] in ToSet(p.pending);
  }

  lemma LookedRecorded(job: Job, p: Progress, looked: U32)
    requires OnTrack(job, p)
    ensures WindowHeld(p.events + [Sent(Request(looked, Fstat(job.handle)))])
  {
    OneMoreEvent(p.events, Sent(Request(looked, Fstat(job.handle))), job.handle);
    FewIds(p.pending);
    hide OnlyThisFile, HandleKept, Accounted, WrittenSoFar, ReadBack, WindowHeld;
  }

  lemma LookingChangesNothing(server: Server, n: nat, fs: Fs, handle: Bytes)
    ensures Serve(server, n, fs, Fstat(handle)).0 == fs
  {
  }

  lemma OneMore(log: seq<Event>, events: seq<Event>, event: Event)
    ensures log + (events + [event]) == log + events + [event]
  {
  }

  /** Whatever has happened since, only this file has changed, at every step. */
  ghost predicate Confined(session: SftpSession, job: Job)
    reads session`fs, session`trees
  {
    && OnlyThisFile(job, session.fs)
    && job.trees <= session.trees
    && forall i :: |job.trees| <= i < |session.trees| ==> OnlyThisFile(job, session.trees[i])
  }

  /** The connection has failed, with the window kept until then. */
  ghost predicate Gone(session: SftpSession, log: seq<Event>)
    reads session
  {
    session.Valid() && session.broken && log <= session.log && WindowHeld(session.log[|log|..])
  }

  method SendMode(session: SftpSession, handle: Bytes, mode: U32, ghost job: Job, ghost p: Progress)
    returns (sent: Result<U32, Failure>, ghost p': Progress)
    requires RefusesHonestly(job.server) && Confined(session, job)
    requires Matches(session, job, p.fs, p.owed, p.events, p.replies)
    requires session.IdsLeft(1) && handle == job.handle && mode == job.mode
    requires HandleKept(job, p) && job.path in p.fs.nodes && p.fs.nodes[job.path].File?
    requires p.fs.nodes[job.path].contents == []
    requires p.owed == job.owed && Fresh(p.events, job.handle) && p.pending == [] && p.offset == 0
    requires !p.finished && p.failure.None? && p.closing.None? && Ranked(p)
    requires job.granted == Granted(job.server, session.handled, p.fs, Fsetstat(handle, mode))
    modifies session
    ensures session.nextId == old(session.nextId) + 1 && Confined(session, job)
    ensures sent.Err? ==> sent == Err(Broken) && Gone(session, job.log)
    ensures sent.Ok? ==> Matches(session, job, p'.fs, p'.owed, p'.events, p'.replies) && OnTrack(job, p')
    ensures sent.Ok? ==> p'.pending == [sent.value] && p'.offset == 0 && !p'.finished && p'.failure.None? && p'.closing.None?
  {
    hide Serve, OnTrack, OnlyThisFile, HandleKept, WindowHeld, RefusesHonestly, Ranked, SftpSession.Valid, SftpSession.Owed;
    ghost var n := session.handled;
    var id := session.NewId();
    p' := Sending(job, p, n, id, Fsetstat(handle, mode)).(pending := [id]);
    ModeSent(job, p, n, id);
    Tracked(job, p');
    Suffix(job.log, p.events);
    OneMore(job.log, p.events, Sent(Request(id, Fsetstat(handle, mode))));
    var done := session.Send(Request(id, Fsetstat(handle, mode)));
    if done.Err? {
      return Err(Broken), p';
    }
    return Ok(id), p';
  }

  method SendPiece(session: SftpSession, handle: Bytes, offset: nat, data: Bytes, ghost job: Job, ghost p: Progress)
    returns (sent: Result<U32, Failure>, ghost p': Progress)
    requires RefusesHonestly(job.server) && Confined(session, job)
    requires Matches(session, job, p.fs, p.owed, p.events, p.replies)
    requires session.IdsLeft(1) && handle == job.handle && offset == p.offset && OnTrack(job, p)
    requires p.closing.None? && !p.finished && p.failure.None? && |p.pending| < WRITE_WINDOW
    requires offset < 0x1_0000_0000_0000_0000
    requires offset + |data| <= |job.total| && data == job.total[offset..offset + |data|]
    modifies session
    ensures session.nextId == old(session.nextId) + 1 && Confined(session, job)
    ensures sent.Err? ==> sent == Err(Broken) && Gone(session, job.log)
    ensures sent.Ok? ==> Matches(session, job, p'.fs, p'.owed, p'.events, p'.replies) && OnTrack(job, p')
    ensures sent.Ok? ==> p'.pending == p.pending + [sent.value] && p'.offset == offset + |data|
    ensures sent.Ok? ==> !p'.finished && p'.failure.None? && p'.closing.None?
  {
    hide Serve, OnTrack, OnlyThisFile, WindowHeld, RefusesHonestly, SftpSession.Valid, SftpSession.Owed;
    ghost var n := session.handled;
    var id := session.NewId();
    p' := Sending(job, p, n, id, Write(handle, offset, data)).(pending := p.pending + [id], offset := offset + |data|);
    WriteSent(job, p, n, id, data);
    Tracked(job, p');
    Tracked(job, p);
    Suffix(job.log, p.events);
    OneMore(job.log, p.events, Sent(Request(id, Write(handle, offset, data))));
    var done := session.Send(Request(id, Write(handle, offset, data)));
    if done.Err? {
      return Err(Broken), p';
    }
    return Ok(id), p';
  }

  /** The variables of the writing loop. */
  datatype Writing = Writing(
    pending: seq<U32>, offset: nat, finished: bool, failure: Option<Failure>, closing: Option<(U32, U32)>)

  function ClosingLeft(w: Writing): nat {
    if w.closing.None? then 2 else 0
  }

  /** What the writing loop keeps. */
  ghost predicate Steady(session: SftpSession, source: Source, w: Writing, job: Job, p: Progress,
                         ids: nat)
    reads session, source
  {
    && Matches(session, job, p.fs, p.owed, p.events, p.replies) && OnTrack(job, p) && Confined(session, job)
    && p.pending == w.pending && p.offset == w.offset && p.finished == w.finished && p.closing == w.closing
    && p.failure == w.failure && w.failure != Some(Broken) && (w.failure == Some(Local) ==> source.failed)
    && (w.closing.Some? ==> w.finished && source.rest == [])
    && (w.failure.None? && w.finished ==> source.rest == [])
    && (w.failure.None? ==> w.offset <= |job.total| && source.rest == job.total[w.offset..])
    && (w.failure.None? ==> session.nextId + Pieces(|source.rest|, w.finished) + ClosingLeft(w) <= ids)
    && session.nextId + ClosingLeft(w) <= ids
  }

  /** What it comes to before and after the closing pair has been sent. */
  lemma Settled(session: SftpSession, source: Source, w: Writing, job: Job, p: Progress, ids: nat)
    requires Steady(session, source, w, job, p, ids)
    ensures Matches(session, job, p.fs, p.owed, p.events, p.replies) && OnTrack(job, p) && Confined(session, job)
    ensures p.pending == w.pending && p.closing == w.closing && p.failure == w.failure && w.failure != Some(Broken)
    ensures p.offset == w.offset && p.finished == w.finished && session.nextId + ClosingLeft(w) <= ids
    ensures w.failure.None? && w.finished ==> source.rest == [] && source.rest == job.total[w.offset..]
    ensures w.closing.Some? ==> w.finished && source.rest == []
    ensures w.failure == Some(Local) ==> source.failed
    ensures w.failure.None? ==> w.offset <= |job.total|
  {
  }

  lemma SteadyClosing(session: SftpSession, source: Source, w: Writing, job: Job, p: Progress, ids: nat,
                      looked: U32, closed: U32)
    requires Matches(session, job, p.fs, p.owed, p.events, p.replies) && OnTrack(job, p) && Confined(session, job)
    requires p.pending == w.pending && p.offset == w.offset && p.finished == w.finished && p.failure == w.failure
    requires p.closing == Some((looked, closed)) && w.closing.None? && w.finished && w.failure.None?
    requires w.offset <= |job.total| && source.rest == job.total[w.offset..] && source.rest == []
    requires session.nextId <= ids
    ensures Steady(session, source, w.(closing := Some((looked, closed))), job, p, ids)
  {
    hide OnTrack, Matches, Confined;
  }

  /** One turn of the inner loop of `write_all`: reads one piece and sends it. */
  method NextPiece(session: SftpSession, handle: Bytes, source: Source, buffer: array<Byte>, w: Writing,
                   ghost job: Job, ghost p: Progress, ghost ids: nat)
    returns (result: Result<Writing, Failure>, ghost p': Progress)
    requires Steady(session, source, w, job, p, ids) && RefusesHonestly(job.server)
    requires handle == job.handle && buffer.Length == WRITE_CHUNK
    requires w.failure.None? && !w.finished && w.closing.None? && |w.pending| < WRITE_WINDOW
    requires |job.total| < 0x1_0000_0000_0000_0000 && ids < ID_LIMIT
    modifies session, source, buffer
    ensures Confined(session, job) && session.nextId <= ids
    ensures result.Err? ==> result == Err(Broken) && Gone(session, job.log)
    ensures result.Ok? ==> Steady(session, source, result.value, job, p', ids)
    ensures result.Ok? ==> result.value.closing.None?
    ensures result.Ok? ==>
      || |source.rest| < |old(source.rest)|
      || (|source.rest| == |old(source.rest)| && result.value.finished)
      || (|source.rest| == |old(source.rest)| && result.value == w.(failure := Some(Local)))
  {
    hide OnTrack, Matches, Confined, Gone, OnlyThisFile, RefusesHonestly, Pieces;
    p' := p;
    var size := Fill(source, buffer);
    if size == None {
      StoppedReading(job, p);
      p' := p.(failure := Some(Local));
      return Ok(w.(failure := Some(Local))), p';
    }
    var read := size.value;
    OnePieceFewer(|job.total| - w.offset, read);
    var pending, offset := w.pending, w.offset;
    if read > 0 {
      var sent;
      sent, p' := SendPiece(session, handle, offset, buffer[..read], job, p);
      if sent.Err? {
        return Err(Broken), p';
      }
      pending := pending + [sent.value];
      offset := offset + read;
    }
    ReadTo(job, p', read < buffer.Length);
    p' := p'.(finished := read < buffer.Length);
    return Ok(Writing(pending, offset, read < buffer.Length, None, None)), p';
  }

  /** One request more, with its answer owed; or the connection has failed. */
  method SendNext(session: SftpSession, request: Request, ghost job: Job, ghost p: Progress)
    returns (sent: Result<(), Failure>)
    requires Matches(session, job, p.fs, p.owed, p.events, p.replies) && Confined(session, job)
    requires request.id !in p.owed && request.id < session.nextId
    requires OnlyThisFile(job, Serve(job.server, session.handled, p.fs, request.op).0)
    requires WindowHeld(p.events) && WindowHeld(p.events + [Sent(request)])
    modifies session`broken, session`fs, session`handled, session`inTransit, session`log, session`trees, session`replies
    ensures Confined(session, job) && (sent.Err? ==> Gone(session, job.log))
    ensures sent.Ok? ==>
      && session.handled == old(session.handled) + 1
      && var p' := Sending(job, p, old(session.handled), request.id, request.op);
         Matches(session, job, p'.fs, p'.owed, p'.events, p'.replies)
  {
    hide Serve, OnlyThisFile, WindowHeld, SftpSession.Valid, SftpSession.Owed;
    Suffix(job.log, p.events);
    OneMore(job.log, p.events, Sent(request));
    sent := session.Send(request);
  }

  /** Sends the read-back and the close together, once the last piece has been sent. */
  method SendClosing(session: SftpSession, handle: Bytes, source: Source, w: Writing,
                     ghost job: Job, ghost p: Progress, ghost ids: nat)
    returns (result: Result<Writing, Failure>, ghost p': Progress)
    requires Steady(session, source, w, job, p, ids) && RefusesHonestly(job.server)
    requires handle == job.handle && ids < ID_LIMIT
    requires w.finished && w.failure.None? && w.closing.None?
    modifies session
    ensures Confined(session, job) && session.nextId <= ids
    ensures result.Err? ==> result == Err(Broken) && Gone(session, job.log)
    ensures result.Ok? ==> Steady(session, source, result.value, job, p', ids)
    ensures result.Ok? ==> result.value.closing.Some? && result.value == w.(closing := result.value.closing)
  {
    hide Serve, Steady, OnTrack, OnlyThisFile, Pieces, WindowHeld, RefusesHonestly, Confined, Gone, SftpSession.Valid,
         SftpSession.Owed;
    ghost var n := session.handled;
    Settled(session, source, w, job, p, ids);
    var looked := session.NewId();
    var closed := session.NewId();
    ghost var p1 := Sending(job, p, n, looked, Fstat(handle));
    p' := Sending(job, p1, n + 1, closed, Close(handle)).(closing := Some((looked, closed)));
    ClosingSent(job, p, n, looked, closed);
    LookingChangesNothing(job.server, n, p.fs, handle);
    Tracked(job, p');
    Tracked(job, p);
    LookedRecorded(job, p, looked);
    var sent := SendNext(session, Request(looked, Fstat(handle)), job, p);
    if sent.Err? {
      return Err(Broken), p';
    }
    sent := SendNext(session, Request(closed, Close(handle)), job, p1);
    if sent.Err? {
      return Err(Broken), p';
    }
    SteadyClosing(session, source, w, job, p', ids, looked, closed);
    return Ok(w.(closing := Some((looked, closed)))), p';
  }

  /** Reads the answer to the oldest pending request, and keeps the first refusal. */
  method Collect(session: SftpSession, source: Source, w: Writing,
                 ghost job: Job, ghost p: Progress, ghost ids: nat)
    returns (result: Result<Writing, Failure>, ghost p': Progress)
    requires Steady(session, source, w, job, p, ids)
    requires w.pending != []
    modifies session
    ensures Confined(session, job) && session.nextId <= ids
    ensures result.Err? ==> result == Err(Broken) && Gone(session, job.log)
    ensures result.Ok? ==> Steady(session, source, result.value, job, p', ids)
    ensures result.Ok? ==> result.value.pending == w.pending[1..] && result.value.finished == w.finished
  {
    hide OnTrack, OnlyThisFile, Pieces, WindowHeld;
    AnswerCollected(job, p);
    Tracked(job, p);
    Tracked(job, Collecting(p));
    Suffix(job.log, p.events);
    Suffix(job.log, Collecting(p).events);
    var id := w.pending[0];
    p' := Collecting(p);
    OneMore(job.log, p.events, Consumed(id));
    var answer := session.ExpectOk(id);
    if answer == Err(Broken) {
      return Err(Broken), p';
    }
    return Ok(w.(pending := w.pending[1..],
                 failure := if answer.Err? && w.failure == None then Some(answer.error) else w.failure)), p';
  }

  lemma NothingPending(job: Job, p: Progress)
    requires OnTrack(job, p) && p.pending == []
    ensures WindowHeld(p.events) && WritesInFlight(p.events) == {}
    ensures Closes(p.events, job.handle) == if p.closing.Some? then 1 else 0
    ensures p.closing.None? ==> p.owed == job.owed
    ensures p.closing.Some? ==>
      var (looked, closed) := p.closing.value;
      && looked in p.owed && closed in p.owed && looked != closed
      && p.owed - {looked} - {closed} == job.owed
      && |p.replies| >= 2 && p.owed[looked] == p.replies[|p.replies| - 2] && p.owed[closed] == p.replies[|p.replies| - 1]
    ensures ClosingCount(p.closing) <= |p.replies|
    ensures p.failure == Some(Local) || p.failure == FirstRefusal(p.replies[..|p.replies| - ClosingCount(p.closing)])
    ensures p.closing.None? ==> p.replies[..|p.replies| - ClosingCount(p.closing)] == p.replies
  {
    hide FirstRefusal, OnlyThisFile, HandleKept, WrittenSoFar, WindowHeld, Closes, WritesInFlight;
    assert ToSet([]) == {};
  }

  /** Once nothing is pending and nothing was refused, the whole file is there. */
  lemma AllWritten(job: Job, p: Progress)
    requires OnTrack(job, p) && p.pending == [] && p.closing.Some?
    ensures p.failure.None? ==> p.fs.nodes == job.nodes[job.path := File(job.server.setBits(job.path, job.mode), job.total)]
    ensures var reply := p.owed[p.closing.value.0];
            AsAttrs(reply).Ok? ==> job.path in p.fs.nodes && AsAttrs(reply).value == AttrsOf(p.fs.nodes[job.path])
    ensures AsOk(p.owed[p.closing.value.1]).Ok? ==> p.fs.handles == job.handles - {job.handle}
  {
    assert job.total[..|job.total|] == job.total;
    if p.failure.None? {
      PutBack(job.nodes, p.fs.nodes, job.path);
    }
    hide Recorded, Accounted;
  }

  lemma PutBack(before: map<Path, Node>, after: map<Path, Node>, path: Path)
    requires path in after && after - {path} == before - {path}
    ensures after == before[path := after[path]]
  {
    assert after == (after - {path})[path := after[path]];
    assert before[path := after[path]] == (before - {path})[path := after[path]];
  }

  lemma SameNodes(job: Job, before: Fs, after: Fs)
    requires OnlyThisFile(job, before) && after.nodes == before.nodes
    ensures OnlyThisFile(job, after)
  {
  }

  method WriteAll(session: SftpSession, handle: Bytes, source: Source, mode: U32,
                  ghost job: Job, ghost events: seq<Event>, ghost replies: seq<Reply>)
    returns (result: Result<Written, Failure>, ghost p: Progress)
    requires session.Valid() && !session.broken && RefusesHonestly(session.server)
    requires job == Job(session.server, handle, job.path, mode, source.rest, session.fs.nodes, session.fs.handles,
                        session.Owed(), job.granted, job.log, job.trees, job.replies)
    requires job.granted == Granted(session.server, session.handled, session.fs, Fsetstat(handle, mode))
    requires handle in session.fs.handles && session.fs.handles[handle] == job.path
    requires job.path in job.nodes && job.nodes[job.path].File? && job.nodes[job.path].contents == []
    requires Confined(session, job)
    requires session.log == job.log + events && Fresh(events, handle)
    requires session.replies == job.replies + replies && FirstRefusal(replies) == None
    requires session.IdsLeft(Pieces(|source.rest|, false) + 3)
    modifies session, source
    ensures Confined(session, job)
    ensures session.nextId + (if result.Ok? && result.value.closing.None? then 2 else 0)
         <= old(session.nextId) + Pieces(|old(source.rest)|, false) + 3
    ensures result.Err? ==> result.error == Broken && Gone(session, job.log)
    ensures result.Ok? ==> Matches(session, job, p.fs, p.owed, p.events, p.replies)
    ensures result.Ok? ==> OnTrack(job, p) && p.pending == []
    ensures result.Ok? ==> p.failure == result.value.failure && p.closing == result.value.closing
    ensures result.Ok? ==> result.value.failure != Some(Broken)
    ensures result.Ok? && result.value.closing.None? ==> result.value.failure.Some?
    ensures result.Ok? && result.value.closing.Some? ==> source.rest == []
    ensures result.Ok? && result.value.failure == Some(Local) ==> source.failed
  {
    hide OnTrack, Matches, Confined, HandleKept, Gone, OnlyThisFile, RefusesHonestly, Pieces, Fresh, Ranked, FirstRefusal,
         SftpSession.Valid, SftpSession.Owed;
    p := Progress(session.fs, session.Owed(), events, replies, |replies|, [], 0, false, None, None);
    ghost var ids := session.nextId + Pieces(|source.rest|, false) + 3;
    StartsWell(session, job, p);
    FitsInAnOffset(|job.total|);
    var first;
    first, p := SendMode(session, handle, mode, job, p);
    if first.Err? {
      return Err(Broken), p;
    }
    var buffer := new Byte[WRITE_CHUNK](_ => 0);
    var w := Writing([first.value], 0, false, None, None);
    assert job.total[0..] == job.total;
    assert Steady(session, source, w, job, p, ids);
    hide Steady;

    while true
      invariant Steady(session, source, w, job, p, ids)
      decreases |source.rest|, !w.finished, |w.pending|
    {
      ghost var size0, w0 := |source.rest|, w;
      while w.failure == None && !w.finished && |w.pending| < WRITE_WINDOW
        invariant Steady(session, source, w, job, p, ids)
        invariant |source.rest| < size0 || (|source.rest| == size0 && (w0.finished ==> w.finished))
        invariant |source.rest| == size0 && w.finished == w0.finished ==> w.pending == w0.pending
        decreases |source.rest|, !w.finished, w.failure.None?
      {
        var turn;
        turn, p := NextPiece(session, handle, source, buffer, w, job, p, ids);
        if turn.Err? {
          return Err(Broken), p;
        }
        w := turn.value;
      }
      if w.finished && w.failure == None && w.closing == None {
        var turn;
        turn, p := SendClosing(session, handle, source, w, job, p, ids);
        if turn.Err? {
          return Err(Broken), p;
        }
        w := turn.value;
      }
      if w.pending == [] {
        break;
      }
      var turn;
      turn, p := Collect(session, source, w, job, p, ids);
      if turn.Err? {
        return Err(Broken), p;
      }
      w := turn.value;
    }
    Settled(session, source, w, job, p, ids);
    return Ok(Written(w.failure, w.closing)), p;
  }

  // ---------- The whole upload ----------

  /** Everything asked has been answered and consumed, and the opened handle has been closed exactly once. */
  ghost predicate AllCollected(session: SftpSession, job: Job)
    reads session
  {
    && session.Valid() && session.Owed() == job.owed
    && job.log <= session.log && WindowHeld(session.log[|job.log|..])
    && Closes(session.log[|job.log|..], job.handle) == 1
  }

  /** Releases the handle after writing has stopped early; what the close says is secondary. */
  method CloseEarly(session: SftpSession, handle: Bytes, ghost job: Job, ghost p: Progress)
    requires Matches(session, job, p.fs, p.owed, p.events, p.replies) && Confined(session, job)
    requires RefusesHonestly(job.server) && OnTrack(job, p) && p.pending == [] && p.closing.None?
    requires session.IdsLeft(1) && handle == job.handle
    modifies session
    ensures session.nextId == old(session.nextId) + 1 && Confined(session, job)
    ensures Gone(session, job.log) || (!session.broken && AllCollected(session, job))
    ensures !session.broken ==> exists reply :: session.replies == job.replies + p.replies + [reply]
  {
    hide OnTrack, OnlyThisFile, Serve, WindowHeld, Closes, WritesInFlight, RefusesHonestly, SftpSession.Valid,
         SftpSession.Owed;
    ghost var n := session.handled;
    var id := session.NewId();
    ghost var sending := Sent(Request(id, Close(handle)));
    NothingPending(job, p);
    ClosedEvents(p.events, id, handle);
    OneMore(job.log, p.events, sending);
    OneMore(job.log, p.events + [sending], Consumed(id));
    Suffix(job.log, p.events);
    Suffix(job.log, p.events + [sending]);
    Suffix(job.log, p.events + [sending] + [Consumed(id)]);
    CloseServed(job.server, n, p.fs, handle, id);
    Tracked(job, p);
    SameNodes(job, p.fs, Serve(job.server, n, p.fs, Close(handle)).0);
    var sent := session.Send(Request(id, Close(handle)));
    if sent.Err? {
      return;
    }
    assert session.Owed() - {id} == job.owed;
    var closed := session.ExpectOk(id);
  }

  /** Reads the answers to the read-back and the close. */
  method CollectClosing(session: SftpSession, looked: U32, closed: U32, ghost job: Job, ghost p: Progress)
    returns (attrs: Result<Attrs, Failure>, close: Result<(), Failure>)
    requires Matches(session, job, p.fs, p.owed, p.events, p.replies) && Confined(session, job)
    requires OnTrack(job, p) && p.pending == [] && p.closing == Some((looked, closed))
    modifies session
    ensures session.nextId == old(session.nextId) && Confined(session, job) && session.fs == p.fs
    ensures Gone(session, job.log) || (!session.broken && AllCollected(session, job))
    ensures attrs == Err(Broken) || close == Err(Broken) ==> session.broken
    ensures attrs != Err(Local) && close != Err(Local)
    ensures session.replies == job.replies + p.replies && |p.replies| >= 2
    ensures !session.broken ==>
      && attrs == AsAttrs(p.replies[|p.replies| - 2]) && close == AsOk(p.replies[|p.replies| - 1])
      && (p.failure == Some(Local) || p.failure == FirstRefusal(p.replies[..|p.replies| - 2]))
    ensures attrs.Ok? && close.Ok? && p.failure.None? ==>
      && !session.broken
      && p.fs.nodes == job.nodes[job.path := File(job.server.setBits(job.path, job.mode), job.total)]
      && p.fs.handles == job.handles - {job.handle} && attrs.value == AttrsOf(p.fs.nodes[job.path])
  {
    hide OnTrack, OnlyThisFile, WindowHeld, Closes, WritesInFlight;
    NothingPending(job, p);
    AllWritten(job, p);
    ConsumedEvents(p.events, looked, closed, job.handle);
    ghost var first, second := [Consumed(looked)], [Consumed(closed)];
    OneMore(job.log, p.events, Consumed(looked));
    OneMore(job.log, p.events + first, Consumed(closed));
    OneMore(job.log, p.events, Consumed(closed));
    Suffix(job.log, p.events);
    Suffix(job.log, p.events + first);
    Suffix(job.log, p.events + second);
    Suffix(job.log, p.events + first + second);
    attrs := session.ExpectAttrs(looked);
    close := session.ExpectOk(closed);
  }

  /** At most what is at `path` differs: a file there, where nothing was before. */
  ghost predicate OnlyPath(before: map<Path, Node>, path: Path, after: map<Path, Node>) {
    && after - {path} == before - {path}
    && (path in before ==> after == before)
    && (path !in before && path in after ==> after[path].File?)
  }

  ghost predicate OnlyPathSince(session: SftpSession, before: map<Path, Node>, path: Path, trees: seq<Fs>)
    reads session
  {
    && OnlyPath(before, path, session.fs.nodes)
    && trees <= session.trees
    && forall i :: |trees| <= i < |session.trees| ==> OnlyPath(before, path, session.trees[i].nodes)
  }

  /** If there is a file with anything in it, it has the mode. */
  predicate HasMode(nodes: map<Path, Node>, path: Path, bits: Bits) {
    path in nodes && nodes[path].File? && nodes[path].contents != [] ==> nodes[path].bits == bits
  }

  ghost predicate ModeFirst(session: SftpSession, path: Path, bits: Bits, trees: seq<Fs>)
    reads session
  {
    forall i :: |trees| <= i < |session.trees| ==> HasMode(session.trees[i].nodes, path, bits)
  }

  lemma ConfinedIsOnlyPath(session: SftpSession, job: Job, trees: seq<Fs>, before: map<Path, Node>, first: Fs)
    requires Confined(session, job) && job.trees == trees + [first] && first.nodes == job.nodes
    requires job.path !in before && job.nodes - {job.path} == before - {job.path}
    requires job.path in job.nodes && job.nodes[job.path].File? && job.nodes[job.path].contents == []
    ensures OnlyPathSince(session, before, job.path, trees)
    ensures job.granted ==> ModeFirst(session, job.path, job.server.setBits(job.path, job.mode), trees)
  {
    assert trees <= trees + [first];
    forall i | |trees| <= i < |session.trees|
      ensures OnlyPath(before, job.path, session.trees[i].nodes)
      ensures job.granted ==> HasMode(session.trees[i].nodes, job.path, job.server.setBits(job.path, job.mode))
    {
      if i == |trees| {
        assert session.trees[i] == first;
      }
    }
  }

  lemma OpenIsOnlyPath(server: Server, n: nat, fs: Fs, path: Path, mode: U32)
    requires RefusesHonestly(server)
    ensures OnlyPath(fs.nodes, path, fs.nodes)
    ensures OnlyPath(fs.nodes, path, Serve(server, n, fs, OpenNew(path, mode)).0.nodes)
  {
    OpenServed(server, n, fs, path, mode, 0);
    hide Serve;
  }

  lemma NotOpenedIsOnlyPath(session: SftpSession, before: Fs, after: Fs, path: Path, trees: seq<Fs>, given: Bits,
                            created: bool, bits: Bits)
    requires OnlyPath(before.nodes, path, before.nodes) && OnlyPath(before.nodes, path, after.nodes)
    requires (session.fs == before && session.trees == trees) || (session.fs == after && session.trees == trees + [after])
    requires created ==> after.nodes == before.nodes[path := File(given, [])]
    ensures OnlyPathSince(session, before.nodes, path, trees)
    ensures created ==> ModeFirst(session, path, bits, trees)
  {
    hide OnlyPath;
  }

  lemma ConfinedAtFirst(session: SftpSession, job: Job)
    requires session.fs.nodes == job.nodes && session.trees == job.trees
    requires job.path in job.nodes && job.nodes[job.path].File? && job.nodes[job.path].contents == []
    ensures Confined(session, job)
  {
  }

  lemma OpenServed(server: Server, n: nat, fs: Fs, path: Path, mode: U32, id: U32)
    requires RefusesHonestly(server)
    ensures var (after, answer) := Serve(server, n, fs, OpenNew(path, mode));
            && AsHandle(ToReply(id, answer)).Ok? == answer.Opened?
            && AsHandle(ToReply(id, answer)) != Err(Local)
            && (answer.Opened? ==>
                  && AsHandle(ToReply(id, answer)) == Ok(answer.handle)
                  && path !in fs.nodes && after.nodes == fs.nodes[path := File(server.fileBits(path, mode), [])]
                  && answer.handle !in fs.handles && after.handles == fs.handles[answer.handle := path])
            && (!answer.Opened? ==> after == fs)
  {
  }

  lemma OpenedEvents(id: U32, path: Path, mode: U32, handle: Bytes)
    ensures Fresh([Sent(Request(id, OpenNew(path, mode)))] + [Consumed(id)], handle)
    ensures WindowHeld([]) && WindowHeld([Sent(Request(id, OpenNew(path, mode)))])
  {
    var sending := Sent(Request(id, OpenNew(path, mode)));
    NoEvents(handle);
    hide WindowHeld, WritesInFlight, Closes;
    assert [] + [sending] == [sending];
    OneMoreEvent([], sending, handle);
    OneMoreEvent([sending], Consumed(id), handle);
  }

  lemma NoEvents(handle: Bytes)
    ensures Fresh([], handle)
  {
    var none: seq<Event> := [];
    assert forall k :: 0 <= k <= |none| ==> none[..k] == none;
  }

  lemma Overwritten(before: map<Path, Node>, path: Path, empty: Node, full: Node)
    ensures before[path := empty][path := full] == before[path := full]
    ensures path !in before ==> before[path := empty] - {path} == before - {path}
  {
  }

  lemma ReleasedHandle(before: map<Bytes, Path>, handle: Bytes, path: Path)
    requires handle !in before
    ensures before[handle := path] - {handle} == before
  {
  }

  /** What the open reports is its own reply. */
  lemma OpenReported(answer: Answer, id: U32)
    ensures var reply := ToReply(id, answer);
            && FirstRefusal([reply]) == RefusalOf(reply)
            && (AsHandle(reply).Ok? ==> RefusalOf(reply) == None)
            && (AsHandle(reply).Err? && AsHandle(reply) != Err(Broken) ==> RefusalOf(reply) == Some(AsHandle(reply).error))
  {
    assert [] + [ToReply(id, answer)] == [ToReply(id, answer)];
    OneMoreReply([], ToReply(id, answer));
  }

  /** A refusal found before the closing replies is the first of all. */
  lemma FirstStays(replies: seq<Reply>, reply: Reply)
    requires FirstRefusal(replies).Some?
    ensures FirstRefusal(replies + [reply]) == FirstRefusal(replies)
  {
    OneMoreReply(replies, reply);
  }

  lemma ClosingReported(replies: seq<Reply>, attrs: Result<Attrs, Failure>, close: Result<(), Failure>)
    requires |replies| >= 2 && attrs == AsAttrs(replies[|replies| - 2]) && close == AsOk(replies[|replies| - 1])
    requires attrs != Err(Broken) && close != Err(Broken)
    ensures var earlier := FirstRefusal(replies[..|replies| - 2]);
            FirstRefusal(replies) == (if earlier.Some? then earlier else if attrs.Err? then Some(attrs.error)
                                      else if close.Err? then Some(close.error) else None)
  {
    var front := replies[..|replies| - 2];
    OneMoreReply(front, replies[|replies| - 2]);
    OneMoreReply(front + [replies[|replies| - 2]], replies[|replies| - 1]);
    assert replies == front + [replies[|replies| - 2]] + [replies[|replies| - 1]];
  }

  /** The exclusive open and its answer. */
  method Open(session: SftpSession, path: Path, mode: U32) returns (result: Result<Bytes, Failure>, ghost events: seq<Event>)
    requires session.Valid() && RefusesHonestly(session.server) && session.IdsLeft(1)
    modifies session
    ensures session.Valid() && session.nextId == old(session.nextId) + 1 && (old(session.broken) ==> session.broken)
    ensures session.log == old(session.log) + events && WindowHeld(events)
    ensures result == Err(Broken) ==> session.broken
    ensures result != Err(Local)
    ensures var (after, answer) := Serve(session.server, old(session.handled), old(session.fs), OpenNew(path, mode));
      && (result.Ok? || !session.broken ==>
            && session.fs == after && session.trees == old(session.trees) + [after]
            && session.handled == old(session.handled) + 1
            && session.replies == old(session.replies) + [ToReply(old(session.nextId), answer)]
            && result == AsHandle(ToReply(old(session.nextId), answer))
            && session.Owed() == old(session.Owed()))
      && (result.Err? && session.broken ==>
            || (session.fs == old(session.fs) && session.trees == old(session.trees))
            || (session.fs == after && session.trees == old(session.trees) + [after]))
      && (result.Ok? ==> !session.broken && answer == Opened(result.value) && Fresh(events, result.value))
      && (result.Err? && !session.broken ==> !answer.Opened?)
  {
    hide AsHandle, WritesInFlight, Closes, SftpSession.Valid, SftpSession.Owed;
    ghost var log, n, before := session.log, session.handled, session.fs;
    var id := session.NewId();
    ghost var opening := Sent(Request(id, OpenNew(path, mode)));
    ghost var answer := Serve(session.server, n, before, OpenNew(path, mode)).1;
    OpenServed(session.server, n, before, path, mode, id);
    OpenedEvents(id, path, mode, if answer.Opened? then answer.handle else []);
    OneMore(log, [opening], Consumed(id));
    assert log + [] == log;
    hide Serve, WindowHeld, Fresh, RefusesHonestly;
    events := [];
    var sent := session.Send(Request(id, OpenNew(path, mode)));
    if sent.Err? {
      return Err(Broken), events;
    }
    assert session.Owed() - {id} == old(session.Owed());
    result := session.ExpectHandle(id);
    events := if session.log == log + [opening] then [opening] else [opening] + [Consumed(id)];
  }

  /** Creates `path`, sets its mode, writes every byte of `source` to it and closes it. Whatever the server refuses and
      however its answers are ordered, success means the file is there, whole, with the mode the server granted, and
      that nothing else has changed at any step; and if the mode is granted, at no step does the file have a byte in it
      and another mode. Unless the connection failed, nothing asked is left unread, and what is
      reported is the first refusal among the server's replies, in the order of the requests. */
  method Upload(session: SftpSession, source: Source, path: Path, mode: U32) returns (result: Result<Attrs, Failure>)
    requires session.Valid() && RefusesHonestly(session.server)
    requires session.IdsLeft(Pieces(|source.rest|, false) + 4)
    modifies session, source
    ensures session.Valid() && session.nextId <= old(session.nextId) + Pieces(|old(source.rest)|, false) + 4
    ensures old(session.broken) ==> session.broken
    ensures result == Err(Broken) ==> session.broken
    ensures OnlyPathSince(session, old(session.fs.nodes), path, old(session.trees))
    ensures var (after, opening) := Serve(session.server, old(session.handled), old(session.fs), OpenNew(path, mode));
      && (opening.Opened?
          && Granted(session.server, old(session.handled) + 1, after, Fsetstat(opening.handle, mode))
          ==> ModeFirst(session, path, session.server.setBits(path, mode), old(session.trees)))
    ensures old(session.log) <= session.log && WindowHeld(session.log[|old(session.log)|..])
    ensures !session.broken ==> session.Owed() == old(session.Owed())
    ensures var opening := Serve(session.server, old(session.handled), old(session.fs), OpenNew(path, mode)).1;
            !session.broken && opening.Opened? ==> Closes(session.log[|old(session.log)|..], opening.handle) == 1
    ensures result == Err(Local) ==> source.failed
    ensures !session.broken && result != Err(Local) ==>
      && old(session.replies) <= session.replies
      && FirstRefusal(session.replies[|old(session.replies)|..]) == (if result.Err? then Some(result.error) else None)
    ensures result.Ok? ==>
      && !session.broken && source.rest == []
      && path !in old(session.fs.nodes)
      && session.fs.nodes == old(session.fs.nodes)[path := File(session.server.setBits(path, mode), old(source.rest))]
      && session.fs.handles == old(session.fs.handles)
      && result.value == AttrsOf(session.fs.nodes[path])
  {
    hide Serve, WindowHeld, Closes, Fresh, OnTrack, RefusesHonestly, Pieces, FirstRefusal, RefusalOf, AsHandle, AsOk,
         AsAttrs, OnlyPath, OnlyPathSince, ModeFirst, OnlyThisFile, Confined, Matches, Granted, SftpSession.Valid,
         SftpSession.Owed;
    ghost var before, trees, log, n, owed := session.fs, session.trees, session.log, session.handled, session.Owed();
    ghost var replies, first := session.replies, session.nextId;
    ghost var served := Serve(session.server, n, before, OpenNew(path, mode));
    ghost var after := served.0;
    OpenServed(session.server, n, before, path, mode, 0);
    OpenIsOnlyPath(session.server, n, before, path, mode);
    Overwritten(before.nodes, path, File(session.server.fileBits(path, mode), []),
                File(session.server.setBits(path, mode), source.rest));
    ghost var events;
    var granted;
    granted, events := Open(session, path, mode);
    Suffix(log, events);
    OpenReported(served.1, first);
    if granted.Err? {
      NotOpenedIsOnlyPath(session, before, after, path, trees, session.server.fileBits(path, mode), served.1.Opened?,
                          session.server.setBits(path, mode));
      return Err(granted.error);
    }
    var handle := granted.value;
    ReleasedHandle(before.handles, handle, path);
    ghost var job := Job(session.server, handle, path, mode, source.rest, after.nodes, after.handles, owed,
                         Granted(session.server, n + 1, after, Fsetstat(handle, mode)),
                         log, trees + [after], replies);
    ConfinedAtFirst(session, job);
    var written;
    ghost var p;
    written, p := WriteAll(session, handle, source, mode, job, events, [ToReply(first, served.1)]);
    ConfinedIsOnlyPath(session, job, trees, before.nodes, after);
    if written.Err? {
      return Err(Broken);
    }
    var Written(failure, closing) := written.value;
    if closing == None {
      NothingPending(job, p);
      CloseEarly(session, handle, job, p);
      if !session.broken && failure != Some(Local) {
        ghost var reply :| session.replies == replies + p.replies + [reply];
        FirstStays(p.replies, reply);
        assert session.replies[|replies|..] == p.replies + [reply];
      }
      ConfinedIsOnlyPath(session, job, trees, before.nodes, after);
      return Err(failure.value);
    }
    var (looked, closed) := closing.value;
    var attrs, close := CollectClosing(session, looked, closed, job, p);
    if !session.broken {
      ClosingReported(p.replies, attrs, close);
      assert session.replies[|replies|..] == p.replies;
    }
    ConfinedIsOnlyPath(session, job, trees, before.nodes, after);
    if failure.Some? {
      if attrs == Err(Broken) {
        return Err(Broken);
      }
      if close == Err(Broken) {
        return Err(Broken);
      }
      return Err(failure.value);
    }
    if attrs.Err? {
      return Err(attrs.error);
    }
    if close.Err? {
      return Err(close.error);
    }
    return attrs;
  }
}

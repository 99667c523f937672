/** Listing a directory through a session (`SftpSession::list` in `clift-transport/src/session.rs`). */
module Listing {
  import opened Prelude
  import opened Wire
  import opened Codec
  import opened RemoteFs
  import opened Session
  import Upload

  /** The entries of all the name replies, in order. */
  function EntriesIn(replies: seq<Reply>): seq<NameEntry> {
    if replies == [] then []
    else
      var last := replies[|replies| - 1];
      EntriesIn(replies[..|replies| - 1]) + if last.Name? then last.entries else []
  }

  /** A whole listing: the open, and if that was granted any number of name replies, one that is not, and the close. */
  predicate IsListing(replies: seq<Reply>) {
    && |replies| >= 1
    && (AsHandle(replies[0]).Err? ==> |replies| == 1)
    && (AsHandle(replies[0]).Ok? ==>
          && |replies| >= 3 && !replies[|replies| - 2].Name?
          && forall i :: 1 <= i < |replies| - 2 ==> replies[i].Name?)
  }

  /** What the server's replies to a listing come to. */
  function Verdict(replies: seq<Reply>): Result<Option<seq<NameEntry>>, Failure>
    requires IsListing(replies)
  {
    var granted := AsHandle(replies[0]);
    if granted.Err? then
      (if granted.error.Refused? && granted.error.refusal.code == NO_SUCH_FILE then Ok(None) else Err(granted.error))
    else
      var end, close := replies[|replies| - 2], replies[|replies| - 1];
      if !(end.Status? && end.code == EOF) then Err(RefusalOrBroken(end))
      else if AsOk(close).Err? then Err(AsOk(close).error)
      else Ok(Some(EntriesIn(replies[1..|replies| - 2])))
  }

  lemma OneMoreEntry(replies: seq<Reply>, reply: Reply)
    ensures EntriesIn(replies + [reply]) == EntriesIn(replies) + if reply.Name? then reply.entries else []
  {
    assert (replies + [reply])[..|replies|] == replies;
  }

  /** Two more events, one request and its reply. */
  lemma AskedAndAnswered(log: seq<Event>, events: seq<Event>, request: Request, id: U32, handle: Bytes)
    ensures var more := events + [Sent(request)] + [Consumed(id)];
            && log + events + [Sent(request), Consumed(id)] == log + more
            && Upload.Closes(more, handle) == Upload.Closes(events, handle) + if request.op == Close(handle) then 1 else 0
  {
    Upload.OneMoreClose(events, Sent(request), handle);
    Upload.OneMoreClose(events + [Sent(request)], Consumed(id), handle);
    assert [Sent(request)] + [Consumed(id)] == [Sent(request), Consumed(id)];
  }

  lemma OpendirServed(server: Server, n: nat, fs: Fs, path: Path, id: U32)
    requires RefusesHonestly(server)
    ensures var (after, answer) := Serve(server, n, fs, Opendir(path));
            && after.nodes == fs.nodes
            && (AsHandle(ToReply(id, answer)).Ok? ==>
                  var handle := AsHandle(ToReply(id, answer)).value;
                  handle !in fs.handles && after.handles == fs.handles[handle := path])
            && (AsHandle(ToReply(id, answer)).Err? ==> after == fs)
  {
  }

  lemma ReaddirServed(server: Server, n: nat, fs: Fs, handle: Bytes, id: U32)
    ensures var (after, answer) := Serve(server, n, fs, Readdir(handle));
            && after == fs && (ToReply(id, answer).Name? ==> server.batch(n, handle).Some?)
  {
  }

  /** One request answered with names. */
  method AskNames(session: SftpSession, handle: Bytes) returns (result: Result<seq<NameEntry>, Failure>)
    requires session.Valid() && session.IdsLeft(1)
    modifies session
    ensures session.Valid() && session.nextId == old(session.nextId) + 1 && (old(session.broken) ==> session.broken)
    ensures session.fs == old(session.fs)
    ensures result == Err(Broken) ==> session.broken
    ensures result != Err(Broken) ==> session.broken == old(session.broken)
    ensures !session.broken ==>
      var id := old(session.nextId);
      var reply := ToReply(id, Serve(session.server, old(session.handled), old(session.fs), Readdir(handle)).1);
      && session.handled == old(session.handled) + 1 && session.replies == old(session.replies) + [reply]
      && session.Owed() == old(session.Owed())
      && session.log == old(session.log) + [Sent(Request(id, Readdir(handle))), Consumed(id)]
      && result == AsNames(reply)
      && (reply.Name? ==> session.server.batch(old(session.handled), handle).Some?)
  {
    hide Serve, SftpSession.Valid, SftpSession.Owed;
    ReaddirServed(session.server, session.handled, session.fs, handle, session.nextId);
    var id := session.NewId();
    var sent := session.Send(Request(id, Readdir(handle)));
    if sent.Err? {
      return Err(Broken);
    }
    assert session.Owed() - {id} == old(session.Owed());
    result := session.ExpectNames(id);
  }

  /** Every name reply of a listing, however many there are. `most` bounds how many a server yields. */
  method ReadAll(session: SftpSession, handle: Bytes, ghost most: nat, ghost log: seq<Event>, ghost replies: seq<Reply>)
    returns (listed: Result<seq<NameEntry>, Failure>, ghost names: seq<Reply>, ghost end: Reply, ghost events: seq<Event>)
    requires session.Valid() && session.IdsLeft(most + 1) && !session.broken
    requires session.log == log && session.replies == replies
    requires forall n, h :: n >= session.handled + most ==> session.server.batch(n, h).None?
    modifies session
    ensures session.Valid() && session.nextId <= old(session.nextId) + most + 1 && session.fs == old(session.fs)
    ensures listed == Err(Broken) <==> session.broken
    ensures !session.broken ==>
      && session.Owed() == old(session.Owed())
      && session.log == log + events && Upload.Closes(events, handle) == 0
      && session.replies == replies + names + [end]
      && !end.Name? && (forall i :: 0 <= i < |names| ==> names[i].Name?)
      && listed == if end.Status? && end.code == EOF then Ok(EntriesIn(names)) else Err(RefusalOrBroken(end))
  {
    hide Serve, SftpSession.Valid, SftpSession.Owed, Upload.Closes, EntriesIn;
    var all: seq<NameEntry> := [];
    names, events, end := [], [], Status(0, 0, []);
    ghost var start, first := session.handled, session.nextId;
    NothingYet(log, replies, handle);
    while true
      invariant session.Valid() && session.fs == old(session.fs) && !session.broken
      invariant session.handled - start == session.nextId - first == |names| <= most
      invariant session.Owed() == old(session.Owed())
      invariant session.log == log + events && Upload.Closes(events, handle) == 0
      invariant session.replies == replies + names
      invariant (forall i :: 0 <= i < |names| ==> names[i].Name?) && all == EntriesIn(names)
      decreases most - |names|
    {
      ghost var n, id := session.handled, session.nextId;
      end := ToReply(id, Serve(session.server, n, session.fs, Readdir(handle)).1);
      var batch := AskNames(session, handle);
      if batch == Err(Broken) {
        return Err(Broken), names, end, events;
      }
      AskedAndAnswered(log, events, Request(id, Readdir(handle)), id, handle);
      events := events + [Sent(Request(id, Readdir(handle)))] + [Consumed(id)];
      if batch.Err? {
        if batch.error.Refused? && batch.error.refusal.code == EOF {
          return Ok(all), names, end, events;
        }
        return Err(batch.error), names, end, events;
      }
      OneMoreEntry(names, end);
      assert replies + names + [end] == replies + (names + [end]);
      names := names + [end];
      all := all + batch.value;
    }
  }

  lemma NothingYet(log: seq<Event>, replies: seq<Reply>, handle: Bytes)
    ensures log + [] == log && replies + [] == replies && Upload.Closes([], handle) == 0 && EntriesIn([]) == []
  {
  }

  lemma CloseKeeps(server: Server, n: nat, fs: Fs, handle: Bytes, id: U32)
    requires RefusesHonestly(server)
    ensures var (after, answer) := Serve(server, n, fs, Close(handle));
            && after.nodes == fs.nodes
            && (AsOk(ToReply(id, answer)).Ok? ==> after.handles == fs.handles - {handle})
  {
  }

  /** The replies of a whole listing, put together. */
  lemma Assembled(open: Reply, names: seq<Reply>, end: Reply, close: Reply, listed: Result<seq<NameEntry>, Failure>)
    requires AsHandle(open).Ok? && !end.Name? && forall i :: 0 <= i < |names| ==> names[i].Name?
    requires listed == if end.Status? && end.code == EOF then Ok(EntriesIn(names)) else Err(RefusalOrBroken(end))
    ensures var replies := [open] + names + [end] + [close];
            && IsListing(replies)
            && Verdict(replies) == if listed.Err? then Err(listed.error)
                                   else if AsOk(close).Err? then Err(AsOk(close).error) else Ok(Some(listed.value))
  {
    hide EntriesIn, RefusalOrBroken, AsHandle, AsOk;
    var replies := [open] + names + [end] + [close];
    Shape(open, names, end, close, replies);
  }

  lemma Shape(open: Reply, names: seq<Reply>, end: Reply, close: Reply, replies: seq<Reply>)
    requires replies == [open] + names + [end] + [close] && forall i :: 0 <= i < |names| ==> names[i].Name?
    ensures |replies| == |names| + 3 && replies[0] == open && replies[1..|replies| - 2] == names
    ensures replies[|replies| - 2] == end && replies[|replies| - 1] == close
    ensures forall i :: 1 <= i < |replies| - 2 ==> replies[i].Name?
  {
    forall i | 1 <= i < |replies| - 2 ensures replies[i].Name? {
      assert replies[i] == names[i - 1];
    }
  }

  /** Every entry of a directory, or nothing if it does not exist. Unless the connection fails, the whole answer is what
      the server's replies come to, nothing is left unread, and an opened handle is closed exactly once whether or not
      the listing succeeded. The listing must end: `most` bounds how many name replies the server gives. */
  method List(session: SftpSession, path: Path, ghost most: nat) returns (result: Result<Option<seq<NameEntry>>, Failure>)
    requires session.Valid() && RefusesHonestly(session.server) && session.IdsLeft(most + 3)
    requires forall n, h :: n >= session.handled + most ==> session.server.batch(n, h).None?
    modifies session
    ensures session.Valid() && (old(session.broken) ==> session.broken)
    ensures result == Err(Broken) ==> session.broken
    ensures session.fs.nodes == old(session.fs.nodes)
    ensures !session.broken ==>
      && session.Owed() == old(session.Owed()) && old(session.replies) <= session.replies
      && IsListing(session.replies[|old(session.replies)|..])
      && result == Verdict(session.replies[|old(session.replies)|..])
    ensures !session.broken ==>
      var opening := AsHandle(session.replies[|old(session.replies)|]);
      opening.Ok? ==> old(session.log) <= session.log
                      && Upload.Closes(session.log[|old(session.log)|..], opening.value) == 1
    ensures result.Ok? && result.value.Some? ==> session.fs == old(session.fs)
  {
    hide Serve, SftpSession.Valid, SftpSession.Owed, Upload.Closes, EntriesIn, AsHandle, AsOk, IsListing, Verdict;
    ghost var log, replies, before, n := session.log, session.replies, session.fs, session.handled;
    var id := session.NewId();
    OpendirServed(session.server, n, before, path, id);
    ghost var open := ToReply(id, Serve(session.server, n, before, Opendir(path)).1);
    var sent := session.Send(Request(id, Opendir(path)));
    if sent.Err? {
      return Err(Broken);
    }
    assert session.Owed() - {id} == old(session.Owed());
    var granted := session.ExpectHandle(id);
    Suffix(replies, [open]);
    OpenRefused(open);
    var found := AbsentAsNone(granted);
    if found.Err? {
      return Err(found.error);
    }
    if found.value.None? {
      return Ok(None);
    }
    var handle := found.value.value;
    ghost var opening := [Sent(Request(id, Opendir(path))), Consumed(id)];
    OpenedOnly(id, path, handle);
    Upload.ReleasedHandle(before.handles, handle, path);
    var listed;
    ghost var names, end, events;
    listed, names, end, events := ReadAll(session, handle, most, log + opening, replies + [open]);
    CloseKeeps(session.server, session.handled, session.fs, handle, session.nextId);
    ghost var closing, asked := session.nextId, Request(session.nextId, Close(handle));
    ghost var close := ToReply(closing, Serve(session.server, session.handled, session.fs, Close(handle)).1);
    var closed := session.Ask(Close(handle));
    if !session.broken {
      Assembled(open, names, end, close, listed);
      assert replies + [open] + names + [end] + [close] == replies + ([open] + names + [end] + [close]);
      Suffix(replies, [open] + names + [end] + [close]);
      ClosedOnce(log, opening, events, asked, closing, handle);
    }
    if listed.Err? {
      return Err(listed.error);
    }
    if closed.Err? {
      return Err(closed.error);
    }
    return Ok(Some(listed.value));
  }

  lemma OpenRefused(open: Reply)
    ensures AsHandle(open).Err? ==> IsListing([open]) && Verdict([open]) == AbsentAsNoneOf(AsHandle(open).error)
  {
  }

  function AbsentAsNoneOf(failure: Failure): Result<Option<seq<NameEntry>>, Failure> {
    if failure.Refused? && failure.refusal.code == NO_SUCH_FILE then Ok(None) else Err(failure)
  }

  lemma OpenedOnly(id: U32, path: Path, handle: Bytes)
    ensures Upload.Closes([Sent(Request(id, Opendir(path))), Consumed(id)], handle) == 0
  {
    NothingYet([], [], handle);
    AskedAndAnswered([], [], Request(id, Opendir(path)), id, handle);
    assert [] + [Sent(Request(id, Opendir(path)))] + [Consumed(id)] == [Sent(Request(id, Opendir(path))), Consumed(id)];
  }

  lemma {:induction false} ClosesAdd(first: seq<Event>, second: seq<Event>, handle: Bytes)
    ensures Upload.Closes(first + second, handle) == Upload.Closes(first, handle) + Upload.Closes(second, handle)
  {
    if second == [] {
      assert first + second == first;
    } else {
      var front, last := second[..|second| - 1], second[|second| - 1];
      ClosesAdd(first, front, handle);
      Upload.OneMoreClose(first + front, last, handle);
      assert first + second == first + front + [last];
    }
  }

  lemma ClosedOnce(log: seq<Event>, opening: seq<Event>, events: seq<Event>, request: Request, id: U32, handle: Bytes)
    requires Upload.Closes(opening, handle) == 0 && Upload.Closes(events, handle) == 0 && request.op == Close(handle)
    ensures var all := log + opening + events + [Sent(request), Consumed(id)];
            log <= all && Upload.Closes(all[|log|..], handle) == 1
  {
    hide Upload.Closes;
    ClosesAdd(opening, events, handle);
    var asked := opening + events;
    var more := asked + [Sent(request)] + [Consumed(id)];
    AskedAndAnswered(log, asked, request, id, handle);
    assert log + opening + events == log + asked;
    Suffix(log, more);
  }
}

/** One SFTP session (`clift-transport/src/session.rs`): requests go out in order, replies come back in any order or
    not at all. The far side and the connection are fields of the session, so that every run of the client can be
    followed; the client itself never looks at them. */
module Session {
  import opened Prelude
  import opened Wire
  import opened Codec
  import opened RemoteFs

  const ID_LIMIT: nat := 0x1_0000_0000

  datatype Failure = Refused(refusal: Refusal) | Broken | Local

  datatype Event = Sent(request: Request) | Consumed(id: U32)

  // ---------- What a reply means to the request that gets it ----------

  function AsOk(reply: Reply): Result<(), Failure> {
    match reply
    case Status(_, code, message) => if code == OK then Ok(()) else Err(Refused(Refusal(code, message)))
    case _ => Err(Broken)
  }

  function RefusalOrBroken(reply: Reply): Failure {
    match reply
    case Status(_, code, message) => if code != OK then Refused(Refusal(code, message)) else Broken
    case _ => Broken
  }

  function AsHandle(reply: Reply): Result<Bytes, Failure> {
    match reply
    case Handle(_, handle) => Ok(handle)
    case _ => Err(RefusalOrBroken(reply))
  }

  function AsAttrs(reply: Reply): Result<Attrs, Failure> {
    match reply
    case AttrsReply(_, attrs) => Ok(attrs)
    case _ => Err(RefusalOrBroken(reply))
  }

  function AsNames(reply: Reply): Result<seq<NameEntry>, Failure> {
    match reply
    case Name(_, entries) => Ok(entries)
    case _ => Err(RefusalOrBroken(reply))
  }

  /** A missing file counts as found to be missing. */
  function AbsentAsNone<T>(result: Result<T, Failure>): Result<Option<T>, Failure> {
    match result
    case Ok(value) => Ok(Some(value))
    case Err(failure) =>
      if failure.Refused? && failure.refusal.code == NO_SUCH_FILE then Ok(None) else Err(failure)
  }

  lemma Moved(early: map<U32, Reply>, inTransit: map<U32, Reply>, id: U32)
    requires id in inTransit && id !in early
    ensures early[id := inTransit[id]] + (inTransit - {id}) == early + inTransit
  {
  }

  lemma Arrived(early: map<U32, Reply>, inTransit: map<U32, Reply>, id: U32)
    requires id in inTransit && id !in early
    ensures early + (inTransit - {id}) == early + inTransit - {id}
  {
  }

  lemma OnItsWay(early: map<U32, Reply>, inTransit: map<U32, Reply>, id: U32, reply: Reply)
    requires id !in early
    ensures early + inTransit[id := reply] == (early + inTransit)[id := reply]
  {
  }

  class SftpSession {
    // What the client keeps.
    var early: map<U32, Reply>
    var nextId: U32
    var broken: bool

    // The connection and the far side.
    const server: Server
    var fs: Fs
    var handled: nat
    var inTransit: map<U32, Reply>

    // What has happened: every request and consumed reply in order, and for every handled request the tree after it
    // and the reply to it.
    ghost var log: seq<Event>
    ghost var trees: seq<Fs>
    ghost var replies: seq<Reply>

    /** Replies produced and not yet handed to whoever asked. */
    ghost function Owed(): map<U32, Reply>
      reads this
    {
      early + inTransit
    }

    ghost predicate Valid()
      reads this
    {
      && early.Keys !! inTransit.Keys
      && (forall id :: id in early ==> early[id].id == id && id < nextId)
      && (forall id :: id in inTransit ==> inTransit[id].id == id && id < nextId)
    }

    ghost predicate IdsLeft(count: nat)
      reads this
    {
      nextId + count < ID_LIMIT
    }

    /** Nothing on the far side or in the history has changed. */
    twostate predicate Unmoved()
      reads this
    {
      fs == old(fs) && handled == old(handled) && trees == old(trees) && replies == old(replies)
    }

    constructor (server: Server, fs: Fs)
      ensures Valid() && this.server == server && this.fs == fs && Owed() == map[] && !broken
      ensures nextId == 0 && log == [] && trees == [] && replies == []
    {
      this.server := server;
      this.fs := fs;
      early, inTransit := map[], map[];
      nextId, handled, broken := 0, 0, false;
      log, trees, replies := [], [], [];
    }

    method NewId() returns (id: U32)
      modifies this`nextId
      ensures id == old(nextId) && nextId == (old(nextId) + 1) % ID_LIMIT
      ensures Owed() == old(Owed())
      ensures old(Valid()) && old(IdsLeft(1)) ==> nextId == id + 1 && Valid() && id !in Owed()
    {
      id := nextId;
      nextId := (nextId + 1) % ID_LIMIT;
    }

    /** Hands one request to the writer. The server handles it at once, after every earlier one; its reply is then
        somewhere on the way back. */
    method Send(request: Request) returns (result: Result<(), Failure>)
      requires Valid() && request.id < nextId && request.id !in Owed()
      modifies this`broken, this`fs, this`handled, this`inTransit, this`log, this`trees, this`replies
      ensures Valid()
      ensures result.Err? ==> result.error == Broken && broken && Unmoved() && Owed() == old(Owed()) && log == old(log)
      ensures result.Ok? ==>
        var (after, answer) := Serve(server, old(handled), old(fs), request.op);
        && !old(broken) && !broken
        && fs == after && handled == old(handled) + 1 && trees == old(trees) + [after]
        && Owed() == old(Owed())[request.id := ToReply(request.id, answer)]
        && replies == old(replies) + [ToReply(request.id, answer)]
        && log == old(log) + [Sent(request)]
    {
      hide Serve;
      if broken {
        return Err(Broken);
      }
      if * {
        broken := true;
        return Err(Broken);
      }
      var (after, answer) := Serve(server, handled, fs, request.op);
      OnItsWay(early, inTransit, request.id, ToReply(request.id, answer));
      fs, handled := after, handled + 1;
      inTransit := inTransit[request.id := ToReply(request.id, answer)];
      log, trees, replies := log + [Sent(request)], trees + [after], replies + [ToReply(request.id, answer)];
      return Ok(());
    }

    /** The next reply to arrive: any of those on the way, or none because the connection has failed. */
    method NextPacket() returns (packet: Option<Reply>)
      requires Valid()
      modifies this`broken, this`inTransit
      ensures Valid()
      ensures packet.None? ==> broken && inTransit == old(inTransit)
      ensures packet.Some? ==>
        && broken == old(broken)
        && packet.value.id in old(inTransit) && packet.value == old(inTransit)[packet.value.id]
        && inTransit == old(inTransit) - {packet.value.id}
    {
      if inTransit == map[] {
        broken := true;
        return None;
      }
      if * {
        broken := true;
        return None;
      }
      var id :| id in inTransit;
      packet := Some(inTransit[id]);
      inTransit := inTransit - {id};
    }

    /** Whatever arrives first, and whatever earlier callers left unread, the reply returned is the one to `id`. */
    method Wait(id: U32) returns (result: Result<Reply, Failure>)
      requires Valid() && id in Owed()
      modifies this`broken, this`inTransit, this`early, this`log
      ensures Valid()
      ensures old(broken) ==> broken
      ensures result.Ok? ==>
        && result.value == old(Owed())[id]
        && Owed() == old(Owed()) - {id}
        && broken == old(broken)
        && log == old(log) + [Consumed(id)]
      ensures result.Err? ==> result.error == Broken && broken && Owed() == old(Owed()) && log == old(log)
    {
      if id in early {
        result := Ok(early[id]);
        early := early - {id};
        log := log + [Consumed(id)];
        return;
      }
      while true
        invariant Valid() && id in inTransit
        invariant Owed() == old(Owed()) && broken == old(broken) && log == old(log)
        decreases inTransit.Keys
      {
        ghost var before := inTransit;
        var packet := NextPacket();
        if packet == None {
          return Err(Broken);
        }
        var reply := packet.value;
        if reply.id == id {
          Arrived(early, before, id);
          log := log + [Consumed(id)];
          return Ok(reply);
        }
        Moved(early, before, reply.id);
        early := early[reply.id := reply];
      }
    }

    method ExpectOk(id: U32) returns (result: Result<(), Failure>)
      requires Valid() && id in Owed()
      modifies this`broken, this`inTransit, this`early, this`log
      ensures Valid()
      ensures old(broken) ==> broken
      ensures result == Err(Broken) ==> broken
      ensures Consumption(id)
      ensures result != Err(Broken) ==> broken == old(broken)
      ensures !broken || result != Err(Broken) ==> result == AsOk(old(Owed())[id]) && Owed() == old(Owed()) - {id}
    {
      var reply := Wait(id);
      if reply.Err? {
        return Err(Broken);
      }
      result := AsOk(reply.value);
      if result == Err(Broken) {
        broken := true;
      }
    }

    /** What waiting for `id` may leave owed and recorded. */
    twostate predicate Consumption(id: U32)
      reads this
    {
      || (Owed() == old(Owed()) - {id} && log == old(log) + [Consumed(id)])
      || (broken && Owed() == old(Owed()) && log == old(log))
    }

    method ExpectHandle(id: U32) returns (result: Result<Bytes, Failure>)
      requires Valid() && id in Owed()
      modifies this`broken, this`inTransit, this`early, this`log
      ensures Valid()
      ensures old(broken) ==> broken
      ensures result == Err(Broken) ==> broken
      ensures Consumption(id)
      ensures result != Err(Broken) ==> broken == old(broken)
      ensures !broken || result != Err(Broken) ==> result == AsHandle(old(Owed())[id]) && Owed() == old(Owed()) - {id}
    {
      var reply := Wait(id);
      if reply.Err? {
        return Err(Broken);
      }
      result := AsHandle(reply.value);
      if result == Err(Broken) {
        broken := true;
      }
    }

    method ExpectAttrs(id: U32) returns (result: Result<Attrs, Failure>)
      requires Valid() && id in Owed()
      modifies this`broken, this`inTransit, this`early, this`log
      ensures Valid()
      ensures old(broken) ==> broken
      ensures result == Err(Broken) ==> broken
      ensures Consumption(id)
      ensures result != Err(Broken) ==> broken == old(broken)
      ensures !broken || result != Err(Broken) ==> result == AsAttrs(old(Owed())[id]) && Owed() == old(Owed()) - {id}
    {
      var reply := Wait(id);
      if reply.Err? {
        return Err(Broken);
      }
      result := AsAttrs(reply.value);
      if result == Err(Broken) {
        broken := true;
      }
    }

    method ExpectNames(id: U32) returns (result: Result<seq<NameEntry>, Failure>)
      requires Valid() && id in Owed()
      modifies this`broken, this`inTransit, this`early, this`log
      ensures Valid()
      ensures old(broken) ==> broken
      ensures result == Err(Broken) ==> broken
      ensures Consumption(id)
      ensures result != Err(Broken) ==> broken == old(broken)
      ensures !broken || result != Err(Broken) ==> result == AsNames(old(Owed())[id]) && Owed() == old(Owed()) - {id}
    {
      var reply := Wait(id);
      if reply.Err? {
        return Err(Broken);
      }
      result := AsNames(reply.value);
      if result == Err(Broken) {
        broken := true;
      }
    }

    /** One request that is answered with a status: `set_mode`, `remove`, `rmdir`, `rename` and `close`. */
    method Ask(op: Op) returns (result: Result<(), Failure>)
      requires Valid() && IdsLeft(1)
      modifies this
      ensures Valid() && nextId == old(nextId) + 1 && (old(broken) ==> broken)
      ensures result == Err(Broken) ==> broken
      ensures result != Err(Broken) ==> broken == old(broken)
      ensures var (after, answer) := Serve(server, old(handled), old(fs), op);
        || (broken && Unmoved())
        || (&& fs == after && handled == old(handled) + 1 && trees == old(trees) + [after]
            && replies == old(replies) + [ToReply(old(nextId), answer)]
            && (result != Err(Broken) || !broken ==> result == AsOk(ToReply(old(nextId), answer))))
      ensures !broken ==> Owed() == old(Owed()) && log == old(log) + [Sent(Request(old(nextId), op)), Consumed(old(nextId))]
      ensures old(broken) ==> Unmoved()
    {
      hide Serve, SftpSession.Valid, SftpSession.Owed;
      var id := NewId();
      var sent := Send(Request(id, op));
      if sent.Err? {
        return Err(Broken);
      }
      assert Owed() - {id} == old(Owed());
      result := ExpectOk(id);
    }
  }
}

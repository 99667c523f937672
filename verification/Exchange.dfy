/** The session works on requests and replies as values; this is why it may: each crosses the wire as bytes and arrives
    as it was. */
module Exchange {
  import opened Prelude
  import opened Wire
  import opened Codec
  import opened RemoteFs

  /** Attributes as the plainest server would send them. */
  function Plain(attrs: Attrs): ServerAttrs {
    ServerAttrs(attrs.size, None, attrs.permissions,
                if attrs.mtime.Some? then Some((0, attrs.mtime.value)) else None, None, 0)
  }

  function PlainEntry(entry: NameEntry): ServerEntry {
    ServerEntry(entry.filename, [], Plain(entry.attrs))
  }

  /** An answer as a server would send it. */
  function Sending(id: U32, answer: Answer): ServerReply {
    match answer
    case Said(code, message) => StatusSent(id, code, WithLanguage(message, []))
    case Opened(handle) => HandleSent(id, handle)
    case Looked(attrs) => AttrsSent(id, Plain(attrs))
    case Listed(entries) => NameSent(id, Each(PlainEntry, entries))
  }

  predicate Sendable(answer: Answer) {
    match answer
    case Said(_, message) => |message| < U32_SIZE
    case Opened(handle) => |handle| < U32_SIZE
    case Looked(_) => true
    case Listed(entries) => |entries| < U32_SIZE && forall i :: 0 <= i < |entries| ==> |entries[i].filename| < U32_SIZE
  }

  lemma {:induction false} EntriesKept(entries: seq<NameEntry>)
    ensures Each(KeptEntry, Each(PlainEntry, entries)) == entries
    ensures |Each(PlainEntry, entries)| == |entries|
    ensures forall i :: 0 <= i < |entries| ==> Each(PlainEntry, entries)[i] == PlainEntry(entries[i])
  {
    if entries != [] {
      EntriesKept(entries[1..]);
    }
  }

  lemma KeptIsTheReply(id: U32, answer: Answer)
    requires Sendable(answer)
    ensures WellSizedReply(Sending(id, answer)) && KeptReply(Sending(id, answer)) == ToReply(id, answer)
  {
    if answer.Listed? {
      EntriesKept(answer.entries);
    }
  }

  /** A request written, framed, read back by the server, answered, written and decoded is the request handled and the
      answer to it. */
  lemma TheWireIsTransparent(request: Request, answer: Answer)
    requires |RequestBody(request)| < U32_SIZE && Sendable(answer)
    ensures ServerReads(Packet(RequestBody(request))) == Some(request)
    ensures Decode(ReplyBytes(Sending(request.id, answer))) == Ok(ToReply(request.id, answer))
  {
    hide ServerReads, Packet, RequestBody, Decode, ReplyBytes, Sending, KeptReply, WellSizedReply;
    RequestBack(request);
    KeptIsTheReply(request.id, answer);
    ReplyBack(Sending(request.id, answer));
  }
}

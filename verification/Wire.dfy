/** SFTP version 3 as bytes (`clift-transport/src/wire.rs`): the reader of replies, and what it accepts.
    Sections named here are those of draft-ietf-secsh-filexfer-02. */
module Wire {
  import opened Prelude

  const MAX_PACKET: nat := 256 * 1024
  const WRITE_CHUNK: nat := 32 * 1024

  const VERSION_REPLY: Byte := 2
  const STATUS: Byte := 101
  const HANDLE: Byte := 102
  const NAME: Byte := 104
  const ATTRS: Byte := 105

  const ATTR_SIZE: nat := 0x1
  const ATTR_UIDGID: nat := 0x2
  const ATTR_PERMISSIONS: nat := 0x4
  const ATTR_ACMODTIME: nat := 0x8
  const ATTR_EXTENDED: nat := 0x8000_0000

  const OK: U32 := 0
  const EOF: U32 := 1
  const NO_SUCH_FILE: U32 := 2
  const PERMISSION_DENIED: U32 := 3
  const FAILURE: U32 := 4

  datatype WireError = Truncated | BytesPastTheEnd | TooManyNames | UnexpectedType

  datatype Attrs = Attrs(size: Option<U64>, permissions: Option<U32>, mtime: Option<U32>)

  datatype NameEntry = NameEntry(filename: Bytes, attrs: Attrs)

  datatype Reply =
    | Status(id: U32, code: U32, message: Bytes)
    | Handle(id: U32, handle: Bytes)
    | Name(id: U32, entries: seq<NameEntry>)
    | AttrsReply(id: U32, attrs: Attrs)

  // ---------- Numbers as bytes ----------

  function Pow256(w: nat): nat {
    if w == 0 then 1 else 256 * Pow256(w - 1)
  }

  /** `v` as `w` bytes, most significant first. */
  function Be(v: nat, w: nat): (s: Bytes)
    ensures |s| == w
  {
    if w == 0 then [] else Be(v / 256, w - 1) + [v % 256]
  }

  function FromBe(s: Bytes): (v: nat)
    ensures v < Pow256(|s|)
  {
    if s == [] then 0 else 256 * FromBe(s[..|s| - 1]) + s[|s| - 1]
  }

  lemma {:induction false} FromBeOfBe(v: nat, w: nat)
    requires v < Pow256(w)
    ensures FromBe(Be(v, w)) == v
  {
    if w > 0 {
      FromBeOfBe(v / 256, w - 1);
      assert Be(v, w)[..w - 1] == Be(v / 256, w - 1);
    }
  }

  // ---------- Reading: what is left of a packet, and the value read off its front ----------

  datatype Parsed<+T> = Stop | Got(value: T, rest: Bytes)

  function ReadU8(s: Bytes): Parsed<Byte> {
    if |s| < 1 then Stop else Got(s[0], s[1..])
  }

  function ReadU32(s: Bytes): Parsed<U32> {
    if |s| < 4 then Stop else
      assert Pow256(4) == 0x1_0000_0000;
      Got(FromBe(s[..4]), s[4..])
  }

  function ReadU64(s: Bytes): Parsed<U64> {
    if |s| < 8 then Stop else
      assert Pow256(8) == 0x1_0000_0000_0000_0000;
      Got(FromBe(s[..8]), s[8..])
  }

  function ReadBytes(s: Bytes): Parsed<Bytes> {
    match ReadU32(s)
    case Stop => Stop
    case Got(length, rest) => if |rest| < length then Stop else Got(rest[..length], rest[length..])
  }

  /** `flags & mask != 0` for a mask of one bit. */
  predicate HasFlag(flags: U32, mask: nat)
    requires mask > 0
  {
    flags / mask % 2 == 1
  }

  function ReadSize(flags: U32, s: Bytes): Parsed<Option<U64>> {
    if !HasFlag(flags, ATTR_SIZE) then Got(None, s) else
      match ReadU64(s)
      case Stop => Stop
      case Got(size, rest) => Got(Some(size), rest)
  }

  function SkipOwner(flags: U32, s: Bytes): Parsed<()> {
    if !HasFlag(flags, ATTR_UIDGID) then Got((), s) else
      match ReadU32(s)
      case Stop => Stop
      case Got(_, rest) =>
        match ReadU32(rest)
        case Stop => Stop
        case Got(_, rest) => Got((), rest)
  }

  function ReadPermissions(flags: U32, s: Bytes): Parsed<Option<U32>> {
    if !HasFlag(flags, ATTR_PERMISSIONS) then Got(None, s) else
      match ReadU32(s)
      case Stop => Stop
      case Got(bits, rest) => Got(Some(bits), rest)
  }

  function ReadMtime(flags: U32, s: Bytes): Parsed<Option<U32>> {
    if !HasFlag(flags, ATTR_ACMODTIME) then Got(None, s) else
      match ReadU32(s)
      case Stop => Stop
      case Got(_, rest) =>
        match ReadU32(rest)
        case Stop => Stop
        case Got(mtime, rest) => Got(Some(mtime), rest)
  }

  function SkipPair(s: Bytes): Parsed<()> {
    match ReadBytes(s)
    case Stop => Stop
    case Got(_, rest) =>
      match ReadBytes(rest)
      case Stop => Stop
      case Got(_, rest) => Got((), rest)
  }

  /** `count` readings one after another. */
  function ReadMany<T>(read: Bytes -> Parsed<T>, count: nat, s: Bytes): Parsed<seq<T>> {
    if count == 0 then Got([], s) else
      match read(s)
      case Stop => Stop
      case Got(first, rest) =>
        match ReadMany(read, count - 1, rest)
        case Stop => Stop
        case Got(more, rest) => Got([first] + more, rest)
  }

  function SkipExtended(flags: U32, s: Bytes): Parsed<seq<()>> {
    if !HasFlag(flags, ATTR_EXTENDED) then Got([], s) else
      match ReadU32(s)
      case Stop => Stop
      case Got(count, rest) => ReadMany(SkipPair, count, rest)
  }

  function ReadAttrs(s: Bytes): Parsed<Attrs> {
    match ReadU32(s)
    case Stop => Stop
    case Got(flags, rest) => ReadAttrsWith(flags, rest)
  }

  function ReadAttrsWith(flags: U32, s: Bytes): Parsed<Attrs> {
    match ReadSize(flags, s)
    case Stop => Stop
    case Got(size, rest) =>
      match SkipOwner(flags, rest)
      case Stop => Stop
      case Got(_, rest) =>
        match ReadPermissions(flags, rest)
        case Stop => Stop
        case Got(permissions, rest) =>
          match ReadMtime(flags, rest)
          case Stop => Stop
          case Got(mtime, rest) =>
            match SkipExtended(flags, rest)
            case Stop => Stop
            case Got(_, rest) => Got(Attrs(size, permissions, mtime), rest)
  }

  function ReadEntry(s: Bytes): Parsed<NameEntry> {
    match ReadBytes(s)
    case Stop => Stop
    case Got(filename, rest) =>
      match ReadBytes(rest)
      case Stop => Stop
      case Got(_, rest) =>
        match ReadAttrs(rest)
        case Stop => Stop
        case Got(attrs, rest) => Got(NameEntry(filename, attrs), rest)
  }

  /** The message may be missing, and so may the language tag behind it. */
  function ReadStatusTail(s: Bytes): Parsed<Bytes> {
    if s == [] then Got([], []) else
      match ReadBytes(s)
      case Stop => Stop
      case Got(message, rest) =>
        if rest == [] then Got(message, []) else
          match ReadBytes(rest)
          case Stop => Stop
          case Got(_, rest) => Got(message, rest)
  }

  /** The fields of a reply after its type and id. `guarded` says whether an impossible count of names is refused
      before they are read. */
  function ReadReply(kind: Byte, id: U32, s: Bytes, guarded: bool): Result<(Reply, Bytes), WireError> {
    if kind == STATUS then
      match ReadU32(s)
      case Stop => Err(Truncated)
      case Got(code, rest) =>
        (match ReadStatusTail(rest)
         case Stop => Err(Truncated)
         case Got(message, rest) => Ok((Status(id, code, message), rest)))
    else if kind == HANDLE then
      match ReadBytes(s)
      case Stop => Err(Truncated)
      case Got(handle, rest) => Ok((Handle(id, handle), rest))
    else if kind == NAME then
      match ReadU32(s)
      case Stop => Err(Truncated)
      case Got(count, rest) =>
        if guarded && count > |rest| / 12 then Err(TooManyNames) else
          (match ReadMany(ReadEntry, count, rest)
           case Stop => Err(Truncated)
           case Got(entries, rest) => Ok((Name(id, entries), rest)))
    else if kind == ATTRS then
      match ReadAttrs(s)
      case Stop => Err(Truncated)
      case Got(attrs, rest) => Ok((AttrsReply(id, attrs), rest))
    else Err(UnexpectedType)
  }

  function DecodeWith(body: Bytes, guarded: bool): Result<Reply, WireError> {
    match ReadU8(body)
    case Stop => Err(Truncated)
    case Got(kind, rest) =>
      match ReadU32(rest)
      case Stop => Err(Truncated)
      case Got(id, rest) =>
        match ReadReply(kind, id, rest, guarded)
        case Err(error) => Err(error)
        case Ok((reply, rest)) => if rest == [] then Ok(reply) else Err(BytesPastTheEnd)
  }

  function Decode(body: Bytes): Result<Reply, WireError> {
    DecodeWith(body, true)
  }

  lemma PairShrinks(s: Bytes)
    ensures SkipPair(s).Got? ==> |SkipPair(s).rest| < |s|
  {
  }

  /** Whether the rest of a greeting is extension pairs and nothing else. */
  predicate OnlyPairs(s: Bytes)
    decreases |s|
  {
    s == [] || (PairShrinks(s); SkipPair(s).Got? && OnlyPairs(SkipPair(s).rest))
  }

  function Version(body: Bytes): Result<U32, WireError> {
    match ReadU8(body)
    case Stop => Err(Truncated)
    case Got(kind, rest) =>
      if kind != VERSION_REPLY then Err(UnexpectedType) else
        match ReadU32(rest)
        case Stop => Err(Truncated)
        case Got(version, rest) => if OnlyPairs(rest) then Ok(version) else Err(Truncated)
  }

  // ---------- The reader, moving along one packet ----------

  ghost predicate Agrees<T>(parsed: Parsed<T>, value: Option<T>, rest: Bytes) {
    match parsed
    case Stop => value == None
    case Got(v, left) => value == Some(v) && rest == left
  }

  class Reader {
    const data: Bytes
    var position: nat

    ghost predicate Valid() reads this { position <= |data| }

    ghost function Rest(): Bytes
      requires Valid()
      reads this
    {
      data[position..]
    }

    constructor (data: Bytes)
      ensures Valid() && this.data == data && Rest() == data
    {
      this.data := data;
      position := 0;
    }

    function Remaining(): (n: nat)
      requires Valid()
      reads this
      ensures n == |Rest()|
    {
      |data| - position
    }

    method Take(count: nat) returns (slice: Option<Bytes>)
      requires Valid()
      modifies this
      ensures Valid()
      ensures Agrees(if count <= |old(Rest())| then Got(old(Rest())[..count], old(Rest())[count..]) else Stop, slice, Rest())
    {
      var end := position + count;
      if end > |data| {
        return None;
      }
      slice := Some(data[position..end]);
      assert Rest()[..count] == data[position..end] && Rest()[count..] == data[end..];
      position := end;
    }

    method NextU8() returns (value: Option<Byte>)
      requires Valid()
      modifies this
      ensures Valid() && Agrees(ReadU8(old(Rest())), value, Rest())
    {
      var slice := Take(1);
      value := if slice.Some? then Some(slice.value[0]) else None;
    }

    method NextU32() returns (value: Option<U32>)
      requires Valid()
      modifies this
      ensures Valid() && Agrees(ReadU32(old(Rest())), value, Rest())
    {
      var slice := Take(4);
      assert Pow256(4) == 0x1_0000_0000;
      value := if slice.Some? then Some(FromBe(slice.value)) else None;
    }

    method NextU64() returns (value: Option<U64>)
      requires Valid()
      modifies this
      ensures Valid() && Agrees(ReadU64(old(Rest())), value, Rest())
    {
      var slice := Take(8);
      assert Pow256(8) == 0x1_0000_0000_0000_0000;
      value := if slice.Some? then Some(FromBe(slice.value)) else None;
    }

    method NextBytes() returns (value: Option<Bytes>)
      requires Valid()
      modifies this
      ensures Valid() && Agrees(ReadBytes(old(Rest())), value, Rest())
    {
      var length := NextU32();
      if length == None {
        return None;
      }
      value := Take(length.value);
    }

    method NextPairs(count: nat) returns (result: Option<seq<()>>)
      requires Valid()
      modifies this
      ensures Valid() && Agrees(ReadMany(SkipPair, count, old(Rest())), result, Rest())
    {
      hide ReadMany, SkipPair;
      ghost var expected := ReadMany(SkipPair, count, Rest());
      var pairs: seq<()> := [];
      var left: nat := count;
      PrependNone(expected);
      while left > 0
        invariant Valid() && Prepend(pairs, ReadMany(SkipPair, left, Rest())) == expected
      {
        ghost var here := Rest();
        var pair := NextPair();
        if pair == None {
          StopsHere(SkipPair, left, here);
          return None;
        }
        PrependOne(SkipPair, pairs, pair.value, left, here, Rest());
        pairs := pairs + [pair.value];
        left := left - 1;
      }
      NoneLeft(SkipPair, Rest());
      assert pairs + [] == pairs;
      return Some(pairs);
    }

    method NextPair() returns (ok: Option<()>)
      requires Valid()
      modifies this
      ensures Valid() && Agrees(SkipPair(old(Rest())), ok, Rest())
    {
      var name := NextBytes();
      if name == None {
        return None;
      }
      var value := NextBytes();
      ok := if value.Some? then Some(()) else None;
    }

    method NextAttrs() returns (value: Option<Attrs>)
      requires Valid()
      modifies this
      ensures Valid() && Agrees(ReadAttrs(old(Rest())), value, Rest())
    {
      var flags := NextU32();
      if flags == None {
        return None;
      }
      value := NextAttrsWith(flags.value);
    }

    method NextSize(flags: U32) returns (size: Option<Option<U64>>)
      requires Valid()
      modifies this
      ensures Valid() && Agrees(ReadSize(flags, old(Rest())), size, Rest())
    {
      if !HasFlag(flags, ATTR_SIZE) {
        return Some(None);
      }
      var value := NextU64();
      size := if value.Some? then Some(value) else None;
    }

    method NextOwner(flags: U32) returns (ok: Option<()>)
      requires Valid()
      modifies this
      ensures Valid() && Agrees(SkipOwner(flags, old(Rest())), ok, Rest())
    {
      if !HasFlag(flags, ATTR_UIDGID) {
        return Some(());
      }
      var uid := NextU32();
      if uid == None {
        return None;
      }
      var gid := NextU32();
      ok := if gid.Some? then Some(()) else None;
    }

    method NextPermissions(flags: U32) returns (permissions: Option<Option<U32>>)
      requires Valid()
      modifies this
      ensures Valid() && Agrees(ReadPermissions(flags, old(Rest())), permissions, Rest())
    {
      if !HasFlag(flags, ATTR_PERMISSIONS) {
        return Some(None);
      }
      var value := NextU32();
      permissions := if value.Some? then Some(value) else None;
    }

    method NextMtime(flags: U32) returns (mtime: Option<Option<U32>>)
      requires Valid()
      modifies this
      ensures Valid() && Agrees(ReadMtime(flags, old(Rest())), mtime, Rest())
    {
      if !HasFlag(flags, ATTR_ACMODTIME) {
        return Some(None);
      }
      var atime := NextU32();
      if atime == None {
        return None;
      }
      var value := NextU32();
      mtime := if value.Some? then Some(value) else None;
    }

    method NextExtended(flags: U32) returns (ok: Option<seq<()>>)
      requires Valid()
      modifies this
      ensures Valid() && Agrees(SkipExtended(flags, old(Rest())), ok, Rest())
    {
      if !HasFlag(flags, ATTR_EXTENDED) {
        return Some([]);
      }
      var count := NextU32();
      if count == None {
        return None;
      }
      ok := NextPairs(count.value);
    }

    method NextAttrsWith(flags: U32) returns (value: Option<Attrs>)
      requires Valid()
      modifies this
      ensures Valid() && Agrees(ReadAttrsWith(flags, old(Rest())), value, Rest())
    {
      var size := NextSize(flags);
      if size == None {
        return None;
      }
      var owner := NextOwner(flags);
      if owner == None {
        return None;
      }
      var permissions := NextPermissions(flags);
      if permissions == None {
        return None;
      }
      var mtime := NextMtime(flags);
      if mtime == None {
        return None;
      }
      var extended := NextExtended(flags);
      if extended == None {
        return None;
      }
      return Some(Attrs(size.value, permissions.value, mtime.value));
    }

    method NextEntry() returns (entry: Option<NameEntry>)
      requires Valid()
      modifies this
      ensures Valid() && Agrees(ReadEntry(old(Rest())), entry, Rest())
    {
      var filename := NextBytes();
      if filename == None {
        return None;
      }
      var longname := NextBytes();
      if longname == None {
        return None;
      }
      var attrs := NextAttrs();
      entry := if attrs.Some? then Some(NameEntry(filename.value, attrs.value)) else None;
    }

    method NextEntries(count: nat) returns (result: Option<seq<NameEntry>>)
      requires Valid()
      modifies this
      ensures Valid() && Agrees(ReadMany(ReadEntry, count, old(Rest())), result, Rest())
    {
      hide ReadMany, ReadEntry;
      ghost var expected := ReadMany(ReadEntry, count, Rest());
      var entries: seq<NameEntry> := [];
      var left: nat := count;
      PrependNone(expected);
      while left > 0
        invariant Valid() && Prepend(entries, ReadMany(ReadEntry, left, Rest())) == expected
      {
        ghost var here := Rest();
        var entry := NextEntry();
        if entry == None {
          StopsHere(ReadEntry, left, here);
          return None;
        }
        PrependOne(ReadEntry, entries, entry.value, left, here, Rest());
        entries := entries + [entry.value];
        left := left - 1;
      }
      NoneLeft(ReadEntry, Rest());
      assert entries + [] == entries;
      return Some(entries);
    }
  }

  ghost function Prepend<T>(first: seq<T>, more: Parsed<seq<T>>): Parsed<seq<T>> {
    match more
    case Stop => Stop
    case Got(later, rest) => Got(first + later, rest)
  }

  lemma NoneLeft<T>(read: Bytes -> Parsed<T>, s: Bytes)
    ensures ReadMany(read, 0, s) == Got([], s)
  {
  }

  lemma StopsHere<T>(read: Bytes -> Parsed<T>, left: nat, here: Bytes)
    requires left > 0 && read(here) == Stop
    ensures ReadMany(read, left, here) == Stop
  {
  }

  lemma PrependNone<T>(more: Parsed<seq<T>>)
    ensures Prepend([], more) == more
  {
    match more
    case Stop =>
    case Got(later, _) => assert [] + later == later;
  }

  lemma PrependOne<T>(read: Bytes -> Parsed<T>, first: seq<T>, value: T, left: nat, here: Bytes, rest: Bytes)
    requires left > 0 && read(here) == Got(value, rest)
    ensures Prepend(first, ReadMany(read, left, here)) == Prepend(first + [value], ReadMany(read, left - 1, rest))
  {
    match ReadMany(read, left - 1, rest)
    case Stop =>
    case Got(later, _) => assert first + ([value] + later) == first + [value] + later;
  }

  // ---------- Decoding as the client does it ----------

  method DecodeReply(body: Bytes) returns (result: Result<Reply, WireError>)
    ensures result == Decode(body)
  {
    hide ReadReply, ReadU8, ReadU32, FromBe;
    var reader := new Reader(body);
    var kind := reader.NextU8();
    if kind == None {
      return Err(Truncated);
    }
    var id := reader.NextU32();
    if id == None {
      return Err(Truncated);
    }
    var reply := DecodeFields(reader, kind.value, id.value);
    if reply.Err? {
      return reply;
    }
    if reader.Remaining() > 0 {
      return Err(BytesPastTheEnd);
    }
    return reply;
  }

  method DecodeFields(reader: Reader, kind: Byte, id: U32) returns (reply: Result<Reply, WireError>)
    requires reader.Valid()
    modifies reader
    ensures reader.Valid()
    ensures match ReadReply(kind, id, old(reader.Rest()), true)
            case Err(error) => reply == Err(error)
            case Ok((value, rest)) => reply == Ok(value) && reader.Rest() == rest
  {
    if kind == STATUS {
      var code := reader.NextU32();
      if code == None {
        return Err(Truncated);
      }
      var message: Option<Bytes> := Some([]);
      if reader.Remaining() > 0 {
        message := reader.NextBytes();
        if message == None {
          return Err(Truncated);
        }
      }
      if reader.Remaining() > 0 {
        var language := reader.NextBytes();
        if language == None {
          return Err(Truncated);
        }
      }
      return Ok(Status(id, code.value, message.value));
    } else if kind == HANDLE {
      var handle := reader.NextBytes();
      return if handle.Some? then Ok(Handle(id, handle.value)) else Err(Truncated);
    } else if kind == NAME {
      var count := reader.NextU32();
      if count == None {
        return Err(Truncated);
      }
      if count.value > reader.Remaining() / 12 {
        return Err(TooManyNames);
      }
      var entries := reader.NextEntries(count.value);
      return if entries.Some? then Ok(Name(id, entries.value)) else Err(Truncated);
    } else if kind == ATTRS {
      var attrs := reader.NextAttrs();
      return if attrs.Some? then Ok(AttrsReply(id, attrs.value)) else Err(Truncated);
    } else {
      return Err(UnexpectedType);
    }
  }

  method DecodeVersion(body: Bytes) returns (result: Result<U32, WireError>)
    ensures result == Version(body)
  {
    var reader := new Reader(body);
    var kind := reader.NextU8();
    if kind == None {
      return Err(Truncated);
    }
    if kind.value != VERSION_REPLY {
      return Err(UnexpectedType);
    }
    var version := reader.NextU32();
    if version == None {
      return Err(Truncated);
    }
    ghost var expected := OnlyPairs(reader.Rest());
    while reader.Remaining() > 0
      invariant reader.Valid() && OnlyPairs(reader.Rest()) == expected
      decreases |reader.Rest()|
    {
      PairShrinks(reader.Rest());
      var pair := reader.NextPair();
      if pair == None {
        return Err(Truncated);
      }
    }
    return Ok(version.value);
  }
}

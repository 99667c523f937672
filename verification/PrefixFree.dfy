/** Reply bodies end exactly where they say they end: no accepted handle, name or attribute reply is the beginning
    of another, and the early check on the number of names refuses nothing that would have been read. */
module PrefixFree {
  import opened Prelude
  import opened Wire

  /** The same reading, with `x` behind what it left. */
  function Extended<T>(parsed: Parsed<T>, x: Bytes): Parsed<T> {
    match parsed
    case Stop => Stop
    case Got(value, rest) => Got(value, rest + x)
  }

  lemma U32Extends(s: Bytes, x: Bytes)
    requires ReadU32(s).Got?
    ensures ReadU32(s + x) == Extended(ReadU32(s), x)
  {
    assert (s + x)[..4] == s[..4] && (s + x)[4..] == s[4..] + x;
  }

  lemma U64Extends(s: Bytes, x: Bytes)
    requires ReadU64(s).Got?
    ensures ReadU64(s + x) == Extended(ReadU64(s), x)
  {
    assert (s + x)[..8] == s[..8] && (s + x)[8..] == s[8..] + x;
  }

  lemma BytesExtend(s: Bytes, x: Bytes)
    requires ReadBytes(s).Got?
    ensures ReadBytes(s + x) == Extended(ReadBytes(s), x)
  {
    U32Extends(s, x);
    var Got(length, rest) := ReadU32(s);
    assert (rest + x)[..length] == rest[..length] && (rest + x)[length..] == rest[length..] + x;
  }

  lemma PairExtends(s: Bytes, x: Bytes)
    requires SkipPair(s).Got?
    ensures SkipPair(s + x) == Extended(SkipPair(s), x)
  {
    BytesExtend(s, x);
    BytesExtend(ReadBytes(s).rest, x);
  }

  /** A reading that does not look at what it leaves, and leaves at least `least` bytes less than it found. */
  ghost predicate Local<T>(read: Bytes -> Parsed<T>, least: nat) {
    forall s: Bytes, x: Bytes {:trigger read(s + x)} :: read(s).Got? ==>
      read(s + x) == Extended(read(s), x) && |read(s).rest| + least <= |s|
  }

  lemma {:induction false} ManyExtend<T>(read: Bytes -> Parsed<T>, least: nat, count: nat, s: Bytes, x: Bytes)
    requires Local(read, least) && ReadMany(read, count, s).Got?
    ensures ReadMany(read, count, s + x) == Extended(ReadMany(read, count, s), x)
    ensures |ReadMany(read, count, s).rest| <= |s|
  {
    if count > 0 {
      assert read(s + x) == Extended(read(s), x);
      ManyExtend(read, least, count - 1, read(s).rest, x);
    }
  }

  /** Many readings need at least `least` bytes each. */
  lemma {:induction false} ManyNeedRoom<T>(read: Bytes -> Parsed<T>, count: nat, s: Bytes)
    requires Local(read, 12) && ReadMany(read, count, s).Got?
    ensures 12 * count <= |s|
  {
    if count > 0 {
      assert s + [] == s && read(s + []).Got?;
      ManyNeedRoom(read, count - 1, read(s).rest);
    }
  }

  lemma PairIsLocal()
    ensures Local(SkipPair, 8)
  {
    forall s: Bytes, x: Bytes | SkipPair(s).Got?
      ensures SkipPair(s + x) == Extended(SkipPair(s), x) && |SkipPair(s).rest| + 8 <= |s|
    {
      PairExtends(s, x);
    }
  }

  lemma SizeExtends(flags: U32, s: Bytes, x: Bytes)
    requires ReadSize(flags, s).Got?
    ensures ReadSize(flags, s + x) == Extended(ReadSize(flags, s), x)
  {
    if HasFlag(flags, ATTR_SIZE) {
      U64Extends(s, x);
    }
  }

  lemma OwnerExtends(flags: U32, s: Bytes, x: Bytes)
    requires SkipOwner(flags, s).Got?
    ensures SkipOwner(flags, s + x) == Extended(SkipOwner(flags, s), x)
  {
    if HasFlag(flags, ATTR_UIDGID) {
      U32Extends(s, x);
      U32Extends(ReadU32(s).rest, x);
    }
  }

  lemma PermissionsExtend(flags: U32, s: Bytes, x: Bytes)
    requires ReadPermissions(flags, s).Got?
    ensures ReadPermissions(flags, s + x) == Extended(ReadPermissions(flags, s), x)
  {
    if HasFlag(flags, ATTR_PERMISSIONS) {
      U32Extends(s, x);
    }
  }

  lemma MtimeExtends(flags: U32, s: Bytes, x: Bytes)
    requires ReadMtime(flags, s).Got?
    ensures ReadMtime(flags, s + x) == Extended(ReadMtime(flags, s), x)
  {
    if HasFlag(flags, ATTR_ACMODTIME) {
      U32Extends(s, x);
      U32Extends(ReadU32(s).rest, x);
    }
  }

  lemma ExtendedAttrsExtend(flags: U32, s: Bytes, x: Bytes)
    requires SkipExtended(flags, s).Got?
    ensures SkipExtended(flags, s + x) == Extended(SkipExtended(flags, s), x)
  {
    if HasFlag(flags, ATTR_EXTENDED) {
      U32Extends(s, x);
      PairIsLocal();
      ManyExtend(SkipPair, 8, ReadU32(s).value, ReadU32(s).rest, x);
    }
  }

  lemma AttrsExtend(s: Bytes, x: Bytes)
    requires ReadAttrs(s).Got?
    ensures ReadAttrs(s + x) == Extended(ReadAttrs(s), x)
  {
    U32Extends(s, x);
    var Got(flags, s0) := ReadU32(s);
    SizeExtends(flags, s0, x);
    var s1 := ReadSize(flags, s0).rest;
    OwnerExtends(flags, s1, x);
    var s2 := SkipOwner(flags, s1).rest;
    PermissionsExtend(flags, s2, x);
    var s3 := ReadPermissions(flags, s2).rest;
    MtimeExtends(flags, s3, x);
    ExtendedAttrsExtend(flags, ReadMtime(flags, s3).rest, x);
  }

  lemma EntryExtends(s: Bytes, x: Bytes)
    requires ReadEntry(s).Got?
    ensures ReadEntry(s + x) == Extended(ReadEntry(s), x)
    ensures |ReadEntry(s).rest| + 12 <= |s|
  {
    BytesExtend(s, x);
    var s1 := ReadBytes(s).rest;
    BytesExtend(s1, x);
    var s2 := ReadBytes(s1).rest;
    AttrsExtend(s2, x);
    AttrsShrink(s2);
  }

  lemma AttrsShrink(s: Bytes)
    requires ReadAttrs(s).Got?
    ensures |ReadAttrs(s).rest| + 4 <= |s|
  {
    var Got(flags, s0) := ReadU32(s);
    var s1 := ReadSize(flags, s0).rest;
    var s2 := SkipOwner(flags, s1).rest;
    var s3 := ReadPermissions(flags, s2).rest;
    var s4 := ReadMtime(flags, s3).rest;
    if HasFlag(flags, ATTR_EXTENDED) {
      PairIsLocal();
      ManyExtend(SkipPair, 8, ReadU32(s4).value, ReadU32(s4).rest, []);
    }
  }

  /** Every entry takes at least twelve bytes. */
  lemma EntryIsLocal()
    ensures Local(ReadEntry, 12)
  {
    forall s: Bytes, x: Bytes | ReadEntry(s).Got?
      ensures ReadEntry(s + x) == Extended(ReadEntry(s), x) && |ReadEntry(s).rest| + 12 <= |s|
    {
      EntryExtends(s, x);
    }
  }

  predicate EndsItself(kind: Byte) {
    kind == HANDLE || kind == NAME || kind == ATTRS
  }

  lemma ReplyExtends(kind: Byte, id: U32, s: Bytes, x: Bytes)
    requires EndsItself(kind) && ReadReply(kind, id, s, true).Ok?
    ensures var (reply, rest) := ReadReply(kind, id, s, true).value;
            ReadReply(kind, id, s + x, true) == Ok((reply, rest + x))
  {
    if kind == HANDLE {
      BytesExtend(s, x);
    } else if kind == NAME {
      U32Extends(s, x);
      var Got(count, rest) := ReadU32(s);
      EntryIsLocal();
      ManyExtend(ReadEntry, 12, count, rest, x);
    } else {
      AttrsExtend(s, x);
    }
  }

  /** No accepted handle, name or attribute reply stays accepted when bytes are added to it; so no proper
      beginning of an accepted one is accepted either. */
  lemma AcceptedBodiesArePrefixFree(body: Bytes, x: Bytes)
    requires Decode(body).Ok? && EndsItself(body[0]) && x != []
    ensures Decode(body + x) == Err(BytesPastTheEnd)
  {
    U32Extends(body[1..], x);
    assert (body + x)[1..] == body[1..] + x;
    var Got(id, s) := ReadU32(body[1..]);
    ReplyExtends(body[0], id, s, x);
  }

  /** The early check on the number of names changes no successful reading. */
  lemma TheNameCheckRefusesNothingReadable(body: Bytes)
    ensures DecodeWith(body, false).Ok? ==> Decode(body) == DecodeWith(body, false)
    ensures Decode(body).Ok? ==> DecodeWith(body, false) == Decode(body)
  {
    if |body| >= 5 && body[0] == NAME {
      var s := ReadU32(body[1..]).rest;
      if ReadU32(s).Got? {
        var Got(count, rest) := ReadU32(s);
        if ReadMany(ReadEntry, count, rest).Got? {
          EntryIsLocal();
          ManyNeedRoom(ReadEntry, count, rest);
        }
      }
    }
  }
}

/** The other half of the wire: the requests the client builds, a server that reads them, and the replies a server
    writes. Together with the client's reader they make round trips. */
module Codec {
  import opened Prelude
  import opened Wire
  import PrefixFree

  const OPEN: Byte := 3
  const CLOSE: Byte := 4
  const WRITE: Byte := 6
  const LSTAT: Byte := 7
  const FSTAT: Byte := 8
  const SETSTAT: Byte := 9
  const FSETSTAT: Byte := 10
  const OPENDIR: Byte := 11
  const READDIR: Byte := 12
  const REMOVE: Byte := 13
  const MKDIR: Byte := 14
  const RMDIR: Byte := 15
  const REALPATH: Byte := 16
  const RENAME: Byte := 18

  const U32_SIZE: nat := 0x1_0000_0000

  /** Write, create and exclusive. */
  const OPEN_NEW: U32 := 0x2 + 0x8 + 0x20

  // ---------- Fields ----------

  /** A length-prefixed string; the length is truncated to 32 bits, as the builder's cast truncates it. */
  function Field(value: Bytes): Bytes {
    Be(|value| % U32_SIZE, 4) + value
  }

  lemma U32Back(v: U32, rest: Bytes)
    ensures ReadU32(Be(v, 4) + rest) == Got(v, rest)
  {
    assert Pow256(4) == U32_SIZE;
    FromBeOfBe(v, 4);
    assert (Be(v, 4) + rest)[..4] == Be(v, 4) && (Be(v, 4) + rest)[4..] == rest;
  }

  lemma U64Back(v: U64, rest: Bytes)
    ensures ReadU64(Be(v, 8) + rest) == Got(v, rest)
  {
    assert Pow256(8) == 0x1_0000_0000_0000_0000;
    FromBeOfBe(v, 8);
    assert (Be(v, 8) + rest)[..8] == Be(v, 8) && (Be(v, 8) + rest)[8..] == rest;
  }

  lemma FieldBack(value: Bytes, rest: Bytes)
    requires |value| < U32_SIZE
    ensures ReadBytes(Field(value) + rest) == Got(value, rest)
  {
    hide ReadU32, Be;
    U32Back(|value|, value + rest);
    assert |value| % U32_SIZE == |value|;
    assert Field(value) + rest == Be(|value|, 4) + (value + rest);
    assert (value + rest)[..|value|] == value && (value + rest)[|value|..] == rest;
  }

  // ---------- Attribute blocks as a server writes them (section 5) ----------

  /** `reserved` holds the flag bits between the time bit and the extension bit, which mean nothing to Clift. */
  datatype ServerAttrs = ServerAttrs(
    size: Option<U64>, owner: Option<(U32, U32)>, permissions: Option<U32>, times: Option<(U32, U32)>,
    extended: Option<seq<(Bytes, Bytes)>>, reserved: nat)

  predicate WellSizedPairs(pairs: seq<(Bytes, Bytes)>) {
    forall i :: 0 <= i < |pairs| ==> |pairs[i].0| < U32_SIZE && |pairs[i].1| < U32_SIZE
  }

  predicate WellSized(attrs: ServerAttrs) {
    && attrs.reserved < 0x800_0000
    && (attrs.extended.Some? ==> |attrs.extended.value| < U32_SIZE && WellSizedPairs(attrs.extended.value))
  }

  function Bit(present: bool, mask: nat): nat {
    if present then mask else 0
  }

  function Flags(attrs: ServerAttrs): (flags: nat)
  {
    Bit(attrs.size.Some?, ATTR_SIZE) + Bit(attrs.owner.Some?, ATTR_UIDGID)
    + Bit(attrs.permissions.Some?, ATTR_PERMISSIONS) + Bit(attrs.times.Some?, ATTR_ACMODTIME)
    + 16 * attrs.reserved + Bit(attrs.extended.Some?, ATTR_EXTENDED)
  }

  /** A flag is read back whatever lies below and above it. */
  lemma FlagAt(mask: nat, low: nat, bit: bool, high: nat)
    requires low < mask
    requires low + mask * ((if bit then 1 else 0) + 2 * high) < U32_SIZE
    ensures HasFlag(low + mask * ((if bit then 1 else 0) + 2 * high), mask) == bit
  {
    QuotientOf(mask, (if bit then 1 else 0) + 2 * high, low);
  }

  lemma FlagsAreSet(attrs: ServerAttrs)
    requires attrs.reserved < 0x800_0000
    ensures Flags(attrs) < U32_SIZE
    ensures HasFlag(Flags(attrs), ATTR_SIZE) == attrs.size.Some?
    ensures HasFlag(Flags(attrs), ATTR_UIDGID) == attrs.owner.Some?
    ensures HasFlag(Flags(attrs), ATTR_PERMISSIONS) == attrs.permissions.Some?
    ensures HasFlag(Flags(attrs), ATTR_ACMODTIME) == attrs.times.Some?
    ensures HasFlag(Flags(attrs), ATTR_EXTENDED) == attrs.extended.Some?
  {
    hide HasFlag;
    var b0, b1 := Bit(attrs.size.Some?, 1), Bit(attrs.owner.Some?, 2);
    var b2, b3 := Bit(attrs.permissions.Some?, 4), Bit(attrs.times.Some?, 8);
    var r, b31 := attrs.reserved, Bit(attrs.extended.Some?, 0x800_0000);
    FlagAt(ATTR_EXTENDED, b0 + b1 + b2 + b3 + 16 * r, attrs.extended.Some?, 0);
    FlagAt(ATTR_ACMODTIME, b0 + b1 + b2, attrs.times.Some?, r + b31);
    FlagAt(ATTR_PERMISSIONS, b0 + b1, attrs.permissions.Some?, b3 / 8 + 2 * (r + b31));
    FlagAt(ATTR_UIDGID, b0, attrs.owner.Some?, b2 / 4 + 2 * (b3 / 8) + 4 * (r + b31));
    FlagAt(ATTR_SIZE, 0, attrs.size.Some?, b1 / 2 + 2 * (b2 / 4) + 4 * (b3 / 8) + 8 * (r + b31));
  }

  function PairBytes(pair: (Bytes, Bytes)): Bytes {
    Field(pair.0) + Field(pair.1)
  }

  function Concat<T>(write: T -> Bytes, items: seq<T>): Bytes {
    if items == [] then [] else write(items[0]) + Concat(write, items[1..])
  }

  function SizeBytes(attrs: ServerAttrs): Bytes {
    if attrs.size.Some? then Be(attrs.size.value, 8) else []
  }

  function OwnerBytes(attrs: ServerAttrs): Bytes {
    if attrs.owner.Some? then Be(attrs.owner.value.0, 4) + Be(attrs.owner.value.1, 4) else []
  }

  function PermissionBytes(attrs: ServerAttrs): Bytes {
    if attrs.permissions.Some? then Be(attrs.permissions.value, 4) else []
  }

  function TimeBytes(attrs: ServerAttrs): Bytes {
    if attrs.times.Some? then Be(attrs.times.value.0, 4) + Be(attrs.times.value.1, 4) else []
  }

  function ExtendedBytes(attrs: ServerAttrs): Bytes {
    if attrs.extended.Some? then Be(|attrs.extended.value|, 4) + Concat(PairBytes, attrs.extended.value)
    else []
  }

  function BlockBytes(attrs: ServerAttrs): Bytes {
    SizeBytes(attrs) + (OwnerBytes(attrs) + (PermissionBytes(attrs) + (TimeBytes(attrs) + ExtendedBytes(attrs))))
  }

  function AttrBytes(attrs: ServerAttrs): Bytes {
    Be(Flags(attrs), 4) + BlockBytes(attrs)
  }

  /** What Clift keeps of an attribute block. */
  function Kept(attrs: ServerAttrs): Attrs {
    Attrs(attrs.size, attrs.permissions, if attrs.times.Some? then Some(attrs.times.value.1) else None)
  }

  lemma PairBack(pair: (Bytes, Bytes), rest: Bytes)
    requires |pair.0| < U32_SIZE && |pair.1| < U32_SIZE
    ensures SkipPair(PairBytes(pair) + rest) == Got((), rest)
  {
    FieldBack(pair.0, Field(pair.1) + rest);
    FieldBack(pair.1, rest);
    assert PairBytes(pair) + rest == Field(pair.0) + (Field(pair.1) + rest);
  }

  function Each<S, T>(keep: S -> T, items: seq<S>): seq<T> {
    if items == [] then [] else [keep(items[0])] + Each(keep, items[1..])
  }

  ghost predicate ReadsBack<S, T>(write: S -> Bytes, read: Bytes -> Parsed<T>, keep: S -> T, item: S) {
    forall rest: Bytes :: read(write(item) + rest) == Got(keep(item), rest)
  }

  /** If each item reads back, so do many. */
  lemma {:induction false} ManyBack<S, T>(
    write: S -> Bytes, read: Bytes -> Parsed<T>, keep: S -> T, items: seq<S>, rest: Bytes)
    requires forall i :: 0 <= i < |items| ==> ReadsBack(write, read, keep, items[i])
    ensures ReadMany(read, |items|, Concat(write, items) + rest) == Got(Each(keep, items), rest)
  {
    if items == [] {
      assert Concat(write, items) + rest == rest;
    } else {
      var later := Concat(write, items[1..]) + rest;
      ManyBack(write, read, keep, items[1..], rest);
      assert Concat(write, items) + rest == write(items[0]) + later;
      assert ReadsBack(write, read, keep, items[0]);
    }
  }

  function Nothing(pair: (Bytes, Bytes)): () {
    ()
  }

  lemma PairsBack(pairs: seq<(Bytes, Bytes)>, rest: Bytes)
    requires WellSizedPairs(pairs)
    ensures ReadMany(SkipPair, |pairs|, Concat(PairBytes, pairs) + rest).Got?
    ensures ReadMany(SkipPair, |pairs|, Concat(PairBytes, pairs) + rest).rest == rest
  {
    forall i | 0 <= i < |pairs| ensures ReadsBack(PairBytes, SkipPair, Nothing, pairs[i]) {
      forall r: Bytes ensures SkipPair(PairBytes(pairs[i]) + r) == Got(Nothing(pairs[i]), r) {
        PairBack(pairs[i], r);
      }
    }
    ManyBack(PairBytes, SkipPair, Nothing, pairs, rest);
  }

  lemma SkipExtendedAt(flags: U32, count: U32, s: Bytes, whole: Bytes)
    requires HasFlag(flags, ATTR_EXTENDED) && ReadU32(whole) == Got(count, s)
    ensures SkipExtended(flags, whole) == ReadMany(SkipPair, count, s)
  {
  }

  lemma ExtendedRegroup(attrs: ServerAttrs, rest: Bytes)
    requires WellSized(attrs) && attrs.extended.Some?
    ensures var pairs := attrs.extended.value;
            ExtendedBytes(attrs) + rest == Be(|pairs|, 4) + (Concat(PairBytes, pairs) + rest)
  {
    var pairs := attrs.extended.value;
    assert |pairs| % U32_SIZE == |pairs|;
  }

  lemma ExtendedBack(flags: U32, attrs: ServerAttrs, rest: Bytes)
    requires WellSized(attrs) && HasFlag(flags, ATTR_EXTENDED) == attrs.extended.Some?
    ensures var read := SkipExtended(flags, ExtendedBytes(attrs) + rest); read.Got? && read.rest == rest
  {
    if attrs.extended.Some? {
      var pairs := attrs.extended.value;
      var s := Concat(PairBytes, pairs) + rest;
      ExtendedRegroup(attrs, rest);
      U32Back(|pairs|, s);
      SkipExtendedAt(flags, |pairs|, s, Be(|pairs|, 4) + s);
      PairsBack(pairs, rest);
    } else {
      assert ExtendedBytes(attrs) + rest == rest;
    }
  }

  lemma SizeBack(flags: U32, attrs: ServerAttrs, rest: Bytes)
    requires HasFlag(flags, ATTR_SIZE) == attrs.size.Some?
    ensures ReadSize(flags, SizeBytes(attrs) + rest) == Got(attrs.size, rest)
  {
    if attrs.size.Some? {
      U64Back(attrs.size.value, rest);
    } else {
      assert [] + rest == rest;
    }
  }

  lemma TwoBack(a: U32, b: U32, rest: Bytes)
    ensures ReadU32(Be(a, 4) + Be(b, 4) + rest) == Got(a, Be(b, 4) + rest)
    ensures ReadU32(Be(b, 4) + rest) == Got(b, rest)
  {
    U32Back(a, Be(b, 4) + rest);
    U32Back(b, rest);
    assert Be(a, 4) + Be(b, 4) + rest == Be(a, 4) + (Be(b, 4) + rest);
  }

  lemma OwnerBack(flags: U32, attrs: ServerAttrs, rest: Bytes)
    requires HasFlag(flags, ATTR_UIDGID) == attrs.owner.Some?
    ensures SkipOwner(flags, OwnerBytes(attrs) + rest) == Got((), rest)
  {
    if attrs.owner.Some? {
      TwoBack(attrs.owner.value.0, attrs.owner.value.1, rest);
    } else {
      assert [] + rest == rest;
    }
  }

  lemma PermissionsBack(flags: U32, attrs: ServerAttrs, rest: Bytes)
    requires HasFlag(flags, ATTR_PERMISSIONS) == attrs.permissions.Some?
    ensures ReadPermissions(flags, PermissionBytes(attrs) + rest) == Got(attrs.permissions, rest)
  {
    if attrs.permissions.Some? {
      U32Back(attrs.permissions.value, rest);
    } else {
      assert [] + rest == rest;
    }
  }

  lemma MtimeBack(flags: U32, attrs: ServerAttrs, rest: Bytes)
    requires HasFlag(flags, ATTR_ACMODTIME) == attrs.times.Some?
    ensures ReadMtime(flags, TimeBytes(attrs) + rest) == Got(Kept(attrs).mtime, rest)
  {
    if attrs.times.Some? {
      TwoBack(attrs.times.value.0, attrs.times.value.1, rest);
    } else {
      assert [] + rest == rest;
    }
  }

  lemma BlockRegroup(attrs: ServerAttrs, rest: Bytes)
    ensures BlockBytes(attrs) + rest
         == SizeBytes(attrs)
            + (OwnerBytes(attrs) + (PermissionBytes(attrs) + (TimeBytes(attrs) + (ExtendedBytes(attrs) + rest))))
  {
    Regroup(SizeBytes(attrs), OwnerBytes(attrs), PermissionBytes(attrs), TimeBytes(attrs), ExtendedBytes(attrs), rest);
  }

  lemma Regroup(a: Bytes, b: Bytes, c: Bytes, d: Bytes, e: Bytes, rest: Bytes)
    ensures a + (b + (c + (d + e))) + rest == a + (b + (c + (d + (e + rest))))
  {
    assert a + (b + (c + (d + e))) + rest == a + (b + (c + (d + e)) + rest);
    assert b + (c + (d + e)) + rest == b + (c + (d + e) + rest);
    assert c + (d + e) + rest == c + (d + e + rest);
    assert d + e + rest == d + (e + rest);
  }

  lemma ReadAttrsSteps(flags: U32, s0: Bytes, s1: Bytes, s2: Bytes, s3: Bytes, s4: Bytes, attrs: Attrs)
    requires ReadSize(flags, s0) == Got(attrs.size, s1)
    requires SkipOwner(flags, s1) == Got((), s2)
    requires ReadPermissions(flags, s2) == Got(attrs.permissions, s3)
    requires ReadMtime(flags, s3) == Got(attrs.mtime, s4)
    requires SkipExtended(flags, s4).Got?
    ensures ReadAttrsWith(flags, s0) == Got(attrs, SkipExtended(flags, s4).rest)
  {
  }

  lemma BlockBack(flags: U32, attrs: ServerAttrs, rest: Bytes)
    requires WellSized(attrs) && flags == Flags(attrs)
    ensures ReadAttrsWith(flags, BlockBytes(attrs) + rest) == Got(Kept(attrs), rest)
  {
    FlagsAreSet(attrs);
    var s4 := ExtendedBytes(attrs) + rest;
    var s3 := TimeBytes(attrs) + s4;
    var s2 := PermissionBytes(attrs) + s3;
    var s1 := OwnerBytes(attrs) + s2;
    SizeBack(flags, attrs, s1);
    OwnerBack(flags, attrs, s2);
    PermissionsBack(flags, attrs, s3);
    MtimeBack(flags, attrs, s4);
    ExtendedBack(flags, attrs, rest);
    BlockRegroup(attrs, rest);
    ReadAttrsSteps(flags, SizeBytes(attrs) + s1, s1, s2, s3, s4, Kept(attrs));
  }

  lemma ReadAttrsAt(flags: U32, s: Bytes, whole: Bytes)
    requires ReadU32(whole) == Got(flags, s)
    ensures ReadAttrs(whole) == ReadAttrsWith(flags, s)
  {
  }

  lemma FlagsBack(attrs: ServerAttrs, s: Bytes)
    requires attrs.reserved < 0x800_0000
    ensures Flags(attrs) < U32_SIZE
    ensures ReadAttrs(Be(Flags(attrs), 4) + s) == ReadAttrsWith(Flags(attrs), s)
  {
    FlagsAreSet(attrs);
    U32Back(Flags(attrs), s);
    ReadAttrsAt(Flags(attrs), s, Be(Flags(attrs), 4) + s);
  }

  lemma Regroup2(a: Bytes, b: Bytes, rest: Bytes)
    ensures a + b + rest == a + (b + rest)
  {
  }

  /** Whichever flags are set, the client reads the block to its end and keeps its three fields. */
  lemma AttrsBack(attrs: ServerAttrs, rest: Bytes)
    requires WellSized(attrs)
    ensures ReadAttrs(AttrBytes(attrs) + rest) == Got(Kept(attrs), rest)
  {
    FlagsBack(attrs, BlockBytes(attrs) + rest);
    BlockBack(Flags(attrs), attrs, rest);
    Regroup2(Be(Flags(attrs), 4), BlockBytes(attrs), rest);
  }

  // ---------- Replies as a server writes them (section 7) ----------

  datatype StatusTail = Bare | WithMessage(message: Bytes) | WithLanguage(message: Bytes, language: Bytes)

  datatype ServerEntry = ServerEntry(filename: Bytes, longname: Bytes, attrs: ServerAttrs)

  datatype ServerReply =
    | StatusSent(id: U32, code: U32, tail: StatusTail)
    | HandleSent(id: U32, handle: Bytes)
    | NameSent(id: U32, entries: seq<ServerEntry>)
    | AttrsSent(id: U32, attrs: ServerAttrs)

  predicate WellSizedReply(reply: ServerReply) {
    match reply
    case StatusSent(_, _, Bare) => true
    case StatusSent(_, _, WithMessage(message)) => |message| < U32_SIZE
    case StatusSent(_, _, WithLanguage(message, language)) => |message| < U32_SIZE && |language| < U32_SIZE
    case HandleSent(_, handle) => |handle| < U32_SIZE
    case NameSent(_, entries) =>
      |entries| < U32_SIZE && forall i :: 0 <= i < |entries| ==> WellSizedEntry(entries[i])
    case AttrsSent(_, attrs) => WellSized(attrs)
  }

  predicate WellSizedEntry(entry: ServerEntry) {
    |entry.filename| < U32_SIZE && |entry.longname| < U32_SIZE && WellSized(entry.attrs)
  }

  function EntryBytes(entry: ServerEntry): Bytes {
    Field(entry.filename) + (Field(entry.longname) + AttrBytes(entry.attrs))
  }

  function KeptEntry(entry: ServerEntry): NameEntry {
    NameEntry(entry.filename, Kept(entry.attrs))
  }

  function TailBytes(tail: StatusTail): Bytes {
    match tail
    case Bare => []
    case WithMessage(message) => Field(message)
    case WithLanguage(message, language) => Field(message) + Field(language)
  }

  function KindOf(reply: ServerReply): Byte {
    match reply
    case StatusSent(_, _, _) => STATUS
    case HandleSent(_, _) => HANDLE
    case NameSent(_, _) => NAME
    case AttrsSent(_, _) => ATTRS
  }

  function FieldBytes(reply: ServerReply): Bytes {
    match reply
    case StatusSent(_, code, tail) => Be(code, 4) + TailBytes(tail)
    case HandleSent(_, handle) => Field(handle)
    case NameSent(_, entries) => Be(|entries|, 4) + Concat(EntryBytes, entries)
    case AttrsSent(_, attrs) => AttrBytes(attrs)
  }

  function ReplyBytes(reply: ServerReply): Bytes {
    [KindOf(reply)] + (Be(reply.id, 4) + FieldBytes(reply))
  }

  function KeptReply(reply: ServerReply): Reply {
    match reply
    case StatusSent(id, code, Bare) => Status(id, code, [])
    case StatusSent(id, code, WithMessage(message)) => Status(id, code, message)
    case StatusSent(id, code, WithLanguage(message, _)) => Status(id, code, message)
    case HandleSent(id, handle) => Handle(id, handle)
    case NameSent(id, entries) => Name(id, Each(KeptEntry, entries))
    case AttrsSent(id, attrs) => AttrsReply(id, Kept(attrs))
  }

  lemma EntryBack(entry: ServerEntry, rest: Bytes)
    requires WellSizedEntry(entry)
    ensures ReadEntry(EntryBytes(entry) + rest) == Got(KeptEntry(entry), rest)
  {
    var s2 := AttrBytes(entry.attrs) + rest;
    var s1 := Field(entry.longname) + s2;
    AttrsBack(entry.attrs, rest);
    FieldBack(entry.longname, s2);
    FieldBack(entry.filename, s1);
    Regroup3(Field(entry.filename), Field(entry.longname), AttrBytes(entry.attrs), rest);
    ReadEntrySteps(Field(entry.filename) + s1, s1, s2, entry.filename, entry.longname);
  }

  lemma Regroup3(a: Bytes, b: Bytes, c: Bytes, rest: Bytes)
    ensures a + (b + c) + rest == a + (b + (c + rest))
  {
    assert b + c + rest == b + (c + rest);
  }

  lemma ReadEntrySteps(s0: Bytes, s1: Bytes, s2: Bytes, filename: Bytes, longname: Bytes)
    requires ReadBytes(s0) == Got(filename, s1) && ReadBytes(s1) == Got(longname, s2) && ReadAttrs(s2).Got?
    ensures ReadEntry(s0) == Got(NameEntry(filename, ReadAttrs(s2).value), ReadAttrs(s2).rest)
  {
  }

  lemma EntryReadsBack(entry: ServerEntry)
    requires WellSizedEntry(entry)
    ensures ReadsBack(EntryBytes, ReadEntry, KeptEntry, entry)
  {
    forall r: Bytes ensures ReadEntry(EntryBytes(entry) + r) == Got(KeptEntry(entry), r) {
      EntryBack(entry, r);
    }
  }

  lemma EntriesBack(entries: seq<ServerEntry>)
    requires forall i :: 0 <= i < |entries| ==> WellSizedEntry(entries[i])
    ensures ReadMany(ReadEntry, |entries|, Concat(EntryBytes, entries)) == Got(Each(KeptEntry, entries), [])
  {
    forall i | 0 <= i < |entries| ensures ReadsBack(EntryBytes, ReadEntry, KeptEntry, entries[i]) {
      EntryReadsBack(entries[i]);
    }
    ManyBack(EntryBytes, ReadEntry, KeptEntry, entries, []);
    assert Concat(EntryBytes, entries) + [] == Concat(EntryBytes, entries);
  }

  lemma ReadNameSteps(id: U32, s: Bytes, count: U32, rest: Bytes)
    requires ReadU32(s) == Got(count, rest) && ReadMany(ReadEntry, count, rest).Got?
    ensures var entries := ReadMany(ReadEntry, count, rest);
            ReadReply(NAME, id, s, false) == Ok((Name(id, entries.value), entries.rest))
  {
  }

  lemma NamesBack(id: U32, entries: seq<ServerEntry>)
    requires |entries| < U32_SIZE
    requires forall i :: 0 <= i < |entries| ==> WellSizedEntry(entries[i])
    ensures ReadReply(NAME, id, Be(|entries|, 4) + Concat(EntryBytes, entries), false)
         == Ok((Name(id, Each(KeptEntry, entries)), []))
  {
    var s := Concat(EntryBytes, entries);
    EntriesBack(entries);
    U32Back(|entries|, s);
    ReadNameSteps(id, Be(|entries|, 4) + s, |entries|, s);
  }

  lemma StatusBack(id: U32, code: U32, tail: StatusTail)
    requires WellSizedReply(StatusSent(id, code, tail))
    ensures ReadReply(STATUS, id, FieldBytes(StatusSent(id, code, tail)), false)
         == Ok((KeptReply(StatusSent(id, code, tail)), []))
  {
    U32Back(code, TailBytes(tail));
    match tail
    case Bare =>
    case WithMessage(message) =>
      FieldBack(message, []);
      assert Field(message) + [] == Field(message);
    case WithLanguage(message, language) =>
      FieldBack(message, Field(language));
      FieldBack(language, []);
      assert Field(language) + [] == Field(language);
  }

  lemma FieldsBack(reply: ServerReply)
    requires WellSizedReply(reply)
    ensures ReadReply(KindOf(reply), reply.id, FieldBytes(reply), false) == Ok((KeptReply(reply), []))
  {
    match reply
    case StatusSent(id, code, tail) => StatusBack(id, code, tail);
    case HandleSent(_, handle) =>
      FieldBack(handle, []);
      assert Field(handle) + [] == Field(handle);
    case NameSent(id, entries) => NamesBack(id, entries);
    case AttrsSent(_, attrs) =>
      AttrsBack(attrs, []);
      assert AttrBytes(attrs) + [] == AttrBytes(attrs);
  }

  lemma DecodeSteps(kind: Byte, id: U32, fields: Bytes, reply: Reply)
    requires ReadReply(kind, id, fields, false) == Ok((reply, []))
    ensures DecodeWith([kind] + (Be(id, 4) + fields), false) == Ok(reply)
  {
    U32Back(id, fields);
    assert ([kind] + (Be(id, 4) + fields))[1..] == Be(id, 4) + fields;
  }

  /** Every reply a server can write within the format is read back as what Clift keeps of it. */
  lemma ReplyBack(reply: ServerReply)
    requires WellSizedReply(reply)
    ensures Decode(ReplyBytes(reply)) == Ok(KeptReply(reply))
  {
    FieldsBack(reply);
    DecodeSteps(KindOf(reply), reply.id, FieldBytes(reply), KeptReply(reply));
    PrefixFree.TheNameCheckRefusesNothingReadable(ReplyBytes(reply));
  }

  lemma TailsExtend(id: U32, code: U32, message: Bytes, language: Bytes)
    requires |message| < U32_SIZE && |language| < U32_SIZE
    ensures ReplyBytes(StatusSent(id, code, Bare)) < ReplyBytes(StatusSent(id, code, WithMessage(message)))
    ensures ReplyBytes(StatusSent(id, code, WithMessage(message)))
          < ReplyBytes(StatusSent(id, code, WithLanguage(message, language)))
  {
    hide Be;
  }

  /** A status does not end itself: with its language tag cut off it is still accepted, and with its message as well. */
  lemma StatusesAreNotPrefixFree(id: U32, code: U32, message: Bytes, language: Bytes)
    requires |message| < U32_SIZE && |language| < U32_SIZE
    ensures var bare, full := ReplyBytes(StatusSent(id, code, Bare)), ReplyBytes(StatusSent(id, code, WithMessage(message)));
            var tagged := ReplyBytes(StatusSent(id, code, WithLanguage(message, language)));
            bare < full < tagged && Decode(bare).Ok? && Decode(full).Ok? && Decode(tagged).Ok?
  {
    hide Decode, ReplyBytes, KeptReply;
    TailsExtend(id, code, message, language);
    ReplyBack(StatusSent(id, code, Bare));
    ReplyBack(StatusSent(id, code, WithMessage(message)));
    ReplyBack(StatusSent(id, code, WithLanguage(message, language)));
  }

  lemma {:induction false} OnlyPairsBack(pairs: seq<(Bytes, Bytes)>)
    requires WellSizedPairs(pairs)
    ensures OnlyPairs(Concat(PairBytes, pairs))
  {
    if pairs != [] {
      var later := Concat(PairBytes, pairs[1..]);
      OnlyPairsBack(pairs[1..]);
      PairBack(pairs[0], later);
    }
  }

  /** The greeting (section 4) is read through whatever extensions the server names. */
  lemma VersionBack(version: U32, pairs: seq<(Bytes, Bytes)>)
    requires WellSizedPairs(pairs)
    ensures Version([VERSION_REPLY] + (Be(version, 4) + Concat(PairBytes, pairs))) == Ok(version)
  {
    var rest := Be(version, 4) + Concat(PairBytes, pairs);
    assert ([VERSION_REPLY] + rest)[1..] == rest;
    U32Back(version, Concat(PairBytes, pairs));
    OnlyPairsBack(pairs);
  }

  // ---------- Requests (section 6) ----------

  datatype Op =
    | Realpath(path: Bytes)
    | Lstat(path: Bytes)
    | Fstat(handle: Bytes)
    | Mkdir(path: Bytes, mode: U32)
    | Setstat(path: Bytes, mode: U32)
    | Fsetstat(handle: Bytes, mode: U32)
    | OpenNew(path: Bytes, mode: U32)
    | Write(handle: Bytes, offset: U64, data: Bytes)
    | Close(handle: Bytes)
    | Opendir(path: Bytes)
    | Readdir(handle: Bytes)
    | Remove(path: Bytes)
    | Rmdir(path: Bytes)
    | Rename(from: Bytes, to: Bytes)

  datatype Request = Request(id: U32, op: Op)

  function OpKind(op: Op): Byte {
    match op
    case Realpath(_) => REALPATH
    case Lstat(_) => LSTAT
    case Fstat(_) => FSTAT
    case Mkdir(_, _) => MKDIR
    case Setstat(_, _) => SETSTAT
    case Fsetstat(_, _) => FSETSTAT
    case OpenNew(_, _) => OPEN
    case Write(_, _, _) => WRITE
    case Close(_) => CLOSE
    case Opendir(_) => OPENDIR
    case Readdir(_) => READDIR
    case Remove(_) => REMOVE
    case Rmdir(_) => RMDIR
    case Rename(_, _) => RENAME
  }

  /** An attribute block holding permissions and nothing else. */
  function ModeBytes(mode: U32): Bytes {
    Be(ATTR_PERMISSIONS, 4) + Be(mode, 4)
  }

  function OpBytes(op: Op): Bytes {
    match op
    case Realpath(path) => Field(path)
    case Lstat(path) => Field(path)
    case Fstat(handle) => Field(handle)
    case Mkdir(path, mode) => Field(path) + ModeBytes(mode)
    case Setstat(path, mode) => Field(path) + ModeBytes(mode)
    case Fsetstat(handle, mode) => Field(handle) + ModeBytes(mode)
    case OpenNew(path, mode) => Field(path) + (Be(OPEN_NEW, 4) + ModeBytes(mode))
    case Write(handle, offset, data) => Field(handle) + (Be(offset, 8) + Field(data))
    case Close(handle) => Field(handle)
    case Opendir(path) => Field(path)
    case Readdir(handle) => Field(handle)
    case Remove(path) => Field(path)
    case Rmdir(path) => Field(path)
    case Rename(from, to) => Field(from) + Field(to)
  }

  function RequestBody(request: Request): Bytes {
    [OpKind(request.op)] + (Be(request.id, 4) + OpBytes(request.op))
  }

  /** A packet on its way: its length, truncated to 32 bits, and its body. */
  function Packet(body: Bytes): Bytes {
    Be(|body| % U32_SIZE, 4) + body
  }

  // ---------- A server reading requests ----------

  function ReadMode(s: Bytes): Parsed<U32> {
    match ReadAttrs(s)
    case Stop => Stop
    case Got(attrs, rest) =>
      if attrs.size == None && attrs.mtime == None && attrs.permissions.Some? then Got(attrs.permissions.value, rest)
      else Stop
  }

  function ReadOne(make: Bytes -> Op, s: Bytes): Parsed<Op> {
    match ReadBytes(s)
    case Stop => Stop
    case Got(name, rest) => Got(make(name), rest)
  }

  function ReadWithMode(make: (Bytes, U32) -> Op, s: Bytes): Parsed<Op> {
    match ReadBytes(s)
    case Stop => Stop
    case Got(name, rest) =>
      match ReadMode(rest)
      case Stop => Stop
      case Got(mode, rest) => Got(make(name, mode), rest)
  }

  function ReadOpen(s: Bytes): Parsed<Op> {
    match ReadBytes(s)
    case Stop => Stop
    case Got(path, rest) =>
      match ReadU32(rest)
      case Stop => Stop
      case Got(flags, rest) =>
        if flags != OPEN_NEW then Stop else
          match ReadMode(rest)
          case Stop => Stop
          case Got(mode, rest) => Got(OpenNew(path, mode), rest)
  }

  function ReadWrite(s: Bytes): Parsed<Op> {
    match ReadBytes(s)
    case Stop => Stop
    case Got(handle, rest) =>
      match ReadU64(rest)
      case Stop => Stop
      case Got(offset, rest) =>
        match ReadBytes(rest)
        case Stop => Stop
        case Got(data, rest) => Got(Write(handle, offset, data), rest)
  }

  function ReadRename(s: Bytes): Parsed<Op> {
    match ReadBytes(s)
    case Stop => Stop
    case Got(from, rest) =>
      match ReadBytes(rest)
      case Stop => Stop
      case Got(to, rest) => Got(Rename(from, to), rest)
  }

  function ReadOp(kind: Byte, s: Bytes): Parsed<Op> {
    if kind == REALPATH then ReadOne(path => Realpath(path), s)
    else if kind == LSTAT then ReadOne(path => Lstat(path), s)
    else if kind == FSTAT then ReadOne(handle => Fstat(handle), s)
    else if kind == MKDIR then ReadWithMode((path, mode: U32) => Mkdir(path, mode), s)
    else if kind == SETSTAT then ReadWithMode((path, mode: U32) => Setstat(path, mode), s)
    else if kind == FSETSTAT then ReadWithMode((handle, mode: U32) => Fsetstat(handle, mode), s)
    else if kind == OPEN then ReadOpen(s)
    else if kind == WRITE then ReadWrite(s)
    else if kind == CLOSE then ReadOne(handle => Close(handle), s)
    else if kind == OPENDIR then ReadOne(path => Opendir(path), s)
    else if kind == READDIR then ReadOne(handle => Readdir(handle), s)
    else if kind == REMOVE then ReadOne(path => Remove(path), s)
    else if kind == RMDIR then ReadOne(path => Rmdir(path), s)
    else if kind == RENAME then ReadRename(s)
    else Stop
  }

  function ReadRequest(body: Bytes): Option<Request> {
    match ReadU8(body)
    case Stop => None
    case Got(kind, rest) =>
      match ReadU32(rest)
      case Stop => None
      case Got(id, rest) =>
        match ReadOp(kind, rest)
        case Stop => None
        case Got(op, rest) => if rest == [] then Some(Request(id, op)) else None
  }

  /** The length has to be that of what follows. */
  function ReadPacket(packet: Bytes): Option<Bytes> {
    match ReadU32(packet)
    case Stop => None
    case Got(length, body) => if |body| == length then Some(body) else None
  }

  function ServerReads(packet: Bytes): Option<Request> {
    match ReadPacket(packet)
    case None => None
    case Some(body) => ReadRequest(body)
  }

  lemma FieldAlone(value: Bytes)
    requires |value| < U32_SIZE
    ensures ReadBytes(Field(value)) == Got(value, [])
  {
    FieldBack(value, []);
    assert Field(value) + [] == Field(value);
  }

  lemma ModeBack(mode: U32)
    ensures ReadMode(ModeBytes(mode)) == Got(mode, [])
  {
    var attrs := ServerAttrs(None, None, Some(mode), None, None, 0);
    AttrsBack(attrs, []);
    assert [] + ([] + (Be(mode, 4) + ([] + []))) == Be(mode, 4);
    assert AttrBytes(attrs) + [] == ModeBytes(mode);
  }

  lemma WithModeBack(make: (Bytes, U32) -> Op, name: Bytes, mode: U32)
    requires |name| < U32_SIZE
    ensures ReadWithMode(make, Field(name) + ModeBytes(mode)) == Got(make(name, mode), [])
  {
    FieldBack(name, ModeBytes(mode));
    ModeBack(mode);
  }

  lemma OpenBack(path: Bytes, mode: U32)
    requires |path| < U32_SIZE
    ensures ReadOp(OPEN, OpBytes(OpenNew(path, mode))) == Got(OpenNew(path, mode), [])
  {
    hide ReadBytes, ReadU32, ReadMode, ReadWrite, ReadRename, ReadOne, ReadWithMode, Be, Field, ModeBytes;
    FieldBack(path, Be(OPEN_NEW, 4) + ModeBytes(mode));
    U32Back(OPEN_NEW, ModeBytes(mode));
    ModeBack(mode);
  }

  lemma ReadWriteSteps(s0: Bytes, s1: Bytes, s2: Bytes, handle: Bytes, offset: U64, data: Bytes)
    requires ReadBytes(s0) == Got(handle, s1) && ReadU64(s1) == Got(offset, s2) && ReadBytes(s2) == Got(data, [])
    ensures ReadWrite(s0) == Got(Write(handle, offset, data), [])
  {
  }

  lemma WriteBack(handle: Bytes, offset: U64, data: Bytes)
    requires |handle| < U32_SIZE && |data| < U32_SIZE
    ensures ReadOp(WRITE, OpBytes(Write(handle, offset, data))) == Got(Write(handle, offset, data), [])
  {
    hide ReadBytes, ReadU64, ReadWrite, ReadOpen, ReadRename, ReadOne, ReadWithMode, Be, Field;
    var s1 := Be(offset, 8) + Field(data);
    FieldBack(handle, s1);
    U64Back(offset, Field(data));
    FieldAlone(data);
    ReadWriteSteps(Field(handle) + s1, s1, Field(data), handle, offset, data);
  }

  lemma RenameBack(from: Bytes, to: Bytes)
    requires |from| < U32_SIZE && |to| < U32_SIZE
    ensures ReadOp(RENAME, OpBytes(Rename(from, to))) == Got(Rename(from, to), [])
  {
    FieldBack(from, Field(to));
    FieldAlone(to);
  }

  predicate HasOneField(op: Op) {
    op.Realpath? || op.Lstat? || op.Fstat? || op.Close? || op.Opendir? || op.Readdir? || op.Remove? || op.Rmdir?
  }

  lemma OneFieldBack(op: Op)
    requires HasOneField(op) && |OpBytes(op)| < U32_SIZE
    ensures ReadOp(OpKind(op), OpBytes(op)) == Got(op, [])
  {
    match op
    case Realpath(path) => FieldAlone(path);
    case Lstat(path) => FieldAlone(path);
    case Fstat(handle) => FieldAlone(handle);
    case Close(handle) => FieldAlone(handle);
    case Opendir(path) => FieldAlone(path);
    case Readdir(handle) => FieldAlone(handle);
    case Remove(path) => FieldAlone(path);
    case Rmdir(path) => FieldAlone(path);
  }

  lemma MkdirBack(path: Bytes, mode: U32)
    requires |path| < U32_SIZE
    ensures ReadOp(MKDIR, Field(path) + ModeBytes(mode)) == Got(Mkdir(path, mode), [])
  {
    WithModeBack((path, mode: U32) => Mkdir(path, mode), path, mode);
  }

  lemma SetstatBack(path: Bytes, mode: U32)
    requires |path| < U32_SIZE
    ensures ReadOp(SETSTAT, Field(path) + ModeBytes(mode)) == Got(Setstat(path, mode), [])
  {
    WithModeBack((path, mode: U32) => Setstat(path, mode), path, mode);
  }

  lemma FsetstatBack(handle: Bytes, mode: U32)
    requires |handle| < U32_SIZE
    ensures ReadOp(FSETSTAT, Field(handle) + ModeBytes(mode)) == Got(Fsetstat(handle, mode), [])
  {
    WithModeBack((handle, mode: U32) => Fsetstat(handle, mode), handle, mode);
  }

  lemma OpBack(op: Op)
    requires |OpBytes(op)| < U32_SIZE
    ensures ReadOp(OpKind(op), OpBytes(op)) == Got(op, [])
  {
    if HasOneField(op) {
      OneFieldBack(op);
    } else {
      match op
      case Mkdir(path, mode) => MkdirBack(path, mode);
      case Setstat(path, mode) => SetstatBack(path, mode);
      case Fsetstat(handle, mode) => FsetstatBack(handle, mode);
      case OpenNew(path, mode) => OpenBack(path, mode);
      case Write(handle, offset, data) => WriteBack(handle, offset, data);
      case Rename(from, to) => RenameBack(from, to);
    }
  }

  lemma BodyBack(request: Request)
    requires |OpBytes(request.op)| < U32_SIZE
    ensures ReadRequest(RequestBody(request)) == Some(request)
  {
    OpBack(request.op);
    U32Back(request.id, OpBytes(request.op));
    assert RequestBody(request)[1..] == Be(request.id, 4) + OpBytes(request.op);
  }

  lemma PacketBack(body: Bytes)
    ensures ReadPacket(Packet(body)) == if |body| < U32_SIZE then Some(body) else None
  {
    U32Back(|body| % U32_SIZE, body);
  }

  /** A server reads back exactly the request that was built, if and only if its body's length fits in 32 bits. */
  lemma RequestBack(request: Request)
    ensures ServerReads(Packet(RequestBody(request))) == Some(request) <==> |RequestBody(request)| < U32_SIZE
  {
    PacketBack(RequestBody(request));
    if |RequestBody(request)| < U32_SIZE {
      BodyBack(request);
    }
  }
}

/** Uploading a file all or nothing (`clift-transport/src/upload.rs`): the bytes go to a
    temporary name beside the destination, are checked there, and only then renamed into place. */
module UploadAtomic {
  import opened Prelude
  import opened Wire
  import opened Codec
  import opened RemoteFs
  import opened Session
  import opened Upload

  const FILE_MODE: U32 := 0x180 // 0600

  datatype Wrong = NoSize | Truncated(reported: nat) | Mode(bits: Option<nat>) | NotInPlace(refusal: Refusal)

  /** What was reported of the file against what it should be. */
  function Verify(expected: nat, attrs: Attrs): (verdict: Result<(), Wrong>)
    ensures verdict.Ok? <==>
      && attrs.size == Some(expected)
      && attrs.permissions.Some? && attrs.permissions.value % PERMISSION_UNIT == FILE_MODE
  {
    match attrs.size
    case None => Err(NoSize)
    case Some(reported) =>
      if reported != expected then Err(Wrong.Truncated(reported))
      else
        match attrs.permissions
        case Some(bits) => if bits % PERMISSION_UNIT == FILE_MODE then Ok(()) else Err(Mode(Some(bits % PERMISSION_UNIT)))
        case None => Err(Mode(None))
  }

  // ---------- The temporary name ----------

  const PART: Path := [46, 112, 97, 114, 116] // ".part"

  function HexDigit(n: nat): (digit: Byte)
    requires n < 16
    ensures digit != SLASH && digit != DOT && !IsControl(digit)
  {
    if n < 10 then 48 + n else 87 + n
  }

  function Hex(bytes: Bytes): (text: Bytes)
    ensures |text| == 2 * |bytes|
    ensures forall i :: 0 <= i < |text| ==> text[i] != SLASH && text[i] != DOT && !IsControl(text[i])
  {
    if bytes == [] then [] else
      Hex(bytes[..|bytes| - 1]) + [HexDigit(bytes[|bytes| - 1] / 16), HexDigit(bytes[|bytes| - 1] % 16)]
  }

  function Directory(destination: Path): Path {
    match LastSlash(destination)
    case Some(cut) => destination[..cut]
    case None => []
  }

  method TemporaryPath(destination: Path, random: Bytes) returns (temporary: Path)
    ensures temporary == Temporary(destination, random)
  {
    var name := [DOT];
    for i := 0 to |random|
      invariant name == [DOT] + Hex(random[..i])
    {
      assert random[..i + 1][..i] == random[..i];
      name := name + [HexDigit(random[i] / 16), HexDigit(random[i] % 16)];
    }
    assert random[..|random|] == random;
    name := name + PART;
    temporary := Directory(destination) + [SLASH] + name;
  }

  lemma {:induction false} SameHex(a: Bytes, b: Bytes)
    requires Hex(a) == Hex(b)
    ensures a == b
  {
    assert |a| == |b|;
    if a != [] {
      var n := |a| - 1;
      assert Hex(a)[..2 * n] == Hex(a[..n]) && Hex(b)[..2 * n] == Hex(b[..n]);
      SameHex(a[..n], b[..n]);
      assert HexDigit(a[n] / 16) == Hex(a)[2 * n] == HexDigit(b[n] / 16);
      assert HexDigit(a[n] % 16) == Hex(a)[2 * n + 1] == HexDigit(b[n] % 16);
      assert a == a[..n] + [a[n]] && b == b[..n] + [b[n]];
    }
  }

  lemma {:induction false} LastSlashAt(directory: Path, name: Path)
    requires SLASH !in name
    ensures LastSlash(directory + [SLASH] + name) == Some(|directory|)
  {
    var p := directory + [SLASH] + name;
    if name != [] {
      assert p[..|p| - 1] == directory + [SLASH] + name[..|name| - 1];
      LastSlashAt(directory, name[..|name| - 1]);
    }
  }

  lemma SiblingIsAPath(destination: Path, name: Path)
    requires IsRemotePath(destination) && destination != ROOT
    requires name != [] && name != [DOT] && name != [DOT, DOT]
    requires forall i :: 0 <= i < |name| ==> name[i] != SLASH && !IsControl(name[i])
    ensures IsRemotePath(Directory(destination) + [SLASH] + name)
  {
    var cut := LastSlash(destination).value;
    var p := destination[..cut] + [SLASH] + name;
    forall i | 0 <= i < |p| && p[i] == SLASH ensures !DotComponentAt(p, i) {
      if i < cut {
        assert destination[i] == SLASH && !DotComponentAt(destination, i);
      } else {
        assert i == cut;
        assert name == p[cut + 1..];
      }
    }
    forall i | 0 <= i < |p| - 1 && p[i] == SLASH ensures p[i + 1] != SLASH {
      if i < cut {
        assert destination[i] == SLASH && destination[i + 1] != SLASH && destination[cut] == SLASH;
      }
    }
  }

  function Temporary(destination: Path, random: Bytes): Path {
    Directory(destination) + [SLASH, DOT] + Hex(random) + PART
  }

  /** The temporary name is always a path, in the same directory as the destination. */
  lemma TheTemporaryIsBeside(destination: Path, random: Bytes)
    requires IsRemotePath(destination) && destination != ROOT
    ensures IsRemotePath(Temporary(destination, random))
    ensures ParentOf(Temporary(destination, random)) == ParentOf(destination)
  {
    var directory := Directory(destination);
    var name := [DOT] + Hex(random) + PART;
    assert Temporary(destination, random) == directory + [SLASH] + name;
    SiblingIsAPath(destination, name);
    LastSlashAt(directory, name);
    assert Temporary(destination, random)[..|directory|] == directory;
    hide IsRemotePath;
  }

  lemma SameWhenNamedAlike(path: Path, cut: nat, name: Path)
    requires cut < |path| && path[cut] == SLASH
    ensures path[..cut] + [SLASH] + name == path <==> path[cut + 1..] == name
  {
    assert path == path[..cut] + [SLASH] + path[cut + 1..];
    assert (path[..cut] + [SLASH] + name)[cut + 1..] == name;
  }

  /** It is the destination itself only when that is already named like this very draw. */
  lemma TheTemporaryIsTheDestinationExactlyWhen(destination: Path, random: Bytes)
    requires IsRemotePath(destination) && destination != ROOT
    ensures LastSlash(destination).Some?
    ensures Temporary(destination, random) == destination
       <==> destination[LastSlash(destination).value + 1..] == [DOT] + Hex(random) + PART
  {
    hide Hex, LastSlash;
    var name := [DOT] + Hex(random) + PART;
    assert SLASH in destination;
    SameWhenNamedAlike(destination, LastSlash(destination).value, name);
    assert Temporary(destination, random) == Directory(destination) + [SLASH] + name;
  }

  /** Different draws give different names. */
  lemma EveryDrawIsItsOwn(destination: Path, random: Bytes, other: Bytes)
    requires Temporary(destination, random) == Temporary(destination, other)
    ensures random == other
  {
    var start := |Directory(destination)| + 2;
    assert |Hex(random)| == |Hex(other)|;
    assert Temporary(destination, random)[start..start + |Hex(random)|] == Hex(random);
    assert Temporary(destination, other)[start..start + |Hex(other)|] == Hex(other);
    SameHex(random, other);
  }

  // ---------- The upload ----------

  predicate SameAt(before: map<Path, Node>, now: map<Path, Node>, path: Path) {
    (path in now <==> path in before) && (path in before ==> now[path] == before[path])
  }

  /** The whole file, readable and writable by its owner only. */
  predicate Complete(node: Node, total: Bytes, expected: nat) {
    node.File? && node.contents == total && |total| == expected && node.bits % PERMISSION_UNIT == FILE_MODE
  }

  datatype Plan = Plan(temporary: Path, destination: Path, total: Bytes, expected: nat)

  /** The destination is as it was, or the complete file where nothing was before; nothing else but the temporary
      name has changed. */
  predicate Atomic(before: map<Path, Node>, plan: Plan, now: map<Path, Node>) {
    && now - {plan.temporary, plan.destination} == before - {plan.temporary, plan.destination}
    && (|| SameAt(before, now, plan.destination)
        || (plan.destination !in before && plan.destination in now
            && Complete(now[plan.destination], plan.total, plan.expected)))
  }

  ghost predicate AtomicSince(session: SftpSession, before: map<Path, Node>, plan: Plan, trees: seq<Fs>)
    reads session
  {
    && Atomic(before, plan, session.fs.nodes)
    && trees <= session.trees
    && forall i :: |trees| <= i < |session.trees| ==> Atomic(before, plan, session.trees[i].nodes)
  }

  ghost predicate GrantsRemoval(server: Server, path: Path) {
    forall n :: server.refuse(n, Remove(path)).None?
  }

  predicate IsDir(nodes: map<Path, Node>, path: Path) {
    path in nodes && nodes[path].Dir?
  }

  lemma OnlyPathIsAtomic(before: map<Path, Node>, plan: Plan, now: map<Path, Node>)
    requires OnlyPath(before, plan.temporary, now) && plan.temporary != plan.destination
    ensures Atomic(before, plan, now) && SameAt(before, now, plan.destination)
  {
    assert forall p :: p in now - {plan.temporary} <==> p in before - {plan.temporary};
    assert now - {plan.temporary, plan.destination} == now - {plan.temporary} - {plan.destination};
    assert before - {plan.temporary, plan.destination} == before - {plan.temporary} - {plan.destination};
    if plan.destination in now {
      assert plan.destination in now - {plan.temporary} && plan.destination in before - {plan.temporary};
    }
    if plan.destination in before {
      assert plan.destination in before - {plan.temporary} && plan.destination in now - {plan.temporary};
    }
  }

  lemma UploadedIsAtomic(session: SftpSession, before: map<Path, Node>, plan: Plan, trees: seq<Fs>)
    requires OnlyPathSince(session, before, plan.temporary, trees) && plan.temporary != plan.destination
    ensures AtomicSince(session, before, plan, trees)
    ensures SameAt(before, session.fs.nodes, plan.destination)
    ensures IsDir(session.fs.nodes, plan.temporary) ==> IsDir(before, plan.temporary)
    ensures IsDir(before, plan.temporary) ==> session.fs.nodes == before
  {
    OnlyPathIsAtomic(before, plan, session.fs.nodes);
    forall i | |trees| <= i < |session.trees| ensures Atomic(before, plan, session.trees[i].nodes) {
      OnlyPathIsAtomic(before, plan, session.trees[i].nodes);
    }
  }

  lemma RemoveServed(server: Server, n: nat, fs: Fs, path: Path, id: U32)
    ensures var (after, answer) := Serve(server, n, fs, Remove(path));
            && (after.nodes == fs.nodes || after.nodes == fs.nodes - {path}) && after.handles == fs.handles
            && (GrantsRemoval(server, path) && !IsDir(fs.nodes, path) ==> path !in after.nodes)
            && (IsDir(fs.nodes, path) ==> after.nodes == fs.nodes)
  {
  }

  lemma RenameServed(server: Server, n: nat, fs: Fs, from: Path, to: Path, id: U32)
    requires RefusesHonestly(server)
    ensures var (after, answer) := Serve(server, n, fs, Rename(from, to));
            && AsOk(ToReply(id, answer)) != Err(Broken)
            && (AsOk(ToReply(id, answer)).Ok? ==>
                  && from in fs.nodes && to !in fs.nodes
                  && after.nodes == (fs.nodes - {from})[to := fs.nodes[from]] && after.handles == fs.handles)
            && (AsOk(ToReply(id, answer)).Err? ==> after == fs)
  {
  }

  lemma RemovedIsAtomic(before: map<Path, Node>, plan: Plan, now: map<Path, Node>, after: map<Path, Node>)
    requires Atomic(before, plan, now) && SameAt(before, now, plan.destination) && plan.temporary != plan.destination
    requires after == now || after == now - {plan.temporary}
    ensures Atomic(before, plan, after) && SameAt(before, after, plan.destination)
  {
    assert after - {plan.temporary, plan.destination} == now - {plan.temporary, plan.destination};
  }

  lemma RenamedIsAtomic(before: map<Path, Node>, plan: Plan, now: map<Path, Node>)
    requires Atomic(before, plan, now) && SameAt(before, now, plan.destination) && plan.temporary != plan.destination
    requires plan.temporary in now && plan.destination !in now
    requires Complete(now[plan.temporary], plan.total, plan.expected)
    ensures Atomic(before, plan, (now - {plan.temporary})[plan.destination := now[plan.temporary]])
  {
    var after := (now - {plan.temporary})[plan.destination := now[plan.temporary]];
    assert after - {plan.temporary, plan.destination} == now - {plan.temporary, plan.destination};
  }

  /** What is left after anything but success: the destination as it was, and no temporary file if that could be
      removed. A directory of that name is left alone. */
  predicate Undone(before: map<Path, Node>, plan: Plan, now: map<Path, Node>, removable: bool) {
    && now - {plan.temporary} == before - {plan.temporary}
    && (removable && !IsDir(before, plan.temporary) ==> plan.temporary !in now)
    && (IsDir(before, plan.temporary) ==> now == before)
  }

  /** So when removals are granted, everything is as it was exactly when the temporary name was free, or a directory: a
      file of that name is lost. */
  lemma NothingIsLostExactlyWhen(before: map<Path, Node>, plan: Plan, now: map<Path, Node>)
    requires Undone(before, plan, now, true)
    ensures now == before <==> plan.temporary !in before || IsDir(before, plan.temporary)
  {
    if plan.temporary !in before {
      assert now == now - {plan.temporary} && before == before - {plan.temporary};
    }
  }

  lemma TidiedIsUndone(before: map<Path, Node>, plan: Plan, now: map<Path, Node>, removable: bool)
    requires Atomic(before, plan, now) && SameAt(before, now, plan.destination)
    requires removable && !IsDir(before, plan.temporary) ==> plan.temporary !in now
    requires IsDir(before, plan.temporary) ==> now == before
    ensures Undone(before, plan, now, removable)
  {
    forall p | p != plan.temporary ensures SameAt(before, now, p) {
      if p != plan.destination {
        assert p in now <==> p in now - {plan.temporary, plan.destination};
        assert p in before <==> p in before - {plan.temporary, plan.destination};
        if p in before {
          assert now[p] == (now - {plan.temporary, plan.destination})[p];
          assert before[p] == (before - {plan.temporary, plan.destination})[p];
        }
      }
    }
    assert forall p :: p in now - {plan.temporary} || p in before - {plan.temporary} ==> SameAt(before, now, p);
    assert now - {plan.temporary} == before - {plan.temporary};
  }

  predicate OneMoreSaid(before: seq<Reply>, after: seq<Reply>) {
    before <= after && |after| == |before| + 1
  }

  /** Once something has been refused, what is said later does not change what was refused first. */
  lemma StillFirst(start: seq<Reply>, before: seq<Reply>, after: seq<Reply>)
    requires start <= before && OneMoreSaid(before, after)
    ensures start <= after
    ensures FirstRefusal(before[|start|..]).Some? ==> FirstRefusal(after[|start|..]) == FirstRefusal(before[|start|..])
  {
    var reply := after[|before|];
    assert after[|start|..] == before[|start|..] + [reply];
    OneMoreReply(before[|start|..], reply);
  }

  /** After an upload nothing in which was refused, only the rename can be. */
  lemma RenameReported(start: seq<Reply>, before: seq<Reply>, reply: Reply)
    requires start <= before && FirstRefusal(before[|start|..]) == None && AsOk(reply) != Err(Broken)
    ensures start <= before + [reply] && OneMoreSaid(before, before + [reply])
    ensures AsOk(reply).Ok? ==> FirstRefusal((before + [reply])[|start|..]) == None
    ensures AsOk(reply).Err? ==>
      AsOk(reply).error.Refused? && FirstRefusal((before + [reply])[|start|..]) == Some(AsOk(reply).error)
  {
    assert (before + [reply])[|start|..] == before[|start|..] + [reply];
    OneMoreReply(before[|start|..], reply);
  }

  /** What is reported is the first thing that went wrong: the first refusal among the server's replies, unless the
      file had been written and did not check out. */
  predicate Explained(outcome: Result<Result<nat, Wrong>, Failure>, first: Option<Failure>, expected: nat, written: Node) {
    var verdict := Verify(expected, AttrsOf(written));
    match outcome
    case Err(failure) => first == Some(failure)
    case Ok(Ok(size)) => size == expected && first.None? && verdict.Ok?
    case Ok(Err(wrong)) =>
      if wrong.NotInPlace? then first == Some(Refused(wrong.refusal)) && verdict.Ok? else verdict == Err(wrong)
  }

  /** So the upload succeeds exactly when the server refused nothing, the size is the one announced and the mode the
      server put there is the one asked for. */
  lemma SucceedsExactlyWhen(outcome: Result<Result<nat, Wrong>, Failure>, first: Option<Failure>, expected: nat,
                            bits: Bits, total: Bytes)
    requires Explained(outcome, first, expected, File(bits, total)) && Pieces(|total|, false) < ID_LIMIT
    ensures outcome == Ok(Ok(expected))
      <==> first.None? && |total| == expected && bits % PERMISSION_UNIT == FILE_MODE
  {
    FitsInAnOffset(|total|);
    assert (REGULAR * TYPE_UNIT + bits) % PERMISSION_UNIT == bits % PERMISSION_UNIT;
  }

  /** The two requests a file loses its place by: the exclusive open of its name is refused, and the removal that follows
      is granted. */
  lemma AFileOfThatNameIsLost(server: Server, n: nat, fs: Fs, temporary: Path)
    requires temporary in fs.nodes && !fs.nodes[temporary].Dir? && GrantsRemoval(server, temporary)
    ensures var (first, answer) := Serve(server, n, fs, OpenNew(temporary, FILE_MODE));
            var second := Serve(server, n + 1, first, Remove(temporary)).0;
            && !answer.Opened? && first == fs
            && second == fs.(nodes := fs.nodes - {temporary}) && second.nodes != fs.nodes
  {
    var removed := fs.nodes - {temporary};
    assert temporary !in removed;
  }

  /** Removes the temporary file; whether that worked is secondary. */
  method TidyUp(session: SftpSession, temporary: Path, ghost before: map<Path, Node>, ghost plan: Plan, ghost trees: seq<Fs>)
    requires session.Valid() && session.IdsLeft(1) && temporary == plan.temporary
    requires AtomicSince(session, before, plan, trees) && plan.temporary != plan.destination
    requires SameAt(before, session.fs.nodes, plan.destination)
    requires IsDir(session.fs.nodes, plan.temporary) ==> IsDir(before, plan.temporary)
    requires IsDir(before, plan.temporary) ==> session.fs.nodes == before
    modifies session
    ensures session.Valid() && session.nextId == old(session.nextId) + 1 && (old(session.broken) ==> session.broken)
    ensures AtomicSince(session, before, plan, trees)
    ensures !session.broken ==> session.Owed() == old(session.Owed())
    ensures !session.broken ==> OneMoreSaid(old(session.replies), session.replies)
    ensures !session.broken ==>
      Undone(before, plan, session.fs.nodes, GrantsRemoval(session.server, plan.temporary))
  {
    var op := Remove(temporary);
    ghost var fs, n := session.fs, session.handled;
    RemoveServed(session.server, n, fs, plan.temporary, 0);
    ghost var after := Serve(session.server, n, fs, op).0;
    ghost var removable := GrantsRemoval(session.server, plan.temporary);
    RemovedIsAtomic(before, plan, fs.nodes, after.nodes);
    TidiedIsUndone(before, plan, after.nodes, removable);
    hide Serve, Atomic, SameAt, GrantsRemoval, Undone, SftpSession.Valid, SftpSession.Owed;
    var removed := session.Ask(op);
  }

  lemma IfUndone(session: SftpSession, before: map<Path, Node>, plan: Plan)
    ensures var removable := GrantsRemoval(session.server, plan.temporary);
            Undone(before, plan, session.fs.nodes, removable) && removable ==>
              (session.fs.nodes == before <==> plan.temporary !in before || IsDir(before, plan.temporary))
  {
    hide GrantsRemoval;
    if Undone(before, plan, session.fs.nodes, true) {
      NothingIsLostExactlyWhen(before, plan, session.fs.nodes);
    }
  }

  /** What was checked is what there is. */
  lemma AttrsOfComplete(node: Node, plan: Plan)
    requires node.File? && node.contents == plan.total && Verify(plan.expected, AttrsOf(node)).Ok?
    ensures Complete(node, plan.total, plan.expected)
  {
    assert (REGULAR * TYPE_UNIT + node.bits) % PERMISSION_UNIT == node.bits % PERMISSION_UNIT;
  }

  lemma Moved(before: map<Path, Node>, from: Path, to: Path, node: Node)
    requires from !in before && from != to
    ensures (before[from := node] - {from})[to := node] == before[to := node]
  {
  }

  /** Uploads to the temporary name, checks what is there, and renames it into place. At every step the destination is
      as it was or complete; whatever stops it is reported as it happened, and is followed by removing the temporary
      file. */
  method UploadAtomic(session: SftpSession, source: Source, expected: nat, temporary: Path, destination: Path)
    returns (outcome: Result<Result<nat, Wrong>, Failure>)
    requires session.Valid() && RefusesHonestly(session.server) && temporary != destination
    requires session.IdsLeft(Pieces(|source.rest|, false) + 6)
    modifies session, source
    ensures session.Valid()
    ensures var plan := Plan(temporary, destination, old(source.rest), expected);
            && AtomicSince(session, old(session.fs.nodes), plan, old(session.trees))
            && (!session.broken && !(outcome.Ok? && outcome.value.Ok?)
                ==> Undone(old(session.fs.nodes), plan, session.fs.nodes, GrantsRemoval(session.server, temporary)))
    ensures !session.broken && !(outcome.Ok? && outcome.value.Ok?) && GrantsRemoval(session.server, temporary) ==>
      (session.fs.nodes == old(session.fs.nodes) <==>
         temporary !in old(session.fs.nodes) || IsDir(old(session.fs.nodes), temporary))
    ensures outcome == Err(Broken) ==> session.broken
    ensures outcome == Err(Local) ==> source.failed
    ensures !session.broken && outcome != Err(Local) ==>
      && old(session.replies) <= session.replies
      && Explained(outcome, FirstRefusal(session.replies[|old(session.replies)|..]), expected,
                   File(session.server.setBits(temporary, FILE_MODE), old(source.rest)))
    ensures !session.broken ==> session.Owed() == old(session.Owed())
    ensures outcome.Ok? && outcome.value.Ok? ==>
      && !session.broken && outcome.value.value == expected == |old(source.rest)|
      && temporary !in old(session.fs.nodes) && destination !in old(session.fs.nodes)
      && session.fs.nodes == old(session.fs.nodes)
                             [destination := File(session.server.setBits(temporary, FILE_MODE), old(source.rest))]
      && session.server.setBits(temporary, FILE_MODE) % PERMISSION_UNIT == FILE_MODE
  {
    ghost var before, trees, replies := session.fs.nodes, session.trees, session.replies;
    ghost var plan := Plan(temporary, destination, source.rest, expected);
    hide RefusesHonestly, Atomic, Undone, GrantsRemoval, OnlyPath, WindowHeld, Closes, FirstRefusal, RefusalOf,
         SftpSession.Valid, SftpSession.Owed;
    var uploaded := Upload.Upload(session, source, temporary, FILE_MODE);
    UploadedIsAtomic(session, before, plan, trees);
    ghost var said := session.replies;
    if uploaded.Err? {
      if uploaded.error == Broken {
        return Err(Broken);
      }
      TidyUp(session, temporary, before, plan, trees);
      IfUndone(session, before, plan);
      if !session.broken && uploaded.error != Local {
        StillFirst(replies, said, session.replies);
      }
      return Err(uploaded.error);
    }
    var verdict := Verify(expected, uploaded.value);
    if verdict.Err? {
      TidyUp(session, temporary, before, plan, trees);
      IfUndone(session, before, plan);
      if !session.broken {
        StillFirst(replies, said, session.replies);
      }
      return Ok(Err(verdict.error));
    }
    ghost var fs, n := session.fs, session.handled;
    ghost var reply := ToReply(session.nextId, Serve(session.server, n, fs, Rename(temporary, destination)).1);
    RenameServed(session.server, n, fs, temporary, destination, session.nextId);
    RenameReported(replies, said, reply);
    AttrsOfComplete(fs.nodes[temporary], plan);
    if destination !in fs.nodes {
      RenamedIsAtomic(before, plan, fs.nodes);
      Moved(before, temporary, destination, fs.nodes[temporary]);
    }
    hide Serve, SameAt;
    var renamed := session.Ask(Rename(temporary, destination));
    if renamed.Ok? {
      return Ok(Ok(expected));
    }
    if renamed.error == Broken {
      return Err(Broken);
    }
    TidyUp(session, temporary, before, plan, trees);
    IfUndone(session, before, plan);
    if !session.broken {
      StillFirst(replies, said + [reply], session.replies);
    }
    return Ok(Err(NotInPlace(renamed.error.refusal)));
  }
}

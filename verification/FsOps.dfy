/** Making directories through a session (`mkdirs_and_lstats` in `clift-transport/src/session.rs`, and `ensure_in`,
    `ensure_all` and `settle` in `clift-transport/src/fsops.rs`). On any server, however its refusals change from one
    request to the next, each method is proved to do to the tree exactly what `Directories` and `Pipelining` say, and
    never to touch at any step what was there before. */
module FsOps {
  import opened Prelude
  import opened Wire
  import opened Codec
  import opened RemoteFs
  import opened Session
  import opened Directories
  import opened Pipelining
  import opened RollingBack

  // ---------- Nothing that was there is touched ----------

  predicate Adds(before: Nodes, now: Nodes) {
    && (forall q :: q in before ==> q in now && now[q] == before[q])
    && (forall q :: q in now && q !in before ==> now[q].Dir?)
  }

  ghost predicate AddsSince(session: SftpSession, before: Nodes, trees: seq<Fs>)
    reads session`fs, session`trees
  {
    && Adds(before, session.fs.nodes)
    && trees <= session.trees
    && forall i :: |trees| <= i < |session.trees| ==> Adds(before, session.trees[i].nodes)
  }

  // ---------- What the server's answers come to ----------

  function MadeResult(made: Option<Refusal>): Result<(), Failure> {
    match made
    case None => Ok(())
    case Some(refusal) => Err(Refused(refusal))
  }

  function FoundResult(found: Result<Option<Attrs>, Refusal>): Result<Option<Attrs>, Failure> {
    match found
    case Ok(attrs) => Ok(attrs)
    case Err(refusal) => Err(Refused(refusal))
  }

  lemma MkdirServed(server: Server, n: nat, fs: Fs, p: Path, mode: U32, id: U32)
    requires RefusesHonestly(server)
    ensures var (after, answer) := Serve(server, n, fs, Mkdir(p, mode));
            var (nodes, made) := MkdirIn(server, n, fs.nodes, p, mode);
            && after == fs.(nodes := nodes) && AsOk(ToReply(id, answer)) == MadeResult(made)
            && (nodes == fs.nodes || (p !in fs.nodes && nodes == fs.nodes[p := Dir(server.dirBits(p, mode))]))
  {
  }

  lemma LstatServed(server: Server, n: nat, fs: Fs, p: Path, id: U32)
    requires RefusesHonestly(server)
    ensures var (after, answer) := Serve(server, n, fs, Lstat(p));
            && after == fs
            && AbsentAsNone(AsAttrs(ToReply(id, answer))) == FoundResult(LstatIn(server, n, fs.nodes, p))
            && AsAttrs(ToReply(id, answer)) != Err(Broken)
  {
  }

  lemma SetstatServed(server: Server, n: nat, fs: Fs, p: Path, mode: U32, id: U32)
    requires RefusesHonestly(server)
    ensures var (after, answer) := Serve(server, n, fs, Setstat(p, mode));
            var (nodes, done) := SetstatIn(server, n, fs.nodes, p, mode);
            && after == fs.(nodes := nodes) && AsOk(ToReply(id, answer)).Ok? == done
            && (!done ==> AsOk(ToReply(id, answer)).error.Refused?)
            && (|| nodes == fs.nodes
                || (p in fs.nodes && nodes == fs.nodes[p := WithBits(fs.nodes[p], server.setBits(p, mode))]))
  {
  }

  lemma MkdirAdds(server: Server, n: nat, nodes: Nodes, p: Path, mode: U32, before: Nodes)
    requires Adds(before, nodes)
    ensures Adds(before, MkdirIn(server, n, nodes, p, mode).0)
  {
  }

  lemma SetstatAdds(server: Server, n: nat, nodes: Nodes, p: Path, mode: U32, before: Nodes)
    requires Adds(before, nodes) && p !in before
    ensures Adds(before, SetstatIn(server, n, nodes, p, mode).0)
  {
  }

  lemma RmdirAdds(server: Server, n: nat, nodes: Nodes, p: Path, before: Nodes)
    requires Adds(before, nodes) && p !in before
    ensures Adds(before, RmdirIn(server, n, nodes, p))
  {
  }

  lemma RmdirServed(server: Server, n: nat, fs: Fs, p: Path)
    requires RefusesHonestly(server)
    ensures Serve(server, n, fs, Rmdir(p)).0 == fs.(nodes := RmdirIn(server, n, fs.nodes, p))
  {
  }

  // ---------- One request ----------

  method Look(session: SftpSession, path: Path, ghost before: Nodes, ghost trees: seq<Fs>)
    returns (result: Result<Option<Attrs>, Failure>)
    requires session.Valid() && session.IdsLeft(1)
    requires RefusesHonestly(session.server) && AddsSince(session, before, trees)
    modifies session
    ensures session.Valid() && session.nextId == old(session.nextId) + 1 && (old(session.broken) ==> session.broken)
    ensures AddsSince(session, before, trees) && session.fs == old(session.fs)
    ensures result == Err(Broken) ==> session.broken
    ensures !session.broken ==> session.Owed() == old(session.Owed())
    ensures !session.broken ==>
      && session.handled == old(session.handled) + 1
      && result == FoundResult(LstatIn(session.server, old(session.handled), old(session.fs.nodes), path))
  {
    hide Serve, Adds, RefusesHonestly, SftpSession.Valid, SftpSession.Owed;
    ghost var fs, n := session.fs, session.handled;
    var id := session.NewId();
    LstatServed(session.server, n, fs, path, id);
    var sent := session.Send(Request(id, Lstat(path)));
    if sent.Err? {
      return Err(Broken);
    }
    assert session.Owed() - {id} == old(session.Owed());
    var attrs := session.ExpectAttrs(id);
    return AbsentAsNone(attrs);
  }

  method SetMode(session: SftpSession, path: Path, mode: U32, ghost before: Nodes, ghost trees: seq<Fs>)
    returns (result: Result<(), Failure>)
    requires session.Valid() && session.IdsLeft(1)
    requires RefusesHonestly(session.server) && AddsSince(session, before, trees)
    requires path !in before
    modifies session
    ensures session.Valid() && session.nextId == old(session.nextId) + 1 && (old(session.broken) ==> session.broken)
    ensures AddsSince(session, before, trees)
    ensures result == Err(Broken) ==> session.broken
    ensures result.Err? && !session.broken ==> result.error.Refused?
    ensures !session.broken ==> session.Owed() == old(session.Owed())
    ensures !session.broken ==>
      var (nodes, done) := SetstatIn(session.server, old(session.handled), old(session.fs.nodes), path, mode);
      && session.handled == old(session.handled) + 1
      && session.fs == old(session.fs).(nodes := nodes) && result.Ok? == done
  {
    hide Serve, Adds, RefusesHonestly, SetstatIn, SftpSession.Valid, SftpSession.Owed;
    SetstatServed(session.server, session.handled, session.fs, path, mode, session.nextId);
    SetstatAdds(session.server, session.handled, session.fs.nodes, path, mode, before);
    result := session.Ask(Setstat(path, mode));
  }

  method RemoveDirectory(session: SftpSession, path: Path, ghost before: Nodes, ghost trees: seq<Fs>)
    requires session.Valid() && session.IdsLeft(1)
    requires RefusesHonestly(session.server) && AddsSince(session, before, trees)
    requires path !in before
    modifies session
    ensures session.Valid() && session.nextId == old(session.nextId) + 1 && (old(session.broken) ==> session.broken)
    ensures AddsSince(session, before, trees)
    ensures !session.broken ==> session.Owed() == old(session.Owed())
    ensures !session.broken ==>
      && session.handled == old(session.handled) + 1
      && session.fs
         == old(session.fs).(nodes := RmdirIn(session.server, old(session.handled), old(session.fs.nodes), path))
  {
    hide Serve, Adds, RefusesHonestly, RmdirIn, SftpSession.Valid, SftpSession.Owed;
    RmdirServed(session.server, session.handled, session.fs, path);
    RmdirAdds(session.server, session.handled, session.fs.nodes, path, before);
    var removed := session.Ask(Rmdir(path));
  }

  // ---------- Several directories in one exchange ----------

  type Answers = seq<(Option<Refusal>, Option<Attrs>)>

  lemma {:induction false} AskedSnoc(server: Server, n: nat, nodes: Nodes, paths: seq<Path>, p: Path, mode: U32)
    ensures var (tree, asked) := AskAll(server, n, nodes, paths, mode);
            var next := n + 2 * |paths|;
            var (after, made) := MkdirIn(server, next, tree, p, mode);
            AskAll(server, n, nodes, paths + [p], mode)
            == (after, asked + [Asked(made, LstatIn(server, next + 1, after, p))])
    decreases |paths|
  {
    hide MkdirIn, LstatIn;
    var next := n + 2 * |paths|;
    if paths == [] {
      var (after, made) := MkdirIn(server, n, nodes, p, mode);
      assert paths + [p] == [p] && [p][1..] == [] && AskAll(server, n + 2, after, [], mode) == (after, []);
      var last := Asked(made, LstatIn(server, n + 1, after, p));
      assert [last] + [] == [] + [last];
    } else {
      assert (paths + [p])[0] == paths[0] && (paths + [p])[1..] == paths[1..] + [p];
      var (first, made) := MkdirIn(server, n, nodes, paths[0], mode);
      AskedSnoc(server, n + 2, first, paths[1..], p, mode);
      var (tree, rest) := AskAll(server, n + 2, first, paths[1..], mode);
      var (after, again) := MkdirIn(server, next, tree, p, mode);
      var head := Asked(made, LstatIn(server, n + 1, first, paths[0]));
      var last := Asked(again, LstatIn(server, next + 1, after, p));
      assert [head] + (rest + [last]) == ([head] + rest) + [last];
    }
  }

  /** The answers to the directories `from..to` of an exchange whose first id was `first`, and nothing else besides what
      was owed before. */
  ghost predicate PairsOwed(owed: map<U32, Reply>, others: map<U32, Reply>, first: nat, asked: seq<Asked>, from: nat) {
    && first + 2 * |asked| <= ID_LIMIT
    && (forall id :: id in owed <==> id in others || first + 2 * from <= id < first + 2 * |asked|)
    && (forall id :: id in others ==> owed[id] == others[id] && id < first)
    && (forall j :: from <= j < |asked| ==> PairOwed(owed, first + 2 * j, asked[j]))
  }

  predicate PairOwed(owed: map<U32, Reply>, id: nat, asked: Asked) {
    && id + 1 < ID_LIMIT && id in owed && AsOk(owed[id]) == MadeResult(asked.made)
    && id + 1 in owed && AbsentAsNone(AsAttrs(owed[id + 1])) == FoundResult(asked.found)
    && AsAttrs(owed[id + 1]) != Err(Broken)
  }

  lemma PairSent(owed: map<U32, Reply>, others: map<U32, Reply>, first: nat, asked: seq<Asked>, more: Asked,
                 made: Reply, looked: Reply)
    requires PairsOwed(owed, others, first, asked, 0) && first + 2 * |asked| + 2 <= ID_LIMIT
    requires AsOk(made) == MadeResult(more.made)
    requires AbsentAsNone(AsAttrs(looked)) == FoundResult(more.found) && AsAttrs(looked) != Err(Broken)
    ensures var id := first + 2 * |asked|;
            id !in owed && id + 1 !in owed && PairsOwed(owed[id := made][id + 1 := looked], others, first, asked + [more], 0)
  {
    var id := first + 2 * |asked|;
    var owed' := owed[id := made][id + 1 := looked];
    var asked' := asked + [more];
    forall j | 0 <= j < |asked'| ensures PairOwed(owed', first + 2 * j, asked'[j]) {
      if j < |asked| {
        assert PairOwed(owed, first + 2 * j, asked[j]);
      }
    }
  }

  lemma PairRead(owed: map<U32, Reply>, others: map<U32, Reply>, first: nat, asked: seq<Asked>, from: nat)
    requires PairsOwed(owed, others, first, asked, from) && from < |asked|
    ensures PairOwed(owed, first + 2 * from, asked[from])
    ensures PairsOwed(owed - {first + 2 * from} - {first + 2 * from + 1}, others, first, asked, from + 1)
  {
    assert PairOwed(owed, first + 2 * from, asked[from]);
    var owed' := owed - {first + 2 * from} - {first + 2 * from + 1};
    forall j | from + 1 <= j < |asked| ensures PairOwed(owed', first + 2 * j, asked[j]) {
      assert PairOwed(owed, first + 2 * j, asked[j]);
    }
  }

  /** The first directory whose look is refused, if any. */
  function RefusedAt(asked: seq<Asked>): (k: nat)
    ensures k <= |asked| && AllFound(asked[..k])
    ensures k < |asked| ==> asked[k].found.Err?
  {
    if asked == [] || asked[0].found.Err? then 0
    else
      var k := 1 + RefusedAt(asked[1..]);
      assert asked[..k] == [asked[0]] + asked[1..][..k - 1];
      k
  }

  method AskPair(session: SftpSession, path: Path, mode: U32, ghost before: Nodes, ghost trees: seq<Fs>)
    returns (result: Result<(U32, U32), Failure>, ghost made: Reply, ghost looked: Reply)
    requires session.Valid() && session.IdsLeft(2)
    requires RefusesHonestly(session.server) && AddsSince(session, before, trees)
    modifies session
    ensures session.Valid() && (old(session.broken) ==> session.broken) && session.nextId == old(session.nextId) + 2
    ensures AddsSince(session, before, trees)
    ensures result.Err? ==> result == Err(Broken) && session.broken
    ensures result.Ok? ==>
      var n, id := old(session.handled), old(session.nextId);
      var (nodes, refusal) := MkdirIn(session.server, n, old(session.fs.nodes), path, mode);
      && session.handled == n + 2 && session.broken == old(session.broken) && session.fs == old(session.fs).(nodes := nodes)
      && result.value == (id, id + 1)
      && session.Owed() == old(session.Owed())[id := made][id + 1 := looked]
      && AsOk(made) == MadeResult(refusal)
      && AbsentAsNone(AsAttrs(looked)) == FoundResult(LstatIn(session.server, n + 1, nodes, path))
      && AsAttrs(looked) != Err(Broken)
  {
    hide Serve, Adds, RefusesHonestly, MkdirIn, LstatIn, MadeResult, FoundResult, AsOk, AsAttrs, AbsentAsNone,
         SftpSession.Valid, SftpSession.Owed;
    ghost var fs, n := session.fs, session.handled;
    ghost var next := Serve(session.server, n, fs, Mkdir(path, mode)).0;
    MkdirServed(session.server, n, fs, path, mode, session.nextId);
    LstatServed(session.server, n + 1, next, path, session.nextId + 1);
    MkdirAdds(session.server, n, fs.nodes, path, mode, before);
    made := ToReply(session.nextId, Serve(session.server, n, fs, Mkdir(path, mode)).1);
    looked := ToReply(session.nextId + 1, Serve(session.server, n + 1, next, Lstat(path)).1);
    var first := session.NewId();
    var second := session.NewId();
    var sent := session.Send(Request(first, Mkdir(path, mode)));
    if sent.Err? {
      return Err(Broken), made, looked;
    }
    sent := session.Send(Request(second, Lstat(path)));
    if sent.Err? {
      return Err(Broken), made, looked;
    }
    return Ok((first, second)), made, looked;
  }

  lemma NothingAsked(session: SftpSession, n: nat, nodes: Nodes, mode: U32)
    requires session.Valid()
    ensures AskAll(session.server, n, nodes, [], mode) == (nodes, [])
    ensures PairsOwed(session.Owed(), session.Owed(), session.nextId, [], 0)
  {
  }

  /** Sends the pair of requests for every path and leaves all the answers owed. */
  method AskPairs(session: SftpSession, paths: seq<Path>, mode: U32, ghost before: Nodes, ghost trees: seq<Fs>)
    returns (result: Result<seq<(U32, U32)>, Failure>)
    requires session.Valid() && session.IdsLeft(2 * |paths|)
    requires RefusesHonestly(session.server) && AddsSince(session, before, trees)
    modifies session
    ensures session.Valid() && (old(session.broken) ==> session.broken)
    ensures old(session.nextId) <= session.nextId <= old(session.nextId) + 2 * |paths|
    ensures AddsSince(session, before, trees)
    ensures result.Err? ==> result == Err(Broken) && session.broken
    ensures result.Ok? ==>
      var (nodes, asked) := AskAll(session.server, old(session.handled), old(session.fs.nodes), paths, mode);
      && session.handled == old(session.handled) + 2 * |paths|
      && session.broken == old(session.broken) && session.fs == old(session.fs).(nodes := nodes)
      && PairsOwed(session.Owed(), old(session.Owed()), old(session.nextId), asked, 0)
      && |result.value| == |paths|
      && forall j :: 0 <= j < |paths| ==> result.value[j] == (old(session.nextId) + 2 * j, old(session.nextId) + 2 * j + 1)
  {
    hide AddsSince, RefusesHonestly, MkdirIn, LstatIn, AsOk, AsAttrs, AbsentAsNone, PairsOwed, AskAll, MadeResult, FoundResult,
         SftpSession.Valid, SftpSession.Owed;
    var ids: seq<(U32, U32)> := [];
    ghost var first, fs, others, server := session.nextId, session.fs, session.Owed(), session.server;
    ghost var n := session.handled;
    var i := 0;
    assert paths[..0] == [];
    NothingAsked(session, n, fs.nodes, mode);
    while i < |paths|
      invariant 0 <= i <= |paths| && |ids| == i
      invariant session.Valid() && session.nextId == first + 2 * i && session.broken == old(session.broken)
      invariant session.handled == n + 2 * i
      invariant AddsSince(session, before, trees)
      invariant var (nodes, asked) := AskAll(session.server, n, fs.nodes, paths[..i], mode);
                session.fs == fs.(nodes := nodes) && PairsOwed(session.Owed(), others, first, asked, 0)
      invariant forall j :: 0 <= j < i ==> ids[j] == (first + 2 * j, first + 2 * j + 1)
    {
      AskedSnoc(server, n, fs.nodes, paths[..i], paths[i], mode);
      assert paths[..i] + [paths[i]] == paths[..i + 1];
      ghost var (nodes, asked) := AskAll(server, n, fs.nodes, paths[..i], mode);
      ghost var owed := session.Owed();
      var pair;
      ghost var made, looked;
      pair, made, looked := AskPair(session, paths[i], mode, before, trees);
      if pair.Err? {
        return Err(Broken);
      }
      ghost var (after, refusal) := MkdirIn(server, n + 2 * i, nodes, paths[i], mode);
      PairSent(owed, others, first, asked, Asked(refusal, LstatIn(server, n + 2 * i + 1, after, paths[i])), made, looked);
      ids := ids + [pair.value];
      i := i + 1;
    }
    assert paths[..i] == paths;
    return Ok(ids);
  }

  lemma AllRead(owed: map<U32, Reply>, others: map<U32, Reply>, first: nat, asked: seq<Asked>)
    requires PairsOwed(owed, others, first, asked, |asked|)
    ensures owed == others
  {
  }

  predicate Answered(answers: Answers, asked: seq<Asked>) {
    |answers| <= |asked|
    && forall j :: 0 <= j < |answers| ==>
      asked[j].found.Ok? && answers[j] == (asked[j].made, asked[j].found.value)
  }

  function PairResult(made: Option<Refusal>, found: Result<Option<Attrs>, Refusal>)
    : Result<(Option<Refusal>, Option<Attrs>), Failure>
  {
    match found
    case Ok(attrs) => Ok((made, attrs))
    case Err(refusal) => Err(Refused(refusal))
  }

  /** The two answers about one directory. */
  method ReadPair(session: SftpSession, made: U32, looked: U32, ghost asked: Asked)
    returns (result: Result<(Option<Refusal>, Option<Attrs>), Failure>)
    requires session.Valid() && PairOwed(session.Owed(), made, asked) && looked == made + 1
    modifies session`broken, session`inTransit, session`early, session`log
    ensures session.Valid() && (old(session.broken) ==> session.broken)
    ensures result == Err(Broken) ==> session.broken
    ensures result != Err(Broken) ==>
      && session.broken == old(session.broken)
      && session.Owed() == old(session.Owed()) - {made} - {looked}
      && result == PairResult(asked.made, asked.found)
  {
    hide SftpSession.Valid, SftpSession.Owed;
    var answer := session.ExpectOk(made);
    var created: Option<Refusal> := None;
    if answer.Err? {
      if answer.error == Broken {
        return Err(Broken);
      }
      created := Some(answer.error.refusal);
    }
    var attrs := session.ExpectAttrs(looked);
    var found := AbsentAsNone(attrs);
    if found.Err? {
      return Err(found.error);
    }
    return Ok((created, found.value));
  }

  /** Reads the answers in the order of the paths. A look that is refused ends the reading at once, and leaves the
      answers to the later pairs unread. */
  method ReadPairs(session: SftpSession, ids: seq<(U32, U32)>,
                   ghost asked: seq<Asked>, ghost others: map<U32, Reply>, ghost first: nat)
    returns (result: Result<Answers, Failure>)
    requires session.Valid() && PairsOwed(session.Owed(), others, first, asked, 0) && |ids| == |asked|
    requires forall j :: 0 <= j < |ids| ==> ids[j] == (first + 2 * j, first + 2 * j + 1)
    modifies session`broken, session`inTransit, session`early, session`log
    ensures session.Valid() && (old(session.broken) ==> session.broken)
    ensures result == Err(Broken) ==> session.broken
    ensures result.Ok? ==>
      && session.broken == old(session.broken) && session.Owed() == others && AllFound(asked)
      && |result.value| == |asked| && Answered(result.value, asked)
    ensures result.Err? && result != Err(Broken) ==>
      var k := RefusedAt(asked);
      && session.broken == old(session.broken) && k < |asked| && result == Err(Refused(asked[k].found.error))
      && PairsOwed(session.Owed(), others, first, asked, k + 1)
  {
    hide PairsOwed, PairOwed, SftpSession.Valid, SftpSession.Owed;
    var answers: Answers := [];
    var i := 0;
    while i < |ids|
      invariant 0 <= i <= |ids| && |answers| == i
      invariant session.Valid() && session.broken == old(session.broken)
      invariant PairsOwed(session.Owed(), others, first, asked, i) && Answered(answers, asked)
    {
      PairRead(session.Owed(), others, first, asked, i);
      var (made, looked) := ids[i];
      var answer := ReadPair(session, made, looked, asked[i]);
      if answer == Err(Broken) {
        return Err(Broken);
      }
      if answer.Err? {
        RefusedHere(asked, i);
        return Err(answer.error);
      }
      answers := answers + [answer.value];
      i := i + 1;
    }
    AllRead(session.Owed(), others, first, asked);
    return Ok(answers);
  }

  lemma {:induction false} RefusedHere(asked: seq<Asked>, i: nat)
    requires i < |asked| && asked[i].found.Err? && forall j :: 0 <= j < i ==> asked[j].found.Ok?
    ensures RefusedAt(asked) == i
  {
    if i > 0 {
      RefusedHere(asked[1..], i - 1);
    }
  }

  /** `mkdirs_and_lstats` */
  method MkdirsAndLstats(session: SftpSession, paths: seq<Path>, mode: U32, ghost before: Nodes, ghost trees: seq<Fs>)
    returns (result: Result<Answers, Failure>)
    requires session.Valid() && session.IdsLeft(2 * |paths|)
    requires RefusesHonestly(session.server) && AddsSince(session, before, trees)
    modifies session
    ensures session.Valid() && (old(session.broken) ==> session.broken)
    ensures old(session.nextId) <= session.nextId <= old(session.nextId) + 2 * |paths|
    ensures AddsSince(session, before, trees)
    ensures result == Err(Broken) ==> session.broken
    ensures result != Err(Broken) ==>
      var (nodes, asked) := AskAll(session.server, old(session.handled), old(session.fs.nodes), paths, mode);
      var k := RefusedAt(asked);
      && session.handled == old(session.handled) + 2 * |paths|
      && session.broken == old(session.broken) && session.fs == old(session.fs).(nodes := nodes)
      && (result.Ok? ==> session.Owed() == old(session.Owed()) && AllFound(asked)
                         && |result.value| == |asked| && Answered(result.value, asked))
      && (result.Err? ==> k < |asked| && result == Err(Refused(asked[k].found.error))
                          && PairsOwed(session.Owed(), old(session.Owed()), old(session.nextId), asked, k + 1))
  {
    hide AddsSince, RefusesHonestly, PairsOwed, AskAll, Answered, AllFound, SftpSession.Valid, SftpSession.Owed;
    ghost var nodes, others, first, n := session.fs.nodes, session.Owed(), session.nextId, session.handled;
    var ids := AskPairs(session, paths, mode, before, trees);
    if ids.Err? {
      return Err(Broken);
    }
    ghost var asked := AskAll(session.server, n, nodes, paths, mode).1;
    result := ReadPairs(session, ids.value, asked, others, first);
  }

  // ---------- One directory ----------

  lemma AskedOne(server: Server, n: nat, nodes: Nodes, path: Path, mode: U32)
    ensures var (after, made) := MkdirIn(server, n, nodes, path, mode);
            AskAll(server, n, nodes, [path], mode) == (after, [Asked(made, LstatIn(server, n + 1, after, path))])
  {
    assert [path][1..] == [] && [path][0] == path;
    var (after, made) := MkdirIn(server, n, nodes, path, mode);
    assert AskAll(server, n + 2, after, [], mode) == (after, []);
    var asked := Asked(made, LstatIn(server, n + 1, after, path));
    assert [asked] + [] == [asked];
  }

  lemma MadeHereIsNew(server: Server, n: nat, nodes: Nodes, path: Path, mode: U32, before: Nodes)
    requires Adds(before, nodes)
    ensures MkdirIn(server, n, nodes, path, mode).1.None? ==> path !in before
  {
  }

  method MkdirAndLstat(session: SftpSession, path: Path, mode: U32, ghost before: Nodes, ghost trees: seq<Fs>)
    returns (result: Result<(Option<Refusal>, Option<Attrs>), Failure>)
    requires session.Valid() && session.IdsLeft(2)
    requires RefusesHonestly(session.server) && AddsSince(session, before, trees)
    modifies session
    ensures session.Valid() && (old(session.broken) ==> session.broken)
    ensures old(session.nextId) <= session.nextId <= old(session.nextId) + 2
    ensures AddsSince(session, before, trees)
    ensures result == Err(Broken) ==> session.broken
    ensures result != Err(Broken) ==>
      var n := old(session.handled);
      var (nodes, made) := MkdirIn(session.server, n, old(session.fs.nodes), path, mode);
      && session.handled == n + 2 && session.broken == old(session.broken) && session.fs == old(session.fs).(nodes := nodes)
      && session.Owed() == old(session.Owed())
      && result == PairResult(made, LstatIn(session.server, n + 1, nodes, path))
      && (made.None? ==> path !in before)
  {
    hide RefusesHonestly, MkdirIn, LstatIn, PairsOwed, AskAll, SftpSession.Valid, SftpSession.Owed;
    ghost var nodes, others, first, n := session.fs.nodes, session.Owed(), session.nextId, session.handled;
    AskedOne(session.server, n, nodes, path, mode);
    MadeHereIsNew(session.server, n, nodes, path, mode, before);
    hide AddsSince;
    var answers := MkdirsAndLstats(session, [path], mode, before, trees);
    if answers.Ok? {
      return Ok(answers.value[0]);
    }
    if answers != Err(Broken) {
      AllRead(session.Owed(), others, first, AskAll(session.server, n, nodes, [path], mode).1);
    }
    return Err(answers.error);
  }

  /** What the method did, when the connection has not failed. */
  ghost predicate Does(session: SftpSession, before: Fs, verdict: Result<bool, Failure>, run: Run)
    reads session
  {
    && session.fs == before.(nodes := run.nodes) && session.handled == run.next && OutcomeOf(verdict) == run.outcome
  }

  function OutcomeOf(verdict: Result<bool, Failure>): Outcome {
    match verdict
    case Ok(fine) => if fine then Settled else Wrong
    case Err(_) => Stopped
  }

  /** `settle`: what a `mkdir` and the look after it mean. */
  method Settle(session: SftpSession, path: Path, mode: U32, made: Option<Refusal>, found: Option<Attrs>,
                ghost before: Nodes, ghost trees: seq<Fs>)
    returns (verdict: Result<bool, Failure>)
    requires session.Valid() && session.IdsLeft(2)
    requires RefusesHonestly(session.server) && AddsSince(session, before, trees)
    requires made.None? ==> path !in before
    modifies session
    ensures session.Valid() && (old(session.broken) ==> session.broken)
    ensures old(session.nextId) <= session.nextId <= old(session.nextId) + 2
    ensures AddsSince(session, before, trees)
    ensures verdict == Err(Broken) ==> session.broken
    ensures !session.broken ==> session.Owed() == old(session.Owed())
    ensures !session.broken ==>
      Does(session, old(session.fs), verdict,
           SettleIn(session.server, old(session.handled), old(session.fs.nodes), path, mode, made, found))
  {
    hide RefusesHonestly, SetstatIn, LstatIn, Directories.KindOf, Permissions, AddsSince, SftpSession.Valid, SftpSession.Owed;
    match (made, found)
    case (Some(refusal), _) =>
      if refusal.code == PERMISSION_DENIED {
        return Ok(false);
      }
      if found.None? {
        return Ok(false);
      }
      if CheckExisting(mode, found.value) {
        return Ok(true);
      }
      var again := Look(session, path, before, trees);
      if again.Err? {
        return Err(again.error);
      }
      return Ok(again.value.Some? && CheckExisting(mode, again.value.value));
    case (None, None) =>
      return Ok(false);
    case (None, Some(attrs)) =>
      if Directories.KindOf(attrs) != Directory {
        return Ok(CheckExisting(mode, attrs));
      }
      if Permissions(attrs) == Some(mode) {
        return Ok(true);
      }
      var done := SetMode(session, path, mode, before, trees);
      if done.Err? {
        if done.error == Broken {
          return Err(Broken);
        }
        return Ok(false);
      }
      var after := Look(session, path, before, trees);
      if after.Err? {
        return Err(after.error);
      }
      return Ok(after.value.Some? && CheckExisting(mode, after.value.value));
  }

  /** `ensure_in` */
  method EnsureIn(session: SftpSession, path: Path, mode: U32, ghost before: Nodes, ghost trees: seq<Fs>)
    returns (verdict: Result<bool, Failure>)
    requires session.Valid()
    requires RefusesHonestly(session.server) && AddsSince(session, before, trees)
    requires session.IdsLeft(6 * |path| + 6)
    modifies session
    ensures session.Valid() && (old(session.broken) ==> session.broken)
    ensures old(session.nextId) <= session.nextId <= old(session.nextId) + 6 * |path| + 6
    ensures AddsSince(session, before, trees)
    ensures verdict == Err(Broken) ==> session.broken
    ensures !session.broken ==> session.Owed() == old(session.Owed())
    ensures !session.broken ==>
      Does(session, old(session.fs), verdict,
           Directories.EnsureIn(session.server, old(session.handled), old(session.fs.nodes), path, mode))
    ensures !session.broken ==> Grown(old(session.fs.nodes), session.fs.nodes, path)
    ensures !session.broken && verdict == Ok(true) ==>
      Exact(session.fs.nodes, path, mode) && AllExact(old(session.fs.nodes), session.fs.nodes, mode)
    decreases |path|
  {
    hide RefusesHonestly, MkdirIn, LstatIn, SettleIn, AddsSince, ParentOf, Grown, Exact, AllExact,
         SftpSession.Valid, SftpSession.Owed;
    EnsureDirKeepsItsPromise(session.server, session.handled, session.fs.nodes, path, mode);
    var answer := MkdirAndLstat(session, path, mode, before, trees);
    if answer.Err? {
      return Err(answer.error);
    }
    var (made, found) := answer.value;
    if !Missing(made) {
      verdict := Settle(session, path, mode, made, found, before, trees);
      return;
    }
    var parent := ParentOf(path);
    if parent.None? {
      return Ok(false);
    }
    verdict := EnsureIn(session, parent.value, mode, before, trees);
    if verdict != Ok(true) {
      return;
    }
    answer := MkdirAndLstat(session, path, mode, before, trees);
    if answer.Err? {
      return Err(answer.error);
    }
    var (again, foundAgain) := answer.value;
    if Missing(again) {
      return Ok(false);
    }
    verdict := Settle(session, path, mode, again, foundAgain, before, trees);
  }

  // ---------- Several directories ----------

  function IdsFor(paths: seq<Path>): nat {
    if paths == [] then 0 else 6 * |paths[0]| + 6 + IdsFor(paths[1..])
  }

  /** Removes again, last first, what the first exchange made after the directory that is wrong. */
  method RollBackFrom(session: SftpSession, paths: seq<Path>, created: seq<bool>, from: nat,
                      ghost asked: seq<Asked>, ghost before: Nodes, ghost trees: seq<Fs>)
    requires session.Valid() && session.IdsLeft(|paths|)
    requires RefusesHonestly(session.server) && AddsSince(session, before, trees)
    requires |created| == |paths| == |asked| && from <= |paths|
    requires forall j :: 0 <= j < |paths| ==> created[j] == asked[j].made.None?
    requires forall j :: 0 <= j < |paths| && created[j] ==> paths[j] !in before
    modifies session
    ensures session.Valid() && (old(session.broken) ==> session.broken) && AddsSince(session, before, trees)
    ensures !session.broken ==> session.Owed() == old(session.Owed())
    ensures !session.broken ==>
      var (nodes, next) :=
        RollBack(session.server, old(session.handled), old(session.fs.nodes), paths[from..], asked[from..]);
      session.fs == old(session.fs).(nodes := nodes) && session.handled == next
  {
    hide RefusesHonestly, AddsSince, RmdirIn, SftpSession.Valid, SftpSession.Owed;
    ghost var fs, first, n := session.fs, session.nextId, session.handled;
    var j := |paths|;
    while j > from
      invariant from <= j <= |paths|
      invariant session.Valid() && session.nextId <= first + (|paths| - j) && AddsSince(session, before, trees)
      invariant old(session.broken) ==> session.broken
      invariant !session.broken ==>
        && session.Owed() == old(session.Owed())
        && session.fs == fs.(nodes := session.fs.nodes)
        && (session.fs.nodes, session.handled) == RollBack(session.server, n, fs.nodes, paths[j..], asked[j..])
    {
      j := j - 1;
      assert paths[j..][1..] == paths[j + 1..] && asked[j..][1..] == asked[j + 1..];
      if created[j] {
        RemoveDirectory(session, paths[j], before, trees);
      }
    }
  }

  lemma NothingAddedYet(session: SftpSession)
    ensures AddsSince(session, session.fs.nodes, session.trees)
  {
  }

  lemma LeftoverIsStopped(server: Server, n: nat, nodes: Nodes, paths: seq<Path>, mode: U32)
    requires var asked := AskAll(server, n, nodes, paths, mode).1; RefusedAt(asked) < |asked|
    ensures Pipelining.EnsureAll(server, n, nodes, paths, mode)
         == Run(AskAll(server, n, nodes, paths, mode).0, Stopped, n + 2 * |paths|)
  {
    hide AskAll, SettleAll;
  }

  lemma FoundIsSettled(server: Server, n: nat, nodes: Nodes, paths: seq<Path>, mode: U32)
    requires AllFound(AskAll(server, n, nodes, paths, mode).1)
    ensures var (base, asked) := AskAll(server, n, nodes, paths, mode);
            Pipelining.EnsureAll(server, n, nodes, paths, mode)
            == SettleAll(server, n + 2 * |paths|, base, paths, asked, mode)
  {
    hide AskAll, SettleAll;
  }

  lemma WhatIsPromised(server: Server, n: nat, nodes: Nodes, paths: seq<Path>, mode: U32)
    ensures var (base, asked) := AskAll(server, n, nodes, paths, mode);
            forall j :: 0 <= j < |paths| && asked[j].made.None? ==> paths[j] !in nodes
    ensures var run := Pipelining.EnsureAll(server, n, nodes, paths, mode);
            && AllGrown(nodes, run.nodes, paths)
            && (run.outcome == Settled ==>
                  AllExact(nodes, run.nodes, mode) && forall i :: 0 <= i < |paths| ==> Exact(run.nodes, paths[i], mode))
  {
    hide AskAll, AllGrown, AllExact, Exact, Pipelining.EnsureAll;
    var (base, asked) := AskAll(server, n, nodes, paths, mode);
    WhatIsAsked(server, n, nodes, paths, mode);
    forall j | 0 <= j < |paths| && asked[j].made.None? ensures paths[j] !in nodes {
      assert Tells(nodes, base, paths[j], asked[j]);
    }
    EnsureAllOnlyAdds(server, n, nodes, paths, mode);
    if Pipelining.EnsureAll(server, n, nodes, paths, mode).outcome == Settled {
      EnsureDirsKeepsItsPromise(server, n, nodes, paths, mode);
    }
  }

  /** `ensure_all`. Unless the connection fails, the tree and the verdict are exactly those of `Pipelining.EnsureAll`;
      every answer has been read except, after a refused look, those to the later pairs; and at every step everything
      that was there before is untouched. On success every path is a directory with exactly the mode, and so is everything
      new. All this on any server, for any list. */
  method EnsureAll(session: SftpSession, paths: seq<Path>, mode: U32) returns (verdict: Result<bool, Failure>)
    requires session.Valid() && RefusesHonestly(session.server)
    requires session.IdsLeft(3 * |paths| + IdsFor(paths))
    modifies session
    ensures session.Valid() && AddsSince(session, old(session.fs.nodes), old(session.trees))
    ensures verdict == Err(Broken) ==> session.broken
    ensures !session.broken ==>
      Does(session, old(session.fs), verdict,
           Pipelining.EnsureAll(session.server, old(session.handled), old(session.fs.nodes), paths, mode))
    ensures !session.broken ==> AllGrown(old(session.fs.nodes), session.fs.nodes, paths)
    ensures !session.broken && verdict == Ok(true) ==>
      && AllExact(old(session.fs.nodes), session.fs.nodes, mode)
      && forall i :: 0 <= i < |paths| ==> Exact(session.fs.nodes, paths[i], mode)
    ensures !session.broken && verdict.Ok? ==> session.Owed() == old(session.Owed())
    ensures !session.broken ==>
      var asked := AskAll(session.server, old(session.handled), old(session.fs.nodes), paths, mode).1;
      || session.Owed() == old(session.Owed())
      || PairsOwed(session.Owed(), old(session.Owed()), old(session.nextId), asked, RefusedAt(asked) + 1)
  {
    hide RefusesHonestly, AddsSince, PairsOwed, AskAll, SettleAll, AllGrown, AllExact, Exact, Pipelining.EnsureAll,
         SftpSession.Valid, SftpSession.Owed;
    ghost var before, trees, first, n := session.fs.nodes, session.trees, session.nextId, session.handled;
    ghost var (start, asked) := AskAll(session.server, n, before, paths, mode);
    NothingAddedYet(session);
    WhatIsPromised(session.server, n, before, paths, mode);
    var answers := MkdirsAndLstats(session, paths, mode, before, trees);
    if answers.Err? {
      if answers != Err(Broken) {
        LeftoverIsStopped(session.server, n, before, paths, mode);
      }
      return Err(answers.error);
    }
    FoundIsSettled(session.server, n, before, paths, mode);
    var created := seq(|paths|, j requires 0 <= j < |paths| => answers.value[j].0.None?);
    verdict := SettleInOrder(session, paths, mode, answers.value, created, asked, before, trees);
  }

  method SettleInOrder(session: SftpSession, paths: seq<Path>, mode: U32, answers: Answers, created: seq<bool>,
                       ghost asked: seq<Asked>, ghost before: Nodes, ghost trees: seq<Fs>)
    returns (verdict: Result<bool, Failure>)
    requires session.Valid()
    requires RefusesHonestly(session.server) && AddsSince(session, before, trees)
    requires session.IdsLeft(|paths| + IdsFor(paths))
    requires |answers| == |created| == |asked| == |paths| && AllFound(asked) && Answered(answers, asked)
    requires forall j :: 0 <= j < |paths| ==> created[j] == asked[j].made.None?
    requires forall j :: 0 <= j < |paths| && created[j] ==> paths[j] !in before
    modifies session
    ensures session.Valid() && AddsSince(session, before, trees) && (old(session.broken) ==> session.broken)
    ensures verdict == Err(Broken) ==> session.broken
    ensures !session.broken ==>
      Does(session, old(session.fs), verdict,
           SettleAll(session.server, old(session.handled), old(session.fs.nodes), paths, asked, mode))
    ensures !session.broken ==> session.Owed() == old(session.Owed())
  {
    hide RefusesHonestly, AddsSince, SettleIn, Directories.EnsureIn, SftpSession.Valid, SftpSession.Owed;
    ghost var fs, first, server, n := session.fs, session.nextId, session.server, session.handled;
    var i := 0;
    assert paths[0..] == paths && asked[0..] == asked;
    while i < |paths|
      invariant 0 <= i <= |paths|
      invariant session.Valid() && AddsSince(session, before, trees)
      invariant session.nextId + IdsFor(paths[i..]) <= first + IdsFor(paths)
      invariant old(session.broken) ==> session.broken
      invariant AllFound(asked[i..])
      invariant !session.broken ==>
        && session.Owed() == old(session.Owed()) && session.fs == fs.(nodes := session.fs.nodes)
        && SettleAll(server, session.handled, session.fs.nodes, paths[i..], asked[i..], mode)
           == SettleAll(server, n, fs.nodes, paths, asked, mode)
    {
      assert paths[i..][1..] == paths[i + 1..] && asked[i..][1..] == asked[i + 1..];
      var (made, found) := answers[i];
      if Missing(made) {
        verdict := EnsureIn(session, paths[i], mode, before, trees);
      } else {
        verdict := Settle(session, paths[i], mode, made, found, before, trees);
      }
      if verdict.Err? {
        return;
      }
      i := i + 1;
      if verdict == Ok(false) {
        RollBackFrom(session, paths, created, i, asked, before, trees);
        return;
      }
    }
    return Ok(true);
  }

  // ---------- Removing ----------

  lemma RemovalServed(server: Server, n: nat, fs: Fs, p: Path, op: Op, id: U32)
    requires RefusesHonestly(server) && (op == Rmdir(p) || op == Remove(p)) && p in fs.nodes
    requires op.Rmdir? <==> fs.nodes[p].Dir?
    ensures var (after, answer) := Serve(server, n, fs, op);
            && AsOk(ToReply(id, answer)) != Err(Broken)
            && (AsOk(ToReply(id, answer)).Ok? ==> after == fs.(nodes := fs.nodes - {p}))
            && (AsOk(ToReply(id, answer)).Err? ==>
                  && after == fs
                  && (AsOk(ToReply(id, answer)).error.refusal.code == NO_SUCH_FILE ==> Pretext(server, n, op)))
  {
  }

  /** The server has said "no such file" without looking, to the look or to the removal. */
  predicate Denied(server: Server, n: nat, p: Path) {
    Pretext(server, n, Lstat(p)) || Pretext(server, n + 1, Rmdir(p)) || Pretext(server, n + 1, Remove(p))
  }

  /** `remove`: nothing to remove is no failure, a link is unlinked and never followed, and success means that
      the path is gone and nothing else is, unless the server denies having what it has. */
  method RemoveEntry(session: SftpSession, path: Path) returns (result: Result<(), Failure>)
    requires session.Valid() && RefusesHonestly(session.server) && session.IdsLeft(2)
    modifies session
    ensures session.Valid() && (result == Err(Broken) ==> session.broken)
    ensures !session.broken ==> session.Owed() == old(session.Owed())
    ensures !session.broken && result.Ok? ==>
      || session.fs == old(session.fs).(nodes := old(session.fs.nodes) - {path})
      || (session.fs == old(session.fs) && Denied(session.server, old(session.handled), path))
    ensures !session.broken && result.Err? ==> session.fs == old(session.fs)
    ensures !session.broken && path !in old(session.fs.nodes) ==>
      session.server.refuse(old(session.handled), Lstat(path)).None? ==> result.Ok?
  {
    hide RefusesHonestly, Serve, AddsSince, AttrsOf, SftpSession.Valid, SftpSession.Owed;
    ghost var fs := session.fs;
    NothingAddedYet(session);
    var attrs := Look(session, path, session.fs.nodes, session.trees);
    if attrs.Err? {
      return Err(attrs.error);
    }
    if attrs.value.None? {
      assert session.broken || path in fs.nodes || fs.nodes - {path} == fs.nodes;
      return Ok(());
    }
    if !session.broken {
      AttrsReadBack(fs.nodes[path]);
    }
    var op := if Directories.KindOf(attrs.value.value) == Directory then Rmdir(path) else Remove(path);
    if !session.broken {
      RemovalServed(session.server, session.handled, fs, path, op, session.nextId);
    }
    result := session.Ask(op);
    if result.Err? && result.error.Refused? && result.error.refusal.code == NO_SUCH_FILE {
      return Ok(());
    }
  }
}

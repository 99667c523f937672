/** What making directories means (`clift-transport/src/fsops.rs`): the decisions the client takes, on a tree nobody else
    touches, with `n` the number of the first request the server is sent. Any server will do; what can be decided in
    advance is proved for one that answers every request the same way each time. The session methods that follow these
    definitions are in `FsOps`, and several directories at once in `Pipelining` and `RollingBack`. */
module Directories {
  import opened Prelude
  import opened Wire
  import opened Codec
  import opened RemoteFs

  type Nodes = map<Path, Node>

  // ---------- Reading attributes ----------

  datatype Kind = Directory | Regular | Symlink | Other

  function KindOf(attrs: Attrs): Kind {
    match attrs.permissions
    case None => Other
    case Some(bits) =>
      var kind := bits / TYPE_UNIT % 16;
      if kind == DIRECTORY then Directory
      else if kind == REGULAR then Regular
      else if kind == SYMLINK then Symlink
      else Other
  }

  /** The nine permission bits; setuid, setgid and sticky are ignored. */
  function Permissions(attrs: Attrs): Option<nat> {
    match attrs.permissions
    case None => None
    case Some(bits) => Some(bits % PERMISSION_UNIT)
  }

  predicate CheckExisting(mode: U32, attrs: Attrs) {
    KindOf(attrs) == Directory && Permissions(attrs) == Some(mode)
  }

  /** A node's attributes read back as what it is. */
  lemma AttrsReadBack(node: Node)
    ensures KindOf(AttrsOf(node)) == match node case Dir(_) => Directory case File(_, _) => Regular case Link(_) => Symlink
    ensures Permissions(AttrsOf(node)) == Some(node.bits % PERMISSION_UNIT)
  {
    var bits := node.bits;
    assert (DIRECTORY * TYPE_UNIT + bits) % PERMISSION_UNIT == bits % PERMISSION_UNIT;
    assert (REGULAR * TYPE_UNIT + bits) % PERMISSION_UNIT == bits % PERMISSION_UNIT;
    assert (SYMLINK * TYPE_UNIT + bits) % PERMISSION_UNIT == bits % PERMISSION_UNIT;
  }

  // ---------- What the server does ----------

  predicate Missing(made: Option<Refusal>) {
    made.Some? && made.value.code == NO_SUCH_FILE
  }

  function MkdirIn(server: Server, n: nat, nodes: Nodes, p: Path, mode: U32): (Nodes, Option<Refusal>) {
    match server.refuse(n, Mkdir(p, mode))
    case Some(refusal) => (nodes, Some(refusal))
    case None =>
      if p in nodes then (nodes, Some(Refusal(FAILURE, [])))
      else if !ParentIsDir(nodes, p) then (nodes, Some(Refusal(NO_SUCH_FILE, [])))
      else (nodes[p := Dir(server.dirBits(p, mode))], None)
  }

  /** A server that answers "no such file" is believed, whatever its reason. */
  function LstatIn(server: Server, n: nat, nodes: Nodes, p: Path): Result<Option<Attrs>, Refusal> {
    match server.refuse(n, Lstat(p))
    case Some(refusal) => if refusal.code == NO_SUCH_FILE then Ok(None) else Err(refusal)
    case None => Ok(if p in nodes then Some(AttrsOf(nodes[p])) else None)
  }

  function SetstatIn(server: Server, n: nat, nodes: Nodes, p: Path, mode: U32): (Nodes, bool) {
    if server.refuse(n, Setstat(p, mode)).Some? || p !in nodes then (nodes, false)
    else (nodes[p := WithBits(nodes[p], server.setBits(p, mode))], true)
  }

  function RmdirIn(server: Server, n: nat, nodes: Nodes, p: Path): Nodes {
    if server.refuse(n, Rmdir(p)).Some? || p !in nodes || !nodes[p].Dir? || HasChild(nodes, p) then nodes else nodes - {p}
  }

  // ---------- One directory ----------

  /** A verdict on the directory, or a refusal of the session that stops everything. */
  datatype Outcome = Settled | Wrong | Stopped

  /** The tree afterwards, the outcome, and the number of the next request. */
  datatype Run = Run(nodes: Nodes, outcome: Outcome, next: nat)

  function LookAgain(server: Server, n: nat, nodes: Nodes, p: Path, mode: U32): Outcome {
    match LstatIn(server, n, nodes, p)
    case Err(_) => Stopped
    case Ok(None) => Wrong
    case Ok(Some(attrs)) => if CheckExisting(mode, attrs) then Settled else Wrong
  }

  function SettleIn(server: Server, n: nat, nodes: Nodes, p: Path, mode: U32, made: Option<Refusal>, found: Option<Attrs>)
    : (run: Run)
    ensures n <= run.next
  {
    match (made, found)
    case (None, None) => Run(nodes, Wrong, n)
    case (None, Some(attrs)) =>
      if KindOf(attrs) != Directory then Run(nodes, Wrong, n)
      else if Permissions(attrs) == Some(mode) then Run(nodes, Settled, n)
      else
        var (after, done) := SetstatIn(server, n, nodes, p, mode);
        if done then Run(after, LookAgain(server, n + 1, after, p, mode), n + 2) else Run(after, Wrong, n + 1)
    case (Some(refusal), None) => Run(nodes, Wrong, n)
    case (Some(refusal), Some(attrs)) =>
      if refusal.code == PERMISSION_DENIED then Run(nodes, Wrong, n)
      else if CheckExisting(mode, attrs) then Run(nodes, Settled, n)
      else Run(nodes, LookAgain(server, n, nodes, p, mode), n + 1)
  }

  function OnceMore(server: Server, n: nat, nodes: Nodes, p: Path, mode: U32): (run: Run)
    ensures n <= run.next
  {
    var (after, made) := MkdirIn(server, n, nodes, p, mode);
    match LstatIn(server, n + 1, after, p)
    case Err(_) => Run(after, Stopped, n + 2)
    case Ok(found) =>
      if Missing(made) then Run(after, Wrong, n + 2) else SettleIn(server, n + 2, after, p, mode, made, found)
  }

  /** `ensure_in`: make the directory; if its parent is missing make that first, and then try once more. */
  function EnsureIn(server: Server, n: nat, nodes: Nodes, p: Path, mode: U32): (run: Run)
    ensures n <= run.next
    decreases |p|
  {
    var (first, made) := MkdirIn(server, n, nodes, p, mode);
    match LstatIn(server, n + 1, first, p)
    case Err(_) => Run(first, Stopped, n + 2)
    case Ok(found) =>
      if !Missing(made) then SettleIn(server, n + 2, first, p, mode, made, found)
      else if ParentOf(p).None? then Run(first, Wrong, n + 2)
      else
        var parent := EnsureIn(server, n + 2, first, ParentOf(p).value, mode);
        if parent.outcome != Settled then parent else OnceMore(server, parent.next, parent.nodes, p, mode)
  }

  // ---------- What it keeps, on any server ----------

  predicate AtOrAbove(q: Path, p: Path)
    decreases |p|
  {
    q == p || (ParentOf(p).Some? && AtOrAbove(q, ParentOf(p).value))
  }

  lemma {:induction false} AboveIsShorter(q: Path, p: Path)
    requires AtOrAbove(q, p)
    ensures |q| <= |p|
    decreases |p|
  {
    if q != p {
      AboveIsShorter(q, ParentOf(p).value);
    }
  }

  predicate Exact(nodes: Nodes, p: Path, mode: U32) {
    p in nodes && nodes[p].Dir? && nodes[p].bits % PERMISSION_UNIT == mode
  }

  /** Nothing that was there is touched, and whatever is new is a directory at or above the path. */
  predicate Grown(before: Nodes, after: Nodes, p: Path) {
    && (forall q :: q in before ==> q in after && after[q] == before[q])
    && (forall q :: q in after && q !in before ==> after[q].Dir? && AtOrAbove(q, p))
  }

  predicate AllExact(before: Nodes, after: Nodes, mode: U32) {
    forall q :: q in after && q !in before ==> Exact(after, q, mode)
  }

  /** A look that finds something says what is there. */
  predicate FoundIn(nodes: Nodes, p: Path, found: Option<Attrs>) {
    found.Some? ==> p in nodes && found.value == AttrsOf(nodes[p])
  }

  lemma LookAgainIsExact(server: Server, n: nat, nodes: Nodes, p: Path, mode: U32)
    ensures LookAgain(server, n, nodes, p, mode) == Settled ==> Exact(nodes, p, mode)
  {
    if p in nodes {
      AttrsReadBack(nodes[p]);
    }
    hide AttrsOf;
  }

  /** Settling changes at most the bits of a directory that was made here; if it succeeds the directory is exact. */
  lemma SettleIsExact(server: Server, n: nat, nodes: Nodes, p: Path, mode: U32, made: Option<Refusal>, found: Option<Attrs>)
    ensures var run := SettleIn(server, n, nodes, p, mode, made, found);
            && run.nodes.Keys == nodes.Keys
            && (forall q :: q in nodes && (q != p || made.Some?) ==> run.nodes[q] == nodes[q])
            && (forall q :: q in nodes && nodes[q].Dir? ==> run.nodes[q].Dir?)
            && (run.outcome == Settled ==> Exact(run.nodes, p, mode) || (found.Some? && CheckExisting(mode, found.value)))
  {
    var after := SetstatIn(server, n, nodes, p, mode).0;
    LookAgainIsExact(server, n, nodes, p, mode);
    LookAgainIsExact(server, n + 1, after, p, mode);
    hide LookAgain, LstatIn;
  }

  lemma CheckedIsExact(nodes: Nodes, p: Path, mode: U32)
    requires p in nodes && CheckExisting(mode, AttrsOf(nodes[p]))
    ensures Exact(nodes, p, mode)
  {
    AttrsReadBack(nodes[p]);
    hide AttrsOf;
  }

  lemma MkdirAddsOne(server: Server, n: nat, nodes: Nodes, p: Path, mode: U32)
    ensures var (after, made) := MkdirIn(server, n, nodes, p, mode);
            && (made.Some? ==> after == nodes)
            && (made.None? ==> p !in nodes && ParentIsDir(nodes, p) && after == nodes[p := Dir(server.dirBits(p, mode))])
  {
  }

  lemma LookFinds(server: Server, n: nat, nodes: Nodes, p: Path)
    ensures var look := LstatIn(server, n, nodes, p); look.Ok? ==> FoundIn(nodes, p, look.value)
  {
    hide AttrsOf;
  }

  lemma MadeAndSettled(server: Server, n: nat, nodes: Nodes, p: Path, mode: U32, found: Option<Attrs>)
    requires var (first, made) := MkdirIn(server, n, nodes, p, mode); !Missing(made) && FoundIn(first, p, found)
    ensures var (first, made) := MkdirIn(server, n, nodes, p, mode);
            GrownByOne(nodes, SettleIn(server, n + 2, first, p, mode, made, found), p, mode)
  {
    hide MkdirIn, SettleIn, CheckExisting, AttrsOf, ParentIsDir;
    var (first, made) := MkdirIn(server, n, nodes, p, mode);
    MkdirAddsOne(server, n, nodes, p, mode);
    SettleIsExact(server, n + 2, first, p, mode, made, found);
    if found.Some? && CheckExisting(mode, found.value) {
      CheckedIsExact(first, p, mode);
      SettleFound(server, n + 2, first, p, mode, made, found);
    }
  }

  lemma SettleFound(server: Server, n: nat, nodes: Nodes, p: Path, mode: U32, made: Option<Refusal>, found: Option<Attrs>)
    requires found.Some? && CheckExisting(mode, found.value)
    ensures SettleIn(server, n, nodes, p, mode, made, found).nodes == nodes
  {
    hide KindOf, Permissions;
  }

  /** The path itself is the only thing that may be new, and on success it is exact. */
  predicate GrownByOne(before: Nodes, run: Run, p: Path, mode: U32) {
    && Grown(before, run.nodes, p) && run.nodes.Keys <= before.Keys + {p}
    && (run.outcome == Settled ==> Exact(run.nodes, p, mode))
  }

  lemma OnceMoreGrows(server: Server, n: nat, nodes: Nodes, p: Path, mode: U32)
    ensures GrownByOne(nodes, OnceMore(server, n, nodes, p, mode), p, mode)
  {
    hide MkdirIn, LstatIn, SettleIn, ParentIsDir, AttrsOf;
    var (first, made) := MkdirIn(server, n, nodes, p, mode);
    MkdirAddsOne(server, n, nodes, p, mode);
    LookFinds(server, n + 1, first, p);
    if LstatIn(server, n + 1, first, p).Ok? && !Missing(made) {
      MadeAndSettled(server, n, nodes, p, mode, LstatIn(server, n + 1, first, p).value);
    }
  }

  lemma GrownTwice(first: Nodes, second: Nodes, run: Run, p: Path, mode: U32)
    requires ParentOf(p).Some? && Grown(first, second, ParentOf(p).value) && GrownByOne(second, run, p, mode)
    ensures Grown(first, run.nodes, p)
    ensures AllExact(first, second, mode) && Exact(run.nodes, p, mode) ==> AllExact(first, run.nodes, mode)
  {
  }

  /** What `ensure_dir` promises, on any server, however its refusals change from one request to the next: what was there
      is never touched and whatever is new is a directory at or above the path; on success the path is a directory with
      exactly the mode, and so is everything new. */
  lemma {:induction false} EnsureDirKeepsItsPromise(server: Server, n: nat, nodes: Nodes, p: Path, mode: U32)
    ensures var run := EnsureIn(server, n, nodes, p, mode);
            && Grown(nodes, run.nodes, p)
            && (run.outcome == Settled ==> Exact(run.nodes, p, mode) && AllExact(nodes, run.nodes, mode))
    decreases |p|
  {
    hide MkdirIn, LstatIn, SettleIn, OnceMore, ParentIsDir, AttrsOf;
    var (first, made) := MkdirIn(server, n, nodes, p, mode);
    var look := LstatIn(server, n + 1, first, p);
    MkdirAddsOne(server, n, nodes, p, mode);
    LookFinds(server, n + 1, first, p);
    if look.Ok? {
      if !Missing(made) {
        MadeAndSettled(server, n, nodes, p, mode, look.value);
      } else if ParentOf(p).Some? {
        var parent := EnsureIn(server, n + 2, nodes, ParentOf(p).value, mode);
        EnsureDirKeepsItsPromise(server, n + 2, nodes, ParentOf(p).value, mode);
        OnceMoreGrows(server, parent.next, parent.nodes, p, mode);
        GrownTwice(nodes, parent.nodes, OnceMore(server, parent.next, parent.nodes, p, mode), p, mode);
      }
    }
  }

  /** The server answers "no such file" without looking. */
  predicate Pretext(server: Server, n: nat, op: Op) {
    server.refuse(n, op).Some? && server.refuse(n, op).value.code == NO_SUCH_FILE
  }

  /** Asking for what is there changes nothing, on any server that does not deny having what it has. */
  lemma AskingAgainChangesNothing(server: Server, n: nat, nodes: Nodes, p: Path, mode: U32)
    requires p in nodes && !Pretext(server, n, Mkdir(p, mode))
    ensures EnsureIn(server, n, nodes, p, mode).nodes == nodes
  {
    hide LookAgain, AttrsOf;
  }

  // ---------- What can be decided in advance ----------

  /** Which requests are declined depends on nothing but the request. */
  ghost predicate Constant(server: Server) {
    forall n, op :: server.refuse(n, op) == server.refuse(0, op)
  }

  function Policy(server: Server, op: Op): Option<Refusal> {
    server.refuse(0, op)
  }

  /** A look at the path is refused outright. */
  predicate LookRefused(server: Server, p: Path) {
    Policy(server, Lstat(p)).Some? && !Missing(Policy(server, Lstat(p)))
  }

  /** A missing directory can be made here and given exactly the mode. */
  predicate Good(server: Server, p: Path, mode: U32) {
    && Policy(server, Mkdir(p, mode)).None? && Policy(server, Lstat(p)).None?
    && (|| server.dirBits(p, mode) % PERMISSION_UNIT == mode
        || (Policy(server, Setstat(p, mode)).None? && server.setBits(p, mode) % PERMISSION_UNIT == mode))
  }

  function Final(server: Server, p: Path, mode: U32): Node {
    if server.dirBits(p, mode) % PERMISSION_UNIT == mode then Dir(server.dirBits(p, mode)) else Dir(server.setBits(p, mode))
  }

  predicate ExistingIsFine(server: Server, nodes: Nodes, p: Path, mode: U32)
    requires p in nodes
  {
    && Policy(server, Lstat(p)).None? && Exact(nodes, p, mode)
    && (Policy(server, Mkdir(p, mode)).Some? ==>
          Policy(server, Mkdir(p, mode)).value.code !in {PERMISSION_DENIED, NO_SUCH_FILE})
  }

  /** What is there already is a directory with exactly the mode; or it and every missing ancestor can be made, below
      something that is a directory. */
  predicate CanEnsure(server: Server, nodes: Nodes, p: Path, mode: U32)
    decreases |p|
  {
    if p in nodes then ExistingIsFine(server, nodes, p, mode)
    else
      && Good(server, p, mode) && ParentOf(p).Some?
      && var parent := ParentOf(p).value;
         if parent in nodes then nodes[parent].Dir? else CanEnsure(server, nodes, parent, mode)
  }

  /** The tree with the path and its missing ancestors added. */
  function Made(server: Server, nodes: Nodes, p: Path, mode: U32): Nodes
    decreases |p|
  {
    if p in nodes then nodes
    else
      var below := if ParentOf(p).Some? && ParentOf(p).value !in nodes then Made(server, nodes, ParentOf(p).value, mode)
                   else nodes;
      below[p := Final(server, p, mode)]
  }

  /** What `Made` adds, and that it changes nothing else. */
  lemma {:induction false} MadeAdds(server: Server, nodes: Nodes, p: Path, mode: U32)
    ensures p in Made(server, nodes, p, mode)
    ensures forall q :: q in nodes ==> q in Made(server, nodes, p, mode) && Made(server, nodes, p, mode)[q] == nodes[q]
    ensures forall q :: q in Made(server, nodes, p, mode) && q !in nodes ==>
      AtOrAbove(q, p) && Made(server, nodes, p, mode)[q] == Final(server, q, mode)
    ensures CanEnsure(server, nodes, p, mode) ==>
      forall q :: q in Made(server, nodes, p, mode) && q !in nodes ==> Good(server, q, mode)
    decreases |p|
  {
    if p !in nodes && ParentOf(p).Some? && ParentOf(p).value !in nodes {
      MadeAdds(server, nodes, ParentOf(p).value, mode);
    }
  }

  lemma SettleMade(server: Server, n: nat, nodes: Nodes, p: Path, mode: U32)
    requires Constant(server) && p in nodes && nodes[p] == Dir(server.dirBits(p, mode))
    requires Policy(server, Mkdir(p, mode)).None? && Policy(server, Lstat(p)).None?
    ensures var run := SettleIn(server, n, nodes, p, mode, None, Some(AttrsOf(nodes[p])));
            && (run.outcome == Settled <==> Good(server, p, mode))
            && (run.outcome == Settled ==> run.nodes == nodes[p := Final(server, p, mode)])
  {
    AttrsReadBack(nodes[p]);
    AttrsReadBack(Dir(server.setBits(p, mode)));
    assert nodes == nodes[p := nodes[p]];
  }

  lemma SettleExisting(server: Server, n: nat, nodes: Nodes, p: Path, mode: U32, made: Option<Refusal>)
    requires Constant(server) && p in nodes && Policy(server, Lstat(p)).None?
    requires made.Some? && !Missing(Policy(server, Mkdir(p, mode)))
    requires made.value.code == PERMISSION_DENIED <==>
      Policy(server, Mkdir(p, mode)).Some? && Policy(server, Mkdir(p, mode)).value.code == PERMISSION_DENIED
    ensures var run := SettleIn(server, n, nodes, p, mode, made, Some(AttrsOf(nodes[p])));
            run.nodes == nodes && (run.outcome == Settled <==> ExistingIsFine(server, nodes, p, mode))
  {
    AttrsReadBack(nodes[p]);
  }

  lemma EnsureExisting(server: Server, n: nat, nodes: Nodes, p: Path, mode: U32)
    requires Constant(server) && p in nodes
    ensures EnsureIn(server, n, nodes, p, mode).outcome == Settled <==> ExistingIsFine(server, nodes, p, mode)
    ensures EnsureIn(server, n, nodes, p, mode).outcome == Settled ==> EnsureIn(server, n, nodes, p, mode).nodes == nodes
  {
    var (first, made) := MkdirIn(server, n, nodes, p, mode);
    if Policy(server, Lstat(p)).None? && !Missing(Policy(server, Mkdir(p, mode))) {
      SettleExisting(server, n + 2, nodes, p, mode, made);
    }
    if !Missing(made) && Policy(server, Lstat(p)).Some? {
      NothingFound(server, n + 2, nodes, p, mode, made);
    }
    hide SettleIn;
  }

  lemma NothingFound(server: Server, n: nat, nodes: Nodes, p: Path, mode: U32, made: Option<Refusal>)
    ensures SettleIn(server, n, nodes, p, mode, made, None).outcome == Wrong
  {
  }

  lemma EnsureBelow(server: Server, n: nat, nodes: Nodes, p: Path, mode: U32)
    requires Constant(server) && p !in nodes && ParentIsDir(nodes, p) && Policy(server, Mkdir(p, mode)).None?
    ensures var run := OnceMore(server, n, nodes, p, mode);
            && (run.outcome == Settled <==> Good(server, p, mode))
            && (run.outcome == Settled ==> run.nodes == nodes[p := Final(server, p, mode)])
  {
    var first := MkdirIn(server, n, nodes, p, mode).0;
    if Policy(server, Lstat(p)).None? {
      SettleMade(server, n + 2, first, p, mode);
      assert first[p := Final(server, p, mode)] == nodes[p := Final(server, p, mode)];
    } else {
      NothingFound(server, n + 2, first, p, mode, None);
    }
    hide SettleIn, AttrsOf, Final, ParentIsDir;
  }

  lemma EnsureUnderMissing(server: Server, n: nat, nodes: Nodes, p: Path, mode: U32, parent: Run)
    requires Constant(server) && p !in nodes && ParentOf(p).Some? && !ParentIsDir(nodes, p)
    requires Policy(server, Mkdir(p, mode)).None?
    requires parent == EnsureIn(server, n + 2, nodes, ParentOf(p).value, mode)
    ensures var run := EnsureIn(server, n, nodes, p, mode);
            var again := OnceMore(server, parent.next, parent.nodes, p, mode);
            && (run.outcome == Settled <==>
                  LstatIn(server, n + 1, nodes, p).Ok? && parent.outcome == Settled && again.outcome == Settled)
            && (run.outcome == Settled ==> run.nodes == again.nodes)
  {
    hide SettleIn, OnceMore, AttrsOf;
  }

  lemma EnsureRefused(server: Server, n: nat, nodes: Nodes, p: Path, mode: U32)
    requires Constant(server) && p !in nodes && Policy(server, Mkdir(p, mode)).Some?
    ensures EnsureIn(server, n, nodes, p, mode).outcome != Settled
  {
    var refusal := Policy(server, Mkdir(p, mode));
    NothingFound(server, n + 2, nodes, p, mode, refusal);
    hide SettleIn;
  }

  lemma EnsureDirectly(server: Server, n: nat, nodes: Nodes, p: Path, mode: U32)
    requires Constant(server) && p !in nodes && ParentIsDir(nodes, p) && Policy(server, Mkdir(p, mode)).None?
    ensures EnsureIn(server, n, nodes, p, mode) == OnceMore(server, n, nodes, p, mode)
  {
    hide SettleIn;
  }

  /** The closed form of `ensure_in`. */
  lemma {:induction false} EnsureInDecides(server: Server, n: nat, nodes: Nodes, p: Path, mode: U32)
    requires Constant(server)
    ensures var run := EnsureIn(server, n, nodes, p, mode);
            && (run.outcome == Settled <==> CanEnsure(server, nodes, p, mode))
            && (run.outcome == Settled ==> run.nodes == Made(server, nodes, p, mode))
    decreases |p|
  {
    hide OnceMore, SettleIn, ExistingIsFine, Good;
    if p in nodes {
      EnsureExisting(server, n, nodes, p, mode);
    } else if Policy(server, Mkdir(p, mode)).Some? {
      EnsureRefused(server, n, nodes, p, mode);
      GoodIsGranted(server, p, mode);
    } else if ParentIsDir(nodes, p) {
      EnsureDirectly(server, n, nodes, p, mode);
      EnsureBelow(server, n, nodes, p, mode);
    } else if ParentOf(p).Some? {
      var parent := ParentOf(p).value;
      EnsureInDecides(server, n + 2, nodes, parent, mode);
      EnsureDirKeepsItsPromise(server, n + 2, nodes, parent, mode);
      MadeAdds(server, nodes, parent, mode);
      if p in Made(server, nodes, parent, mode) {
        AboveIsShorter(p, parent);
      }
      var below := EnsureIn(server, n + 2, nodes, parent, mode);
      EnsureUnderMissing(server, n, nodes, p, mode, below);
      if below.outcome == Settled {
        EnsureBelow(server, below.next, below.nodes, p, mode);
      }
      GoodIsGranted(server, p, mode);
    }
  }

  lemma GoodIsGranted(server: Server, p: Path, mode: U32)
    ensures Good(server, p, mode) ==> Policy(server, Mkdir(p, mode)).None? && Policy(server, Lstat(p)).None?
  {
  }

  /** On such a server, what has once succeeded succeeds again and changes nothing. */
  lemma WhatIsEnsuredStays(server: Server, n: nat, nodes: Nodes, p: Path, mode: U32, later: nat)
    requires Constant(server) && EnsureIn(server, n, nodes, p, mode).outcome == Settled
    ensures var after := EnsureIn(server, n, nodes, p, mode).nodes;
            var again := EnsureIn(server, later, after, p, mode);
            again.outcome == Settled && again.nodes == after
  {
    hide EnsureIn, AtOrAbove;
    EnsureInDecides(server, n, nodes, p, mode);
    MadeAdds(server, nodes, p, mode);
    EnsureInDecides(server, later, Made(server, nodes, p, mode), p, mode);
  }
}

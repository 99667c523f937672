/** Several directories asked for at once (`ensure_all` in `clift-transport/src/fsops.rs`): what that keeps on any server,
    and that on one that answers every request the same way each time it comes to the same as asking for one directory
    after the other. */
module Pipelining {
  import opened Prelude
  import opened Wire
  import opened Codec
  import opened RemoteFs
  import opened Directories

  // ---------- Several directories, one after the other ----------

  function EnsureEach(server: Server, n: nat, nodes: Nodes, paths: seq<Path>, mode: U32): Run
    decreases |paths|
  {
    if paths == [] then Run(nodes, Settled, n)
    else
      var run := EnsureIn(server, n, nodes, paths[0], mode);
      if run.outcome != Settled then run else EnsureEach(server, run.next, run.nodes, paths[1..], mode)
  }

  // ---------- Several directories, all asked for at once ----------

  datatype Asked = Asked(made: Option<Refusal>, found: Result<Option<Attrs>, Refusal>)

  /** The first exchange: every directory is made and looked at, in order, before anything is decided. */
  function AskAll(server: Server, n: nat, nodes: Nodes, paths: seq<Path>, mode: U32): (r: (Nodes, seq<Asked>))
    ensures |r.1| == |paths|
    decreases |paths|
  {
    if paths == [] then (nodes, [])
    else
      var (after, made) := MkdirIn(server, n, nodes, paths[0], mode);
      var rest := AskAll(server, n + 2, after, paths[1..], mode);
      (rest.0, [Asked(made, LstatIn(server, n + 1, after, paths[0]))] + rest.1)
  }

  /** After a wrong directory, the later ones that were made here are removed again, last first. The number is that of
      the next request. */
  function RollBack(server: Server, n: nat, nodes: Nodes, paths: seq<Path>, asked: seq<Asked>): (r: (Nodes, nat))
    requires |asked| == |paths|
    ensures n <= r.1
    decreases |paths|
  {
    if paths == [] then (nodes, n)
    else
      var (rest, next) := RollBack(server, n, nodes, paths[1..], asked[1..]);
      if asked[0].made.None? then (RmdirIn(server, next, rest, paths[0]), next + 1) else (rest, next)
  }

  function SettleOne(server: Server, n: nat, nodes: Nodes, p: Path, asked: Asked, mode: U32): (run: Run)
    requires asked.found.Ok?
    ensures n <= run.next
  {
    if Missing(asked.made) then EnsureIn(server, n, nodes, p, mode)
    else SettleIn(server, n, nodes, p, mode, asked.made, asked.found.value)
  }

  predicate AllFound(asked: seq<Asked>) {
    forall i :: 0 <= i < |asked| ==> asked[i].found.Ok?
  }

  function SettleAll(server: Server, n: nat, nodes: Nodes, paths: seq<Path>, asked: seq<Asked>, mode: U32): Run
    requires |asked| == |paths| && AllFound(asked)
    decreases |paths|
  {
    if paths == [] then Run(nodes, Settled, n)
    else
      var run := SettleOne(server, n, nodes, paths[0], asked[0], mode);
      match run.outcome
      case Settled => SettleAll(server, run.next, run.nodes, paths[1..], asked[1..], mode)
      case Stopped => run
      case Wrong =>
        var (cleared, next) := RollBack(server, run.next, run.nodes, paths[1..], asked[1..]);
        Run(cleared, Wrong, next)
  }

  /** `ensure_all` */
  function EnsureAll(server: Server, n: nat, nodes: Nodes, paths: seq<Path>, mode: U32): Run {
    var (after, asked) := AskAll(server, n, nodes, paths, mode);
    var next := n + 2 * |paths|;
    if AllFound(asked) then SettleAll(server, next, after, paths, asked, mode) else Run(after, Stopped, next)
  }

  /** The paths the first exchange created. */
  function Created(paths: seq<Path>, asked: seq<Asked>): set<Path>
    requires |asked| == |paths|
  {
    if paths == [] then {}
    else (if asked[0].made.None? then {paths[0]} else {}) + Created(paths[1..], asked[1..])
  }

  lemma {:induction false} CreatedAreListed(paths: seq<Path>, asked: seq<Asked>)
    requires |asked| == |paths|
    ensures forall q :: q in Created(paths, asked) ==> q in paths
    decreases |paths|
  {
    if paths != [] {
      CreatedAreListed(paths[1..], asked[1..]);
    }
  }

  // ---------- What it keeps, on any server ----------

  predicate AboveSome(q: Path, paths: seq<Path>) {
    exists i :: 0 <= i < |paths| && AtOrAbove(q, paths[i])
  }

  /** Nothing that was there is touched, and whatever is new is a directory at or above one of the paths. */
  predicate AllGrown(before: Nodes, after: Nodes, paths: seq<Path>) {
    && (forall q :: q in before ==> q in after && after[q] == before[q])
    && (forall q :: q in after && q !in before ==> after[q].Dir? && AboveSome(q, paths))
  }

  /** What the first exchange says about a path is true of the tree it leaves, and what it made was not there. */
  predicate Tells(before: Nodes, after: Nodes, p: Path, asked: Asked) {
    && (asked.found.Ok? ==> FoundIn(after, p, asked.found.value))
    && (asked.made.None? ==> p !in before && p in after)
  }

  lemma {:induction false} WhatIsAsked(server: Server, n: nat, nodes: Nodes, paths: seq<Path>, mode: U32)
    ensures var (after, asked) := AskAll(server, n, nodes, paths, mode);
            && (forall q :: q in nodes ==> q in after && after[q] == nodes[q])
            && (forall q :: q in after && q !in nodes ==> after[q].Dir? && q in Created(paths, asked))
            && (forall i :: 0 <= i < |paths| ==> Tells(nodes, after, paths[i], asked[i]))
    decreases |paths|
  {
    if paths != [] {
      var first := MkdirIn(server, n, nodes, paths[0], mode).0;
      WhatIsAsked(server, n + 2, first, paths[1..], mode);
      var (after, rest) := AskAll(server, n + 2, first, paths[1..], mode);
      var asked := AskAll(server, n, nodes, paths, mode).1;
      assert asked[1..] == rest;
      forall i | 0 <= i < |paths| ensures Tells(nodes, after, paths[i], asked[i]) {
        if i > 0 {
          assert paths[i] == paths[1..][i - 1] && Tells(first, after, paths[1..][i - 1], rest[i - 1]);
        }
      }
    }
  }

  /** Where the second half has got to: nothing from before has changed; whatever the first exchange left is as it was
      then, or exact; and what is new is exact, or made here and not yet settled. */
  ghost predicate HalfSettled(before: Nodes, asked: Nodes, nodes: Nodes, mode: U32, raw: set<Path>) {
    && (forall q :: q in before ==> q in asked && q in nodes && nodes[q] == before[q] == asked[q])
    && (forall q :: q in asked ==> q in nodes && (nodes[q] == asked[q] || Exact(nodes, q, mode)))
    && (forall q :: q in nodes && q !in before ==> Exact(nodes, q, mode) || q in raw)
  }

  /** A directory that has been settled is exact, and what was exact still is. */
  lemma OneIsSettled(server: Server, n: nat, before: Nodes, base: Nodes, nodes: Nodes, p: Path, asked: Asked, mode: U32,
                     raw: set<Path>)
    requires asked.found.Ok? && Tells(before, base, p, asked) && HalfSettled(before, base, nodes, mode, raw)
    requires SettleOne(server, n, nodes, p, asked, mode).outcome == Settled
    ensures var after := SettleOne(server, n, nodes, p, asked, mode).nodes;
            && HalfSettled(before, base, after, mode, raw - {p})
            && Exact(after, p, mode)
            && (forall q :: Exact(nodes, q, mode) ==> Exact(after, q, mode))
            && (forall q :: q in after && q !in nodes ==> AtOrAbove(q, p))
  {
    if Missing(asked.made) {
      EnsureDirKeepsItsPromise(server, n, nodes, p, mode);
    } else {
      SettleIsExact(server, n, nodes, p, mode, asked.made, asked.found.value);
      if asked.found.value.Some? && CheckExisting(mode, asked.found.value.value) {
        CheckedIsExact(base, p, mode);
        SettleFound(server, n, nodes, p, mode, asked.made, asked.found.value);
      }
    }
    hide EnsureIn, SettleIn, AtOrAbove, CheckExisting, AttrsOf;
  }

  lemma {:induction false} AllAreSettled(
    server: Server, n: nat, before: Nodes, base: Nodes, nodes: Nodes, paths: seq<Path>, asked: seq<Asked>, mode: U32)
    requires |asked| == |paths| && AllFound(asked)
    requires forall i :: 0 <= i < |paths| ==> Tells(before, base, paths[i], asked[i])
    requires HalfSettled(before, base, nodes, mode, Created(paths, asked))
    requires SettleAll(server, n, nodes, paths, asked, mode).outcome == Settled
    ensures var after := SettleAll(server, n, nodes, paths, asked, mode).nodes;
            && (forall q :: q in before ==> q in after && after[q] == before[q])
            && AllExact(before, after, mode)
            && (forall i :: 0 <= i < |paths| ==> Exact(after, paths[i], mode))
            && (forall q :: Exact(nodes, q, mode) ==> Exact(after, q, mode))
            && (forall q :: q in after && q !in nodes ==> AboveSome(q, paths))
    decreases |paths|
  {
    if paths != [] {
      hide SettleOne, AtOrAbove, Exact, Tells;
      var run := SettleOne(server, n, nodes, paths[0], asked[0], mode);
      var after := SettleAll(server, n, nodes, paths, asked, mode).nodes;
      assert Tells(before, base, paths[0], asked[0]);
      OneIsSettled(server, n, before, base, nodes, paths[0], asked[0], mode, Created(paths, asked));
      FewerRaw(before, base, run.nodes, mode, paths, asked);
      forall i | 0 <= i < |paths[1..]| ensures Tells(before, base, paths[1..][i], asked[1..][i]) {
        assert Tells(before, base, paths[i + 1], asked[i + 1]);
      }
      AllAreSettled(server, run.next, before, base, run.nodes, paths[1..], asked[1..], mode);
      forall i | 0 <= i < |paths| ensures Exact(after, paths[i], mode) {
        if i > 0 {
          assert paths[i] == paths[1..][i - 1];
        }
      }
      forall q | q in after && q !in nodes ensures AboveSome(q, paths) {
        if q in run.nodes {
          assert AtOrAbove(q, paths[0]);
        } else {
          var i :| 0 <= i < |paths[1..]| && AtOrAbove(q, paths[1..][i]);
          assert AtOrAbove(q, paths[i + 1]);
        }
      }
    }
  }

  lemma FewerRaw(before: Nodes, base: Nodes, nodes: Nodes, mode: U32, paths: seq<Path>, asked: seq<Asked>)
    requires |asked| == |paths| && paths != []
    requires HalfSettled(before, base, nodes, mode, Created(paths, asked) - {paths[0]})
    ensures HalfSettled(before, base, nodes, mode, Created(paths[1..], asked[1..]))
  {
    hide Exact;
  }

  /** What `ensure_dirs` promises when it succeeds, on any server and for any list: every path is a directory with exactly
      the mode, what was there before is unchanged, and everything new is at or above one of the paths and has exactly
      the mode too. */
  lemma EnsureDirsKeepsItsPromise(server: Server, n: nat, nodes: Nodes, paths: seq<Path>, mode: U32)
    requires EnsureAll(server, n, nodes, paths, mode).outcome == Settled
    ensures var after := EnsureAll(server, n, nodes, paths, mode).nodes;
            && (forall i :: 0 <= i < |paths| ==> Exact(after, paths[i], mode))
            && AllGrown(nodes, after, paths) && AllExact(nodes, after, mode)
  {
    hide SettleAll, Tells;
    var (base, asked) := AskAll(server, n, nodes, paths, mode);
    WhatIsAsked(server, n, nodes, paths, mode);
    AllAreSettled(server, n + 2 * |paths|, nodes, base, base, paths, asked, mode);
    CreatedAreListed(paths, asked);
    forall q | q in base && q !in nodes ensures AboveSome(q, paths) {
      var i :| 0 <= i < |paths| && paths[i] == q;
      assert AtOrAbove(q, paths[i]);
    }
  }

  // ---------- Both come to the same ----------

  /** The tree of the one-at-a-time run and the tree of the pipelined run: they differ only in directories the first
      exchange has made and nobody has settled yet. */
  ghost predicate Related(server: Server, mode: U32, slow: Nodes, fast: Nodes, raw: set<Path>) {
    && (forall q :: q in fast <==> q in slow || q in raw)
    && (forall q :: q in slow && q !in raw ==> fast[q] == slow[q])
    && (forall q {:trigger RawIn(server, mode, slow, fast, q)} :: q in raw ==> RawIn(server, mode, slow, fast, q))
  }

  predicate RawIn(server: Server, mode: U32, slow: Nodes, fast: Nodes, q: Path)
  {
    && Good(server, q, mode) && q in fast && fast[q] == Dir(server.dirBits(q, mode)) && ParentIsDir(fast, q)
    && (q in slow ==> slow[q] == Final(server, q, mode))
  }

  lemma AddToBoth(server: Server, mode: U32, slow: Nodes, fast: Nodes, raw: set<Path>, p: Path, node: Node)
    requires Related(server, mode, slow, fast, raw) && p !in fast
    ensures Related(server, mode, slow[p := node], fast[p := node], raw)
  {
    hide RawIn;
    forall q | q in raw ensures RawIn(server, mode, slow[p := node], fast[p := node], q) {
      StillRaw(server, mode, slow, fast, p, node, q);
    }
  }

  lemma StillRaw(server: Server, mode: U32, slow: Nodes, fast: Nodes, p: Path, node: Node, q: Path)
    requires RawIn(server, mode, slow, fast, q) && p !in fast
    ensures RawIn(server, mode, slow[p := node], fast[p := node], q)
  {
    hide Good, Final;
  }

  /** A directory made in the first exchange can also be made one at a time. */
  lemma {:induction false} RawCanBeMade(server: Server, mode: U32, slow: Nodes, fast: Nodes, raw: set<Path>, p: Path)
    requires Related(server, mode, slow, fast, raw) && p in raw && p !in slow
    ensures CanEnsure(server, slow, p, mode)
    ensures Related(server, mode, Made(server, slow, p, mode), fast, raw)
    decreases |p|
  {
    assert RawIn(server, mode, slow, fast, p);
    var parent := ParentOf(p).value;
    var below := slow;
    if parent in slow {
      assert parent in raw ==> RawIn(server, mode, slow, fast, parent);
    } else {
      RawCanBeMade(server, mode, slow, fast, raw, parent);
      below := Made(server, slow, parent, mode);
    }
    RawMade(server, mode, below, fast, raw, p);
  }

  lemma RawMade(server: Server, mode: U32, slow: Nodes, fast: Nodes, raw: set<Path>, p: Path)
    requires Related(server, mode, slow, fast, raw) && p in raw
    ensures Related(server, mode, slow[p := Final(server, p, mode)], fast, raw)
  {
    hide Final, Good, ParentIsDir;
    var more := slow[p := Final(server, p, mode)];
    assert forall q :: q in more <==> q in slow || q == p;
    forall q | q in raw ensures RawIn(server, mode, more, fast, q) {
      assert RawIn(server, mode, slow, fast, q);
    }
  }

  /** Both runs agree on a directory the first exchange did not make. */
  lemma {:induction false} EnsureAlike(server: Server, mode: U32, slow: Nodes, fast: Nodes, raw: set<Path>, p: Path)
    requires Related(server, mode, slow, fast, raw) && p !in raw
    ensures CanEnsure(server, slow, p, mode) <==> CanEnsure(server, fast, p, mode)
    ensures CanEnsure(server, slow, p, mode) ==>
      Related(server, mode, Made(server, slow, p, mode), Made(server, fast, p, mode), raw)
    decreases |p|
  {
    if p !in fast && ParentOf(p).Some? {
      var parent := ParentOf(p).value;
      var node := Final(server, p, mode);
      if parent in raw {
        assert RawIn(server, mode, slow, fast, parent);
        if parent in slow {
          AddToBoth(server, mode, slow, fast, raw, p, node);
        } else {
          RawCanBeMade(server, mode, slow, fast, raw, parent);
          AddToBoth(server, mode, Made(server, slow, parent, mode), fast, raw, p, node);
        }
      } else if parent in slow {
        AddToBoth(server, mode, slow, fast, raw, p, node);
      } else {
        EnsureAlike(server, mode, slow, fast, raw, parent);
        NotMade(server, fast, p, mode);
        if CanEnsure(server, slow, parent, mode) {
          AddToBoth(server, mode, Made(server, slow, parent, mode), Made(server, fast, parent, mode), raw, p, node);
        }
      }
    }
  }

  /** Making the parent does not make the directory itself. */
  lemma NotMade(server: Server, nodes: Nodes, p: Path, mode: U32)
    requires p !in nodes && ParentOf(p).Some?
    ensures p !in Made(server, nodes, ParentOf(p).value, mode)
  {
    MadeAdds(server, nodes, ParentOf(p).value, mode);
    if p in Made(server, nodes, ParentOf(p).value, mode) {
      AboveIsShorter(p, ParentOf(p).value);
    }
  }

  // ---------- The first exchange ----------

  /** What one answer of the first exchange says about the tree it was asked on, when the server is constant. */
  predicate AnswerFits(server: Server, nodes: Nodes, p: Path, asked: Asked, mode: U32) {
    var decided := Policy(server, Mkdir(p, mode));
    && (asked.found.Ok? <==> !LookRefused(server, p))
    && (Policy(server, Lstat(p)).Some? && asked.found.Ok? ==> asked.found.value == None)
    && (asked.made.None? ==>
          && p !in nodes && decided.None?
          && (Policy(server, Lstat(p)).None? ==> asked.found.value == Some(AttrsOf(Dir(server.dirBits(p, mode))))))
    && (Missing(asked.made) ==> Missing(decided) || (p !in nodes && decided.None?))
    && (asked.made.Some? && !Missing(asked.made) ==>
          && (Policy(server, Lstat(p)).None? ==> asked.found.value == if p in nodes then Some(AttrsOf(nodes[p])) else None)
          && !Missing(decided) && (p !in nodes ==> decided.Some?)
          && (asked.made.value.code == PERMISSION_DENIED <==> decided.Some? && decided.value.code == PERMISSION_DENIED))
  }

  lemma FirstFits(server: Server, n: nat, nodes: Nodes, p: Path, mode: U32)
    requires Constant(server)
    ensures var (after, made) := MkdirIn(server, n, nodes, p, mode);
            AnswerFits(server, nodes, p, Asked(made, LstatIn(server, n + 1, after, p)), mode)
  {
    hide AttrsOf;
  }

  /** What fits the tree with one directory more fits the tree without it. */
  lemma StillFits(server: Server, nodes: Nodes, first: Nodes, q: Path, asked: Asked, mode: U32)
    requires (q in first <==> q in nodes) && (q in nodes ==> first[q] == nodes[q])
    requires AnswerFits(server, first, q, asked, mode)
    ensures AnswerFits(server, nodes, q, asked, mode)
  {
  }

  lemma {:induction false} AskedFits(server: Server, n: nat, nodes: Nodes, paths: seq<Path>, mode: U32)
    requires Constant(server) && Distinct(paths)
    ensures var asked := AskAll(server, n, nodes, paths, mode).1;
            forall i :: 0 <= i < |paths| ==> AnswerFits(server, nodes, paths[i], asked[i], mode)
    decreases |paths|
  {
    if paths != [] {
      hide AnswerFits, MkdirIn, LstatIn, ParentIsDir;
      var first := MkdirIn(server, n, nodes, paths[0], mode).0;
      var rest := AskAll(server, n + 2, first, paths[1..], mode).1;
      AskedFits(server, n + 2, first, paths[1..], mode);
      FirstFits(server, n, nodes, paths[0], mode);
      MkdirAddsOne(server, n, nodes, paths[0], mode);
      var asked := AskAll(server, n, nodes, paths, mode).1;
      forall i | 0 <= i < |paths| ensures AnswerFits(server, nodes, paths[i], asked[i], mode) {
        if i > 0 {
          assert paths[i] == paths[1..][i - 1] && paths[i] != paths[0] && asked[i] == rest[i - 1];
          StillFits(server, nodes, first, paths[i], asked[i], mode);
        }
      }
    }
  }

  lemma {:induction false} AskedTree(server: Server, n: nat, nodes: Nodes, paths: seq<Path>, mode: U32)
    ensures var (after, asked) := AskAll(server, n, nodes, paths, mode);
            && (forall q :: q in after <==> q in nodes || q in Created(paths, asked))
            && (forall q :: q in nodes ==> after[q] == nodes[q] && q !in Created(paths, asked))
            && (forall q :: q in Created(paths, asked) ==>
                  after[q] == Dir(server.dirBits(q, mode)) && ParentIsDir(after, q) && q in paths)
    decreases |paths|
  {
    if paths != [] {
      hide MkdirIn, LstatIn, ParentOf;
      var first := MkdirIn(server, n, nodes, paths[0], mode).0;
      var rest := AskAll(server, n + 2, first, paths[1..], mode).1;
      MkdirAddsOne(server, n, nodes, paths[0], mode);
      AskedTree(server, n + 2, first, paths[1..], mode);
      assert AskAll(server, n, nodes, paths, mode).1[1..] == rest;
    }
  }

  lemma AskedOf(server: Server, n: nat, nodes: Nodes, paths: seq<Path>, mode: U32)
    requires Constant(server) && Distinct(paths)
    ensures var (after, asked) := AskAll(server, n, nodes, paths, mode);
            && (forall i :: 0 <= i < |paths| ==> AnswerFits(server, nodes, paths[i], asked[i], mode))
            && (forall q :: q in after <==> q in nodes || q in Created(paths, asked))
            && (forall q :: q in nodes ==> after[q] == nodes[q] && q !in Created(paths, asked))
            && (forall q :: q in Created(paths, asked) ==>
                  after[q] == Dir(server.dirBits(q, mode)) && ParentIsDir(after, q) && q in paths)
  {
    hide AnswerFits, ParentIsDir;
    AskedFits(server, n, nodes, paths, mode);
    AskedTree(server, n, nodes, paths, mode);
  }

  // ---------- The second half ----------

  lemma SettledIsGood(server: Server, n: nat, nodes: Nodes, p: Path, asked: Asked, base: Nodes, mode: U32)
    requires Constant(server) && AnswerFits(server, base, p, asked, mode) && asked.found.Ok? && asked.made.None?
    requires SettleIn(server, n, nodes, p, mode, asked.made, asked.found.value).outcome == Settled
    ensures Good(server, p, mode)
  {
    AttrsReadBack(Dir(server.dirBits(p, mode)));
    if p in nodes {
      AttrsReadBack(WithBits(nodes[p], server.setBits(p, mode)));
    }
    hide AttrsOf;
  }

  lemma {:induction false} AllSettledAreGood(
    server: Server, n: nat, nodes: Nodes, base: Nodes, paths: seq<Path>, asked: seq<Asked>, mode: U32)
    requires Constant(server) && |asked| == |paths| && AllFound(asked)
    requires forall i :: 0 <= i < |paths| ==> AnswerFits(server, base, paths[i], asked[i], mode)
    requires SettleAll(server, n, nodes, paths, asked, mode).outcome == Settled
    ensures forall q :: q in Created(paths, asked) ==> Good(server, q, mode)
    decreases |paths|
  {
    hide SettleIn, EnsureIn, AnswerFits, Good;
    if paths != [] {
      assert AnswerFits(server, base, paths[0], asked[0], mode);
      if asked[0].made.None? {
        SettledIsGood(server, n, nodes, paths[0], asked[0], base, mode);
      }
      var run := SettleOne(server, n, nodes, paths[0], asked[0], mode);
      AllSettledAreGood(server, run.next, run.nodes, base, paths[1..], asked[1..], mode);
    }
  }

  /** Everything listed was there, or could be made; and all of it could be looked at. */
  lemma {:induction false} AllEnsuredAreGood(server: Server, n: nat, slow: Nodes, base: Nodes, paths: seq<Path>, mode: U32)
    requires Constant(server) && EnsureEach(server, n, slow, paths, mode).outcome == Settled
    requires forall q :: q in slow && q !in base ==> Good(server, q, mode)
    ensures forall p :: p in paths ==> Policy(server, Lstat(p)).None? && (p !in base ==> Good(server, p, mode))
    decreases |paths|
  {
    hide EnsureIn, AtOrAbove;
    if paths != [] {
      EnsureInDecides(server, n, slow, paths[0], mode);
      MadeAdds(server, slow, paths[0], mode);
      var run := EnsureIn(server, n, slow, paths[0], mode);
      AllEnsuredAreGood(server, run.next, run.nodes, base, paths[1..], mode);
    }
  }

  /** Settling a directory the first exchange made, and making it one at a time. */
  lemma SettleRaw(server: Server, mode: U32, slow: Nodes, fast: Nodes, raw: set<Path>, p: Path)
    requires Related(server, mode, slow, fast, raw) && p in raw
    ensures CanEnsure(server, slow, p, mode)
    ensures Related(server, mode, Made(server, slow, p, mode), fast[p := Final(server, p, mode)], raw - {p})
  {
    assert RawIn(server, mode, slow, fast, p);
    if p !in slow {
      RawCanBeMade(server, mode, slow, fast, raw, p);
    }
    var made := Made(server, slow, p, mode);
    assert made[p] == Final(server, p, mode);
    NoLongerRaw(server, mode, made, fast, raw, p);
  }

  lemma NoLongerRaw(server: Server, mode: U32, slow: Nodes, fast: Nodes, raw: set<Path>, p: Path)
    requires Related(server, mode, slow, fast, raw) && p in raw && p in slow && slow[p] == Final(server, p, mode)
    ensures Related(server, mode, slow, fast[p := Final(server, p, mode)], raw - {p})
  {
    hide Good;
    var after := fast[p := Final(server, p, mode)];
    assert RawIn(server, mode, slow, fast, p);
    forall q | q in raw - {p} ensures RawIn(server, mode, slow, after, q) {
      assert RawIn(server, mode, slow, fast, q);
    }
  }

  /** One step of both runs. */
  lemma StepAlike(server: Server, mode: U32, n: nat, base: Nodes, slow: Nodes, fast: Nodes, raw: set<Path>, p: Path,
                  asked: Asked)
    requires Constant(server) && AnswerFits(server, base, p, asked, mode) && asked.found.Ok?
    requires forall q :: q in base ==> q in slow && slow[q] == base[q]
    requires forall q :: q in slow && q !in base ==> Good(server, q, mode)
    requires Related(server, mode, slow, fast, raw) && (p in raw <==> asked.made.None?)
    ensures var run := SettleOne(server, n, fast, p, asked, mode);
            && (run.outcome == Settled <==> CanEnsure(server, slow, p, mode))
            && (CanEnsure(server, slow, p, mode) ==>
                  Related(server, mode, Made(server, slow, p, mode), run.nodes, raw - {p}))
  {
    if asked.made.None? {
      assert RawIn(server, mode, slow, fast, p);
      SettleMade(server, n, fast, p, mode);
      SettleRaw(server, mode, slow, fast, raw, p);
    } else {
      assert raw - {p} == raw;
      if Missing(asked.made) {
        EnsureInDecides(server, n, fast, p, mode);
        EnsureAlike(server, mode, slow, fast, raw, p);
      } else if Policy(server, Lstat(p)).Some? || p !in base {
        NothingFound(server, n, fast, p, mode, asked.made);
        assert SettleOne(server, n, fast, p, asked, mode).outcome == Wrong;
      } else {
        SettleExisting(server, n, fast, p, mode, asked.made);
      }
    }
    hide EnsureIn, SettleIn, AttrsOf, Related, RawIn;
  }

  lemma CreatedApart(paths: seq<Path>, asked: seq<Asked>)
    requires Distinct(paths) && |asked| == |paths| && paths != []
    ensures Distinct(paths[1..])
    ensures paths[0] in Created(paths, asked) <==> asked[0].made.None?
    ensures Created(paths, asked) - {paths[0]} == Created(paths[1..], asked[1..])
  {
    CreatedAreListed(paths[1..], asked[1..]);
  }

  lemma {:induction false} BothSettle(
    server: Server, mode: U32, base: Nodes, m: nat, slow: Nodes, n: nat, fast: Nodes, paths: seq<Path>, asked: seq<Asked>)
    requires Constant(server) && Distinct(paths) && |asked| == |paths| && AllFound(asked)
    requires forall i :: 0 <= i < |paths| ==> AnswerFits(server, base, paths[i], asked[i], mode)
    requires forall q :: q in base ==> q in slow && slow[q] == base[q]
    requires forall q :: q in slow && q !in base ==> Good(server, q, mode)
    requires Related(server, mode, slow, fast, Created(paths, asked))
    ensures var one, all := EnsureEach(server, m, slow, paths, mode), SettleAll(server, n, fast, paths, asked, mode);
            && (all.outcome == Settled <==> one.outcome == Settled)
            && (one.outcome == Settled ==> all.nodes == one.nodes)
    decreases |paths|
  {
    if paths == [] {
      assert slow == fast;
    } else {
      hide EnsureIn, SettleIn, AnswerFits, Related, Good, AtOrAbove, CanEnsure, SettleOne, Created, Distinct, Made;
      var p, raw := paths[0], Created(paths, asked);
      CreatedApart(paths, asked);
      assert AnswerFits(server, base, p, asked[0], mode);
      StepAlike(server, mode, n, base, slow, fast, raw, p, asked[0]);
      EnsureInDecides(server, m, slow, p, mode);
      MadeAdds(server, slow, p, mode);
      if CanEnsure(server, slow, p, mode) {
        var one, all := EnsureIn(server, m, slow, p, mode), SettleOne(server, n, fast, p, asked[0], mode);
        BothSettle(server, mode, base, one.next, one.nodes, all.next, all.nodes, paths[1..], asked[1..]);
      }
    }
  }

  lemma RelatedAtFirst(server: Server, n: nat, nodes: Nodes, paths: seq<Path>, mode: U32)
    requires Constant(server) && Distinct(paths)
    requires forall q :: q in Created(paths, AskAll(server, n, nodes, paths, mode).1) ==> Good(server, q, mode)
    ensures var (after, asked) := AskAll(server, n, nodes, paths, mode);
            Related(server, mode, nodes, after, Created(paths, asked))
  {
    hide Good, AnswerFits, ParentIsDir;
    AskedOf(server, n, nodes, paths, mode);
    var (after, asked) := AskAll(server, n, nodes, paths, mode);
    forall q | q in Created(paths, asked) ensures RawIn(server, mode, nodes, after, q) {
    }
  }

  /** If the one-at-a-time run settles everything, the first exchange looks at everything and makes only what is good. */
  lemma FirstExchangeIsGood(server: Server, n: nat, m: nat, nodes: Nodes, paths: seq<Path>, mode: U32)
    requires Constant(server) && Distinct(paths) && EnsureEach(server, m, nodes, paths, mode).outcome == Settled
    ensures var asked := AskAll(server, n, nodes, paths, mode).1;
            AllFound(asked) && forall q :: q in Created(paths, asked) ==> Good(server, q, mode)
  {
    hide EnsureEach, Good, ParentIsDir;
    AskedOf(server, n, nodes, paths, mode);
    AllEnsuredAreGood(server, m, nodes, nodes, paths, mode);
    var asked := AskAll(server, n, nodes, paths, mode).1;
    forall i | 0 <= i < |paths| ensures asked[i].found.Ok? {
      assert AnswerFits(server, nodes, paths[i], asked[i], mode) && paths[i] in paths;
    }
  }

  /** For distinct paths, asking for all of them at once succeeds exactly when asking one after the other would, and
      then leaves the same tree. */
  lemma PipeliningChangesNothing(server: Server, n: nat, m: nat, nodes: Nodes, paths: seq<Path>, mode: U32)
    requires Constant(server) && Distinct(paths)
    ensures var all, one := EnsureAll(server, n, nodes, paths, mode), EnsureEach(server, m, nodes, paths, mode);
            && (all.outcome == Settled <==> one.outcome == Settled)
            && (all.outcome == Settled ==> all.nodes == one.nodes)
  {
    hide EnsureEach, SettleAll, Good, AskAll, AnswerFits, Related, Created, ParentIsDir, Distinct;
    var (after, asked) := AskAll(server, n, nodes, paths, mode);
    var next := n + 2 * |paths|;
    AskedOf(server, n, nodes, paths, mode);
    if EnsureEach(server, m, nodes, paths, mode).outcome == Settled {
      FirstExchangeIsGood(server, n, m, nodes, paths, mode);
    } else if AllFound(asked) && SettleAll(server, next, after, paths, asked, mode).outcome == Settled {
      AllSettledAreGood(server, next, after, nodes, paths, asked, mode);
    }
    if AllFound(asked) && forall q :: q in Created(paths, asked) ==> Good(server, q, mode) {
      RelatedAtFirst(server, n, nodes, paths, mode);
      BothSettle(server, mode, nodes, m, nodes, next, after, paths, asked);
    }
  }
}

/** What `ensure_all` leaves behind when it fails (`clift-transport/src/fsops.rs`): on any server nothing that was there is
    touched; on one that answers every request the same way each time, exactly when the tree is as it was. */
module RollingBack {
  import opened Prelude
  import opened Wire
  import opened Codec
  import opened RemoteFs
  import opened Directories
  import opened Pipelining

  // ---------- The removals ----------

  lemma {:induction false} RollBackRemovesOnlyOurs(server: Server, n: nat, nodes: Nodes, paths: seq<Path>, asked: seq<Asked>)
    requires |asked| == |paths|
    ensures var after := RollBack(server, n, nodes, paths, asked).0;
            && (forall q :: q in after ==> q in nodes && after[q] == nodes[q])
            && (forall q :: q in nodes && q !in after ==> q in Created(paths, asked))
    decreases |paths|
  {
    if paths != [] {
      RollBackRemovesOnlyOurs(server, n, nodes, paths[1..], asked[1..]);
    }
    hide HasChild;
  }

  /** No directory was made before its own parent. */
  predicate ParentsFirst(paths: seq<Path>, asked: seq<Asked>)
    requires |asked| == |paths|
    decreases |paths|
  {
    paths == [] || (
      && (asked[0].made.None? ==> forall q :: q in Created(paths[1..], asked[1..]) ==> ParentOf(paths[0]) != Some(q))
      && ParentsFirst(paths[1..], asked[1..]))
  }

  lemma {:induction false} AskedParentsFirst(server: Server, n: nat, nodes: Nodes, paths: seq<Path>, mode: U32)
    ensures ParentsFirst(paths, AskAll(server, n, nodes, paths, mode).1)
    decreases |paths|
  {
    if paths != [] {
      var first := MkdirIn(server, n, nodes, paths[0], mode).0;
      AskedParentsFirst(server, n + 2, first, paths[1..], mode);
      AskedTree(server, n + 2, first, paths[1..], mode);
      MkdirAddsOne(server, n, nodes, paths[0], mode);
      assert AskAll(server, n, nodes, paths, mode).1[1..] == AskAll(server, n + 2, first, paths[1..], mode).1;
      hide MkdirIn, LstatIn;
    }
  }

  /** One of the requests numbered from `from` up to `to` would be refused, were it to remove this directory. */
  predicate RmdirRefused(server: Server, from: nat, to: nat, q: Path) {
    exists m :: from <= m < to && server.refuse(m, Rmdir(q)).Some?
  }

  /** Every directory made here is gone, or has something in it, or its removal was refused. */
  predicate Cleared(server: Server, from: nat, to: nat, ours: set<Path>, nodes: Nodes) {
    forall q :: q in ours ==> q !in nodes || HasChild(nodes, q) || RmdirRefused(server, from, to, q)
  }

  lemma ClearedWithin(server: Server, from: nat, to: nat, earlier: nat, later: nat, ours: set<Path>, nodes: Nodes)
    requires Cleared(server, from, to, ours, nodes) && earlier <= from && to <= later
    ensures Cleared(server, earlier, later, ours, nodes)
  {
    hide HasChild;
    forall q | q in ours && q in nodes && !HasChild(nodes, q) ensures RmdirRefused(server, earlier, later, q) {
      var m :| from <= m < to && server.refuse(m, Rmdir(q)).Some?;
    }
  }

  lemma RmdirClears(server: Server, n: nat, nodes: Nodes, p: Path)
    requires p in nodes ==> nodes[p].Dir?
    ensures var after := RmdirIn(server, n, nodes, p);
            p !in after || HasChild(after, p) || RmdirRefused(server, n, n + 1, p)
  {
    hide HasChild;
  }

  /** Removing a directory leaves those below it without it, and something in every other that had something. */
  lemma StillCleared(server: Server, from: nat, to: nat, ours: set<Path>, nodes: Nodes, p: Path, after: Nodes)
    requires Cleared(server, from, to, ours, nodes) && (after == nodes || after == nodes - {p})
    requires forall q :: q in ours ==> ParentOf(p) != Some(q)
    ensures Cleared(server, from, to, ours, after)
  {
    hide RmdirRefused;
    forall q | q in ours && q in after && HasChild(nodes, q) ensures HasChild(after, q) {
      var child :| child in nodes && ParentOf(child) == Some(q);
      assert child in after;
    }
  }

  /** On any server, what was made here is gone after the rollback, or has something in it, or one of the removals the
      rollback asked for was refused. */
  lemma {:induction false} RollBackClears(server: Server, n: nat, nodes: Nodes, paths: seq<Path>, asked: seq<Asked>)
    requires |asked| == |paths| && ParentsFirst(paths, asked)
    requires forall q :: q in Created(paths, asked) && q in nodes ==> nodes[q].Dir?
    ensures var (after, next) := RollBack(server, n, nodes, paths, asked);
            Cleared(server, n, next, Created(paths, asked), after)
    decreases |paths|
  {
    if paths != [] {
      hide Cleared, RmdirRefused, HasChild, ParentOf;
      var (rest, next) := RollBack(server, n, nodes, paths[1..], asked[1..]);
      var ours := Created(paths[1..], asked[1..]);
      RollBackClears(server, n, nodes, paths[1..], asked[1..]);
      RollBackRemovesOnlyOurs(server, n, nodes, paths[1..], asked[1..]);
      if asked[0].made.None? {
        var after := RmdirIn(server, next, rest, paths[0]);
        RmdirClears(server, next, rest, paths[0]);
        StillCleared(server, n, next, ours, rest, paths[0], after);
        OneMoreCleared(server, n, next, ours, paths[0], after);
      }
    }
  }

  lemma OneMoreCleared(server: Server, from: nat, to: nat, ours: set<Path>, p: Path, nodes: Nodes)
    requires Cleared(server, from, to, ours, nodes) && from <= to
    requires p !in nodes || HasChild(nodes, p) || RmdirRefused(server, to, to + 1, p)
    ensures Cleared(server, from, to + 1, {p} + ours, nodes)
  {
    ClearedWithin(server, from, to, from, to + 1, ours, nodes);
    hide HasChild;
  }

  /** If nothing else is inside them and no removal is refused, all of them go. */
  lemma {:induction false} RollBackRemovesAll(server: Server, n: nat, nodes: Nodes, paths: seq<Path>, asked: seq<Asked>)
    requires Constant(server) && Distinct(paths) && |asked| == |paths| && ParentsFirst(paths, asked)
    requires forall q :: q in Created(paths, asked) ==> q in nodes && nodes[q].Dir? && Policy(server, Rmdir(q)).None?
    requires forall c :: c in nodes && ParentOf(c).Some? && ParentOf(c).value in Created(paths, asked) ==>
      c in Created(paths, asked)
    ensures RollBack(server, n, nodes, paths, asked).0 == nodes - Created(paths, asked)
    decreases |paths|
  {
    if paths != [] {
      CreatedApart(paths, asked);
      RollBackRemovesAll(server, n, nodes, paths[1..], asked[1..]);
    }
  }

  /** A directory whose removal is refused stays, and so does one with something in it that is not ours. */
  lemma {:induction false} RollBackKeeps(server: Server, n: nat, nodes: Nodes, paths: seq<Path>, asked: seq<Asked>, q: Path)
    requires Constant(server) && |asked| == |paths| && q in nodes
    requires Policy(server, Rmdir(q)).Some? || exists c :: c in nodes - Created(paths, asked) && ParentOf(c) == Some(q)
    ensures q in RollBack(server, n, nodes, paths, asked).0
    decreases |paths|
  {
    if paths != [] {
      RollBackKeeps(server, n, nodes, paths[1..], asked[1..], q);
      RollBackRemovesOnlyOurs(server, n, nodes, paths[1..], asked[1..]);
    }
  }

  // ---------- What any run leaves ----------

  lemma {:induction false} SettleAllGrows(
    server: Server, n: nat, before: Nodes, nodes: Nodes, all: seq<Path>, paths: seq<Path>, asked: seq<Asked>, mode: U32)
    requires |asked| == |paths| && AllFound(asked) && AllGrown(before, nodes, all)
    requires forall p :: p in paths ==> p in all
    requires Created(paths, asked) !! before.Keys
    ensures AllGrown(before, SettleAll(server, n, nodes, paths, asked, mode).nodes, all)
    ensures forall q :: q in nodes && q !in Created(paths, asked) ==>
      q in SettleAll(server, n, nodes, paths, asked, mode).nodes
    decreases |paths|
  {
    if paths != [] {
      hide SettleOne, AboveSome, AtOrAbove;
      var run := SettleOne(server, n, nodes, paths[0], asked[0], mode);
      OneGrows(server, n, before, nodes, all, paths[0], asked[0], mode);
      if run.outcome == Settled {
        SettleAllGrows(server, run.next, before, run.nodes, all, paths[1..], asked[1..], mode);
      } else if run.outcome == Wrong {
        RollBackRemovesOnlyOurs(server, run.next, run.nodes, paths[1..], asked[1..]);
      }
    }
  }

  lemma AboveListed(q: Path, p: Path, all: seq<Path>)
    requires AtOrAbove(q, p) && p in all
    ensures AboveSome(q, all)
  {
    var i :| 0 <= i < |all| && all[i] == p;
    assert AtOrAbove(q, all[i]);
  }

  lemma StillGrown(before: Nodes, nodes: Nodes, after: Nodes, all: seq<Path>, p: Path)
    requires AllGrown(before, nodes, all) && p in all && Grown(nodes, after, p)
    ensures AllGrown(before, after, all)
  {
    hide AtOrAbove, AboveSome;
    forall q | q in after && q !in nodes ensures AboveSome(q, all) {
      AboveListed(q, p, all);
    }
  }

  lemma SameKeysGrown(before: Nodes, nodes: Nodes, after: Nodes, all: seq<Path>, p: Path)
    requires AllGrown(before, nodes, all) && after.Keys == nodes.Keys
    requires forall q :: q in nodes && (q != p || q in before) ==> after[q] == nodes[q]
    requires forall q :: q in nodes && nodes[q].Dir? ==> after[q].Dir?
    ensures AllGrown(before, after, all)
  {
    hide AboveSome;
  }

  lemma OneGrows(server: Server, n: nat, before: Nodes, nodes: Nodes, all: seq<Path>, p: Path, asked: Asked, mode: U32)
    requires asked.found.Ok? && AllGrown(before, nodes, all) && p in all && (asked.made.None? ==> p !in before)
    ensures var run := SettleOne(server, n, nodes, p, asked, mode);
            && AllGrown(before, run.nodes, all) && nodes.Keys <= run.nodes.Keys
            && (forall q :: q in nodes && (q != p || asked.made.Some?) ==> run.nodes[q] == nodes[q])
  {
    hide EnsureIn, SettleIn, AtOrAbove, AboveSome;
    var after := SettleOne(server, n, nodes, p, asked, mode).nodes;
    if Missing(asked.made) {
      EnsureDirKeepsItsPromise(server, n, nodes, p, mode);
      StillGrown(before, nodes, after, all, p);
    } else {
      SettleIsExact(server, n, nodes, p, mode, asked.made, asked.found.value);
      SameKeysGrown(before, nodes, after, all, p);
    }
  }

  lemma {:induction false} CreatedIsNew(before: Nodes, after: Nodes, paths: seq<Path>, asked: seq<Asked>)
    requires |asked| == |paths| && forall i :: 0 <= i < |paths| ==> Tells(before, after, paths[i], asked[i])
    ensures Created(paths, asked) !! before.Keys
    decreases |paths|
  {
    if paths != [] {
      assert Tells(before, after, paths[0], asked[0]);
      forall i | 0 <= i < |paths[1..]| ensures Tells(before, after, paths[1..][i], asked[1..][i]) {
        assert Tells(before, after, paths[i + 1], asked[i + 1]);
      }
      CreatedIsNew(before, after, paths[1..], asked[1..]);
    }
  }

  /** Whatever happens, on any server: what was there before is never touched, and whatever is new is a directory at or
      above one of the paths. */
  lemma EnsureAllOnlyAdds(server: Server, n: nat, nodes: Nodes, paths: seq<Path>, mode: U32)
    ensures AllGrown(nodes, EnsureAll(server, n, nodes, paths, mode).nodes, paths)
  {
    hide SettleAll, Tells;
    var (base, asked) := AskAll(server, n, nodes, paths, mode);
    WhatIsAsked(server, n, nodes, paths, mode);
    CreatedAreListed(paths, asked);
    CreatedIsNew(nodes, base, paths, asked);
    forall q | q in base && q !in nodes ensures AboveSome(q, paths) {
      var i :| 0 <= i < |paths| && paths[i] == q;
      assert AtOrAbove(q, paths[i]);
    }
    if AllFound(asked) {
      SettleAllGrows(server, n + 2 * |paths|, nodes, base, paths, paths, asked, mode);
    }
  }

  /** How many directories are settled before the first that is not. */
  function SettledBefore(server: Server, n: nat, nodes: Nodes, paths: seq<Path>, asked: seq<Asked>, mode: U32): (k: nat)
    requires |asked| == |paths| && AllFound(asked)
    ensures k <= |paths|
    ensures SettleAll(server, n, nodes, paths, asked, mode).outcome != Settled ==> k < |paths|
    decreases |paths|
  {
    if paths == [] then 0
    else
      var run := SettleOne(server, n, nodes, paths[0], asked[0], mode);
      if run.outcome == Settled then 1 + SettledBefore(server, run.next, run.nodes, paths[1..], asked[1..], mode) else 0
  }

  /** The first `k` are exact, and of the ones after the next every one made here has been removed if it could be. */
  predicate Tidied(server: Server, from: nat, to: nat, paths: seq<Path>, asked: seq<Asked>, k: nat, final: Nodes, mode: U32)
    requires |asked| == |paths| && k < |paths|
  {
    && (forall i :: 0 <= i < k ==> Exact(final, paths[i], mode))
    && Cleared(server, from, to, Created(paths[k + 1..], asked[k + 1..]), final)
  }

  lemma {:induction false} SettleAllTidies(
    server: Server, n: nat, before: Nodes, base: Nodes, nodes: Nodes, paths: seq<Path>, asked: seq<Asked>, mode: U32)
    requires Distinct(paths) && |asked| == |paths| && AllFound(asked) && ParentsFirst(paths, asked)
    requires forall i :: 0 <= i < |paths| ==> Tells(before, base, paths[i], asked[i])
    requires HalfSettled(before, base, nodes, mode, Created(paths, asked))
    requires forall q :: q in Created(paths, asked) ==> q in nodes && nodes[q].Dir?
    requires SettleAll(server, n, nodes, paths, asked, mode).outcome == Wrong
    ensures var Run(final, _, next) := SettleAll(server, n, nodes, paths, asked, mode);
            && Tidied(server, n, next, paths, asked, SettledBefore(server, n, nodes, paths, asked, mode), final, mode)
            && (forall q :: Exact(nodes, q, mode) && q !in paths ==> Exact(final, q, mode))
    decreases |paths|
  {
    hide SettleOne, HasChild, ParentOf, Exact, Tells, Cleared, Created, HalfSettled, RollBack;
    var p, run := paths[0], SettleOne(server, n, nodes, paths[0], asked[0], mode);
    var Run(final, _, next) := SettleAll(server, n, nodes, paths, asked, mode);
    assert Tells(before, base, p, asked[0]);
    CreatedApart(paths, asked);
    CreatedAreListed(paths[1..], asked[1..]);
    OneKeeps(server, n, before, base, nodes, p, asked[0], mode, Created(paths, asked));
    if run.outcome == Settled {
      OneIsSettled(server, n, before, base, nodes, p, asked[0], mode, Created(paths, asked));
      forall i | 0 <= i < |paths[1..]| ensures Tells(before, base, paths[1..][i], asked[1..][i]) {
        assert Tells(before, base, paths[i + 1], asked[i + 1]);
      }
      SettleAllTidies(server, run.next, before, base, run.nodes, paths[1..], asked[1..], mode);
      var k := SettledBefore(server, run.next, run.nodes, paths[1..], asked[1..], mode);
      assert paths[1..][k + 1..] == paths[k + 2..] && asked[1..][k + 1..] == asked[k + 2..];
      ClearedWithin(server, run.next, next, n, next, Created(paths[k + 2..], asked[k + 2..]), final);
      forall i | 0 <= i < k + 1 ensures Exact(final, paths[i], mode) {
        assert i > 0 ==> paths[i] == paths[1..][i - 1];
      }
    } else {
      RollBackClears(server, run.next, run.nodes, paths[1..], asked[1..]);
      ClearedWithin(server, run.next, next, n, next, Created(paths[1..], asked[1..]), final);
      RollBackRemovesOnlyOurs(server, run.next, run.nodes, paths[1..], asked[1..]);
      forall q | Exact(nodes, q, mode) && q !in paths ensures Exact(final, q, mode) {
        StillExact(nodes, run.nodes, q, mode);
        StillExact(run.nodes, final, q, mode);
      }
    }
  }

  lemma StillExact(nodes: Nodes, after: Nodes, q: Path, mode: U32)
    requires Exact(nodes, q, mode)
    ensures q in nodes && (q in after && after[q] == nodes[q] ==> Exact(after, q, mode))
  {
  }

  lemma OneKeeps(server: Server, n: nat, before: Nodes, base: Nodes, nodes: Nodes, p: Path, asked: Asked, mode: U32,
                 raw: set<Path>)
    requires asked.found.Ok? && Tells(before, base, p, asked) && HalfSettled(before, base, nodes, mode, raw)
    ensures var after := SettleOne(server, n, nodes, p, asked, mode).nodes;
            && (forall q :: q in nodes ==> q in after && (nodes[q].Dir? ==> after[q].Dir?))
            && (forall q :: q in nodes && (q != p || asked.made.Some?) ==> after[q] == nodes[q])
  {
    if Missing(asked.made) {
      EnsureDirKeepsItsPromise(server, n, nodes, p, mode);
    } else {
      SettleIsExact(server, n, nodes, p, mode, asked.made, asked.found.value);
    }
    hide EnsureIn, SettleIn, AtOrAbove;
  }

  lemma {:induction false} StoppedRemovesNothing(
    server: Server, n: nat, nodes: Nodes, paths: seq<Path>, asked: seq<Asked>, mode: U32)
    requires |asked| == |paths| && AllFound(asked)
    requires SettleAll(server, n, nodes, paths, asked, mode).outcome == Stopped
    ensures nodes.Keys <= SettleAll(server, n, nodes, paths, asked, mode).nodes.Keys
    decreases |paths|
  {
    hide SettleOne;
    var run := SettleOne(server, n, nodes, paths[0], asked[0], mode);
    OneRemovesNothing(server, n, nodes, paths[0], asked[0], mode);
    if run.outcome == Settled {
      StoppedRemovesNothing(server, run.next, run.nodes, paths[1..], asked[1..], mode);
    }
  }

  lemma OneRemovesNothing(server: Server, n: nat, nodes: Nodes, p: Path, asked: Asked, mode: U32)
    requires asked.found.Ok?
    ensures nodes.Keys <= SettleOne(server, n, nodes, p, asked, mode).nodes.Keys
  {
    if Missing(asked.made) {
      EnsureDirKeepsItsPromise(server, n, nodes, p, mode);
    } else {
      SettleIsExact(server, n, nodes, p, mode, asked.made, asked.found.value);
    }
    hide EnsureIn, SettleIn;
  }

  lemma ReadyToTidy(server: Server, n: nat, nodes: Nodes, paths: seq<Path>, mode: U32)
    ensures var (base, asked) := AskAll(server, n, nodes, paths, mode);
            && ParentsFirst(paths, asked)
            && (forall i :: 0 <= i < |paths| ==> Tells(nodes, base, paths[i], asked[i]))
            && HalfSettled(nodes, base, base, mode, Created(paths, asked))
            && (forall q :: q in Created(paths, asked) ==> q in base && base[q].Dir?)
  {
    hide Tells, ParentIsDir, AskAll, Created, ParentsFirst, Exact;
    WhatIsAsked(server, n, nodes, paths, mode);
    AskedTree(server, n, nodes, paths, mode);
    AskedParentsFirst(server, n, nodes, paths, mode);
  }

  /** What a failure leaves of the new directories, on any server. When one is wrong, those before it stay and are exact,
      and every later one that the first exchange made is removed again unless something has been put in it or the
      removal is refused; when instead a look is refused, nothing at all is removed. */
  lemma WhatAFailureLeaves(server: Server, n: nat, nodes: Nodes, paths: seq<Path>, mode: U32)
    requires Distinct(paths)
    ensures var run := EnsureAll(server, n, nodes, paths, mode);
            var (base, asked) := AskAll(server, n, nodes, paths, mode);
            && (run.outcome == Stopped ==> base.Keys <= run.nodes.Keys)
            && (run.outcome == Wrong ==>
                  AllFound(asked)
                  && var k := SettledBefore(server, n + 2 * |paths|, base, paths, asked, mode);
                     k < |paths| && Tidied(server, n + 2 * |paths|, run.next, paths, asked, k, run.nodes, mode))
  {
    hide SettleAll, Tells, Tidied, HalfSettled, AskAll, Created, ParentsFirst, Distinct, SettledBefore;
    var (base, asked) := AskAll(server, n, nodes, paths, mode);
    ReadyToTidy(server, n, nodes, paths, mode);
    if AllFound(asked) {
      var run := SettleAll(server, n + 2 * |paths|, base, paths, asked, mode);
      if run.outcome == Wrong {
        SettleAllTidies(server, n + 2 * |paths|, nodes, base, base, paths, asked, mode);
      } else if run.outcome == Stopped {
        StoppedRemovesNothing(server, n + 2 * |paths|, base, paths, asked, mode);
      }
    }
  }

  // ---------- When a failure leaves nothing ----------

  /** The `mkdir` is answered "no such file". */
  predicate NoParent(server: Server, nodes: Nodes, p: Path, mode: U32) {
    var decided := Policy(server, Mkdir(p, mode));
    Missing(decided) || (decided.None? && p !in nodes && !ParentIsDir(nodes, p))
  }

  /** Asking for a directory adds something to the tree: every `mkdir` on the way up is answered "no such file", until one
      is granted. */
  predicate Touches(server: Server, nodes: Nodes, p: Path, mode: U32)
    decreases |p|
  {
    || (Policy(server, Mkdir(p, mode)).None? && p !in nodes && ParentIsDir(nodes, p))
    || (NoParent(server, nodes, p, mode) && !LookRefused(server, p)
        && ParentOf(p).Some? && Touches(server, nodes, ParentOf(p).value, mode))
  }

  /** Asking for a directory ends with a refused look, at the path itself or at one above it that is asked for too. */
  predicate Stops(server: Server, nodes: Nodes, p: Path, mode: U32)
    decreases |p|
  {
    || LookRefused(server, p)
    || (NoParent(server, nodes, p, mode) && ParentOf(p).Some? && Stops(server, nodes, ParentOf(p).value, mode))
  }

  lemma GrownDiffers(before: Nodes, after: Nodes, p: Path)
    requires Grown(before, after, p)
    ensures after == before || exists q :: q in after && q !in before
  {
    if forall q :: q in after ==> q in before {
      assert after == before;
    }
  }

  /** Not even the second try after making the parent adds anything, when making the parent has added nothing. */
  lemma OnceMoreInVain(server: Server, n: nat, m: nat, nodes: Nodes, p: Path, mode: U32)
    requires Constant(server) && Missing(MkdirIn(server, n, nodes, p, mode).1)
    ensures OnceMore(server, m, nodes, p, mode).nodes == nodes
  {
    hide ParentOf;
  }

  lemma SomethingNewStays(before: Nodes, second: Nodes, third: Nodes, parent: Path, p: Path)
    requires Grown(before, second, parent) && second != before && Grown(second, third, p)
    ensures third != before
  {
    hide AtOrAbove;
    GrownDiffers(before, second, parent);
  }

  lemma TouchesAbove(server: Server, n: nat, nodes: Nodes, p: Path, mode: U32)
    requires Constant(server) && Missing(MkdirIn(server, n, nodes, p, mode).1) && ParentOf(p).Some?
    requires LstatIn(server, n + 1, nodes, p).Ok?
    ensures EnsureIn(server, n, nodes, p, mode).nodes != nodes
       <==> EnsureIn(server, n + 2, nodes, ParentOf(p).value, mode).nodes != nodes
  {
    hide SettleIn, OnceMore, AtOrAbove, Grown, LstatIn, MkdirIn, AttrsOf, Constant;
    var parent := EnsureIn(server, n + 2, nodes, ParentOf(p).value, mode);
    MkdirAddsOne(server, n, nodes, p, mode);
    EnsureDirKeepsItsPromise(server, n + 2, nodes, ParentOf(p).value, mode);
    OnceMoreGrows(server, parent.next, parent.nodes, p, mode);
    OnceMoreInVain(server, n, parent.next, nodes, p, mode);
    GrownAtAll(parent.nodes, OnceMore(server, parent.next, parent.nodes, p, mode), p, mode);
    if parent.nodes != nodes {
      SomethingNewStays(nodes, parent.nodes, OnceMore(server, parent.next, parent.nodes, p, mode).nodes,
                        ParentOf(p).value, p);
    }
  }

  lemma GrownAtAll(before: Nodes, run: Run, p: Path, mode: U32)
    requires GrownByOne(before, run, p, mode)
    ensures Grown(before, run.nodes, p)
  {
  }

  /** What is answered first is what was decided. */
  lemma FirstAnswers(server: Server, n: nat, nodes: Nodes, p: Path, mode: U32)
    requires Constant(server)
    ensures var (first, made) := MkdirIn(server, n, nodes, p, mode);
            && (made.None? <==> Policy(server, Mkdir(p, mode)).None? && p !in nodes && ParentIsDir(nodes, p))
            && (Missing(made) <==> NoParent(server, nodes, p, mode))
            && (made.Some? ==> first == nodes)
            && (LstatIn(server, n + 1, first, p).Ok? <==> !LookRefused(server, p))
  {
    hide AttrsOf;
  }

  lemma NothingTried(server: Server, n: nat, nodes: Nodes, p: Path, mode: U32)
    requires var (first, made) := MkdirIn(server, n, nodes, p, mode);
             Missing(made) && first == nodes && (ParentOf(p).None? || LstatIn(server, n + 1, nodes, p).Err?)
    ensures EnsureIn(server, n, nodes, p, mode).nodes == nodes
  {
    hide SettleIn, OnceMore, MkdirIn, LstatIn;
  }

  lemma TouchesHere(server: Server, nodes: Nodes, p: Path, mode: U32)
    ensures Policy(server, Mkdir(p, mode)).None? && p !in nodes && ParentIsDir(nodes, p) ==>
      Touches(server, nodes, p, mode)
    ensures NoParent(server, nodes, p, mode) ==>
      (Touches(server, nodes, p, mode)
       <==> !LookRefused(server, p) && ParentOf(p).Some? && Touches(server, nodes, ParentOf(p).value, mode))
    ensures !NoParent(server, nodes, p, mode)
            && !(Policy(server, Mkdir(p, mode)).None? && p !in nodes && ParentIsDir(nodes, p)) ==>
      !Touches(server, nodes, p, mode)
  {
    hide ParentOf, LookRefused;
  }

  lemma {:induction false} EnsureInTouches(server: Server, n: nat, nodes: Nodes, p: Path, mode: U32)
    requires Constant(server)
    ensures EnsureIn(server, n, nodes, p, mode).nodes != nodes <==> Touches(server, nodes, p, mode)
    decreases |p|
  {
    hide EnsureIn, Touches, MkdirIn, LstatIn, Constant, NoParent, LookRefused, ParentIsDir;
    var made := MkdirIn(server, n, nodes, p, mode).1;
    FirstAnswers(server, n, nodes, p, mode);
    TouchesHere(server, nodes, p, mode);
    if made.None? {
      MadeStays(server, n, nodes, p, mode);
    } else if !Missing(made) {
      RefusedStays(server, n, nodes, p, mode);
    } else if ParentOf(p).Some? && LstatIn(server, n + 1, nodes, p).Ok? {
      TouchesAbove(server, n, nodes, p, mode);
      EnsureInTouches(server, n + 2, nodes, ParentOf(p).value, mode);
    } else {
      NothingTried(server, n, nodes, p, mode);
    }
  }

  lemma SettleNeverStops(server: Server, n: nat, nodes: Nodes, p: Path, mode: U32, made: Option<Refusal>,
                         found: Option<Attrs>)
    requires Constant(server) && !LookRefused(server, p)
    ensures SettleIn(server, n, nodes, p, mode, made, found).outcome != Stopped
  {
    hide AttrsOf, Directories.KindOf, Permissions;
  }

  lemma OnceMoreNeverStops(server: Server, n: nat, nodes: Nodes, p: Path, mode: U32)
    requires Constant(server) && !LookRefused(server, p)
    ensures OnceMore(server, n, nodes, p, mode).outcome != Stopped
  {
    hide SettleIn, AttrsOf, ParentIsDir;
    var (first, made) := MkdirIn(server, n, nodes, p, mode);
    SettleNeverStops(server, n + 2, first, p, mode, made, LstatIn(server, n + 1, first, p).value);
  }

  /** How one directory ends, taken apart. */
  lemma StopsHere(server: Server, n: nat, nodes: Nodes, p: Path, mode: U32)
    requires Constant(server)
    ensures var stopped := EnsureIn(server, n, nodes, p, mode).outcome == Stopped;
            && (LookRefused(server, p) ==> stopped)
            && (!LookRefused(server, p) && (!NoParent(server, nodes, p, mode) || ParentOf(p).None?) ==> !stopped)
            && (!LookRefused(server, p) && NoParent(server, nodes, p, mode) && ParentOf(p).Some? ==>
                  (stopped <==> EnsureIn(server, n + 2, nodes, ParentOf(p).value, mode).outcome == Stopped))
  {
    hide SettleIn, OnceMore, MkdirIn, LstatIn, Constant, NoParent, LookRefused, ParentIsDir;
    var (first, made) := MkdirIn(server, n, nodes, p, mode);
    FirstAnswers(server, n, nodes, p, mode);
    if !LookRefused(server, p) {
      SettleNeverStops(server, n + 2, first, p, mode, made, LstatIn(server, n + 1, first, p).value);
      if Missing(made) && ParentOf(p).Some? {
        var parent := EnsureIn(server, n + 2, nodes, ParentOf(p).value, mode);
        OnceMoreNeverStops(server, parent.next, parent.nodes, p, mode);
      }
    }
  }

  /** When asking for one directory ends with a refused look. */
  lemma {:induction false} EnsureInStops(server: Server, n: nat, nodes: Nodes, p: Path, mode: U32)
    requires Constant(server)
    ensures EnsureIn(server, n, nodes, p, mode).outcome == Stopped <==> Stops(server, nodes, p, mode)
    decreases |p|
  {
    hide EnsureIn, NoParent, LookRefused, Constant;
    StopsHere(server, n, nodes, p, mode);
    if ParentOf(p).Some? {
      EnsureInStops(server, n + 2, nodes, ParentOf(p).value, mode);
    }
  }

  lemma SettleOneStops(server: Server, n: nat, nodes: Nodes, p: Path, asked: Asked, mode: U32)
    requires Constant(server) && asked.found.Ok? && !LookRefused(server, p)
    ensures SettleOne(server, n, nodes, p, asked, mode).outcome == Stopped
       <==> Missing(asked.made) && Stops(server, nodes, p, mode)
  {
    hide EnsureIn, SettleIn, Stops, LookRefused;
    EnsureInStops(server, n, nodes, p, mode);
    SettleNeverStops(server, n, nodes, p, mode, asked.made, asked.found.value);
  }

  lemma MadeStays(server: Server, n: nat, nodes: Nodes, p: Path, mode: U32)
    requires MkdirIn(server, n, nodes, p, mode).1.None?
    ensures p !in nodes && p in EnsureIn(server, n, nodes, p, mode).nodes
  {
    var first := MkdirIn(server, n, nodes, p, mode).0;
    var look := LstatIn(server, n + 1, first, p);
    if look.Ok? {
      SettleIsExact(server, n + 2, first, p, mode, None, look.value);
    }
    hide SettleIn;
  }

  lemma RefusedStays(server: Server, n: nat, nodes: Nodes, p: Path, mode: U32)
    requires var made := MkdirIn(server, n, nodes, p, mode).1; made.Some? && !Missing(made)
    ensures EnsureIn(server, n, nodes, p, mode).nodes == nodes
  {
    hide LookAgain, AttrsOf;
  }

  /** Everything that was made after this goes again: all of it can be removed or, when nothing is going to be removed,
      there is nothing of it. */
  predicate AllGoes(server: Server, before: Nodes, ours: set<Path>, removes: bool) {
    if removes then forall q :: q in ours ==> Policy(server, Rmdir(q)).None? && !HasChild(before, q) else ours == {}
  }

  /** Up to the first path that is not there already and as it should be; that one was not made, and asking for it again
      adds nothing; and the later ones that were made go again, which they only can if a refused look does not end
      everything. `base` is the tree after the first exchange. */
  predicate LeavesNothing(server: Server, before: Nodes, base: Nodes, paths: seq<Path>, asked: seq<Asked>, mode: U32)
    requires |asked| == |paths|
    decreases |paths|
  {
    && paths != []
    && if paths[0] in before && ExistingIsFine(server, before, paths[0], mode)
       then LeavesNothing(server, before, base, paths[1..], asked[1..], mode)
       else
         && asked[0].made.Some? && (Missing(asked[0].made) ==> !Touches(server, base, paths[0], mode))
         && AllGoes(server, before, Created(paths[1..], asked[1..]),
                    !(Missing(asked[0].made) && Stops(server, base, paths[0], mode)))
  }

  /** The tree while everything settled so far was there already: that of before, and what the first exchange made. */
  ghost predicate Untraced(before: Nodes, base: Nodes, ours: set<Path>) {
    && ours !! before.Keys && base - ours == before
    && (forall q :: q in ours ==> q in base && base[q].Dir?)
  }

  lemma SettleFine(server: Server, n: nat, before: Nodes, base: Nodes, p: Path, asked: Asked, mode: U32, ours: set<Path>)
    requires Constant(server) && AnswerFits(server, before, p, asked, mode) && asked.found.Ok?
    requires Untraced(before, base, ours) && p in before
    ensures var run := SettleOne(server, n, base, p, asked, mode);
            && (run.outcome == Settled <==> ExistingIsFine(server, before, p, mode))
            && (run.outcome == Settled ==> run.nodes == base && asked.made.Some?)
  {
    assert p in base - ours && base[p] == before[p];
    if Missing(asked.made) {
      EnsureExisting(server, n, base, p, mode);
    } else if Policy(server, Lstat(p)).None? {
      SettleExisting(server, n, base, p, mode, asked.made);
    } else {
      NothingFound(server, n, base, p, mode, asked.made);
    }
    hide EnsureIn, SettleIn, AttrsOf;
  }

  /** A path that was not there and is settled is in the tree; and if the first exchange did not make it, asking for it
      has added something. */
  lemma SettledNew(server: Server, n: nat, before: Nodes, base: Nodes, p: Path, asked: Asked, mode: U32)
    requires Constant(server) && AnswerFits(server, before, p, asked, mode) && asked.found.Ok?
    requires p !in before && (p in base <==> asked.made.None?)
    requires SettleOne(server, n, base, p, asked, mode).outcome == Settled
    ensures p in SettleOne(server, n, base, p, asked, mode).nodes
    ensures asked.made.Some? ==> Missing(asked.made) && Touches(server, base, p, mode)
  {
    if Missing(asked.made) {
      EnsureDirKeepsItsPromise(server, n, base, p, mode);
      EnsureInTouches(server, n, base, p, mode);
    } else if asked.made.Some? {
      NothingFound(server, n, base, p, mode, asked.made);
    } else {
      SettleIsExact(server, n, base, p, mode, asked.made, asked.found.value);
    }
    hide EnsureIn, SettleIn, AttrsOf;
  }

  /** Settling a path that the first exchange did not make leaves the tree alone, unless asking for it again adds to it. */
  lemma WrongLeaves(server: Server, n: nat, base: Nodes, p: Path, asked: Asked, mode: U32)
    requires Constant(server) && asked.found.Ok? && asked.made.Some?
    ensures var after := SettleOne(server, n, base, p, asked, mode).nodes;
            && (after == base <==> !(Missing(asked.made) && Touches(server, base, p, mode)))
            && (after == base || exists q :: q in after && q !in base)
  {
    if Missing(asked.made) {
      EnsureInTouches(server, n, base, p, mode);
      EnsureDirKeepsItsPromise(server, n, base, p, mode);
      GrownDiffers(base, EnsureIn(server, n, base, p, mode).nodes, p);
    } else {
      SettleIsExact(server, n, base, p, mode, asked.made, asked.found.value);
      assert SettleIn(server, n, base, p, mode, asked.made, asked.found.value).nodes == base;
    }
    hide EnsureIn, SettleIn, AtOrAbove, Touches;
  }

  lemma InsideBefore(before: Nodes, base: Nodes, ours: set<Path>, c: Path)
    requires Untraced(before, base, ours) && c in base && ParentOf(c).Some?
    ensures c in ours || HasChild(before, ParentOf(c).value)
  {
    assert c in base - ours || c in ours;
  }

  /** After a wrong directory that has left the tree alone, all goes exactly when all can. */
  lemma AllGone(server: Server, n: nat, before: Nodes, base: Nodes, paths: seq<Path>, asked: seq<Asked>)
    requires Constant(server) && Distinct(paths) && |asked| == |paths| && ParentsFirst(paths, asked)
    requires Untraced(before, base, Created(paths, asked))
    ensures RollBack(server, n, base, paths, asked).0 == before <==> AllGoes(server, before, Created(paths, asked), true)
  {
    var ours := Created(paths, asked);
    if AllGoes(server, before, ours, true) {
      forall c | c in base && ParentOf(c).Some? && ParentOf(c).value in ours ensures c in ours {
        InsideBefore(before, base, ours, c);
      }
      RollBackRemovesAll(server, n, base, paths, asked);
    } else {
      var q :| q in ours && (Policy(server, Rmdir(q)).Some? || HasChild(before, q));
      if Policy(server, Rmdir(q)).None? {
        var c :| c in before && ParentOf(c) == Some(q);
        assert c in base - ours;
      }
      RollBackKeeps(server, n, base, paths, asked, q);
    }
    hide RollBack, Created;
  }

  lemma NothingIsOurs(before: Nodes, base: Nodes, ours: set<Path>)
    requires Untraced(before, base, ours)
    ensures base == before <==> ours == {}
  {
    if ours == {} {
      assert base - ours == base;
    } else {
      var q :| q in ours;
      assert q in base && q !in before;
    }
  }

  lemma FailedHere(server: Server, n: nat, before: Nodes, base: Nodes, paths: seq<Path>, asked: seq<Asked>, mode: U32)
    requires Constant(server) && Distinct(paths) && |asked| == |paths| && AllFound(asked) && ParentsFirst(paths, asked)
    requires paths != [] && Untraced(before, base, Created(paths, asked)) && !LookRefused(server, paths[0])
    requires SettleOne(server, n, base, paths[0], asked[0], mode).outcome != Settled
    ensures var removes := !(Missing(asked[0].made) && Stops(server, base, paths[0], mode));
            SettleAll(server, n, base, paths, asked, mode).nodes == before <==>
              && asked[0].made.Some? && (Missing(asked[0].made) ==> !Touches(server, base, paths[0], mode))
              && AllGoes(server, before, Created(paths[1..], asked[1..]), removes)
  {
    hide SettleOne, Touches, Stops, LookRefused, RollBack, ParentOf, Untraced, HasChild;
    SettleOneStops(server, n, base, paths[0], asked[0], mode);
    var run, ours := SettleOne(server, n, base, paths[0], asked[0], mode), Created(paths, asked);
    CreatedApart(paths, asked);
    UntracedMeans(before, base, ours);
    NothingIsOurs(before, base, ours);
    RollBackRemovesOnlyOurs(server, run.next, run.nodes, paths[1..], asked[1..]);
    if asked[0].made.None? {
      OneRemovesNothing(server, n, base, paths[0], asked[0], mode);
    } else {
      assert ours - {paths[0]} == ours;
      WrongLeaves(server, n, base, paths[0], asked[0], mode);
      if run.nodes == base && run.outcome == Wrong {
        AllGone(server, run.next, before, base, paths[1..], asked[1..]);
      }
    }
  }

  lemma UntracedMeans(before: Nodes, base: Nodes, ours: set<Path>)
    requires Untraced(before, base, ours)
    ensures before.Keys <= base.Keys && ours <= base.Keys && ours !! before.Keys
  {
    assert (base - ours).Keys <= base.Keys;
  }

  lemma FitsWhenFound(server: Server, nodes: Nodes, p: Path, asked: Asked, mode: U32)
    requires AnswerFits(server, nodes, p, asked, mode)
    ensures asked.found.Ok? <==> !LookRefused(server, p)
  {
  }

  lemma {:induction false} SettleAllLeavesNothing(
    server: Server, n: nat, before: Nodes, base: Nodes, paths: seq<Path>, asked: seq<Asked>, mode: U32)
    requires Constant(server) && Distinct(paths) && |asked| == |paths| && AllFound(asked) && ParentsFirst(paths, asked)
    requires forall i :: 0 <= i < |paths| ==> AnswerFits(server, before, paths[i], asked[i], mode)
    requires Untraced(before, base, Created(paths, asked))
    requires SettleAll(server, n, base, paths, asked, mode).outcome != Settled
    ensures var run := SettleAll(server, n, base, paths, asked, mode);
            (run.nodes == before <==> LeavesNothing(server, before, base, paths, asked, mode))
    decreases |paths|
  {
    hide SettleOne, Touches, Stops, AllGoes, RollBack, ParentOf, ExistingIsFine, AnswerFits, Created, Untraced,
         LookRefused;
    var p, run := paths[0], SettleOne(server, n, base, paths[0], asked[0], mode);
    CreatedApart(paths, asked);
    assert AnswerFits(server, before, p, asked[0], mode);
    FitsWhenFound(server, before, p, asked[0], mode);
    if p in before {
      SettleFine(server, n, before, base, p, asked[0], mode, Created(paths, asked));
    }
    if run.outcome != Settled {
      FailedHere(server, n, before, base, paths, asked, mode);
    } else if p in before {
      assert Created(paths, asked) - {p} == Created(paths, asked);
      forall i | 0 <= i < |paths[1..]| ensures AnswerFits(server, before, paths[1..][i], asked[1..][i], mode) {
        assert AnswerFits(server, before, paths[i + 1], asked[i + 1], mode);
      }
      SettleAllLeavesNothing(server, run.next, before, base, paths[1..], asked[1..], mode);
    } else {
      SettledIsNoFailure(server, n, before, base, paths, asked, mode);
    }
  }

  lemma SettledIsNoFailure(
    server: Server, n: nat, before: Nodes, base: Nodes, paths: seq<Path>, asked: seq<Asked>, mode: U32)
    requires Constant(server) && Distinct(paths) && |asked| == |paths| && AllFound(asked) && paths != []
    requires AnswerFits(server, before, paths[0], asked[0], mode)
    requires Untraced(before, base, Created(paths, asked)) && paths[0] !in before
    requires SettleOne(server, n, base, paths[0], asked[0], mode).outcome == Settled
    ensures paths[0] in SettleAll(server, n, base, paths, asked, mode).nodes
    ensures asked[0].made.Some? ==> Missing(asked[0].made) && Touches(server, base, paths[0], mode)
  {
    hide SettleOne, Touches, AnswerFits, ParentOf;
    var run := SettleOne(server, n, base, paths[0], asked[0], mode);
    CreatedApart(paths, asked);
    assert paths[0] !in base - Created(paths, asked);
    SettledNew(server, n, before, base, paths[0], asked[0], mode);
    SettleAllKeeps(server, run.next, run.nodes, paths[1..], asked[1..], mode, paths[0]);
  }

  lemma {:induction false} SettleAllKeeps(
    server: Server, n: nat, nodes: Nodes, paths: seq<Path>, asked: seq<Asked>, mode: U32, q: Path)
    requires |asked| == |paths| && AllFound(asked) && q in nodes && q !in Created(paths, asked)
    ensures q in SettleAll(server, n, nodes, paths, asked, mode).nodes
    decreases |paths|
  {
    if paths != [] {
      hide SettleOne;
      var run := SettleOne(server, n, nodes, paths[0], asked[0], mode);
      OneRemovesNothing(server, n, nodes, paths[0], asked[0], mode);
      if run.outcome == Settled {
        SettleAllKeeps(server, run.next, run.nodes, paths[1..], asked[1..], mode, q);
      } else {
        RollBackRemovesOnlyOurs(server, run.next, run.nodes, paths[1..], asked[1..]);
      }
    }
  }

  lemma NothingMade(server: Server, n: nat, nodes: Nodes, paths: seq<Path>, mode: U32)
    ensures var (base, asked) := AskAll(server, n, nodes, paths, mode);
            Untraced(nodes, base, Created(paths, asked))
  {
    AskedTree(server, n, nodes, paths, mode);
    var (base, asked) := AskAll(server, n, nodes, paths, mode);
    assert base - Created(paths, asked) == nodes;
    hide ParentIsDir, AskAll, Created;
  }

  /** After a failure the tree is as it was exactly when the paths before the failing one were there and as they should
      be, it was not made itself and nothing above it was, and what was made after it can be removed. When a look is
      refused nothing is removed, so then nothing may have been made. All of this is settled before the call. */
  lemma AFailureLeavesNothingExactlyWhen(server: Server, n: nat, nodes: Nodes, paths: seq<Path>, mode: U32)
    requires Constant(server) && Distinct(paths) && EnsureAll(server, n, nodes, paths, mode).outcome != Settled
    ensures var (base, asked) := AskAll(server, n, nodes, paths, mode);
            && (EnsureAll(server, n, nodes, paths, mode).nodes == nodes <==>
                  if forall p :: p in paths ==> !LookRefused(server, p)
                  then LeavesNothing(server, nodes, base, paths, asked, mode) else Created(paths, asked) == {})
  {
    hide SettleAll, LeavesNothing, AnswerFits, ParentsFirst, AskAll, Created, Untraced, Distinct, Constant, LookRefused;
    var (base, asked) := AskAll(server, n, nodes, paths, mode);
    AskedFits(server, n, nodes, paths, mode);
    AskedParentsFirst(server, n, nodes, paths, mode);
    NothingMade(server, n, nodes, paths, mode);
    AllFoundWhen(server, nodes, paths, asked, mode);
    if AllFound(asked) {
      SettleAllLeavesNothing(server, n + 2 * |paths|, nodes, base, paths, asked, mode);
    } else {
      NothingIsOurs(nodes, base, Created(paths, asked));
    }
  }

  lemma AllFoundWhen(server: Server, nodes: Nodes, paths: seq<Path>, asked: seq<Asked>, mode: U32)
    requires |asked| == |paths| && forall i :: 0 <= i < |paths| ==> AnswerFits(server, nodes, paths[i], asked[i], mode)
    ensures AllFound(asked) <==> forall p :: p in paths ==> !LookRefused(server, p)
  {
    hide AnswerFits, LookRefused;
    forall i | 0 <= i < |paths| ensures asked[i].found.Ok? <==> !LookRefused(server, paths[i]) {
      FitsWhenFound(server, nodes, paths[i], asked[i], mode);
    }
  }

  // ---------- Why the paths must be distinct, and what failures cost ----------

  function NoRefusal(n: nat, op: Op): Option<Refusal> {
    None
  }

  function RefuseLookAtB(n: nat, op: Op): Option<Refusal> {
    if op == Lstat(B) then Some(Refusal(PERMISSION_DENIED, [])) else None
  }

  function LooseBits(p: Path, mode: U32): Bits {
    0x1FF
  }

  function AskedBits(p: Path, mode: U32): Bits {
    mode % 0x1000
  }

  function NoHandle(n: nat): Bytes {
    []
  }

  function NoBatch(n: nat, handle: Bytes): Option<seq<NameEntry>> {
    None
  }

  const A: Path := [47, 97] // "/a"
  const B: Path := [47, 98] // "/b"
  const AB: Path := [47, 97, 47, 98] // "/a/b"
  const PRIVATE: U32 := 0x1C0 // 0700
  const ONLY_ROOT: Nodes := map[ROOT := Dir(0x1ED)]

  lemma SmallPaths()
    ensures ParentOf(A) == Some(ROOT) && ParentOf(B) == Some(ROOT) && ParentOf(AB) == Some(A)
    ensures A != B && AB != A && A != ROOT && B != ROOT && AB != ROOT && AB != B
  {
    assert LastSlash(A) == Some(0) by {
      assert A[..1] == [47];
    }
    assert LastSlash(B) == Some(0) by {
      assert B[..1] == [47];
    }
    assert LastSlash(AB) == Some(2) by {
      assert AB[..3][2] == 47;
    }
    assert AB[..2] == A;
    assert |A| == 2 && |AB| == 4 && |ROOT| == 1 && A[1] != B[1];
  }

  lemma AskHead(server: Server, n: nat, nodes: Nodes, p: Path, rest: seq<Path>, mode: U32)
    ensures var (after, made) := MkdirIn(server, n, nodes, p, mode);
            var (final, asked) := AskAll(server, n + 2, after, rest, mode);
            AskAll(server, n, nodes, [p] + rest, mode) == (final, [Asked(made, LstatIn(server, n + 1, after, p))] + asked)
  {
    assert ([p] + rest)[1..] == rest;
  }

  lemma EnsureHead(server: Server, n: nat, nodes: Nodes, p: Path, rest: seq<Path>, mode: U32)
    requires Constant(server) && CanEnsure(server, nodes, p, mode)
    ensures var run := EnsureIn(server, n, nodes, p, mode);
            && run.nodes == Made(server, nodes, p, mode)
            && EnsureEach(server, n, nodes, [p] + rest, mode) == EnsureEach(server, run.next, run.nodes, rest, mode)
  {
    hide EnsureIn;
    EnsureInDecides(server, n, nodes, p, mode);
    assert ([p] + rest)[1..] == rest;
  }

  /** With a path listed twice, on a server that does not heed the mode of a `mkdir`, the pipelined run fails where the
      one-at-a-time run would not: the second mention makes the directory before the first is settled. */
  lemma ListedTwice()
    ensures var server := Server(NoRefusal, LooseBits, LooseBits, AskedBits, NoHandle, NoBatch);
            && Constant(server)
            && EnsureEach(server, 0, ONLY_ROOT, [AB, A, AB], PRIVATE).outcome == Settled
            && EnsureAll(server, 0, ONLY_ROOT, [AB, A, AB], PRIVATE).outcome != Settled
  {
    var server := Server(NoRefusal, LooseBits, LooseBits, AskedBits, NoHandle, NoBatch);
    var paths := [AB, A, AB];
    SmallPaths();
    hide ParentOf, LastSlash, EnsureIn, SettleIn;
    var raw := ONLY_ROOT[A := Dir(0x1FF)];
    var (after, asked) := AskAll(server, 0, ONLY_ROOT, paths, PRIVATE);
    assert paths == [AB] + ([A] + ([AB] + []));
    AskHead(server, 0, ONLY_ROOT, AB, [A] + ([AB] + []), PRIVATE);
    AskHead(server, 2, ONLY_ROOT, A, [AB] + [], PRIVATE);
    AskHead(server, 4, raw, AB, [], PRIVATE);
    assert after == raw[AB := Dir(0x1FF)];
    assert Missing(asked[0].made);
    EnsureInDecides(server, 6, after, AB, PRIVATE);
    assert !CanEnsure(server, after, AB, PRIVATE);
    OneAtATime(server);
  }

  lemma OneAtATime(server: Server)
    requires server == Server(NoRefusal, LooseBits, LooseBits, AskedBits, NoHandle, NoBatch)
    ensures EnsureEach(server, 0, ONLY_ROOT, [AB, A, AB], PRIVATE).outcome == Settled
  {
    SmallPaths();
    hide ParentOf, LastSlash, EnsureIn, SettleIn;
    assert [AB, A, AB] == [AB] + ([A] + ([AB] + []));
    var made := Made(server, ONLY_ROOT, AB, PRIVATE);
    assert CanEnsure(server, ONLY_ROOT, A, PRIVATE);
    assert made == ONLY_ROOT[A := Dir(PRIVATE)][AB := Dir(PRIVATE)];
    EnsureHead(server, 0, ONLY_ROOT, AB, [A] + ([AB] + []), PRIVATE);
    var second := EnsureIn(server, 0, ONLY_ROOT, AB, PRIVATE).next;
    EnsureHead(server, second, made, A, [AB] + [], PRIVATE);
    EnsureHead(server, EnsureIn(server, second, made, A, PRIVATE).next, made, AB, [], PRIVATE);
  }

  /** When a look is refused, what the first exchange made stays: here both directories survive the failure. */
  lemma ARefusedLookLeavesDirectories()
    ensures var server := Server(RefuseLookAtB, AskedBits, AskedBits, AskedBits, NoHandle, NoBatch);
            && Constant(server)
            && EnsureAll(server, 0, ONLY_ROOT, [A, B], PRIVATE)
               == Run(ONLY_ROOT[A := Dir(PRIVATE)][B := Dir(PRIVATE)], Stopped, 4)
  {
    var server := Server(RefuseLookAtB, AskedBits, AskedBits, AskedBits, NoHandle, NoBatch);
    SmallPaths();
    hide ParentOf, LastSlash, SettleAll;
    var paths := [A, B];
    assert paths == [A] + ([B] + []);
    AskHead(server, 0, ONLY_ROOT, A, [B] + [], PRIVATE);
    AskHead(server, 2, ONLY_ROOT[A := Dir(PRIVATE)], B, [], PRIVATE);
    var (after, asked) := AskAll(server, 0, ONLY_ROOT, paths, PRIVATE);
    assert asked[1].found.Err?;
  }

  /** A directory made before the wrong one stays, even though it was not there before and nothing was refused. */
  lemma AnEarlierDirectoryStays()
    ensures var server := Server(NoRefusal, AskedBits, AskedBits, AskedBits, NoHandle, NoBatch);
            var start := ONLY_ROOT[B := Dir(0x1FF)];
            && Constant(server)
            && EnsureAll(server, 0, start, [A, B], PRIVATE) == Run(start[A := Dir(PRIVATE)], Wrong, 5)
  {
    var server := Server(NoRefusal, AskedBits, AskedBits, AskedBits, NoHandle, NoBatch);
    var start := ONLY_ROOT[B := Dir(0x1FF)];
    var final := start[A := Dir(PRIVATE)];
    SmallPaths();
    hide ParentOf, LastSlash, HasChild;
    var paths := [A, B];
    assert paths == [A] + ([B] + []);
    AskHead(server, 0, start, A, [B] + [], PRIVATE);
    AskHead(server, 2, final, B, [], PRIVATE);
    var (after, asked) := AskAll(server, 0, start, paths, PRIVATE);
    assert after == final;
    AttrsReadBack(Dir(PRIVATE));
    AttrsReadBack(Dir(0x1FF));
    hide AttrsOf, Directories.KindOf, Permissions;
    assert SettleOne(server, 4, final, A, asked[0], PRIVATE) == Run(final, Settled, 4);
    assert SettleOne(server, 4, final, B, asked[1], PRIVATE) == Run(final, Wrong, 5);
    assert paths[1..] == [B] && [B][1..] == [] && asked[1..][1..] == [] && asked[1..][0] == asked[1];
    assert SettleAll(server, 4, final, [B], asked[1..], PRIVATE) == Run(final, Wrong, 5);
  }
}

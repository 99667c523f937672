/** The fixed-window request counter of `clift-relayd/src/ratelimit.rs` and its twin in the Worker.
    Instants are whole ticks of a monotonic clock; sixty seconds are `WINDOW` ticks. */
module RateLimiting {

  const WINDOW: nat := 60_000
  const SWEEP_ABOVE: nat := 10_000

  datatype Window = Window(started: int, count: nat)

  type Windows<A(==)> = map<A, Window>

  function Sweep<A>(windows: Windows<A>, now: int): Windows<A> {
    map address | address in windows && now - windows[address].started < WINDOW :: windows[address]
  }

  /** The window a request at `now` counts in, before it is counted. */
  function Current<A>(windows: Windows<A>, address: A, now: int): Window {
    if address in windows && now - windows[address].started < WINDOW then windows[address] else Window(now, 0)
  }

  function Count(window: Window): Window {
    window.(count := window.count + 1)
  }

  /** One request: the table afterwards and whether the request was within the limit. */
  function Admit<A>(windows: Windows<A>, perMinute: nat, address: A, now: int): (Windows<A>, bool) {
    if perMinute == 0 then (windows, true) else
      var swept := if |windows| > SWEEP_ABOVE then Sweep(windows, now) else windows;
      var window := Count(Current(swept, address, now));
      (swept[address := window], window.count <= perMinute)
  }

  class RateLimiter<A(==)> {
    const perMinute: nat
    var windows: Windows<A>

    constructor (perMinute: nat)
      ensures this.perMinute == perMinute && windows == map[]
    {
      this.perMinute := perMinute;
      windows := map[];
    }

    method Allow(address: A, now: int) returns (allowed: bool)
      modifies this
      ensures (windows, allowed) == Admit(old(windows), perMinute, address, now)
    {
      if perMinute == 0 {
        return true;
      }
      if |windows| > SWEEP_ABOVE {
        windows := map known | known in windows && now - windows[known].started < WINDOW :: windows[known];
      }
      var window := if address in windows then windows[address] else Window(now, 0);
      if now - window.started >= WINDOW {
        window := Window(now, 0);
      }
      window := window.(count := window.count + 1);
      windows := windows[address := window];
      allowed := window.count <= perMinute;
    }
  }

  /** The Worker's version, which replaces a stale window instead of resetting it. */
  class WorkerLimiter<A(==)> {
    var windows: Windows<A>

    method Allow(source: A, perMinute: nat, now: int) returns (allowed: bool)
      modifies this
      ensures (windows, allowed) == Admit(old(windows), perMinute, source, now)
    {
      if perMinute == 0 {
        return true;
      }
      if |windows| > SWEEP_ABOVE {
        ghost var before := windows;
        var left := windows.Keys;
        while left != {}
          invariant left <= before.Keys && windows.Keys <= before.Keys
          invariant forall a :: a in windows ==> windows[a] == before[a]
          invariant forall a :: a in before && a !in windows ==> now - before[a].started >= WINDOW
          invariant forall a :: a in windows && a !in left ==> now - before[a].started < WINDOW
          invariant left <= windows.Keys
          decreases left
        {
          var key :| key in left;
          if now - windows[key].started >= WINDOW {
            windows := windows - {key};
          }
          left := left - {key};
        }
        assert windows == Sweep(before, now);
      }
      var expired := source !in windows || now - windows[source].started >= WINDOW;
      var window := if expired then Window(now, 0) else windows[source];
      window := window.(count := window.count + 1);
      windows := windows[source := window];
      allowed := window.count <= perMinute;
    }
  }

  // ---------- Whole traces of requests ----------

  datatype Request<A> = Request(address: A, at: int)

  ghost predicate NonDecreasing<A>(trace: seq<Request<A>>) {
    forall i, j :: 0 <= i < j < |trace| ==> trace[i].at <= trace[j].at
  }

  /** The table after a trace, starting from an empty one. */
  function Table<A>(trace: seq<Request<A>>, perMinute: nat): Windows<A> {
    if trace == [] then map[] else
      var last := trace[|trace| - 1];
      Admit(Table(trace[..|trace| - 1], perMinute), perMinute, last.address, last.at).0
  }

  /** Whether request `i` of a trace is allowed. */
  predicate Decision<A(==)>(trace: seq<Request<A>>, perMinute: nat, i: nat)
    requires i < |trace|
  {
    Admit(Table(trace[..i], perMinute), perMinute, trace[i].address, trace[i].at).1
  }

  /** A limiter that never forgets a window: what the table would be without sweeping. */
  function KeepingAdmit<A>(windows: Windows<A>, perMinute: nat, address: A, now: int): (Windows<A>, bool) {
    if perMinute == 0 then (windows, true) else
      var window := Count(Current(windows, address, now));
      (windows[address := window], window.count <= perMinute)
  }

  function KeepingTable<A>(trace: seq<Request<A>>, perMinute: nat): Windows<A> {
    if trace == [] then map[] else
      var last := trace[|trace| - 1];
      KeepingAdmit(KeepingTable(trace[..|trace| - 1], perMinute), perMinute, last.address, last.at).0
  }

  predicate KeepingDecision<A(==)>(trace: seq<Request<A>>, perMinute: nat, i: nat)
    requires i < |trace|
  {
    KeepingAdmit(KeepingTable(trace[..i], perMinute), perMinute, trace[i].address, trace[i].at).1
  }

  /** What the two tables share: the same window wherever one is still running at `now`. */
  ghost predicate SameRunning<A(!new)>(swept: Windows<A>, kept: Windows<A>, now: int) {
    forall address, at :: at >= now ==> Current(swept, address, at) == Current(kept, address, at)
  }

  lemma SweepKeepsRunning<A(!new)>(windows: Windows<A>, now: int)
    ensures SameRunning(Sweep(windows, now), windows, now)
  {
  }

  lemma {:induction false} TablesAgree<A(!new)>(trace: seq<Request<A>>, perMinute: nat, now: int)
    requires NonDecreasing(trace)
    requires trace != [] ==> trace[|trace| - 1].at <= now
    ensures SameRunning(Table(trace, perMinute), KeepingTable(trace, perMinute), now)
  {
    if trace != [] && perMinute > 0 {
      var n := |trace| - 1;
      var last := trace[n];
      TablesAgree(trace[..n], perMinute, last.at);
      var windows := Table(trace[..n], perMinute);
      SweepKeepsRunning(windows, last.at);
      var swept := if |windows| > SWEEP_ABOVE then Sweep(windows, last.at) else windows;
      var kept := KeepingTable(trace[..n], perMinute);
      assert Current(swept, last.address, last.at) == Current(kept, last.address, last.at);
      var window := Count(Current(swept, last.address, last.at));
      assert Table(trace, perMinute) == swept[last.address := window];
      assert KeepingTable(trace, perMinute) == kept[last.address := window];
      forall address, at | at >= now
        ensures Current(Table(trace, perMinute), address, at) == Current(KeepingTable(trace, perMinute), address, at)
      {
        assert Current(swept, address, at) == Current(kept, address, at);
      }
    } else if trace != [] {
      TablesAgree(trace[..|trace| - 1], perMinute, trace[|trace| - 1].at);
    }
  }

  /** Sweeping never changes a decision. */
  lemma SweepingIsInvisible<A(!new)>(trace: seq<Request<A>>, perMinute: nat, i: nat)
    requires NonDecreasing(trace) && i < |trace|
    ensures Decision(trace, perMinute, i) <==> KeepingDecision(trace, perMinute, i)
  {
    TablesAgree(trace[..i], perMinute, trace[i].at);
    var windows := Table(trace[..i], perMinute);
    SweepKeepsRunning(windows, trace[i].at);
  }

  // ---------- How much one address gets through ----------

  /** Requests from `address` at instants in `[from, to)` that were allowed. */
  function Admitted<A(==)>(trace: seq<Request<A>>, perMinute: nat, address: A, from: int, to: int): nat {
    if trace == [] then 0 else
      var n := |trace| - 1;
      Admitted(trace[..n], perMinute, address, from, to)
      + if trace[n].address == address && from <= trace[n].at < to && Decision(trace, perMinute, n) then 1 else 0
  }

  lemma {:induction false} AdmittedSplits<A>(
    trace: seq<Request<A>>, perMinute: nat, address: A, from: int, mid: int, to: int)
    requires from <= mid <= to
    ensures Admitted(trace, perMinute, address, from, to)
         == Admitted(trace, perMinute, address, from, mid) + Admitted(trace, perMinute, address, mid, to)
  {
    if trace != [] {
      AdmittedSplits(trace[..|trace| - 1], perMinute, address, from, mid, to);
    }
  }

  /** Nothing is admitted outside the window the table ends with, except before it. */
  lemma {:induction false} LastWindowIsLast<A(!new)>(trace: seq<Request<A>>, perMinute: nat, address: A, from: int, to: int)
    requires NonDecreasing(trace) && perMinute > 0
    ensures var kept := KeepingTable(trace, perMinute);
            && (address in kept ==> trace != [] && kept[address].started <= trace[|trace| - 1].at)
            && (address !in kept || from >= kept[address].started + WINDOW
                ==> Admitted(trace, perMinute, address, from, to) == 0)
  {
    if trace != [] {
      LastWindowIsLast(trace[..|trace| - 1], perMinute, address, from, to);
    }
  }

  /** The last window admitted no more than it counted, and no more than the limit. */
  lemma {:induction false} LastWindowIsLimited<A(!new)>(trace: seq<Request<A>>, perMinute: nat, address: A, to: int)
    requires NonDecreasing(trace) && perMinute > 0
    requires address in KeepingTable(trace, perMinute)
    ensures var window := KeepingTable(trace, perMinute)[address];
            Admitted(trace, perMinute, address, window.started, to) <= window.count
    ensures var window := KeepingTable(trace, perMinute)[address];
            Admitted(trace, perMinute, address, window.started, to) <= perMinute
  {
    var n := |trace| - 1;
    var before := KeepingTable(trace[..n], perMinute);
    SweepingIsInvisible(trace, perMinute, n);
    var started := KeepingTable(trace, perMinute)[address].started;
    LastWindowIsLast(trace[..n], perMinute, address, started, to);
    if address in before {
      LastWindowIsLimited(trace[..n], perMinute, address, to);
    }
  }

  /** The request that opened the last window was admitted, at the instant the window began. */
  lemma {:induction false} OpeningRequest<A(!new)>(trace: seq<Request<A>>, perMinute: nat, address: A)
    requires NonDecreasing(trace) && perMinute > 0
    requires address in KeepingTable(trace, perMinute)
    ensures var started := KeepingTable(trace, perMinute)[address].started;
            Admitted(trace, perMinute, address, started, started + 1) >= 1
  {
    var n := |trace| - 1;
    var before := KeepingTable(trace[..n], perMinute);
    SweepingIsInvisible(trace, perMinute, n);
    if address in before {
      OpeningRequest(trace[..n], perMinute, address);
    }
  }

  /** Less than a window before the last window began, only one other window can have been running. */
  lemma {:induction false} OneWindowBefore<A(!new)>(trace: seq<Request<A>>, perMinute: nat, address: A, from: int, to: int)
    requires NonDecreasing(trace) && perMinute > 0
    requires address in KeepingTable(trace, perMinute)
    requires KeepingTable(trace, perMinute)[address].started - WINDOW < from <= to
    requires to <= KeepingTable(trace, perMinute)[address].started
    ensures Admitted(trace, perMinute, address, from, to) <= perMinute - 1
  {
    var n := |trace| - 1;
    var before := KeepingTable(trace[..n], perMinute);
    LastWindowIsLast(trace, perMinute, address, from, to);
    LastWindowIsLast(trace[..n], perMinute, address, from, to);
    if address in before {
      if before[address].started == KeepingTable(trace, perMinute)[address].started {
        OneWindowBefore(trace[..n], perMinute, address, from, to);
      } else {
        var started := before[address].started;
        LastWindowIsLimited(trace[..n], perMinute, address, to);
        OpeningRequest(trace[..n], perMinute, address);
        AdmittedSplits(trace[..n], perMinute, address, started, from, to);
        AdmittedSplits(trace[..n], perMinute, address, started, started + 1, from);
      }
    }
  }

  /** Any sixty seconds admit fewer than twice the limit, however the requests fall around a window's edge. */
  lemma {:induction false} AnyMinuteAdmitsLessThanTwice<A(!new)>(
    trace: seq<Request<A>>, perMinute: nat, address: A, from: int)
    requires NonDecreasing(trace) && perMinute > 0
    ensures Admitted(trace, perMinute, address, from, from + WINDOW) <= 2 * perMinute - 1
  {
    var to := from + WINDOW;
    LastWindowIsLast(trace, perMinute, address, from, to);
    var kept := KeepingTable(trace, perMinute);
    if address in kept {
      var started := kept[address].started;
      LastWindowIsLimited(trace, perMinute, address, to);
      if started <= from {
        AdmittedSplits(trace, perMinute, address, started, from, to);
      } else if started < to {
        OneWindowBefore(trace, perMinute, address, from, started);
        AdmittedSplits(trace, perMinute, address, from, started, to);
      } else {
        AnyMinuteAdmitsLessThanTwice(trace[..|trace| - 1], perMinute, address, from);
      }
    }
  }

  /** One request opens a window, others fill it at its very end, and as many as are allowed follow in the next. */
  function AtTheEdge(perMinute: nat, i: nat): int {
    if i == 0 then 0 else if i < perMinute then WINDOW - 1 else WINDOW
  }

  function EdgeTrace<A>(address: A, perMinute: nat, count: nat): seq<Request<A>> {
    seq(count, i requires 0 <= i < count => Request(address, AtTheEdge(perMinute, i)))
  }

  function EdgeTable<A>(address: A, perMinute: nat, count: nat): Windows<A> {
    if count == 0 then map[]
    else map[address := if count <= perMinute then Window(0, count) else Window(WINDOW, count - perMinute)]
  }

  lemma OneMoreAtTheEdge<A>(address: A, perMinute: nat, count: nat)
    requires count < 2 * perMinute
    ensures Admit(EdgeTable(address, perMinute, count), perMinute, address, AtTheEdge(perMinute, count))
         == (EdgeTable(address, perMinute, count + 1), true)
  {
    var before, after := EdgeTable(address, perMinute, count), EdgeTable(address, perMinute, count + 1);
    assert before.Keys <= {address} && |before.Keys| <= 1;
    assert before[address := after[address]] == after;
  }

  lemma LastRequest<A>(trace: seq<Request<A>>, perMinute: nat, address: A, from: int, to: int)
    requires trace != []
    ensures var n := |trace| - 1;
            var (windows, allowed) := Admit(Table(trace[..n], perMinute), perMinute, trace[n].address, trace[n].at);
            && Table(trace, perMinute) == windows
            && Admitted(trace, perMinute, address, from, to)
               == Admitted(trace[..n], perMinute, address, from, to)
                  + if trace[n].address == address && from <= trace[n].at < to && allowed then 1 else 0
  {
    hide Admit;
  }

  lemma LastAtTheEdge<A>(address: A, perMinute: nat, count: nat)
    requires 0 < count <= 2 * perMinute
    ensures var trace, at := EdgeTrace(address, perMinute, count), AtTheEdge(perMinute, count - 1);
            && |trace| == count && trace[..count - 1] == EdgeTrace(address, perMinute, count - 1)
            && trace[count - 1] == Request(address, at) && (if count == 1 then at == 0 else 1 <= at < 1 + WINDOW)
  {
  }

  lemma {:induction false} EveryOneIsAdmitted<A(!new)>(address: A, perMinute: nat, count: nat)
    requires 0 < perMinute && count <= 2 * perMinute
    ensures var trace := EdgeTrace(address, perMinute, count);
            && Table(trace, perMinute) == EdgeTable(address, perMinute, count)
            && Admitted(trace, perMinute, address, 1, 1 + WINDOW) == if count == 0 then 0 else count - 1
  {
    if count == 0 {
      assert EdgeTrace(address, perMinute, 0) == [];
    } else {
      hide Admit, EdgeTable, EdgeTrace, AtTheEdge, Table, Admitted;
      EveryOneIsAdmitted(address, perMinute, count - 1);
      OneMoreAtTheEdge(address, perMinute, count - 1);
      LastAtTheEdge(address, perMinute, count);
      LastRequest(EdgeTrace(address, perMinute, count), perMinute, address, 1, 1 + WINDOW);
    }
  }

  /** For every limit there is a trace that reaches the bound. */
  lemma TheBoundIsReached<A(!new)>(address: A, perMinute: nat)
    requires perMinute > 0
    ensures var trace := EdgeTrace(address, perMinute, 2 * perMinute);
            NonDecreasing(trace) && Admitted(trace, perMinute, address, 1, 1 + WINDOW) == 2 * perMinute - 1
  {
    EveryOneIsAdmitted(address, perMinute, 2 * perMinute);
  }
}

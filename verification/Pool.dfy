/** The sessions a runner keeps between operations (`SshRunner` in `clift-transport/src/proc.rs`): one per host, replaced
    when it has gone away or idled too long, and checked when it has been quiet. Instants are whole ticks of one clock
    that never goes back. What a session does while it is used, and what happens to it between uses, is up to the
    environment. */
module Pool {
  import opened Prelude

  type Host = string
  type SessionId = nat

  /** What `is_usable` looks at. */
  datatype Health = Health(broken: bool, exited: bool)

  predicate Usable(health: Health) {
    !health.broken && !health.exited
  }

  /** Sessions may break or exit, and none recovers. */
  ghost predicate NoneRecovers(before: seq<Health>, after: seq<Health>) {
    |after| == |before|
    && forall i :: 0 <= i < |before| ==>
         (before[i].broken ==> after[i].broken) && (before[i].exited ==> after[i].exited)
  }

  lemma SameSessions(before: seq<Health>, after: seq<Health>)
    ensures NoneRecovers(before, before)
    ensures NoneRecovers(before, after) ==> |after| == |before|
  {
  }

  lemma StillNoneRecovers(first: seq<Health>, second: seq<Health>, third: seq<Health>)
    requires NoneRecovers(first, second) && NoneRecovers(second, third)
    ensures NoneRecovers(first, third)
  {
  }

  datatype Kept = Kept(session: SessionId, lastUsed: nat, lastChecked: nat)

  datatype Outcome = Finished | Refused | Broken | NotOpened

  /** What an action does to the session it is given. It may swallow a breakage, but it cannot report one that did not
      happen. */
  datatype Action = Action(took: nat, breaks: bool, outcome: Outcome)

  predicate IsHonest(action: Action) {
    && action.outcome != NotOpened
    && (action.outcome == Broken ==> action.breaks)
  }

  /** An operation was started on a session, which then was in this health and had been idle for this long. */
  datatype Started = Started(host: Host, session: SessionId, health: Health, idle: nat)

  predicate Expired(limit: Option<nat>, idle: nat) {
    limit.Some? && idle >= limit.value
  }

  /** Each host has a session of its own, used no later than it was last checked. */
  ghost predicate InOrder(open: map<Host, Kept>, count: nat, clock: nat) {
    && (forall h :: h in open ==> open[h].session < count && open[h].lastUsed <= open[h].lastChecked <= clock)
    && (forall h, g :: h in open && g in open && open[h].session == open[g].session ==> h == g)
  }

  /** No operation was ever started on a session that had gone away or, unless it was just opened, idled past the
      limit. */
  ghost predicate AllFit(started: seq<Started>, limit: Option<nat>, count: nat) {
    forall i :: 0 <= i < |started| ==>
      && Usable(started[i].health) && started[i].session < count
      && (started[i].idle == 0 || !Expired(limit, started[i].idle))
  }

  /** No session ever served two hosts. */
  ghost predicate OneHostEach(started: seq<Started>, open: map<Host, Kept>) {
    && (forall i, j :: 0 <= i < j < |started| && started[i].session == started[j].session ==>
          started[i].host == started[j].host)
    && (forall i, h :: 0 <= i < |started| && h in open && open[h].session == started[i].session ==> started[i].host == h)
  }

  /** The host's kept session, if it has one, has neither gone away nor idled too long. */
  predicate Reusable(open: map<Host, Kept>, host: Host, limit: Option<nat>, sessions: seq<Health>, clock: nat) {
    && host in open && open[host].session < |sessions| && open[host].lastUsed <= clock
    && !Expired(limit, clock - open[host].lastUsed) && Usable(sessions[open[host].session])
  }

  lemma KeptIsKnown(open: map<Host, Kept>, host: Host, count: nat, clock: nat)
    requires InOrder(open, count, clock) && host in open
    ensures open[host].session < count && open[host].lastUsed <= open[host].lastChecked <= clock
  {
  }

  lemma AllKnown(open: map<Host, Kept>, count: nat, clock: nat)
    requires InOrder(open, count, clock)
    ensures forall h :: h in open ==> open[h].session < count && open[h].lastUsed <= open[h].lastChecked <= clock
  {
  }

  lemma NewSessionKept(open: map<Host, Kept>, started: seq<Started>, limit: Option<nat>, host: Host, count: nat, clock: nat)
    requires InOrder(open, count, clock) && AllFit(started, limit, count) && OneHostEach(started, open)
    ensures var more := open[host := Kept(count, clock, clock)];
            InOrder(more, count + 1, clock) && AllFit(started, limit, count + 1) && OneHostEach(started, more)
  {
  }

  lemma StartedOnKept(open: map<Host, Kept>, started: seq<Started>, limit: Option<nat>, more: Started, count: nat,
                      clock: nat, later: nat)
    requires InOrder(open, count, clock) && AllFit(started, limit, count) && OneHostEach(started, open)
    requires more.host in open && open[more.host].session == more.session && clock <= later
    requires Usable(more.health) && (more.idle == 0 || !Expired(limit, more.idle))
    ensures var after := open[more.host := Kept(more.session, later, later)];
            InOrder(after, count, later) && AllFit(started + [more], limit, count) && OneHostEach(started + [more], after)
  {
  }

  lemma StartedOnItsOwn(started: seq<Started>, limit: Option<nat>, more: Started, count: nat)
    requires AllFit(started, limit, count) && OneHostEach(started, map[])
    requires more.session == count && Usable(more.health) && more.idle == 0
    ensures AllFit(started + [more], limit, count + 1) && OneHostEach(started + [more], map[])
  {
  }

  lemma FewerOpen(open: map<Host, Kept>, fewer: map<Host, Kept>, started: seq<Started>, count: nat, clock: nat)
    requires InOrder(open, count, clock) && OneHostEach(started, open)
    requires fewer.Keys <= open.Keys
    requires forall h :: h in fewer ==> fewer[h].session == open[h].session
    requires forall h :: h in fewer ==> fewer[h].lastUsed <= fewer[h].lastChecked <= clock
    ensures InOrder(fewer, count, clock) && OneHostEach(started, fewer)
  {
  }

  lemma Later(open: map<Host, Kept>, count: nat, clock: nat, later: nat)
    requires InOrder(open, count, clock) && clock <= later
    ensures InOrder(open, count, later)
  {
  }

  datatype Remembered = Remembered(cacheHome: Option<string>, lastUsed: nat)

  class SshRunner {
    const keeps: bool
    const idleLimit: Option<nat>
    const quietBeforeCheck: nat

    var open: map<Host, Kept>
    var cacheHomes: map<Host, Remembered>

    // The environment: the clock, and every session ever opened.
    var clock: nat
    var sessions: seq<Health>

    ghost var started: seq<Started>

    ghost predicate Valid()
      reads this
    {
      && (!keeps ==> open == map[])
      && InOrder(open, |sessions|, clock)
      && AllFit(started, idleLimit, |sessions|)
      && OneHostEach(started, open)
      && forall h :: h in cacheHomes ==> cacheHomes[h].lastUsed <= clock
    }

    constructor (keeps: bool, idleLimit: Option<nat>, quietBeforeCheck: nat)
      ensures Valid() && open == map[] && started == []
      ensures this.keeps == keeps && this.idleLimit == idleLimit && this.quietBeforeCheck == quietBeforeCheck
    {
      this.keeps, this.idleLimit, this.quietBeforeCheck := keeps, idleLimit, quietBeforeCheck;
      open, cacheHomes, clock, sessions, started := map[], map[], 0, [], [];
    }

    /** Time passes, and any of the sessions may break or exit meanwhile. */
    method Elapse(ticks: nat, after: seq<Health>)
      requires Valid() && NoneRecovers(sessions, after)
      modifies this`clock, this`sessions
      ensures Valid() && clock == old(clock) + ticks && sessions == after
    {
      clock := clock + ticks;
      sessions := after;
    }

    method OpenSession(opens: bool) returns (session: Option<SessionId>)
      modifies this`sessions
      ensures opens ==> session == Some(|old(sessions)|) && sessions == old(sessions) + [Health(false, false)]
      ensures !opens ==> session == None && sessions == old(sessions)
    {
      if !opens {
        return None;
      }
      session := Some(|sessions|);
      sessions := sessions + [Health(false, false)];
    }

    /** Any of the sessions may break or exit at any moment, whatever the runner is doing. */
    method Drift()
      modifies this`sessions
      ensures NoneRecovers(old(sessions), sessions)
    {
      var i := 0;
      while i < |sessions|
        invariant NoneRecovers(old(sessions), sessions)
        invariant i <= |sessions|
      {
        var breaks: bool, exits: bool := *, *;
        sessions := sessions[i := Health(sessions[i].broken || breaks, sessions[i].exited || exits)];
        i := i + 1;
      }
    }

    /** Starts the action on a session and lets it run. */
    method Perform(host: Host, session: SessionId, idle: nat, action: Action)
      requires session < |sessions|
      modifies this`clock, this`sessions, this`started
      ensures clock == old(clock) + action.took
      ensures NoneRecovers(old(sessions), sessions) && (action.breaks ==> sessions[session].broken)
      ensures started == old(started) + [Started(host, session, old(sessions)[session], idle)]
    {
      started := started + [Started(host, session, sessions[session], idle)];
      clock := clock + action.took;
      sessions := sessions[session := sessions[session].(broken := sessions[session].broken || action.breaks)];
      Drift();
    }

    /** The host's kept session, replaced first if there is none or it is no longer good. */
    method Acquire(host: Host, opens: bool) returns (kept: Option<Kept>)
      requires Valid() && keeps
      modifies this`sessions, this`open
      ensures Valid()
      ensures kept.Some? ==>
        && host in open && open[host] == kept.value && kept.value.session < |sessions| && kept.value.lastUsed <= clock
        && Usable(sessions[kept.value.session])
        && (clock == kept.value.lastUsed || !Expired(idleLimit, clock - kept.value.lastUsed))
      ensures var reuses := Reusable(old(open), host, idleLimit, old(sessions), clock);
        && (kept.None? <==> !reuses && !opens)
        && (if reuses || kept.None? then open == old(open) && sessions == old(sessions)
            else open == old(open)[host := Kept(|old(sessions)|, clock, clock)]
                 && sessions == old(sessions) + [Health(false, false)])
    {
      hide InOrder, AllFit, OneHostEach;
      ghost var n := |sessions|;
      if host in open {
        KeptIsKnown(open, host, n, clock);
      }
      if host !in open || Expired(idleLimit, clock - open[host].lastUsed) || !Usable(sessions[open[host].session]) {
        var replacement := OpenSession(opens);
        if replacement == None {
          return None;
        }
        NewSessionKept(open, started, idleLimit, host, n, clock);
        open := open[host := Kept(replacement.value, clock, clock)];
      }
      return Some(open[host]);
    }

    /** `sftp`. A kept session that is still good is used again, and otherwise a new one is opened; `opens` says whether
        it can be. */
    method Sftp(host: Host, action: Action, opens: bool) returns (outcome: Outcome)
      requires Valid() && IsHonest(action)
      modifies this
      ensures Valid()
      ensures outcome == NotOpened <==> |started| == |old(started)|
      ensures var reuses := keeps && Reusable(old(open), host, idleLimit, old(sessions), old(clock));
        && (outcome == NotOpened <==> !reuses && !opens)
        && (|started| > |old(started)| ==>
              started[|old(started)|].session == if reuses then old(open)[host].session else |old(sessions)|)
        && |sessions| == |old(sessions)| + if outcome == NotOpened || reuses then 0 else 1
      ensures outcome != NotOpened ==>
        && outcome == action.outcome
        && |started| == |old(started)| + 1 && old(started) == started[..|old(started)|]
        && started[|old(started)|].host == host
      ensures forall h :: h != host ==> (h in open <==> h in old(open)) && (h in open ==> open[h] == old(open)[h])
      ensures outcome == Broken ==> host !in open
      ensures outcome != NotOpened && outcome != Broken && keeps ==>
        host in open && open[host] == Kept(started[|old(started)|].session, clock, clock)
      ensures outcome == NotOpened ==> open == old(open)
    {
      hide InOrder, AllFit, OneHostEach, Expired, Usable, Reusable;
      ghost var n, before := |sessions|, started;
      if !keeps {
        var own := OpenSession(opens);
        if own == None {
          return NotOpened;
        }
        StartedOnItsOwn(started, idleLimit, Started(host, own.value, sessions[own.value], 0), n);
        Perform(host, own.value, 0, action);
        FewerOpen(open, open, started, |sessions|, clock);
        return action.outcome;
      }
      var acquired := Acquire(host, opens);
      if acquired == None {
        return NotOpened;
      }
      var kept := acquired.value;
      var idle := clock - kept.lastUsed;
      StartedOnKept(open, started, idleLimit, Started(host, kept.session, sessions[kept.session], idle), |sessions|,
                    clock, clock + action.took);
      Perform(host, kept.session, idle, action);
      open := open[host := Kept(kept.session, clock, clock)];
      if action.outcome == Broken {
        FewerOpen(open, open - {host}, started, |sessions|, clock);
        open := open - {host};
      }
      return action.outcome;
    }

    /** One cheap request to see whether a session is still alive; it may find that it is not. */
    method Check(session: SessionId) returns (alive: bool)
      requires session < |sessions|
      modifies this`clock, this`sessions
      ensures clock >= old(clock) && NoneRecovers(old(sessions), sessions)
    {
      var took :| took >= 0;
      clock := clock + took;
      Drift();
      alive := *;
    }

    /** Whether one session is kept, and as what. */
    method TendOne(kept: Kept, now: nat) returns (keep: bool, after: Kept, asked: bool)
      requires kept.session < |sessions| && kept.lastUsed <= kept.lastChecked <= now <= clock
      modifies this`clock, this`sessions
      ensures clock >= old(clock) && NoneRecovers(old(sessions), sessions)
      ensures var fit := !Expired(idleLimit, now - kept.lastUsed) && Usable(old(sessions)[kept.session]);
        && (asked <==> fit && now - kept.lastChecked >= quietBeforeCheck)
        && (keep ==> fit) && (fit && !asked ==> keep)
      ensures after == if asked && keep then kept.(lastChecked := clock) else kept
    {
      after, asked := kept, false;
      if Expired(idleLimit, now - kept.lastUsed) {
        return false, kept, false;
      }
      if !Usable(sessions[kept.session]) {
        return false, kept, false;
      }
      if now - kept.lastChecked < quietBeforeCheck {
        return true, kept, false;
      }
      var alive := Check(kept.session);
      return alive, if alive then kept.(lastChecked := clock) else kept, true;
    }

    /** What the pass saw of a session: no better than it had been before, and no worse than it is afterwards. */
    ghost predicate SeenBetween(before: seq<Health>, seen: Health, after: seq<Health>, session: SessionId) {
      && session < |before| && session < |after|
      && (Usable(seen) ==> Usable(before[session])) && (Usable(after[session]) ==> Usable(seen))
    }

    /** The turn of one host. */
    method TendHost(host: Host, now: nat, ghost seen0: map<Host, Health>, ghost asked0: set<Host>,
                    ghost answered0: set<Host>)
      returns (ghost seen: map<Host, Health>, ghost asked: set<Host>, ghost answered: set<Host>, ghost turn: Health)
      requires host in open && open[host].session < |sessions| && host !in asked0 && host !in answered0
      requires open[host].lastUsed <= open[host].lastChecked <= now <= clock
      modifies this`clock, this`sessions, this`open
      ensures clock >= old(clock) && NoneRecovers(old(sessions), sessions)
      ensures seen == seen0[host := turn] && SeenBetween(old(sessions), turn, sessions, old(open)[host].session)
      ensures (asked == asked0 || asked == asked0 + {host}) && (answered == answered0 || answered == answered0 + {host})
      ensures host in answered ==> host in asked
      ensures open == old(open) - {host} || (host in open && open == old(open)[host := open[host]])
      ensures host in open ==> open[host].lastChecked <= clock
      ensures Tended(host, old(open)[host], turn, now, asked, answered, open)
    {
      hide Usable, Expired, Tended, NoneRecovers, SeenBetween;
      var kept := open[host];
      ghost var before := sessions;
      Drift();
      SameSessions(before, sessions);
      ghost var halfway := sessions;
      turn := sessions[kept.session];
      var keep, after, checked := TendOne(kept, now);
      seen := seen0[host := turn];
      asked := if checked then asked0 + {host} else asked0;
      answered := if checked && keep then answered0 + {host} else answered0;
      open := if keep then open[host := after] else open - {host};
      StillNoneRecovers(before, halfway, sessions);
      JustSeen(before, halfway, sessions, kept.session);
      JustTended(host, kept, turn, now, asked, answered, open, keep, after, checked);
    }

    /** What the pass has come to so far, for every host it has seen. */
    ghost predicate TendedSoFar(was: map<Host, Kept>, before: seq<Health>, after: seq<Health>, now: nat,
                                seen: map<Host, Health>, asked: set<Host>, answered: set<Host>, open: map<Host, Kept>)
    {
      && seen.Keys <= was.Keys
      && forall h :: h in seen ==>
           && SeenBetween(before, seen[h], after, was[h].session)
           && Tended(h, was[h], seen[h], now, asked, answered, open)
    }

    /** `tend_sessions`. What is kept is under the idle limit, and was checked recently or has just answered; a check is
        not a use. `seen` is how each session was when its turn came, and any may break or exit at any time. */
    method TendSessions() returns (ghost seen: map<Host, Health>, ghost asked: set<Host>, ghost answered: set<Host>)
      requires Valid()
      modifies this`clock, this`sessions, this`open
      ensures Valid() && clock >= old(clock) && NoneRecovers(old(sessions), sessions)
      ensures answered <= asked <= old(open).Keys == seen.Keys && open.Keys <= old(open).Keys
      ensures TendedSoFar(old(open), old(sessions), sessions, old(clock), seen, asked, answered, open)
    {
      hide InOrder, AllFit, OneHostEach, Usable, Expired, Tended, TendedSoFar, NoneRecovers;
      seen, asked, answered := map[], {}, {};
      var now := clock;
      AllKnown(open, |sessions|, now);
      SameSessions(sessions, sessions);
      NothingTended(open, sessions, now);
      var left := open.Keys;
      while left != {}
        invariant clock >= now && NoneRecovers(old(sessions), sessions)
        invariant left <= open.Keys <= old(open).Keys
        invariant forall h :: h in left ==> open[h] == old(open)[h]
        invariant answered <= asked <= old(open).Keys - left == seen.Keys
        invariant TendedSoFar(old(open), old(sessions), sessions, now, seen, asked, answered, open)
        invariant forall h :: h in open ==> open[h].lastChecked <= clock
        decreases left
      {
        var host :| host in left;
        left := left - {host};
        ghost var sessions0, asked0, answered0, open0, seen0 := sessions, asked, answered, open, seen;
        SameSessions(old(sessions), sessions0);
        ghost var turn;
        seen, asked, answered, turn := TendHost(host, now, seen, asked, answered);
        SameSessions(sessions0, sessions);
        StillNoneRecovers(old(sessions), sessions0, sessions);
        SeenEarlier(old(sessions), sessions0, turn, sessions, open0[host].session);
        OneMoreTended(old(open), old(sessions), sessions0, sessions, now, host, seen0, asked0, answered0, open0,
                      seen, asked, answered, open);
      }
      SameSessions(old(sessions), sessions);
      StillKept(old(open), old(sessions), sessions, now, seen, asked, answered, open);
      Later(old(open), |sessions|, now, clock);
      FewerOpen(old(open), open, started, |sessions|, clock);
    }

    lemma NothingTended(was: map<Host, Kept>, health: seq<Health>, now: nat)
      ensures TendedSoFar(was, health, health, now, map[], {}, {}, was)
    {
    }

    lemma OneMoreTended(was: map<Host, Kept>, before: seq<Health>, between: seq<Health>, after: seq<Health>, now: nat,
                        host: Host, seen: map<Host, Health>, asked: set<Host>, answered: set<Host>,
                        open: map<Host, Kept>, seen': map<Host, Health>, asked': set<Host>, answered': set<Host>,
                        open': map<Host, Kept>)
      requires TendedSoFar(was, before, between, now, seen, asked, answered, open) && NoneRecovers(between, after)
      requires host in was && host !in seen && seen'.Keys == seen.Keys + {host}
      requires forall h :: h in seen ==> seen'[h] == seen[h]
      requires asked' - {host} == asked - {host} && answered' - {host} == answered - {host}
      requires open' - {host} == open - {host}
      requires SeenBetween(before, seen'[host], after, was[host].session)
      requires Tended(host, was[host], seen'[host], now, asked', answered', open')
      ensures TendedSoFar(was, before, after, now, seen', asked', answered', open')
    {
      hide Tended, NoneRecovers, SeenBetween;
      forall h | h in seen'
        ensures SeenBetween(before, seen'[h], after, was[h].session)
        ensures Tended(h, was[h], seen'[h], now, asked', answered', open')
      {
        if h != host {
          StillBetween(before, seen[h], between, after, was[h].session);
          assert h in asked' - {host} <==> h in asked - {host};
          assert h in answered' - {host} <==> h in answered - {host};
          assert h in open' - {host} <==> h in open - {host};
          assert h in open' - {host} ==> (open' - {host})[h] == (open - {host})[h];
          StillTended(h, was[h], seen[h], now, asked, answered, open, asked', answered', open');
        }
      }
    }

    lemma StillKept(was: map<Host, Kept>, before: seq<Health>, after: seq<Health>, now: nat, seen: map<Host, Health>,
                    asked: set<Host>, answered: set<Host>, open: map<Host, Kept>)
      requires TendedSoFar(was, before, after, now, seen, asked, answered, open) && open.Keys <= seen.Keys
      ensures forall h :: h in open ==> open[h].session == was[h].session && open[h].lastUsed <= open[h].lastChecked
    {
      hide Tended;
      forall h | h in open ensures open[h].session == was[h].session && open[h].lastUsed <= open[h].lastChecked {
        TendedKeeps(h, was[h], seen[h], now, asked, answered, open);
      }
    }

    lemma JustSeen(before: seq<Health>, turn: seq<Health>, after: seq<Health>, session: SessionId)
      requires NoneRecovers(before, turn) && NoneRecovers(turn, after) && session < |before|
      ensures SeenBetween(before, turn[session], after, session)
    {
    }

    lemma SeenEarlier(first: seq<Health>, before: seq<Health>, seen: Health, after: seq<Health>, session: SessionId)
      requires NoneRecovers(first, before) && SeenBetween(before, seen, after, session)
      ensures SeenBetween(first, seen, after, session)
    {
    }

    lemma StillBetween(before: seq<Health>, seen: Health, after: seq<Health>, later: seq<Health>, session: SessionId)
      requires SeenBetween(before, seen, after, session) && NoneRecovers(after, later)
      ensures SeenBetween(before, seen, later, session)
    {
    }

    /** What a pass comes to for one host: it is kept exactly when it is under the idle limit and usable and, if it was
        quiet long enough to be asked, answered; only an answer moves the time of the last check, and nothing moves the
        time of the last use. */
    ghost predicate Tended(h: Host, was: Kept, health: Health, now: nat, asked: set<Host>, answered: set<Host>,
                           open: map<Host, Kept>)
    {
      && was.lastUsed <= was.lastChecked <= now
      && var fit := !Expired(idleLimit, now - was.lastUsed) && Usable(health);
         && (h in asked <==> fit && now - was.lastChecked >= quietBeforeCheck)
         && (h in open <==> fit && (h in asked ==> h in answered))
         && (h in open ==> open[h].session == was.session && open[h].lastUsed == was.lastUsed
                           && if h in asked then open[h].lastChecked >= now else open[h] == was)
    }

    lemma TendedKeeps(h: Host, was: Kept, health: Health, now: nat, asked: set<Host>, answered: set<Host>,
                      open: map<Host, Kept>)
      requires Tended(h, was, health, now, asked, answered, open) && h in open
      ensures open[h].session == was.session && open[h].lastUsed <= open[h].lastChecked
    {
    }

    lemma StillTended(h: Host, was: Kept, health: Health, now: nat, asked: set<Host>, answered: set<Host>,
                      open: map<Host, Kept>, asked': set<Host>, answered': set<Host>, open': map<Host, Kept>)
      requires Tended(h, was, health, now, asked, answered, open)
      requires (h in asked' <==> h in asked) && (h in answered' <==> h in answered)
      requires (h in open' <==> h in open) && (h in open ==> open'[h] == open[h])
      ensures Tended(h, was, health, now, asked', answered', open')
    {
    }

    lemma JustTended(h: Host, was: Kept, health: Health, now: nat, asked: set<Host>, answered: set<Host>,
                     open: map<Host, Kept>, keep: bool, after: Kept, checked: bool)
      requires was.lastUsed <= was.lastChecked <= now
      requires var fit := !Expired(idleLimit, now - was.lastUsed) && Usable(health);
        && (checked <==> fit && now - was.lastChecked >= quietBeforeCheck)
        && (keep ==> fit) && (fit && !checked ==> keep)
      requires (h in asked <==> checked) && (h in answered <==> checked && keep) && (h in open <==> keep)
      requires keep ==> open[h] == after
      requires after == was || (checked && keep && after == was.(lastChecked := after.lastChecked))
      requires checked && keep ==> after.lastChecked >= now
      ensures Tended(h, was, health, now, asked, answered, open)
    {
    }

    // ---------- What a host said about its cache directory ----------

    /** An answer counts only while sessions are kept and it has been used within the idle limit. */
    method RememberedCacheHome(host: Host) returns (answer: Option<Option<string>>)
      requires Valid()
      modifies this`cacheHomes
      ensures Valid()
      ensures answer.Some? <==>
        keeps && host in old(cacheHomes) && !Expired(idleLimit, clock - old(cacheHomes)[host].lastUsed)
      ensures answer.Some? ==>
        && answer.value == old(cacheHomes)[host].cacheHome
        && cacheHomes == old(cacheHomes)[host := Remembered(answer.value, clock)]
      ensures answer.None? ==> cacheHomes == if keeps then old(cacheHomes) - {host} else old(cacheHomes)
    {
      if !keeps {
        return None;
      }
      if host !in cacheHomes {
        assert cacheHomes - {host} == cacheHomes;
        return None;
      }
      var entry := cacheHomes[host];
      if Expired(idleLimit, clock - entry.lastUsed) {
        cacheHomes := cacheHomes - {host};
        return None;
      }
      cacheHomes := cacheHomes[host := entry.(lastUsed := clock)];
      return Some(entry.cacheHome);
    }

    method RememberCacheHome(host: Host, cacheHome: Option<string>)
      requires Valid()
      modifies this`cacheHomes
      ensures Valid()
      ensures cacheHomes == if keeps then old(cacheHomes)[host := Remembered(cacheHome, clock)] else old(cacheHomes)
    {
      if !keeps {
        return;
      }
      cacheHomes := cacheHomes[host := Remembered(cacheHome, clock)];
    }
  }
}

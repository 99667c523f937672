/** The relay's workers (`clift-relayd/src/server.rs`) sharing one store. A step is one acquisition of the store's
    lock, one reading of the clock outside it, or the end of one delivery; workers interleave them freely. */
module Relay {
  import opened Prelude
  import opened ObjectStore

  datatype Worker =
    | Idle
    | Asked(id: Id, seen: Option<int>)
    | Delivering(id: Id, bytes: Bytes, seen: Option<int>, takenAt: int)
    | Refused(id: Id, bytes: Bytes, expiresAt: int)
    | Inserting(id: Id, bytes: Bytes, expiresAt: int)

  /** `published` and `delivered` record what has happened; no worker reads them. */
  datatype State = State(
    limits: Limits, objects: Objects, workers: seq<Worker>, now: int,
    published: Objects, delivered: seq<Id>)

  datatype Step =
    | Tick(to: int)
    | Publish(w: nat, id: Id, bytes: Bytes, ttl: nat, later: int)
    | AskExpiry(w: nat, id: Id)
    | Take(w: nat)
    | Reply(w: nat, delivered: bool)
    | CheckClock(w: nat)
    | Insert(w: nat)
    | Withdraw(w: nat, id: Id)
    | Sweep

  predicate IsIdle(s: State, w: nat) {
    w < |s.workers| && s.workers[w].Idle?
  }

  /** A new object id has never been used before. */
  predicate Enabled(s: State, step: Step) {
    match step
    case Tick(to) => s.now <= to
    case Publish(w, id, _, _, later) => IsIdle(s, w) && id !in s.published && s.now <= later
    case AskExpiry(w, _) => IsIdle(s, w)
    case Take(w) => w < |s.workers| && s.workers[w].Asked?
    case Reply(w, _) => w < |s.workers| && s.workers[w].Delivering?
    case CheckClock(w) => w < |s.workers| && s.workers[w].Refused?
    case Insert(w) => w < |s.workers| && s.workers[w].Inserting?
    case Withdraw(w, _) => IsIdle(s, w)
    case Sweep => true
  }

  function Becomes(s: State, w: nat, worker: Worker): State
    requires w < |s.workers|
  {
    s.(workers := s.workers[w := worker])
  }

  ghost function Apply(s: State, step: Step): State
    requires Enabled(s, step)
  {
    match step
    case Tick(to) => s.(now := to)
    case Publish(_, id, bytes, ttl, later) =>
      var (objects, outcome) := PutInto(s.objects, s.limits, id, bytes, ttl, s.now, later);
      s.(objects := objects, now := later,
         published := if outcome.Stored? then s.published[id := Object(bytes, later + ttl)] else s.published)
    case AskExpiry(w, id) => Becomes(s, w, Asked(id, ExpiryIn(s.objects, id)))
    case Take(w) =>
      var Asked(id, seen) := s.workers[w];
      var (objects, taken) := TakeFrom(s.objects, id, s.now);
      Becomes(s, w, if taken.Some? then Delivering(id, taken.value, seen, s.now) else Idle).(objects := objects)
    case Reply(w, delivered) =>
      var Delivering(id, bytes, seen, _) := s.workers[w];
      if delivered then Becomes(s, w, Idle).(delivered := s.delivered + [id])
      else Becomes(s, w, if seen.Some? then Refused(id, bytes, seen.value) else Idle)
    case CheckClock(w) =>
      var Refused(id, bytes, expiresAt) := s.workers[w];
      Becomes(s, w, if expiresAt <= s.now then Idle else Inserting(id, bytes, expiresAt))
    case Insert(w) =>
      var Inserting(id, bytes, expiresAt) := s.workers[w];
      Becomes(s, w, Idle).(objects := s.objects[id := Object(bytes, expiresAt)])
    case Withdraw(_, id) => s.(objects := s.objects - {id})
    case Sweep => s.(objects := DropExpired(s.objects, s.now))
  }

  ghost predicate CanRun(s: State, steps: seq<Step>)
    decreases steps
  {
    steps == [] || (Enabled(s, steps[0]) && CanRun(Apply(s, steps[0]), steps[1..]))
  }

  ghost function After(s: State, steps: seq<Step>): State
    requires CanRun(s, steps)
    decreases steps
  {
    if steps == [] then s else After(Apply(s, steps[0]), steps[1..])
  }

  function Start(limits: Limits, workers: nat, now: int): State {
    State(limits, map[], seq(workers, _ => Idle), now, map[], [])
  }

  lemma {:induction false} RunTwice(s: State, first: seq<Step>, second: seq<Step>)
    requires CanRun(s, first) && CanRun(After(s, first), second)
    ensures CanRun(s, first + second) && After(s, first + second) == After(After(s, first), second)
    decreases first
  {
    if first == [] {
      assert first + second == second;
    } else {
      RunTwice(Apply(s, first[0]), first[1..], second);
      assert (first + second)[1..] == first[1..] + second;
    }
  }

  lemma Then(s: State, steps: seq<Step>, t: State, step: Step) returns (steps': seq<Step>, t': State)
    requires CanRun(s, steps) && After(s, steps) == t && Enabled(t, step)
    ensures CanRun(s, steps') && After(s, steps') == t' && t' == Apply(t, step) && steps' == steps + [step]
  {
    steps', t' := steps + [step], Apply(t, step);
    assert [step][1..] == [] && CanRun(t', []) && After(t', []) == t';
    RunTwice(s, steps, [step]);
  }

  // ---------- Single use ----------

  /** The worker has the object's bytes, and the store may not. */
  predicate Holds(worker: Worker, id: Id) {
    (worker.Delivering? || worker.Refused? || worker.Inserting?) && worker.id == id
  }

  /** Everything the worker knows about an object is what was published. */
  predicate Faithful(s: State, worker: Worker) {
    match worker
    case Idle => true
    case Asked(id, seen) => seen.Some? ==> id in s.published && seen.value == s.published[id].expiresAt
    case Delivering(id, bytes, seen, takenAt) =>
      && id in s.published && bytes == s.published[id].bytes
      && takenAt < s.published[id].expiresAt
      && (seen.Some? ==> seen.value == s.published[id].expiresAt)
    case Refused(id, bytes, expiresAt) => id in s.published && Object(bytes, expiresAt) == s.published[id]
    case Inserting(id, bytes, expiresAt) => id in s.published && Object(bytes, expiresAt) == s.published[id]
  }

  /** An object is in the store with the bytes and the deadline it was published with, or in the hands of one
      worker, or delivered, or gone; and never two of these. */
  ghost predicate SingleUse(s: State) {
    && (forall id :: id in s.objects ==> id in s.published && s.objects[id] == s.published[id])
    && (forall w :: 0 <= w < |s.workers| ==> Faithful(s, s.workers[w]))
    && (forall w, id :: 0 <= w < |s.workers| && Holds(s.workers[w], id) ==> id !in s.objects && id !in s.delivered)
    && (forall v, w, id ::
          0 <= v < |s.workers| && 0 <= w < |s.workers| && Holds(s.workers[v], id) && Holds(s.workers[w], id)
          ==> v == w)
    && (forall id :: id in s.delivered ==> id in s.published && id !in s.objects)
    && (forall i, j :: 0 <= i < j < |s.delivered| ==> s.delivered[i] != s.delivered[j])
  }

  lemma SingleUsePublish(s: State, step: Step)
    requires SingleUse(s) && Enabled(s, step) && step.Publish?
    ensures SingleUse(Apply(s, step))
  {
    var s' := Apply(s, step);
    assert forall id :: id in s'.objects ==> id == step.id || id in s.objects;
    assert forall id :: id in s.published ==> id in s'.published && s'.published[id] == s.published[id];
    forall w | 0 <= w < |s.workers| ensures Faithful(s', s'.workers[w]) {
      assert Faithful(s, s.workers[w]);
    }
  }

  /** A step of one worker that gives it nothing it did not hold, or what the store just gave up. */
  lemma SingleUseWorker(s: State, step: Step)
    requires SingleUse(s) && Enabled(s, step)
    requires step.AskExpiry? || step.Take? || step.CheckClock?
    ensures SingleUse(Apply(s, step))
  {
    var s' := Apply(s, step);
    assert Faithful(s, s.workers[step.w]);
    assert forall v :: 0 <= v < |s.workers| && v != step.w ==> s'.workers[v] == s.workers[v];
    assert s'.workers[step.w] == Apply(s, step).workers[step.w];
    assert forall v :: 0 <= v < |s.workers| ==> Faithful(s', s'.workers[v]);
  }

  lemma SingleUseReply(s: State, step: Step)
    requires SingleUse(s) && Enabled(s, step) && step.Reply?
    ensures SingleUse(Apply(s, step))
  {
    var s' := Apply(s, step);
    var id := s.workers[step.w].id;
    assert Faithful(s, s.workers[step.w]) && Holds(s.workers[step.w], id);
    assert forall v :: 0 <= v < |s.workers| && v != step.w ==> s'.workers[v] == s.workers[v];
    assert forall v :: 0 <= v < |s.workers| ==> Faithful(s', s'.workers[v]);
  }

  lemma SingleUseInsert(s: State, step: Step)
    requires SingleUse(s) && Enabled(s, step) && step.Insert?
    ensures SingleUse(Apply(s, step))
  {
    var s' := Apply(s, step);
    var id := s.workers[step.w].id;
    assert Faithful(s, s.workers[step.w]) && Holds(s.workers[step.w], id);
    assert forall v :: 0 <= v < |s.workers| && v != step.w ==> s'.workers[v] == s.workers[v];
    assert forall v :: 0 <= v < |s.workers| ==> Faithful(s', s'.workers[v]);
  }

  lemma SingleUseStep(s: State, step: Step)
    requires SingleUse(s) && Enabled(s, step)
    ensures SingleUse(Apply(s, step))
  {
    match step
    case Publish(_, _, _, _, _) => SingleUsePublish(s, step);
    case AskExpiry(_, _) => SingleUseWorker(s, step);
    case Take(_) => SingleUseWorker(s, step);
    case CheckClock(_) => SingleUseWorker(s, step);
    case Reply(_, _) => SingleUseReply(s, step);
    case Insert(_) => SingleUseInsert(s, step);
    case Tick(_) => SingleUseShrink(s, Apply(s, step));
    case Withdraw(_, _) => SingleUseShrink(s, Apply(s, step));
    case Sweep => SingleUseShrink(s, Apply(s, step));
  }

  lemma SingleUseShrink(s: State, s': State)
    requires SingleUse(s)
    requires s'.workers == s.workers && s'.published == s.published && s'.delivered == s.delivered
    requires forall id :: id in s'.objects ==> id in s.objects && s'.objects[id] == s.objects[id]
    ensures SingleUse(s')
  {
    assert forall w :: 0 <= w < |s.workers| ==> Faithful(s, s.workers[w]) && Faithful(s', s.workers[w]);
  }

  /** Over every run: each object is held by at most one worker, delivered at most once, taken only before its
      deadline, and back in the store only as it was published. */
  lemma {:induction false} SingleUseAlways(s: State, steps: seq<Step>)
    requires SingleUse(s) && CanRun(s, steps)
    ensures SingleUse(After(s, steps))
    decreases steps
  {
    if steps != [] {
      SingleUseStep(s, steps[0]);
      SingleUseAlways(Apply(s, steps[0]), steps[1..]);
    }
  }

  lemma SingleUseFromTheStart(limits: Limits, workers: nat, now: int, steps: seq<Step>)
    requires CanRun(Start(limits, workers, now), steps)
    ensures SingleUse(After(Start(limits, workers, now), steps))
  {
    SingleUseAlways(Start(limits, workers, now), steps);
  }

  // ---------- What can come back ----------

  /** The worker will put the object back if its delivery fails now. */
  predicate Recoverable(worker: Worker, id: Id, now: int) {
    match worker
    case Delivering(held, _, seen, _) => held == id && seen.Some? && seen.value > now
    case Refused(held, _, expiresAt) => held == id && expiresAt > now
    case Inserting(held, _, _) => held == id
    case _ => false
  }

  ghost predicate Gone(s: State, id: Id) {
    && id in s.published && id !in s.objects
    && forall w :: 0 <= w < |s.workers| ==> !Recoverable(s.workers[w], id, s.now)
  }

  lemma GoneStep(s: State, step: Step, id: Id)
    requires Gone(s, id) && Enabled(s, step)
    ensures Gone(Apply(s, step), id)
  {
    var s' := Apply(s, step);
    forall w | 0 <= w < |s'.workers| ensures !Recoverable(s'.workers[w], id, s'.now) {
      assert !Recoverable(s.workers[w], id, s.now);
    }
  }

  lemma {:induction false} GoneForGood(s: State, steps: seq<Step>, id: Id)
    requires Gone(s, id) && CanRun(s, steps)
    ensures Gone(After(s, steps), id)
    decreases steps
  {
    if steps != [] {
      GoneStep(s, steps[0], id);
      GoneForGood(Apply(s, steps[0]), steps[1..], id);
    }
  }

  lemma PutBack(s: State, w: nat, id: Id) returns (steps: seq<Step>)
    requires w < |s.workers| && Recoverable(s.workers[w], id, s.now)
    ensures CanRun(s, steps) && id in After(s, steps).objects
  {
    steps := [];
    var t := s;
    if t.workers[w].Delivering? {
      steps, t := Then(s, steps, t, Reply(w, false));
    }
    if t.workers[w].Refused? {
      steps, t := Then(s, steps, t, CheckClock(w));
    }
    steps, t := Then(s, steps, t, Insert(w));
  }

  /** An object that is not in the store, withdrawn or not, can be there again exactly when some worker holds it,
      saw its deadline before taking it, and that deadline has not passed. */
  lemma ComesBackExactlyWhenRecoverable(s: State, id: Id)
    requires id in s.published && id !in s.objects
    ensures (exists steps :: CanRun(s, steps) && id in After(s, steps).objects)
       <==> (exists w :: 0 <= w < |s.workers| && Recoverable(s.workers[w], id, s.now))
  {
    if w :| 0 <= w < |s.workers| && Recoverable(s.workers[w], id, s.now) {
      var steps := PutBack(s, w, id);
    } else {
      forall steps | CanRun(s, steps) ensures id !in After(s, steps).objects {
        GoneForGood(s, steps, id);
      }
    }
  }

  /** A failed delivery gives the object up for good exactly when the worker had not seen its deadline beforehand
      or the deadline has passed. */
  lemma FailedDelivery(s: State, w: nat)
    requires SingleUse(s) && w < |s.workers| && s.workers[w].Delivering?
    ensures var worker := s.workers[w];
            Gone(Apply(s, Reply(w, false)), worker.id) <==> worker.seen.None? || s.now >= s.published[worker.id].expiresAt
  {
    var id := s.workers[w].id;
    var s' := Apply(s, Reply(w, false));
    assert Faithful(s, s.workers[w]) && Holds(s.workers[w], id);
    SingleUseStep(s, Reply(w, false));
    if s.workers[w].seen.Some? {
      assert s'.workers[w].Refused?;
      assert Recoverable(s'.workers[w], id, s'.now) <==> s'.published[id].expiresAt > s'.now;
    }
    forall v | 0 <= v < |s'.workers| && v != w ensures !Recoverable(s'.workers[v], id, s'.now) {
      assert s'.workers[v] == s.workers[v] && !Holds(s.workers[v], id);
    }
  }

  /** A delivered object never comes back. */
  lemma DeliveredIsGone(s: State, id: Id)
    requires SingleUse(s) && id in s.delivered
    ensures Gone(s, id)
  {
    forall w | 0 <= w < |s.workers| ensures !Recoverable(s.workers[w], id, s.now) {
      assert !Holds(s.workers[w], id);
    }
  }

  lemma Begin(s: State)
    ensures CanRun(s, []) && After(s, []) == s && Held(map[]) == 0
  {
  }

  /** Of two workers, the first publishes an object and is delivering it. */
  lemma FirstDelivers(id: Id) returns (steps: seq<Step>, t: State)
    ensures CanRun(Start(Limits(1, 1), 2, 0), steps) && After(Start(Limits(1, 1), 2, 0), steps) == t
    ensures t == State(Limits(1, 1), map[], [Delivering(id, [0], Some(10), 0), Idle], 0, map[id := Object([0], 10)], [])
  {
    hide CanRun, After, Held;
    var s := Start(Limits(1, 1), 2, 0);
    Begin(s);
    HeldWith(map[], id, Object([0], 10));
    steps, t := Then(s, [], s, Publish(0, id, [0], 10, 0));
    steps, t := Then(s, steps, t, AskExpiry(0, id));
    steps, t := Then(s, steps, t, Take(0));
    assert t.objects == map[] && t.workers == [Delivering(id, [0], Some(10), 0), Idle];
  }

  /** Two workers, one object: the second asks for its deadline while the first is delivering it, so when the first
      has put it back and the second's own delivery fails, nobody has it although nobody received it. */
  lemma AFailedDeliveryCanLoseTheObject(id: Id) returns (steps: seq<Step>)
    ensures CanRun(Start(Limits(1, 1), 2, 0), steps)
    ensures var t := After(Start(Limits(1, 1), 2, 0), steps);
            id in t.published && t.now < t.published[id].expiresAt && id !in t.delivered && Gone(t, id)
  {
    hide CanRun, After, Held;
    var s := Start(Limits(1, 1), 2, 0);
    var t;
    steps, t := FirstDelivers(id);
    steps, t := Then(s, steps, t, AskExpiry(1, id));
    steps, t := Then(s, steps, t, Reply(0, false));
    steps, t := Then(s, steps, t, CheckClock(0));
    steps, t := Then(s, steps, t, Insert(0));
    assert t.objects == map[id := Object([0], 10)] && t.workers == [Idle, Asked(id, None)];
    steps, t := Then(s, steps, t, Take(1));
    steps, t := Then(s, steps, t, Reply(1, false));
    assert t.objects == map[] && t.workers == [Idle, Idle];
  }

  /** A withdrawal during a delivery does not keep the object from coming back: the delivery fails and puts it back. */
  lemma AWithdrawnObjectCanComeBack(id: Id) returns (steps: seq<Step>)
    ensures CanRun(Start(Limits(1, 1), 2, 0), steps)
    ensures Withdraw(1, id) in steps && id in After(Start(Limits(1, 1), 2, 0), steps).objects
  {
    hide CanRun, After, Held;
    var s := Start(Limits(1, 1), 2, 0);
    var t;
    steps, t := FirstDelivers(id);
    steps, t := Then(s, steps, t, Withdraw(1, id));
    steps, t := Then(s, steps, t, Reply(0, false));
    steps, t := Then(s, steps, t, CheckClock(0));
    steps, t := Then(s, steps, t, Insert(0));
  }

  // ---------- The ceiling on everything held ----------

  function Load(worker: Worker): nat {
    match worker
    case Delivering(_, bytes, _, _) => |bytes|
    case Refused(_, bytes, _) => |bytes|
    case Inserting(_, bytes, _) => |bytes|
    case _ => 0
  }

  function InDelivery(workers: seq<Worker>): nat {
    if workers == [] then 0 else Load(workers[0]) + InDelivery(workers[1..])
  }

  lemma {:induction false} InDeliveryUpdate(workers: seq<Worker>, w: nat, worker: Worker)
    requires w < |workers|
    ensures InDelivery(workers[w := worker]) == InDelivery(workers) - Load(workers[w]) + Load(worker)
  {
    if w > 0 {
      InDeliveryUpdate(workers[1..], w - 1, worker);
      assert workers[w := worker][1..] == workers[1..][w - 1 := worker];
    } else {
      assert workers[0 := worker][1..] == workers[1..];
    }
  }

  function Times(n: nat, size: nat): nat {
    if n == 0 then 0 else size + Times(n - 1, size)
  }

  lemma {:induction false} InDeliveryBound(workers: seq<Worker>, size: nat)
    requires forall w :: 0 <= w < |workers| ==> Load(workers[w]) <= size
    ensures InDelivery(workers) <= Times(|workers|, size)
  {
    if workers != [] {
      InDeliveryBound(workers[1..], size);
    }
  }

  lemma {:induction false} InDeliveryWithOneIdle(workers: seq<Worker>, size: nat, idle: nat)
    requires forall w :: 0 <= w < |workers| ==> Load(workers[w]) <= size
    requires idle < |workers| && workers[idle].Idle?
    ensures InDelivery(workers) <= Times(|workers| - 1, size)
  {
    if idle == 0 {
      InDeliveryBound(workers[1..], size);
    } else {
      InDeliveryWithOneIdle(workers[1..], size, idle - 1);
    }
  }

  /** No object is larger than one may be, and everything held or being delivered fits under the total ceiling
      plus one object for every worker but one. */
  ghost predicate WithinCeiling(s: State) {
    && s.workers != []
    && (forall id :: id in s.objects ==> |s.objects[id].bytes| <= s.limits.maxObject)
    && (forall w :: 0 <= w < |s.workers| ==> Load(s.workers[w]) <= s.limits.maxObject)
    && Held(s.objects) + InDelivery(s.workers)
       <= s.limits.maxTotal + Times(|s.workers| - 1, s.limits.maxObject)
  }

  lemma CeilingFewer(s: State, s': State)
    requires WithinCeiling(s) && s'.workers == s.workers && s'.limits == s.limits
    requires s'.objects.Keys <= s.objects.Keys
    requires forall id :: id in s'.objects ==> s'.objects[id] == s.objects[id]
    ensures WithinCeiling(s')
  {
    HeldBySome(s.objects, s'.objects);
  }

  lemma CeilingStored(s: State, left: Objects, id: Id, entry: Object, w: nat)
    requires WithinCeiling(s) && IsIdle(s, w) && id !in left
    requires forall id :: id in left ==> id in s.objects && left[id] == s.objects[id]
    requires |entry.bytes| <= s.limits.maxObject && Held(left) + |entry.bytes| <= s.limits.maxTotal
    ensures WithinCeiling(s.(objects := left[id := entry]))
  {
    HeldWith(left, id, entry);
    InDeliveryWithOneIdle(s.workers, s.limits.maxObject, w);
  }

  lemma CeilingPublish(s: State, step: Step)
    requires SingleUse(s) && WithinCeiling(s) && s.limits.maxTotal < U64_MAX && Enabled(s, step) && step.Publish?
    ensures WithinCeiling(Apply(s, step))
  {
    var left := DropExpired(s.objects, s.now);
    var outcome := PutInto(s.objects, s.limits, step.id, step.bytes, step.ttl, s.now, step.later).1;
    if outcome.Stored? {
      CeilingStored(s, left, step.id, Object(step.bytes, step.later + step.ttl), step.w);
    } else {
      CeilingFewer(s, Apply(s, step));
    }
  }

  lemma CeilingTake(s: State, step: Step)
    requires SingleUse(s) && WithinCeiling(s) && Enabled(s, step) && step.Take?
    ensures WithinCeiling(Apply(s, step))
  {
    var s' := Apply(s, step);
    var id := s.workers[step.w].id;
    var left := DropExpired(s.objects, s.now);
    HeldBySome(s.objects, left);
    InDeliveryUpdate(s.workers, step.w, s'.workers[step.w]);
    if id in left {
      HeldWithout(left, id);
    } else {
      assert left - {id} == left;
    }
  }

  lemma CeilingInsert(s: State, step: Step)
    requires SingleUse(s) && WithinCeiling(s) && Enabled(s, step) && step.Insert?
    ensures WithinCeiling(Apply(s, step))
  {
    var Inserting(id, bytes, expiresAt) := s.workers[step.w];
    assert Holds(s.workers[step.w], id) && Load(s.workers[step.w]) == |bytes|;
    InDeliveryUpdate(s.workers, step.w, Idle);
    HeldWith(s.objects, id, Object(bytes, expiresAt));
  }

  lemma CeilingWorker(s: State, step: Step)
    requires WithinCeiling(s) && Enabled(s, step)
    requires step.AskExpiry? || step.Reply? || step.CheckClock?
    ensures WithinCeiling(Apply(s, step))
  {
    hide Held, InDelivery, Times;
    InDeliveryUpdate(s.workers, step.w, Apply(s, step).workers[step.w]);
  }

  lemma WithinCeilingStep(s: State, step: Step)
    requires SingleUse(s) && WithinCeiling(s) && s.limits.maxTotal < U64_MAX && Enabled(s, step)
    ensures WithinCeiling(Apply(s, step))
  {
    match step
    case Tick(_) =>
    case Publish(_, _, _, _, _) => CeilingPublish(s, step);
    case Take(_) => CeilingTake(s, step);
    case AskExpiry(_, _) => CeilingWorker(s, step);
    case Reply(_, _) => CeilingWorker(s, step);
    case CheckClock(_) => CeilingWorker(s, step);
    case Insert(_) => CeilingInsert(s, step);
    case Withdraw(_, _) => CeilingFewer(s, Apply(s, step));
    case Sweep => CeilingFewer(s, Apply(s, step));
  }

  lemma {:induction false} WithinCeilingAlways(s: State, steps: seq<Step>)
    requires SingleUse(s) && WithinCeiling(s) && s.limits.maxTotal < U64_MAX && CanRun(s, steps)
    ensures WithinCeiling(After(s, steps)) && |After(s, steps).workers| == |s.workers|
    ensures After(s, steps).limits == s.limits
    decreases steps
  {
    if steps != [] {
      SingleUseStep(s, steps[0]);
      WithinCeilingStep(s, steps[0]);
      WithinCeilingAlways(Apply(s, steps[0]), steps[1..]);
    }
  }

  /** Over every run, with at least one worker. With one worker the ceiling holds exactly as documented. */
  lemma CeilingFromTheStart(limits: Limits, workers: nat, now: int, steps: seq<Step>)
    requires workers > 0 && limits.maxTotal < U64_MAX && CanRun(Start(limits, workers, now), steps)
    ensures var t := After(Start(limits, workers, now), steps);
            && Held(t.objects) + InDelivery(t.workers) <= limits.maxTotal + Times(workers - 1, limits.maxObject)
            && (workers == 1 ==> Held(t.objects) <= limits.maxTotal)
  {
    var s := Start(limits, workers, now);
    InDeliveryOfIdle(s.workers);
    WithinCeilingAlways(s, steps);
  }

  lemma {:induction false} InDeliveryOfIdle(workers: seq<Worker>)
    requires forall w :: 0 <= w < |workers| ==> workers[w].Idle?
    ensures InDelivery(workers) == 0
  {
    if workers != [] {
      InDeliveryOfIdle(workers[1..]);
    }
  }

  /** The names from the `k`th on have not been drawn yet. */
  ghost predicate Undrawn(names: seq<Id>, ids: set<Id>, k: nat) {
    forall i :: k <= i < |names| ==> names[i] !in ids
  }

  /** Worker 1 publishes `n` objects of one byte each. */
  lemma {:induction false} Fill(s: State, steps: seq<Step>, t: State, names: seq<Id>, k: nat, n: nat)
    returns (steps': seq<Step>, t': State)
    requires CanRun(s, steps) && After(s, steps) == t
    requires |t.workers| > 1 && t.workers[1].Idle? && 1 <= t.limits.maxObject
    requires Held(t.objects) + n <= t.limits.maxTotal <= U64_MAX
    requires Distinct(names) && Undrawn(names, t.published.Keys, k) && k + n <= |names|
    requires forall id :: id in t.objects ==> id in t.published && t.objects[id].expiresAt > t.now
    ensures CanRun(s, steps') && After(s, steps') == t'
    ensures t'.workers == t.workers && t'.now == t.now && t'.limits == t.limits
    ensures Held(t'.objects) == Held(t.objects) + n
    ensures forall i :: 0 <= i < k && i < |names| && names[i] !in t.objects ==> names[i] !in t'.objects
    decreases n
  {
    hide CanRun, After, Held;
    steps', t' := steps, t;
    if n > 0 {
      assert DropExpired(t.objects, t.now) == t.objects;
      HeldWith(t.objects, names[k], Object([0], t.now + 1));
      steps', t' := Then(s, steps, t, Publish(1, names[k], [0], 1, t.now));
      steps', t' := Fill(s, steps', t', names, k + 1, n - 1);
    }
  }

  /** With two workers or more it can always be exceeded, whatever the ids: one worker delivers, another fills the store,
      and the first puts its object back without asking whether there is room. */
  lemma CeilingCanBeExceeded(limits: Limits, workers: nat, now: int, names: seq<Id>) returns (steps: seq<Step>)
    requires workers > 1 && 1 <= limits.maxObject <= limits.maxTotal <= U64_MAX
    requires Distinct(names) && |names| > limits.maxTotal
    ensures CanRun(Start(limits, workers, now), steps)
    ensures Held(After(Start(limits, workers, now), steps).objects) > limits.maxTotal
  {
    var s := Start(limits, workers, now);
    var first, entry := names[0], Object([0], now + 1);
    HeldWith(map[], first, entry);
    var t;
    steps, t := Then(s, [], s, Publish(0, first, [0], 1, now));
    assert t.objects == map[first := entry] && t.published.Keys == {first};
    steps, t := Then(s, steps, t, AskExpiry(0, first));
    steps, t := Then(s, steps, t, Take(0));
    assert t.objects == map[];
    steps, t := Fill(s, steps, t, names, 1, limits.maxTotal);
    steps, t := Then(s, steps, t, Reply(0, false));
    steps, t := Then(s, steps, t, CheckClock(0));
    HeldWith(t.objects, first, entry);
    steps, t := Then(s, steps, t, Insert(0));
  }

  /** The documented ceiling on the store holds over every run exactly when there is one worker. */
  lemma CeilingHoldsExactlyForOneWorker(limits: Limits, workers: nat, now: int, names: seq<Id>)
    requires workers > 0 && 1 <= limits.maxObject <= limits.maxTotal < U64_MAX
    requires Distinct(names) && |names| > limits.maxTotal
    ensures (forall steps :: CanRun(Start(limits, workers, now), steps)
                             ==> Held(After(Start(limits, workers, now), steps).objects) <= limits.maxTotal)
       <==> workers == 1
  {
    if workers == 1 {
      forall steps | CanRun(Start(limits, workers, now), steps)
        ensures Held(After(Start(limits, workers, now), steps).objects) <= limits.maxTotal
      {
        CeilingFromTheStart(limits, workers, now, steps);
      }
    } else {
      var steps := CeilingCanBeExceeded(limits, workers, now, names);
    }
  }
}

/** When the Worker's alarm is in time (`scheduleAlarm` and `alarm` in `relay/cloudflare/src/index.ts`). Both await the
    storage: a publication reads the alarm after its last row and may set it later, and the handler sets it after having
    dropped what has expired. `Worker` takes it that the runtime lets nothing else in meanwhile; here every await is a
    place where something can come in, unless a gate is closed. */
module Alarms {
  import opened Prelude
  import opened ObjectStore
  import opened Worker

  /** What is awaited: a publication's reading of the alarm, its setting of it, and the handler's. */
  datatype Task = Reading(at: int) | Writing(at: int) | Rearming(at: int)

  datatype World = World(rows: Rows, chunks: Chunks, view: Objects, alarm: Option<int>, tasks: map<nat, Task>, clock: int)

  const START: World := World(map[], map[], map[], None, map[], 0)

  /** `Insert` is a publication up to its first await, `Fire` the handler up to its own, and `Drop` any other event: it
      drops what has expired, and whatever it fetches or withdraws. */
  datatype Step =
    | Insert(task: nat, id: Id, body: Bytes, ttl: nat, now: int)
    | Read(task: nat)
    | Write(task: nat)
    | Fire(task: nat, now: int)
    | Drop(ids: set<Id>, now: int)

  predicate IsEarliest(view: Objects, at: int) {
    (exists id :: id in view && view[id].expiresAt == at) && forall id :: id in view ==> at <= view[id].expiresAt
  }

  ghost predicate Inserts(limits: Limits, w: World, step: Step, w': World)
    requires step.Insert?
  {
    var left, at := DropExpired(w.view, step.now), step.now + step.ttl * 1000;
    && w.clock <= step.now && step.task !in w.tasks
    && IsObjectId(step.id) && step.id !in w.view && step.body != []
    && w'.alarm == w.alarm && w'.clock == step.now && Tables(w'.rows, w'.chunks, w'.view)
    && if Held(left) + |step.body| <= limits.maxTotal
       then w'.view == left[step.id := Object(step.body, at)] && w'.tasks == w.tasks[step.task := Reading(at)]
       else w'.view == left && w'.tasks == w.tasks
  }

  ghost predicate Fires(w: World, step: Step, w': World)
    requires step.Fire?
  {
    && w.clock <= step.now && step.task !in w.tasks && w.alarm.Some? && w.alarm.value <= step.now
    && w'.alarm == None && w'.clock == step.now && Tables(w'.rows, w'.chunks, w'.view)
    && w'.view == DropExpired(w.view, step.now)
    && if w'.view == map[] then w'.tasks == w.tasks
       else
         && step.task in w'.tasks && w'.tasks == w.tasks[step.task := w'.tasks[step.task]]
         && w'.tasks[step.task].Rearming? && IsEarliest(w'.view, w'.tasks[step.task].at)
  }

  ghost predicate Next(limits: Limits, w: World, step: Step, w': World) {
    match step
    case Insert(_, _, _, _, _) => Inserts(limits, w, step, w')
    case Read(task) =>
      && task in w.tasks && w.tasks[task].Reading?
      && var at := w.tasks[task].at;
         w' == w.(tasks := if w.alarm.None? || at < w.alarm.value then w.tasks[task := Writing(at)] else w.tasks - {task})
    case Write(task) =>
      && task in w.tasks && !w.tasks[task].Reading?
      && w' == w.(alarm := Some(w.tasks[task].at), tasks := w.tasks - {task})
    case Fire(_, _) => Fires(w, step, w')
    case Drop(ids, now) =>
      && w.clock <= now == w'.clock && w'.alarm == w.alarm && w'.tasks == w.tasks
      && Tables(w'.rows, w'.chunks, w'.view) && w'.view == DropExpired(w.view, now) - ids
  }

  /** Which awaits let nothing else in: between reading and setting the alarm, and between the handler's look at the
      rows and its setting of the alarm. */
  datatype Gates = Gates(schedule: bool, handler: bool)

  predicate Closed(gates: Gates, task: Task) {
    (task.Writing? && gates.schedule) || (task.Rearming? && gates.handler)
  }

  predicate Let(gates: Gates, w: World, step: Step) {
    forall t :: t in w.tasks && Closed(gates, w.tasks[t]) ==> step == Write(t)
  }

  ghost predicate IsRun(limits: Limits, gates: Gates, w: World, steps: seq<(Step, World)>)
    decreases steps
  {
    steps == [] || (
      && Let(gates, w, steps[0].0) && Next(limits, w, steps[0].0, steps[0].1)
      && IsRun(limits, gates, steps[0].1, steps[1..]))
  }

  function End(w: World, steps: seq<(Step, World)>): World {
    if steps == [] then w else steps[|steps| - 1].1
  }

  // ---------- What keeps it in time ----------

  /** Every object is covered: by the alarm, or by something still awaited that will look after it. */
  ghost predicate Covered(w: World) {
    forall id :: id in w.view ==>
      || (w.alarm.Some? && w.alarm.value <= w.view[id].expiresAt)
      || exists t :: t in w.tasks && w.tasks[t].at <= w.view[id].expiresAt
  }

  /** A write that puts the alarm off. */
  predicate Postpones(w: World, step: Step) {
    step.Write? && step.task in w.tasks && w.alarm.Some? && w.alarm.value < w.tasks[step.task].at
  }

  lemma CoveredStep(limits: Limits, w: World, step: Step, w': World)
    requires Covered(w) && Next(limits, w, step, w') && !Postpones(w, step)
    ensures Covered(w')
  {
    hide Tables, Held, IsObjectId;
    forall id | id in w'.view && !(w'.alarm.Some? && w'.alarm.value <= w'.view[id].expiresAt)
      ensures exists t :: t in w'.tasks && w'.tasks[t].at <= w'.view[id].expiresAt
    {
      if step.Insert? && id == step.id {
        assert step.task in w'.tasks;
      } else if step.Fire? {
        assert step.task in w'.tasks;
      } else if !(w.alarm.Some? && w.alarm.value <= w.view[id].expiresAt) {
        var t :| t in w.tasks && w.tasks[t].at <= w.view[id].expiresAt;
        assert t in w'.tasks && w'.tasks[t].at == w.tasks[t].at;
      }
    }
  }

  ghost predicate NeverPostpones(w: World, steps: seq<(Step, World)>)
    decreases steps
  {
    steps == [] || (!Postpones(w, steps[0].0) && NeverPostpones(steps[0].1, steps[1..]))
  }

  lemma {:induction false} CoveredAlways(limits: Limits, gates: Gates, w: World, steps: seq<(Step, World)>)
    requires Covered(w) && IsRun(limits, gates, w, steps) && NeverPostpones(w, steps)
    ensures Covered(End(w, steps))
    decreases steps
  {
    if steps != [] {
      hide Covered, Next;
      CoveredStep(limits, w, steps[0].0, steps[0].1);
      CoveredAlways(limits, gates, steps[0].1, steps[1..]);
    }
  }

  /** Whatever comes in at the awaits, as long as no write puts the alarm off it is in time once nothing is awaited. */
  lemma InTimeUnlessPostponed(limits: Limits, gates: Gates, steps: seq<(Step, World)>)
    requires IsRun(limits, gates, START, steps) && NeverPostpones(START, steps)
    ensures End(START, steps).tasks == map[] ==> AlarmInTime(End(START, steps).alarm, End(START, steps).view)
  {
    CoveredAlways(limits, gates, START, steps);
  }

  // ---------- The gates ----------

  /** Behind closed gates, what is about to be written has not been overtaken. */
  predicate NotOvertaken(w: World) {
    && (forall t :: t in w.tasks && w.tasks[t].Writing? ==> w.alarm.None? || w.tasks[t].at < w.alarm.value)
    && (forall t :: t in w.tasks && w.tasks[t].Rearming? ==> w.alarm.None?)
  }

  lemma NotOvertakenStep(limits: Limits, w: World, step: Step, w': World)
    requires NotOvertaken(w) && Let(Gates(true, true), w, step) && Next(limits, w, step, w')
    ensures NotOvertaken(w') && !Postpones(w, step)
  {
    hide Tables, Held, IsObjectId, IsEarliest, DropExpired;
  }

  lemma {:induction false} GatedNeverPostpones(limits: Limits, w: World, steps: seq<(Step, World)>)
    requires NotOvertaken(w) && IsRun(limits, Gates(true, true), w, steps)
    ensures NeverPostpones(w, steps)
    decreases steps
  {
    if steps != [] {
      hide NotOvertaken, Next, Let;
      NotOvertakenStep(limits, w, steps[0].0, steps[0].1);
      GatedNeverPostpones(limits, steps[0].1, steps[1..]);
    }
  }

  // ---------- Why both gates are needed ----------

  lemma {:induction false} Then(limits: Limits, gates: Gates, w: World, steps: seq<(Step, World)>, step: Step, w': World)
    requires IsRun(limits, gates, w, steps)
    requires Let(gates, End(w, steps), step) && Next(limits, End(w, steps), step, w')
    ensures IsRun(limits, gates, w, steps + [(step, w')]) && End(w, steps + [(step, w')]) == w'
    decreases steps
  {
    hide Next, Let;
    var more := steps + [(step, w')];
    if steps == [] {
      assert more[1..] == [];
    } else {
      Then(limits, gates, steps[0].1, steps[1..], step, w');
      assert more[1..] == steps[1..] + [(step, w')];
    }
  }

  function Nothing(alarm: Option<int>, tasks: map<nat, Task>, clock: int): World {
    World(map[], map[], map[], alarm, tasks, clock)
  }

  /** One object of one byte. */
  function One(id: Id, at: int, alarm: Option<int>, tasks: map<nat, Task>, clock: int): World {
    World(map[id := Row(1, at)], map[(id, 0) := [0]], map[id := Object([0], at)], alarm, tasks, clock)
  }

  lemma OneIsSound(id: Id, at: int)
    ensures Tables(map[id := Row(1, at)], map[(id, 0) := [0]], map[id := Object([0], at)])
    ensures Tables(map[], map[], map[])
  {
    assert ChunkCount(1) == 1 && ChunkAt([0], 0) == [0];
  }

  lemma Inserted(limits: Limits, alarm: Option<int>, tasks: map<nat, Task>, now: int, task: nat, id: Id, ttl: nat)
    requires limits.maxTotal >= 1 && IsObjectId(id) && task !in tasks
    ensures Next(limits, Nothing(alarm, tasks, now), Insert(task, id, [0], ttl, now),
                 One(id, now + ttl * 1000, alarm, tasks[task := Reading(now + ttl * 1000)], now))
  {
    OneIsSound(id, now + ttl * 1000);
    assert DropExpired(map[], now) == map[];
    hide Tables, IsObjectId;
  }

  lemma Fetched(limits: Limits, id: Id, at: int, alarm: Option<int>, tasks: map<nat, Task>, now: int)
    ensures Next(limits, One(id, at, alarm, tasks, now), Drop({id}, now), Nothing(alarm, tasks, now))
  {
    OneIsSound(id, at);
    assert DropExpired(map[id := Object([0], at)], now) - {id} == map[];
    hide Tables;
  }

  lemma Fired(limits: Limits, id: Id, at: int, alarm: int, tasks: map<nat, Task>, clock: int, task: nat, now: int)
    requires alarm <= now < at && clock <= now && task !in tasks
    ensures Next(limits, One(id, at, Some(alarm), tasks, clock), Fire(task, now),
                 One(id, at, None, tasks[task := Rearming(at)], now))
  {
    OneIsSound(id, at);
    var view: Objects := map[id := Object([0], at)];
    assert DropExpired(view, now) == view;
    assert id in view && view[id].expiresAt == at;
    hide Tables;
  }

  ghost predicate EndsLate(limits: Limits, gates: Gates, steps: seq<(Step, World)>) {
    && IsRun(limits, gates, START, steps) && End(START, steps).tasks == map[]
    && !AlarmInTime(End(START, steps).alarm, End(START, steps).view)
  }

  lemma OneIsLate(id: Id, at: int, alarm: int, clock: int)
    requires alarm > at
    ensures var w := One(id, at, Some(alarm), map[], clock); w.tasks == map[] && !AlarmInTime(w.alarm, w.view)
  {
    assert id in One(id, at, Some(alarm), map[], clock).view;
  }

  /** Two publications are both about to set the alarm, the one whose object expires later having come first; its object
      has been fetched since. */
  lemma UntilBothHaveRead(limits: Limits, gates: Gates, a: Id, b: Id) returns (steps: seq<(Step, World)>)
    requires limits.maxTotal >= 1 && IsObjectId(a) && IsObjectId(b) && a != b && !gates.schedule
    ensures IsRun(limits, gates, START, steps)
    ensures End(START, steps) == One(b, 1000, None, map[0 := Writing(2000), 1 := Writing(1000)], 0)
  {
    hide Next, IsRun, IsObjectId;
    var w1 := One(a, 2000, None, map[0 := Reading(2000)], 0);
    var w2 := Nothing(None, map[0 := Reading(2000)], 0);
    var w3 := One(b, 1000, None, map[0 := Reading(2000), 1 := Reading(1000)], 0);
    var w4 := w3.(tasks := map[0 := Writing(2000), 1 := Reading(1000)]);
    var w5 := w3.(tasks := map[0 := Writing(2000), 1 := Writing(1000)]);
    NoSteps(limits, gates);
    Inserted(limits, None, map[], 0, 0, a, 2);
    assert w1.tasks == map[][0 := Reading(2000)];
    Then(limits, gates, START, [], Insert(0, a, [0], 2, 0), w1);
    steps := [] + [(Insert(0, a, [0], 2, 0), w1)];
    Fetched(limits, a, 2000, None, w1.tasks, 0);
    Then(limits, gates, START, steps, Drop({a}, 0), w2);
    steps := steps + [(Drop({a}, 0), w2)];
    Inserted(limits, None, w2.tasks, 0, 1, b, 1);
    assert w3.tasks == w2.tasks[1 := Reading(1000)];
    Then(limits, gates, START, steps, Insert(1, b, [0], 1, 0), w3);
    steps := steps + [(Insert(1, b, [0], 1, 0), w3)];
    ReadsNone(limits, w3, 0);
    assert w4.tasks == w3.tasks[0 := Writing(2000)];
    Then(limits, gates, START, steps, Read(0), w4);
    steps := steps + [(Read(0), w4)];
    ReadsNone(limits, w4, 1);
    assert w5.tasks == w4.tasks[1 := Writing(1000)];
    Then(limits, gates, START, steps, Read(1), w5);
    steps := steps + [(Read(1), w5)];
  }

  /** The first publication sets the alarm last. */
  lemma OpenScheduleEndsLate(limits: Limits, gates: Gates, a: Id, b: Id) returns (steps: seq<(Step, World)>)
    requires limits.maxTotal >= 1 && IsObjectId(a) && IsObjectId(b) && a != b && !gates.schedule
    ensures EndsLate(limits, gates, steps)
  {
    hide Next, IsRun, AlarmInTime, IsObjectId;
    var w5 := One(b, 1000, None, map[0 := Writing(2000), 1 := Writing(1000)], 0);
    var w6 := One(b, 1000, Some(1000), map[0 := Writing(2000)], 0);
    var w7 := One(b, 1000, Some(2000), map[], 0);
    steps := UntilBothHaveRead(limits, gates, a, b);
    Writes(limits, w5, 1);
    assert w6.tasks == w5.tasks - {1};
    Then(limits, gates, START, steps, Write(1), w6);
    steps := steps + [(Write(1), w6)];
    Writes(limits, w6, 0);
    assert w7.tasks == w6.tasks - {0};
    Then(limits, gates, START, steps, Write(0), w7);
    steps := steps + [(Write(0), w7)];
    OneIsLate(b, 1000, 2000, 0);
  }

  lemma NoSteps(limits: Limits, gates: Gates)
    ensures IsRun(limits, gates, START, []) && End(START, []) == START == Nothing(None, map[], 0)
  {
  }

  lemma ReadsNone(limits: Limits, w: World, task: nat)
    requires task in w.tasks && w.tasks[task].Reading? && w.alarm.None?
    ensures Next(limits, w, Read(task), w.(tasks := w.tasks[task := Writing(w.tasks[task].at)]))
  {
  }

  lemma ReadsEarlier(limits: Limits, w: World, task: nat)
    requires task in w.tasks && w.tasks[task].Reading? && w.alarm.Some? && w.alarm.value <= w.tasks[task].at
    ensures Next(limits, w, Read(task), w.(tasks := w.tasks - {task}))
  {
  }

  lemma Writes(limits: Limits, w: World, task: nat)
    requires task in w.tasks && !w.tasks[task].Reading?
    ensures Next(limits, w, Write(task), w.(alarm := Some(w.tasks[task].at), tasks := w.tasks - {task}))
  {
  }

  /** An alarm that was set for an object already fetched goes off while a later one is held. */
  lemma UntilItFires(limits: Limits, gates: Gates, a: Id, b: Id) returns (steps: seq<(Step, World)>)
    requires limits.maxTotal >= 1 && IsObjectId(a) && IsObjectId(b) && a != b && !gates.handler
    ensures IsRun(limits, gates, START, steps)
    ensures End(START, steps) == One(b, 3000, None, map[1 := Rearming(3000)], 1000)
  {
    hide Next, IsRun, IsObjectId;
    var w1 := One(a, 1000, None, map[0 := Reading(1000)], 0);
    var w2 := w1.(tasks := map[0 := Writing(1000)]);
    var w3 := One(a, 1000, Some(1000), map[], 0);
    var w4 := Nothing(Some(1000), map[], 0);
    var w5 := One(b, 3000, Some(1000), map[0 := Reading(3000)], 0);
    var w6 := w5.(tasks := map[]);
    var w7 := One(b, 3000, None, map[1 := Rearming(3000)], 1000);
    NoSteps(limits, gates);
    Inserted(limits, None, map[], 0, 0, a, 1);
    assert w1.tasks == map[][0 := Reading(1000)];
    Then(limits, gates, START, [], Insert(0, a, [0], 1, 0), w1);
    steps := [] + [(Insert(0, a, [0], 1, 0), w1)];
    ReadsNone(limits, w1, 0);
    assert w2.tasks == w1.tasks[0 := Writing(1000)];
    Then(limits, gates, START, steps, Read(0), w2);
    steps := steps + [(Read(0), w2)];
    Writes(limits, w2, 0);
    assert w3.tasks == w2.tasks - {0};
    Then(limits, gates, START, steps, Write(0), w3);
    steps := steps + [(Write(0), w3)];
    Fetched(limits, a, 1000, Some(1000), map[], 0);
    Then(limits, gates, START, steps, Drop({a}, 0), w4);
    steps := steps + [(Drop({a}, 0), w4)];
    Inserted(limits, Some(1000), map[], 0, 0, b, 3);
    assert w5.tasks == map[][0 := Reading(3000)];
    Then(limits, gates, START, steps, Insert(0, b, [0], 3, 0), w5);
    steps := steps + [(Insert(0, b, [0], 3, 0), w5)];
    ReadsEarlier(limits, w5, 0);
    assert w6.tasks == w5.tasks - {0};
    Then(limits, gates, START, steps, Read(0), w6);
    steps := steps + [(Read(0), w6)];
    Fired(limits, b, 3000, 1000, map[], 0, 1, 1000);
    assert w7.tasks == map[][1 := Rearming(3000)];
    Then(limits, gates, START, steps, Fire(1, 1000), w7);
    steps := steps + [(Fire(1, 1000), w7)];
  }

  /** Before the handler sets the alarm again, its object is fetched and one that expires earlier is published; the
      handler sets the alarm last. */
  lemma OpenHandlerEndsLate(limits: Limits, gates: Gates, a: Id, b: Id, c: Id) returns (steps: seq<(Step, World)>)
    requires limits.maxTotal >= 1 && IsObjectId(a) && IsObjectId(b) && IsObjectId(c) && a != b && b != c
    requires !gates.handler
    ensures EndsLate(limits, gates, steps)
  {
    hide Next, IsRun, AlarmInTime, IsObjectId;
    var again: map<nat, Task> := map[1 := Rearming(3000)];
    var w8 := Nothing(None, again, 1000);
    var w9 := One(c, 2000, None, again[0 := Reading(2000)], 1000);
    var w10 := w9.(tasks := again[0 := Writing(2000)]);
    var w11 := One(c, 2000, Some(2000), again, 1000);
    var w12 := One(c, 2000, Some(3000), map[], 1000);
    steps := UntilItFires(limits, gates, a, b);
    Fetched(limits, b, 3000, None, again, 1000);
    Then(limits, gates, START, steps, Drop({b}, 1000), w8);
    steps := steps + [(Drop({b}, 1000), w8)];
    Inserted(limits, None, again, 1000, 0, c, 1);
    Then(limits, gates, START, steps, Insert(0, c, [0], 1, 1000), w9);
    steps := steps + [(Insert(0, c, [0], 1, 1000), w9)];
    ReadsNone(limits, w9, 0);
    assert w10.tasks == w9.tasks[0 := Writing(2000)];
    Then(limits, gates, START, steps, Read(0), w10);
    steps := steps + [(Read(0), w10)];
    Writes(limits, w10, 0);
    assert w11.tasks == w10.tasks - {0};
    Then(limits, gates, START, steps, Write(0), w11);
    steps := steps + [(Write(0), w11)];
    Writes(limits, w11, 1);
    assert w12.tasks == w11.tasks - {1};
    Then(limits, gates, START, steps, Write(1), w12);
    steps := steps + [(Write(1), w12)];
    OneIsLate(c, 2000, 3000, 1000);
  }

  function IdOf(c: char): (id: Id)
    requires IsBase64Url(c)
    ensures IsObjectId(id) && id[0] == c
  {
    seq(ENCODED_ID_LEN, _ => c)
  }

  /** Over every run, the alarm is no later than the first expiry once nothing is awaited, exactly when both gates are
      closed: between a publication's reading and setting of the alarm, and between the handler's look at the rows and
      its setting of it. Nothing has to be kept out between the last row and the reading. */
  lemma TheAlarmIsInTimeExactlyWhenGated(limits: Limits, gates: Gates)
    requires limits.maxTotal >= 1
    ensures (forall steps :: IsRun(limits, gates, START, steps) && End(START, steps).tasks == map[] ==>
                               AlarmInTime(End(START, steps).alarm, End(START, steps).view))
       <==> gates.schedule && gates.handler
  {
    if gates.schedule && gates.handler {
      forall steps | IsRun(limits, gates, START, steps) && End(START, steps).tasks == map[]
        ensures AlarmInTime(End(START, steps).alarm, End(START, steps).view)
      {
        GatedNeverPostpones(limits, START, steps);
        InTimeUnlessPostponed(limits, gates, steps);
      }
    } else {
      var a, b, c := IdOf('a'), IdOf('b'), IdOf('c');
      if gates.schedule {
        var steps := OpenHandlerEndsLate(limits, gates, a, b, c);
      } else {
        var steps := OpenScheduleEndsLate(limits, gates, a, b);
      }
    }
  }
}

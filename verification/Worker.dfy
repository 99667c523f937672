/** The relay as a Worker (`relay/cloudflare/src/index.ts`). Its two tables are maps here and its event boundaries are
    method calls: the runtime lets nothing else in while a method runs. What the tables hold between events is the same
    map of objects the daemon keeps, and each route does to it what the daemon's store does. */
module Worker {
  import opened Prelude
  import opened ObjectStore

  const CHUNK_BYTES: nat := 0x10_0000
  const ENCODED_ID_LEN: nat := 22

  datatype Row = Row(size: nat, expiresAt: int)

  predicate IsBase64Url(c: char) {
    'A' <= c <= 'Z' || 'a' <= c <= 'z' || '0' <= c <= '9' || c == '_' || c == '-'
  }

  predicate IsObjectId(id: Id) {
    |id| == ENCODED_ID_LEN && forall i :: 0 <= i < |id| ==> IsBase64Url(id[i])
  }

  // ---------- A body and its chunks ----------

  function Flatten(parts: seq<Bytes>): Bytes {
    if parts == [] then [] else Flatten(parts[..|parts| - 1]) + parts[|parts| - 1]
  }

  function ChunkCount(size: nat): (count: nat)
    ensures size > 0 ==> CHUNK_BYTES * (count - 1) < size <= CHUNK_BYTES * count
    ensures size == 0 ==> count == 0
  {
    if size == 0 then 0 else (size - 1) / CHUNK_BYTES + 1
  }

  function ChunkAt(body: Bytes, number: nat): Bytes
    requires number < ChunkCount(|body|)
  {
    body[CHUNK_BYTES * number..Min(CHUNK_BYTES * (number + 1), |body|)]
  }

  function FirstChunks(body: Bytes, count: nat): seq<Bytes>
    requires count <= ChunkCount(|body|)
  {
    seq(count, i requires 0 <= i < count => ChunkAt(body, i))
  }

  lemma {:induction false} ChunksFlatten(body: Bytes, count: nat)
    requires count <= ChunkCount(|body|)
    ensures Flatten(FirstChunks(body, count)) == body[..Min(CHUNK_BYTES * count, |body|)]
  {
    if count > 0 {
      var chunks := FirstChunks(body, count);
      assert chunks[..count - 1] == FirstChunks(body, count - 1);
      ChunksFlatten(body, count - 1);
      assert CHUNK_BYTES * (count - 1) < |body|;
      assert body[..CHUNK_BYTES * (count - 1)] + ChunkAt(body, count - 1) == body[..Min(CHUNK_BYTES * count, |body|)];
    }
  }

  lemma WholeBody(body: Bytes)
    ensures Flatten(FirstChunks(body, ChunkCount(|body|))) == body
  {
    ChunksFlatten(body, ChunkCount(|body|));
    assert body[..|body|] == body;
  }

  function TotalLength(parts: seq<Bytes>): nat {
    if parts == [] then 0 else TotalLength(parts[..|parts| - 1]) + |parts[|parts| - 1]|
  }

  lemma {:induction false} FlattenedLength(parts: seq<Bytes>, count: nat)
    requires count <= |parts|
    ensures |Flatten(parts)| == TotalLength(parts)
    ensures TotalLength(parts[..count]) <= TotalLength(parts)
  {
    if parts != [] {
      var front := parts[..|parts| - 1];
      if count < |parts| {
        FlattenedLength(front, count);
        assert front[..count] == parts[..count];
      } else {
        FlattenedLength(front, |front|);
        assert parts[..count] == parts;
      }
    }
  }

  lemma NoParts(parts: seq<Bytes>)
    ensures Flatten(parts[..0]) == [] && TotalLength(parts[..0]) == 0
  {
  }

  lemma OnePartMore(parts: seq<Bytes>, i: nat)
    requires i < |parts|
    ensures Flatten(parts[..i + 1]) == Flatten(parts[..i]) + parts[i]
    ensures TotalLength(parts[..i + 1]) == TotalLength(parts[..i]) + |parts[i]|
  {
    assert parts[..i + 1][..i] == parts[..i];
  }

  /** `set` of a typed array. */
  method SetAt(out: array<Byte>, offset: nat, part: Bytes)
    requires offset + |part| <= out.Length
    modifies out
    ensures out[..offset + |part|] == old(out[..offset]) + part
  {
    ghost var before := out[..offset];
    forall k | 0 <= k < |part| {
      out[offset + k] := part[k];
    }
    assert out[..offset] == before && out[offset..offset + |part|] == part;
    assert out[..offset + |part|] == out[..offset] + out[offset..offset + |part|];
  }

  method Concat(parts: seq<Bytes>) returns (out: array<Byte>)
    ensures fresh(out) && out[..] == Flatten(parts)
  {
    var total := 0;
    for i := 0 to |parts|
      invariant total == TotalLength(parts[..i])
    {
      assert parts[..i + 1][..i] == parts[..i];
      total := total + |parts[i]|;
    }
    assert parts[..|parts|] == parts;
    FlattenedLength(parts, 0);
    hide Flatten, TotalLength;
    out := new Byte[total](_ => 0);
    NoParts(parts);
    var offset := 0;
    for i := 0 to |parts|
      invariant offset == TotalLength(parts[..i]) <= total
      invariant out[..offset] == Flatten(parts[..i])
    {
      OnePartMore(parts, i);
      FlattenedLength(parts, i + 1);
      SetAt(out, offset, parts[i]);
      offset := offset + |parts[i]|;
    }
    assert out[..offset] == out[..];
  }

  /** Reads a body that arrives in parts, giving up as soon as it is larger than `cap`. */
  method ReadCapped(parts: seq<Bytes>, cap: nat) returns (body: Option<Bytes>)
    ensures body == if |Flatten(parts)| > cap then None else Some(Flatten(parts))
  {
    FlattenedLength(parts, 0);
    var total := 0;
    for i := 0 to |parts|
      invariant total == TotalLength(parts[..i]) <= cap
    {
      assert parts[..i + 1][..i] == parts[..i];
      total := total + |parts[i]|;
      if total > cap {
        FlattenedLength(parts, i + 1);
        return None;
      }
    }
    assert parts[..|parts|] == parts;
    var out := Concat(parts);
    return Some(out[..]);
  }

  // ---------- The tables ----------

  type Rows = map<Id, Row>
  type Chunks = map<(Id, nat), Bytes>

  /** The object rows describe the objects, and the chunk rows of each are numbered from zero without a gap and hold
      its bytes in order. */
  ghost predicate Tables(rows: Rows, chunks: Chunks, view: Objects) {
    && rows.Keys == view.Keys
    && (forall id :: id in view ==> rows[id] == Row(|view[id].bytes|, view[id].expiresAt))
    && (forall key: (Id, nat) :: key in chunks <==> key.0 in view && key.1 < ChunkCount(|view[key.0].bytes|))
    && (forall key: (Id, nat) :: key in chunks ==> chunks[key] == ChunkAt(view[key.0].bytes, key.1))
  }

  /** Whenever anything is held, the alarm is set no later than the first expiry. */
  ghost predicate AlarmInTime(alarm: Option<int>, view: Objects) {
    forall id :: id in view ==> alarm.Some? && alarm.value <= view[id].expiresAt
  }

  /** The first `count` chunks of a body have been added, and nothing else has changed. */
  ghost predicate Inserted(before: Chunks, id: Id, body: Bytes, count: nat, after: Chunks) {
    && count <= ChunkCount(|body|)
    && (forall key: (Id, nat) :: key in after <==> key in before || (key.0 == id && key.1 < count))
    && (forall key: (Id, nat) :: key in after ==>
          after[key] == if key.0 == id && key.1 < count then ChunkAt(body, key.1) else before[key])
  }

  datatype Reply = Created(ttl: nat) | BadTtl | Oversized | Empty | AtCapacity

  lemma HeldAfterDrop(objects: Objects, now: int)
    ensures Held(DropExpired(objects, now)) <= Held(objects)
  {
    HeldBySome(objects, DropExpired(objects, now));
  }

  /** Sizes of the rows, summed in any order. */
  ghost function SumOfSizes(rows: Rows): nat {
    if rows == map[] then 0 else
      var id :| id in rows;
      rows[id].size + SumOfSizes(rows - {id})
  }

  lemma {:induction false} SumIsHeld(rows: Rows, view: Objects)
    requires rows.Keys == view.Keys && forall id :: id in view ==> rows[id].size == |view[id].bytes|
    ensures SumOfSizes(rows) == Held(view)
  {
    if rows == map[] {
      assert view == map[];
    } else {
      var id :| id in rows && SumOfSizes(rows) == rows[id].size + SumOfSizes(rows - {id});
      HeldWithout(view, id);
      SumIsHeld(rows - {id}, view - {id});
    }
  }

  lemma {:induction false} SumWithout(rows: Rows, id: Id)
    requires id in rows
    ensures SumOfSizes(rows) == rows[id].size + SumOfSizes(rows - {id})
  {
    var first :| first in rows && SumOfSizes(rows) == rows[first].size + SumOfSizes(rows - {first});
    if first != id {
      SumWithout(rows - {first}, id);
      SumWithout(rows - {id}, first);
      assert rows - {first} - {id} == rows - {id} - {first};
    }
  }

  class CliftRelay {
    const limits: Limits
    const maxTtlSeconds: nat
    var rows: Rows
    var chunks: Chunks
    var alarm: Option<int>
    ghost var view: Objects

    /** The tables are in order and within the ceiling. */
    ghost predicate Sound()
      reads this
    {
      && Tables(rows, chunks, view)
      && Held(view) <= limits.maxTotal
      && (forall id :: id in view ==> IsObjectId(id) && view[id].bytes != [])
    }

    /** What holds at every event boundary. */
    ghost predicate Valid()
      reads this
    {
      Sound() && AlarmInTime(alarm, view)
    }

    constructor (limits: Limits, maxTtlSeconds: nat)
      ensures Valid() && view == map[] && this.limits == limits && this.maxTtlSeconds == maxTtlSeconds
    {
      this.limits, this.maxTtlSeconds := limits, maxTtlSeconds;
      rows, chunks, alarm, view := map[], map[], None, map[];
    }

    /** `dropExpired` */
    method Discard(now: int)
      requires Sound()
      modifies this`rows, this`chunks, this`view
      ensures Sound() && view == DropExpired(old(view), now)
    {
      var expired := set id | id in rows && rows[id].expiresAt <= now;
      chunks := map key | key in chunks && key.0 !in expired :: chunks[key];
      rows := map id | id in rows && rows[id].expiresAt > now :: rows[id];
      HeldAfterDrop(view, now);
      view := DropExpired(view, now);
    }

    method HeldBytes() returns (held: nat)
      requires Sound()
      ensures held == Held(view)
    {
      held := 0;
      var rest := rows;
      while rest != map[]
        invariant held + SumOfSizes(rest) == SumOfSizes(rows)
        decreases |rest|
      {
        var id :| id in rest;
        SumWithout(rest, id);
        held := held + rest[id].size;
        assert rest.Keys - {id} < rest.Keys;
        rest := rest - {id};
      }
      SumIsHeld(rows, view);
    }

    method NextExpiry() returns (next: Option<int>)
      requires Sound()
      ensures AlarmInTime(next, view)
      ensures next.None? <==> view == map[]
      ensures next.Some? ==> exists id :: id in view && view[id].expiresAt == next.value
    {
      next := None;
      var left := rows.Keys;
      while left != {}
        invariant left <= rows.Keys
        invariant next.None? <==> left == rows.Keys
        invariant forall id :: id in rows && id !in left ==> next.Some? && next.value <= rows[id].expiresAt
        invariant next.Some? ==> exists id :: id in rows && rows[id].expiresAt == next.value
        decreases left
      {
        var id :| id in left;
        if next.None? || rows[id].expiresAt < next.value {
          next := Some(rows[id].expiresAt);
        }
        left := left - {id};
      }
      assert view == map[] <==> rows == map[];
    }

    /** The runtime clears the alarm as it fires. */
    method Alarm(now: int)
      requires Valid()
      modifies this
      ensures Valid() && view == DropExpired(old(view), now)
      ensures alarm.Some? ==> exists id :: id in view && view[id].expiresAt == alarm.value
    {
      alarm := None;
      Discard(now);
      var next := NextExpiry();
      if next.Some? {
        alarm := next;
      }
    }

    /** The alarm goes to the new deadline, unless it is set for an earlier one. */
    method ScheduleAlarm(at: int)
      modifies this`alarm
      ensures alarm.Some? && alarm.value <= at
      ensures old(alarm).Some? ==> alarm.value <= old(alarm).value
      ensures alarm == Some(at) || alarm == old(alarm)
    {
      var current := alarm;
      if current == None || at < current.value {
        alarm := Some(at);
      }
    }

    method InsertChunks(id: Id, body: Bytes)
      requires forall key: (Id, nat) :: key in chunks ==> key.0 != id
      modifies this`chunks
      ensures Inserted(old(chunks), id, body, ChunkCount(|body|), chunks)
    {
      var number, offset := 0, 0;
      while offset < |body|
        invariant offset == CHUNK_BYTES * number && number <= ChunkCount(|body|)
        invariant Inserted(old(chunks), id, body, number, chunks)
        decreases ChunkCount(|body|) - number
      {
        var end := Min(offset + CHUNK_BYTES, |body|);
        chunks := chunks[(id, number) := body[offset..end]];
        number, offset := number + 1, offset + CHUNK_BYTES;
      }
    }

    /** The part of `publish` after the body has been read: from the capacity check to the last row nothing is let in. */
    method Insert(id: Id, body: Bytes, ttl: nat, now: int) returns (stored: bool)
      requires Valid() && IsObjectId(id) && id !in view && body != []
      modifies this
      ensures Valid()
      ensures stored <==> Held(DropExpired(old(view), now)) + |body| <= limits.maxTotal
      ensures view == if stored then DropExpired(old(view), now)[id := Object(body, now + ttl * 1000)]
                      else DropExpired(old(view), now)
    {
      hide Tables, Inserted, DropExpired, Held, IsObjectId, AlarmInTime;
      Discard(now);
      DroppedExpireLater(old(view), now, alarm);
      var held := HeldBytes();
      if held + |body| > limits.maxTotal {
        return false;
      }
      var expiresAt := now + ttl * 1000;
      NoRowsOf(rows, chunks, view, id);
      ghost var chunksBefore, rowsBefore := chunks, rows;
      rows := rows[id := Row(|body|, expiresAt)];
      InsertChunks(id, body);
      HeldWith(view, id, Object(body, expiresAt));
      RowsInserted(rowsBefore, chunksBefore, view, id, Object(body, expiresAt), chunks);
      ghost var viewBefore, alarmBefore := view, alarm;
      view := view[id := Object(body, expiresAt)];
      ScheduleAlarm(expiresAt);
      StillInTime(alarmBefore, alarm, viewBefore, id, Object(body, expiresAt));
      return true;
    }

    /** The first event of a publication, up to the body: what has expired is dropped, and a lifetime or a declared
        length that will not do is refused. Other events may follow before the body has arrived. */
    method Announce(ttl: Option<nat>, declared: Option<nat>, now: int) returns (refusal: Option<Reply>)
      requires Valid()
      modifies this
      ensures Valid() && view == DropExpired(old(view), now)
      ensures refusal == Some(BadTtl) <==> ttl.None?
      ensures refusal == Some(Oversized) <==> ttl.Some? && declared.Some? && declared.value > limits.maxObject
      ensures refusal.None? || refusal.value.BadTtl? || refusal.value.Oversized?
    {
      DroppedExpireLater(view, now, alarm);
      Discard(now);
      if ttl == None {
        return Some(BadTtl);
      }
      if declared.Some? && declared.value > limits.maxObject {
        return Some(Oversized);
      }
      return None;
    }

    /** The second, once the body has arrived: what it does to the objects as they are by then is what the daemon's store
        does. */
    method Publish(ttl: nat, parts: seq<Bytes>, id: Id, now: int) returns (reply: Reply)
      requires Valid() && IsObjectId(id) && id !in view && limits.maxTotal < U64_MAX
      modifies this
      ensures Valid()
      ensures !reply.BadTtl? && (reply == Oversized <==> |Flatten(parts)| > limits.maxObject)
      ensures reply != Oversized ==> (reply == Empty <==> Flatten(parts) == [])
      ensures reply.Oversized? || reply.Empty? ==> view == old(view)
      ensures reply.Created? || reply.AtCapacity? ==>
        (view, if reply.Created? then Stored else Full)
        == PutInto(old(view), limits, id, Flatten(parts), ttl * 1000, now, now)
      ensures reply.Created? ==> reply.ttl == ttl && id in view
    {
      var body := ReadCapped(parts, limits.maxObject);
      if body == None {
        return Oversized;
      }
      if body.value == [] {
        return Empty;
      }
      var stored := Insert(id, body.value, ttl, now);
      HeldAfterDrop(old(view), now);
      return if stored then Created(ttl) else AtCapacity;
    }

    method Remove(id: Id)
      requires Sound()
      modifies this`rows, this`chunks, this`view
      ensures Sound() && view == old(view) - {id}
    {
      chunks := map key | key in chunks && key.0 != id :: chunks[key];
      rows := rows - {id};
      HeldBySome(view, view - {id});
      view := view - {id};
    }

    /** The chunk rows of one object in the order of their numbers. */
    method SelectChunks(id: Id) returns (parts: seq<Bytes>)
      requires Sound() && id in view
      ensures parts == FirstChunks(view[id].bytes, ChunkCount(|view[id].bytes|))
    {
      hide Tables, FirstChunks, ChunkAt, ChunkCount, Held, NumbersOf;
      ghost var body := view[id].bytes;
      ghost var count := ChunkCount(|body|);
      var numbers := NumbersOf(chunks, id);
      RowNumbers(rows, chunks, view, id);
      NoChunks(body);
      parts := [];
      while numbers != {}
        invariant |parts| <= count && parts == FirstChunks(body, |parts|)
        invariant forall n :: n in numbers <==> |parts| <= n < count
        decreases numbers
      {
        ghost var least := LeastOf(numbers);
        var number :| number in numbers && forall other :: other in numbers ==> number <= other;
        assert |parts| in numbers && number == |parts|;
        ChunkRow(rows, chunks, view, id, number);
        parts := parts + [chunks[(id, number)]];
        numbers := numbers - {number};
      }
      assert |parts| !in numbers;
    }

    method Retrieve(id: Id, now: int) returns (body: Option<Bytes>)
      requires Valid()
      modifies this`rows, this`chunks, this`view
      ensures Valid()
      ensures body == if id in old(view) && old(view)[id].expiresAt > now then Some(old(view)[id].bytes) else None
      ensures view == if body.Some? then old(view) - {id} else old(view)
    {
      if !IsObjectId(id) {
        return None;
      }
      if id !in rows || rows[id].expiresAt <= now {
        return None;
      }
      var parts := SelectChunks(id);
      WholeBody(view[id].bytes);
      var out := Concat(parts);
      Remove(id);
      return Some(out[..]);
    }

    /** A GET: what has expired is dropped first, and what is left is taken exactly as the daemon's store takes it. */
    method Get(id: Id, now: int) returns (body: Option<Bytes>)
      requires Valid()
      modifies this
      ensures Valid() && (view, body) == TakeFrom(old(view), id, now)
    {
      Discard(now);
      ghost var left := view;
      body := Retrieve(id, now);
      assert id !in left ==> left - {id} == left;
    }

    /** A DELETE. */
    method Delete(id: Id, now: int)
      requires Valid()
      modifies this
      ensures Valid() && view == DropExpired(old(view), now) - {id}
    {
      Discard(now);
      Remove(id);
    }
  }

  lemma {:induction false} LeastOf(numbers: set<nat>) returns (least: nat)
    requires numbers != {}
    ensures least in numbers && forall other :: other in numbers ==> least <= other
  {
    var some :| some in numbers;
    var rest := numbers - {some};
    if rest == {} {
      least := some;
      assert numbers == {some};
    } else {
      var below := LeastOf(rest);
      least := if some < below then some else below;
      assert forall other :: other in numbers ==> other == some || other in rest;
    }
  }

  function NumbersOf(chunks: Chunks, id: Id): set<nat> {
    set key | key in chunks && key.0 == id :: key.1
  }

  lemma RowNumbers(rows: Rows, chunks: Chunks, view: Objects, id: Id)
    requires Tables(rows, chunks, view) && id in view
    ensures forall n: nat :: n in NumbersOf(chunks, id) <==> n < ChunkCount(|view[id].bytes|)
  {
    forall n: nat | n < ChunkCount(|view[id].bytes|) ensures n in NumbersOf(chunks, id) {
      var key := (id, n);
      assert key in chunks && key.1 == n;
    }
  }

  lemma NoChunks(body: Bytes)
    ensures FirstChunks(body, 0) == []
  {
  }

  lemma ChunkRow(rows: Rows, chunks: Chunks, view: Objects, id: Id, number: nat)
    requires Tables(rows, chunks, view) && id in view && number < ChunkCount(|view[id].bytes|)
    ensures (id, number) in chunks
    ensures FirstChunks(view[id].bytes, number) + [chunks[(id, number)]] == FirstChunks(view[id].bytes, number + 1)
  {
    var key := (id, number);
    assert key in chunks;
  }

  lemma NoRowsOf(rows: Rows, chunks: Chunks, view: Objects, id: Id)
    requires Tables(rows, chunks, view) && id !in view
    ensures id !in rows && forall key: (Id, nat) :: key in chunks ==> key.0 != id
  {
  }

  lemma RowsInserted(rows: Rows, chunks: Chunks, view: Objects, id: Id, entry: Object, chunks': Chunks)
    requires Tables(rows, chunks, view) && id !in view
    requires Inserted(chunks, id, entry.bytes, ChunkCount(|entry.bytes|), chunks')
    ensures Tables(rows[id := Row(|entry.bytes|, entry.expiresAt)], chunks', view[id := entry])
  {
  }

  lemma StillInTime(alarm: Option<int>, alarm': Option<int>, view: Objects, id: Id, entry: Object)
    requires AlarmInTime(alarm, view) && alarm'.Some? && alarm'.value <= entry.expiresAt
    requires alarm.Some? ==> alarm'.value <= alarm.value
    ensures AlarmInTime(alarm', view[id := entry])
  {
  }

  lemma DroppedExpireLater(view: Objects, now: int, alarm: Option<int>)
    requires AlarmInTime(alarm, view)
    ensures AlarmInTime(alarm, DropExpired(view, now)) && DropExpired(view, now).Keys <= view.Keys
  {
  }

  // ---------- Any run of events ----------

  datatype Event =
    | Published(id: Id, bytes: Bytes, ttl: nat, now: int)
    | Fetched(id: Id, now: int)
    | Withdrawn(id: Id, now: int)
    | Swept(now: int)

  /** What one event does to the objects, and the body it hands out, as the methods above are proved to do it. */
  ghost function After(limits: Limits, objects: Objects, event: Event): (Objects, Option<Bytes>) {
    match event
    case Published(id, bytes, ttl, now) => (PutInto(objects, limits, id, bytes, ttl * 1000, now, now).0, None)
    case Fetched(id, now) => TakeFrom(objects, id, now)
    case Withdrawn(id, now) => (DropExpired(objects, now) - {id}, None)
    case Swept(now) => (DropExpired(objects, now), None)
  }

  ghost function Run(limits: Limits, objects: Objects, events: seq<Event>): Objects {
    if events == [] then objects
    else After(limits, Run(limits, objects, events[..|events| - 1]), events[|events| - 1]).0
  }

  ghost predicate Concerns(event: Event, id: Id) {
    !event.Swept? && event.id == id
  }

  /** Whatever else happens, an object that has not expired stays exactly as it is. */
  lemma {:induction false} StaysAsItIs(limits: Limits, objects: Objects, events: seq<Event>, id: Id)
    requires id in objects
    requires forall i :: 0 <= i < |events| ==> !Concerns(events[i], id) && events[i].now < objects[id].expiresAt
    ensures id in Run(limits, objects, events) && Run(limits, objects, events)[id] == objects[id]
  {
    if events != [] {
      StaysAsItIs(limits, objects, events[..|events| - 1], id);
      var last := events[|events| - 1];
      assert !Concerns(last, id);
    }
  }

  /** Once gone, an object stays gone as long as its id is not published again. */
  lemma {:induction false} StaysGone(limits: Limits, objects: Objects, events: seq<Event>, id: Id)
    requires id !in objects
    requires forall i :: 0 <= i < |events| ==> !(events[i].Published? && events[i].id == id)
    ensures id !in Run(limits, objects, events)
  {
    if events != [] {
      StaysGone(limits, objects, events[..|events| - 1], id);
      var last := events[|events| - 1];
      assert !(last.Published? && last.id == id);
    }
  }

  /** A stored body is handed out byte for byte by the first fetch before its deadline, and by no fetch after that,
      however many other events come between. */
  lemma HandedOutExactlyOnce(limits: Limits, objects: Objects, publish: Event, between: seq<Event>, now: int,
                             later: seq<Event>, again: int)
    requires publish.Published? && PutInto(objects, limits, publish.id, publish.bytes, publish.ttl * 1000,
                                           publish.now, publish.now).1 == Stored
    requires forall i :: 0 <= i < |between| ==>
      !Concerns(between[i], publish.id) && between[i].now < publish.now + publish.ttl * 1000
    requires now < publish.now + publish.ttl * 1000
    requires forall i :: 0 <= i < |later| ==> !(later[i].Published? && later[i].id == publish.id)
    ensures var held := Run(limits, After(limits, objects, publish).0, between);
            var (left, body) := After(limits, held, Fetched(publish.id, now));
            && body == Some(publish.bytes)
            && After(limits, Run(limits, left, later), Fetched(publish.id, again)).1 == None
  {
    var stored := After(limits, objects, publish).0;
    StaysAsItIs(limits, stored, between, publish.id);
    var held := Run(limits, stored, between);
    var left := After(limits, held, Fetched(publish.id, now)).0;
    StaysGone(limits, left, later, publish.id);
    hide Held;
  }
}

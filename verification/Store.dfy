/** The relay's objects (`clift-relayd/src/store.rs`). Each operation is a function of the map it finds behind the
    lock and of the clock; the class changes the map in place and is proved against those functions. */
module ObjectStore {

  import opened Prelude

  type Id = string

  const U64_MAX: nat := 0xFFFF_FFFF_FFFF_FFFF

  datatype Object = Object(bytes: seq<Byte>, expiresAt: int)

  type Objects = map<Id, Object>

  datatype Limits = Limits(maxObject: nat, maxTotal: nat)

  datatype Outcome = Stored | TooLarge | Full

  function DropExpired(objects: Objects, now: int): Objects {
    map id | id in objects && objects[id].expiresAt > now :: objects[id]
  }

  /** The bytes of all objects together. */
  ghost function Held(objects: Objects): nat {
    if objects == map[] then 0 else
      var id :| id in objects;
      |objects[id].bytes| + Held(objects - {id})
  }

  lemma {:induction false} HeldWithout(objects: Objects, id: Id)
    requires id in objects
    ensures Held(objects) == |objects[id].bytes| + Held(objects - {id})
  {
    var first :| first in objects && Held(objects) == |objects[first].bytes| + Held(objects - {first});
    if first != id {
      HeldWithout(objects - {first}, id);
      HeldWithout(objects - {id}, first);
      assert objects - {first} - {id} == objects - {id} - {first};
    }
  }

  lemma HeldWith(objects: Objects, id: Id, entry: Object)
    requires id !in objects
    ensures Held(objects[id := entry]) == Held(objects) + |entry.bytes|
  {
    HeldWithout(objects[id := entry], id);
    assert objects[id := entry] - {id} == objects;
  }

  lemma {:induction false} HeldBySome(objects: Objects, some: Objects)
    requires some.Keys <= objects.Keys && forall id :: id in some ==> some[id] == objects[id]
    ensures Held(some) <= Held(objects)
  {
    if some != objects {
      var id :| id in objects && id !in some;
      HeldWithout(objects, id);
      HeldBySome(objects - {id}, some);
    }
  }

  /** `u64::saturating_add` */
  function SaturatingAdd(a: nat, b: nat): nat {
    if a + b > U64_MAX then U64_MAX else a + b
  }

  /** `put`, with the clock read once to drop what has expired and again, later, to start the new lifetime. */
  ghost function PutInto(objects: Objects, limits: Limits, id: Id, bytes: seq<Byte>, ttl: nat, now: int, later: int)
    : (Objects, Outcome)
  {
    if |bytes| > limits.maxObject then (objects, TooLarge) else
      var left := DropExpired(objects, now);
      if SaturatingAdd(Held(left), |bytes|) > limits.maxTotal then (left, Full)
      else (left[id := Object(bytes, later + ttl)], Stored)
  }

  function TakeFrom(objects: Objects, id: Id, now: int): (Objects, Option<seq<Byte>>) {
    var left := DropExpired(objects, now);
    (left - {id}, if id in left then Some(left[id].bytes) else None)
  }

  function ExpiryIn(objects: Objects, id: Id): Option<int> {
    if id in objects then Some(objects[id].expiresAt) else None
  }

  class Store {
    const limits: Limits
    var objects: Objects

    constructor (maxObject: nat, maxTotal: nat)
      ensures limits == Limits(maxObject, maxTotal) && objects == map[]
    {
      limits := Limits(maxObject, maxTotal);
      objects := map[];
    }

    method Put(id: Id, bytes: seq<Byte>, ttl: nat, now: int, later: int) returns (outcome: Outcome)
      modifies this
      ensures (objects, outcome) == PutInto(old(objects), limits, id, bytes, ttl, now, later)
    {
      if |bytes| > limits.maxObject {
        return TooLarge;
      }
      objects := DropExpired(objects, now);
      var held := SumOfLengths();
      if SaturatingAdd(held, |bytes|) > limits.maxTotal {
        return Full;
      }
      objects := objects[id := Object(bytes, later + ttl)];
      return Stored;
    }

    method SumOfLengths() returns (held: nat)
      ensures held == Held(objects)
    {
      held := 0;
      var rest := objects;
      while rest != map[]
        invariant held + Held(rest) == Held(objects)
        decreases |rest|
      {
        var id :| id in rest;
        HeldWithout(rest, id);
        held := held + |rest[id].bytes|;
        assert rest.Keys - {id} < rest.Keys;
        rest := rest - {id};
      }
    }

    method Take(id: Id, now: int) returns (bytes: Option<seq<Byte>>)
      modifies this
      ensures (objects, bytes) == TakeFrom(old(objects), id, now)
    {
      objects := DropExpired(objects, now);
      bytes := if id in objects then Some(objects[id].bytes) else None;
      objects := objects - {id};
    }

    /** The clock is read before the lock is taken, so `now` may be older than the moment of the insertion. */
    method Restore(id: Id, bytes: seq<Byte>, expiresAt: int, now: int)
      modifies this
      ensures objects == if expiresAt <= now then old(objects) else old(objects)[id := Object(bytes, expiresAt)]
    {
      if expiresAt <= now {
        return;
      }
      objects := objects[id := Object(bytes, expiresAt)];
    }

    method ExpiryOf(id: Id) returns (expiry: Option<int>)
      ensures expiry == ExpiryIn(objects, id)
    {
      expiry := if id in objects then Some(objects[id].expiresAt) else None;
    }

    method Remove(id: Id)
      modifies this
      ensures objects == old(objects) - {id}
    {
      objects := objects - {id};
    }

    method Sweep(now: int)
      modifies this
      ensures objects == DropExpired(old(objects), now)
    {
      objects := DropExpired(objects, now);
    }

    method Usage() returns (count: nat, bytes: nat)
      ensures count == |objects| && bytes == Held(objects)
    {
      count := |objects|;
      bytes := SumOfLengths();
    }
  }
}

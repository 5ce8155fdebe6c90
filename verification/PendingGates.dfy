/**
  services/tee-sim/src/pending-gates.ts: bounded parking of gate outcomes, in time and in number, on a
  JavaScript `Map`. The clock is a parameter of every call.
*/
module PendingGates {
  import opened JsMap
  import opened Wrappers

  datatype Parked<+T> = Parked(value: T, commitment: string, at: int)

  datatype ConsumeResult<+T> = Miss | Mismatch | Hit(value: T)

  /** What `reap` leaves. */
  function Fresh<T>(ttl: int, now: int): Parked<T> -> bool {
    (p: Parked<T>) => now - p.at <= ttl
  }

  function Survivors<T>(m: seq<Entry<Parked<T>>>, ttl: int, max: nat, now: int): seq<Entry<Parked<T>>> {
    MakeRoom(Keep(m, Fresh(ttl, now)), max)
  }

  function Remembered<T>(m: seq<Entry<Parked<T>>>, ttl: int, max: nat, key: string,
                         p: Parked<T>): seq<Entry<Parked<T>>> {
    Set(Survivors(m, ttl, max, p.at), key, p)
  }

  /** What `consume` answers, by what is parked under the key. */
  function Judge<T>(entry: Option<Parked<T>>, ttl: int, commitment: string, now: int): ConsumeResult<T> {
    match entry
    case None => Miss
    case Some(p) => if now - p.at > ttl then Miss else if p.commitment != commitment then Mismatch else Hit(p.value)
  }

  function Answer<T>(m: seq<Entry<Parked<T>>>, ttl: int, key: string, commitment: string, now: int): ConsumeResult<T> {
    Judge(Get(m, key), ttl, commitment, now)
  }

  /** A mismatch leaves everything as it was; otherwise the key is gone, if it was there. */
  function Consumed<T>(m: seq<Entry<Parked<T>>>, ttl: int, key: string, commitment: string,
                       now: int): seq<Entry<Parked<T>>> {
    if Answer(m, ttl, key, commitment, now).Mismatch? then m else Delete(m, key)
  }

  class PendingGates<T> {
    var entries: seq<Entry<Parked<T>>>
    const ttlMs: int
    const max: nat

    ghost predicate Valid()
      reads this
    {
      DistinctKeys(entries)
    }

    constructor (ttlMs: int, max: nat)
      ensures Valid() && entries == [] && this.ttlMs == ttlMs && this.max == max
    {
      this.ttlMs, this.max := ttlMs, max;
      entries := [];
    }

    method Remember(key: string, commitment: string, value: T, now: int)
      requires Valid()
      modifies this
      ensures Valid() && entries == Remembered(old(entries), ttlMs, max, key, Parked(value, commitment, now))
    {
      var _ := Reap(now);
      entries := DropOldest(entries, max);
      SetKeepsDistinct(entries, key, Parked(value, commitment, now));
      entries := Set(entries, key, Parked(value, commitment, now));
    }

    method Consume(key: string, commitment: string, now: int) returns (r: ConsumeResult<T>)
      requires Valid()
      modifies this
      ensures Valid() && r == Answer(old(entries), ttlMs, key, commitment, now)
      ensures entries == Consumed(old(entries), ttlMs, key, commitment, now)
    {
      DeleteKeepsDistinct(entries, key);
      GetHas(entries, key);
      var entry := Get(entries, key);
      if entry.None? {
        DeleteAbsent(entries, key);
        return Miss;
      }
      if now - entry.value.at > ttlMs {
        entries := Delete(entries, key);
        return Miss;
      }
      if entry.value.commitment != commitment { return Mismatch; }
      entries := Delete(entries, key);
      return Hit(entry.value.value);
    }

    method Sweep(now: int) returns (removed: nat)
      requires Valid()
      modifies this
      ensures Valid() && entries == Keep(old(entries), Fresh(ttlMs, now)) && removed == |old(entries)| - |entries|
    {
      removed := Reap(now);
    }

    method Reap(now: int) returns (removed: nat)
      requires Valid()
      modifies this
      ensures Valid() && entries == Keep(old(entries), Fresh(ttlMs, now)) && removed == |old(entries)| - |entries|
    {
      entries, removed := ReapEntries(entries, Fresh(ttlMs, now));
    }
  }
}

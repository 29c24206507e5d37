/**
 * The in-memory duplicate filter that sensorListener.js (`recentCache`, a
 * Map) and services/sensorHandler.js (`recentPackets`, a Set) each keep.
 * Both record a key on first sight and schedule its removal `ttl`
 * milliseconds later with setTimeout. Here the timer is replaced by an
 * explicit clock: the cache remembers when each key was first seen, and
 * `Expire(now)` performs every removal that is due by `now`.
 */
module Dedup {

  /** The removal time of a key first seen at `seen`. */
  function Deadline(seen: int, ttl: nat): int
  {
    seen + ttl
  }

  /** isDuplicate as a function: the new cache and whether the key was already there. */
  function Check(cache: map<string, int>, key: string, now: int): (map<string, int>, bool)
  {
    if key in cache then (cache, true) else (cache[key := now], false)
  }

  /** The cache once every timer due by `now` has fired. */
  function Expired(cache: map<string, int>, ttl: nat, now: int): (r: map<string, int>)
    ensures forall k :: k in r <==> k in cache && now < Deadline(cache[k], ttl)
    ensures forall k :: k in r ==> r[k] == cache[k]
  {
    map k | k in cache && now < Deadline(cache[k], ttl) :: cache[k]
  }

  /**
   * The first check of a key answers false and records it at `now`; any
   * later check while the key is recorded answers true and leaves the cache
   * as it was, so a repeat sighting does not push the removal back.
   */
  lemma CheckContract(cache: map<string, int>, key: string, now: int)
    ensures var (c, dup) := Check(cache, key, now);
      && (dup <==> key in cache)
      && key in c
      && (dup ==> c == cache)
      && (!dup ==> c[key] == now && forall k :: k in cache ==> k in c && c[k] == cache[k])
      && (forall k :: k in c ==> k in cache || k == key)
  {
  }

  /**
   * A key first seen at `seen` is reported as a duplicate at every later
   * time before its deadline, whatever expiries happen in between, and is
   * accepted again once the deadline has passed.
   */
  lemma DuplicateUntilDeadline(cache: map<string, int>, key: string, ttl: nat, seen: int, now: int)
    requires key !in cache && seen <= now
    ensures var c := Check(cache, key, seen).0;
      && (now < seen + ttl ==> Check(Expired(c, ttl, now), key, now).1)
      && (seen + ttl <= now ==> !Check(Expired(c, ttl, now), key, now).1)
  {
  }

  /** Expiring twice at the same time is the same as expiring once. */
  lemma ExpiredIdempotent(cache: map<string, int>, ttl: nat, now: int)
    ensures Expired(Expired(cache, ttl, now), ttl, now) == Expired(cache, ttl, now)
  {
  }

  /** A cache of recently seen keys, each with the time it was first seen. */
  class RecentKeys {
    var firstSeen: map<string, int>
    const ttl: nat

    /** An empty cache whose entries live `ttl` milliseconds. */
    constructor (ttl: nat)
      ensures firstSeen == map[] && this.ttl == ttl
    {
      firstSeen := map[];
      this.ttl := ttl;
    }

    /** isDuplicate(key) at time `now`. */
    method IsDuplicate(key: string, now: int) returns (dup: bool)
      modifies this
      ensures (firstSeen, dup) == Check(old(firstSeen), key, now)
    {
      if key in firstSeen {
        return true;
      }
      firstSeen := firstSeen[key := now];
      return false;
    }

    /** The removals the setTimeout callbacks have performed by `now`. */
    method Expire(now: int)
      modifies this
      ensures firstSeen == Expired(old(firstSeen), ttl, now)
    {
      var keys := firstSeen.Keys;
      var kept: map<string, int> := map[];
      while keys != {}
        invariant keys <= firstSeen.Keys
        invariant forall k :: k in kept <==> k in firstSeen && k !in keys && now < Deadline(firstSeen[k], ttl)
        invariant forall k :: k in kept ==> kept[k] == firstSeen[k]
        decreases |keys|
      {
        var k :| k in keys;
        if now < Deadline(firstSeen[k], ttl) {
          kept := kept[k := firstSeen[k]];
        }
        keys := keys - {k};
      }
      firstSeen := kept;
    }
  }
}

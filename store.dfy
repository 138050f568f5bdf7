/**
 * The key-value store with lazy expiration. Values live in `kv`; keys that
 * carry a deadline also have an entry in `expires`. The clock is an explicit
 * `now` argument counted in steady_clock ticks (nanoseconds), so a deadline
 * set with a TTL in milliseconds lies TicksPerMs ticks per millisecond ahead.
 *
 * Each operation is given as a function on the two maps (GetOp, SetOp, ...)
 * and implemented by a method of the Store class that updates its fields in
 * place the way the C++ does. The lemmas say what the operations mean for a
 * client, who only ever observes Live(...): the entries whose deadline has
 * not yet passed.
 */
module Db {
  import opened Wrappers
  import opened Decimal

  /** steady_clock ticks per millisecond (std::chrono::nanoseconds). */
  const TicksPerMs: int := 1_000_000

  /** The store's two maps as a value. */
  datatype Maps = Maps(kv: map<string, string>, expires: map<string, int>)

  /** The store's invariant: every deadline belongs to a stored key. */
  predicate Consistent(m: Maps) {
    m.expires.Keys <= m.kv.Keys
  }

  predicate IsExpired(m: Maps, key: string, now: int) {
    key in m.expires && m.expires[key] <= now
  }

  /** What a client observes at time `now`: the stored entries whose deadline has not passed. */
  function Live(m: Maps, now: int): map<string, string> {
    map k | k in m.kv && !IsExpired(m, k, now) :: m.kv[k]
  }

  /** Erases a key from both maps. */
  function Forget(m: Maps, key: string): Maps {
    Maps(m.kv - {key}, m.expires - {key})
  }

  /** The deadline `ttlMs` milliseconds after `now`, computed without overflow. */
  function Deadline(now: int, ttlMs: int): int {
    now + ttlMs * TicksPerMs
  }

  // ----- the operations on the two maps -----

  /** get: the value of a stored key, erasing it from both maps when its deadline has passed. */
  function GetOp(m: Maps, key: string, now: int): (Option<string>, Maps) {
    if key !in m.kv then (None, m)
    else if key !in m.expires then (Some(m.kv[key]), m)
    else if m.expires[key] <= now then (None, Forget(m, key))
    else (Some(m.kv[key]), m)
  }

  /** remove_expiration: drops the deadline of a key, if it has one. */
  function RemoveExpirationOp(m: Maps, key: string): Maps {
    Maps(m.kv, m.expires - {key})
  }

  /** set: stores the value and clears any deadline of the key. */
  function SetOp(m: Maps, key: string, value: string): Maps {
    RemoveExpirationOp(Maps(m.kv[key := value], m.expires), key)
  }

  /** del: whether the key was stored (its deadline is not consulted), and the maps without it. */
  function DelOp(m: Maps, key: string): (bool, Maps) {
    if key !in m.kv then (false, m) else (true, Forget(m, key))
  }

  /** expire: sets or replaces the deadline of a stored key; a missing key changes nothing. */
  function ExpireOp(m: Maps, key: string, ttlMs: int, now: int): (bool, Maps) {
    if key !in m.kv then (false, m)
    else (true, Maps(m.kv, m.expires[key := Deadline(now, ttlMs)]))
  }

  /** ttl: -2 for a missing or expired key (erasing an expired one), -1 without deadline, else whole milliseconds left. */
  function TtlOp(m: Maps, key: string, now: int): (int, Maps) {
    if key !in m.kv then (-2, m)
    else if key !in m.expires then (-1, m)
    else if m.expires[key] <= now then (-2, Forget(m, key))
    else
      var remaining := (m.expires[key] - now) / TicksPerMs;
      (if remaining < 0 then 0 else remaining, m)
  }

  /** The maps once the deadlines of the keys in `visited` have been examined at time `now`. */
  function SweepPart(m: Maps, visited: set<string>, now: int): Maps {
    Maps(map k | k in m.kv && !(k in visited && IsExpired(m, k, now)) :: m.kv[k],
         map k | k in m.expires && !(k in visited && m.expires[k] <= now) :: m.expires[k])
  }

  /** sweep_expired: every key whose deadline has passed is erased from both maps. */
  function SweepOp(m: Maps, now: int): Maps {
    SweepPart(m, m.expires.Keys, now)
  }

  // ----- what the operations mean -----

  /** Liveness only shrinks as time passes, and a live key keeps its value. */
  lemma LiveShrinksOverTime(m: Maps, t1: int, t2: int)
    requires t1 <= t2
    ensures Live(m, t2).Keys <= Live(m, t1).Keys
    ensures forall k :: k in Live(m, t2) ==> Live(m, t1)[k] == Live(m, t2)[k]
  {
  }

  /** Erasing an expired key is invisible to clients, then and at every later time. */
  lemma LazyRemovalIsInvisible(m: Maps, key: string, now: int, t: int)
    requires IsExpired(m, key, now) && now <= t
    ensures Live(Forget(m, key), t) == Live(m, t)
  {
    var m' := Forget(m, key);
    assert Live(m', t).Keys == Live(m, t).Keys;
  }

  /** get returns exactly the live value; what it erases is invisible from then on. */
  lemma GetOpMeaning(m: Maps, key: string, now: int, t: int)
    requires now <= t
    ensures GetOp(m, key, now).0 == if key in Live(m, now) then Some(Live(m, now)[key]) else None
    ensures Live(GetOp(m, key, now).1, t) == Live(m, t)
  {
    if IsExpired(m, key, now) {
      LazyRemovalIsInvisible(m, key, now, t);
    }
  }

  /** After set, the key is live with the new value at every time; the other keys are untouched. */
  lemma SetOpMeaning(m: Maps, key: string, value: string, t: int)
    ensures Live(SetOp(m, key, value), t) == Live(m, t)[key := value]
    ensures key !in SetOp(m, key, value).expires
  {
    var m' := SetOp(m, key, value);
    assert Live(m', t).Keys == Live(m, t).Keys + {key};
  }

  /** del reports whether the key was stored, even if stale, and afterwards it is in neither map. */
  lemma DelOpMeaning(m: Maps, key: string, t: int)
    ensures DelOp(m, key).0 <==> key in m.kv
    ensures key !in DelOp(m, key).1.kv
    ensures Consistent(m) ==> key !in DelOp(m, key).1.expires
    ensures Live(DelOp(m, key).1, t) == Live(m, t) - {key}
  {
    var m' := DelOp(m, key).1;
    assert Live(m', t).Keys == Live(m, t).Keys - {key};
  }

  /** expire on a stored key makes it live exactly until the deadline and leaves every other key as it was. */
  lemma ExpireOpMeaning(m: Maps, key: string, ttlMs: int, now: int, t: int)
    ensures ExpireOp(m, key, ttlMs, now).0 <==> key in m.kv
    ensures ExpireOp(m, key, ttlMs, now).1.kv == m.kv
    ensures key in m.kv ==> (key in Live(ExpireOp(m, key, ttlMs, now).1, t) <==> t < Deadline(now, ttlMs))
    ensures Live(ExpireOp(m, key, ttlMs, now).1, t) - {key} == Live(m, t) - {key}
  {
    var m' := ExpireOp(m, key, ttlMs, now).1;
    assert (Live(m', t) - {key}).Keys == (Live(m, t) - {key}).Keys;
  }

  /** ttl: -2 exactly when the key is not live, -1 exactly when it is live without deadline, else the whole milliseconds left. */
  lemma TtlOpMeaning(m: Maps, key: string, now: int, t: int)
    requires now <= t
    ensures TtlOp(m, key, now).0 == -2 <==> key !in Live(m, now)
    ensures TtlOp(m, key, now).0 == -1 <==> key in Live(m, now) && key !in m.expires
    ensures key in Live(m, now) && key in m.expires ==>
              TtlOp(m, key, now).0 == (m.expires[key] - now) / TicksPerMs >= 0
    ensures Live(TtlOp(m, key, now).1, t) == Live(m, t)
  {
    if IsExpired(m, key, now) {
      LazyRemovalIsInvisible(m, key, now, t);
    }
  }

  /** A deadline set `ttlMs` > 0 milliseconds ahead reads back as `ttlMs` at once; a zero TTL expires the key at once. */
  lemma ExpireThenTtl(m: Maps, key: string, ttlMs: nat, now: int)
    requires key in m.kv
    ensures var m' := ExpireOp(m, key, ttlMs, now).1;
      TtlOp(m', key, now).0 == if ttlMs == 0 then -2 else ttlMs
  {
    assert (ttlMs * TicksPerMs) / TicksPerMs == ttlMs;
  }

  /** The maps a sweep leaves behind hold no passed deadline, and clients see no difference, then or later. */
  lemma SweepOpMeaning(m: Maps, now: int, t: int)
    requires now <= t
    ensures var s := SweepOp(m, now);
      && s.expires.Keys <= m.expires.Keys
      && (forall k :: k in s.expires ==> now < s.expires[k] == m.expires[k])
      && Live(s, t) == Live(m, t)
  {
    var s := SweepOp(m, now);
    assert Live(s, t).Keys == Live(m, t).Keys;
  }

  /** Every operation keeps each deadline attached to a stored key. */
  lemma OperationsKeepConsistent(m: Maps, key: string, value: string, ttlMs: int, now: int)
    requires Consistent(m)
    ensures Consistent(GetOp(m, key, now).1)
    ensures Consistent(SetOp(m, key, value))
    ensures Consistent(DelOp(m, key).1)
    ensures Consistent(ExpireOp(m, key, ttlMs, now).1)
    ensures Consistent(TtlOp(m, key, now).1)
    ensures Consistent(RemoveExpirationOp(m, key))
    ensures Consistent(SweepOp(m, now))
  {
  }

  // ----- the deadline as the source computes it -----

  /** Two's-complement wrap-around of a signed 64-bit value. */
  function Wrap64(x: int): int {
    (x + 0x8000_0000_0000_0000) % 0x1_0000_0000_0000_0000 - 0x8000_0000_0000_0000
  }

  /**
   * now() + milliseconds(ttl) on 64-bit nanosecond counts: the conversion of
   * the TTL to nanoseconds and the sum both wrap around.
   */
  function DeadlineAsWritten(now: int, ttlMs: int): int {
    Wrap64(now + Wrap64(ttlMs * TicksPerMs))
  }

  /** Whenever the exact deadline fits in a signed 64-bit count, the computed deadline is the intended one. */
  lemma DeadlineAsWrittenAgreesWhenSmall(now: int, ttlMs: int)
    requires 0 <= now && 0 <= ttlMs && now + ttlMs * TicksPerMs <= LongLongMax
    ensures DeadlineAsWritten(now, ttlMs) == Deadline(now, ttlMs)
  {
  }

  /** With the deadline computed as the source does, TTL right after EXPIRE still reads the TTL back while no wrap occurs. */
  lemma ExpireAsWrittenThenTtl(m: Maps, key: string, ttlMs: nat, now: int)
    requires key in m.kv
    requires 0 <= now && now + ttlMs * TicksPerMs <= LongLongMax
    ensures var m' := Maps(m.kv, m.expires[key := DeadlineAsWritten(now, ttlMs)]);
      TtlOp(m', key, now).0 == if ttlMs == 0 then -2 else ttlMs
  {
    DeadlineAsWrittenAgreesWhenSmall(now, ttlMs);
    ExpireThenTtl(m, key, ttlMs, now);
  }

  /** A TTL of 10^13 ms (accepted by EXPIRE) wraps to a deadline before `now`, so the key expires at once. */
  lemma HugeTtlWrapsIntoThePast(now: int)
    requires 0 <= now <= 0x4000_0000_0000_0000
    ensures DeadlineAsWritten(now, 10_000_000_000_000) == now - 8_446_744_073_709_551_616
    ensures DeadlineAsWritten(now, 10_000_000_000_000) < now < Deadline(now, 10_000_000_000_000)
  {
    assert Wrap64(10_000_000_000_000 * TicksPerMs) == -8_446_744_073_709_551_616;
  }

  // ----- the store object -----

  class Store {
    var kv: map<string, string>
    var expires: map<string, int>

    function State(): Maps
      reads this
    {
      Maps(kv, expires)
    }

    predicate Valid()
      reads this
    {
      Consistent(State())
    }

    constructor ()
      ensures State() == Maps(map[], map[]) && Valid()
    {
      kv := map[];
      expires := map[];
    }

    method Get(key: string, now: int) returns (value: Option<string>)
      requires Valid()
      modifies this
      ensures Valid()
      ensures (value, State()) == GetOp(old(State()), key, now)
    {
      if key !in kv {
        return None;
      }
      if key !in expires {
        return Some(kv[key]);
      }
      if expires[key] <= now {
        kv := kv - {key};
        expires := expires - {key};
        return None;
      }
      return Some(kv[key]);
    }

    method Set(key: string, value: string)
      requires Valid()
      modifies this
      ensures Valid()
      ensures State() == SetOp(old(State()), key, value)
    {
      kv := kv[key := value];
      RemoveExpiration(key);
    }

    method Del(key: string) returns (removed: bool)
      requires Valid()
      modifies this
      ensures Valid()
      ensures (removed, State()) == DelOp(old(State()), key)
    {
      if key !in kv {
        return false;
      }
      kv := kv - {key};
      if key in expires {
        expires := expires - {key};
      } else {
        assert expires == expires - {key};
      }
      return true;
    }

    /** exists: the same lazy lookup as get, reporting only whether a value was found. */
    method Exists(key: string, now: int) returns (found: bool)
      requires Valid()
      modifies this
      ensures Valid()
      ensures found == GetOp(old(State()), key, now).0.Some?
      ensures State() == GetOp(old(State()), key, now).1
    {
      if key !in kv {
        return false;
      }
      if key !in expires {
        return true;
      }
      if expires[key] <= now {
        kv := kv - {key};
        expires := expires - {key};
        return false;
      }
      return true;
    }

    method Expire(key: string, ttlMs: int, now: int) returns (ok: bool)
      requires Valid()
      modifies this
      ensures Valid()
      ensures (ok, State()) == ExpireOp(old(State()), key, ttlMs, now)
    {
      if key !in kv {
        return false;
      }
      var deadline := Deadline(now, ttlMs);
      expires := expires[key := deadline];
      return true;
    }

    method Ttl(key: string, now: int) returns (remaining: int)
      requires Valid()
      modifies this
      ensures Valid()
      ensures (remaining, State()) == TtlOp(old(State()), key, now)
    {
      if key !in kv {
        return -2;
      }
      if key !in expires {
        return -1;
      }
      if expires[key] <= now {
        kv := kv - {key};
        expires := expires - {key};
        return -2;
      }
      remaining := (expires[key] - now) / TicksPerMs;
      if remaining < 0 {
        remaining := 0;
      }
    }

    /** sweep_expired: walks the deadlines once, erasing each passed one from both maps. */
    method SweepExpired(now: int)
      requires Valid()
      modifies this
      ensures Valid()
      ensures State() == SweepOp(old(State()), now)
    {
      ghost var m0 := State();
      var pending := expires.Keys;
      while pending != {}
        invariant pending <= m0.expires.Keys
        invariant State() == SweepPart(m0, m0.expires.Keys - pending, now)
        decreases |pending|
      {
        var key :| key in pending;
        ghost var visited := m0.expires.Keys - pending;
        assert key in expires && expires[key] == m0.expires[key];
        if expires[key] <= now {
          SweepStep(m0, visited, key, now);
          kv := kv - {key};
          expires := expires - {key};
        } else {
          SweepSkip(m0, visited, key, now);
        }
        pending := pending - {key};
        assert m0.expires.Keys - pending == visited + {key};
      }
      assert m0.expires.Keys - pending == m0.expires.Keys;
    }

    method RemoveExpiration(key: string)
      requires Valid()
      modifies this
      ensures Valid()
      ensures State() == RemoveExpirationOp(old(State()), key)
    {
      if key in expires {
        expires := expires - {key};
      } else {
        assert expires == expires - {key};
      }
    }
  }

  lemma SweepStep(m: Maps, visited: set<string>, key: string, now: int)
    requires key in m.expires && key !in visited && m.expires[key] <= now
    ensures SweepPart(m, visited + {key}, now) == Forget(SweepPart(m, visited, now), key)
  {
    var a := SweepPart(m, visited + {key}, now);
    var b := Forget(SweepPart(m, visited, now), key);
    assert a.kv.Keys == b.kv.Keys;
    assert a.expires.Keys == b.expires.Keys;
  }

  lemma SweepSkip(m: Maps, visited: set<string>, key: string, now: int)
    requires key in m.expires && key !in visited && now < m.expires[key]
    ensures SweepPart(m, visited + {key}, now) == SweepPart(m, visited, now)
  {
    var a := SweepPart(m, visited + {key}, now);
    var b := SweepPart(m, visited, now);
    assert a.kv.Keys == b.kv.Keys;
    assert a.expires.Keys == b.expires.Keys;
  }
}

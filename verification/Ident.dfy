// IDENT requests: who lit an LED, when its timer ends, and how a failing clear is retried.
module Ident {
  import opened Options

  datatype Key = Key(enclosure: string, slot: nat)
  datatype Record = Record(createdBy: string, expiresAt: Option<real>)

  // The last verified write to a slot: when, on the monotonic clock, and what it left.
  datatype Stamp = Stamp(at: real, state: bool)
  datatype Retry = Retry(attempts: nat, at: real)
  datatype Verdict = Dark | App(expiresAt: Option<real>) | External

  // Everything the manager knows about one slot.
  datatype Slot = Slot(record: Option<Record>, stamp: Option<Stamp>, retry: Option<Retry>)

  // One hardware write: refused, or what was read back, with the clock at publication.
  datatype Attempt = Failed | ReadBack(state: bool, at: real)

  predicate Expired(record: Record, now: real) { record.expiresAt.Some? && now >= record.expiresAt.value }

  predicate Superseded(stamp: Option<Stamp>, observedAt: real) { stamp.Some? && observedAt <= stamp.value.at }

  function Describe(slot: Slot, lit: bool, observedAt: real): Verdict {
    var believed := if Superseded(slot.stamp, observedAt) then slot.stamp.value.state else lit;
    if !believed then Dark
    else if slot.record.None? then External
    else App(slot.record.value.expiresAt)
  }

  predicate Offered(duration: Option<nat>) {
    duration == None || duration.value == 10 || duration.value == 30 || duration.value == 60 || duration.value == 300
  }

  function NewRecord(user: string, duration: Option<nat>, now: real): Record {
    Record(user, if duration == None then None else Some(now + duration.value as real))
  }

  // What a verified write publishes.
  function Published(on: bool, record: Record, at: real): Slot {
    Slot(if on then Some(record) else None, Some(Stamp(at, on)), None)
  }

  function Pow2(n: nat): nat { if n == 0 then 1 else 2 * Pow2(n - 1) }

  function RetryOf(slot: Slot, now: real): Retry { if slot.retry.Some? then slot.retry.value else Retry(0, now) }

  // The timer writes to a slot exactly when its record has expired and no backoff is open.
  predicate Due(slot: Slot, now: real) {
    slot.record.Some? && Expired(slot.record.value, now) && now >= RetryOf(slot, now).at
  }

  datatype Policy = Policy(maxAttempts: int, backoff: real)

  // How long to wait after the k-th failed clear.
  function Delay(policy: Policy, k: nat): real
    requires k > 0
  {
    policy.backoff * Pow2(k - 1) as real
  }

  // What a clear leaves of the slot it finds, once it has been decided on.
  function Cleared(policy: Policy, retry: Retry, slot: Slot, now: real, attempt: Attempt): Slot {
    if attempt.ReadBack? && !attempt.state then Slot(None, Some(Stamp(attempt.at, false)), None)
    else
      var attempts := retry.attempts + 1;
      if attempts >= policy.maxAttempts then Slot(None, slot.stamp, None)
      else slot.(retry := Some(Retry(attempts, now + Delay(policy, attempts))))
  }

  // One pass of the timer over one slot.
  function Ticked(policy: Policy, slot: Slot, now: real, attempt: Attempt): Slot {
    if !Due(slot, now) then slot
    else Cleared(policy, RetryOf(slot, now), slot, now, attempt)
  }

  // Startup writes OFF exactly to loaded records whose LED is lit and whose timer has ended.
  predicate ClearedAtStart(record: Option<Record>, observed: Option<bool>, now: real) {
    record.Some? && observed == Some(true) && Expired(record.value, now)
  }

  function Reconciled(slot: Slot, observed: Option<bool>, now: real, attempt: Attempt): Slot {
    if slot.record.None? then slot
    else if observed != Some(true) then slot.(record := None)
    else if ClearedAtStart(slot.record, observed, now) && attempt.ReadBack? && !attempt.state
    then Slot(None, Some(Stamp(attempt.at, false)), None)
    else slot
  }

  // ------------------------------------------------------------------ the manager

  function Get<K(==), V>(m: map<K, V>, k: K): Option<V> { if k in m then Some(m[k]) else None }

  class IdentManager {
    var records: map<Key, Record>
    var failures: map<Key, Retry>
    var lastWrite: map<Key, Stamp>
    const policy: Policy

    constructor (policy: Policy)
      ensures this.policy == policy
      ensures forall key :: At(key) == Slot(None, None, None)
    {
      this.policy := policy;
      records, failures, lastWrite := map[], map[], map[];
    }

    function At(key: Key): Slot
      reads this
    {
      Slot(Get(records, key), Get(lastWrite, key), Get(failures, key))
    }

    method DescribeBay(key: Key, lit: bool, observedAt: real) returns (verdict: Verdict)
      ensures verdict == Describe(At(key), lit, observedAt)
    {
      var believed := lit;
      if key in lastWrite && observedAt <= lastWrite[key].at {
        believed := lastWrite[key].state;
      }
      if !believed {
        return Dark;
      }
      if key !in records {
        return External;
      }
      return App(records[key].expiresAt);
    }

    // identify(): a refused or unverified write changes nothing at all; a verified one
    // replaces everything known about its slot, and touches no other.
    method Identify(key: Key, on: bool, user: string, duration: Option<nat>, attempt: Attempt, now: real)
      returns (done: bool)
      modifies this
      ensures done == ((on ==> duration in {None, Some(10), Some(30), Some(60), Some(300)})
                       && attempt.ReadBack? && attempt.state == on)
      ensures At(key) ==
              if !done then old(At(key))
              else if on then Slot(Some(Record(user, if duration.Some? then Some(now + duration.value as real) else None)),
                                   Some(Stamp(attempt.at, true)), None)
              else Slot(None, Some(Stamp(attempt.at, false)), None)
      ensures forall other :: other != key ==> At(other) == old(At(other))
    {
      if on && !Offered(duration) {
        return false;
      }
      if attempt.Failed? || attempt.state != on {
        return false;
      }
      failures := failures - {key};
      if !on {
        lastWrite := lastWrite[key := Stamp(attempt.at, false)];
        records := records - {key};
        return true;
      }
      records := records[key := NewRecord(user, duration, now)];
      lastWrite := lastWrite[key := Stamp(attempt.at, true)];
      return true;
    }

    // One pass of _tick. `attempts` is what each slot's OFF write would come to.
    method Tick(now: real, attempts: Key -> Attempt) returns (written: set<Key>)
      modifies this
      ensures forall key :: At(key) == Ticked(policy, old(At(key)), now, attempts(key))
      ensures forall key :: key in written <==> Due(old(At(key)), now)
    {
      written := {};
      var left := records.Keys;
      while left != {}
        invariant left <= old(records).Keys
        invariant forall key :: key in left || key !in old(records) ==> At(key) == old(At(key))
        invariant forall key :: key in old(records) && key !in left ==> At(key) == Ticked(policy, old(At(key)), now, attempts(key))
        invariant forall key :: key in written <==> key !in left && Due(old(At(key)), now)
        decreases left
      {
        var key :| key in left;
        assert At(key) == old(At(key)) && key in records;
        left := left - {key};
        var wrote := TickSlot(key, now, attempts(key));
        if wrote {
          written := written + {key};
        }
      }
      assert forall key :: key !in old(records) ==> old(At(key)).record.None?;
    }

    method TickSlot(key: Key, now: real, attempt: Attempt) returns (wrote: bool)
      requires key in records
      modifies this
      ensures wrote == Due(old(At(key)), now)
      ensures At(key) == Ticked(policy, old(At(key)), now, attempt)
      ensures forall other :: other != key ==> At(other) == old(At(other))
    {
      wrote := false;
      if Expired(records[key], now) {
        var retry := if key in failures then failures[key] else Retry(0, now);
        if now >= retry.at {
          wrote := true;
          ClearExpired(key, retry, now, attempt);
        }
      }
    }

    // The pass once it has decided: it waits for the enclosure's lock, so the slot it clears
    // need not be the slot it decided on.
    method ClearExpired(key: Key, retry: Retry, now: real, attempt: Attempt)
      modifies this
      ensures At(key) == Cleared(policy, retry, old(At(key)), now, attempt)
      ensures forall other :: other != key ==> At(other) == old(At(other))
    {
      var cleared := Identify(key, false, "system:timer", None, attempt, now);
      if !cleared {
        assert At(key) == old(At(key));
        var tried := retry.attempts + 1;
        if tried >= policy.maxAttempts {
          records := records - {key};
          failures := failures - {key};
        } else {
          failures := failures[key := Retry(tried, now + Delay(policy, tried))];
        }
      }
    }

    method ReconcileSlot(key: Key, lit: Option<bool>, now: real, attempt: Attempt) returns (wrote: bool)
      requires key in records
      modifies this
      ensures wrote == ClearedAtStart(old(At(key)).record, lit, now)
      ensures At(key) == Reconciled(old(At(key)), lit, now, attempt)
      ensures forall other :: other != key ==> At(other) == old(At(other))
    {
      wrote := false;
      if lit.None? || !lit.value {
        records := records - {key};
      } else if Expired(records[key], now) {
        wrote := true;
        var cleared := Identify(key, false, "system:reconcile", None, attempt, now);
      }
    }

    // Startup: `saved` is the state file, when it could be read.
    method Reconcile(saved: Option<map<Key, Record>>, observed: map<Key, bool>, now: real, attempts: Key -> Attempt)
      returns (written: set<Key>)
      modifies this
      ensures var loaded := if saved.Some? then saved.value else old(records);
              && (forall key :: At(key) ==
                    Reconciled(old(At(key)).(record := Get(loaded, key)), Get(observed, key), now, attempts(key)))
              && (forall key :: key in written <==> ClearedAtStart(Get(loaded, key), Get(observed, key), now))
              && (forall key :: key in records ==> key in loaded && records[key] == loaded[key] && Get(observed, key) == Some(true))
    {
      if saved.Some? {
        records := saved.value;
      }
      written := {};
      ghost var loaded := records;
      label Loaded:
      var left := records.Keys;
      while left != {}
        invariant left <= loaded.Keys
        invariant forall key :: key in left || key !in loaded ==> At(key) == old@Loaded(At(key))
        invariant forall key :: key !in left ==>
                    At(key) == Reconciled(old@Loaded(At(key)), Get(observed, key), now, attempts(key))
        invariant forall key :: key in written <==> key !in left && ClearedAtStart(Get(loaded, key), Get(observed, key), now)
        decreases left
      {
        var key :| key in left;
        assert At(key) == old@Loaded(At(key)) && key in records;
        left := left - {key};
        var wrote := ReconcileSlot(key, Get(observed, key), now, attempts(key));
        if wrote {
          written := written + {key};
        }
      }
      forall key | key in records
        ensures key in loaded && records[key] == loaded[key] && Get(observed, key) == Some(true)
      {
        assert At(key).record == Some(records[key]);
        assert old@Loaded(At(key)).record == Get(loaded, key);
      }
    }
  }

  // ------------------------------------------------------------------ the clear-retry protocol

  datatype Pass = Pass(now: real, attempt: Attempt)

  predicate Fails(attempt: Attempt) { attempt.Failed? || attempt.state }

  // The slot after the first n passes.
  function After(policy: Policy, slot: Slot, passes: seq<Pass>, n: nat): Slot
    requires n <= |passes|
  {
    if n == 0 then slot else Ticked(policy, After(policy, slot, passes, n - 1), passes[n - 1].now, passes[n - 1].attempt)
  }

  // Whether pass i writes OFF to the slot.
  predicate Writes(policy: Policy, slot: Slot, passes: seq<Pass>, i: nat)
    requires i < |passes|
  {
    Due(After(policy, slot, passes, i), passes[i].now)
  }

  function WritesIn(policy: Policy, slot: Slot, passes: seq<Pass>, n: nat): nat
    requires n <= |passes|
  {
    if n == 0 then 0
    else WritesIn(policy, slot, passes, n - 1) + if Writes(policy, slot, passes, n - 1) then 1 else 0
  }

  function Limit(policy: Policy): nat { if policy.maxAttempts < 1 then 1 else policy.maxAttempts }

  // The time of the last write among the first n passes.
  function LastWrite(policy: Policy, slot: Slot, passes: seq<Pass>, n: nat): real
    requires n <= |passes|
  {
    if n == 0 then 0.0
    else if Writes(policy, slot, passes, n - 1) then passes[n - 1].now
    else LastWrite(policy, slot, passes, n - 1)
  }

  // A request whose clears all fail is written to at most the allowed number of times. Until
  // then the record stays, with a backoff that doubles; at the limit both are gone.
  lemma {:induction false} FailingClearIsBounded(policy: Policy, slot: Slot, passes: seq<Pass>, n: nat)
    requires n <= |passes| && slot.record.Some? && slot.retry.None?
    requires forall i :: 0 <= i < n ==> Fails(passes[i].attempt)
    ensures var k := WritesIn(policy, slot, passes, n);
            var after := After(policy, slot, passes, n);
            && k <= Limit(policy) && (k <= 1 || k <= policy.maxAttempts)
            && after.stamp == slot.stamp
            && (after.record.None? <==> k >= 1 && k >= policy.maxAttempts)
            && (k == Limit(policy) ==> after.record.None? && after.retry.None?)
            && (k < Limit(policy) ==>
                  && after.record == slot.record
                  && after.retry == if k == 0 then None
                                    else Some(Retry(k, LastWrite(policy, slot, passes, n) + Delay(policy, k))))
  {
    if n > 0 {
      FailingClearIsBounded(policy, slot, passes, n - 1);
    }
  }

  // The first retry waits the configured time, and every wait doubles the one before it.
  lemma DelayDoubles(policy: Policy, k: nat)
    requires k > 0
    ensures Delay(policy, 1) == policy.backoff && Delay(policy, k + 1) == 2.0 * Delay(policy, k)
  {
    assert Pow2(1) == 2 * Pow2(0);
    Doubled(policy.backoff, Pow2(k - 1), Pow2(k));
  }

  lemma Doubled(x: real, a: nat, b: nat)
    requires b == 2 * a
    ensures x * b as real == 2.0 * (x * a as real)
  {
    assert b as real == 2.0 * a as real;
  }

  // The (k+1)-th failing write comes at least backoff * 2^(k-1) after the k-th.
  lemma BackoffDoubles(policy: Policy, slot: Slot, passes: seq<Pass>, n: nat)
    requires n < |passes| && slot.record.Some? && slot.retry.None?
    requires forall i :: 0 <= i < n ==> Fails(passes[i].attempt)
    requires WritesIn(policy, slot, passes, n) > 0 && Writes(policy, slot, passes, n)
    ensures passes[n].now >= LastWrite(policy, slot, passes, n) + Delay(policy, WritesIn(policy, slot, passes, n))
  {
    FailingClearIsBounded(policy, slot, passes, n);
  }

  // An expired request is never forgotten: as long as the limit is not reached, every pass
  // that comes after the backoff writes again, and the first that succeeds ends it dark.
  lemma ExpiredIsRetriedUntilCleared(policy: Policy, slot: Slot, passes: seq<Pass>, n: nat)
    requires n < |passes| && slot.record.Some? && slot.retry.None?
    requires forall i :: 0 <= i < n ==> Fails(passes[i].attempt)
    requires WritesIn(policy, slot, passes, n) < Limit(policy)
    ensures var k := WritesIn(policy, slot, passes, n);
            var pass := passes[n];
            && (Writes(policy, slot, passes, n) <==>
                  slot.record.value.expiresAt.Some? && pass.now >= slot.record.value.expiresAt.value
                  && (k > 0 ==> pass.now >= LastWrite(policy, slot, passes, n) + Delay(policy, k)))
            && (Writes(policy, slot, passes, n) && !Fails(pass.attempt) ==>
                  After(policy, slot, passes, n + 1) == Slot(None, Some(Stamp(pass.attempt.at, false)), None))
  {
    FailingClearIsBounded(policy, slot, passes, n);
  }

  // ------------------------------------------------------------------ when a request ends

  // A slot just left by a verified ON at t for d seconds, its stamp at `at`: no pass before
  // t + d touches it, the first one from then on writes OFF, and if that clears, the bay is
  // shown dark and owned by nobody, on whatever reading.
  lemma {:induction false} TimedRequestEndsOnTime(policy: Policy, user: string, t: real, d: nat, at: real, passes: seq<Pass>, n: nat)
    requires n < |passes| && forall i :: 0 <= i < n ==> passes[i].now < t + d as real
    ensures var lit := Slot(Some(Record(user, Some(t + d as real))), Some(Stamp(at, true)), None);
            var pass, after := passes[n], After(policy, lit, passes, n + 1);
            && After(policy, lit, passes, n) == lit
            && (Writes(policy, lit, passes, n) <==> pass.now >= t + d as real)
            && (pass.now < t + d as real ==> after == lit)
            && (pass.now >= t + d as real && pass.attempt.ReadBack? && !pass.attempt.state ==>
                  after == Slot(None, Some(Stamp(pass.attempt.at, false)), None)
                  && forall seen: bool, when: real :: when <= pass.attempt.at ==> Describe(after, seen, when) == Dark)
  {
    if n > 0 {
      TimedRequestEndsOnTime(policy, user, t, d, at, passes, n - 1);
    }
  }

  // One made without a duration is never written to, whatever the passes.
  lemma {:induction false} UntimedRequestStays(policy: Policy, user: string, at: real, passes: seq<Pass>, n: nat)
    requires n <= |passes|
    ensures var lit := Slot(Some(Record(user, None)), Some(Stamp(at, true)), None);
            After(policy, lit, passes, n) == lit && forall i :: 0 <= i < n ==> !Writes(policy, lit, passes, i)
  {
    if n > 0 {
      UntimedRequestStays(policy, user, at, passes, n - 1);
    }
  }

  // While it stands the bay shows our request and when it ends, except on a reading taken
  // after the write that found the LED dark.
  lemma RequestShowsItsEnd(user: string, ends: Option<real>, at: real, lit: bool, observedAt: real)
    ensures Describe(Slot(Some(Record(user, ends)), Some(Stamp(at, true)), None), lit, observedAt) ==
            if observedAt > at && !lit then Dark else App(ends)
  {
  }

  // Startup, record by record: one whose LED is not lit goes; one that has ended is cleared if
  // the write works; any other stays as it was loaded.
  lemma ReconciledIs(slot: Slot, lit: Option<bool>, now: real, attempt: Attempt)
    requires slot.record.Some?
    ensures var ended := slot.record.value.expiresAt.Some? && now >= slot.record.value.expiresAt.value;
            Reconciled(slot, lit, now, attempt) ==
            match lit
            case None => Slot(None, slot.stamp, slot.retry)
            case Some(on) =>
              if !on then Slot(None, slot.stamp, slot.retry)
              else if ended && attempt.ReadBack? && !attempt.state then Slot(None, Some(Stamp(attempt.at, false)), None)
              else slot
    ensures ClearedAtStart(slot.record, lit, now) <==>
            lit == Some(true) && slot.record.value.expiresAt.Some? && now >= slot.record.value.expiresAt.value
  {
  }

  // ------------------------------------------------------------------ waiting for the lock

  datatype Write = Write(on: bool, record: Record, at: real)

  // The slot after verified writes published while the pass waited.
  function Meanwhile(slot: Slot, writes: seq<Write>): Slot {
    if writes == [] then slot
    else
      var last := writes[|writes| - 1];
      Published(last.on, last.record, last.at)
  }

  // A request other than the one the pass decided on.
  predicate Newer(slot: Slot, decided: Slot) { slot.record.Some? && slot.record != decided.record }

  // The pass drops a request that had not expired exactly when the last write published while
  // it waited lit the bay again, and its clear then succeeds or is the last one allowed.
  // Without such a write it does what one step of the timer does.
  lemma NewerRequestIsDroppedIff(policy: Policy, decided: Slot, writes: seq<Write>, now: real, attempt: Attempt)
    requires Due(decided, now) && forall i :: 0 <= i < |writes| ==> !Expired(writes[i].record, now)
    ensures var found := Meanwhile(decided, writes);
            var after := Cleared(policy, RetryOf(decided, now), found, now, attempt);
            && (Newer(found, decided) && after.record.None? <==>
                  && writes != [] && writes[|writes| - 1].on
                  && (!Fails(attempt) || RetryOf(decided, now).attempts + 1 >= policy.maxAttempts))
            && (writes == [] ==> after == Ticked(policy, decided, now, attempt))
  {
    if writes != [] {
      assert !Expired(writes[|writes| - 1].record, now);
    }
  }
}

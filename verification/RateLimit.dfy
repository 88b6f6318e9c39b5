// The login rate limiter: attempts per key inside a sliding window, with pruning.
module RateLimit {
  import opened Options

  type Key = string
  datatype Config = Config(limit: int, window: int)

  // An admitted attempt's clock reading.
  datatype Hit = Hit(at: real)

  // One atomic call, as the lock makes them.
  datatype Op = Check(key: Key, now: real) | Reset(key: Key)

  // ------------------------------------------------------------------ the limiter

  datatype State = State(hits: map<Key, seq<Hit>>, lastPrune: real)

  predicate Fresh(config: Config, hit: Hit, now: real) { now - hit.at < config.window as real }

  function Recent(config: Config, hits: seq<Hit>, now: real): seq<Hit> {
    if hits == [] then []
    else
      var earlier := Recent(config, hits[..|hits| - 1], now);
      if Fresh(config, hits[|hits| - 1], now) then earlier + [hits[|hits| - 1]] else earlier
  }

  function HitsOf(hits: map<Key, seq<Hit>>, key: Key): seq<Hit> { if key in hits then hits[key] else [] }

  predicate AnyFresh(config: Config, hits: seq<Hit>, now: real) {
    exists i :: 0 <= i < |hits| && Fresh(config, hits[i], now)
  }

  function Pruned(config: Config, s: State, now: real): State {
    if now - s.lastPrune < config.window as real then s
    else State(map key | key in s.hits && AnyFresh(config, s.hits[key], now) :: s.hits[key], now)
  }

  // Whether an attempt is admitted, and the state it leaves.
  function Step(config: Config, s: State, op: Op): (State, bool) {
    match op
    case Reset(key) => (s.(hits := s.hits - {key}), true)
    case Check(key, now) =>
      var p := Pruned(config, s, now);
      var recent := Recent(config, HitsOf(p.hits, key), now);
      if |recent| >= config.limit then (p, false)
      else (p.(hits := p.hits[key := recent + [Hit(now)]]), true)
  }

  class RateLimiter {
    const config: Config
    var hits: map<Key, seq<Hit>>
    var lastPrune: real

    constructor (config: Config)
      ensures this.config == config && Current() == State(map[], 0.0)
    {
      this.config := config;
      hits, lastPrune := map[], 0.0;
    }

    function Current(): State
      reads this
    {
      State(hits, lastPrune)
    }

    method Check(key: Key, now: real) returns (admitted: bool)
      modifies this
      ensures (Current(), admitted) == Step(config, old(Current()), Op.Check(key, now))
    {
      Prune(now);
      var mine := if key in hits then hits[key] else [];
      var recent: seq<Hit> := [];
      for i := 0 to |mine|
        invariant recent == Recent(config, mine[..i], now)
      {
        assert mine[..i + 1][..i] == mine[..i];
        if now - mine[i].at < config.window as real {
          recent := recent + [mine[i]];
        }
      }
      assert mine[..|mine|] == mine;
      if |recent| >= config.limit {
        return false;
      }
      hits := hits[key := recent + [Hit(now)]];
      return true;
    }

    method Prune(now: real)
      modifies this
      ensures Current() == Pruned(config, old(Current()), now)
    {
      if now - lastPrune < config.window as real {
        return;
      }
      lastPrune := now;
      hits := map key | key in hits && AnyFresh(config, hits[key], now) :: hits[key];
    }

    method Reset(key: Key)
      modifies this
      ensures Current() == Step(config, old(Current()), Op.Reset(key)).0
    {
      hits := hits - {key};
    }
  }

  // ------------------------------------------------------------------ the simple limiter

  // It keeps every admitted attempt since the key's last reset, for ever, and counts.
  type Log = map<Key, seq<Hit>>

  function SimpleStep(config: Config, log: Log, op: Op): (Log, bool) {
    match op
    case Reset(key) => (log - {key}, true)
    case Check(key, now) =>
      if |Recent(config, HitsOf(log, key), now)| >= config.limit then (log, false)
      else (log[key := HitsOf(log, key) + [Hit(now)]], true)
  }

  function Run(config: Config, ops: seq<Op>, n: nat): State
    requires n <= |ops|
  {
    if n == 0 then State(map[], 0.0) else Step(config, Run(config, ops, n - 1), ops[n - 1]).0
  }

  function SimpleRun(config: Config, ops: seq<Op>, n: nat): Log
    requires n <= |ops|
  {
    if n == 0 then map[] else SimpleStep(config, SimpleRun(config, ops, n - 1), ops[n - 1]).0
  }

  predicate Admits(config: Config, ops: seq<Op>, i: nat)
    requires i < |ops|
  {
    Step(config, Run(config, ops, i), ops[i]).1
  }

  // The monotonic clock as the checks read it.
  ghost predicate Clocked(ops: seq<Op>) {
    forall i, j :: 0 <= i < j < |ops| && ops[i].Check? && ops[j].Check? ==> ops[i].now <= ops[j].now
  }

  // The latest clock reading among the first n operations.
  function Latest(ops: seq<Op>, n: nat): Option<real>
    requires n <= |ops|
  {
    if n == 0 then None else if ops[n - 1].Check? then Some(ops[n - 1].now) else Latest(ops, n - 1)
  }

  lemma {:induction false} LatestIsBefore(ops: seq<Op>, n: nat, i: nat)
    requires n <= i < |ops| && Clocked(ops) && ops[i].Check?
    ensures Latest(ops, n).Some? ==> Latest(ops, n).value <= ops[i].now
  {
    if n > 0 && !ops[n - 1].Check? {
      LatestIsBefore(ops, n - 1, i);
    }
  }

  // From `now` on the two hit lists of a key count the same.
  ghost predicate SameFrom(config: Config, hits: seq<Hit>, log: seq<Hit>, now: real) {
    forall t :: t >= now ==> Recent(config, hits, t) == Recent(config, log, t)
  }

  lemma {:induction false} RecentOfRecent(config: Config, hits: seq<Hit>, now: real, t: real)
    requires t >= now
    ensures Recent(config, Recent(config, hits, now), t) == Recent(config, hits, t)
  {
    if hits != [] {
      var last := hits[|hits| - 1];
      var init := Recent(config, hits[..|hits| - 1], now);
      RecentOfRecent(config, hits[..|hits| - 1], now, t);
      if Fresh(config, last, now) {
        assert (init + [last])[..|init|] == init;
      }
    }
  }

  lemma RecentAppend(config: Config, hits: seq<Hit>, hit: Hit, t: real)
    ensures Recent(config, hits + [hit], t) ==
            if Fresh(config, hit, t) then Recent(config, hits, t) + [hit] else Recent(config, hits, t)
  {
    assert (hits + [hit])[..|hits|] == hits;
  }

  lemma {:induction false} StaleIsNone(config: Config, hits: seq<Hit>, now: real, t: real)
    requires t >= now && !AnyFresh(config, hits, now)
    ensures Recent(config, hits, t) == []
  {
    if hits != [] {
      StaleIsNone(config, hits[..|hits| - 1], now, t);
    }
  }

  ghost predicate Agree(config: Config, s: State, log: Log, now: real) {
    forall key :: SameFrom(config, HitsOf(s.hits, key), HitsOf(log, key), now)
  }

  lemma PruneIsInvisible(config: Config, s: State, log: Log, now: real)
    requires Agree(config, s, log, now)
    ensures Agree(config, Pruned(config, s, now), log, now)
  {
    var p := Pruned(config, s, now);
    forall key, t | t >= now ensures Recent(config, HitsOf(p.hits, key), t) == Recent(config, HitsOf(log, key), t) {
      assert SameFrom(config, HitsOf(s.hits, key), HitsOf(log, key), now);
      if key in s.hits && key !in p.hits {
        StaleIsNone(config, s.hits[key], now, t);
      }
    }
  }

  lemma StepsAgree(config: Config, s: State, log: Log, op: Op, now: real)
    requires Agree(config, s, log, now) && (op.Check? ==> now <= op.now)
    ensures Step(config, s, op).1 == SimpleStep(config, log, op).1
    ensures Agree(config, Step(config, s, op).0, SimpleStep(config, log, op).0, if op.Check? then op.now else now)
  {
    match op
    case Reset(key) =>
      forall k ensures SameFrom(config, HitsOf(s.hits - {key}, k), HitsOf(log - {key}, k), now) {
        assert SameFrom(config, HitsOf(s.hits, k), HitsOf(log, k), now);
      }
    case Check(key, t) =>
      forall k ensures SameFrom(config, HitsOf(s.hits, k), HitsOf(log, k), t) {
        assert SameFrom(config, HitsOf(s.hits, k), HitsOf(log, k), now);
      }
      PruneIsInvisible(config, s, log, t);
      var p := Pruned(config, s, t);
      assert SameFrom(config, HitsOf(p.hits, key), HitsOf(log, key), t);
      var recent := Recent(config, HitsOf(p.hits, key), t);
      if |recent| < config.limit {
        forall u | u >= t
          ensures Recent(config, recent + [Hit(t)], u) == Recent(config, HitsOf(log, key) + [Hit(t)], u)
        {
          RecentAppend(config, recent, Hit(t), u);
          RecentAppend(config, HitsOf(log, key), Hit(t), u);
          RecentOfRecent(config, HitsOf(p.hits, key), t, u);
        }
        var s', log' := p.hits[key := recent + [Hit(t)]], log[key := HitsOf(log, key) + [Hit(t)]];
        forall k ensures SameFrom(config, HitsOf(s', k), HitsOf(log', k), t) {
          assert SameFrom(config, HitsOf(p.hits, k), HitsOf(log, k), t);
        }
      }
  }

  lemma AgreeLater(config: Config, s: State, log: Log, now: real, t: real)
    requires Agree(config, s, log, now) && t >= now
    ensures Agree(config, s, log, t)
  {
    forall k ensures SameFrom(config, HitsOf(s.hits, k), HitsOf(log, k), t) {
      assert SameFrom(config, HitsOf(s.hits, k), HitsOf(log, k), now);
    }
  }

  lemma {:induction false} RunsAgree(config: Config, ops: seq<Op>, n: nat, t: real)
    requires n <= |ops| && Clocked(ops) && (Latest(ops, n).Some? ==> Latest(ops, n).value <= t)
    ensures Agree(config, Run(config, ops, n), SimpleRun(config, ops, n), t)
  {
    if n > 0 {
      var s, log, op := Run(config, ops, n - 1), SimpleRun(config, ops, n - 1), ops[n - 1];
      if op.Check? {
        LatestIsBefore(ops, n - 1, n - 1);
        RunsAgree(config, ops, n - 1, op.now);
        StepsAgree(config, s, log, op, op.now);
        AgreeLater(config, Run(config, ops, n), SimpleRun(config, ops, n), op.now, t);
      } else {
        RunsAgree(config, ops, n - 1, t);
        StepsAgree(config, s, log, op, t);
      }
    }
  }

  // Discarding stale hits and pruning idle keys are invisible: over any run of checks and
  // resets with a clock that does not go back, every answer is the simple limiter's.
  lemma RefinesSimple(config: Config, ops: seq<Op>, i: nat)
    requires i < |ops| && Clocked(ops)
    ensures Admits(config, ops, i) == SimpleStep(config, SimpleRun(config, ops, i), ops[i]).1
  {
    if ops[i].Check? {
      LatestIsBefore(ops, i, i);
      RunsAgree(config, ops, i, ops[i].now);
      StepsAgree(config, Run(config, ops, i), SimpleRun(config, ops, i), ops[i], ops[i].now);
    }
  }

  // ------------------------------------------------------------------ the sliding bound

  // Admissions of the key in ops[m..n).
  predicate AdmittedAt(config: Config, ops: seq<Op>, i: nat, key: Key)
    requires i < |ops|
  {
    ops[i].Check? && ops[i].key == key && Admits(config, ops, i)
  }

  // How many of them fall in the half-open window [from, from + window).
  function CountIn(config: Config, ops: seq<Op>, key: Key, from: real, m: nat, n: nat): nat
    requires m <= n <= |ops|
  {
    if n == m then 0
    else CountIn(config, ops, key, from, m, n - 1)
         + if AdmittedAt(config, ops, n - 1, key) && from <= ops[n - 1].now < from + config.window as real then 1 else 0
  }

  predicate NoReset(ops: seq<Op>, key: Key, m: nat, n: nat)
    requires n <= |ops|
  {
    forall i :: m <= i < n ==> ops[i] != Op.Reset(key)
  }

  function Within(config: Config, hits: seq<Hit>, from: real): nat {
    if hits == [] then 0
    else Within(config, hits[..|hits| - 1], from)
         + if from <= hits[|hits| - 1].at < from + config.window as real then 1 else 0
  }

  lemma WithinAppend(config: Config, hits: seq<Hit>, hit: Hit, from: real)
    ensures Within(config, hits + [hit], from) ==
            Within(config, hits, from) + if from <= hit.at < from + config.window as real then 1 else 0
  {
    assert (hits + [hit])[..|hits|] == hits;
  }

  // Hits inside a window are still fresh at any instant inside it.
  lemma {:induction false} WithinIsRecent(config: Config, hits: seq<Hit>, from: real, now: real)
    requires now < from + config.window as real
    ensures Within(config, hits, from) <= |Recent(config, hits, now)|
  {
    if hits != [] {
      WithinIsRecent(config, hits[..|hits| - 1], from, now);
    }
  }

  lemma StepKeepsBound(config: Config, log: Log, op: Op, key: Key, from: real)
    requires Within(config, HitsOf(log, key), from) <= Bound(config)
    ensures Within(config, HitsOf(SimpleStep(config, log, op).0, key), from) <= Bound(config)
  {
    var (after, admitted) := SimpleStep(config, log, op);
    if op.key != key || (op.Check? && !admitted) {
      assert HitsOf(after, key) == HitsOf(log, key);
    } else if op.Check? {
      assert HitsOf(after, key) == HitsOf(log, key) + [Hit(op.now)];
      WithinAppend(config, HitsOf(log, key), Hit(op.now), from);
      if op.now < from + config.window as real {
        WithinIsRecent(config, HitsOf(log, key), from, op.now);
      }
    }
  }

  // The simple log never holds more than the limit in any window.
  lemma {:induction false} LogIsBounded(config: Config, ops: seq<Op>, key: Key, from: real, n: nat)
    requires n <= |ops|
    ensures Within(config, HitsOf(SimpleRun(config, ops, n), key), from) <= Bound(config)
  {
    if n > 0 {
      LogIsBounded(config, ops, key, from, n - 1);
      StepKeepsBound(config, SimpleRun(config, ops, n - 1), ops[n - 1], key, from);
    }
  }

  function Bound(config: Config): nat { if config.limit > 0 then config.limit else 0 }

  lemma StepKeepsHits(config: Config, log: Log, op: Op, key: Key, from: real)
    requires op != Op.Reset(key)
    ensures var (after, admitted) := SimpleStep(config, log, op);
            var mine := op.Check? && op.key == key && admitted && from <= op.now < from + config.window as real;
            Within(config, HitsOf(after, key), from) >= Within(config, HitsOf(log, key), from) + if mine then 1 else 0
  {
    var (after, admitted) := SimpleStep(config, log, op);
    if op.Check? && op.key == key && admitted {
      assert HitsOf(after, key) == HitsOf(log, key) + [Hit(op.now)];
      WithinAppend(config, HitsOf(log, key), Hit(op.now), from);
    } else {
      assert HitsOf(after, key) == HitsOf(log, key);
    }
  }

  // And it holds every admission since the key's last reset.
  lemma {:induction false} LogHoldsAdmissions(config: Config, ops: seq<Op>, key: Key, from: real, m: nat, n: nat)
    requires m <= n <= |ops| && Clocked(ops) && NoReset(ops, key, m, n)
    ensures CountIn(config, ops, key, from, m, n) <= Within(config, HitsOf(SimpleRun(config, ops, n), key), from)
    decreases n
  {
    if m < n {
      LogHoldsAdmissions(config, ops, key, from, m, n - 1);
      RefinesSimple(config, ops, n - 1);
      StepKeepsHits(config, SimpleRun(config, ops, n - 1), ops[n - 1], key, from);
    }
  }

  // No key is admitted more than `limit` times in any half-open window of the configured
  // length, wherever it starts, between two resets.
  lemma SlidingBound(config: Config, ops: seq<Op>, key: Key, from: real, m: nat, n: nat)
    requires m <= n <= |ops| && Clocked(ops) && NoReset(ops, key, m, n)
    ensures CountIn(config, ops, key, from, m, n) <= Bound(config)
  {
    LogHoldsAdmissions(config, ops, key, from, m, n);
    LogIsBounded(config, ops, key, from, n);
  }

  // ------------------------------------------------------------------ the exact answer

  // How many checks of the key among the first n, since its last reset, were admitted less
  // than a window before `now`.
  function AdmittedLately(config: Config, ops: seq<Op>, key: Key, n: nat, now: real): nat
    requires n <= |ops|
  {
    if n == 0 || ops[n - 1] == Op.Reset(key) then 0
    else AdmittedLately(config, ops, key, n - 1, now)
         + if ops[n - 1].Check? && ops[n - 1].key == key && Admits(config, ops, n - 1)
              && now - ops[n - 1].now < config.window as real then 1 else 0
  }

  lemma StepCounts(config: Config, log: Log, op: Op, key: Key, now: real)
    ensures var (after, admitted) := SimpleStep(config, log, op);
            |Recent(config, HitsOf(after, key), now)| ==
            if op == Op.Reset(key) then 0
            else |Recent(config, HitsOf(log, key), now)|
                 + if op.Check? && op.key == key && admitted && now - op.now < config.window as real then 1 else 0
  {
    var (after, admitted) := SimpleStep(config, log, op);
    if op == Op.Reset(key) {
      assert HitsOf(after, key) == [];
    } else if op.Check? && op.key == key && admitted {
      assert HitsOf(after, key) == HitsOf(log, key) + [Hit(op.now)];
      RecentAppend(config, HitsOf(log, key), Hit(op.now), now);
    } else {
      assert HitsOf(after, key) == HitsOf(log, key);
    }
  }

  lemma {:induction false} LogCountsLately(config: Config, ops: seq<Op>, key: Key, n: nat, now: real)
    requires n <= |ops| && Clocked(ops)
    ensures |Recent(config, HitsOf(SimpleRun(config, ops, n), key), now)| == AdmittedLately(config, ops, key, n, now)
  {
    if n > 0 {
      LogCountsLately(config, ops, key, n - 1, now);
      RefinesSimple(config, ops, n - 1);
      StepCounts(config, SimpleRun(config, ops, n - 1), ops[n - 1], key, now);
    }
  }

  // Over any run with a clock that does not go back, a check is admitted if and only if fewer
  // than `limit` checks of its key were admitted, since the key's last reset, less than a
  // window ago: a full window is always refused and a place in it never is.
  lemma AdmittedIff(config: Config, ops: seq<Op>, i: nat)
    requires i < |ops| && ops[i].Check? && Clocked(ops)
    ensures Admits(config, ops, i) <==> AdmittedLately(config, ops, ops[i].key, i, ops[i].now) < config.limit
  {
    RefinesSimple(config, ops, i);
    LogCountsLately(config, ops, ops[i].key, i, ops[i].now);
  }

  // ------------------------------------------------------------------ forgetting

  ghost predicate HeardOf(config: Config, hits: seq<Hit>, since: real) {
    exists i :: 0 <= i < |hits| && since - hits[i].at < config.window as real
  }

  ghost predicate AllHeardOf(config: Config, s: State) {
    forall key :: key in s.hits ==> HeardOf(config, s.hits[key], s.lastPrune)
  }

  // Checked with this clock reading, which the last pruning did not come after.
  lemma CheckKeepsHeardOf(config: Config, s: State, key: Key, now: real)
    requires config.window > 0 && AllHeardOf(config, s) && s.lastPrune <= now
    ensures var after := Step(config, s, Op.Check(key, now)).0;
            AllHeardOf(config, after) && after.lastPrune <= now && now - after.lastPrune < config.window as real
  {
    var p := Pruned(config, s, now);
    forall k | k in p.hits ensures HeardOf(config, p.hits[k], p.lastPrune) {
      assert HeardOf(config, s.hits[k], s.lastPrune);
      if p != s {
        assert AnyFresh(config, s.hits[k], now);
      }
    }
    var recent := Recent(config, HitsOf(p.hits, key), now);
    assert (recent + [Hit(now)])[|recent|].at == now;
  }

  lemma {:induction false} RunHeardOf(config: Config, ops: seq<Op>, n: nat, now: real)
    requires n <= |ops| && Clocked(ops) && config.window > 0
    requires forall i :: 0 <= i < n && ops[i].Check? ==> 0.0 <= ops[i].now <= now
    requires now >= 0.0
    ensures AllHeardOf(config, Run(config, ops, n)) && Run(config, ops, n).lastPrune <= now
  {
    if n > 0 {
      var op := ops[n - 1];
      if op.Check? {
        RunHeardOf(config, ops, n - 1, op.now);
        CheckKeepsHeardOf(config, Run(config, ops, n - 1), op.key, op.now);
      } else {
        RunHeardOf(config, ops, n - 1, now);
        var s := Run(config, ops, n - 1);
        forall k | k in s.hits - {op.key} ensures HeardOf(config, (s.hits - {op.key})[k], s.lastPrune) {
          assert HeardOf(config, s.hits[k], s.lastPrune);
        }
      }
    }
  }

  // After any check, every key still held was admitted within the last two windows: the
  // dictionary does not grow with all the addresses ever seen.
  lemma IdleKeysAreForgotten(config: Config, ops: seq<Op>, n: nat, key: Key)
    requires n < |ops| && ops[n].Check? && Clocked(ops) && config.window > 0
    requires forall i :: 0 <= i <= n && ops[i].Check? ==> 0.0 <= ops[i].now
    requires key in Run(config, ops, n + 1).hits
    ensures var hits := Run(config, ops, n + 1).hits[key];
            exists i :: 0 <= i < |hits| && ops[n].now - hits[i].at < 2.0 * config.window as real
  {
    RunHeardOf(config, ops, n, ops[n].now);
    CheckKeepsHeardOf(config, Run(config, ops, n), ops[n].key, ops[n].now);
    var s := Run(config, ops, n + 1);
    assert HeardOf(config, s.hits[key], s.lastPrune);
    var i :| 0 <= i < |s.hits[key]| && s.lastPrune - s.hits[key][i].at < config.window as real;
    assert ops[n].now - s.hits[key][i].at < 2.0 * config.window as real;
  }
}

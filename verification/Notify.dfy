// Health alerts: one message per transition, committed only when the endpoint took it.
module Notify {
  import opened Options

  datatype Health = Ok | Warning | Failed | Empty | Unknown {
    function Value(): string {
      match this
      case Ok => "ok"
      case Warning => "warning"
      case Failed => "failed"
      case Empty => "empty"
      case Unknown => "unknown"
    }

    predicate Bad() { Warning? || Failed? }
  }

  datatype Key = Key(enclosure: string, slot: int)
  datatype Observation = Observation(key: Key, health: Health)
  datatype Config = Config(notifyRecovery: bool, retrySeconds: real)

  // A message handed to the endpoint: what it says the bay was, and whether it was taken.
  datatype Attempt = Attempt(key: Key, was: Option<string>, value: string, delivered: bool)

  // The two dictionaries: the last health told per bay, and when a failed alert may be retried.
  datatype Notes = Notes(last: map<Key, string>, retryAt: map<Key, real>)

  // ------------------------------------------------------------------ one bay, one evaluation

  datatype Bay = Bay(last: Option<string>, retryAt: Option<real>)

  function Get<V>(m: map<Key, V>, key: Key): Option<V> { if key in m then Some(m[key]) else None }

  function BayOf(notes: Notes, key: Key): Bay { Bay(Get(notes.last, key), Get(notes.retryAt, key)) }

  predicate WantsAlert(config: Config, last: Option<string>, health: Health) {
    health.Bad() || (last.Some? && (last.value == "warning" || last.value == "failed") && config.notifyRecovery)
  }

  // The bay's health differs from what was last told, and someone must hear of it.
  predicate Outstanding(config: Config, bay: Bay, health: Health) {
    bay.last != Some(health.Value()) && WantsAlert(config, bay.last, health)
  }

  predicate Cooled(bay: Bay, now: real) { now >= if bay.retryAt.Some? then bay.retryAt.value else 0.0 }

  predicate Attempts(config: Config, bay: Bay, health: Health, now: real) {
    Outstanding(config, bay, health) && Cooled(bay, now)
  }

  function Evaluated(config: Config, bay: Bay, health: Health, now: real, accepted: bool): Bay {
    if Attempts(config, bay, health, now) then
      if accepted then Bay(Some(health.Value()), None) else bay.(retryAt := Some(now + config.retrySeconds))
    else if Outstanding(config, bay, health) then bay
    else Bay(Some(health.Value()), None)
  }

  // ------------------------------------------------------------------ one evaluation of a shelf

  datatype Pending = Pending(bay: nat, was: Option<string>)

  // The first loop: settle what needs no message, collect what does.
  function Scan(config: Config, notes: Notes, bays: seq<Observation>, n: nat, now: real): (Notes, seq<Pending>)
    requires n <= |bays|
  {
    if n == 0 then (notes, [])
    else
      var (s, pending) := Scan(config, notes, bays, n - 1, now);
      ScanOne(config, s, pending, bays[n - 1], n - 1, now)
  }

  function ScanOne(config: Config, s: Notes, pending: seq<Pending>, seen: Observation, n: nat, now: real): (Notes, seq<Pending>) {
    var key, health := seen.key, seen.health;
    var bay := BayOf(s, key);
    if bay.last == Some(health.Value()) then (s.(retryAt := s.retryAt - {key}), pending)
    else if !WantsAlert(config, bay.last, health) then
      (Notes(s.last[key := health.Value()], s.retryAt - {key}), pending)
    else if !Cooled(bay, now) then (s, pending)
    else (s, pending + [Pending(n, bay.last)])
  }

  // The second loop: commit what the endpoint took, back off on the rest.
  function Deliver(config: Config, notes: Notes, bays: seq<Observation>, pending: seq<Pending>, accepted: seq<bool>,
                   m: nat, now: real): Notes
    requires m <= |pending| && |accepted| == |bays| && forall i :: 0 <= i < |pending| ==> pending[i].bay < |bays|
  {
    if m == 0 then notes
    else
      var s := Deliver(config, notes, bays, pending, accepted, m - 1, now);
      var bay := pending[m - 1].bay;
      var key := bays[bay].key;
      if accepted[bay] then Notes(s.last[key := bays[bay].health.Value()], s.retryAt - {key})
      else s.(retryAt := s.retryAt[key := now + config.retrySeconds])
  }

  lemma {:induction false} ScanPendsBays(config: Config, notes: Notes, bays: seq<Observation>, n: nat, now: real)
    requires n <= |bays|
    ensures forall i :: 0 <= i < |Scan(config, notes, bays, n, now).1| ==> Scan(config, notes, bays, n, now).1[i].bay < n
  {
    if n > 0 {
      ScanPendsBays(config, notes, bays, n - 1, now);
    }
  }

  function After(config: Config, notes: Notes, bays: seq<Observation>, accepted: seq<bool>, now: real): Notes
    requires |accepted| == |bays|
  {
    var (s, pending) := Scan(config, notes, bays, |bays|, now);
    ScanPendsBays(config, notes, bays, |bays|, now);
    Deliver(config, s, bays, pending, accepted, |pending|, now)
  }

  function Sent(config: Config, notes: Notes, bays: seq<Observation>, accepted: seq<bool>, now: real): seq<Attempt>
    requires |accepted| == |bays|
  {
    ScanPendsBays(config, notes, bays, |bays|, now);
    Messages(bays, Scan(config, notes, bays, |bays|, now).1, accepted)
  }

  function Messages(bays: seq<Observation>, pending: seq<Pending>, accepted: seq<bool>): (sent: seq<Attempt>)
    requires |accepted| == |bays| && forall i :: 0 <= i < |pending| ==> pending[i].bay < |bays|
    ensures |sent| == |pending|
  {
    seq(|pending|, i requires 0 <= i < |pending| =>
      var bay := pending[i].bay;
      Attempt(bays[bay].key, pending[i].was, bays[bay].health.Value(), accepted[bay]))
  }

  class HealthNotifier {
    const enabled: bool
    const persistent: bool
    const config: Config
    var last: map<Key, string>
    var retryAt: map<Key, real>
    var loaded: bool
    var file: Option<map<Key, string>>  // the state file, when it holds a readable object

    constructor (enabled: bool, persistent: bool, config: Config, file: Option<map<Key, string>>)
      ensures this.enabled == enabled && this.persistent == persistent && this.config == config
      ensures !loaded && this.file == file && last == map[] && retryAt == map[]
    {
      this.enabled, this.persistent, this.config, this.file := enabled, persistent, config, file;
      loaded, last, retryAt := false, map[], map[];
    }

    // The notes an evaluation works on: the first one reads the state file.
    function State(): Notes
      reads this
    {
      Notes(if !loaded && persistent && file.Some? then file.value else last, retryAt)
    }

    // A notifier started on the state file now would know the same committed states.
    predicate FileIsCurrent()
      reads this
    {
      persistent ==> file == Some(State().last) || (file.None? && State().last == map[])
    }

    // accepted[i] is what the endpoint answers if bay i's alert is sent; saved, whether the
    // state file can be written.
    method Evaluate(bays: seq<Observation>, now: real, accepted: seq<bool>, saved: bool) returns (sent: seq<Attempt>)
      requires |accepted| == |bays|
      modifies this
      ensures !enabled ==> sent == [] && last == old(last) && retryAt == old(retryAt) && file == old(file) && loaded == old(loaded)
      ensures enabled ==> loaded && State() == After(config, old(State()), bays, accepted, now)
      ensures enabled ==> sent == Sent(config, old(State()), bays, accepted, now)
      ensures enabled ==> file == old(file) || (persistent && saved && file == Some(last))
      ensures saved && old(FileIsCurrent()) ==> FileIsCurrent()
    {
      sent := [];
      if !enabled {
        return;
      }
      ghost var start := State();
      if !loaded {
        loaded := true;
        if persistent && file.Some? {
          last := file.value;
        }
      }
      var pending, changed := ScanBays(bays, now);
      ScanPendsBays(config, start, bays, |bays|, now);
      sent := Messages(bays, pending, accepted);
      var committed := DeliverAll(bays, pending, accepted, now);
      if (changed || committed) && persistent && saved {
        file := Some(last);
      }
    }

    method ScanBays(bays: seq<Observation>, now: real) returns (pending: seq<Pending>, changed: bool)
      requires loaded
      modifies this
      ensures loaded && file == old(file)
      ensures (State(), pending) == Scan(config, old(State()), bays, |bays|, now)
      ensures !changed ==> last == old(last)
    {
      pending, changed := [], false;
      for n := 0 to |bays|
        invariant loaded && file == old(file)
        invariant (State(), pending) == Scan(config, old(State()), bays, n, now)
        invariant !changed ==> last == old(last)
      {
        var settled: bool;
        pending, settled := ScanBay(pending, bays[n], n, now);
        changed := changed || settled;
      }
    }

    // One listing: settled, left to cool, or queued.
    method ScanBay(pending: seq<Pending>, seen: Observation, n: nat, now: real) returns (queued: seq<Pending>, changed: bool)
      requires loaded
      modifies this
      ensures loaded && file == old(file)
      ensures (State(), queued) == ScanOne(config, old(State()), pending, seen, n, now)
      ensures !changed ==> last == old(last)
    {
      queued, changed := pending, false;
      var key, health := seen.key, seen.health;
      var was := if key in last then Some(last[key]) else None;
      if was == Some(health.Value()) {
        retryAt := retryAt - {key};
      } else if !(health.Bad() || (was.Some? && (was.value == "warning" || was.value == "failed") && config.notifyRecovery)) {
        last := last[key := health.Value()];
        retryAt := retryAt - {key};
        changed := true;
      } else if now >= if key in retryAt then retryAt[key] else 0.0 {
        queued := pending + [Pending(n, was)];
      }
    }

    method DeliverAll(bays: seq<Observation>, pending: seq<Pending>, accepted: seq<bool>, now: real) returns (changed: bool)
      requires loaded && |accepted| == |bays| && forall i :: 0 <= i < |pending| ==> pending[i].bay < |bays|
      modifies this
      ensures loaded && file == old(file)
      ensures State() == Deliver(config, old(State()), bays, pending, accepted, |pending|, now)
      ensures !changed ==> last == old(last)
    {
      changed := false;
      for m := 0 to |pending|
        invariant loaded && file == old(file)
        invariant State() == Deliver(config, old(State()), bays, pending, accepted, m, now)
        invariant !changed ==> last == old(last)
      {
        var bay := pending[m].bay;
        var key := bays[bay].key;
        if accepted[bay] {
          last := last[key := bays[bay].health.Value()];
          retryAt := retryAt - {key};
          changed := true;
        } else {
          retryAt := retryAt[key := now + config.retrySeconds];
        }
      }
    }
  }

  // ------------------------------------------------------------------ the shelf is its bays

  ghost predicate DistinctBays(bays: seq<Observation>) {
    forall i, j :: 0 <= i < j < |bays| ==> bays[i].key != bays[j].key
  }

  // What the first loop alone does to one bay.
  function Scanned(config: Config, bay: Bay, health: Health): Bay {
    if Outstanding(config, bay, health) then bay else Bay(Some(health.Value()), None)
  }

  // What the first n observations say of a bay.
  function Seen(bays: seq<Observation>, n: nat, key: Key): Option<Health>
    requires n <= |bays|
  {
    if n == 0 then None
    else if bays[n - 1].key == key then Some(bays[n - 1].health)
    else Seen(bays, n - 1, key)
  }

  lemma {:induction false} SeenOnce(bays: seq<Observation>, n: nat, i: nat)
    requires i < |bays| && n <= |bays| && DistinctBays(bays)
    ensures Seen(bays, n, bays[i].key) == if i < n then Some(bays[i].health) else None
  {
    if n > 0 {
      SeenOnce(bays, n - 1, i);
    }
  }

  lemma {:induction false} ScanOfBay(config: Config, notes: Notes, bays: seq<Observation>, n: nat, now: real, key: Key)
    requires n <= |bays| && DistinctBays(bays)
    ensures BayOf(Scan(config, notes, bays, n, now).0, key) ==
            match Seen(bays, n, key)
            case None => BayOf(notes, key)
            case Some(health) => Scanned(config, BayOf(notes, key), health)
  {
    if n > 0 {
      ScanOfBay(config, notes, bays, n - 1, now, key);
      SeenOnce(bays, n - 1, n - 1);
    }
  }

  ghost predicate Pends(pending: seq<Pending>, i: int) { exists k :: 0 <= k < |pending| && pending[k].bay == i }

  lemma PendsLast(pending: seq<Pending>, p: Pending, i: int)
    ensures Pends(pending + [p], i) <==> Pends(pending, i) || p.bay == i
  {
    assert (pending + [p])[|pending|] == p;
    if k :| 0 <= k < |pending| && pending[k].bay == i {
      assert (pending + [p])[k].bay == i;
    }
  }

  // Whether the first loop queues listing i, given what it has settled up to there.
  predicate Queues(config: Config, notes: Notes, bays: seq<Observation>, now: real, i: int) {
    0 <= i < |bays| && Attempts(config, BayOf(Scan(config, notes, bays, i, now).0, bays[i].key), bays[i].health, now)
  }

  // The committed state it queues with it.
  function WasAt(config: Config, notes: Notes, bays: seq<Observation>, now: real, i: nat): Option<string>
    requires i < |bays|
  {
    BayOf(Scan(config, notes, bays, i, now).0, bays[i].key).last
  }

  lemma ScanNext(config: Config, notes: Notes, bays: seq<Observation>, n: nat, now: real)
    requires n < |bays|
    ensures var pending := Scan(config, notes, bays, n, now).1;
            Scan(config, notes, bays, n + 1, now).1 ==
            if Queues(config, notes, bays, now, n) then pending + [Pending(n, WasAt(config, notes, bays, now, n))] else pending
  {
  }

  // The pending list holds exactly the queued listings.
  lemma {:induction false} ScanPends(config: Config, notes: Notes, bays: seq<Observation>, n: nat, now: real, i: int)
    requires n <= |bays|
    ensures Pends(Scan(config, notes, bays, n, now).1, i) <==> i < n && Queues(config, notes, bays, now, i)
  {
    if n > 0 {
      ScanPends(config, notes, bays, n - 1, now, i);
      var before, after := Scan(config, notes, bays, n - 1, now).1, Scan(config, notes, bays, n, now).1;
      var last := Pending(n - 1, WasAt(config, notes, bays, now, n - 1));
      assert after == if Queues(config, notes, bays, now, n - 1) then before + [last] else before by {
        ScanNext(config, notes, bays, n - 1, now);
      }
      PendsLast(before, last, i);
    }
  }

  // In shelf order, each with its committed state.
  ghost predicate InOrder(config: Config, notes: Notes, bays: seq<Observation>, now: real, pending: seq<Pending>, n: nat)
    requires n <= |bays|
  {
    && (forall k :: 0 <= k < |pending| ==>
          pending[k].bay < n && pending[k].was == WasAt(config, notes, bays, now, pending[k].bay))
    && (forall k, l :: 0 <= k < l < |pending| ==> pending[k].bay < pending[l].bay)
  }

  lemma InOrderNext(config: Config, notes: Notes, bays: seq<Observation>, now: real, pending: seq<Pending>, n: nat)
    requires n < |bays| && InOrder(config, notes, bays, now, pending, n)
    ensures InOrder(config, notes, bays, now, pending + [Pending(n, WasAt(config, notes, bays, now, n))], n + 1)
    ensures InOrder(config, notes, bays, now, pending, n + 1)
  {
  }

  lemma {:induction false} ScanIsInOrder(config: Config, notes: Notes, bays: seq<Observation>, n: nat, now: real)
    requires n <= |bays|
    ensures InOrder(config, notes, bays, now, Scan(config, notes, bays, n, now).1, n)
  {
    if n > 0 {
      ScanIsInOrder(config, notes, bays, n - 1, now);
      var before, after := Scan(config, notes, bays, n - 1, now).1, Scan(config, notes, bays, n, now).1;
      InOrderNext(config, notes, bays, now, before, n - 1);
      assert after == before || after == before + [Pending(n - 1, WasAt(config, notes, bays, now, n - 1))] by {
        ScanNext(config, notes, bays, n - 1, now);
      }
    }
  }

  // On a shelf of distinct bays the loop sees each bay as the evaluation found it.
  lemma SeenAsFound(config: Config, notes: Notes, bays: seq<Observation>, now: real, i: nat)
    requires i < |bays| && DistinctBays(bays)
    ensures WasAt(config, notes, bays, now, i) == BayOf(notes, bays[i].key).last
    ensures Queues(config, notes, bays, now, i) <==> Attempts(config, BayOf(notes, bays[i].key), bays[i].health, now)
  {
    ScanOfBay(config, notes, bays, i, now, bays[i].key);
    SeenOnce(bays, i, i);
  }

  // What the m-th delivery does to bay i.
  lemma DeliverNext(config: Config, notes: Notes, bays: seq<Observation>, pending: seq<Pending>,
                    accepted: seq<bool>, m: nat, now: real, i: nat)
    requires m < |pending| && |accepted| == |bays| && i < |bays| && DistinctBays(bays)
    requires forall k :: 0 <= k < |pending| ==> pending[k].bay < |bays|
    ensures var before := BayOf(Deliver(config, notes, bays, pending, accepted, m, now), bays[i].key);
            BayOf(Deliver(config, notes, bays, pending, accepted, m + 1, now), bays[i].key) ==
            if pending[m].bay != i then before
            else if accepted[i] then Bay(Some(bays[i].health.Value()), None)
            else before.(retryAt := Some(now + config.retrySeconds))
  {
  }

  lemma {:induction false} DeliverOfBay(config: Config, notes: Notes, bays: seq<Observation>, pending: seq<Pending>,
                                        accepted: seq<bool>, m: nat, now: real, i: nat)
    requires m <= |pending| && |accepted| == |bays| && i < |bays| && DistinctBays(bays)
    requires forall k :: 0 <= k < |pending| ==> pending[k].bay < |bays|
    requires forall k, l :: 0 <= k < l < |pending| ==> pending[k].bay < pending[l].bay
    ensures var after := BayOf(Deliver(config, notes, bays, pending, accepted, m, now), bays[i].key);
            if !Pends(pending[..m], i) then after == BayOf(notes, bays[i].key)
            else if accepted[i] then after == Bay(Some(bays[i].health.Value()), None)
            else after == BayOf(notes, bays[i].key).(retryAt := Some(now + config.retrySeconds))
  {
    if m > 0 {
      DeliverOfBay(config, notes, bays, pending, accepted, m - 1, now, i);
      DeliverNext(config, notes, bays, pending, accepted, m - 1, now, i);
      assert Pends(pending[..m], i) <==> Pends(pending[..m - 1], i) || pending[m - 1].bay == i by {
        assert pending[..m] == pending[..m - 1] + [pending[m - 1]];
        PendsLast(pending[..m - 1], pending[m - 1], i);
      }
    }
  }

  lemma {:induction false} DeliverElsewhere(config: Config, notes: Notes, bays: seq<Observation>, pending: seq<Pending>,
                                            accepted: seq<bool>, m: nat, now: real, key: Key)
    requires m <= |pending| && |accepted| == |bays|
    requires forall k :: 0 <= k < |pending| ==> pending[k].bay < |bays|
    requires forall i :: 0 <= i < |bays| ==> bays[i].key != key
    ensures BayOf(Deliver(config, notes, bays, pending, accepted, m, now), key) == BayOf(notes, key)
  {
    if m > 0 {
      DeliverElsewhere(config, notes, bays, pending, accepted, m - 1, now, key);
    }
  }

  lemma {:induction false} SeenNowhere(bays: seq<Observation>, n: nat, key: Key)
    requires n <= |bays| && forall i :: 0 <= i < |bays| ==> bays[i].key != key
    ensures Seen(bays, n, key) == None
  {
    if n > 0 {
      SeenNowhere(bays, n - 1, key);
    }
  }

  lemma ListedBay(config: Config, notes: Notes, bays: seq<Observation>, accepted: seq<bool>, now: real, i: nat)
    requires |accepted| == |bays| && DistinctBays(bays) && i < |bays|
    ensures BayOf(After(config, notes, bays, accepted, now), bays[i].key) ==
            Evaluated(config, BayOf(notes, bays[i].key), bays[i].health, now, accepted[i])
  {
    var (s, pending) := Scan(config, notes, bays, |bays|, now);
    ScanIsInOrder(config, notes, bays, |bays|, now);
    DeliverOfBay(config, s, bays, pending, accepted, |pending|, now, i);
    assert pending[..|pending|] == pending;
    assert BayOf(s, bays[i].key) == Scanned(config, BayOf(notes, bays[i].key), bays[i].health) by {
      ScanOfBay(config, notes, bays, |bays|, now, bays[i].key);
      SeenOnce(bays, |bays|, i);
    }
    assert Pends(pending, i) <==> Attempts(config, BayOf(notes, bays[i].key), bays[i].health, now) by {
      ScanPends(config, notes, bays, |bays|, now, i);
      SeenAsFound(config, notes, bays, now, i);
    }
  }

  lemma UnlistedBay(config: Config, notes: Notes, bays: seq<Observation>, accepted: seq<bool>, now: real, key: Key)
    requires |accepted| == |bays| && DistinctBays(bays) && forall i :: 0 <= i < |bays| ==> bays[i].key != key
    ensures BayOf(After(config, notes, bays, accepted, now), key) == BayOf(notes, key)
  {
    var (s, pending) := Scan(config, notes, bays, |bays|, now);
    ScanPendsBays(config, notes, bays, |bays|, now);
    ScanOfBay(config, notes, bays, |bays|, now, key);
    SeenNowhere(bays, |bays|, key);
    DeliverElsewhere(config, s, bays, pending, accepted, |pending|, now, key);
  }

  // An evaluation of a shelf of distinct bays is one independent step per bay.
  lemma ShelfIsItsBays(config: Config, notes: Notes, bays: seq<Observation>, accepted: seq<bool>, now: real)
    requires |accepted| == |bays| && DistinctBays(bays)
    ensures forall i :: 0 <= i < |bays| ==>
              BayOf(After(config, notes, bays, accepted, now), bays[i].key) ==
              Evaluated(config, BayOf(notes, bays[i].key), bays[i].health, now, accepted[i])
    ensures forall key :: (forall i :: 0 <= i < |bays| ==> bays[i].key != key) ==>
              BayOf(After(config, notes, bays, accepted, now), key) == BayOf(notes, key)
  {
    forall i | 0 <= i < |bays|
      ensures BayOf(After(config, notes, bays, accepted, now), bays[i].key) ==
              Evaluated(config, BayOf(notes, bays[i].key), bays[i].health, now, accepted[i])
    {
      ListedBay(config, notes, bays, accepted, now, i);
    }
    forall key | forall i :: 0 <= i < |bays| ==> bays[i].key != key
      ensures BayOf(After(config, notes, bays, accepted, now), key) == BayOf(notes, key)
    {
      UnlistedBay(config, notes, bays, accepted, now, key);
    }
  }

  function MessageOf(notes: Notes, bay: Observation, delivered: bool): Attempt {
    Attempt(bay.key, BayOf(notes, bay.key).last, bay.health.Value(), delivered)
  }

  lemma WhoseMessage(config: Config, notes: Notes, bays: seq<Observation>, accepted: seq<bool>, now: real, k: nat)
    returns (i: nat)
    requires |accepted| == |bays| && DistinctBays(bays) && k < |Sent(config, notes, bays, accepted, now)|
    ensures i < |bays| && Attempts(config, BayOf(notes, bays[i].key), bays[i].health, now)
    ensures Sent(config, notes, bays, accepted, now)[k] == MessageOf(notes, bays[i], accepted[i])
  {
    var pending := Scan(config, notes, bays, |bays|, now).1;
    ScanIsInOrder(config, notes, bays, |bays|, now);
    i := pending[k].bay;
    assert Pends(pending, i);
    ScanPends(config, notes, bays, |bays|, now, i);
    SeenAsFound(config, notes, bays, now, i);
  }

  // The message reports some outstanding, cooled bay.
  ghost predicate Reports(config: Config, notes: Notes, bays: seq<Observation>, accepted: seq<bool>, now: real, message: Attempt)
    requires |accepted| == |bays|
  {
    exists i :: 0 <= i < |bays| && Attempts(config, BayOf(notes, bays[i].key), bays[i].health, now)
                && message == MessageOf(notes, bays[i], accepted[i])
  }

  // There is one message exactly for each outstanding, cooled bay, naming its committed state.
  lemma MessagesAreTheOutstanding(config: Config, notes: Notes, bays: seq<Observation>, accepted: seq<bool>, now: real)
    requires |accepted| == |bays| && DistinctBays(bays)
    ensures var sent := Sent(config, notes, bays, accepted, now);
            && (forall i :: 0 <= i < |bays| && Attempts(config, BayOf(notes, bays[i].key), bays[i].health, now) ==>
                  MessageOf(notes, bays[i], accepted[i]) in sent)
            && (forall k :: 0 <= k < |sent| ==> Reports(config, notes, bays, accepted, now, sent[k]))
            && (forall k, l :: 0 <= k < l < |sent| ==> sent[k].key != sent[l].key)
  {
    var pending := Scan(config, notes, bays, |bays|, now).1;
    ScanIsInOrder(config, notes, bays, |bays|, now);
    var sent := Sent(config, notes, bays, accepted, now);
    forall i | 0 <= i < |bays| && Attempts(config, BayOf(notes, bays[i].key), bays[i].health, now)
      ensures MessageOf(notes, bays[i], accepted[i]) in sent
    {
      SeenAsFound(config, notes, bays, now, i);
      ScanPends(config, notes, bays, |bays|, now, i);
      var k :| 0 <= k < |pending| && pending[k].bay == i;
      assert sent[k] == MessageOf(notes, bays[i], accepted[i]);
    }
    forall k | 0 <= k < |sent| ensures Reports(config, notes, bays, accepted, now, sent[k])
    {
      var i := WhoseMessage(config, notes, bays, accepted, now, k);
    }
  }

  lemma QueuedAt(config: Config, notes: Notes, bays: seq<Observation>, now: real, k: nat)
    requires k < |Scan(config, notes, bays, |bays|, now).1|
    ensures Queues(config, notes, bays, now, Scan(config, notes, bays, |bays|, now).1[k].bay)
  {
    var pending := Scan(config, notes, bays, |bays|, now).1;
    assert Pends(pending, pending[k].bay);
    ScanPends(config, notes, bays, |bays|, now, pending[k].bay);
  }

  // Two messages are about the same bay.
  ghost predicate Repeats(sent: seq<Attempt>) { exists k, l :: 0 <= k < l < |sent| && sent[k].key == sent[l].key }

  // Two listings of the same bay are both queued.
  ghost predicate TwoQueued(config: Config, notes: Notes, bays: seq<Observation>, now: real) {
    exists i, j :: 0 <= i < j < |bays| && bays[i].key == bays[j].key
                   && Queues(config, notes, bays, now, i) && Queues(config, notes, bays, now, j)
  }

  lemma TwoQueuedRepeat(config: Config, notes: Notes, bays: seq<Observation>, accepted: seq<bool>, now: real, i: nat, j: nat)
    requires |accepted| == |bays| && i < j < |bays| && bays[i].key == bays[j].key
    requires Queues(config, notes, bays, now, i) && Queues(config, notes, bays, now, j)
    ensures Repeats(Sent(config, notes, bays, accepted, now))
  {
    var pending := Scan(config, notes, bays, |bays|, now).1;
    var sent := Sent(config, notes, bays, accepted, now);
    ScanPends(config, notes, bays, |bays|, now, i);
    ScanPends(config, notes, bays, |bays|, now, j);
    var k :| 0 <= k < |pending| && pending[k].bay == i;
    var l :| 0 <= l < |pending| && pending[l].bay == j;
    assert sent[k].key == sent[l].key;
  }

  // One evaluation announces a bay twice exactly when two listings of it are both queued.
  lemma RepeatsIff(config: Config, notes: Notes, bays: seq<Observation>, accepted: seq<bool>, now: real)
    requires |accepted| == |bays|
    ensures Repeats(Sent(config, notes, bays, accepted, now)) <==> TwoQueued(config, notes, bays, now)
  {
    var pending := Scan(config, notes, bays, |bays|, now).1;
    var sent := Sent(config, notes, bays, accepted, now);
    if Repeats(sent) {
      var k, l :| 0 <= k < l < |sent| && sent[k].key == sent[l].key;
      ScanIsInOrder(config, notes, bays, |bays|, now);
      QueuedAt(config, notes, bays, now, k);
      QueuedAt(config, notes, bays, now, l);
      assert bays[pending[k].bay].key == bays[pending[l].bay].key;
    }
    if TwoQueued(config, notes, bays, now) {
      var i, j :| 0 <= i < j < |bays| && bays[i].key == bays[j].key
                  && Queues(config, notes, bays, now, i) && Queues(config, notes, bays, now, j);
      TwoQueuedRepeat(config, notes, bays, accepted, now, i, j);
    }
  }

  // So distinctness matters: the same failed bay listed twice is announced twice.
  lemma RepeatedBayAlertsTwice(config: Config, key: Key)
    ensures var bays := [Observation(key, Failed), Observation(key, Failed)];
            var sent := Sent(config, Notes(map[], map[]), bays, [true, true], 0.0);
            |sent| == 2 && sent[0] == sent[1] == Attempt(key, None, "failed", true)
  {
    var bays := [Observation(key, Failed), Observation(key, Failed)];
    var notes := Notes(map[], map[]);
    assert Scan(config, notes, bays, 1, 0.0).1 == [Pending(0, None)];
    assert Scan(config, notes, bays, 2, 0.0).1 == [Pending(0, None), Pending(1, None)];
  }

  // ------------------------------------------------------------------ one bay, in words

  // How a health is written in messages and in the state file.
  function Word(health: Health): string {
    if health.Ok? then "ok" else if health.Warning? then "warning" else if health.Failed? then "failed"
    else if health.Empty? then "empty" else "unknown"
  }

  // The bay is told about unless it was told so already: when it is a warning or a failure, and
  // when it no longer is and recoveries are announced.
  predicate News(config: Config, last: Option<string>, health: Health) {
    && last != Some(Word(health))
    && (health == Warning || health == Failed
        || (config.notifyRecovery && (last == Some("warning") || last == Some("failed"))))
  }

  // One evaluation of one bay: what is sent, in which words, and what is remembered.
  lemma OneBayIsTold(config: Config, notes: Notes, key: Key, health: Health, now: real, accepted: bool)
    ensures var last := Get(notes.last, key);
            var sent := Sent(config, notes, [Observation(key, health)], [accepted], now);
            var after := After(config, notes, [Observation(key, health)], [accepted], now);
            var news := News(config, last, health);
            var waits := if key in notes.retryAt then now < notes.retryAt[key] else now < 0.0;
            && sent == (if news && !waits then [Attempt(key, last, Word(health), accepted)] else [])
            && Get(after.last, key) == (if news && (waits || !accepted) then last else Some(Word(health)))
            && Get(after.retryAt, key) ==
               if !news || (!waits && accepted) then None
               else if waits then Get(notes.retryAt, key)
               else Some(now + config.retrySeconds)
  {
    var bays := [Observation(key, health)];
    assert Word(health) == health.Value();
    ListedBay(config, notes, bays, [accepted], now, 0);
    OneBayIsQueued(config, notes, bays[0], now);
    var pending := Scan(config, notes, bays, 1, now).1;
    assert Sent(config, notes, bays, [accepted], now) ==
           if pending == [] then [] else [Attempt(key, pending[0].was, Word(health), accepted)];
  }

  lemma OneBayIsQueued(config: Config, notes: Notes, seen: Observation, now: real)
    ensures Scan(config, notes, [seen], 1, now).1 ==
            if Attempts(config, BayOf(notes, seen.key), seen.health, now) then [Pending(0, BayOf(notes, seen.key).last)] else []
  {
    assert Scan(config, notes, [seen], 0, now) == (notes, []);
  }
}

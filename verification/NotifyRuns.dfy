// Alerts over whole runs of one bay: any healths, any clock readings, any answers from the
// endpoint, and restarts in between.
module NotifyRuns {
  import opened Options
  import opened Notify

  // A restart keeps what the state file holds, the committed state, and forgets cooldowns.
  datatype Input = Look(health: Health, now: real, accepted: bool) | Restart

  function Next(config: Config, bay: Bay, input: Input): Bay {
    match input
    case Look(health, now, accepted) => Evaluated(config, bay, health, now, accepted)
    case Restart => bay.(retryAt := None)
  }

  function At(config: Config, bay: Bay, inputs: seq<Input>, n: nat): Bay
    requires n <= |inputs|
  {
    if n == 0 then bay else Next(config, At(config, bay, inputs, n - 1), inputs[n - 1])
  }

  predicate Tries(config: Config, bay: Bay, inputs: seq<Input>, i: nat)
    requires i < |inputs|
  {
    inputs[i].Look? && Attempts(config, At(config, bay, inputs, i), inputs[i].health, inputs[i].now)
  }

  predicate Delivers(config: Config, bay: Bay, inputs: seq<Input>, i: nat)
    requires i < |inputs|
  {
    Tries(config, bay, inputs, i) && inputs[i].accepted
  }

  // ------------------------------------------------------------------ the chain of told states

  // A commit: the operator's last known state moves from `was`, by a delivered message or
  // silently.
  datatype Commit = Commit(was: Option<string>, value: string, loud: bool)

  function Commits(config: Config, bay: Bay, inputs: seq<Input>, n: nat): seq<Commit>
    requires n <= |inputs|
  {
    if n == 0 then []
    else
      var before, after := At(config, bay, inputs, n - 1), At(config, bay, inputs, n);
      var earlier := Commits(config, bay, inputs, n - 1);
      if after.last == before.last || after.last.None? then earlier
      else earlier + [Commit(before.last, after.last.value, Delivers(config, bay, inputs, n - 1))]
  }

  function Told(start: Option<string>, commits: seq<Commit>): Option<string> {
    if commits == [] then start else Some(commits[|commits| - 1].value)
  }

  // Somebody must be told: it got bad, or it got better and recoveries are announced.
  predicate Newsworthy(config: Config, was: Option<string>, value: string) {
    value in ["warning", "failed"] || (was in [Some("warning"), Some("failed")] && config.notifyRecovery)
  }

  ghost predicate Chain(config: Config, start: Option<string>, cs: seq<Commit>) {
    forall k :: 0 <= k < |cs| ==>
      && cs[k].was == Told(start, cs[..k])
      && cs[k].was != Some(cs[k].value)
      && (cs[k].loud <==> Newsworthy(config, cs[k].was, cs[k].value))
  }

  lemma ChainGrows(config: Config, start: Option<string>, cs: seq<Commit>, c: Commit)
    requires Chain(config, start, cs) && c.was == Told(start, cs) && c.was != Some(c.value)
    requires c.loud <==> Newsworthy(config, c.was, c.value)
    ensures Chain(config, start, cs + [c])
  {
    var ds := cs + [c];
    forall k | 0 <= k < |ds| ensures ds[k].was == Told(start, ds[..k]) {
      assert ds[..k] == cs[..k];
    }
  }

  lemma CommitIsLoudWhenNewsworthy(config: Config, bay: Bay, inputs: seq<Input>, i: nat)
    requires i < |inputs| && At(config, bay, inputs, i + 1).last != At(config, bay, inputs, i).last
    ensures At(config, bay, inputs, i + 1).last.Some?
    ensures Delivers(config, bay, inputs, i) <==>
              Newsworthy(config, At(config, bay, inputs, i).last, At(config, bay, inputs, i + 1).last.value)
  {
  }

  // Committed states form one chain over the whole run: each commit starts where the one
  // before it ended and moves somewhere else; it is loud exactly when somebody must be told.
  lemma {:induction false} CommitsFormAChain(config: Config, bay: Bay, inputs: seq<Input>, n: nat)
    requires n <= |inputs|
    ensures At(config, bay, inputs, n).last == Told(bay.last, Commits(config, bay, inputs, n))
    ensures Chain(config, bay.last, Commits(config, bay, inputs, n))
  {
    if n > 0 {
      CommitsFormAChain(config, bay, inputs, n - 1);
      var cs := Commits(config, bay, inputs, n - 1);
      var before, after := At(config, bay, inputs, n - 1), At(config, bay, inputs, n);
      if after.last != before.last {
        CommitIsLoudWhenNewsworthy(config, bay, inputs, n - 1);
        var c := Commit(before.last, after.last.value, Delivers(config, bay, inputs, n - 1));
        ChainGrows(config, bay.last, cs, c);
        assert Commits(config, bay, inputs, n) == cs + [c];
      } else {
        assert Commits(config, bay, inputs, n) == cs;
      }
    }
  }

  // Every delivered message is the loud commit made there, and its "was" is what was told last.
  lemma DeliveredMessageIsItsCommit(config: Config, bay: Bay, inputs: seq<Input>, i: nat)
    requires i < |inputs| && Delivers(config, bay, inputs, i)
    ensures Commits(config, bay, inputs, i + 1) ==
            Commits(config, bay, inputs, i)
            + [Commit(Told(bay.last, Commits(config, bay, inputs, i)), inputs[i].health.Value(), true)]
  {
    CommitsFormAChain(config, bay, inputs, i);
  }

  // ------------------------------------------------------------------ constant health

  // From m on, every look sees this health (restarts may intervene).
  ghost predicate Constant(inputs: seq<Input>, health: Health, m: nat, n: nat)
    requires n <= |inputs|
  {
    forall i :: m <= i < n && inputs[i].Look? ==> inputs[i].health == health
  }

  lemma {:induction false} CommittedStaysQuiet(config: Config, bay: Bay, inputs: seq<Input>, health: Health, m: nat, n: nat)
    requires m <= n <= |inputs| && Constant(inputs, health, m, n)
    requires At(config, bay, inputs, m).last == Some(health.Value())
    ensures At(config, bay, inputs, n).last == Some(health.Value())
    ensures forall i :: m <= i < n ==> !Tries(config, bay, inputs, i)
  {
    if m < n {
      CommittedStaysQuiet(config, bay, inputs, health, m, n - 1);
    }
  }

  // While a bay's health is constant at most one message about it is delivered, across
  // restarts too, and after it nothing is even attempted.
  lemma OneMessagePerCondition(config: Config, bay: Bay, inputs: seq<Input>, health: Health, m: nat, n: nat, i: nat)
    requires m <= i < n <= |inputs| && Constant(inputs, health, m, n) && Delivers(config, bay, inputs, i)
    ensures forall j :: i < j < n ==> !Tries(config, bay, inputs, j)
    ensures forall j :: m <= j < i ==> !Delivers(config, bay, inputs, j)
  {
    CommittedStaysQuiet(config, bay, inputs, health, i + 1, n);
    forall j | m <= j < i ensures !Delivers(config, bay, inputs, j) {
      if Delivers(config, bay, inputs, j) {
        CommittedStaysQuiet(config, bay, inputs, health, j + 1, n);
      }
    }
  }

  // ------------------------------------------------------------------ cooldown

  // The cooldown in force before input n: the end set by the last failed attempt since m, if
  // no restart has forgotten it.
  function CooldownEnd(config: Config, bay: Bay, inputs: seq<Input>, m: nat, n: nat): Option<real>
    requires m <= n <= |inputs|
    decreases n
  {
    if n == m then At(config, bay, inputs, m).retryAt
    else if inputs[n - 1].Restart? then None
    else if Tries(config, bay, inputs, n - 1) then Some(inputs[n - 1].now + config.retrySeconds)
    else CooldownEnd(config, bay, inputs, m, n - 1)
  }

  lemma {:induction false} UndeliveredStaysOutstanding(config: Config, bay: Bay, inputs: seq<Input>, health: Health, m: nat, n: nat)
    requires m <= n <= |inputs| && Constant(inputs, health, m, n)
    requires Outstanding(config, At(config, bay, inputs, m), health)
    requires forall i :: m <= i < n ==> !Delivers(config, bay, inputs, i)
    ensures At(config, bay, inputs, n) == Bay(At(config, bay, inputs, m).last, CooldownEnd(config, bay, inputs, m, n))
    decreases n
  {
    if m < n {
      UndeliveredStaysOutstanding(config, bay, inputs, health, m, n - 1);
      assert !Delivers(config, bay, inputs, n - 1);
      assert At(config, bay, inputs, n) == Next(config, At(config, bay, inputs, n - 1), inputs[n - 1]);
    }
  }

  // An alert-worthy health that persists is delivered exactly at the first look past its
  // cooldown that the endpoint accepts, with the state the operator knew as its "was".
  lemma PersistentAlertIsDelivered(config: Config, bay: Bay, inputs: seq<Input>, health: Health, m: nat, n: nat)
    requires m <= n < |inputs| && Constant(inputs, health, m, n + 1) && inputs[n].Look?
    requires Outstanding(config, At(config, bay, inputs, m), health)
    requires forall i :: m <= i < n ==> !Delivers(config, bay, inputs, i)
    ensures var end := CooldownEnd(config, bay, inputs, m, n);
            Delivers(config, bay, inputs, n) <==>
              inputs[n].accepted && inputs[n].now >= if end.Some? then end.value else 0.0
    ensures At(config, bay, inputs, n).last == At(config, bay, inputs, m).last
  {
    UndeliveredStaysOutstanding(config, bay, inputs, health, m, n);
  }

  // Input k leaves an undelivered alert for the bay standing.
  predicate KeepsWaiting(config: Config, bay: Bay, inputs: seq<Input>, k: nat)
    requires k < |inputs|
  {
    inputs[k].Look? && Outstanding(config, At(config, bay, inputs, k), inputs[k].health)
    && !Tries(config, bay, inputs, k)
  }

  lemma {:induction false} FailedAttemptHolds(config: Config, bay: Bay, inputs: seq<Input>, i: nat, j: nat)
    requires i < j <= |inputs| && Tries(config, bay, inputs, i) && !inputs[i].accepted
    requires forall k :: i < k < j ==> KeepsWaiting(config, bay, inputs, k)
    ensures At(config, bay, inputs, j).retryAt == Some(inputs[i].now + config.retrySeconds)
    decreases j
  {
    assert At(config, bay, inputs, j) == Next(config, At(config, bay, inputs, j - 1), inputs[j - 1]);
    if i + 1 < j {
      FailedAttemptHolds(config, bay, inputs, i, j - 1);
      assert KeepsWaiting(config, bay, inputs, j - 1);
    }
  }

  // A failed attempt is followed by the next no sooner than the retry interval, unless in
  // between the bay returned to its committed state, changed silently, or the app restarted;
  // a change from one alert-worthy health to another does not shorten the wait.
  lemma RetriesAreSpaced(config: Config, bay: Bay, inputs: seq<Input>, i: nat, j: nat)
    requires i < j < |inputs| && Tries(config, bay, inputs, i) && !inputs[i].accepted
    requires forall k :: i < k < j ==> KeepsWaiting(config, bay, inputs, k)
    requires Tries(config, bay, inputs, j)
    ensures inputs[j].now >= inputs[i].now + config.retrySeconds
  {
    FailedAttemptHolds(config, bay, inputs, i, j);
  }

  // The cooldown after an attempt, up to the next one: the failed attempt's, for as long as the
  // alert stands through every look; none otherwise.
  lemma {:induction false} CooldownAfterAttempt(config: Config, bay: Bay, inputs: seq<Input>, i: nat, j: nat)
    requires i < j <= |inputs| && Tries(config, bay, inputs, i)
    requires forall k :: i < k < j ==> !Tries(config, bay, inputs, k)
    ensures At(config, bay, inputs, j).retryAt ==
            if !inputs[i].accepted && forall k :: i < k < j ==> KeepsWaiting(config, bay, inputs, k)
            then Some(inputs[i].now + config.retrySeconds) else None
    decreases j
  {
    assert At(config, bay, inputs, j) == Next(config, At(config, bay, inputs, j - 1), inputs[j - 1]);
    if i + 1 < j {
      CooldownAfterAttempt(config, bay, inputs, i, j - 1);
      assert KeepsWaiting(config, bay, inputs, j - 1) || At(config, bay, inputs, j).retryAt.None?;
    }
  }

  // Exactly when the next attempt comes: at a look that finds an alert outstanding, at once
  // unless the last attempt failed and the alert has stood through every look since, and then
  // once the retry interval is over.
  lemma NextAttemptIff(config: Config, bay: Bay, inputs: seq<Input>, i: nat, j: nat)
    requires i < j < |inputs| && Tries(config, bay, inputs, i) && inputs[j].Look? && inputs[j].now >= 0.0
    requires forall k :: i < k < j ==> !Tries(config, bay, inputs, k)
    ensures Tries(config, bay, inputs, j) <==>
              && Outstanding(config, At(config, bay, inputs, j), inputs[j].health)
              && (!inputs[i].accepted && (forall k :: i < k < j ==> KeepsWaiting(config, bay, inputs, k))
                  ==> inputs[j].now >= inputs[i].now + config.retrySeconds)
  {
    CooldownAfterAttempt(config, bay, inputs, i, j);
  }

  // After a delivered message there is no such spacing: a worse health one instant later is
  // announced at once.
  lemma DeliveryClearsTheCooldown(config: Config, t: real)
    requires t >= 0.0
    ensures var inputs := [Look(Warning, t, true), Look(Failed, t, true)];
            Delivers(config, Bay(None, None), inputs, 0) && Delivers(config, Bay(None, None), inputs, 1)
  {
    var inputs := [Look(Warning, t, true), Look(Failed, t, true)];
    assert At(config, Bay(None, None), inputs, 1) == Bay(Some("warning"), None);
  }

  // Retry bookkeeping is bounded: a cooldown is held only for a bay whose latest look showed
  // an alert-worthy health that is still uncommitted.
  lemma CooldownMeansOutstanding(config: Config, bay: Bay, inputs: seq<Input>, n: nat)
    requires n <= |inputs| && bay.retryAt.None? && At(config, bay, inputs, n).retryAt.Some?
    ensures n > 0 && inputs[n - 1].Look? && Outstanding(config, At(config, bay, inputs, n), inputs[n - 1].health)
  {
    assert n > 0;
    assert At(config, bay, inputs, n) == Next(config, At(config, bay, inputs, n - 1), inputs[n - 1]);
  }

  // ------------------------------------------------------------------ restarts

  // A restart changes nothing but the cooldown: if every later look comes after it would have
  // ended, the two runs commit, attempt and deliver identically.
  lemma {:induction false} RestartOnlyForgetsCooldown(config: Config, bay: Bay, inputs: seq<Input>, n: nat)
    requires n <= |inputs|
    requires forall i :: 0 <= i < n && inputs[i].Look? ==> Cooled(bay, inputs[i].now) && inputs[i].now >= 0.0
    ensures var other := bay.(retryAt := None);
            && At(config, other, inputs, n).last == At(config, bay, inputs, n).last
            && (At(config, other, inputs, n) == At(config, bay, inputs, n)
                || forall i :: 0 <= i < n ==> inputs[i].Restart?)
            && (forall i :: 0 <= i < n ==>
                  (Tries(config, other, inputs, i) <==> Tries(config, bay, inputs, i)))
  {
    if n > 0 {
      RestartOnlyForgetsCooldown(config, bay, inputs, n - 1);
      OnlyRestarts(config, bay, inputs, n - 1);
      OnlyRestarts(config, bay.(retryAt := None), inputs, n - 1);
    }
  }

  lemma {:induction false} OnlyRestarts(config: Config, bay: Bay, inputs: seq<Input>, n: nat)
    requires n <= |inputs|
    ensures (forall i :: 0 <= i < n ==> inputs[i].Restart?) ==>
              At(config, bay, inputs, n) == if n == 0 then bay else bay.(retryAt := None)
  {
    if n > 0 {
      OnlyRestarts(config, bay, inputs, n - 1);
    }
  }

  // And no restart loses an alert: what was not delivered is tried again at the next look.
  lemma RestartLosesNothing(config: Config, bay: Bay, inputs: seq<Input>, n: nat)
    requires n + 1 < |inputs| && inputs[n].Restart? && inputs[n + 1].Look? && inputs[n + 1].now >= 0.0
    ensures Tries(config, bay, inputs, n + 1) <==> Outstanding(config, At(config, bay, inputs, n), inputs[n + 1].health)
  {
    assert At(config, bay, inputs, n + 1) == At(config, bay, inputs, n).(retryAt := None);
  }

  // What the class does on a restart is the restart of each bay: a notifier started on the
  // state file a current one left behind knows the same committed states and no cooldowns.
  lemma RestartIsPerBay(before: HealthNotifier, after: HealthNotifier, key: Key)
    requires before.FileIsCurrent() && before.persistent && after.persistent && after.file == before.file
    requires !after.loaded && after.last == map[] && after.retryAt == map[]
    ensures BayOf(after.State(), key) == Next(before.config, BayOf(before.State(), key), Restart)
  {
  }

  // ------------------------------------------------------------------ whole shelves

  // What happens to a notifier: an evaluation of the shelf, or a restart of the application.
  datatype Round = Shelf(bays: seq<Observation>, now: real, accepted: seq<bool>) | Reboot

  ghost predicate WellFormed(round: Round) { round.Shelf? ==> |round.accepted| == |round.bays| && DistinctBays(round.bays) }

  ghost predicate Rounds(rounds: seq<Round>) { forall i :: 0 <= i < |rounds| ==> WellFormed(rounds[i]) }

  ghost function NotesAfter(config: Config, notes: Notes, rounds: seq<Round>, n: nat): Notes
    requires n <= |rounds| && Rounds(rounds)
  {
    if n == 0 then notes
    else
      var before := NotesAfter(config, notes, rounds, n - 1);
      match rounds[n - 1]
      case Shelf(bays, now, accepted) => After(config, before, bays, accepted, now)
      case Reboot => Notes(before.last, map[])
  }

  // Where a shelf lists a bay, if it does.
  function Listing(bays: seq<Observation>, key: Key): Option<nat> {
    if bays == [] then None
    else if bays[|bays| - 1].key == key then Some(|bays| - 1)
    else Listing(bays[..|bays| - 1], key)
  }

  lemma {:induction false} ListingIs(bays: seq<Observation>, key: Key)
    ensures match Listing(bays, key)
            case Some(i) => i < |bays| && bays[i].key == key
            case None => forall i :: 0 <= i < |bays| ==> bays[i].key != key
  {
    if bays != [] {
      ListingIs(bays[..|bays| - 1], key);
    }
  }

  // What a round is to one bay.
  function InputOf(round: Round, key: Key): Option<Input> {
    match round
    case Reboot => Some(Restart)
    case Shelf(bays, now, accepted) =>
      var i := Listing(bays, key);
      if i.Some? && i.value < |bays| && i.value < |accepted|
      then Some(Look(bays[i.value].health, now, accepted[i.value])) else None
  }

  function InputsOf(rounds: seq<Round>, key: Key, n: nat): seq<Input>
    requires n <= |rounds|
  {
    if n == 0 then []
    else
      var earlier, input := InputsOf(rounds, key, n - 1), InputOf(rounds[n - 1], key);
      if input.Some? then earlier + [input.value] else earlier
  }

  lemma {:induction false} AtOfPrefix(config: Config, bay: Bay, inputs: seq<Input>, input: Input, n: nat)
    requires n <= |inputs|
    ensures At(config, bay, inputs + [input], n) == At(config, bay, inputs, n)
  {
    if n > 0 {
      AtOfPrefix(config, bay, inputs, input, n - 1);
    }
  }

  lemma AtNext(config: Config, bay: Bay, inputs: seq<Input>, input: Input)
    ensures At(config, bay, inputs + [input], |inputs| + 1) == Next(config, At(config, bay, inputs, |inputs|), input)
  {
    AtOfPrefix(config, bay, inputs, input, |inputs|);
  }

  // One round moves each bay by its own input, and not at all if it has none.
  lemma RoundIsPerBay(config: Config, before: Notes, round: Round, key: Key)
    requires WellFormed(round)
    ensures var after := if round.Shelf? then After(config, before, round.bays, round.accepted, round.now) else Notes(before.last, map[]);
            var input := InputOf(round, key);
            BayOf(after, key) == if input.Some? then Next(config, BayOf(before, key), input.value) else BayOf(before, key)
  {
    if round.Shelf? {
      ShelfIsItsBays(config, before, round.bays, round.accepted, round.now);
      ListingIs(round.bays, key);
    }
  }

  // Over any sequence of evaluations and restarts the notifier treats every bay by its own
  // looks alone, so all that is proved of one bay's runs holds of every bay on the shelf.
  lemma {:induction false} ShelfRunsArePerBay(config: Config, notes: Notes, rounds: seq<Round>, key: Key, n: nat)
    requires n <= |rounds| && Rounds(rounds)
    ensures var inputs := InputsOf(rounds, key, n);
            BayOf(NotesAfter(config, notes, rounds, n), key) == At(config, BayOf(notes, key), inputs, |inputs|)
  {
    if n > 0 {
      ShelfRunsArePerBay(config, notes, rounds, key, n - 1);
      var inputs, input := InputsOf(rounds, key, n - 1), InputOf(rounds[n - 1], key);
      RoundIsPerBay(config, NotesAfter(config, notes, rounds, n - 1), rounds[n - 1], key);
      if input.Some? {
        AtNext(config, BayOf(notes, key), inputs, input.value);
      }
    }
  }

  ghost predicate Announces(sent: seq<Attempt>, key: Key, delivered: bool) {
    exists m :: m in sent && m.key == key && m.delivered == delivered
  }

  ghost predicate Alerting(config: Config, notes: Notes, bays: seq<Observation>, accepted: seq<bool>, now: real,
                           key: Key, delivered: bool, i: int)
    requires |accepted| == |bays|
  {
    0 <= i < |bays| && bays[i].key == key && accepted[i] == delivered
    && Attempts(config, BayOf(notes, key), bays[i].health, now)
  }

  lemma AnnouncedIsAlerting(config: Config, notes: Notes, bays: seq<Observation>, accepted: seq<bool>, now: real,
                            key: Key, delivered: bool) returns (i: nat)
    requires |accepted| == |bays| && DistinctBays(bays)
    requires Announces(Sent(config, notes, bays, accepted, now), key, delivered)
    ensures Alerting(config, notes, bays, accepted, now, key, delivered, i)
  {
    var sent := Sent(config, notes, bays, accepted, now);
    var m :| m in sent && m.key == key && m.delivered == delivered;
    var k :| 0 <= k < |sent| && sent[k] == m;
    i := WhoseMessage(config, notes, bays, accepted, now, k);
  }

  lemma AlertingIsAnnounced(config: Config, notes: Notes, bays: seq<Observation>, accepted: seq<bool>, now: real,
                            key: Key, delivered: bool, i: nat)
    requires |accepted| == |bays| && DistinctBays(bays)
    requires Alerting(config, notes, bays, accepted, now, key, delivered, i)
    ensures Announces(Sent(config, notes, bays, accepted, now), key, delivered)
  {
    MessagesAreTheOutstanding(config, notes, bays, accepted, now);
    assert MessageOf(notes, bays[i], accepted[i]) in Sent(config, notes, bays, accepted, now);
  }

  lemma AnnouncesIff(config: Config, notes: Notes, bays: seq<Observation>, accepted: seq<bool>, now: real, key: Key, delivered: bool)
    requires |accepted| == |bays| && DistinctBays(bays)
    ensures var input := InputOf(Shelf(bays, now, accepted), key);
            Announces(Sent(config, notes, bays, accepted, now), key, delivered) <==>
              input.Some? && Attempts(config, BayOf(notes, key), input.value.health, now) && input.value.accepted == delivered
  {
    ListingIs(bays, key);
    var listed := Listing(bays, key);
    if Announces(Sent(config, notes, bays, accepted, now), key, delivered) {
      var i := AnnouncedIsAlerting(config, notes, bays, accepted, now, key, delivered);
      assert listed == Some(i);
    }
    if listed.Some? && Alerting(config, notes, bays, accepted, now, key, delivered, listed.value) {
      AlertingIsAnnounced(config, notes, bays, accepted, now, key, delivered, listed.value);
    }
  }

  // A round sends a message about a bay exactly when the bay's own run tries one there, and
  // the message is delivered exactly when the try is accepted.
  lemma ShelfRunMessages(config: Config, notes: Notes, rounds: seq<Round>, key: Key, n: nat, delivered: bool)
    requires n < |rounds| && Rounds(rounds) && rounds[n].Shelf?
    ensures var inputs, input := InputsOf(rounds, key, n), InputOf(rounds[n], key);
            Announces(Sent(config, NotesAfter(config, notes, rounds, n), rounds[n].bays, rounds[n].accepted, rounds[n].now),
                      key, delivered) <==>
              input.Some? && Tries(config, BayOf(notes, key), inputs + [input.value], |inputs|)
              && input.value.accepted == delivered
  {
    var inputs, input := InputsOf(rounds, key, n), InputOf(rounds[n], key);
    ShelfRunsArePerBay(config, notes, rounds, key, n);
    AnnouncesIff(config, NotesAfter(config, notes, rounds, n), rounds[n].bays, rounds[n].accepted, rounds[n].now, key, delivered);
    if input.Some? {
      AtOfPrefix(config, BayOf(notes, key), inputs, input.value, |inputs|);
    }
  }
}

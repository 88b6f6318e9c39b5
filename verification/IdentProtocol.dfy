// One bay's LED as a concurrent protocol: polls that sample, linger and land in any order,
// the application's own writes in their separate steps, other actors, and dropped records.
// The question is what the origin verdict is worth under every interleaving.
module IdentProtocol {
  import opened Options
  import opened Ident

  datatype Reading = Reading(lit: bool, at: real)

  // A poll is stamped when it starts, samples later, and is cached later still.
  datatype Poll = Poll(start: real, sample: Option<bool>)

  // The one write that may be in flight (writes to an enclosure hold its lock).
  datatype Writer =
    | Idle
    | Writing(on: bool)   // the command has not taken effect
    | Effected(on: bool)  // it has, and was read back; nothing is published
    | Half(on: bool)      // the first of the two publications is done

  datatype State = State(
    now: real, led: bool, slot: Slot, polls: map<nat, Poll>, cache: Option<Reading>, writer: Writer,
    // History, which no step reads except to carry it on:
    foreign: bool,        // unexplained by us since the effect of our last write
    foreignAtStamp: bool, // the same, since the effect of our last published write
    steadyFrom: real)     // when the LED or our stamp last changed

  datatype Event =
    | Advance(span: real)
    | PollStart(id: nat) | PollSample(id: nat) | PollStore(id: nat) | PollFail(id: nat)
    | WriteStart(target: bool) | WriteFail | WriteEffect
    | PublishFirst(user: string, expires: Option<real>) | PublishSecond
    | OtherSets(state: bool)
    | DropRecord  // the timer giving up, or startup reconciliation

  predicate Initial(s: State) {
    && s.slot.stamp.None? && s.polls == map[] && s.cache.None? && s.writer == Idle
    && s.foreign == s.foreignAtStamp == (s.led && s.slot.record.None?)
    && s.steadyFrom == s.now
  }

  predicate Enabled(s: State, e: Event) {
    match e
    case Advance(span) => span >= 0.0
    case PollStart(id) => id !in s.polls
    case PollSample(id) => id in s.polls && s.polls[id].sample.None?
    case PollStore(id) => id in s.polls && s.polls[id].sample.Some?
    case PollFail(id) => id in s.polls
    case WriteStart(_) => s.writer == Idle
    case WriteFail => s.writer.Writing?
    case WriteEffect => s.writer.Writing?
    case PublishFirst(_, _) => s.writer.Effected?
    case PublishSecond => s.writer.Half?
    case OtherSets(_) => true
    case DropRecord => !s.writer.Half?
  }

  // Off publishes its stamp and then drops the record; on, its record and then the stamp.
  function Step(s: State, e: Event): State
    requires Enabled(s, e)
  {
    match e
    case Advance(span) => s.(now := s.now + span)
    case PollStart(id) => s.(polls := s.polls[id := Poll(s.now, None)])
    case PollSample(id) => s.(polls := s.polls[id := s.polls[id].(sample := Some(s.led))])
    case PollStore(id) => s.(cache := Some(Reading(s.polls[id].sample.value, s.polls[id].start)), polls := s.polls - {id})
    case PollFail(id) => s.(polls := s.polls - {id})
    case WriteStart(target) => s.(writer := Writing(target))
    case WriteFail => s.(writer := Idle)
    case WriteEffect => s.(led := s.writer.on, writer := Effected(s.writer.on), foreign := false, steadyFrom := s.now)
    case PublishFirst(user, expires) =>
      if s.writer.on then s.(slot := s.slot.(record := Some(Record(user, expires))), writer := Half(true))
      else Stamped(s).(writer := Half(false))
    case PublishSecond =>
      if s.writer.on then Stamped(s).(writer := Idle)
      else s.(slot := s.slot.(record := None, retry := None), writer := Idle)
    case OtherSets(state) =>
      if s.led == state then s
      else s.(led := state, steadyFrom := s.now, foreign := s.foreign || state, foreignAtStamp := s.foreignAtStamp || state)
    case DropRecord =>
      if s.slot.record.None? then s
      else s.(slot := s.slot.(record := None, retry := None), foreign := true, foreignAtStamp := true)
  }

  function Stamped(s: State): State
    requires s.writer.Effected? || s.writer.Half?
  {
    s.(slot := s.slot.(stamp := Some(Stamp(s.now, s.writer.on)), retry := None),
       foreignAtStamp := s.foreign, steadyFrom := s.now)
  }

  // What the bay list shows for a cached reading.
  function Shown(s: State): Option<Verdict> {
    if s.cache.None? then None else Some(Describe(s.slot, s.cache.value.lit, s.cache.value.at))
  }

  // What an observer of the LED itself and our records would say.
  function Truth(s: State): Verdict { Describe(s.slot.(stamp := None), s.led, s.now) }

  // The steps of a write publish what the manager's identify() does, and nothing else.
  lemma PublicationsAreIdentify(s: State, user: string, expires: Option<real>)
    requires s.writer.Effected?
    ensures var first := Step(s, PublishFirst(user, expires));
            Step(first, PublishSecond).slot == Published(s.writer.on, Record(user, expires), s.now)
  {
  }

  // ------------------------------------------------------------------ runs

  ghost predicate Run(states: seq<State>, events: seq<Event>) {
    && |states| == |events| + 1
    && Initial(states[0])
    && forall i :: 0 <= i < |events| ==> Enabled(states[i], events[i]) && states[i + 1] == Step(states[i], events[i])
  }

  // A lit reading that no later write of ours has overtaken.
  predicate Stands(s: State, lit: bool, at: real) { lit && !Superseded(s.slot.stamp, at) }

  // Either the record answers for a lit LED, or something foreign does, or an ON write of
  // ours has lit it and not yet said so.
  predicate Explained(s: State) { s.slot.record.Some? || s.foreignAtStamp || s.writer == Effected(true) }

  ghost predicate Inv(s: State) {
    && Core(s)
    && (forall id :: id in s.polls ==>
          && s.polls[id].start <= s.now
          && (s.polls[id].sample.Some? ==> Sound(s, s.polls[id].sample.value, s.polls[id].start)))
    && (s.cache.Some? ==> s.cache.value.at <= s.now && Sound(s, s.cache.value.lit, s.cache.value.at))
  }

  predicate Core(s: State) {
    && s.steadyFrom <= s.now
    && (s.slot.stamp.Some? ==> s.slot.stamp.value.at <= s.steadyFrom)
    && (s.foreign ==> s.foreignAtStamp)
    && (s.led ==> s.slot.record.Some? || s.foreign || s.writer == Effected(true))
    && (s.led && s.writer in {Effected(false), Half(false)} ==> s.foreign)
    && (s.writer == Half(true) ==> s.slot.record.Some?)
    && (s.writer == Half(false) ==> s.slot.stamp.Some? && !s.slot.stamp.value.state)
    && (s.slot.stamp.Some? && s.slot.stamp.value.state ==> Explained(s))
  }

  predicate Sound(s: State, lit: bool, at: real) {
    && (Stands(s, lit, at) ==> Explained(s))
    && (s.writer == Half(false) && Stands(s, lit, at) ==> s.foreignAtStamp)
    && (at > s.steadyFrom ==> lit == s.led)
  }

  lemma StepKeepsSound(s: State, e: Event, lit: bool, at: real)
    requires Inv(s) && Enabled(s, e) && at <= s.now && Sound(s, lit, at)
    ensures at <= Step(s, e).now && Sound(Step(s, e), lit, at)
  {
  }

  lemma StepKeepsPolls(s: State, e: Event, id: nat)
    requires Inv(s) && Enabled(s, e) && id in Step(s, e).polls
    ensures var p := Step(s, e).polls[id];
            p.start <= Step(s, e).now && (p.sample.Some? ==> Sound(Step(s, e), p.sample.value, p.start))
  {
    if id in s.polls && s.polls[id].sample.Some? {
      StepKeepsSound(s, e, s.polls[id].sample.value, s.polls[id].start);
    }
  }

  lemma StepKeepsCache(s: State, e: Event)
    requires Inv(s) && Enabled(s, e) && Step(s, e).cache.Some?
    ensures var c := Step(s, e).cache.value; c.at <= Step(s, e).now && Sound(Step(s, e), c.lit, c.at)
  {
    if e.PollStore? {
      StepKeepsSound(s, e, s.polls[e.id].sample.value, s.polls[e.id].start);
    } else {
      StepKeepsSound(s, e, s.cache.value.lit, s.cache.value.at);
    }
  }

  lemma StepKeepsCore(s: State, e: Event)
    requires Core(s) && Enabled(s, e)
    ensures Core(Step(s, e))
  {
  }

  lemma StepKeepsInv(s: State, e: Event)
    requires Inv(s) && Enabled(s, e)
    ensures Inv(Step(s, e))
  {
    StepKeepsCore(s, e);
    forall id | id in Step(s, e).polls { StepKeepsPolls(s, e, id); }
    if Step(s, e).cache.Some? {
      StepKeepsCache(s, e);
    }
  }

  lemma {:induction false} RunKeepsInv(states: seq<State>, events: seq<Event>, n: nat)
    requires Run(states, events) && n < |states|
    ensures Inv(states[n])
  {
    if n > 0 {
      RunKeepsInv(states, events, n - 1);
      StepKeepsInv(states[n - 1], events[n - 1]);
    }
  }

  // ------------------------------------------------------------------ what the history is

  // Something other than our writing put the LED, or our claim to it, in doubt: it was lit
  // without a record at the start (i == -1), another actor lit it, or its record was dropped.
  ghost predicate Evidence(states: seq<State>, events: seq<Event>, i: int)
    requires Run(states, events) && -1 <= i < |events|
  {
    if i == -1 then states[0].led && states[0].slot.record.None?
    else (events[i] == OtherSets(true) && !states[i].led) || (events[i].DropRecord? && states[i].slot.record.Some?)
  }

  ghost predicate Stamps(states: seq<State>, events: seq<Event>, k: int)
    requires Run(states, events) && 0 <= k < |events|
  {
    (events[k].PublishFirst? && !states[k].writer.on) || (events[k].PublishSecond? && states[k].writer.on)
  }

  // Where our last write before n took effect (-2: nowhere yet).
  function LastEffect(events: seq<Event>, n: nat): int
    requires n <= |events|
  {
    if n == 0 then -2 else if events[n - 1].WriteEffect? then n - 1 else LastEffect(events, n - 1)
  }

  // Where our last write published before n had taken effect.
  ghost function LastPublished(states: seq<State>, events: seq<Event>, n: nat): int
    requires Run(states, events) && n <= |events|
  {
    if n == 0 then -2
    else if Stamps(states, events, n - 1) then LastEffect(events, n - 1)
    else LastPublished(states, events, n - 1)
  }

  ghost predicate ForeignSince(states: seq<State>, events: seq<Event>, from: int, n: nat)
    requires Run(states, events) && n <= |events|
  {
    exists i :: -1 <= i < n && from < i && Evidence(states, events, i)
  }

  lemma ForeignGrows(states: seq<State>, events: seq<Event>, from: int, n: nat)
    requires Run(states, events) && n < |events| && from < n
    ensures ForeignSince(states, events, from, n + 1) <==> ForeignSince(states, events, from, n) || Evidence(states, events, n)
  {
  }

  lemma HistoryStep(states: seq<State>, events: seq<Event>, n: nat)
    requires Run(states, events) && n < |events|
    ensures states[n + 1].foreign <==> (states[n].foreign && !events[n].WriteEffect?) || Evidence(states, events, n)
    ensures states[n + 1].foreignAtStamp <==>
              (if Stamps(states, events, n) then states[n].foreign else states[n].foreignAtStamp) || Evidence(states, events, n)
  {
    assert states[n + 1] == Step(states[n], events[n]);
  }

  lemma {:induction false} EffectsAreEarlier(states: seq<State>, events: seq<Event>, n: nat)
    requires Run(states, events) && n <= |events|
    ensures LastEffect(events, n) < n && LastPublished(states, events, n) < n
  {
    if n > 0 {
      EffectsAreEarlier(states, events, n - 1);
    }
  }

  // The history flags say exactly what the run did.
  lemma {:induction false} HistoryIsWhatHappened(states: seq<State>, events: seq<Event>, n: nat)
    requires Run(states, events) && n <= |events|
    ensures states[n].foreign <==> ForeignSince(states, events, LastEffect(events, n), n)
    ensures states[n].foreignAtStamp <==> ForeignSince(states, events, LastPublished(states, events, n), n)
  {
    if n == 0 {
      assert Evidence(states, events, -1) <==> states[0].foreign;
    } else {
      HistoryIsWhatHappened(states, events, n - 1);
      HistoryStep(states, events, n - 1);
      EffectsAreEarlier(states, events, n - 1);
      ForeignGrows(states, events, LastEffect(events, n - 1), n - 1);
      ForeignGrows(states, events, LastPublished(states, events, n - 1), n - 1);
    }
  }

  // ------------------------------------------------------------------ the verdict is sound

  lemma {:induction false} HeldReadingStaysSound(states: seq<State>, events: seq<Event>, h: nat, n: nat)
    requires Run(states, events) && h <= n < |states| && states[h].cache.Some?
    ensures states[h].cache.value.at <= states[n].now
    ensures Sound(states[n], states[h].cache.value.lit, states[h].cache.value.at)
  {
    if n == h {
      RunKeepsInv(states, events, n);
    } else {
      HeldReadingStaysSound(states, events, h, n - 1);
      RunKeepsInv(states, events, n - 1);
      StepKeepsSound(states[n - 1], events[n - 1], states[h].cache.value.lit, states[h].cache.value.at);
    }
  }

  // A reader may hold a reading taken from the cache at h and describe it at n.
  function Described(held: State, s: State): Verdict
    requires held.cache.Some?
  {
    Describe(s.slot, held.cache.value.lit, held.cache.value.at)
  }

  // "External" is never said of an LED that only we have lit: since the effect of our last
  // published write something else did, or the record was dropped, or it was lit at the start
  // with no record. The one exception is the gap between an ON write's effect and its record.
  lemma ExternalIsForeign(states: seq<State>, events: seq<Event>, h: nat, n: nat)
    requires Run(states, events) && h <= n < |states| && states[h].cache.Some?
    requires Described(states[h], states[n]) == External
    requires states[n].writer != Effected(true)
    ensures ForeignSince(states, events, LastPublished(states, events, n), n)
  {
    HeldReadingStaysSound(states, events, h, n);
    RunKeepsInv(states, events, n);
    HistoryIsWhatHappened(states, events, n);
  }

  // What describe() takes the LED to be.
  predicate Believed(slot: Slot, lit: bool, at: real) { if Superseded(slot.stamp, at) then slot.stamp.value.state else lit }

  // Exactly then is an LED that only we have lit called external: inside that gap, when no
  // record of an earlier request answers for it and it is believed lit.
  lemma FalseExternalIff(states: seq<State>, events: seq<Event>, h: nat, n: nat)
    requires Run(states, events) && h <= n < |states| && states[h].cache.Some?
    requires !ForeignSince(states, events, LastPublished(states, events, n), n)
    ensures Described(states[h], states[n]) == External <==>
              && states[n].writer == Effected(true) && states[n].slot.record.None?
              && Believed(states[n].slot, states[h].cache.value.lit, states[h].cache.value.at)
  {
    if Described(states[h], states[n]) == External && states[n].writer != Effected(true) {
      ExternalIsForeign(states, events, h, n);
    }
  }

  // A run that starts explained, in which nobody else acts and no record is dropped.
  lemma OnlyOurs(states: seq<State>, events: seq<Event>)
    requires Run(states, events) && (states[0].led ==> states[0].slot.record.Some?)
    requires forall i :: 0 <= i < |events| ==> !events[i].OtherSets? && !events[i].DropRecord?
    ensures forall i :: -1 <= i < |events| ==> !Evidence(states, events, i)
  {
  }

  // The exception is real: a poll that starts, samples and lands inside the gap shows an
  // LED that only we have lit as external.
  lemma UnpublishedOnLooksExternal() returns (states: seq<State>, events: seq<Event>)
    ensures Run(states, events)
    ensures var n := |events|;
            && states[n].writer == Effected(true) && Shown(states[n]) == Some(External)
            && forall i :: -1 <= i < n ==> !Evidence(states, events, i)
  {
    states, events := [State(0.0, false, Slot(None, None, None), map[], None, Idle, false, false, 0.0)], [];
    states, events := Then(states, events, WriteStart(true));
    states, events := Then(states, events, WriteEffect);
    states, events := Then(states, events, PollStart(0));
    states, events := Then(states, events, PollSample(0));
    states, events := Then(states, events, PollStore(0));
    OnlyOurs(states, events);
  }

  // ------------------------------------------------------------------ and complete

  // Neither the LED nor our stamp changes from m to n.
  ghost predicate Steady(states: seq<State>, events: seq<Event>, m: nat, n: nat)
    requires Run(states, events) && n <= |events|
  {
    forall i :: m <= i < n ==>
      && !events[i].WriteEffect? && !Stamps(states, events, i)
      && (events[i].OtherSets? ==> events[i].state == states[i].led)
  }

  lemma {:induction false} SteadyFromStays(states: seq<State>, events: seq<Event>, m: nat, n: nat)
    requires Run(states, events) && m <= n <= |events| && Steady(states, events, m, n)
    ensures states[n].steadyFrom == states[m].steadyFrom
  {
    if m < n {
      SteadyFromStays(states, events, m, n - 1);
    }
  }

  // A poll that started strictly after the last change is believed outright, however the
  // polls before it finish: the bay shows external exactly when the LED is lit and no record
  // answers for it, the record's request when one does, and dark when it is dark.
  lemma SettledReadingIsTrue(states: seq<State>, events: seq<Event>, m: nat, n: nat)
    requires Run(states, events) && m <= n <= |events| && Steady(states, events, m, n)
    requires states[n].cache.Some? && states[n].cache.value.at > states[m].now
    ensures Shown(states[n]) == Some(Truth(states[n]))
  {
    SteadyFromStays(states, events, m, n);
    RunKeepsInv(states, events, m);
    RunKeepsInv(states, events, n);
  }

  // From l on, after another actor lit the dark LED there, nothing puts it out.
  ghost predicate LitSince(states: seq<State>, events: seq<Event>, l: nat, n: nat)
    requires Run(states, events) && l < n <= |events|
  {
    && events[l] == OtherSets(true) && !states[l].led
    && forall k :: l < k < n ==> !events[k].WriteEffect? && events[k] != OtherSets(false)
  }

  // A reading stamped after the light shows it.
  predicate Sees(lit: bool, at: real, since: real) { at > since ==> lit }

  ghost predicate AllSee(s: State, since: real) {
    && s.led && since <= s.now
    && (forall id :: id in s.polls && s.polls[id].sample.Some? ==> Sees(s.polls[id].sample.value, s.polls[id].start, since))
    && (s.cache.Some? ==> Sees(s.cache.value.lit, s.cache.value.at, since))
  }

  lemma StepKeepsSeeing(s: State, e: Event, since: real)
    requires AllSee(s, since) && Enabled(s, e) && !e.WriteEffect? && e != OtherSets(false)
    ensures AllSee(Step(s, e), since)
  {
  }

  lemma {:induction false} LaterPollsSeeTheLight(states: seq<State>, events: seq<Event>, l: nat, n: nat)
    requires Run(states, events) && l < n <= |events| && LitSince(states, events, l, n)
    ensures AllSee(states[n], states[l].now)
  {
    if n == l + 1 {
      RunKeepsInv(states, events, l);
    } else {
      LaterPollsSeeTheLight(states, events, l, n - 1);
      StepKeepsSeeing(states[n - 1], events[n - 1], states[l].now);
    }
  }

  // The one stamp since l was made at k, and no other can follow before a write takes effect.
  ghost predicate OnlyStamp(states: seq<State>, events: seq<Event>, l: nat, k: int, n: nat)
    requires Run(states, events) && l < n <= |events|
  {
    && l < k < n && Stamps(states, events, k)
    && states[n].slot.stamp == Some(Stamp(states[k].now, states[k].writer.on))
    && (states[n].writer.Idle? || states[n].writer.Writing? || states[n].writer == Half(false))
    && forall j :: l < j < n && j != k ==> !Stamps(states, events, j)
  }

  ghost predicate NoStamp(states: seq<State>, events: seq<Event>, l: nat, n: nat)
    requires Run(states, events) && l < n <= |events|
  {
    states[n].slot.stamp == states[l + 1].slot.stamp && forall j :: l < j < n ==> !Stamps(states, events, j)
  }

  lemma StampStep(s: State, e: Event)
    requires Enabled(s, e) && !e.WriteEffect?
    ensures var stamps := (e.PublishFirst? && !s.writer.on) || (e.PublishSecond? && s.writer.on);
            && (stamps ==> Step(s, e).slot.stamp == Some(Stamp(s.now, s.writer.on))
                           && (Step(s, e).writer.Idle? || Step(s, e).writer == Half(false)))
            && (!stamps ==> Step(s, e).slot.stamp == s.slot.stamp)
            && (s.writer.Idle? || s.writer.Writing? || s.writer == Half(false) ==>
                  !stamps && (Step(s, e).writer.Idle? || Step(s, e).writer.Writing? || Step(s, e).writer == Half(false)))
  {
  }

  lemma {:induction false} StampsSince(states: seq<State>, events: seq<Event>, l: nat, n: nat)
    requires Run(states, events) && l < n <= |events| && forall k :: l < k < n ==> !events[k].WriteEffect?
    ensures NoStamp(states, events, l, n) || exists k :: OnlyStamp(states, events, l, k, n)
  {
    if n > l + 1 {
      var m := n - 1;
      StampsSince(states, events, l, m);
      StampStep(states[m], events[m]);
      if NoStamp(states, events, l, m) {
        assert Stamps(states, events, m) ==> OnlyStamp(states, events, l, m, n);
      } else {
        var k :| OnlyStamp(states, events, l, k, m);
        assert OnlyStamp(states, events, l, k, n);
      }
    }
  }

  lemma {:induction false} EffectedBefore(states: seq<State>, events: seq<Event>, l: nat, k: nat)
    requires Run(states, events) && l <= k < |events| && states[k].writer.Effected?
    requires forall j :: l <= j < k ==> !events[j].WriteEffect?
    ensures states[l].writer == states[k].writer
  {
    if l < k {
      EffectedBefore(states, events, l, k - 1);
    }
  }

  // The OFF write whose effect came before the light and whose stamp, at k, came after the
  // poll of the reading shown had started.
  ghost predicate OffStampsOver(states: seq<State>, events: seq<Event>, k: int, at: real)
    requires Run(states, events) && 0 <= k < |events|
  {
    events[k].PublishFirst? && states[k].writer == Effected(false) && at <= states[k].now
  }

  lemma HiddenBySomeStamp(states: seq<State>, events: seq<Event>, l: nat, n: nat, at: real) returns (k: nat)
    requires Run(states, events) && l < n <= |events| && LitSince(states, events, l, n) && at > states[l].now
    requires Superseded(states[n].slot.stamp, at) && !states[n].slot.stamp.value.state
    ensures l < k < n && OffStampsOver(states, events, k, at) && states[l].writer == Effected(false)
  {
    RunKeepsInv(states, events, l);
    StampsSince(states, events, l, n);
    assert !NoStamp(states, events, l, n);
    k :| OnlyStamp(states, events, l, k, n);
    EffectedBefore(states, events, l, k);
  }

  lemma StampHides(states: seq<State>, events: seq<Event>, l: nat, n: nat, at: real, k: nat)
    requires Run(states, events) && l < n <= |events| && LitSince(states, events, l, n)
    requires l < k < n && OffStampsOver(states, events, k, at)
    ensures Superseded(states[n].slot.stamp, at) && !states[n].slot.stamp.value.state
  {
    StampsSince(states, events, l, n);
    assert Stamps(states, events, k);
    var j :| OnlyStamp(states, events, l, j, n);
    assert j == k;
  }

  // Exactly when a light another actor switched on is hidden from a poll that started after
  // it: it came on while an OFF write of ours had taken effect and was not yet published, and
  // the poll started no later than that write's stamp.
  lemma ForeignLightIsHiddenIff(states: seq<State>, events: seq<Event>, l: nat, n: nat)
    requires Run(states, events) && l < n <= |events| && LitSince(states, events, l, n)
    requires states[n].slot.record.None? && states[n].cache.Some? && states[n].cache.value.at > states[l].now
    ensures Shown(states[n]) != Some(External) <==>
              states[l].writer == Effected(false)
              && exists k :: l < k < n && OffStampsOver(states, events, k, states[n].cache.value.at)
    ensures Shown(states[n]) != Some(External) ==> Shown(states[n]) == Some(Dark)
  {
    var at := states[n].cache.value.at;
    LaterPollsSeeTheLight(states, events, l, n);
    assert Shown(states[n]) == Some(External) <==> !(Superseded(states[n].slot.stamp, at) && !states[n].slot.stamp.value.state);
    if Superseded(states[n].slot.stamp, at) && !states[n].slot.stamp.value.state {
      var k := HiddenBySomeStamp(states, events, l, n, at);
    }
    if k :| l < k < n && OffStampsOver(states, events, k, at) {
      StampHides(states, events, l, n, at, k);
    }
  }

  // A run may go on with any enabled event.
  lemma Then(states: seq<State>, events: seq<Event>, e: Event) returns (longer: seq<State>, more: seq<Event>)
    requires Run(states, events) && Enabled(states[|events|], e)
    ensures longer == states + [Step(states[|events|], e)] && more == events + [e] && Run(longer, more)
  {
    longer, more := states + [Step(states[|events|], e)], events + [e];
  }

  // Another actor lights the LED, and a poll samples it, between an OFF write's effect and its stamp.
  lemma LitInsideAWrite() returns (states: seq<State>, events: seq<Event>)
    ensures Run(states, events) && |events| == 6
    ensures events[2] == OtherSets(true) && states[2].now == 0.0 && events[5] == PollSample(0) && states[5].led
    ensures states[6] == State(1.0, true, Slot(None, None, None), map[0 := Poll(1.0, Some(true))], None, Effected(false), true, true, 0.0)
  {
    states, events := LitInTheGap();
    states, events := Then(states, events, Advance(1.0));
    states, events := Then(states, events, PollStart(0));
    states, events := Then(states, events, PollSample(0));
  }

  lemma LitInTheGap() returns (states: seq<State>, events: seq<Event>)
    ensures Run(states, events) && |events| == 3 && events[2] == OtherSets(true) && states[2].now == 0.0
    ensures states[3] == State(0.0, true, Slot(None, None, None), map[], None, Effected(false), true, true, 0.0)
  {
    states, events := [State(0.0, false, Slot(None, None, None), map[], None, Idle, false, false, 0.0)], [];
    states, events := Then(states, events, WriteStart(false));
    states, events := Then(states, events, WriteEffect);
    states, events := Then(states, events, OtherSets(true));
  }

  // Such a run: another actor's light, sampled lit by a poll that started after it, is shown dark.
  lemma StraddlingLightIsHidden() returns (states: seq<State>, events: seq<Event>)
    ensures Run(states, events)
    ensures var s := states[|events|];
            s.led && s.writer == Idle && Truth(s) == External && Shown(s) == Some(Dark)
    ensures exists lit, sampled :: 0 <= lit < sampled < |events| && events[lit] == OtherSets(true)
                                   && events[sampled].PollSample? && states[sampled].led
                                   && states[|events|].cache.Some? && states[|events|].cache.value.at > states[lit].now
  {
    states, events := LitInsideAWrite();
    states, events := Then(states, events, PublishFirst("admin", None));
    states, events := Then(states, events, PublishSecond);
    states, events := Then(states, events, PollStore(0));
    assert events[2] == OtherSets(true) && events[5].PollSample? && states[5].led;
  }

  // ------------------------------------------------------------------ a describe that is not atomic

  // describe() reads the stamp first (at i) and the record after it (at j).
  function Torn(held: State, atStamp: State, atRecord: State): Verdict
    requires held.cache.Some?
  {
    Describe(Slot(atRecord.slot.record, atStamp.slot.stamp, None), held.cache.value.lit, held.cache.value.at)
  }

  predicate Pops(s: State, e: Event) { e.DropRecord? || (e.PublishSecond? && s.writer == Half(false)) }

  lemma {:induction false} RecordStays(states: seq<State>, events: seq<Event>, i: nat, j: nat)
    requires Run(states, events) && i <= j <= |events|
    requires forall k :: i <= k < j ==> !Pops(states[k], events[k])
    ensures states[j].slot.record.None? ==> states[i].slot.record.None?
  {
    if i < j {
      RecordStays(states, events, i, j - 1);
    }
  }

  // A torn describe blames another actor for an LED only we have lit exactly when, at its first
  // read, it would have credited our own request, and at its second that record is gone.
  lemma TornDescribeLiesIff(states: seq<State>, events: seq<Event>, h: nat, i: nat, j: nat)
    requires Run(states, events) && h <= i <= j <= |events| && states[h].cache.Some?
    requires states[i].writer != Effected(true)
    requires !ForeignSince(states, events, LastPublished(states, events, i), i)
    ensures Torn(states[h], states[i], states[j]) == External <==>
              Described(states[h], states[i]).App? && states[j].slot.record.None?
  {
    if Described(states[h], states[i]) == External {
      ExternalIsForeign(states, events, h, i);
    }
  }

  // So it is sound whenever no record is popped between its reads.
  lemma TornDescribeIsSound(states: seq<State>, events: seq<Event>, h: nat, i: nat, j: nat)
    requires Run(states, events) && h <= i <= j <= |events| && states[h].cache.Some?
    requires forall k :: i <= k < j ==> !Pops(states[k], events[k])
    requires Torn(states[h], states[i], states[j]) == External && states[i].writer != Effected(true)
    ensures ForeignSince(states, events, LastPublished(states, events, i), i)
  {
    RecordStays(states, events, i, j);
    if !ForeignSince(states, events, LastPublished(states, events, i), i) {
      TornDescribeLiesIff(states, events, h, i, j);
    }
  }

  // Our lit LED is read as lit; then an OFF write takes effect.
  lemma ReadThenCleared() returns (states: seq<State>, events: seq<Event>)
    ensures Run(states, events) && |events| == 5
    ensures states[5] == State(0.0, false, Slot(Some(Record("admin", None)), None, None), map[], Some(Reading(true, 0.0)),
                               Effected(false), false, false, 0.0)
    ensures states[0].slot.record.Some? && forall i :: 0 <= i < 5 ==> !events[i].OtherSets? && !events[i].DropRecord?
  {
    states, events := [State(0.0, true, Slot(Some(Record("admin", None)), None, None), map[], None, Idle, false, false, 0.0)], [];
    states, events := Then(states, events, PollStart(0));
    states, events := Then(states, events, PollSample(0));
    states, events := Then(states, events, PollStore(0));
    assert states[3].polls == map[];
    states, events := Then(states, events, WriteStart(false));
    states, events := Then(states, events, WriteEffect);
  }

  // With a pop between them it need not be: both publications of an OFF write can land between
  // the two reads, and an LED that only ever was ours is then called external.
  lemma TornDescribeCanLie() returns (states: seq<State>, events: seq<Event>, i: nat)
    ensures Run(states, events) && i <= |events| && states[i].cache.Some?
    ensures Torn(states[i], states[i], states[|events|]) == External
    ensures Described(states[i], states[i]).App? && Described(states[i], states[|events|]) == Dark
    ensures forall c :: -1 <= c < |events| ==> !Evidence(states, events, c)
  {
    states, events := ReadThenCleared();
    i := 5;
    states, events := Then(states, events, PublishFirst("admin", None));
    states, events := Then(states, events, PublishSecond);
    OnlyOurs(states, events);
  }
}

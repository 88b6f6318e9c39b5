// The certificate watcher: restart once, and only onto a changed certificate that has been
// read the same for the whole settle period.
module TlsWatch {
  import opened Options

  // A file's content, by its hash, and whether every PEM block in it decodes.
  datatype Content = Content(hash: string, parses: bool)

  datatype Look = SourceUnreadable | ServedUnreadable | Both(source: Content, served: Content, now: real)

  datatype Pending = Pending(hash: string, since: real)
  datatype Timing = Timing(interval: real, settle: real)
  datatype State = State(pending: Option<Pending>, reloadPending: bool, restarted: bool)
  datatype Result = Result(state: State, delay: real, restarts: bool)

  const START := State(None, false, false)

  function Step(timing: Timing, s: State, look: Look): Result {
    if !look.Both? then Result(State(None, false, s.restarted), timing.interval, false)
    else if look.source.hash == look.served.hash then Result(State(None, false, s.restarted), timing.interval, false)
    else if !look.source.parses then Result(State(None, false, s.restarted), timing.settle, false)
    else if s.pending.None? || s.pending.value.hash != look.source.hash then
      Result(State(Some(Pending(look.source.hash, look.now)), true, s.restarted), timing.settle, false)
    else
      var remaining := timing.settle - (look.now - s.pending.value.since);
      if remaining > 0.0 then Result(s, remaining, false)
      else Result(s.(restarted := true), timing.interval, !s.restarted)
  }

  class TlsWatcher {
    const timing: Timing
    var pending: Option<Pending>
    var reloadPending: bool
    var restarted: bool

    constructor (timing: Timing)
      ensures this.timing == timing && Current() == START
    {
      this.timing := timing;
      pending, reloadPending, restarted := None, false, false;
    }

    function Current(): State
      reads this
    {
      State(pending, reloadPending, restarted)
    }

    method Check(look: Look) returns (delay: real, restarts: bool)
      modifies this
      ensures Result(Current(), delay, restarts) == Step(timing, old(Current()), look)
    {
      restarts := false;
      match look
      case SourceUnreadable =>
        pending, reloadPending := None, false;
        return timing.interval, false;
      case ServedUnreadable =>
        pending, reloadPending := None, false;
        return timing.interval, false;
      case Both(source, served, now) =>
        if source.hash == served.hash {
          pending, reloadPending := None, false;
          return timing.interval, false;
        }
        if !source.parses {
          pending, reloadPending := None, false;
          return timing.settle, false;
        }
        if pending.None? || pending.value.hash != source.hash {
          pending, reloadPending := Some(Pending(source.hash, now)), true;
          return timing.settle, false;
        }
        var remaining := timing.settle - (now - pending.value.since);
        if remaining > 0.0 {
          return remaining, false;
        }
        if restarted {
          return timing.interval, false;
        }
        restarted := true;
        return timing.interval, true;
    }
  }

  // ------------------------------------------------------------------ whole runs

  function After(timing: Timing, looks: seq<Look>, n: nat): State
    requires n <= |looks|
  {
    if n == 0 then START else Step(timing, After(timing, looks, n - 1), looks[n - 1]).state
  }

  predicate Restarts(timing: Timing, looks: seq<Look>, i: nat)
    requires i < |looks|
  {
    Step(timing, After(timing, looks, i), looks[i]).restarts
  }

  // This look shows a usable certificate, of this hash, that is not the one being served.
  predicate Candidate(look: Look, hash: string) {
    look.Both? && look.source.hash == hash && look.served.hash != hash && look.source.parses
  }

  // Looks m..i all show the same candidate, and look m is the first of them to.
  ghost predicate Streak(looks: seq<Look>, m: int, i: int, hash: string) {
    && 0 <= m <= i < |looks|
    && (forall k :: m <= k <= i ==> Candidate(looks[k], hash))
    && (m > 0 ==> !Candidate(looks[m - 1], hash))
  }

  // By look i its streak has lasted the settle period, and took at least one look before it.
  ghost predicate Settled(timing: Timing, looks: seq<Look>, i: int) {
    exists m, hash :: Streak(looks, m, i, hash) && m < i && looks[i].now - looks[m].now >= timing.settle
  }

  // What is pending is the current streak, since its first look; reload_pending says just that.
  lemma {:induction false} PendingIsTheStreak(timing: Timing, looks: seq<Look>, n: nat)
    requires n <= |looks|
    ensures After(timing, looks, n).reloadPending == After(timing, looks, n).pending.Some?
    ensures match After(timing, looks, n).pending
            case None => n > 0 && looks[n - 1].Both? ==> !Candidate(looks[n - 1], looks[n - 1].source.hash)
            case Some(p) => exists m :: Streak(looks, m, n - 1, p.hash) && looks[m].now == p.since
  {
    if n > 0 {
      PendingIsTheStreak(timing, looks, n - 1);
      var before, look := After(timing, looks, n - 1), looks[n - 1];
      if look.Both? && Candidate(look, look.source.hash) {
        var hash := look.source.hash;
        if before.pending.Some? && before.pending.value.hash == hash {
          var m :| Streak(looks, m, n - 2, hash) && looks[m].now == before.pending.value.since;
          assert Streak(looks, m, n - 1, hash);
        } else {
          assert Streak(looks, n - 1, n - 1, hash);
        }
      }
    }
  }

  lemma SettledWhen(timing: Timing, looks: seq<Look>, i: nat)
    requires i < |looks|
    ensures Settled(timing, looks, i) <==>
              looks[i].Both? && Candidate(looks[i], looks[i].source.hash)
              && var p := After(timing, looks, i).pending;
                 p.Some? && p.value.hash == looks[i].source.hash && looks[i].now - p.value.since >= timing.settle
  {
    PendingIsTheStreak(timing, looks, i);
    var p := After(timing, looks, i).pending;
    if p.Some? && looks[i].Both? && Candidate(looks[i], p.value.hash) {
      var m :| Streak(looks, m, i - 1, p.value.hash) && looks[m].now == p.value.since;
      assert Streak(looks, m, i, p.value.hash);
    }
    if Settled(timing, looks, i) {
      var m, hash :| Streak(looks, m, i, hash) && m < i && looks[i].now - looks[m].now >= timing.settle;
      assert Candidate(looks[i], hash) && Candidate(looks[i - 1], hash);
      var k :| Streak(looks, k, i - 1, p.value.hash) && looks[k].now == p.value.since;
      assert Candidate(looks[i - 1], p.value.hash);
      SameStart(looks, m, k, i - 1, hash);
    }
  }

  lemma SameStart(looks: seq<Look>, m: int, k: int, i: int, hash: string)
    requires 0 <= m <= i < |looks| && (forall j :: m <= j <= i ==> Candidate(looks[j], hash))
    requires m > 0 ==> !Candidate(looks[m - 1], hash)
    requires Streak(looks, k, i, hash)
    ensures k == m
  {
  }

  lemma {:induction false} RestartedIffSettled(timing: Timing, looks: seq<Look>, n: nat)
    requires n <= |looks|
    ensures After(timing, looks, n).restarted <==> exists j :: 0 <= j < n && Settled(timing, looks, j)
  {
    if n > 0 {
      RestartedIffSettled(timing, looks, n - 1);
      SettledWhen(timing, looks, n - 1);
    }
  }

  // Over any sequence of looks, and any clock: the app restarts exactly at the first look that
  // ends a settled streak, hence at most once, never onto an unparseable or half-seen file,
  // and never misses a renewal that stays put.
  lemma RestartsExactlyAtFirstSettled(timing: Timing, looks: seq<Look>, i: nat)
    requires i < |looks|
    ensures Restarts(timing, looks, i) <==>
              Settled(timing, looks, i) && forall j :: 0 <= j < i ==> !Settled(timing, looks, j)
  {
    RestartedIffSettled(timing, looks, i);
    SettledWhen(timing, looks, i);
  }

  lemma RestartsAtMostOnce(timing: Timing, looks: seq<Look>, i: nat, j: nat)
    requires i < j < |looks| && Restarts(timing, looks, i)
    ensures !Restarts(timing, looks, j)
  {
    RestartsExactlyAtFirstSettled(timing, looks, i);
    RestartsExactlyAtFirstSettled(timing, looks, j);
  }

  // The next look is put off to the end of the settle period a candidate still has to serve,
  // by a whole settle period when the file does not parse, and by the ordinary interval
  // otherwise, also after the restart is called for.
  lemma NextLookIsDue(timing: Timing, looks: seq<Look>, i: nat)
    requires i < |looks|
    ensures var delay := Step(timing, After(timing, looks, i), looks[i]).delay;
            var after := After(timing, looks, i + 1).pending;
            && (!looks[i].Both? ==> delay == timing.interval)
            && (looks[i].Both? && looks[i].source.hash == looks[i].served.hash ==> delay == timing.interval)
            && (looks[i].Both? && looks[i].source.hash != looks[i].served.hash && !looks[i].source.parses ==> delay == timing.settle)
            && (looks[i].Both? && looks[i].source.hash != looks[i].served.hash && looks[i].source.parses ==>
                  && after.Some?
                  && (exists m :: Streak(looks, m, i, looks[i].source.hash) && looks[m].now == after.value.since)
                  && delay == if Settled(timing, looks, i) then timing.interval
                              else after.value.since + timing.settle - looks[i].now)
  {
    PendingIsTheStreak(timing, looks, i + 1);
    SettledWhen(timing, looks, i);
  }
}

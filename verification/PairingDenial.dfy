/** A denied request stays denied, as long as the clock never goes back past the expiry of its code. */
module PairingDenial {
  import opened Base
  import opened Devices
  import opened Pairing
  import opened PairingProtocol
  import opened PairingInvariant
  import opened PairingReservation
  import opened PairingTheorems

  /** The clock once `event` happened. Steps 2 and 3 of finalization go by the time their call began. */
  function Clock(clock: U64, event: Event): U64 {
    match TimeOf(event)
    case None => clock
    case Some(now) => now
  }

  function TimeOf(event: Event): Option<U64> {
    match event
    case Issue(_, _, now, _, _) => Some(now)
    case Ask(_, _, _, _, now, _, _, _) => Some(now)
    case Approve(_, now, _) => Some(now)
    case Deny(_, now, _) => Some(now)
    case _ => None
  }

  /** No step of `run` goes by a time before `expiry` once one has gone by a later one; `past` says whether one had. */
  ghost predicate NeverBack(expiry: U64, past: bool, run: seq<Event>)
    decreases |run|
  {
    run == [] || (GoesOn(expiry, past, run[0]) && NeverBack(expiry, PastAfter(expiry, past, run[0]), run[1..]))
  }

  predicate GoesOn(expiry: U64, past: bool, event: Event) {
    past && TimeOf(event).Some? ==> TimeOf(event).value >= expiry
  }

  predicate PastAfter(expiry: U64, past: bool, event: Event) {
    past || (TimeOf(event).Some? && TimeOf(event).value >= expiry)
  }

  /** Whether a step of `run`, or one before, went by a time from `expiry` on. */
  predicate PastAtEnd(expiry: U64, past: bool, run: seq<Event>)
    decreases |run|
  {
    if run == [] then past else PastAtEnd(expiry, PastAfter(expiry, past, run[0]), run[1..])
  }

  /** The certificate `fingerprint` can get nothing from the challenge any more. */
  ghost predicate Shut(s: State, challenge: string, fingerprint: string, clock: U64) {
    || (exists c :: c in s.candidates && HasKey(challenge, fingerprint)(c) && c.status == Denied)
    || ((forall c | c in s.candidates :: !HasKey(challenge, fingerprint)(c))
        && forall ch | ch in s.challenges && ch.id == challenge :: ch.expires <= clock)
  }

  ghost predicate ShutOut(sys: System, challenge: string, code: string, fingerprint: string, clock: U64) {
    && Shut(sys.state, challenge, fingerprint, clock)
    && code in sys.history.codes && challenge in sys.history.challengeIds
    && (forall ch | ch in sys.state.challenges :: ch.hash == Sha256(code) <==> ch.id == challenge)
    && (sys.flight.Idle? || sys.flight.now <= clock)
  }

  lemma PruneKeepsShut(s: State, challenge: string, fingerprint: string, now: U64, clock: U64)
    requires StateOk(s) && Shut(s, challenge, fingerprint, clock) && now <= clock
    ensures Shut(Pruned(s, now), challenge, fingerprint, clock)
  {
    var t := Pruned(s, now);
    if c :| c in s.candidates && HasKey(challenge, fingerprint)(c) && c.status == Denied {
      if c !in t.candidates {
        CandidateIsFound(s, c);
        forall d | d in t.candidates
          ensures !HasKey(challenge, fingerprint)(d)
        {
          if HasKey(challenge, fingerprint)(d) {
            CandidateIsFound(s, d);
          }
        }
        forall ch | ch in t.challenges && ch.id == challenge
          ensures ch.expires <= clock
        {
          assert HasChallengeId(c.challenge)(ch);
          assert Fits(ch, c);
        }
      }
    }
  }

  lemma UpdateKeepsShut(s: State, index: nat, after: Candidate, challenge: string, fingerprint: string, clock: U64)
    requires Shut(s, challenge, fingerprint, clock) && index < |s.candidates|
    requires s.candidates[index].status != Denied
    requires after.challenge == s.candidates[index].challenge && after.fingerprint == s.candidates[index].fingerprint
    ensures Shut(s.(candidates := s.candidates[index := after]), challenge, fingerprint, clock)
  {
    var t := s.candidates[index := after];
    if c :| c in s.candidates && HasKey(challenge, fingerprint)(c) && c.status == Denied {
      var k :| 0 <= k < |s.candidates| && s.candidates[k] == c;
      assert t[k] == c;
    } else {
      forall c | c in t
        ensures !HasKey(challenge, fingerprint)(c)
      {
        var k :| 0 <= k < |t| && t[k] == c;
        assert s.candidates[k] in s.candidates;
      }
    }
  }

  lemma DecidingKeepsShut(s: State, t: State, f: Candidate -> Candidate, challenge: string, fingerprint: string, clock: U64)
    requires Shut(s, challenge, fingerprint, clock) && t.candidates == MapSeq(s.candidates, f)
    requires forall c | c in s.candidates ::
      && f(c).challenge == c.challenge && f(c).fingerprint == c.fingerprint
      && (c.status == Denied ==> f(c).status == Denied)
    requires |t.challenges| == |s.challenges|
    requires forall j | 0 <= j < |s.challenges| ::
      t.challenges[j].id == s.challenges[j].id && t.challenges[j].expires == s.challenges[j].expires
    ensures Shut(t, challenge, fingerprint, clock)
  {
    if c :| c in s.candidates && HasKey(challenge, fingerprint)(c) && c.status == Denied {
      var k :| 0 <= k < |s.candidates| && s.candidates[k] == c;
      assert t.candidates[k] in t.candidates;
    } else {
      forall c | c in t.candidates
        ensures !HasKey(challenge, fingerprint)(c)
      {
        var k :| 0 <= k < |t.candidates| && t.candidates[k] == c;
        assert s.candidates[k] in s.candidates;
      }
      forall ch | ch in t.challenges && ch.id == challenge
        ensures ch.expires <= clock
      {
        var j :| 0 <= j < |t.challenges| && t.challenges[j] == ch;
        assert s.challenges[j] in s.challenges;
      }
    }
  }

  lemma LaterStaysShut(s: State, challenge: string, fingerprint: string, clock: U64, later: U64)
    requires Shut(s, challenge, fingerprint, clock) && clock <= later
    ensures Shut(s, challenge, fingerprint, later)
  {
  }

  lemma IssueKeepsShut(s: State, id: string, code: string, now: U64, ttl: U64, challenge: string, fingerprint: string,
                       clock: U64)
    requires StateOk(s) && Shut(s, challenge, fingerprint, clock) && clock <= now && id != challenge
    requires forall ch | ch in s.challenges :: ch.id != id && ch.hash != Sha256(code)
    ensures Shut(Created(s, id, code, now, ttl), challenge, fingerprint, now)
  {
    var t := s.(challenges := s.challenges + [NewChallenge(id, code, now, ttl)]);
    assert forall ch | ch in t.challenges :: ch in s.challenges || ch == NewChallenge(id, code, now, ttl);
    LaterStaysShut(s, challenge, fingerprint, clock, now);
    assert StateOk(t) by {
      assert forall ch | ch in s.challenges :: ch in t.challenges;
    }
    PruneKeepsShut(t, challenge, fingerprint, now, now);
  }

  lemma OtherKeepsShut(s: State, c: Candidate, challenge: string, fingerprint: string, clock: U64)
    requires Shut(s, challenge, fingerprint, clock) && !HasKey(challenge, fingerprint)(c)
    ensures Shut(s.(candidates := s.candidates + [c]), challenge, fingerprint, clock)
  {
    var t := s.candidates + [c];
    if d :| d in s.candidates && HasKey(challenge, fingerprint)(d) && d.status == Denied {
      assert d in t;
    }
  }

  /** A shut-out certificate is not recorded again. */
  lemma NewIsAnother(s: State, at: nat, f: string, challenge: string, fingerprint: string, clock: U64)
    requires Shut(s, challenge, fingerprint, clock) && at < |s.challenges| && clock < s.challenges[at].expires
    requires forall c | c in s.candidates :: !HasKey(s.challenges[at].id, f)(c)
    ensures s.challenges[at].id != challenge || f != fingerprint
  {
    assert s.challenges[at] in s.challenges;
  }

  lemma EnlistKeepsShut(s: State, at: nat, f: string, name: string, now: U64, request: string,
                        challenge: string, fingerprint: string)
    requires StateOk(s) && Shut(s, challenge, fingerprint, now) && at < |s.challenges|
    requires forall c | c in s.candidates :: !HasKey(s.challenges[at].id, f)(c) && c.request != request
    requires s.challenges[at].consumedAt.None? && s.challenges[at].approved.None? && now < s.challenges[at].expires
    ensures var c := NewCandidate(s.challenges[at], request, f, name, now);
            Shut(Pruned(s.(candidates := s.candidates + [c]), now), challenge, fingerprint, now)
  {
    var c := NewCandidate(s.challenges[at], request, f, name, now);
    NewIsAnother(s, at, f, challenge, fingerprint, now);
    OtherKeepsShut(s, c, challenge, fingerprint, now);
    EnlistKeepsState(s, at, c);
    PruneKeepsShut(s.(candidates := s.candidates + [c]), challenge, fingerprint, now, now);
  }

  // ----- Every step -----------------------------------------------------------

  lemma PresentKeepsShut(s: State, code: string, f: string, name: string, now: U64, request: string,
                         challenge: string, fingerprint: string)
    requires StateOk(s) && Shut(s, challenge, fingerprint, now)
    requires forall c | c in s.candidates :: c.request != request
    requires Present(s, code, f, name, now, request).Enlist?
    ensures var after := Present(s, code, f, name, now, request).after;
            Shut(after, challenge, fingerprint, now) && forall ch | ch in after.challenges :: ch in s.challenges
  {
    EnlistFacts(s, code, f, name, now, request);
    var at := First(s.challenges, HasHash(Sha256(code))).value;
    EnlistKeepsShut(s, at, f, name, now, request, challenge, fingerprint);
  }

  lemma AskKeepsShut(sys: System, event: Event, challenge: string, code: string, fingerprint: string, clock: U64)
    requires StateOk(sys.state) && (forall c | c in sys.state.candidates :: c.request in sys.history.requests)
    requires event.Ask? && Allowed(sys, event) && clock <= event.now
    requires ShutOut(sys, challenge, code, fingerprint, clock)
    ensures ShutOut(Next(sys, event), challenge, code, fingerprint, event.now)
  {
    var s := sys.state;
    LaterStaysShut(s, challenge, fingerprint, clock, event.now);
    AskKeepsStateShut(sys, event, challenge, code, fingerprint);
  }

  lemma AskKeepsStateShut(sys: System, event: Event, challenge: string, code: string, fingerprint: string)
    requires StateOk(sys.state) && (forall c | c in sys.state.candidates :: c.request in sys.history.requests)
    requires event.Ask? && Allowed(sys, event) && Shut(sys.state, challenge, fingerprint, event.now)
    requires forall ch | ch in sys.state.challenges :: ch.hash == Sha256(code) <==> ch.id == challenge
    ensures var t := Next(sys, event).state;
            && Shut(t, challenge, fingerprint, event.now)
            && forall ch | ch in t.challenges :: ch.hash == Sha256(code) <==> ch.id == challenge
  {
    var s := sys.state;
    var p := Present(s, event.code, event.fingerprint, event.name, event.now, event.request);
    if p.Enlist? {
      PresentKeepsShut(s, event.code, event.fingerprint, event.name, event.now, event.request, challenge, fingerprint);
    } else if p.Finish? {
      FinishFacts(s, event.code, event.fingerprint, event.name, event.now, event.request);
      UpdateKeepsShut(s, p.index, s.candidates[p.index].(device := Some(event.id)), challenge, fingerprint, event.now);
    }
    AskWrites(sys, event);
  }

  lemma SpendKeepsShut(sys: System, event: Event, challenge: string, code: string, fingerprint: string, clock: U64)
    requires StateOk(sys.state) && FlightOk(sys) && event.Spend? && Allowed(sys, event)
    requires ShutOut(sys, challenge, code, fingerprint, clock)
    ensures ShutOut(Next(sys, event), challenge, code, fingerprint, clock)
  {
    var f := sys.flight;
    SpendNext(sys, event);
    SettledKeepsShut(sys.state, f.at, f.index, f.now, challenge, code, fingerprint, clock);
  }

  lemma SettledKeepsShut(s: State, at: nat, index: nat, now: U64, challenge: string, code: string,
                         fingerprint: string, clock: U64)
    requires StateOk(s) && InFlight(s, at, index) && Shut(s, challenge, fingerprint, clock) && now <= clock
    requires forall ch | ch in s.challenges :: ch.hash == Sha256(code) <==> ch.id == challenge
    ensures var t := Pruned(Settled(s, at, index, now), now);
            && Shut(t, challenge, fingerprint, clock)
            && forall ch | ch in t.challenges :: ch.hash == Sha256(code) <==> ch.id == challenge
  {
    var t := Settled(s, at, index, now);
    SettledKeepsState(s, at, index, now);
    SettledShuts(s, at, index, now, challenge, fingerprint, clock);
    PruneKeepsShut(t, challenge, fingerprint, now, clock);
    SameChallengesMatch(s, t, challenge, code);
    PrunedWere(t, now);
  }

  lemma PrunedWere(s: State, now: U64)
    ensures forall ch | ch in Pruned(s, now).challenges :: ch in s.challenges
  {
  }

  lemma SettledShuts(s: State, at: nat, index: nat, now: U64, challenge: string, fingerprint: string, clock: U64)
    requires StateOk(s) && InFlight(s, at, index) && Shut(s, challenge, fingerprint, clock)
    ensures Shut(Settled(s, at, index, now), challenge, fingerprint, clock)
  {
    var entry := s.candidates[index].(status := Finalized, decidedAt := Some(now));
    var u := s.(candidates := s.candidates[index := entry]);
    UpdateKeepsShut(s, index, entry, challenge, fingerprint, clock);
    DecidingKeepsShut(u, Settled(s, at, index, now), SupersedeOpen(s.challenges[at].id, now), challenge, fingerprint, clock);
  }

  lemma SameChallengesMatch(s: State, t: State, challenge: string, code: string)
    requires SameOnes(s, t)
    requires forall ch | ch in s.challenges :: ch.hash == Sha256(code) <==> ch.id == challenge
    ensures forall ch | ch in t.challenges :: ch.hash == Sha256(code) <==> ch.id == challenge
  {
    forall ch | ch in t.challenges
      ensures ch.hash == Sha256(code) <==> ch.id == challenge
    {
      var j :| 0 <= j < |t.challenges| && t.challenges[j] == ch;
      assert s.challenges[j] in s.challenges;
    }
  }

  lemma ChosenKeepsShut(s: State, at: nat, index: nat, now: U64, challenge: string, code: string, fingerprint: string)
    requires StateOk(s) && Shut(s, challenge, fingerprint, now) && at < |s.challenges| && index < |s.candidates|
    requires s.challenges[at].id == s.candidates[index].challenge && s.candidates[index].status == Pending
    requires forall ch | ch in s.challenges :: ch.hash == Sha256(code) <==> ch.id == challenge
    ensures var t := Pruned(Chosen(s, at, index, now), now);
            && Shut(t, challenge, fingerprint, now)
            && forall ch | ch in t.challenges :: ch.hash == Sha256(code) <==> ch.id == challenge
  {
    var c, t := s.candidates[index], Chosen(s, at, index, now);
    ApproveKeepsState(s, at, index, now);
    forall x | x in s.candidates && x.status == Denied
      ensures x.request != c.request
    {
      CandidateIsFound(s, x);
      CandidateIsFound(s, c);
    }
    DecidingKeepsShut(s, t, DecideApproved(c.challenge, c.request, now), challenge, fingerprint, now);
    PruneKeepsShut(t, challenge, fingerprint, now, now);
    SameChallengesMatch(s, t, challenge, code);
  }

  lemma ApprovedKeepsShut(s: State, request: string, now: U64, challenge: string, code: string, fingerprint: string)
    requires StateOk(s) && Shut(s, challenge, fingerprint, now) && ApprovedOne(s, request, now).Ok?
    requires forall ch | ch in s.challenges :: ch.hash == Sha256(code) <==> ch.id == challenge
    ensures var t := Pruned(ApprovedOne(s, request, now).value.0, now);
            && Shut(t, challenge, fingerprint, now)
            && forall ch | ch in t.challenges :: ch.hash == Sha256(code) <==> ch.id == challenge
  {
    var index := First(s.candidates, HasRequest(request)).value;
    var at := First(s.challenges, HasChallengeId(s.candidates[index].challenge)).value;
    ApprovedIsChosen(s, request, now);
    ChosenKeepsShut(s, at, index, now, challenge, code, fingerprint);
  }

  lemma ApproveKeepsShut(sys: System, event: Event, challenge: string, code: string, fingerprint: string, clock: U64)
    requires StateOk(sys.state) && event.Approve? && Allowed(sys, event) && clock <= event.now
    requires ShutOut(sys, challenge, code, fingerprint, clock)
    ensures ShutOut(Next(sys, event), challenge, code, fingerprint, event.now)
  {
    LaterStaysShut(sys.state, challenge, fingerprint, clock, event.now);
    if ApprovedOne(sys.state, event.request, event.now).Ok? {
      ApprovedKeepsShut(sys.state, event.request, event.now, challenge, code, fingerprint);
    }
  }

  lemma DeniedKeepsShut(s: State, index: nat, now: U64, challenge: string, fingerprint: string)
    requires StateOk(s) && Shut(s, challenge, fingerprint, now) && index < |s.candidates|
    requires s.candidates[index].status == Pending || (s.candidates[index].status == Approved && s.candidates[index].device.None?)
    ensures var denied := s.candidates[index].(status := Denied, decidedAt := Some(now));
            Shut(Pruned(s.(candidates := s.candidates[index := denied]), now), challenge, fingerprint, now)
  {
    var denied := s.candidates[index].(status := Denied, decidedAt := Some(now));
    DenyKeepsState(s, index, denied);
    UpdateKeepsShut(s, index, denied, challenge, fingerprint, now);
    PruneKeepsShut(s.(candidates := s.candidates[index := denied]), challenge, fingerprint, now, now);
  }

  lemma DenyKeepsShut(sys: System, event: Event, challenge: string, code: string, fingerprint: string, clock: U64)
    requires StateOk(sys.state) && event.Deny? && Allowed(sys, event) && clock <= event.now
    requires ShutOut(sys, challenge, code, fingerprint, clock)
    ensures ShutOut(Next(sys, event), challenge, code, fingerprint, event.now)
  {
    LaterStaysShut(sys.state, challenge, fingerprint, clock, event.now);
    if DeniedOne(sys.state, event.request, event.now).Ok? {
      DenyNext(sys, event);
      DenialKeepsShut(sys.state, event.request, event.now, challenge, code, fingerprint);
    }
  }

  lemma DenialKeepsShut(s: State, request: string, now: U64, challenge: string, code: string, fingerprint: string)
    requires StateOk(s) && Shut(s, challenge, fingerprint, now) && DeniedOne(s, request, now).Ok?
    requires forall ch | ch in s.challenges :: ch.hash == Sha256(code) <==> ch.id == challenge
    ensures var t := Pruned(DeniedOne(s, request, now).value.0, now);
            && Shut(t, challenge, fingerprint, now)
            && forall ch | ch in t.challenges :: ch.hash == Sha256(code) <==> ch.id == challenge
  {
    DeniedFacts(s, request, now);
    DeniedKeepsShut(s, First(s.candidates, HasRequest(request)).value, now, challenge, fingerprint);
  }

  lemma StepKeepsShut(sys: System, event: Event, challenge: string, code: string, fingerprint: string, clock: U64)
    requires Inv(sys) && Allowed(sys, event) && clock <= Clock(clock, event)
    requires ShutOut(sys, challenge, code, fingerprint, clock)
    ensures ShutOut(Next(sys, event), challenge, code, fingerprint, Clock(clock, event))
  {
    if event.Issue? {
      IssueStepKeepsShut(sys, event, challenge, code, fingerprint, clock);
    } else if event.Ask? {
      AskKeepsShut(sys, event, challenge, code, fingerprint, clock);
    } else if event.Spend? {
      SpendKeepsShut(sys, event, challenge, code, fingerprint, clock);
    } else if event.Approve? {
      ApproveKeepsShut(sys, event, challenge, code, fingerprint, clock);
    } else if event.Deny? {
      DenyKeepsShut(sys, event, challenge, code, fingerprint, clock);
    } else {
      OtherStepsKeepShut(sys, event, challenge, code, fingerprint, clock);
    }
  }

  lemma OtherStepsKeepShut(sys: System, event: Event, challenge: string, code: string, fingerprint: string, clock: U64)
    requires Allowed(sys, event) && ShutOut(sys, challenge, code, fingerprint, clock)
    requires !event.Issue? && !event.Ask? && !event.Spend? && !event.Approve? && !event.Deny?
    ensures ShutOut(Next(sys, event), challenge, code, fingerprint, clock)
  {
    OtherStepsStay(sys, event);
  }

  lemma IssueStepKeepsShut(sys: System, event: Event, challenge: string, code: string, fingerprint: string, clock: U64)
    requires Inv(sys) && event.Issue? && Allowed(sys, event) && clock <= event.now
    requires ShutOut(sys, challenge, code, fingerprint, clock)
    ensures ShutOut(Next(sys, event), challenge, code, fingerprint, event.now)
  {
    LaterStaysShut(sys.state, challenge, fingerprint, clock, event.now);
    IssueKeepsShut(sys.state, event.id, event.code, event.now, event.ttl, challenge, fingerprint, clock);
  }

  /** Shut out, however the clock moves, as long as it does not come back to before `expiry`. */
  ghost predicate ShutUntil(sys: System, challenge: string, code: string, fingerprint: string, expiry: U64, past: bool) {
    && ShutOut(sys.(flight := Idle), challenge, code, fingerprint, if past then expiry else 0)
    && (forall ch | ch in sys.state.challenges && ch.id == challenge :: ch.expires == expiry)
    && (!sys.flight.Idle? && sys.flight.now >= expiry ==> past)
  }

  /** A clock to go by for one step. */
  function ClockFor(sys: System, expiry: U64, past: bool): U64 {
    var least: U64 := if past then expiry else 0;
    if sys.flight.Idle? || sys.flight.now <= least then least else sys.flight.now
  }

  lemma StepKeepsUntil(sys: System, event: Event, challenge: string, code: string, fingerprint: string, expiry: U64,
                       past: bool)
    requires Inv(sys) && Allowed(sys, event) && GoesOn(expiry, past, event)
    requires ShutUntil(sys, challenge, code, fingerprint, expiry, past)
    ensures ShutUntil(Next(sys, event), challenge, code, fingerprint, expiry, PastAfter(expiry, past, event))
  {
    var clock := ClockFor(sys, expiry, past);
    var later := Clock(clock, event);
    LaterStaysShut(sys.state, challenge, fingerprint, if past then expiry else 0, clock);
    StepKeepsShut(sys, event, challenge, code, fingerprint, clock);
    ExpiryStays(sys, event, challenge, expiry);
    FlightTime(sys, event);
    ShutFrom(Next(sys, event).state, challenge, fingerprint, expiry, PastAfter(expiry, past, event), later);
  }

  /** Once no challenge with another expiry is meant, only whether the expiry has passed matters. */
  lemma ShutFrom(s: State, challenge: string, fingerprint: string, expiry: U64, past: bool, clock: U64)
    requires Shut(s, challenge, fingerprint, clock) && (clock >= expiry ==> past || clock == 0)
    requires forall ch | ch in s.challenges && ch.id == challenge :: ch.expires == expiry
    ensures Shut(s, challenge, fingerprint, if past then expiry else 0)
  {
  }

  lemma ExpiryStays(sys: System, event: Event, challenge: string, expiry: U64)
    requires Inv(sys) && Allowed(sys, event) && challenge in sys.history.challengeIds
    requires forall ch | ch in sys.state.challenges && ch.id == challenge :: ch.expires == expiry
    ensures forall ch | ch in Next(sys, event).state.challenges && ch.id == challenge :: ch.expires == expiry
  {
    forall ch | ch in Next(sys, event).state.challenges && ch.id == challenge
      ensures ch.expires == expiry
    {
      ChallengeWas(sys, event, ch);
    }
  }

  /** A call goes by the time of the step that began it. */
  lemma FlightTime(sys: System, event: Event)
    requires Allowed(sys, event)
    ensures var t := Next(sys, event).flight;
      t.Idle? || (event.Ask? && t.now == event.now) || (!sys.flight.Idle? && t.now == sys.flight.now)
  {
  }

  lemma {:induction false} RunKeepsUntil(sys: System, run: seq<Event>, challenge: string, code: string,
                                         fingerprint: string, expiry: U64, past: bool)
    requires Inv(sys) && Possible(sys, run) && NeverBack(expiry, past, run)
    requires ShutUntil(sys, challenge, code, fingerprint, expiry, past)
    ensures Inv(After(sys, run))
    ensures ShutUntil(After(sys, run), challenge, code, fingerprint, expiry, PastAtEnd(expiry, past, run))
    decreases |run|
  {
    if run != [] {
      StepKeepsUntil(sys, run[0], challenge, code, fingerprint, expiry, past);
      StepKeeps(sys, run[0]);
      RunKeepsUntil(Next(sys, run[0]), run[1..], challenge, code, fingerprint, expiry, PastAfter(expiry, past, run[0]));
    }
  }

  /** A denial is final: whatever happens later, as long as the clock never goes back past the code's
      expiry, the denied certificate is refused every time it presents that code. */
  lemma {:induction false} DenialIsFinal(before: seq<Event>, later: seq<Event>, c: Candidate, ch: Challenge,
                                         code: string, past: bool, name: string, now: U64, request: string)
    requires Possible(START, before) && Possible(After(START, before), later)
    requires var sys := After(START, before);
             && c in sys.state.candidates && c.status == Denied
             && ch in sys.state.challenges && ch.id == c.challenge && ch.hash == Sha256(code)
             && (!sys.flight.Idle? && sys.flight.now >= ch.expires ==> past)
    requires NeverBack(ch.expires, past, later) && (PastAtEnd(ch.expires, past, later) ==> now >= ch.expires)
    ensures var s := After(After(START, before), later).state;
            Present(s, code, c.fingerprint, name, now, request).Refuse?
  {
    StartHolds();
    RunKeeps(START, before);
    var sys := After(START, before);
    DenialShuts(sys, c, ch, code, past);
    RunKeepsUntil(sys, later, c.challenge, code, c.fingerprint, ch.expires, past);
    var end: U64 := if PastAtEnd(ch.expires, past, later) then ch.expires else 0;
    ShutIsRefused(After(sys, later).state, c.challenge, code, c.fingerprint, end, name, now, request);
  }

  lemma DenialShuts(sys: System, c: Candidate, ch: Challenge, code: string, past: bool)
    requires Inv(sys) && c in sys.state.candidates && c.status == Denied
    requires ch in sys.state.challenges && ch.id == c.challenge && ch.hash == Sha256(code)
    requires !sys.flight.Idle? && sys.flight.now >= ch.expires ==> past
    ensures ShutUntil(sys, c.challenge, code, c.fingerprint, ch.expires, past)
  {
    forall x | x in sys.state.challenges
      ensures x.hash == Sha256(code) <==> x.id == c.challenge
      ensures x.id == c.challenge ==> x.expires == ch.expires
    {
      var i :| 0 <= i < |sys.state.challenges| && sys.state.challenges[i] == x;
      var j :| 0 <= j < |sys.state.challenges| && sys.state.challenges[j] == ch;
      ChallengesApart(sys.state.challenges, i, j);
    }
    assert HasKey(c.challenge, c.fingerprint)(c);
  }

  lemma ShutIsRefused(s: State, challenge: string, code: string, fingerprint: string, clock: U64,
                      name: string, now: U64, request: string)
    requires StateOk(s) && Shut(s, challenge, fingerprint, clock) && clock <= now
    requires forall ch | ch in s.challenges :: ch.hash == Sha256(code) <==> ch.id == challenge
    ensures Present(s, code, fingerprint, name, now, request).Refuse?
  {
    var at := First(s.challenges, HasHash(Sha256(code)));
    if at.Some? {
      assert s.challenges[at.value] in s.challenges && s.challenges[at.value].id == challenge;
      if c :| c in s.candidates && HasKey(challenge, fingerprint)(c) && c.status == Denied {
        CandidateIsFound(s, c);
      }
    }
  }

  /** When a denied certificate that asks again is still refused, if the file was pruned at `late` and it asks
      at `early`: exactly when the prune came before the code expired or a day after, or the request does, or
      the code is decided. Only the limit on waiting requests may refuse it otherwise. */
  lemma RefusedExactly(s: State, c: Candidate, ch: Challenge, code: string, late: U64, early: U64, name: string,
                       request: string)
    requires StateOk(s) && c in s.candidates && c.status == Denied
    requires ch in s.challenges && ch.id == c.challenge && ch.hash == Sha256(code)
    ensures var p := Present(Pruned(s, late), code, c.fingerprint, name, early, request);
      && (p.Enlist? || p.Refuse?)
      && (p.Enlist? || p == Refuse(Busy) <==>
            && ch.expires <= late < SaturatingAdd(ch.expires, HISTORY_SECONDS)
            && early < ch.expires && ch.approved.None? && ch.consumedAt.None?)
  {
    var t := Pruned(s, late);
    if late < ch.expires {
      DenialIsKept(s, c, ch, late);
      ChallengeIsFound(t, ch, code);
      CandidateIsFound(t, c);
    } else if late >= SaturatingAdd(ch.expires, HISTORY_SECONDS) {
      NoChallengeLeft(s, ch, code, late);
    } else {
      ForgottenDenial(s, c, ch, late);
      var k :| 0 <= k < |t.challenges| && t.challenges[k] == ch;
      var at := First(t.challenges, HasHash(Sha256(code))).value;
      ChallengesApart(t.challenges, at, k);
      NewOrRefused(t, at, code, c.fingerprint, name, early, request);
    }
  }

  lemma DenialIsKept(s: State, c: Candidate, ch: Challenge, late: U64)
    requires StateOk(s) && c in s.candidates && ch in s.challenges && ch.id == c.challenge && late < ch.expires
    ensures StateOk(Pruned(s, late)) && c in Pruned(s, late).candidates && ch in Pruned(s, late).challenges
  {
    var t := Pruned(s, late);
    PruneKeepsState(s, late);
    assert Fits(ch, c);
    assert ChallengeKept(late)(ch) && HasChallengeId(c.challenge)(ch);
    assert CandidateKept(t.challenges, late)(c);
  }

  lemma NoChallengeLeft(s: State, ch: Challenge, code: string, late: U64)
    requires StateOk(s) && ch in s.challenges && ch.hash == Sha256(code) && late >= SaturatingAdd(ch.expires, HISTORY_SECONDS)
    ensures First(Pruned(s, late).challenges, HasHash(Sha256(code))).None?
  {
    forall x | x in Pruned(s, late).challenges
      ensures !HasHash(Sha256(code))(x)
    {
      SameHash(s, x, ch);
      assert ChallengeKept(late)(x);
    }
  }

  lemma SameHash(s: State, x: Challenge, y: Challenge)
    requires StateOk(s) && x in s.challenges && y in s.challenges
    ensures x.hash == y.hash ==> x == y
  {
    var i: nat :| i < |s.challenges| && s.challenges[i] == x;
    var j: nat :| j < |s.challenges| && s.challenges[j] == y;
    ChallengesApart(s.challenges, i, j);
  }

  /** Pruning after the code's expiry takes out a denied request, and leaves the challenge. */
  lemma ForgottenDenial(s: State, c: Candidate, ch: Challenge, late: U64)
    requires StateOk(s) && c in s.candidates && c.status == Denied && ch in s.challenges && ch.id == c.challenge
    requires ch.expires <= late < SaturatingAdd(ch.expires, HISTORY_SECONDS)
    ensures var t := Pruned(s, late);
            && ch in t.challenges && Pairwise(t.challenges, DistinctChallenges)
            && forall d | d in t.candidates :: !HasKey(ch.id, c.fingerprint)(d)
  {
    var t := Pruned(s, late);
    assert Fits(ch, c);
    FilterPairwise(s.challenges, ChallengeKept(late), DistinctChallenges);
    CandidateIsFound(s, c);
    forall d | d in t.candidates
      ensures !HasKey(ch.id, c.fingerprint)(d)
    {
      if d in s.candidates && HasKey(ch.id, c.fingerprint)(d) {
        CandidateIsFound(s, d);
      }
    }
  }

  /** A certificate not recorded for a challenge is recorded exactly while it is open, unless too many wait. */
  lemma NewOrRefused(t: State, at: nat, code: string, fingerprint: string, name: string, now: U64, request: string)
    requires at < |t.challenges| && First(t.challenges, HasHash(Sha256(code))) == Some(at)
    requires forall d | d in t.candidates :: !HasKey(t.challenges[at].id, fingerprint)(d)
    ensures var ch := t.challenges[at];
      var p := Present(t, code, fingerprint, name, now, request);
      && (p.Enlist? || p.Refuse?)
      && (p.Enlist? || p == Refuse(Busy) <==> ch.approved.None? && ch.consumedAt.None? && now < ch.expires)
  {
    assert First(t.candidates, HasKey(t.challenges[at].id, fingerprint)).None?;
  }

  // ----- A denial that is forgotten --------------------------------------------

  lemma FilterOne<T>(x: T, p: T -> bool)
    ensures Filter([x], p) == if p(x) then [x] else []
  {
    assert [x][..0] == [];
  }

  lemma FilterBoth<T>(x: T, y: T, p: T -> bool)
    requires p(x) && p(y)
    ensures Filter([x, y], p) == [x, y]
  {
    assert [x, y][..1] == [x];
    FilterOne(x, p);
  }

  /** One challenge and at most one request of it, pruned before its code expires. */
  lemma PrunedEarly(ch: Challenge, candidates: seq<Candidate>, now: U64)
    requires now < ch.expires && |candidates| <= 1
    requires forall c | c in candidates :: c.challenge == ch.id && c.expires == ch.expires
    ensures Pruned(State([ch], candidates), now) == State([ch], candidates)
  {
    FilterOne(ch, ChallengeKept(now));
    assert HasChallengeId(ch.id)(ch);
    if candidates != [] {
      assert candidates == [candidates[0]] && candidates[0] in candidates;
      FilterOne(candidates[0], CandidateKept([ch], now));
    }
  }

  lemma FirstOne<T>(x: T, p: T -> bool)
    ensures First([x], p) == if p(x) then Some(0) else None
  {
    assert [x][1..] == [];
  }

  /** The only challenge is open, and nobody has asked with it. */
  lemma FirstAsks(ch: Challenge, code: string, fingerprint: string, name: string, now: U64, request: string)
    requires ch.hash == Sha256(code) && ch.approved.None? && ch.consumedAt.None? && now < ch.expires
    ensures var p := Present(State([ch], []), code, fingerprint, name, now, request);
      p.Enlist? && p.after == State([ch], [NewCandidate(ch, request, fingerprint, name, now)])
  {
    var c := NewCandidate(ch, request, fingerprint, name, now);
    FirstOne(ch, HasHash(Sha256(code)));
    NobodyWaits(State([ch], []), ch, fingerprint, name, now, request);
    assert Present(State([ch], []), code, fingerprint, name, now, request).Enlist?;
    EnlistFacts(State([ch], []), code, fingerprint, name, now, request);
    OnlyRequest(ch, c, now);
  }

  lemma NobodyWaits(s: State, ch: Challenge, fingerprint: string, name: string, now: U64, request: string)
    requires s.candidates == [] && ch.approved.None? && ch.consumedAt.None? && now < ch.expires
    ensures Enlisted(s, ch, fingerprint, name, now, request).Ok?
  {
    CountNone(s.candidates, IsWaitingFor(ch.id, now));
    CountNone(s.candidates, RecordedFor(ch.id));
    CountNone(s.candidates, IsWaiting(now));
  }

  lemma {:induction false} CountNone<T>(s: seq<T>, p: T -> bool)
    requires s == []
    ensures Count(s, p) == 0
  {
  }

  lemma OnlyRequest(ch: Challenge, c: Candidate, now: U64)
    requires now < ch.expires && c.challenge == ch.id && c.expires == ch.expires
    ensures Pruned(State([ch], [] + [c]), now) == State([ch], [c])
  {
    assert [] + [c] == [c];
    PrunedEarly(ch, [c], now);
  }

  lemma OnlyOneIsDenied(ch: Challenge, c: Candidate, now: U64)
    requires c.status == Pending && now < c.expires == ch.expires && c.challenge == ch.id
    ensures var d := c.(status := Denied, decidedAt := Some(now));
      DeniedOne(State([ch], [c]), c.request, now) == Ok((State([ch], [d]), d)) && Pruned(State([ch], [d]), now) == State([ch], [d])
  {
    var d := c.(status := Denied, decidedAt := Some(now));
    FirstOne(c, HasRequest(c.request));
    assert [c][0 := d] == [d];
    PrunedEarly(ch, [d], now);
  }

  /** The system with this one challenge and at most one request of it. */
  function Small(ch: Challenge, candidates: seq<Candidate>, h: History): System {
    System(State([ch], candidates), [], Idle, h)
  }

  function NothingDrawn(id: string, code: string): History {
    History({id}, {code}, {}, {}, [], [])
  }

  lemma IssueStep(id: string, code: string)
    ensures Next(START, Issue(id, code, 0, 10, Done)) == Small(NewChallenge(id, code, 0, 10), [], NothingDrawn(id, code))
  {
    var ch := NewChallenge(id, code, 0, 10);
    PrunedEarly(ch, [], 0);
    assert [] + [ch] == [ch];
  }

  lemma AskStep(ch: Challenge, h: History, event: Event)
    requires event.Ask? && event.write.Done? && event.request !in h.requests && event.id !in h.deviceIds
    requires ch.hash == Sha256(event.code) && ch.approved.None? && ch.consumedAt.None? && event.now < ch.expires
    ensures Next(Small(ch, [], h), event)
         == Small(ch, [NewCandidate(ch, event.request, event.fingerprint, event.name, event.now)], Drawn(h, event.request, event.id))
  {
    FirstAsks(ch, event.code, event.fingerprint, event.name, event.now, event.request);
    EnlistNext(Small(ch, [], h), event);
  }

  lemma DenyStep(ch: Challenge, c: Candidate, h: History, now: U64)
    requires c.status == Pending && now < c.expires == ch.expires && c.challenge == ch.id
    ensures Next(Small(ch, [c], h), Deny(c.request, now, Done)) == Small(ch, [c.(status := Denied, decidedAt := Some(now))], h)
  {
    OnlyOneIsDenied(ch, c, now);
    DenyNext(Small(ch, [c], h), Deny(c.request, now, Done));
  }

  /** A code is issued at 0 for ten seconds, a device asks at 1 and is denied at 2. */
  lemma DeniedAtTwo(id: string, code: string, fingerprint: string, name: string, protocol: string, request: string,
                    device: string)
    returns (run: seq<Event>, c: Candidate, ch: Challenge)
    ensures Possible(START, run)
    ensures After(START, run) == Small(ch, [c], Drawn(NothingDrawn(id, code), request, device))
    ensures ch == NewChallenge(id, code, 0, 10)
    ensures c == NewCandidate(ch, request, fingerprint, name, 1).(status := Denied, decidedAt := Some(2))
  {
    ch := NewChallenge(id, code, 0, 10);
    var asked := NewCandidate(ch, request, fingerprint, name, 1);
    c := asked.(status := Denied, decidedAt := Some(2));
    var issue, ask := Issue(id, code, 0, 10, Done), Ask(code, fingerprint, name, protocol, 1, request, device, Done);
    var deny := Deny(request, 2, Done);
    IssueStep(id, code);
    AskStep(ch, NothingDrawn(id, code), ask);
    DenyStep(ch, asked, Drawn(NothingDrawn(id, code), request, device), 2);
    run := [issue, ask, deny];
    AfterThree(START, issue, ask, deny);
  }

  /** It does happen: pruned at 20 by the issue of another code, the denied request is asked again at 5 and recorded. */
  lemma DenialIsForgotten(id: string, code: string, fingerprint: string, name: string, protocol: string, request: string,
                          device: string, id': string, code': string, request': string)
    returns (before: seq<Event>, later: seq<Event>, c: Candidate)
    requires id' != id && code' != code
    ensures Possible(START, before) && Possible(After(START, before), later)
    ensures c in After(START, before).state.candidates && c.status == Denied && c.fingerprint == fingerprint
    ensures Present(After(After(START, before), later).state, code, fingerprint, name, 5, request').Enlist?
  {
    var ch;
    before, c, ch := DeniedAtTwo(id, code, fingerprint, name, protocol, request, device);
    var sys := After(START, before);
    var other := NewChallenge(id', code', 20, 10);
    later := [Issue(id', code', 20, 10, Done)];
    OtherIsIssued(ch, c, id', code', 20);
    AfterOne(sys, later[0]);
    StillOpen(ch, other, code, fingerprint, name, 5, request');
  }

  /** Issuing another code after the first expired takes out the denied request. */
  lemma OtherIsIssued(ch: Challenge, c: Candidate, id: string, code: string, now: U64)
    requires ch.expires <= now < SaturatingAdd(ch.expires, HISTORY_SECONDS) && now < 1000
    requires c.challenge == ch.id && c.expires == ch.expires && c.status == Denied && c.device.None?
    ensures Created(State([ch], [c]), id, code, now, 10) == State([ch, NewChallenge(id, code, now, 10)], [])
  {
    var other := NewChallenge(id, code, now, 10);
    FilterBoth(ch, other, ChallengeKept(now));
    FilterOne(c, CandidateKept([ch, other], now));
    assert [ch] + [other] == [ch, other];
  }

  lemma {:induction false} AfterOne(sys: System, a: Event)
    requires Allowed(sys, a)
    ensures Possible(sys, [a]) && After(sys, [a]) == Next(sys, a)
  {
    assert [a][1..] == [];
  }

  lemma StillOpen(ch: Challenge, other: Challenge, code: string, fingerprint: string, name: string, now: U64,
                  request: string)
    requires ch.hash == Sha256(code) && ch.approved.None? && ch.consumedAt.None? && now < ch.expires
    ensures Present(State([ch, other], []), code, fingerprint, name, now, request).Enlist?
  {
    assert HasHash(Sha256(code))(ch);
    assert First([ch, other], HasHash(Sha256(code))) == Some(0);
  }
}

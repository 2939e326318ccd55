/** What every call of `present` is answered, told from the files alone. */
module PairingAnswers {
  import opened Base
  import opened Devices
  import opened Pairing
  import opened PairingProtocol
  import opened PairingInvariant
  import opened PairingTheorems

  /** Where a key stands that presents a code: no such code, a code it has not asked at, or its request there. */
  datatype Standing = NoCode | NewKey(ch: Challenge) | Known(ch: Challenge, c: Candidate)

  predicate Stands(s: State, code: string, fingerprint: string, w: Standing) {
    match w
    case NoCode => forall ch | ch in s.challenges :: ch.hash != Sha256(code)
    case NewKey(ch) =>
      ch in s.challenges && ch.hash == Sha256(code)
      && forall c | c in s.candidates :: c.challenge != ch.id || c.fingerprint != fingerprint
    case Known(ch, c) =>
      ch in s.challenges && ch.hash == Sha256(code)
      && c in s.candidates && c.challenge == ch.id && c.fingerprint == fingerprint
  }

  predicate Undecided(ch: Challenge) {
    ch.approved.None? && ch.consumedAt.None?
  }

  /** Fewer than 8 wait for the code, fewer than 32 were recorded for it, and fewer than 32 wait at all. */
  predicate Room(s: State, id: string, now: U64) {
    && Count(s.candidates, (c: Candidate) => c.challenge == id && c.status == Pending && now < c.expires) < 8
    && Count(s.candidates, (c: Candidate) => c.challenge == id) < 32
    && Count(s.candidates, (c: Candidate) => c.status == Pending && now < c.expires) < 32
  }

  lemma {:induction false} CountSame<T>(s: seq<T>, p: T -> bool, q: T -> bool)
    requires forall x | x in s :: p(x) == q(x)
    ensures Count(s, p) == Count(s, q)
  {
    CountWeaker(s, p, q);
    CountWeaker(s, q, p);
  }

  lemma RoomIsLimits(s: State, ch: Challenge, now: U64)
    ensures Room(s, ch.id, now) <==>
      && Count(s.candidates, IsWaitingFor(ch.id, now)) < MAX_PENDING_PER_CHALLENGE
      && Count(s.candidates, RecordedFor(ch.id)) < MAX_CANDIDATES_PER_CHALLENGE
      && Count(s.candidates, IsWaiting(now)) < MAX_PENDING
  {
    CountSame(s.candidates, (c: Candidate) => c.challenge == ch.id && c.status == Pending && now < c.expires, IsWaitingFor(ch.id, now));
    CountSame(s.candidates, (c: Candidate) => c.challenge == ch.id, RecordedFor(ch.id));
    CountSame(s.candidates, (c: Candidate) => c.status == Pending && now < c.expires, IsWaiting(now));
  }

  // ----- Where it stands --------------------------------------------------------

  /** A key stands in exactly one place. */
  lemma StandsSomewhere(s: State, code: string, fingerprint: string) returns (w: Standing)
    requires StateOk(s)
    ensures Stands(s, code, fingerprint, w)
    ensures forall v | Stands(s, code, fingerprint, v) :: v == w
  {
    match First(s.challenges, HasHash(Sha256(code)))
    case None =>
      assert forall ch | ch in s.challenges :: !HasHash(Sha256(code))(ch);
      w := NoCode;
    case Some(at) =>
      var ch := s.challenges[at];
      match First(s.candidates, HasKey(ch.id, fingerprint)) {
        case None =>
          assert forall c | c in s.candidates :: !HasKey(ch.id, fingerprint)(c);
          w := NewKey(ch);
        case Some(index) => w := Known(ch, s.candidates[index]);
      }
      forall v | Stands(s, code, fingerprint, v)
        ensures v == w
      {
        OneStanding(s, code, fingerprint, v, w);
      }
  }

  lemma OneStanding(s: State, code: string, fingerprint: string, v: Standing, w: Standing)
    requires StateOk(s) && Stands(s, code, fingerprint, v) && Stands(s, code, fingerprint, w)
    ensures v == w
  {
    if !v.NoCode? && !w.NoCode? {
      ChallengeIsFound(s, v.ch, code);
      ChallengeIsFound(s, w.ch, code);
      if v.Known? && w.Known? {
        CandidateIsFound(s, v.c);
        CandidateIsFound(s, w.c);
      }
    }
  }

  // ----- What it comes to -------------------------------------------------------

  /** What presenting the code comes to, by where the key stands. */
  ghost predicate Plan(s: State, fingerprint: string, name: string, now: U64, request: string, w: Standing,
                       p: Presentation) {
    match w
    case NoCode => p == Refuse(Unknown)
    case NewKey(ch) =>
      if !Undecided(ch) then p == Refuse(Used)
      else if ch.expires <= now then p == Refuse(Expired)
      else if !Room(s, ch.id, now) then p == Refuse(Busy)
      else p.Enlist? && p.candidate == Candidate(request, ch.id, fingerprint, CleanName(name), now, ch.expires, Pending, None, None)
    case Known(ch, c) =>
      match c.status
      case Pending => p == if now < ch.expires then Wait(c) else Refuse(Expired)
      case Approved =>
        if now < ch.expires || c.device.Some? then
          p.Finish? && p.at < |s.challenges| && p.index < |s.candidates| && s.candidates[p.index] == c
        else p == Refuse(Expired)
      case Denied => p == Refuse(WasDenied)
      case Superseded => p == Refuse(Used)
      case Finalized => p == Again(c)
  }

  lemma PresentationOf(s: State, code: string, fingerprint: string, name: string, now: U64, request: string, w: Standing)
    requires StateOk(s) && Stands(s, code, fingerprint, w)
    ensures Plan(s, fingerprint, name, now, request, w, Present(s, code, fingerprint, name, now, request))
  {
    match w
    case NoCode =>
    case NewKey(ch) =>
      ChallengeIsFound(s, ch, code);
      RoomIsLimits(s, ch, now);
      NoneRecorded(s, ch, fingerprint);
    case Known(ch, c) =>
      ChallengeIsFound(s, ch, code);
      CandidateIsFound(s, c);
      assert Fits(ch, c);
  }

  lemma NoneRecorded(s: State, ch: Challenge, fingerprint: string)
    requires forall c | c in s.candidates :: c.challenge != ch.id || c.fingerprint != fingerprint
    ensures First(s.candidates, HasKey(ch.id, fingerprint)).None?
  {
  }

  // ----- The answers ------------------------------------------------------------

  /** The registry can be read and written, and the code can be spent. */
  predicate Trusts(io: PresentIo) {
    io.registry.readable && io.registry.write.Done? && io.last.Done?
  }

  /** Finalizing begins: the id was reserved before, or is in time. */
  predicate Begins(ch: Challenge, c: Candidate, now: U64) {
    c.status == Approved && (c.device.Some? || now < ch.expires)
  }

  /** The id the record has, or will have. */
  function IdFor(c: Candidate, id: string): string {
    if c.device.Some? then c.device.value else id
  }

  lemma FinalizeAnswer(s: State, devices: seq<Device>, at: nat, index: nat, id: string, protocol: string, now: U64,
                       io: PresentIo)
    requires at < |s.challenges| && index < |s.candidates|
    ensures var c := s.candidates[index];
      var r, enrolled := Finalize(s, devices, at, index, id, protocol, now, io).2, Enrolled(devices, id, c.name, c.fingerprint, protocol, now);
      r == if Trusts(io) && enrolled.Ok? then Ok(Paired(enrolled.value.1)) else Err(Unavailable)
  {
  }

  lemma FreshEnrols(devices: seq<Device>, id: string, name: string, fingerprint: string, protocol: string, now: U64)
    requires forall d | d in devices :: d.id != id
    ensures Enrolled(devices, id, name, fingerprint, protocol, now).Ok?
    ensures Enrolled(devices, id, name, fingerprint, protocol, now).value.1
         == Device(id, CleanName(name), fingerprint, now, Some(now), protocol, None)
  {
  }

  /** The answer once finalizing begins: all its writes succeed and no revoked record stands under the id. */
  lemma BegunAnswer(sys: System, p: Presentation, ch: Challenge, c: Candidate, protocol: string, now: U64, id: string,
                    io: PresentIo)
    requires Inv(sys) && c in sys.state.candidates && id !in sys.history.deviceIds
    requires p.Finish? && p.at < |sys.state.challenges| && p.index < |sys.state.candidates| && sys.state.candidates[p.index] == c
    ensures var r := Carried(sys.state, sys.devices, p, protocol, now, id, io).2;
      && (r.Ok? <==> (c.device.Some? || io.first.Done?) && Trusts(io) && NotRevoked(sys.devices, IdFor(c, id)))
      && (r.Ok? ==> r.value.Paired? && r.value.device.id == IdFor(c, id) && r.value.device.fingerprint == c.fingerprint)
      && (r.Err? ==> r == Err(Unavailable))
  {
    if c.device.Some? {
      EnrolledOnce(sys, c, protocol, now);
      FinalizeAnswer(sys.state, sys.devices, p.at, p.index, c.device.value, protocol, now, io);
    } else {
      FreshEnrols(sys.devices, id, c.name, c.fingerprint, protocol, now);
      FinalizeAnswer(Reserved(sys.state, p.index, id), sys.devices, p.at, p.index, id, protocol, now, io);
    }
  }

  lemma FinalizedAnswer(sys: System, c: Candidate)
    requires Inv(sys) && c in sys.state.candidates && c.status == Finalized
    ensures c.device.Some?
    ensures var r := AnsweredAgain(c, sys.devices);
      && (r.Ok? <==> NotRevoked(sys.devices, c.device.value))
      && (r.Ok? ==> r.value.Paired? && r.value.device.id == c.device.value && r.value.device.fingerprint == c.fingerprint)
      && (r.Err? ==> r == Err(Used))
  {
    AnsweredWhileLive(sys, c);
  }

  /** The answer, by where the key stands. */
  ghost predicate Answer(sys: System, w: Standing, fingerprint: string, name: string, now: U64, request: string, id: string,
                         io: PresentIo, r: Result<Presented, Refusal>)
  {
    match w
    case NoCode => r == Err(Unknown)
    case NewKey(ch) =>
      r == if !Undecided(ch) then Err(Used)
           else if ch.expires <= now then Err(Expired)
           else if !Room(sys.state, ch.id, now) then Err(Busy)
           else if !io.first.Done? then Err(Unavailable)
           else Ok(Waiting(Candidate(request, ch.id, fingerprint, CleanName(name), now, ch.expires, Pending, None, None)))
    case Known(ch, c) =>
      match c.status
      case Pending => r == if now < ch.expires then Ok(Waiting(c)) else Err(Expired)
      case Denied => r == Err(WasDenied)
      case Superseded => r == Err(Used)
      case Finalized =>
        c.device.Some? &&
        if !io.registry.readable then r == Err(Unavailable)
        else if !NotRevoked(sys.devices, c.device.value) then r == Err(Used)
        else IsPaired(r, c.device.value, fingerprint)
      case Approved =>
        if !Begins(ch, c, now) then r == Err(Expired)
        else if (c.device.Some? || io.first.Done?) && Trusts(io) && NotRevoked(sys.devices, IdFor(c, id)) then
          IsPaired(r, IdFor(c, id), fingerprint)
        else r == Err(Unavailable)
  }

  predicate IsPaired(r: Result<Presented, Refusal>, id: string, fingerprint: string) {
    r.Ok? && r.value.Paired? && r.value.device.id == id && r.value.device.fingerprint == fingerprint
  }

  lemma CarriedAnswer(sys: System, w: Standing, p: Presentation, code: string, fingerprint: string, name: string,
                      protocol: string, now: U64, request: string, id: string, io: PresentIo)
    requires Inv(sys) && Stands(sys.state, code, fingerprint, w) && id !in sys.history.deviceIds
    requires Plan(sys.state, fingerprint, name, now, request, w, p)
    requires p.Finish? ==> p.at < |sys.state.challenges| && p.index < |sys.state.candidates|
    ensures Answer(sys, w, fingerprint, name, now, request, id, io, Carried(sys.state, sys.devices, p, protocol, now, id, io).2)
  {
    if w.Known? && w.c.status == Finalized {
      FinalizedAnswer(sys, w.c);
    } else if w.Known? && Begins(w.ch, w.c, now) {
      BegunAnswer(sys, p, w.ch, w.c, protocol, now, id, io);
    }
  }

  lemma AnswerIs(sys: System, w: Standing, code: string, fingerprint: string, name: string, protocol: string, now: U64,
                 request: string, id: string, io: PresentIo)
    requires Inv(sys) && Stands(sys.state, code, fingerprint, w) && id !in sys.history.deviceIds && io.readable
    ensures Answer(sys, w, fingerprint, name, now, request, id, io,
                   PresentedWhole(sys.state, sys.devices, code, fingerprint, name, protocol, now, request, id, io).2)
  {
    var p := Present(sys.state, code, fingerprint, name, now, request);
    PresentationOf(sys.state, code, fingerprint, name, now, request, w);
    CarriedAnswer(sys, w, p, code, fingerprint, name, protocol, now, request, id, io);
  }

  /** After any run: the one answer of an undisturbed call, by where the key stands, and when each answer is given. */
  lemma {:induction false} AnsweredExactly(run: seq<Event>, w: Standing, code: string, fingerprint: string,
                                           name: string, protocol: string, now: U64, request: string, id: string,
                                           io: PresentIo, r: Result<Presented, Refusal>)
    requires Possible(START, run) && Stands(After(START, run).state, code, fingerprint, w)
    requires id !in After(START, run).history.deviceIds
    requires var sys := After(START, run);
      r == PresentedWhole(sys.state, sys.devices, code, fingerprint, name, protocol, now, request, id, io).2
    ensures var sys := After(START, run);
      var fits := w.NewKey? && Undecided(w.ch) && now < w.ch.expires;
      && (io.readable ==> Answer(sys, w, fingerprint, name, now, request, id, io, r))
      && (r == Err(Unknown) <==> io.readable && w.NoCode?)
      && (r.Ok? && r.value.Waiting? <==>
            io.readable && ((w.Known? && w.c.status == Pending && now < w.ch.expires)
                            || (fits && Room(sys.state, w.ch.id, now) && io.first.Done?)))
      && (r == Err(Busy) <==> io.readable && fits && !Room(sys.state, w.ch.id, now))
      && (r == Err(WasDenied) <==> io.readable && w.Known? && w.c.status == Denied)
  {
    StartHolds();
    RunKeeps(START, run);
    if io.readable {
      AnswerIs(After(START, run), w, code, fingerprint, name, protocol, now, request, id, io);
    }
  }

  /** The other answers: the code is used, it expired, the device is paired, or something could not be read or written. */
  lemma {:induction false} RefusedOrPaired(run: seq<Event>, w: Standing, code: string, fingerprint: string,
                                           name: string, protocol: string, now: U64, request: string, id: string,
                                           io: PresentIo, r: Result<Presented, Refusal>)
    requires Possible(START, run) && Stands(After(START, run).state, code, fingerprint, w)
    requires id !in After(START, run).history.deviceIds
    requires var sys := After(START, run);
      r == PresentedWhole(sys.state, sys.devices, code, fingerprint, name, protocol, now, request, id, io).2
    ensures var sys := After(START, run);
      && (r == Err(Used) <==>
            io.readable && ((w.NewKey? && !Undecided(w.ch))
                            || (w.Known? && w.c.status == Superseded)
                            || (w.Known? && w.c.status == Finalized && io.registry.readable
                                && w.c.device.Some? && !NotRevoked(sys.devices, w.c.device.value))))
      && (r == Err(Expired) <==>
            io.readable && !w.NoCode? && w.ch.expires <= now
            && if w.NewKey? then Undecided(w.ch)
               else w.c.status == Pending || (w.c.status == Approved && w.c.device.None?))
      && (r.Ok? && r.value.Paired? <==>
            io.readable && io.registry.readable && w.Known? && NotRevoked(sys.devices, IdFor(w.c, id))
            && (w.c.status == Finalized
                || (Begins(w.ch, w.c, now) && (w.c.device.Some? || io.first.Done?) && io.registry.write.Done? && io.last.Done?)))
      && (r == Err(Unavailable) <==>
            || !io.readable
            || (w.NewKey? && Undecided(w.ch) && now < w.ch.expires && Room(sys.state, w.ch.id, now) && !io.first.Done?)
            || (w.Known? && w.c.status == Finalized && !io.registry.readable)
            || (w.Known? && Begins(w.ch, w.c, now)
                && !((w.c.device.Some? || io.first.Done?) && Trusts(io) && NotRevoked(sys.devices, IdFor(w.c, id)))))
  {
    StartHolds();
    RunKeeps(START, run);
    if io.readable {
      AnswerIs(After(START, run), w, code, fingerprint, name, protocol, now, request, id, io);
    }
  }

  // ----- How long a code lives --------------------------------------------------

  /** When a code issued at `now` for `ttl` seconds expires. */
  function Until(now: U64, ttl: U64): U64 {
    if now + ttl <= U64_MAX then now + ttl else U64_MAX
  }

  /** A code just issued is in the file, undecided and not asked at, unless it was issued at the end of time. */
  lemma IssuedStands(sys: System, id: string, code: string, now: U64, ttl: U64, fingerprint: string)
    requires Inv(sys) && Allowed(sys, Issue(id, code, now, ttl, Done))
    ensures Stands(Next(sys, Issue(id, code, now, ttl, Done)).state, code, fingerprint,
                   if now < U64_MAX then NewKey(Challenge(id, Sha256(code), now, Until(now, ttl), None, None, None)) else NoCode)
  {
    var ch := Challenge(id, Sha256(code), now, Until(now, ttl), None, None, None);
    assert ch == NewChallenge(id, code, now, ttl);
    var grown := sys.state.challenges + [ch];
    var s := Next(sys, Issue(id, code, now, ttl, Done)).state;
    assert s.challenges == Filter(grown, ChallengeKept(now));
    assert ch in grown && (ChallengeKept(now)(ch) <==> now < U64_MAX);
    forall other | other in s.challenges && other.hash == Sha256(code)
      ensures other == ch
    {
      assert other in grown;
    }
    forall c | c in s.candidates
      ensures c.challenge != id
    {
      assert c in sys.state.candidates;
    }
  }

  /**
   * After any run, a code issued at `now` for `ttl` seconds is one a new certificate can ask at exactly until then:
   * with room for it and a file that can be written, its request is recorded and waits, and after that, or when the
   * clock stands at its very end, it does not.
   */
  lemma {:induction false} CodeLives(run: seq<Event>, id: string, code: string, now: U64, ttl: U64, t: U64,
                                     fingerprint: string, name: string, protocol: string, request: string,
                                     device: string, io: PresentIo)
    requires Possible(START, run) && Allowed(After(START, run), Issue(id, code, now, ttl, Done))
    requires device !in After(START, run).history.deviceIds && io.readable && io.first.Done?
    requires Room(Next(After(START, run), Issue(id, code, now, ttl, Done)).state, id, t)
    ensures var sys := Next(After(START, run), Issue(id, code, now, ttl, Done));
      var r := PresentedWhole(sys.state, sys.devices, code, fingerprint, name, protocol, t, request, device, io).2;
      && (r.Ok? <==> now < U64_MAX && t < Until(now, ttl))
      && (r.Ok? ==> r.value == Waiting(Candidate(request, id, fingerprint, CleanName(name), t, Until(now, ttl), Pending, None, None)))
  {
    StartHolds();
    RunKeeps(START, run);
    var before := After(START, run);
    StepKeeps(before, Issue(id, code, now, ttl, Done));
    var sys := Next(before, Issue(id, code, now, ttl, Done));
    IssuedStands(before, id, code, now, ttl, fingerprint);
    var ch := Challenge(id, Sha256(code), now, Until(now, ttl), None, None, None);
    AnswerIs(sys, if now < U64_MAX then NewKey(ch) else NoCode, code, fingerprint, name, protocol, t, request, device, io);
  }

  lemma LiveIsKept(s: State, ch: Challenge, c: Candidate, now: U64)
    requires ch in s.challenges && c in s.candidates && c.challenge == ch.id && now < ch.expires && now < c.expires
    ensures ch in Pruned(s, now).challenges && c in Pruned(s, now).candidates
  {
    var challenges := Filter(s.challenges, ChallengeKept(now));
    assert ChallengeKept(now)(ch);
    assert HasChallengeId(c.challenge)(ch);
    assert CandidateKept(challenges, now)(c);
  }

  lemma EnlistAdds(s: State, code: string, fingerprint: string, name: string, now: U64, request: string)
    ensures var p := Present(s, code, fingerprint, name, now, request);
      p.Enlist? ==> p.after == Pruned(s.(candidates := s.candidates + [p.candidate]), now)
  {
  }

  /** A request just recorded is in the file. */
  lemma AskedIsThere(sys: System, ask: Event, ch: Challenge, c: Candidate)
    requires ask.Ask? && ask.write.Done? && Allowed(sys, ask) && ch in sys.state.challenges && ask.now < ch.expires
    requires c.challenge == ch.id && c.expires == ch.expires
    requires var p := Present(sys.state, ask.code, ask.fingerprint, ask.name, ask.now, ask.request); p.Enlist? && p.candidate == c
    ensures c in Next(sys, ask).state.candidates && ch in Next(sys, ask).state.challenges
  {
    EnlistAdds(sys.state, ask.code, ask.fingerprint, ask.name, ask.now, ask.request);
    LiveIsKept(sys.state.(candidates := sys.state.candidates + [c]), ch, c, ask.now);
  }

  /** The request then waits, and can be approved, exactly until the code expires. */
  lemma {:induction false} RequestLives(run: seq<Event>, id: string, code: string, now: U64, ttl: U64, ask: Event,
                                        u: U64, name: string, protocol: string, request: string, device: string,
                                        io: PresentIo)
    requires Possible(START, run) && Allowed(After(START, run), Issue(id, code, now, ttl, Done))
    requires var sys := Next(After(START, run), Issue(id, code, now, ttl, Done));
      && ask.Ask? && ask.code == code && ask.write.Done? && Allowed(sys, ask)
      && now < U64_MAX && ask.now < Until(now, ttl) && Room(sys.state, id, ask.now)
      && device !in Next(sys, ask).history.deviceIds && io.readable
    ensures var sys := Next(Next(After(START, run), Issue(id, code, now, ttl, Done)), ask);
      var c := Candidate(ask.request, id, ask.fingerprint, CleanName(ask.name), ask.now, Until(now, ttl), Pending, None, None);
      var r := PresentedWhole(sys.state, sys.devices, code, ask.fingerprint, name, protocol, u, request, device, io).2;
      && c in sys.state.candidates
      && (ApprovedOne(sys.state, ask.request, u).Ok? <==> u < Until(now, ttl))
      && r == if u < Until(now, ttl) then Ok(Waiting(c)) else Err(Expired)
  {
    StartHolds();
    RunKeeps(START, run);
    var before := After(START, run);
    var issued := Next(before, Issue(id, code, now, ttl, Done));
    StepKeeps(before, Issue(id, code, now, ttl, Done));
    StepKeeps(issued, ask);
    IssuedStands(before, id, code, now, ttl, ask.fingerprint);
    var ch := Challenge(id, Sha256(code), now, Until(now, ttl), None, None, None);
    var c := Candidate(ask.request, id, ask.fingerprint, CleanName(ask.name), ask.now, Until(now, ttl), Pending, None, None);
    PresentationOf(issued.state, code, ask.fingerprint, ask.name, ask.now, ask.request, NewKey(ch));
    AskedIsThere(issued, ask, ch, c);
    PendingCanBeApproved(Next(issued, ask).state, c, u);
    AnswerIs(Next(issued, ask), Known(ch, c), code, ask.fingerprint, name, protocol, u, request, device, io);
  }
}

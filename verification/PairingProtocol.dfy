/** The pairing protocol as a transition system: the pairing file, the device
    registry, the call of `present` now between its writes, and what happened so far. */
module PairingProtocol {
  import opened Base
  import opened Devices
  import opened Pairing

  /** The one call of `present` that holds the pairing lock between two of its writes. */
  datatype Flight =
    | Idle
    | Enrolling(at: nat, index: nat, protocol: string, now: U64)
    | Spending(at: nat, index: nat, now: U64)

  /** A person's approval that reached the pairing file. */
  datatype Approval = Approval(challenge: string, request: string, fingerprint: string)

  /** A record that reached the registry, and the request that put it there. */
  datatype Enrolment = Enrolment(challenge: string, request: string, fingerprint: string, device: string)

  /** Everything drawn, approved and enrolled so far. */
  datatype History = History(
    challengeIds: set<string>,
    codes: set<string>,
    requests: set<string>,
    deviceIds: set<string>,
    approvals: seq<Approval>,
    enrolments: seq<Enrolment>)

  datatype System = System(state: State, devices: seq<Device>, flight: Flight, history: History)

  /** One step. Random draws, times and the ends of writes are its parameters. */
  datatype Event =
    | Issue(id: string, code: string, now: U64, ttl: U64, write: Write)
    | Ask(code: string, fingerprint: string, name: string, protocol: string, now: U64,
          request: string, id: string, write: Write)
    | Enroll(write: Write)
    | Spend(write: Write)
    | Approve(request: string, now: U64, write: Write)
    | Deny(request: string, now: U64, write: Write)
    | Revoke(id: string, now: U64, write: Write)
    | Rename(id: string, name: string, write: Write)
    | Touch(id: string, now: U64, write: Write)
    | Crash

  /** Pairing steps wait for the pairing lock, and random draws are fresh. */
  predicate Allowed(sys: System, event: Event) {
    match event
    case Issue(id, code, _, _, _) =>
      sys.flight.Idle? && id !in sys.history.challengeIds && code !in sys.history.codes
    case Ask(_, _, _, _, _, request, id, _) =>
      sys.flight.Idle? && request !in sys.history.requests && id !in sys.history.deviceIds
    case Enroll(_) => sys.flight.Enrolling? && sys.flight.index < |sys.state.candidates| && sys.flight.at < |sys.state.challenges|
    case Spend(_) => sys.flight.Spending? && sys.flight.index < |sys.state.candidates| && sys.flight.at < |sys.state.challenges|
    case Approve(_, _, _) => sys.flight.Idle?
    case Deny(_, _, _) => sys.flight.Idle?
    case _ => true
  }

  function Reached<T>(changed: Result<(T, Device), RegistryError>, before: T, write: Write): T {
    match changed
    case Ok((after, _)) => Saved(before, after, write)
    case Err(_) => before
  }

  /** The first write of finalization, unless the id was reserved before. */
  function AfterReserve(sys: System, at: nat, index: nat, protocol: string, now: U64, id: string, write: Write): System
    requires index < |sys.state.candidates|
  {
    if sys.state.candidates[index].device.Some? then sys.(flight := Enrolling(at, index, protocol, now))
    else
      sys.(state := Saved(sys.state, Reserved(sys.state, index, id), write),
           flight := if write.Done? then Enrolling(at, index, protocol, now) else Idle)
  }

  function AfterAsk(sys: System, event: Event): System
    requires event.Ask?
  {
    var drawn := sys.(history := sys.history.(
                      requests := sys.history.requests + {event.request},
                      deviceIds := sys.history.deviceIds + {event.id}));
    match Present(sys.state, event.code, event.fingerprint, event.name, event.now, event.request)
    case Enlist(after, _) => drawn.(state := Saved(sys.state, after, event.write))
    case Finish(at, index) => AfterReserve(drawn, at, index, event.protocol, event.now, event.id, event.write)
    case _ => drawn
  }

  function AfterEnroll(sys: System, write: Write): System
    requires Allowed(sys, Enroll(write))
  {
    var f := sys.flight;
    var c := sys.state.candidates[f.index];
    if c.device.None? then sys.(flight := Idle)
    else
      match Enrolled(sys.devices, c.device.value, c.name, c.fingerprint, f.protocol, f.now)
      case Err(_) => sys.(flight := Idle)
      case Ok((list, _)) =>
        var devices := Saved(sys.devices, list, write);
        var record := Enrolment(c.challenge, c.request, c.fingerprint, c.device.value);
        sys.(devices := devices,
             flight := if write.Done? then Spending(f.at, f.index, f.now) else Idle,
             history := if |devices| == |sys.devices| then sys.history
                        else sys.history.(enrolments := sys.history.enrolments + [record]))
  }

  function Next(sys: System, event: Event): System
    requires Allowed(sys, event)
  {
    match event
    case Issue(id, code, now, ttl, write) =>
      sys.(state := Saved(sys.state, Created(sys.state, id, code, now, ttl), write),
           history := sys.history.(challengeIds := sys.history.challengeIds + {id},
                                   codes := sys.history.codes + {code}))
    case Ask(_, _, _, _, _, _, _, _) => AfterAsk(sys, event)
    case Enroll(write) => AfterEnroll(sys, write)
    case Spend(write) =>
      var f := sys.flight;
      var after := Spent(sys.state, f.at, f.index, sys.state.candidates[f.index].fingerprint, f.now);
      sys.(state := Saved(sys.state, after, write), flight := Idle)
    case Approve(request, now, write) =>
      (match ApprovedOne(sys.state, request, now)
       case Err(_) => sys
       case Ok((after, c)) =>
         sys.(state := Saved(sys.state, Pruned(after, now), write),
              history := if write == Failed(false) then sys.history
                         else sys.history.(approvals :=
                                sys.history.approvals + [Approval(c.challenge, c.request, c.fingerprint)])))
    case Deny(request, now, write) =>
      (match DeniedOne(sys.state, request, now)
       case Err(_) => sys
       case Ok((after, _)) => sys.(state := Saved(sys.state, Pruned(after, now), write)))
    case Revoke(id, now, write) => sys.(devices := Reached(Revoked(sys.devices, id, now), sys.devices, write))
    case Rename(id, name, write) => sys.(devices := Reached(Renamed(sys.devices, id, name), sys.devices, write))
    case Touch(id, now, write) => sys.(devices := Saved(sys.devices, Touched(sys.devices, id, now), write))
    case Crash => sys.(flight := Idle)
  }

  const START := System(State([], []), [], Idle, History({}, {}, {}, {}, [], []))

  /** `run` can happen from `sys`. */
  ghost predicate Possible(sys: System, run: seq<Event>)
    decreases |run|
  {
    run == [] || (Allowed(sys, run[0]) && Possible(Next(sys, run[0]), run[1..]))
  }

  ghost function After(sys: System, run: seq<Event>): System
    requires Possible(sys, run)
    decreases |run|
  {
    if run == [] then sys else After(Next(sys, run[0]), run[1..])
  }

  // ----- What every reachable state keeps ------------------------------------

  predicate DistinctChallenges(a: Challenge, b: Challenge) { a.id != b.id && a.hash != b.hash }

  predicate DistinctCandidates(a: Candidate, b: Candidate) {
    && a.request != b.request
    && (a.challenge != b.challenge || a.fingerprint != b.fingerprint)
    && (a.device.Some? ==> a.device != b.device)
  }

  /** One live record per key, and one record per id. */
  predicate DistinctDevices(a: Device, b: Device) {
    a.id != b.id && (a.fingerprint == b.fingerprint ==> a.IsRevoked() || b.IsRevoked())
  }

  predicate DistinctApprovals(a: Approval, b: Approval) { a.challenge != b.challenge }

  predicate DistinctEnrolments(a: Enrolment, b: Enrolment) { a.challenge != b.challenge }

  /** How a candidate and its challenge stand to each other. */
  predicate Fits(ch: Challenge, c: Candidate) {
    && c.expires == ch.expires
    && match c.status
       case Pending => ch.approved.None? && ch.consumedAt.None? && ch.consumedBy.None? && c.device.None?
       case Approved => ch.approved == Some(c.request) && ch.consumedAt.None? && ch.consumedBy.None?
       case Finalized =>
         ch.approved == Some(c.request) && ch.consumedAt.Some? && ch.consumedBy == Some(c.fingerprint) && c.device.Some?
       case Denied => c.device.None?
       case Superseded => c.device.None?
  }

  ghost predicate StateOk(s: State) {
    && Pairwise(s.challenges, DistinctChallenges)
    && Pairwise(s.candidates, DistinctCandidates)
    && (forall ch | ch in s.challenges :: ch.consumedAt.Some? == ch.consumedBy.Some?)
    && (forall c | c in s.candidates :: exists ch :: ch in s.challenges && ch.id == c.challenge)
    && (forall ch, c | ch in s.challenges && c in s.candidates && c.challenge == ch.id :: Fits(ch, c))
  }

  function IsPending(): Candidate -> bool { (c: Candidate) => c.status == Pending }

  function IsPendingFor(challenge: string): Candidate -> bool {
    (c: Candidate) => c.challenge == challenge && c.status == Pending
  }

  ghost predicate BoundsOk(s: State) {
    && Count(s.candidates, IsPending()) <= MAX_PENDING
    && forall id ::
      && Count(s.candidates, IsPendingFor(id)) <= MAX_PENDING_PER_CHALLENGE
      && Count(s.candidates, RecordedFor(id)) <= MAX_CANDIDATES_PER_CHALLENGE
  }

  ghost predicate DrawsOk(s: State, devices: seq<Device>, h: History) {
    && (forall ch | ch in s.challenges :: ch.id in h.challengeIds && ch.hash.code in h.codes)
    && (forall c | c in s.candidates :: c.request in h.requests && (c.device.Some? ==> c.device.value in h.deviceIds))
    && (forall d | d in devices :: d.id in h.deviceIds)
    && (forall a | a in h.approvals :: a.challenge in h.challengeIds && a.request in h.requests)
  }

  ghost predicate ApprovalsOk(s: State, h: History) {
    && Pairwise(h.approvals, DistinctApprovals)
    && (forall ch | ch in s.challenges && ch.approved.Some? ::
      exists a :: a in h.approvals && a.challenge == ch.id && a.request == ch.approved.value)
    && (forall ch, a | ch in s.challenges && a in h.approvals && a.challenge == ch.id :: ch.approved == Some(a.request))
    && (forall c, a | c in s.candidates && a in h.approvals && a.request == c.request ::
      a.challenge == c.challenge && a.fingerprint == c.fingerprint)
  }

  ghost predicate RegistryOk(s: State, devices: seq<Device>, h: History) {
    && |devices| == |h.enrolments|
    && (forall i | 0 <= i < |devices| ::
      h.enrolments[i].device == devices[i].id && h.enrolments[i].fingerprint == devices[i].fingerprint)
    && Pairwise(devices, DistinctDevices)
    && Pairwise(h.enrolments, DistinctEnrolments)
    && (forall e | e in h.enrolments :: Approval(e.challenge, e.request, e.fingerprint) in h.approvals)
    && (forall e, c | e in h.enrolments && c in s.candidates :: e.request == c.request <==> c.device == Some(e.device))
    && (forall c | c in s.candidates && c.status == Finalized :: exists e :: e in h.enrolments && e.request == c.request)
  }

  ghost predicate FlightOk(sys: System) {
    match sys.flight
    case Idle => true
    case Enrolling(at, index, _, _) => InFlight(sys.state, at, index)
    case Spending(at, index, _) =>
      && InFlight(sys.state, at, index)
      && exists e :: e in sys.history.enrolments && e.request == sys.state.candidates[index].request
  }

  ghost predicate InFlight(s: State, at: nat, index: nat) {
    && at < |s.challenges| && index < |s.candidates|
    && s.challenges[at].id == s.candidates[index].challenge
    && s.candidates[index].status == Approved && s.candidates[index].device.Some?
  }

  ghost predicate Core(s: State, devices: seq<Device>, h: History) {
    StateOk(s) && DrawsOk(s, devices, h) && ApprovalsOk(s, h) && RegistryOk(s, devices, h)
  }

  ghost predicate Inv(sys: System) {
    Core(sys.state, sys.devices, sys.history) && BoundsOk(sys.state) && FlightOk(sys)
  }
}

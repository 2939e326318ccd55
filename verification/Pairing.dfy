/** One-time pairing: challenges, the requests made with them, and their finalization. */
module Pairing {
  import opened Base
  import opened Devices

  const MAX_PENDING_PER_CHALLENGE: nat := 8
  const MAX_PENDING: nat := 32
  const MAX_CANDIDATES_PER_CHALLENGE: nat := 32
  const HISTORY_SECONDS: U64 := 86_400

  /** SHA-256 of a code, taken to be injective. */
  datatype Digest = Sha256(code: string)

  datatype Challenge = Challenge(
    id: string,
    hash: Digest,
    created: U64,
    expires: U64,
    consumedAt: Option<U64>,
    consumedBy: Option<string>,
    approved: Option<string>)

  datatype Status = Pending | Approved | Denied | Finalized | Superseded

  datatype Candidate = Candidate(
    request: string,
    challenge: string,
    fingerprint: string,
    name: string,
    created: U64,
    expires: U64,
    status: Status,
    decidedAt: Option<U64>,
    device: Option<string>)

  /** Everything in the pairing file. */
  datatype State = State(challenges: seq<Challenge>, candidates: seq<Candidate>)

  datatype Refusal = Unknown | Expired | Used | WasDenied | Busy | Unavailable

  datatype Presented = Waiting(candidate: Candidate) | Paired(device: Device)

  datatype DecisionError =
    NoRequest | AlreadyApproved | AlreadyDenied | AlreadyPaired | Taken | RequestExpired | NoChallenge | FileError

  // ----- Lookups ------------------------------------------------------------

  function HasHash(hash: Digest): Challenge -> bool { (c: Challenge) => c.hash == hash }

  function HasChallengeId(id: string): Challenge -> bool { (c: Challenge) => c.id == id }

  function HasRequest(request: string): Candidate -> bool { (c: Candidate) => c.request == request }

  function HasKey(challenge: string, fingerprint: string): Candidate -> bool {
    (c: Candidate) => c.challenge == challenge && c.fingerprint == fingerprint
  }

  function RecordedFor(challenge: string): Candidate -> bool { (c: Candidate) => c.challenge == challenge }

  function IsWaiting(now: U64): Candidate -> bool {
    (c: Candidate) => c.status == Pending && now < c.expires
  }

  function IsWaitingFor(challenge: string, now: U64): Candidate -> bool {
    (c: Candidate) => c.challenge == challenge && c.status == Pending && now < c.expires
  }

  // ----- Pruning ------------------------------------------------------------

  function ChallengeKept(now: U64): Challenge -> bool {
    (c: Challenge) => SaturatingAdd(c.expires, HISTORY_SECONDS) > now
  }

  function CandidateKept(challenges: seq<Challenge>, now: U64): Candidate -> bool {
    (c: Candidate) =>
      First(challenges, HasChallengeId(c.challenge)).Some?
      && (now < c.expires || c.status == Finalized || c.device.Some?)
  }

  function Pruned(state: State, now: U64): State {
    var challenges := Filter(state.challenges, ChallengeKept(now));
    State(challenges, Filter(state.candidates, CandidateKept(challenges, now)))
  }

  // ----- Presenting a code --------------------------------------------------

  /** What a presented code comes to, before anything is written. */
  datatype Presentation =
    | Refuse(why: Refusal)
    | Wait(candidate: Candidate)
    | Enlist(after: State, candidate: Candidate)
    | Again(candidate: Candidate)
    | Finish(at: nat, index: nat)

  function NewCandidate(challenge: Challenge, request: string, fingerprint: string, name: string, now: U64): Candidate {
    Candidate(request, challenge.id, fingerprint, CleanName(name), now, challenge.expires, Pending, None, None)
  }

  function Enlisted(state: State, challenge: Challenge, fingerprint: string, name: string, now: U64, request: string)
    : Result<(State, Candidate), Refusal>
  {
    if challenge.consumedAt.Some? || challenge.approved.Some? then Err(Used)
    else if now >= challenge.expires then Err(Expired)
    else if Count(state.candidates, IsWaitingFor(challenge.id, now)) >= MAX_PENDING_PER_CHALLENGE
            || Count(state.candidates, RecordedFor(challenge.id)) >= MAX_CANDIDATES_PER_CHALLENGE
            || Count(state.candidates, IsWaiting(now)) >= MAX_PENDING then Err(Busy)
    else
      var candidate := NewCandidate(challenge, request, fingerprint, name, now);
      Ok((Pruned(state.(candidates := state.candidates + [candidate]), now), candidate))
  }

  function Present(state: State, code: string, fingerprint: string, name: string, now: U64,
                   request: string): (r: Presentation)
    ensures r.Finish? ==> r.at < |state.challenges| && r.index < |state.candidates|
  {
    match First(state.challenges, HasHash(Sha256(code)))
    case None => Refuse(Unknown)
    case Some(at) =>
      var challenge := state.challenges[at];
      match First(state.candidates, HasKey(challenge.id, fingerprint))
      case None =>
        (match Enlisted(state, challenge, fingerprint, name, now, request)
         case Err(why) => Refuse(why)
         case Ok((after, candidate)) => Enlist(after, candidate))
      case Some(index) =>
        var candidate := state.candidates[index];
        match candidate.status
        case Denied => Refuse(WasDenied)
        case Superseded => Refuse(Used)
        case Finalized => Again(candidate)
        case Pending =>
          if now >= candidate.expires then Refuse(Expired)
          else if challenge.consumedAt.Some? || challenge.approved.Some? then Refuse(Used)
          else Wait(candidate)
        case Approved =>
          if challenge.approved != Some(candidate.request)
             || (challenge.consumedBy.Some? && challenge.consumedBy.value != fingerprint) then Refuse(Used)
          else if now >= candidate.expires && candidate.device.None? then Refuse(Expired)
          else Finish(at, index)
  }

  /** The answer to a device that was trusted already. */
  function AnsweredAgain(candidate: Candidate, devices: seq<Device>): Result<Presented, Refusal> {
    match Authorized(devices, candidate.fingerprint)
    case Ok(device) => if Some(device.id) == candidate.device then Ok(Paired(device)) else Err(Used)
    case Err(_) => Err(Used)
  }

  /** Step 1 of finalization: the id the device record will have. */
  function Reserved(state: State, index: nat, id: string): State
    requires index < |state.candidates|
  {
    state.(candidates := state.candidates[index := state.candidates[index].(device := Some(id))])
  }

  function SupersedeOpen(challenge: string, now: U64): Candidate -> Candidate {
    (c: Candidate) =>
      if c.challenge == challenge && (c.status == Pending || c.status == Approved)
      then c.(status := Superseded, decidedAt := Some(now)) else c
  }

  function Consumed(challenge: Challenge, fingerprint: string, now: U64): Challenge {
    challenge.(consumedAt := Some(now), consumedBy := Some(fingerprint))
  }

  /** Step 3 of finalization: the candidate finalized, the code spent, the others superseded. */
  function Spent(state: State, at: nat, index: nat, fingerprint: string, now: U64): State
    requires at < |state.challenges| && index < |state.candidates|
  {
    var entry := state.candidates[index].(status := Finalized, decidedAt := Some(now));
    Pruned(
      State(
        state.challenges[at := Consumed(state.challenges[at], fingerprint, now)],
        MapSeq(state.candidates[index := entry], SupersedeOpen(state.challenges[at].id, now))),
      now)
  }

  // ----- The person's decisions ---------------------------------------------

  function DecideApproved(challenge: string, request: string, now: U64): Candidate -> Candidate {
    (c: Candidate) =>
      if c.challenge != challenge then c
      else if c.request == request then c.(status := Approved, decidedAt := Some(now))
      else if c.status == Pending then c.(status := Superseded, decidedAt := Some(now))
      else c
  }

  function ApprovedOne(state: State, request: string, now: U64): Result<(State, Candidate), DecisionError> {
    match First(state.candidates, HasRequest(request))
    case None => Err(NoRequest)
    case Some(index) =>
      var candidate := state.candidates[index];
      match candidate.status
      case Approved => Err(AlreadyApproved)
      case Denied => Err(AlreadyDenied)
      case Finalized => Err(AlreadyPaired)
      case Superseded => Err(Taken)
      case Pending =>
        if now >= candidate.expires then Err(RequestExpired)
        else
          match First(state.challenges, HasChallengeId(candidate.challenge))
          case None => Err(NoChallenge)
          case Some(at) =>
            var challenge := state.challenges[at];
            if challenge.consumedAt.Some? || challenge.approved.Some? then Err(Taken)
            else
              var candidates := MapSeq(state.candidates, DecideApproved(candidate.challenge, candidate.request, now));
              Ok((State(state.challenges[at := challenge.(approved := Some(candidate.request))], candidates), candidates[index]))
  }

  function DeniedOne(state: State, request: string, now: U64): Result<(State, Candidate), DecisionError> {
    match First(state.candidates, HasRequest(request))
    case None => Err(NoRequest)
    case Some(index) =>
      var candidate := state.candidates[index];
      if candidate.status == Finalized || (candidate.status == Approved && candidate.device.Some?) then Err(AlreadyPaired)
      else if candidate.status == Denied then Err(AlreadyDenied)
      else if candidate.status == Superseded then Err(Taken)
      else if now >= candidate.expires then Err(RequestExpired)
      else
        var denied := candidate.(status := Denied, decidedAt := Some(now));
        Ok((state.(candidates := state.candidates[index := denied]), denied))
  }

  function NewChallenge(id: string, code: string, now: U64, ttl: U64): Challenge {
    Challenge(id, Sha256(code), now, SaturatingAdd(now, ttl), None, None, None)
  }

  function Created(state: State, id: string, code: string, now: U64, ttl: U64): State {
    Pruned(state.(challenges := state.challenges + [NewChallenge(id, code, now, ttl)]), now)
  }

  // ----- One whole call of `present` ----------------------------------------

  /** What `present` meets on its way: the pairing file, and the three writes of finalization. */
  datatype PresentIo = PresentIo(readable: bool, first: Write, registry: Io, last: Write)

  /** Pairing file, registry and answer after one undisturbed call of `present`. */
  function PresentedWhole(state: State, devices: seq<Device>, code: string, fingerprint: string, name: string,
                          protocol: string, now: U64, request: string, id: string, io: PresentIo)
    : (State, seq<Device>, Result<Presented, Refusal>)
  {
    if !io.readable then (state, devices, Err(Unavailable))
    else Carried(state, devices, Present(state, code, fingerprint, name, now, request), protocol, now, id, io)
  }

  /** What a call does once it is known where it stands. */
  function Carried(state: State, devices: seq<Device>, p: Presentation, protocol: string, now: U64, id: string,
                   io: PresentIo)
    : (State, seq<Device>, Result<Presented, Refusal>)
    requires p.Finish? ==> p.at < |state.challenges| && p.index < |state.candidates|
  {
    match p
    case Refuse(why) => (state, devices, Err(why))
    case Wait(candidate) => (state, devices, Ok(Waiting(candidate)))
    case Enlist(after, candidate) =>
      (Saved(state, after, io.first), devices, if io.first.Done? then Ok(Waiting(candidate)) else Err(Unavailable))
    case Again(candidate) =>
      (state, devices, if io.registry.readable then AnsweredAgain(candidate, devices) else Err(Unavailable))
    case Finish(at, index) =>
      match state.candidates[index].device
      case Some(reserved) => Finalize(state, devices, at, index, reserved, protocol, now, io)
      case None =>
        var after := Reserved(state, index, id);
        if io.first.Done? then Finalize(after, devices, at, index, id, protocol, now, io)
        else (Saved(state, after, io.first), devices, Err(Unavailable))
  }

  /** Steps 2 and 3 of finalization. */
  function Finalize(state: State, devices: seq<Device>, at: nat, index: nat, id: string, protocol: string, now: U64,
                    io: PresentIo)
    : (State, seq<Device>, Result<Presented, Refusal>)
    requires at < |state.challenges| && index < |state.candidates|
  {
    var candidate := state.candidates[index];
    if !io.registry.readable then (state, devices, Err(Unavailable))
    else
      match Enrolled(devices, id, candidate.name, candidate.fingerprint, protocol, now)
      case Err(_) => (state, devices, Err(Unavailable))
      case Ok((list, device)) =>
        var devices' := Saved(devices, list, io.registry.write);
        if !io.registry.write.Done? then (state, devices', Err(Unavailable))
        else
          var after := Spent(state, at, index, candidate.fingerprint, now);
          (Saved(state, after, io.last), devices', if io.last.Done? then Ok(Paired(device)) else Err(Unavailable))
  }

  // ----- The pairing file ---------------------------------------------------

  /** Approve the request, and supersede those that wait beside it. */
  method Decide(before: seq<Candidate>, challenge: string, request: string, now: U64) returns (candidates: seq<Candidate>)
    ensures candidates == MapSeq(before, DecideApproved(challenge, request, now))
  {
    candidates := before;
    for i := 0 to |candidates|
      invariant |candidates| == |before|
      invariant forall k | 0 <= k < i :: candidates[k] == DecideApproved(challenge, request, now)(before[k])
      invariant forall k | i <= k < |candidates| :: candidates[k] == before[k]
    {
      var other := candidates[i];
      if other.challenge == challenge {
        if other.request == request {
          other := other.(status := Status.Approved);
        } else if other.status == Pending {
          other := other.(status := Superseded);
        } else {
          continue;
        }
        candidates := candidates[i := other.(decidedAt := Some(now))];
      }
    }
  }

  method Prune(state: State, now: U64) returns (r: State)
    ensures r == Pruned(state, now)
  {
    var challenges := [];
    for i := 0 to |state.challenges|
      invariant challenges == Filter(state.challenges[..i], ChallengeKept(now))
    {
      var c := state.challenges[i];
      assert state.challenges[..i + 1][..i] == state.challenges[..i];
      if SaturatingAdd(c.expires, HISTORY_SECONDS) > now { challenges := challenges + [c]; }
    }
    assert state.challenges[..|state.challenges|] == state.challenges;
    var candidates := [];
    for i := 0 to |state.candidates|
      invariant candidates == Filter(state.candidates[..i], CandidateKept(challenges, now))
    {
      var c := state.candidates[i];
      assert state.candidates[..i + 1][..i] == state.candidates[..i];
      if First(challenges, HasChallengeId(c.challenge)).Some?
         && (now < c.expires || c.status == Finalized || c.device.Some?) {
        candidates := candidates + [c];
      }
    }
    assert state.candidates[..|state.candidates|] == state.candidates;
    r := State(challenges, candidates);
  }

  class Pairing {
    var file: State

    /** Issue a code. `id` and `code` are the random draws. */
    method Create(id: string, code: string, now: U64, ttl: U64, io: Io) returns (r: Result<Challenge, DecisionError>)
      modifies this
      ensures file == if io.readable then Saved(old(file), Created(old(file), id, code, now, ttl), io.write) else old(file)
      ensures r == if io.readable && io.write.Done? then Ok(NewChallenge(id, code, now, ttl)) else Err(FileError)
    {
      if !io.readable { return Err(FileError); }
      var state := file;
      var challenge := NewChallenge(id, code, now, ttl);
      state := state.(challenges := state.challenges + [challenge]);
      state := Prune(state, now);
      file := Saved(file, state, io.write);
      return if io.write.Done? then Ok(challenge) else Err(FileError);
    }

    /** A device presents `code`. `request` and `id` are the random draws, used only where one is needed. */
    method Present(code: string, fingerprint: string, name: string, registry: Registry, protocol: string, now: U64,
                   request: string, id: string, io: PresentIo)
      returns (r: Result<Presented, Refusal>)
      modifies this, registry
      ensures (file, registry.devices, r)
              == PresentedWhole(old(file), old(registry.devices), code, fingerprint, name, protocol, now, request, id, io)
    {
      if !io.readable { return Err(Unavailable); }
      var state := file;
      var found := First(state.challenges, HasHash(Sha256(code)));
      if found.None? { return Err(Unknown); }
      var at := found.value;
      var challenge := state.challenges[at];
      var known := First(state.candidates, HasKey(challenge.id, fingerprint));
      if known.None? {
        r := EnlistCandidate(state, challenge, fingerprint, name, now, request, io.first);
        return;
      }
      var index := known.value;
      var candidate := state.candidates[index];
      match candidate.status {
        case Denied => return Err(WasDenied);
        case Superseded => return Err(Used);
        case Finalized =>
          var live := registry.Authorize(fingerprint, io.registry.readable);
          if live == Err(UnreadableRegistry) { return Err(Unavailable); }
          return if live.Ok? && Some(live.value.id) == candidate.device then Ok(Paired(live.value)) else Err(Used);
        case Pending =>
          if now >= candidate.expires { return Err(Expired); }
          if challenge.consumedAt.Some? || challenge.approved.Some? { return Err(Used); }
          return Ok(Waiting(candidate));
        case Approved =>
          if challenge.approved != Some(candidate.request)
             || (challenge.consumedBy.Some? && challenge.consumedBy.value != fingerprint) {
            return Err(Used);
          }
          if now >= candidate.expires && candidate.device.None? { return Err(Expired); }
          var reserved;
          if candidate.device.Some? {
            reserved := candidate.device.value;
          } else {
            reserved := id;
            state := Reserved(state, index, id);
            file := Saved(file, state, io.first);
            if !io.first.Done? { return Err(Unavailable); }
          }
          var enrolled := registry.Enroll(reserved, candidate.name, fingerprint, protocol, now, io.registry);
          if enrolled.Err? { return Err(Unavailable); }
          SpendCode(state, at, index, fingerprint, now, io.last);
          return if io.last.Done? then Ok(Paired(enrolled.value)) else Err(Unavailable);
      }
    }

    /** Add the candidate of a key that has not asked at this code before. */
    method EnlistCandidate(state: State, challenge: Challenge, fingerprint: string, name: string, now: U64,
                           request: string, write: Write)
      returns (r: Result<Presented, Refusal>)
      modifies this
      ensures match Enlisted(state, challenge, fingerprint, name, now, request)
              case Err(why) => r == Err(why) && file == old(file)
              case Ok((after, candidate)) =>
                file == Saved(old(file), after, write)
                && r == if write.Done? then Ok(Waiting(candidate)) else Err(Unavailable)
    {
      if challenge.consumedAt.Some? || challenge.approved.Some? { return Err(Used); }
      if now >= challenge.expires { return Err(Expired); }
      if Count(state.candidates, IsWaitingFor(challenge.id, now)) >= MAX_PENDING_PER_CHALLENGE
         || Count(state.candidates, RecordedFor(challenge.id)) >= MAX_CANDIDATES_PER_CHALLENGE
         || Count(state.candidates, IsWaiting(now)) >= MAX_PENDING {
        return Err(Busy);
      }
      var candidate := NewCandidate(challenge, request, fingerprint, name, now);
      var after := Prune(state.(candidates := state.candidates + [candidate]), now);
      file := Saved(file, after, write);
      return if write.Done? then Ok(Waiting(candidate)) else Err(Unavailable);
    }

    /** Third step of finalizing: one candidate is finalized, the code is used up, and open rivals are superseded. */
    method SpendCode(state: State, at: nat, index: nat, fingerprint: string, now: U64, write: Write)
      requires at < |state.challenges| && index < |state.candidates|
      modifies this
      ensures file == Saved(old(file), Spent(state, at, index, fingerprint, now), write)
    {
      var candidates := state.candidates;
      candidates := candidates[index := candidates[index].(status := Finalized, decidedAt := Some(now))];
      var challenges := state.challenges;
      challenges := challenges[at := challenges[at].(consumedAt := Some(now), consumedBy := Some(fingerprint))];
      var spent := challenges[at].id;
      ghost var before := candidates;
      for i := 0 to |candidates|
        invariant |candidates| == |before|
        invariant forall k | 0 <= k < i :: candidates[k] == SupersedeOpen(spent, now)(before[k])
        invariant forall k | i <= k < |candidates| :: candidates[k] == before[k]
      {
        var other := candidates[i];
        if other.challenge == spent && (other.status == Pending || other.status == Approved) {
          candidates := candidates[i := other.(status := Superseded, decidedAt := Some(now))];
        }
      }
      assert candidates == MapSeq(before, SupersedeOpen(spent, now));
      var after := Prune(State(challenges, candidates), now);
      file := Saved(file, after, write);
    }

    method Approve(request: string, now: U64, io: Io) returns (r: Result<Candidate, DecisionError>)
      modifies this
      ensures !io.readable ==> r == Err(FileError) && file == old(file)
      ensures io.readable ==>
                match ApprovedOne(old(file), request, now)
                case Err(why) => r == Err(why) && file == old(file)
                case Ok((after, candidate)) =>
                  file == Saved(old(file), Pruned(after, now), io.write)
                  && r == if io.write.Done? then Ok(candidate) else Err(FileError)
    {
      if !io.readable { return Err(FileError); }
      var state := file;
      var found := First(state.candidates, HasRequest(request));
      if found.None? { return Err(NoRequest); }
      var index := found.value;
      var candidate := state.candidates[index];
      match candidate.status {
        case Pending =>
        case Approved => return Err(AlreadyApproved);
        case Denied => return Err(AlreadyDenied);
        case Finalized => return Err(AlreadyPaired);
        case Superseded => return Err(Taken);
      }
      if now >= candidate.expires { return Err(RequestExpired); }
      var place := First(state.challenges, HasChallengeId(candidate.challenge));
      if place.None? { return Err(NoChallenge); }
      var challenge := state.challenges[place.value];
      if challenge.consumedAt.Some? || challenge.approved.Some? { return Err(Taken); }
      var challenges := state.challenges[place.value := challenge.(approved := Some(candidate.request))];
      var candidates := Decide(state.candidates, candidate.challenge, candidate.request, now);
      state := Prune(State(challenges, candidates), now);
      file := Saved(file, state, io.write);
      return if io.write.Done? then Ok(candidates[index]) else Err(FileError);
    }

    method Deny(request: string, now: U64, io: Io) returns (r: Result<Candidate, DecisionError>)
      modifies this
      ensures !io.readable ==> r == Err(FileError) && file == old(file)
      ensures io.readable ==>
                match DeniedOne(old(file), request, now)
                case Err(why) => r == Err(why) && file == old(file)
                case Ok((after, candidate)) =>
                  file == Saved(old(file), Pruned(after, now), io.write)
                  && r == if io.write.Done? then Ok(candidate) else Err(FileError)
    {
      if !io.readable { return Err(FileError); }
      var state := file;
      var found := First(state.candidates, HasRequest(request));
      if found.None? { return Err(NoRequest); }
      var candidate := state.candidates[found.value];
      match candidate.status {
        case Pending =>
        case Approved => if candidate.device.Some? { return Err(AlreadyPaired); }
        case Finalized => return Err(AlreadyPaired);
        case Denied => return Err(AlreadyDenied);
        case Superseded => return Err(Taken);
      }
      if now >= candidate.expires { return Err(RequestExpired); }
      candidate := candidate.(status := Status.Denied, decidedAt := Some(now));
      state := state.(candidates := state.candidates[found.value := candidate]);
      state := Prune(state, now);
      file := Saved(file, state, io.write);
      return if io.write.Done? then Ok(candidate) else Err(FileError);
    }
  }
}

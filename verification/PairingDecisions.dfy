/** What the person's decisions, a trusted key and the passing of time make of the files, told entry by entry. */
module PairingDecisions {
  import opened Base
  import opened Devices
  import opened Pairing
  import opened PairingProtocol
  import opened PairingInvariant
  import opened PairingTheorems

  // ------------------------------------------------------------------ decisions

  /** Approving a request: it is approved, those waiting beside it are superseded, and its code is spoken for. */
  ghost predicate ApprovedFrom(s: State, after: State, c: Candidate, now: U64) {
    && |after.candidates| == |s.candidates| && |after.challenges| == |s.challenges|
    && (forall i | 0 <= i < |s.candidates| ::
      var x := s.candidates[i];
      after.candidates[i] ==
        if x == c then Candidate(x.request, x.challenge, x.fingerprint, x.name, x.created, x.expires, Approved, Some(now), x.device)
        else if x.challenge == c.challenge && x.status == Pending then
          Candidate(x.request, x.challenge, x.fingerprint, x.name, x.created, x.expires, Superseded, Some(now), x.device)
        else x)
    && forall i | 0 <= i < |s.challenges| ::
      var x := s.challenges[i];
      after.challenges[i] ==
        if x.id == c.challenge then Challenge(x.id, x.hash, x.created, x.expires, x.consumedAt, x.consumedBy, Some(c.request)) else x
  }

  /** Denying a request changes nothing but that request. */
  ghost predicate DeniedFrom(s: State, after: State, c: Candidate, now: U64) {
    && after.challenges == s.challenges && |after.candidates| == |s.candidates|
    && forall i | 0 <= i < |s.candidates| ::
      var x := s.candidates[i];
      after.candidates[i] ==
        if x == c then Candidate(x.request, x.challenge, x.fingerprint, x.name, x.created, x.expires, Denied, Some(now), x.device) else x
  }

  lemma NoSuchRequest(s: State, request: string)
    ensures First(s.candidates, HasRequest(request)).None? <==> forall c | c in s.candidates :: c.request != request
  {
    var found := First(s.candidates, HasRequest(request));
    if found.None? {
      assert forall c | c in s.candidates :: !HasRequest(request)(c);
    }
  }

  lemma Apart<T>(s: seq<T>, r: (T, T) -> bool, i: nat, j: nat)
    requires Pairwise(s, r)
    ensures i < j < |s| ==> r(s[i], s[j])
  {
  }

  lemma OneOfRequest(s: State, i: nat, j: nat)
    requires StateOk(s) && i < |s.candidates| && j < |s.candidates| && s.candidates[i].request == s.candidates[j].request
    ensures i == j
  {
    Apart(s.candidates, DistinctCandidates, i, j);
    Apart(s.candidates, DistinctCandidates, j, i);
  }

  lemma OneOfId(s: State, i: nat, j: nat)
    requires StateOk(s) && i < |s.challenges| && j < |s.challenges| && s.challenges[i].id == s.challenges[j].id
    ensures i == j
  {
    Apart(s.challenges, DistinctChallenges, i, j);
    Apart(s.challenges, DistinctChallenges, j, i);
  }

  /** What approving a request is answered, and what it does. */
  lemma ApprovedIs(s: State, c: Candidate, now: U64)
    requires StateOk(s) && c in s.candidates
    ensures var r := ApprovedOne(s, c.request, now);
      match c.status
      case Pending =>
        if now < c.expires then
          && r.Ok? && ApprovedFrom(s, r.value.0, c, now)
          && r.value.1 == Candidate(c.request, c.challenge, c.fingerprint, c.name, c.created, c.expires, Approved, Some(now), c.device)
        else r == Err(RequestExpired)
      case Approved => r == Err(AlreadyApproved)
      case Denied => r == Err(AlreadyDenied)
      case Finalized => r == Err(AlreadyPaired)
      case Superseded => r == Err(Taken)
  {
    CandidateIsFound(s, c);
    if c.status == Pending && now < c.expires {
      PendingCanBeApproved(s, c, now);
      ApprovalIs(s, c, now);
    }
  }

  lemma ApprovalIs(s: State, c: Candidate, now: U64)
    requires StateOk(s) && c in s.candidates && ApprovedOne(s, c.request, now).Ok?
    requires First(s.candidates, HasRequest(c.request)).Some? && s.candidates[First(s.candidates, HasRequest(c.request)).value] == c
    ensures ApprovedFrom(s, ApprovedOne(s, c.request, now).value.0, c, now)
  {
    var index := First(s.candidates, HasRequest(c.request)).value;
    var at := First(s.challenges, HasChallengeId(c.challenge)).value;
    forall i | 0 <= i < |s.candidates| && s.candidates[i].request == c.request
      ensures i == index
    {
      OneOfRequest(s, i, index);
    }
    forall i | 0 <= i < |s.challenges| && s.challenges[i].id == c.challenge
      ensures i == at
    {
      OneOfId(s, i, at);
    }
  }

  /** What denying a request is answered, and what it does: an approved one can still be denied until its id is reserved. */
  lemma DeniedIs(s: State, c: Candidate, now: U64)
    requires StateOk(s) && c in s.candidates
    ensures var r := DeniedOne(s, c.request, now);
      if c.status == Finalized || (c.status == Approved && c.device.Some?) then r == Err(AlreadyPaired)
      else if c.status == Denied then r == Err(AlreadyDenied)
      else if c.status == Superseded then r == Err(Taken)
      else if c.expires <= now then r == Err(RequestExpired)
      else
        && r.Ok? && DeniedFrom(s, r.value.0, c, now)
        && r.value.1 == Candidate(c.request, c.challenge, c.fingerprint, c.name, c.created, c.expires, Denied, Some(now), c.device)
  {
    CandidateIsFound(s, c);
    var index := First(s.candidates, HasRequest(c.request)).value;
    forall i | 0 <= i < |s.candidates| && s.candidates[i] == c
      ensures i == index
    {
      OneOfRequest(s, i, index);
    }
  }

  /** After any run: a decision on no request is refused as such, and on a request as its status and time say. */
  lemma {:induction false} DecidedExactly(run: seq<Event>, request: string, now: U64)
    requires Possible(START, run)
    ensures var s := After(START, run).state;
      var approval, denial := ApprovedOne(s, request, now), DeniedOne(s, request, now);
      && (approval == Err(NoRequest) <==> forall c | c in s.candidates :: c.request != request)
      && (denial == Err(NoRequest) <==> forall c | c in s.candidates :: c.request != request)
      && (approval.Ok? <==> exists c :: c in s.candidates && c.request == request && c.status == Pending && now < c.expires)
      && (denial.Ok? <==>
            exists c :: c in s.candidates && c.request == request && now < c.expires
                        && (c.status == Pending || (c.status == Approved && c.device.None?)))
  {
    StartHolds();
    RunKeeps(START, run);
    var s := After(START, run).state;
    NoSuchRequest(s, request);
    if First(s.candidates, HasRequest(request)).Some? {
      var c := s.candidates[First(s.candidates, HasRequest(request)).value];
      assert c in s.candidates && c.request == request;
      ApprovedIs(s, c, now);
      DeniedIs(s, c, now);
      forall other | other in s.candidates && other.request == request
        ensures other == c
      {
        CandidateIsFound(s, other);
      }
    }
  }

  // ------------------------------------------------------------------ a key becomes trusted

  /** Trusting a key: its record as new, and every live record it had is revoked. */
  predicate EnrolledFrom(devices: seq<Device>, list: seq<Device>, device: Device, now: U64) {
    && |list| == |devices| + 1 && list[|devices|] == device
    && forall i | 0 <= i < |devices| ::
      var x := devices[i];
      list[i] ==
        if x.fingerprint == device.fingerprint && x.revokedAt.None? then
          Device(x.id, x.name, x.fingerprint, x.pairedAt, x.lastSeen, x.protocol, Some(now))
        else x
  }

  /** The record is live, of this key and under this id. */
  predicate IsMine(d: Device, id: string, fingerprint: string) {
    d.id == id && d.fingerprint == fingerprint && d.revokedAt.None?
  }

  lemma {:induction false} MineIsFound(devices: seq<Device>, id: string, fingerprint: string)
    ensures var i := First(devices, IsRecord(id, fingerprint));
      if i.Some? then devices[i.value] in devices && IsMine(devices[i.value], id, fingerprint)
      else forall d | d in devices :: !IsMine(d, id, fingerprint)
  {
    var i := First(devices, IsRecord(id, fingerprint));
    if i.None? {
      assert forall d | d in devices :: !IsRecord(id, fingerprint)(d);
    }
  }

  /** A live record of the key under the id is kept; otherwise the id must be new. */
  lemma EnrolledIs(devices: seq<Device>, id: string, name: string, fingerprint: string, protocol: string, now: U64)
    ensures var r := Enrolled(devices, id, name, fingerprint, protocol, now);
      if exists d :: d in devices && IsMine(d, id, fingerprint) then
        r.Ok? && r.value.0 == devices && r.value.1 in devices && IsMine(r.value.1, id, fingerprint)
      else if exists d :: d in devices && d.id == id then r == Err(IdTaken)
      else
        && r.Ok? && r.value.1 == Device(id, CleanName(name), fingerprint, now, Some(now), protocol, None)
        && EnrolledFrom(devices, r.value.0, r.value.1, now)
  {
    MineIsFound(devices, id, fingerprint);
    FirstOfId(devices, id);
  }

  // ------------------------------------------------------------------ the code is spent

  /** Spending a code: its request is finalized, the open ones beside it are superseded, and the code is used by that key. */
  ghost predicate SpentFrom(s: State, after: State, at: nat, index: nat, now: U64)
    requires at < |s.challenges| && index < |s.candidates|
  {
    var ch, c := s.challenges[at], s.candidates[index];
    && after.challenges == s.challenges[at := Challenge(ch.id, ch.hash, ch.created, ch.expires, Some(now), Some(c.fingerprint), ch.approved)]
    && |after.candidates| == |s.candidates|
    && forall i | 0 <= i < |s.candidates| ::
      var x := s.candidates[i];
      after.candidates[i] ==
        if i == index then Candidate(x.request, x.challenge, x.fingerprint, x.name, x.created, x.expires, Finalized, Some(now), x.device)
        else if x.challenge == ch.id && (x.status == Pending || x.status == Approved) then
          Candidate(x.request, x.challenge, x.fingerprint, x.name, x.created, x.expires, Superseded, Some(now), x.device)
        else x
  }

  lemma SpentIs(s: State, at: nat, index: nat, now: U64) returns (after: State)
    requires at < |s.challenges| && index < |s.candidates|
    ensures SpentFrom(s, after, at, index, now) && Spent(s, at, index, s.candidates[index].fingerprint, now) == Pruned(after, now)
  {
    var entry := s.candidates[index].(status := Finalized, decidedAt := Some(now));
    after := State(
      s.challenges[at := Consumed(s.challenges[at], s.candidates[index].fingerprint, now)],
      MapSeq(s.candidates[index := entry], SupersedeOpen(s.challenges[at].id, now)));
  }

  // ------------------------------------------------------------------ time passes

  /** A day after it expired a code is forgotten, unless that is beyond the end of time. */
  predicate Remembered(ch: Challenge, now: U64) {
    if ch.expires + 86_400 <= U64_MAX then now < ch.expires + 86_400 else now < U64_MAX
  }

  /** A request is forgotten with its code, and before that once it expires without a device. */
  predicate RemembersRequest(s: State, c: Candidate, now: U64) {
    && (exists ch :: ch in s.challenges && ch.id == c.challenge && Remembered(ch, now))
    && (now < c.expires || c.status == Finalized || c.device.Some?)
  }

  lemma PrunedIs(s: State, now: U64)
    ensures forall ch :: ch in Pruned(s, now).challenges <==> ch in s.challenges && Remembered(ch, now)
    ensures forall c :: c in Pruned(s, now).candidates <==> c in s.candidates && RemembersRequest(s, c, now)
  {
    var challenges := Filter(s.challenges, ChallengeKept(now));
    assert forall ch :: ch in challenges <==> ch in s.challenges && Remembered(ch, now);
    forall c
      ensures c in Pruned(s, now).candidates <==> c in s.candidates && RemembersRequest(s, c, now)
    {
      var found := First(challenges, HasChallengeId(c.challenge));
      if found.None? {
        assert forall ch | ch in challenges :: !HasChallengeId(c.challenge)(ch);
      } else {
        assert challenges[found.value] in challenges;
      }
    }
  }
}

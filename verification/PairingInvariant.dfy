/** Every step of the pairing protocol keeps its invariant. */
module PairingInvariant {
  import opened Base
  import opened Devices
  import opened Pairing
  import opened PairingProtocol

  // ----- Different positions ---------------------------------------------------

  lemma ChallengesApart(s: seq<Challenge>, i: nat, j: nat)
    requires Pairwise(s, DistinctChallenges) && i < |s| && j < |s|
    ensures i == j || DistinctChallenges(s[i], s[j])
  {
    assert i < j ==> DistinctChallenges(s[i], s[j]);
    assert j < i ==> DistinctChallenges(s[j], s[i]);
  }

  lemma CandidatesApart(s: seq<Candidate>, i: nat, j: nat)
    requires Pairwise(s, DistinctCandidates) && i < |s| && j < |s|
    ensures i == j || DistinctCandidates(s[i], s[j])
  {
    assert i < j ==> DistinctCandidates(s[i], s[j]);
    assert j < i ==> DistinctCandidates(s[j], s[i]);
  }

  lemma DevicesApart(s: seq<Device>, i: nat, j: nat)
    requires Pairwise(s, DistinctDevices) && i < |s| && j < |s|
    ensures i == j || DistinctDevices(s[i], s[j])
  {
    assert i < j ==> DistinctDevices(s[i], s[j]);
    assert j < i ==> DistinctDevices(s[j], s[i]);
  }

  lemma PruneKeepsCore(s: State, now: U64, devices: seq<Device>, h: History)
    requires Core(s, devices, h)
    ensures Core(Pruned(s, now), devices, h)
  {
    PruneKeepsState(s, now);
  }

  lemma PruneKeepsState(s: State, now: U64)
    requires StateOk(s)
    ensures StateOk(Pruned(s, now))
  {
    var t := Pruned(s, now);
    FilterPairwise(s.challenges, ChallengeKept(now), DistinctChallenges);
    FilterPairwise(s.candidates, CandidateKept(t.challenges, now), DistinctCandidates);
    forall c | c in t.candidates
      ensures exists ch :: ch in t.challenges && ch.id == c.challenge
    {
      var i := First(t.challenges, HasChallengeId(c.challenge)).value;
      assert t.challenges[i] in t.challenges;
    }
  }

  lemma PruneKeepsBounds(s: State, now: U64)
    requires BoundsOk(s)
    ensures BoundsOk(Pruned(s, now))
  {
    var kept := CandidateKept(Pruned(s, now).challenges, now);
    CountFilter(s.candidates, kept, IsPending(), IsPending());
    forall id
      ensures Count(Pruned(s, now).candidates, IsPendingFor(id)) <= MAX_PENDING_PER_CHALLENGE
      ensures Count(Pruned(s, now).candidates, RecordedFor(id)) <= MAX_CANDIDATES_PER_CHALLENGE
    {
      CountFilter(s.candidates, kept, IsPendingFor(id), IsPendingFor(id));
      CountFilter(s.candidates, kept, RecordedFor(id), RecordedFor(id));
    }
  }

  /** Deciding candidates one way or another, without moving them, never adds a waiting one. */
  lemma DecidingKeepsBounds(s: State, t: State, f: Candidate -> Candidate)
    requires BoundsOk(s) && t.candidates == MapSeq(s.candidates, f)
    requires forall c | c in s.candidates :: f(c).challenge == c.challenge && (f(c).status == Pending ==> c.status == Pending)
    ensures BoundsOk(t)
  {
    CountMap(s.candidates, f, IsPending());
    forall id
      ensures Count(t.candidates, IsPendingFor(id)) <= MAX_PENDING_PER_CHALLENGE
      ensures Count(t.candidates, RecordedFor(id)) <= MAX_CANDIDATES_PER_CHALLENGE
    {
      CountMap(s.candidates, f, IsPendingFor(id));
      CountMap(s.candidates, f, RecordedFor(id));
    }
  }

  // ----- Issue ---------------------------------------------------------------

  lemma IssueKeeps(sys: System, event: Event)
    requires Inv(sys) && event.Issue? && Allowed(sys, event)
    ensures Inv(Next(sys, event))
  {
    var s, h := sys.state, Next(sys, event).history;
    var ch := NewChallenge(event.id, event.code, event.now, event.ttl);
    var t := s.(challenges := s.challenges + [ch]);
    assert Core(s, sys.devices, h);
    IssueKeepsCore(s, sys.devices, h, ch);
    PruneKeepsCore(t, event.now, sys.devices, h);
    PruneKeepsBounds(t, event.now);
    WrittenKeeps(sys, Next(sys, event).state, h);
  }

  lemma IssueKeepsCore(s: State, devices: seq<Device>, h: History, ch: Challenge)
    requires Core(s, devices, h) && ch.approved.None? && ch.consumedAt.None? && ch.consumedBy.None?
    requires ch.id in h.challengeIds && ch.hash.code in h.codes
    requires forall x | x in s.challenges :: x.id != ch.id && x.hash != ch.hash
    requires forall c | c in s.candidates :: c.challenge != ch.id
    requires forall a | a in h.approvals :: a.challenge != ch.id
    ensures Core(s.(challenges := s.challenges + [ch]), devices, h)
  {
    var t := s.(challenges := s.challenges + [ch]);
    assert forall x | x in t.challenges :: x in s.challenges || x == ch;
    assert forall x | x in s.challenges :: x in t.challenges;
  }

  // ----- Ask -----------------------------------------------------------------

  lemma EnlistKeepsState(s: State, at: nat, c: Candidate)
    requires StateOk(s) && at < |s.challenges|
    requires c.challenge == s.challenges[at].id && c.expires == s.challenges[at].expires
    requires c.status == Pending && c.device.None?
    requires s.challenges[at].approved.None? && s.challenges[at].consumedAt.None?
    requires forall x | x in s.candidates :: x.request != c.request && !HasKey(c.challenge, c.fingerprint)(x)
    ensures StateOk(s.(candidates := s.candidates + [c]))
  {
    var t := s.(candidates := s.candidates + [c]);
    assert forall x | x in t.candidates :: x in s.candidates || x == c;
    assert s.challenges[at] in s.challenges;
    forall ch | ch in s.challenges && ch.id == c.challenge
      ensures Fits(ch, c)
    {
      var k :| 0 <= k < |s.challenges| && s.challenges[k] == ch;
      ChallengesApart(s.challenges, k, at);
    }
    forall i | 0 <= i < |s.candidates|
      ensures DistinctCandidates(s.candidates[i], c)
    {
      assert s.candidates[i] in s.candidates;
    }
    PushPairwise(s.candidates, c, DistinctCandidates);
  }

  lemma EnlistKeepsCore(s: State, devices: seq<Device>, h: History, at: nat, c: Candidate)
    requires Core(s, devices, h) && at < |s.challenges|
    requires c.challenge == s.challenges[at].id && c.expires == s.challenges[at].expires
    requires c.status == Pending && c.device.None?
    requires s.challenges[at].approved.None? && s.challenges[at].consumedAt.None?
    requires forall x | x in s.candidates :: x.request != c.request && !HasKey(c.challenge, c.fingerprint)(x)
    requires c.request in h.requests && forall a | a in h.approvals :: a.request != c.request
    ensures Core(s.(candidates := s.candidates + [c]), devices, h)
  {
    var t := s.(candidates := s.candidates + [c]);
    assert forall x | x in t.candidates :: x in s.candidates || x == c;
    EnlistKeepsState(s, at, c);
    forall e | e in h.enrolments
      ensures e.request != c.request
    {
      assert Approval(e.challenge, e.request, e.fingerprint) in h.approvals;
    }
  }

  /** Right after a request is recorded and the rest pruned, whoever is pending is waiting. */
  lemma EnlistBound(s: State, c: Candidate, now: U64, pending: Candidate -> bool, waiting: Candidate -> bool, limit: nat)
    requires forall x | x in s.candidates + [c] && pending(x) ::
      x.status == Pending && x.device.None? && (now < x.expires ==> waiting(x))
    requires Count(s.candidates, waiting) < limit
    ensures Count(Pruned(s.(candidates := s.candidates + [c]), now).candidates, pending) <= limit
  {
    var t := s.(candidates := s.candidates + [c]);
    var kept := CandidateKept(Pruned(t, now).challenges, now);
    CountPush(s.candidates, c, waiting);
    CountFilter(t.candidates, kept, pending, waiting);
  }

  lemma OthersBound(s: State, c: Candidate, now: U64, p: Candidate -> bool)
    ensures Count(Pruned(s.(candidates := s.candidates + [c]), now).candidates, p)
            <= Count(s.candidates, p) + if p(c) then 1 else 0
  {
    var t := s.(candidates := s.candidates + [c]);
    CountPush(s.candidates, c, p);
    CountFilter(t.candidates, CandidateKept(Pruned(t, now).challenges, now), p, p);
  }

  lemma EnlistKeepsBounds(s: State, c: Candidate, now: U64)
    requires BoundsOk(s) && c.status == Pending
    requires forall x | x in s.candidates && x.status == Pending :: x.device.None?
    requires c.device.None? && now < c.expires
    requires Count(s.candidates, IsWaitingFor(c.challenge, now)) < MAX_PENDING_PER_CHALLENGE
    requires Count(s.candidates, RecordedFor(c.challenge)) < MAX_CANDIDATES_PER_CHALLENGE
    requires Count(s.candidates, IsWaiting(now)) < MAX_PENDING
    ensures BoundsOk(Pruned(s.(candidates := s.candidates + [c]), now))
  {
    var t := Pruned(s.(candidates := s.candidates + [c]), now);
    EnlistBound(s, c, now, IsPending(), IsWaiting(now), MAX_PENDING);
    forall id
      ensures Count(t.candidates, IsPendingFor(id)) <= MAX_PENDING_PER_CHALLENGE
      ensures Count(t.candidates, RecordedFor(id)) <= MAX_CANDIDATES_PER_CHALLENGE
    {
      OthersBound(s, c, now, RecordedFor(id));
      if id == c.challenge {
        EnlistBound(s, c, now, IsPendingFor(id), IsWaitingFor(id, now), MAX_PENDING_PER_CHALLENGE);
      } else {
        OthersBound(s, c, now, IsPendingFor(id));
      }
    }
  }

  lemma ReserveKeepsApart(s: State, index: nat, id: string)
    requires Pairwise(s.candidates, DistinctCandidates) && index < |s.candidates|
    requires forall c | c in s.candidates :: c.device != Some(id)
    ensures Pairwise(Reserved(s, index, id).candidates, DistinctCandidates)
  {
    var t := Reserved(s, index, id);
    forall i, j | 0 <= i < j < |t.candidates|
      ensures DistinctCandidates(t.candidates[i], t.candidates[j])
    {
      assert DistinctCandidates(s.candidates[i], s.candidates[j]);
      assert s.candidates[i] in s.candidates && s.candidates[j] in s.candidates;
    }
  }

  lemma ReserveKeepsFits(s: State, index: nat, id: string, ch: Challenge, c: Candidate)
    requires index < |s.candidates| && s.candidates[index].status == Approved
    requires forall d | d in s.candidates && d.challenge == ch.id :: Fits(ch, d)
    requires c in Reserved(s, index, id).candidates && c.challenge == ch.id
    ensures Fits(ch, c)
  {
    var before := s.candidates[index];
    assert before in s.candidates;
    assert c in s.candidates || c == Reserved(s, index, id).candidates[index];
  }

  lemma ReserveKeepsState(s: State, index: nat, id: string)
    requires StateOk(s) && index < |s.candidates| && s.candidates[index].status == Approved
    requires forall c | c in s.candidates :: c.device != Some(id)
    ensures StateOk(Reserved(s, index, id))
  {
    var t := Reserved(s, index, id);
    ReserveKeepsApart(s, index, id);
    forall ch, c | ch in t.challenges && c in t.candidates && c.challenge == ch.id
      ensures Fits(ch, c)
    {
      ReserveKeepsFits(s, index, id, ch, c);
    }
    assert s.candidates[index] in s.candidates;
    assert forall c | c in t.candidates :: c in s.candidates || c == t.candidates[index];
  }

  lemma ReserveKeepsCore(s: State, devices: seq<Device>, h: History, index: nat, id: string)
    requires Core(s, devices, h) && index < |s.candidates|
    requires s.candidates[index].status == Approved && s.candidates[index].device.None?
    requires id in h.deviceIds
    requires forall c | c in s.candidates :: c.device != Some(id)
    requires forall d | d in devices :: d.id != id
    ensures Core(Reserved(s, index, id), devices, h)
  {
    var t := Reserved(s, index, id);
    var before, after := s.candidates[index], t.candidates[index];
    assert forall c | c in t.candidates :: c in s.candidates || c == after;
    assert before in s.candidates;
    forall e | e in h.enrolments
      ensures e.request != after.request && e.device != id
    {
      var i :| 0 <= i < |h.enrolments| && h.enrolments[i] == e;
      assert devices[i] in devices;
    }
    forall e, c | e in h.enrolments && c in t.candidates
      ensures e.request == c.request <==> c.device == Some(e.device)
    {
    }
    ReserveKeepsState(s, index, id);
  }

  lemma {:induction false} CountUpdate<T>(s: seq<T>, i: nat, x: T, p: T -> bool)
    requires i < |s| && (p(x) ==> p(s[i]))
    ensures Count(s[i := x], p) <= Count(s, p)
  {
    var init := s[..|s| - 1];
    if i == |s| - 1 {
      assert s[i := x][..i] == init;
    } else {
      CountUpdate(init, i, x, p);
      assert s[i := x][..|s| - 1] == init[i := x];
    }
  }

  lemma UpdateKeepsBounds(s: State, index: nat, c: Candidate)
    requires BoundsOk(s) && index < |s.candidates|
    requires c.challenge == s.candidates[index].challenge
    requires c.status == Pending ==> s.candidates[index].status == Pending
    ensures BoundsOk(s.(candidates := s.candidates[index := c]))
  {
    CountUpdate(s.candidates, index, c, IsPending());
    forall id
      ensures Count(s.candidates[index := c], IsPendingFor(id)) <= MAX_PENDING_PER_CHALLENGE
      ensures Count(s.candidates[index := c], RecordedFor(id)) <= MAX_CANDIDATES_PER_CHALLENGE
    {
      CountUpdate(s.candidates, index, c, IsPendingFor(id));
      CountUpdate(s.candidates, index, c, RecordedFor(id));
    }
  }

  /** The history once `request` and `id` are drawn. */
  function Drawn(h: History, request: string, id: string): History {
    h.(requests := h.requests + {request}, deviceIds := h.deviceIds + {id})
  }

  /** Fresh draws name nothing yet, and drawing them changes nothing else. */
  lemma DrawKeepsCore(s: State, devices: seq<Device>, h: History, request: string, id: string)
    requires Core(s, devices, h) && request !in h.requests && id !in h.deviceIds
    ensures Core(s, devices, Drawn(h, request, id))
    ensures forall c | c in s.candidates :: c.request != request && c.device != Some(id)
    ensures forall d | d in devices :: d.id != id
    ensures forall a | a in h.approvals :: a.request != request
  {
  }

  lemma EnlistKeeps(s: State, devices: seq<Device>, h: History, at: nat, fingerprint: string, name: string, now: U64,
                    request: string)
    requires Core(s, devices, h) && BoundsOk(s) && at < |s.challenges|
    requires forall c | c in s.candidates :: !HasKey(s.challenges[at].id, fingerprint)(c)
    requires Enlisted(s, s.challenges[at], fingerprint, name, now, request).Ok?
    requires request in h.requests
    requires forall c | c in s.candidates :: c.request != request
    requires forall a | a in h.approvals :: a.request != request
    ensures var after := Enlisted(s, s.challenges[at], fingerprint, name, now, request).value.0;
            Core(after, devices, h) && BoundsOk(after)
  {
    var c := NewCandidate(s.challenges[at], request, fingerprint, name, now);
    assert s.challenges[at] in s.challenges;
    EnlistKeepsCore(s, devices, h, at, c);
    PruneKeepsCore(s.(candidates := s.candidates + [c]), now, devices, h);
    PendingHasNoDevice(s);
    EnlistKeepsBounds(s, c, now);
  }

  lemma PendingHasNoDevice(s: State)
    requires StateOk(s)
    ensures forall c | c in s.candidates && c.status == Pending :: c.device.None?
  {
    forall c | c in s.candidates && c.status == Pending
      ensures c.device.None?
    {
      var ch :| ch in s.challenges && ch.id == c.challenge;
      assert Fits(ch, c);
    }
  }

  lemma ReserveKeeps(s: State, devices: seq<Device>, h: History, at: nat, index: nat, id: string)
    requires Core(s, devices, h) && BoundsOk(s) && at < |s.challenges| && index < |s.candidates|
    requires s.challenges[at].id == s.candidates[index].challenge
    requires s.candidates[index].status == Approved && s.candidates[index].device.None?
    requires id in h.deviceIds
    requires forall c | c in s.candidates :: c.device != Some(id)
    requires forall d | d in devices :: d.id != id
    ensures var after := Reserved(s, index, id);
            Core(after, devices, h) && BoundsOk(after) && InFlight(after, at, index)
  {
    ReserveKeepsCore(s, devices, h, index, id);
    UpdateKeepsBounds(s, index, s.candidates[index].(device := Some(id)));
  }

  lemma AskFinishKeeps(sys: System, at: nat, index: nat, protocol: string, now: U64, id: string, write: Write)
    requires Core(sys.state, sys.devices, sys.history) && BoundsOk(sys.state) && sys.flight.Idle?
    requires at < |sys.state.challenges| && index < |sys.state.candidates|
    requires sys.state.challenges[at].id == sys.state.candidates[index].challenge
    requires sys.state.candidates[index].status == Approved
    requires id in sys.history.deviceIds
    requires forall c | c in sys.state.candidates :: c.device != Some(id)
    requires forall d | d in sys.devices :: d.id != id
    ensures Inv(AfterReserve(sys, at, index, protocol, now, id, write))
  {
    if sys.state.candidates[index].device.None? {
      ReserveKeeps(sys.state, sys.devices, sys.history, at, index, id);
    }
  }

  lemma AskEnlistKeeps(sys: System, event: Event)
    requires event.Ask? && sys.flight.Idle?
    requires Core(sys.state, sys.devices, Drawn(sys.history, event.request, event.id)) && BoundsOk(sys.state)
    requires forall c | c in sys.state.candidates :: c.request != event.request
    requires forall a | a in sys.history.approvals :: a.request != event.request
    requires Present(sys.state, event.code, event.fingerprint, event.name, event.now, event.request).Enlist?
    ensures Inv(AfterAsk(sys, event))
  {
    var s := sys.state;
    var at := First(s.challenges, HasHash(Sha256(event.code))).value;
    var h := Drawn(sys.history, event.request, event.id);
    EnlistKeeps(s, sys.devices, h, at, event.fingerprint, event.name, event.now, event.request);
    EnlistNext(sys, event);
    WrittenKeeps(sys, AfterAsk(sys, event).state, h);
  }

  lemma EnlistNext(sys: System, event: Event)
    requires event.Ask? && Present(sys.state, event.code, event.fingerprint, event.name, event.now, event.request).Enlist?
    ensures var after := Present(sys.state, event.code, event.fingerprint, event.name, event.now, event.request).after;
            AfterAsk(sys, event) == sys.(state := Saved(sys.state, after, event.write),
                                         history := Drawn(sys.history, event.request, event.id))
  {
  }

  /** What `present` knows of the challenge it records a new request for. */
  lemma EnlistFacts(s: State, code: string, fingerprint: string, name: string, now: U64, request: string)
    requires Present(s, code, fingerprint, name, now, request).Enlist?
    ensures var at := First(s.challenges, HasHash(Sha256(code)));
            && at.Some?
            && var ch := s.challenges[at.value];
               && ch.consumedAt.None? && ch.approved.None? && now < ch.expires
               && (forall c | c in s.candidates :: !HasKey(ch.id, fingerprint)(c))
               && Present(s, code, fingerprint, name, now, request).after
                  == Pruned(s.(candidates := s.candidates + [NewCandidate(ch, request, fingerprint, name, now)]), now)
  {
  }

  /** What `present` knows of the candidate it is about to finish. */
  lemma FinishFacts(s: State, code: string, fingerprint: string, name: string, now: U64, request: string)
    requires Present(s, code, fingerprint, name, now, request).Finish?
    ensures var p := Present(s, code, fingerprint, name, now, request);
            && s.challenges[p.at].id == s.candidates[p.index].challenge
            && s.challenges[p.at].hash == Sha256(code)
            && s.candidates[p.index].fingerprint == fingerprint
            && s.candidates[p.index].status == Approved
  {
  }

  lemma AskKeeps(sys: System, event: Event)
    requires Inv(sys) && event.Ask? && Allowed(sys, event)
    ensures Inv(Next(sys, event))
  {
    var s, h := sys.state, Drawn(sys.history, event.request, event.id);
    DrawKeepsCore(s, sys.devices, sys.history, event.request, event.id);
    var p := Present(s, event.code, event.fingerprint, event.name, event.now, event.request);
    if p.Enlist? {
      AskEnlistKeeps(sys, event);
    } else if p.Finish? {
      FinishFacts(s, event.code, event.fingerprint, event.name, event.now, event.request);
      AskFinishKeeps(sys.(history := h), p.at, p.index, event.protocol, event.now, event.id, event.write);
      assert Next(sys, event)
             == AfterReserve(sys.(history := h), p.at, p.index, event.protocol, event.now, event.id, event.write);
    } else {
      assert Next(sys, event) == sys.(history := h);
    }
  }

  // ----- Enroll and Spend ----------------------------------------------------

  /** An approved candidate's challenge has no record yet unless it is the candidate's own. */
  lemma NoOtherRecord(sys: System, c: Candidate, e: Enrolment)
    requires Inv(sys) && c in sys.state.candidates && c.status == Approved
    requires e in sys.history.enrolments && e.challenge == c.challenge
    ensures e.request == c.request && c.device == Some(e.device)
  {
    var ch :| ch in sys.state.challenges && ch.id == c.challenge;
    assert Fits(ch, c);
    var a := Approval(e.challenge, e.request, e.fingerprint);
    assert a in sys.history.approvals && ch.approved == Some(a.request);
  }

  lemma ApprovalOf(sys: System, c: Candidate)
    requires Inv(sys) && c in sys.state.candidates && (c.status == Approved || c.status == Finalized)
    ensures Approval(c.challenge, c.request, c.fingerprint) in sys.history.approvals
  {
    var ch :| ch in sys.state.challenges && ch.id == c.challenge;
    assert Fits(ch, c);
    var a :| a in sys.history.approvals && a.challenge == ch.id && a.request == c.request;
    assert a.fingerprint == c.fingerprint;
  }

  /** The first record of an approved candidate: the registry takes it, and it is the challenge's only one. */
  lemma RecordKeepsRegistry(s: State, devices: seq<Device>, h: History, e: Enrolment, device: Device, now: U64)
    requires RegistryOk(s, devices, h)
    requires Approval(e.challenge, e.request, e.fingerprint) in h.approvals
    requires e.device == device.id && e.fingerprint == device.fingerprint
    requires forall x | x in h.enrolments :: x.challenge != e.challenge
    requires forall d | d in devices :: d.id != device.id
    requires forall c | c in s.candidates :: e.request == c.request <==> c.device == Some(e.device)
    ensures RegistryOk(s, MapSeq(devices, RevokeLive(device.fingerprint, now)) + [device],
                       h.(enrolments := h.enrolments + [e]))
  {
    var mapped := MapSeq(devices, RevokeLive(device.fingerprint, now));
    RecordKeepsDistinct(devices, device, now);
    PushPairwise(h.enrolments, e, DistinctEnrolments);
    var es := h.enrolments + [e];
    assert forall x | x in es :: x in h.enrolments || x == e;
    forall c | c in s.candidates && c.status == Finalized
      ensures exists x :: x in es && x.request == c.request
    {
      var x :| x in h.enrolments && x.request == c.request;
      assert x in es;
    }
  }

  /** A new live record revokes the older live one of the same key. */
  lemma RecordKeepsDistinct(devices: seq<Device>, device: Device, now: U64)
    requires Pairwise(devices, DistinctDevices) && forall d | d in devices :: d.id != device.id
    ensures Pairwise(MapSeq(devices, RevokeLive(device.fingerprint, now)) + [device], DistinctDevices)
  {
    var mapped := MapSeq(devices, RevokeLive(device.fingerprint, now));
    forall i, j | 0 <= i < j < |mapped|
      ensures DistinctDevices(mapped[i], mapped[j])
    {
      assert DistinctDevices(devices[i], devices[j]);
    }
    forall i | 0 <= i < |mapped|
      ensures DistinctDevices(mapped[i], device)
    {
      assert devices[i] in devices;
    }
    PushPairwise(mapped, device, DistinctDevices);
  }

  lemma RecordKeepsDraws(s: State, devices: seq<Device>, h: History, e: Enrolment, device: Device, now: U64)
    requires DrawsOk(s, devices, h) && device.id in h.deviceIds
    ensures DrawsOk(s, MapSeq(devices, RevokeLive(device.fingerprint, now)) + [device],
                    h.(enrolments := h.enrolments + [e]))
  {
    var mapped := MapSeq(devices, RevokeLive(device.fingerprint, now));
    forall d | d in mapped + [device]
      ensures d.id in h.deviceIds
    {
      if d in mapped {
        var i :| 0 <= i < |mapped| && mapped[i] == d;
        assert devices[i] in devices;
      }
    }
  }

  lemma RecordKeepsCore(sys: System, index: nat, device: Device, now: U64)
    requires Inv(sys) && index < |sys.state.candidates|
    requires var c := sys.state.candidates[index];
             && c.status == Approved && c.device == Some(device.id)
             && device.fingerprint == c.fingerprint
    requires forall d | d in sys.devices :: d.id != device.id
    ensures var c, h := sys.state.candidates[index], sys.history;
            Core(sys.state, MapSeq(sys.devices, RevokeLive(device.fingerprint, now)) + [device],
                 h.(enrolments := h.enrolments + [Enrolment(c.challenge, c.request, c.fingerprint, device.id)]))
  {
    var c, h := sys.state.candidates[index], sys.history;
    var e := Enrolment(c.challenge, c.request, c.fingerprint, device.id);
    ApprovalOf(sys, c);
    forall i | 0 <= i < |h.enrolments|
      ensures h.enrolments[i].challenge != c.challenge
    {
      assert h.enrolments[i] in h.enrolments && sys.devices[i] in sys.devices;
      if h.enrolments[i].challenge == c.challenge {
        NoOtherRecord(sys, c, h.enrolments[i]);
      }
    }
    EnrolmentMatches(sys, index, e);
    RecordKeepsRegistry(sys.state, sys.devices, h, e, device, now);
    RecordKeepsDraws(sys.state, sys.devices, h, e, device, now);
  }

  lemma EnrolmentMatches(sys: System, index: nat, e: Enrolment)
    requires Inv(sys) && index < |sys.state.candidates| && sys.state.candidates[index].device == Some(e.device)
    requires sys.state.candidates[index].request == e.request
    ensures forall c | c in sys.state.candidates :: e.request == c.request <==> c.device == Some(e.device)
  {
    forall c | c in sys.state.candidates
      ensures e.request == c.request <==> c.device == Some(e.device)
    {
      var k :| 0 <= k < |sys.state.candidates| && sys.state.candidates[k] == c;
      CandidatesApart(sys.state.candidates, k, index);
    }
  }

  lemma NewRecordKeeps(sys: System, write: Write)
    requires Inv(sys) && Allowed(sys, Enroll(write)) && write != Failed(false)
    requires var c := sys.state.candidates[sys.flight.index];
             First(sys.devices, IsRecord(c.device.value, c.fingerprint)).None?
             && First(sys.devices, HasId(c.device.value)).None?
    ensures Inv(Next(sys, Enroll(write)))
  {
    var f, h := sys.flight, sys.history;
    var c := sys.state.candidates[f.index];
    var device := NewDevice(c.device.value, c.name, c.fingerprint, f.protocol, f.now);
    RecordKeepsCore(sys, f.index, device, f.now);
    var e := Enrolment(c.challenge, c.request, c.fingerprint, device.id);
    var next := Next(sys, Enroll(write));
    assert next.history == h.(enrolments := h.enrolments + [e]);
    assert next.devices == MapSeq(sys.devices, RevokeLive(device.fingerprint, f.now)) + [device];
    assert e in next.history.enrolments;
  }

  lemma EnrollKeeps(sys: System, event: Event)
    requires Inv(sys) && event.Enroll? && Allowed(sys, event)
    ensures Inv(Next(sys, event))
  {
    var c := sys.state.candidates[sys.flight.index];
    match First(sys.devices, IsRecord(c.device.value, c.fingerprint))
    case Some(i) =>
      var e := sys.history.enrolments[i];
      assert e in sys.history.enrolments && e.request == c.request;
      assert Next(sys, event).devices == sys.devices && Next(sys, event).history == sys.history;
    case None =>
      if First(sys.devices, HasId(c.device.value)).None? && event.write != Failed(false) {
        NewRecordKeeps(sys, event.write);
      }
  }

  lemma SpendNext(sys: System, event: Event)
    requires event.Spend? && Allowed(sys, event)
    ensures var f := sys.flight;
            Next(sys, event) == sys.(
              state := if event.write == Failed(false) then sys.state else Pruned(Settled(sys.state, f.at, f.index, f.now), f.now),
              flight := Idle)
  {
  }

  lemma SpendKeeps(sys: System, event: Event)
    requires Inv(sys) && event.Spend? && Allowed(sys, event)
    ensures Inv(Next(sys, event))
  {
    var f := sys.flight;
    SpendNext(sys, event);
    SettledKeeps(sys.state, sys.devices, sys.history, f.at, f.index, f.now);
    WrittenKeeps(sys.(flight := Idle), Next(sys, event).state, sys.history);
  }

  lemma SettledKeeps(s: State, devices: seq<Device>, h: History, at: nat, index: nat, now: U64)
    requires Core(s, devices, h) && BoundsOk(s) && InFlight(s, at, index)
    requires exists e :: e in h.enrolments && e.request == s.candidates[index].request
    ensures var t := Pruned(Settled(s, at, index, now), now); Core(t, devices, h) && BoundsOk(t)
  {
    var entry := s.candidates[index].(status := Finalized, decidedAt := Some(now));
    var u, t := s.(candidates := s.candidates[index := entry]), Settled(s, at, index, now);
    SpentKeepsCore(s, devices, h, at, index, now);
    UpdateKeepsBounds(s, index, entry);
    DecidingKeepsBounds(u, t, SupersedeOpen(s.challenges[at].id, now));
    PruneKeepsBounds(t, now);
    PruneKeepsCore(t, now, devices, h);
  }

  /** Step 3 of finalization before its pruning. */
  function Settled(s: State, at: nat, index: nat, now: U64): State
    requires at < |s.challenges| && index < |s.candidates|
  {
    var c := s.candidates[index];
    State(s.challenges[at := Consumed(s.challenges[at], c.fingerprint, now)],
          MapSeq(s.candidates[index := c.(status := Finalized, decidedAt := Some(now))],
                 SupersedeOpen(s.challenges[at].id, now)))
  }

  /** Same candidates and challenges, whatever was decided about them. */
  ghost predicate SameOnes(s: State, t: State) {
    && |t.challenges| == |s.challenges| && |t.candidates| == |s.candidates|
    && (forall j | 0 <= j < |s.challenges| ::
      && t.challenges[j].id == s.challenges[j].id
      && t.challenges[j].hash == s.challenges[j].hash)
    && (forall k | 0 <= k < |s.candidates| ::
      && t.candidates[k].request == s.candidates[k].request
      && t.candidates[k].challenge == s.candidates[k].challenge
      && t.candidates[k].fingerprint == s.candidates[k].fingerprint
      && t.candidates[k].device == s.candidates[k].device)
  }

  lemma SameOnesKeepState(s: State, t: State)
    requires StateOk(s) && SameOnes(s, t)
    requires forall ch | ch in t.challenges :: ch.consumedAt.Some? == ch.consumedBy.Some?
    requires forall j, k | 0 <= j < |t.challenges| && 0 <= k < |t.candidates| && t.candidates[k].challenge == t.challenges[j].id ::
      Fits(t.challenges[j], t.candidates[k])
    ensures StateOk(t)
  {
    forall c | c in t.candidates
      ensures exists x :: x in t.challenges && x.id == c.challenge
    {
      var k :| 0 <= k < |t.candidates| && t.candidates[k] == c;
      assert s.candidates[k] in s.candidates;
      var x :| x in s.challenges && x.id == c.challenge;
      var j :| 0 <= j < |s.challenges| && s.challenges[j] == x;
      assert t.challenges[j] in t.challenges;
    }
    forall i, j | 0 <= i < j < |t.candidates|
      ensures DistinctCandidates(t.candidates[i], t.candidates[j])
    {
      assert DistinctCandidates(s.candidates[i], s.candidates[j]);
    }
    forall i, j | 0 <= i < j < |t.challenges|
      ensures DistinctChallenges(t.challenges[i], t.challenges[j])
    {
      assert DistinctChallenges(s.challenges[i], s.challenges[j]);
    }
  }

  lemma SameOnesAre(s: State, t: State)
    requires SameOnes(s, t)
    ensures forall ch | ch in t.challenges :: exists x :: x in s.challenges && x.id == ch.id && x.hash == ch.hash
    ensures forall c | c in t.candidates ::
              exists b :: b in s.candidates && b.request == c.request && b.challenge == c.challenge
                          && b.fingerprint == c.fingerprint && b.device == c.device
  {
    forall ch | ch in t.challenges
      ensures exists x :: x in s.challenges && x.id == ch.id && x.hash == ch.hash
    {
      var j :| 0 <= j < |t.challenges| && t.challenges[j] == ch;
      assert s.challenges[j] in s.challenges;
    }
    forall c | c in t.candidates
      ensures exists b :: b in s.candidates && b.request == c.request && b.challenge == c.challenge
                          && b.fingerprint == c.fingerprint && b.device == c.device
    {
      var k :| 0 <= k < |t.candidates| && t.candidates[k] == c;
      assert s.candidates[k] in s.candidates;
    }
  }

  lemma SameOnesKeepDraws(s: State, t: State, devices: seq<Device>, h: History)
    requires SameOnes(s, t) && DrawsOk(s, devices, h)
    ensures DrawsOk(t, devices, h)
  {
    SameOnesAre(s, t);
  }

  lemma SameOnesKeepRegistry(s: State, t: State, devices: seq<Device>, h: History)
    requires SameOnes(s, t) && RegistryOk(s, devices, h)
    requires forall k | 0 <= k < |s.candidates| && t.candidates[k].status == Finalized ::
      s.candidates[k].status == Finalized || exists e :: e in h.enrolments && e.request == s.candidates[k].request
    ensures RegistryOk(t, devices, h)
  {
    SameOnesAre(s, t);
    forall c | c in t.candidates && c.status == Finalized
      ensures exists e :: e in h.enrolments && e.request == c.request
    {
      var k :| 0 <= k < |t.candidates| && t.candidates[k] == c;
      assert s.candidates[k] in s.candidates;
    }
  }

  lemma SameOnesKeepApprovals(s: State, t: State, h: History)
    requires SameOnes(s, t) && ApprovalsOk(s, h)
    requires forall j | 0 <= j < |s.challenges| :: t.challenges[j].approved == s.challenges[j].approved
    ensures ApprovalsOk(t, h)
  {
    forall ch | ch in t.challenges
      ensures ch.approved.Some? ==> exists a :: a in h.approvals && a.challenge == ch.id && a.request == ch.approved.value
      ensures forall a | a in h.approvals && a.challenge == ch.id :: ch.approved == Some(a.request)
    {
      var j :| 0 <= j < |t.challenges| && t.challenges[j] == ch;
      assert s.challenges[j] in s.challenges;
    }
    forall c, a | c in t.candidates && a in h.approvals && a.request == c.request
      ensures a.challenge == c.challenge && a.fingerprint == c.fingerprint
    {
      var k :| 0 <= k < |t.candidates| && t.candidates[k] == c;
      assert s.candidates[k] in s.candidates;
    }
  }

  lemma SettledKeepsState(s: State, at: nat, index: nat, now: U64)
    requires StateOk(s) && InFlight(s, at, index)
    ensures SameOnes(s, Settled(s, at, index, now)) && StateOk(Settled(s, at, index, now))
  {
    var t := Settled(s, at, index, now);
    assert forall x | x in t.challenges :: x in s.challenges || x == t.challenges[at];
    forall j, k | 0 <= j < |t.challenges| && 0 <= k < |t.candidates| && t.candidates[k].challenge == t.challenges[j].id
      ensures Fits(t.challenges[j], t.candidates[k])
    {
      assert s.challenges[j] in s.challenges && s.candidates[k] in s.candidates;
      assert s.challenges[at] in s.challenges && s.candidates[index] in s.candidates;
      assert Fits(s.challenges[j], s.candidates[k]);
      assert Fits(s.challenges[at], s.candidates[index]);
      ChallengesApart(s.challenges, j, at);
      CandidatesApart(s.candidates, k, index);
    }
    SameOnesKeepState(s, t);
  }

  lemma SpentKeepsCore(s: State, devices: seq<Device>, h: History, at: nat, index: nat, now: U64)
    requires Core(s, devices, h) && InFlight(s, at, index)
    requires exists e :: e in h.enrolments && e.request == s.candidates[index].request
    ensures Core(Settled(s, at, index, now), devices, h)
  {
    var t := Settled(s, at, index, now);
    SettledKeepsState(s, at, index, now);
    SameOnesKeepDraws(s, t, devices, h);
    SameOnesKeepApprovals(s, t, h);
    SettledKeepsRegistry(s, t, devices, h, at, index, now);
  }

  lemma SettledKeepsRegistry(s: State, t: State, devices: seq<Device>, h: History, at: nat, index: nat, now: U64)
    requires RegistryOk(s, devices, h) && InFlight(s, at, index) && t == Settled(s, at, index, now) && SameOnes(s, t)
    requires exists e :: e in h.enrolments && e.request == s.candidates[index].request
    ensures RegistryOk(t, devices, h)
  {
    SameOnesKeepRegistry(s, t, devices, h);
  }

  // ----- Approve and Deny ----------------------------------------------------

  lemma ApproveKeepsState(s: State, at: nat, index: nat, now: U64)
    requires StateOk(s) && at < |s.challenges| && index < |s.candidates|
    requires s.challenges[at].id == s.candidates[index].challenge && s.candidates[index].status == Pending
    ensures var t := Chosen(s, at, index, now); SameOnes(s, t) && StateOk(t)
  {
    var t := Chosen(s, at, index, now);
    assert forall x | x in t.challenges :: x in s.challenges || x == t.challenges[at];
    forall j, k | 0 <= j < |t.challenges| && 0 <= k < |t.candidates| && t.candidates[k].challenge == t.challenges[j].id
      ensures Fits(t.challenges[j], t.candidates[k])
    {
      assert s.challenges[j] in s.challenges && s.candidates[k] in s.candidates;
      assert s.challenges[at] in s.challenges && s.candidates[index] in s.candidates;
      assert Fits(s.challenges[j], s.candidates[k]);
      assert Fits(s.challenges[at], s.candidates[index]);
      ChallengesApart(s.challenges, j, at);
    }
    SameOnesKeepState(s, t);
  }

  /** An approval before its pruning. */
  function Chosen(s: State, at: nat, index: nat, now: U64): State
    requires at < |s.challenges| && index < |s.candidates|
  {
    var c := s.candidates[index];
    State(s.challenges[at := s.challenges[at].(approved := Some(c.request))],
          MapSeq(s.candidates, DecideApproved(c.challenge, c.request, now)))
  }

  lemma ApproveKeepsApprovals(s: State, h: History, at: nat, index: nat, now: U64)
    requires Pairwise(s.challenges, DistinctChallenges) && Pairwise(s.candidates, DistinctCandidates)
    requires ApprovalsOk(s, h) && at < |s.challenges| && index < |s.candidates|
    requires s.challenges[at].id == s.candidates[index].challenge && s.challenges[at].approved.None?
    requires forall a | a in h.approvals :: a.request != s.candidates[index].request
    ensures var c := s.candidates[index];
            ApprovalsOk(Chosen(s, at, index, now),
                        h.(approvals := h.approvals + [Approval(c.challenge, c.request, c.fingerprint)]))
  {
    var c, t := s.candidates[index], Chosen(s, at, index, now);
    var a := Approval(c.challenge, c.request, c.fingerprint);
    var all := h.approvals + [a];
    assert forall x | x in all :: x in h.approvals || x == a;
    assert a == all[|h.approvals|];
    assert s.challenges[at] in s.challenges;
    PushPairwise(h.approvals, a, DistinctApprovals);
    forall ch | ch in t.challenges
      ensures ch.approved.Some? ==> exists x :: x in all && x.challenge == ch.id && x.request == ch.approved.value
      ensures forall x | x in all && x.challenge == ch.id :: ch.approved == Some(x.request)
    {
      var j :| 0 <= j < |t.challenges| && t.challenges[j] == ch;
      assert s.challenges[j] in s.challenges;
      ChallengesApart(s.challenges, j, at);
      if j == at {
        assert a in all;
      } else if ch.approved.Some? {
        var x :| x in h.approvals && x.challenge == ch.id && x.request == ch.approved.value;
        assert x in all;
      }
    }
    forall d, x | d in t.candidates && x in all && d.request == x.request
      ensures x.challenge == d.challenge && x.fingerprint == d.fingerprint
    {
      var k :| 0 <= k < |t.candidates| && t.candidates[k] == d;
      assert s.candidates[k] in s.candidates;
      CandidatesApart(s.candidates, k, index);
    }
  }

  /** A challenge whose candidate was approved names it. */
  lemma NamedByApproval(s: State, h: History, ch: Challenge, c: Candidate, a: Approval)
    requires ApprovalsOk(s, h) && ch in s.challenges && c in s.candidates && a in h.approvals && c.challenge == ch.id
    ensures a.request == c.request ==> ch.approved == Some(a.request)
  {
  }

  /** What is approved now was not before. */
  lemma ApprovalIsNew(s: State, h: History, at: nat, index: nat)
    requires ApprovalsOk(s, h) && at < |s.challenges| && index < |s.candidates|
    requires s.challenges[at].id == s.candidates[index].challenge && s.challenges[at].approved.None?
    ensures forall a | a in h.approvals :: a.request != s.candidates[index].request
  {
    assert s.candidates[index] in s.candidates && s.challenges[at] in s.challenges;
    forall a | a in h.approvals
      ensures a.request != s.candidates[index].request
    {
      NamedByApproval(s, h, s.challenges[at], s.candidates[index], a);
    }
  }

  lemma ApproveKeepsCore(s: State, devices: seq<Device>, h: History, at: nat, index: nat, now: U64)
    requires Core(s, devices, h) && at < |s.challenges| && index < |s.candidates|
    requires s.challenges[at].id == s.candidates[index].challenge && s.challenges[at].approved.None?
    requires s.candidates[index].status == Pending
    ensures var c := s.candidates[index];
            Core(Chosen(s, at, index, now), devices,
                 h.(approvals := h.approvals + [Approval(c.challenge, c.request, c.fingerprint)]))
  {
    ApprovalIsNew(s, h, at, index);
    ApproveKeepsState(s, at, index, now);
    ApproveKeepsApprovals(s, h, at, index, now);
    ApproveKeepsRecords(s, devices, h, at, index, now);
  }

  lemma ApproveKeepsRecords(s: State, devices: seq<Device>, h: History, at: nat, index: nat, now: U64)
    requires DrawsOk(s, devices, h) && RegistryOk(s, devices, h) && at < |s.challenges| && index < |s.candidates|
    requires SameOnes(s, Chosen(s, at, index, now))
    requires s.challenges[at].id == s.candidates[index].challenge && s.candidates[index].status == Pending
    ensures var c, t := s.candidates[index], Chosen(s, at, index, now);
            var h' := h.(approvals := h.approvals + [Approval(c.challenge, c.request, c.fingerprint)]);
            DrawsOk(t, devices, h') && RegistryOk(t, devices, h')
  {
    var t := Chosen(s, at, index, now);
    assert s.challenges[at] in s.challenges && s.candidates[index] in s.candidates;
    SameOnesKeepDraws(s, t, devices, h);
    SameOnesKeepRegistry(s, t, devices, h);
  }

  lemma ChosenKeeps(s: State, devices: seq<Device>, h: History, at: nat, index: nat, now: U64)
    requires Core(s, devices, h) && BoundsOk(s) && at < |s.challenges| && index < |s.candidates|
    requires s.challenges[at].id == s.candidates[index].challenge && s.challenges[at].approved.None?
    requires s.candidates[index].status == Pending
    ensures var c, t := s.candidates[index], Pruned(Chosen(s, at, index, now), now);
            && Core(t, devices, h.(approvals := h.approvals + [Approval(c.challenge, c.request, c.fingerprint)]))
            && BoundsOk(t)
  {
    var c, t := s.candidates[index], Chosen(s, at, index, now);
    ApproveKeepsCore(s, devices, h, at, index, now);
    PruneKeepsCore(t, now, devices, h.(approvals := h.approvals + [Approval(c.challenge, c.request, c.fingerprint)]));
    DecidingKeepsBounds(s, t, DecideApproved(c.challenge, c.request, now));
    PruneKeepsBounds(t, now);
  }

  /** What a successful approval writes, by the positions it finds. */
  lemma ApprovedIsChosen(s: State, request: string, now: U64)
    requires ApprovedOne(s, request, now).Ok?
    ensures var found := First(s.candidates, HasRequest(request));
            && found.Some? && s.candidates[found.value].status == Pending && now < s.candidates[found.value].expires
            && var at := First(s.challenges, HasChallengeId(s.candidates[found.value].challenge));
               && at.Some? && s.challenges[at.value].id == s.candidates[found.value].challenge
               && s.challenges[at.value].approved.None?
               && ApprovedOne(s, request, now) == Ok((Chosen(s, at.value, found.value, now),
                                                      Chosen(s, at.value, found.value, now).candidates[found.value]))
  {
  }

  /** What is written while no call is under way keeps the invariant if it does so by itself. */
  lemma WrittenKeeps(sys: System, t: State, h: History)
    requires sys.flight.Idle? && Core(t, sys.devices, h) && BoundsOk(t)
    ensures Inv(sys.(state := t, history := h))
  {
  }

  lemma ApproveNext(sys: System, event: Event)
    requires event.Approve? && Allowed(sys, event) && ApprovedOne(sys.state, event.request, event.now).Ok?
    ensures var (after, c) := ApprovedOne(sys.state, event.request, event.now).value;
            Next(sys, event) ==
              if event.write == Failed(false) then sys
              else sys.(state := Pruned(after, event.now),
                        history := sys.history.(approvals := sys.history.approvals + [Approval(c.challenge, c.request, c.fingerprint)]))
  {
  }

  lemma ApproveKeeps(sys: System, event: Event)
    requires Inv(sys) && event.Approve? && Allowed(sys, event)
    ensures Inv(Next(sys, event))
  {
    var s := sys.state;
    if ApprovedOne(s, event.request, event.now).Ok? {
      ApproveNext(sys, event);
      if event.write != Failed(false) {
        var r := ApprovedKeeps(s, sys.devices, sys.history, event.request, event.now);
        WrittenKeeps(sys, r.0, r.1);
      }
    }
  }

  lemma ApprovedKeeps(s: State, devices: seq<Device>, h: History, request: string, now: U64) returns (r: (State, History))
    requires Core(s, devices, h) && BoundsOk(s) && ApprovedOne(s, request, now).Ok?
    ensures var (after, c) := ApprovedOne(s, request, now).value;
            r == (Pruned(after, now), h.(approvals := h.approvals + [Approval(c.challenge, c.request, c.fingerprint)]))
    ensures Core(r.0, devices, r.1) && BoundsOk(r.0)
  {
    ApprovedIsChosen(s, request, now);
    var index := First(s.candidates, HasRequest(request)).value;
    var at := First(s.challenges, HasChallengeId(s.candidates[index].challenge)).value;
    ChosenKeeps(s, devices, h, at, index, now);
    var (after, c) := ApprovedOne(s, request, now).value;
    r := (Pruned(after, now), h.(approvals := h.approvals + [Approval(c.challenge, c.request, c.fingerprint)]));
  }

  lemma DenyNext(sys: System, event: Event)
    requires event.Deny? && Allowed(sys, event) && DeniedOne(sys.state, event.request, event.now).Ok?
    ensures Next(sys, event) ==
      if event.write == Failed(false) then sys
      else sys.(state := Pruned(DeniedOne(sys.state, event.request, event.now).value.0, event.now), history := sys.history)
  {
  }

  /** What a denial finds and writes. */
  lemma DeniedFacts(s: State, request: string, now: U64)
    requires DeniedOne(s, request, now).Ok?
    ensures var found := First(s.candidates, HasRequest(request));
            && found.Some?
            && var c := s.candidates[found.value];
               && (c.status == Pending || (c.status == Approved && c.device.None?))
               && DeniedOne(s, request, now).value.0
                  == s.(candidates := s.candidates[found.value := c.(status := Denied, decidedAt := Some(now))])
  {
  }

  lemma DenyKeeps(sys: System, event: Event)
    requires Inv(sys) && event.Deny? && Allowed(sys, event)
    ensures Inv(Next(sys, event))
  {
    if DeniedOne(sys.state, event.request, event.now).Ok? {
      DenyNext(sys, event);
      var t := DenialKeeps(sys.state, sys.devices, sys.history, event.request, event.now);
      WrittenKeeps(sys, t, sys.history);
    }
  }

  lemma DenialKeeps(s: State, devices: seq<Device>, h: History, request: string, now: U64) returns (t: State)
    requires Core(s, devices, h) && BoundsOk(s) && DeniedOne(s, request, now).Ok?
    ensures t == Pruned(DeniedOne(s, request, now).value.0, now) && Core(t, devices, h) && BoundsOk(t)
  {
    DeniedFacts(s, request, now);
    var index := First(s.candidates, HasRequest(request)).value;
    DeniedKeeps(s, devices, h, index, now);
    t := Pruned(DeniedOne(s, request, now).value.0, now);
  }

  lemma DeniedKeeps(s: State, devices: seq<Device>, h: History, index: nat, now: U64)
    requires Core(s, devices, h) && BoundsOk(s) && index < |s.candidates|
    requires s.candidates[index].status == Pending || (s.candidates[index].status == Approved && s.candidates[index].device.None?)
    ensures var denied := s.candidates[index].(status := Denied, decidedAt := Some(now));
            var t := Pruned(s.(candidates := s.candidates[index := denied]), now);
            Core(t, devices, h) && BoundsOk(t)
  {
    var denied := s.candidates[index].(status := Denied, decidedAt := Some(now));
    var t := s.(candidates := s.candidates[index := denied]);
    DenyKeepsCore(s, devices, h, index, denied);
    PruneKeepsCore(t, now, devices, h);
    UpdateKeepsBounds(s, index, denied);
    PruneKeepsBounds(t, now);
  }

  lemma DenyKeepsState(s: State, index: nat, denied: Candidate)
    requires StateOk(s) && index < |s.candidates|
    requires s.candidates[index].status == Pending || (s.candidates[index].status == Approved && s.candidates[index].device.None?)
    requires denied == s.candidates[index].(status := Denied, decidedAt := denied.decidedAt)
    ensures var t := s.(candidates := s.candidates[index := denied]); SameOnes(s, t) && StateOk(t)
  {
    var t := s.(candidates := s.candidates[index := denied]);
    PendingHasNoDevice(s);
    assert s.candidates[index] in s.candidates;
    forall j, k | 0 <= j < |t.challenges| && 0 <= k < |t.candidates| && t.candidates[k].challenge == t.challenges[j].id
      ensures Fits(t.challenges[j], t.candidates[k])
    {
      assert s.challenges[j] in s.challenges && s.candidates[k] in s.candidates;
    }
    SameOnesKeepState(s, t);
  }

  lemma DenyKeepsCore(s: State, devices: seq<Device>, h: History, index: nat, denied: Candidate)
    requires Core(s, devices, h) && index < |s.candidates|
    requires s.candidates[index].status == Pending || (s.candidates[index].status == Approved && s.candidates[index].device.None?)
    requires denied == s.candidates[index].(status := Denied, decidedAt := denied.decidedAt)
    ensures Core(s.(candidates := s.candidates[index := denied]), devices, h)
  {
    var t := s.(candidates := s.candidates[index := denied]);
    DenyKeepsState(s, index, denied);
    SameOnesKeepDraws(s, t, devices, h);
    SameOnesKeepApprovals(s, t, h);
    SameOnesKeepRegistry(s, t, devices, h);
  }

  // ----- The registry's own changes ------------------------------------------

  /** The same records, none of them live again. */
  ghost predicate SameRecords(before: seq<Device>, after: seq<Device>) {
    && |after| == |before|
    && forall i | 0 <= i < |before| ::
      && after[i].id == before[i].id && after[i].fingerprint == before[i].fingerprint
      && (before[i].IsRevoked() ==> after[i].IsRevoked())
  }

  lemma RecordsKeepCore(s: State, before: seq<Device>, after: seq<Device>, h: History)
    requires Core(s, before, h) && SameRecords(before, after)
    ensures Core(s, after, h)
  {
    forall d | d in after
      ensures d.id in h.deviceIds
    {
      var i :| 0 <= i < |after| && after[i] == d;
      assert before[i] in before;
    }
    forall i, j | 0 <= i < j < |after|
      ensures DistinctDevices(after[i], after[j])
    {
      assert DistinctDevices(before[i], before[j]);
    }
  }

  lemma RegistryKeepsRecords(sys: System, event: Event)
    requires event.Revoke? || event.Rename? || event.Touch?
    ensures SameRecords(sys.devices, Next(sys, event).devices)
  {
  }

  lemma RegistryKeeps(sys: System, event: Event)
    requires Inv(sys) && (event.Revoke? || event.Rename? || event.Touch?)
    ensures Inv(Next(sys, event))
  {
    RegistryKeepsRecords(sys, event);
    RecordsKeepCore(sys.state, sys.devices, Next(sys, event).devices, sys.history);
  }

  // ----- All of them ---------------------------------------------------------

  lemma StartHolds()
    ensures Inv(START)
  {
    assert Core(START.state, [], START.history);
  }

  lemma StepKeeps(sys: System, event: Event)
    requires Inv(sys) && Allowed(sys, event)
    ensures Inv(Next(sys, event))
  {
    match event
    case Issue(_, _, _, _, _) => IssueKeeps(sys, event);
    case Ask(_, _, _, _, _, _, _, _) => AskKeeps(sys, event);
    case Enroll(_) => EnrollKeeps(sys, event);
    case Spend(_) => SpendKeeps(sys, event);
    case Approve(_, _, _) => ApproveKeeps(sys, event);
    case Deny(_, _, _) => DenyKeeps(sys, event);
    case Revoke(_, _, _) => RegistryKeeps(sys, event);
    case Rename(_, _, _) => RegistryKeeps(sys, event);
    case Touch(_, _, _) => RegistryKeeps(sys, event);
    case Crash =>
  }

  lemma {:induction false} RunKeeps(sys: System, run: seq<Event>)
    requires Inv(sys) && Possible(sys, run)
    ensures Inv(After(sys, run))
    decreases |run|
  {
    if run != [] {
      StepKeeps(sys, run[0]);
      RunKeeps(Next(sys, run[0]), run[1..]);
    }
  }
}

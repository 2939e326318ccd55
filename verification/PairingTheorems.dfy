/** What the pairing protocol promises over whole runs. */
module PairingTheorems {
  import opened Base
  import opened Devices
  import opened Pairing
  import opened PairingProtocol
  import opened PairingInvariant
  import opened PairingReservation

  // ----- Trust ----------------------------------------------------------------

  /** In every reachable state each challenge has put at most one record in the
      registry, under the key of the one request the person approved for it. */
  lemma {:induction false} OneRecordPerChallenge(run: seq<Event>)
    requires Possible(START, run)
    ensures var sys := After(START, run);
            var enrolments, approvals := sys.history.enrolments, sys.history.approvals;
            && |enrolments| == |sys.devices|
            && (forall i | 0 <= i < |enrolments| ::
              enrolments[i].device == sys.devices[i].id && enrolments[i].fingerprint == sys.devices[i].fingerprint)
            && (forall i, j | 0 <= i < j < |enrolments| :: enrolments[i].challenge != enrolments[j].challenge)
            && (forall i, j | 0 <= i < j < |approvals| :: approvals[i].challenge != approvals[j].challenge)
            && (forall e | e in enrolments :: Approval(e.challenge, e.request, e.fingerprint) in approvals)
            && (forall ch, e | ch in sys.state.challenges && e in enrolments && e.challenge == ch.id ::
              ch.approved == Some(e.request))
  {
    StartHolds();
    RunKeeps(START, run);
    var sys := After(START, run);
    forall i, j | 0 <= i < j < |sys.history.enrolments|
      ensures sys.history.enrolments[i].challenge != sys.history.enrolments[j].challenge
    {
      assert DistinctEnrolments(sys.history.enrolments[i], sys.history.enrolments[j]);
    }
    forall i, j | 0 <= i < j < |sys.history.approvals|
      ensures sys.history.approvals[i].challenge != sys.history.approvals[j].challenge
    {
      assert DistinctApprovals(sys.history.approvals[i], sys.history.approvals[j]);
    }
    forall ch, e | ch in sys.state.challenges && e in sys.history.enrolments && e.challenge == ch.id
      ensures ch.approved == Some(e.request)
    {
      var a := Approval(e.challenge, e.request, e.fingerprint);
      assert a in sys.history.approvals;
    }
  }

  lemma OneApprovalAtMost(sys: System, event: Event, a: Approval)
    requires Allowed(sys, event) && a !in sys.history.approvals
    ensures a in Next(sys, event).history.approvals ==> event.Approve? && event.request == a.request
  {
  }

  lemma {:induction false} ApprovalsAreDecisions(sys: System, run: seq<Event>, a: Approval)
    requires Possible(sys, run) && a in After(sys, run).history.approvals && a !in sys.history.approvals
    ensures exists k :: 0 <= k < |run| && run[k].Approve? && run[k].request == a.request
    decreases |run|
  {
    var next := Next(sys, run[0]);
    OneApprovalAtMost(sys, run[0], a);
    if a !in next.history.approvals {
      ApprovalsAreDecisions(next, run[1..], a);
      var k :| 0 <= k < |run[1..]| && run[1..][k].Approve? && run[1..][k].request == a.request;
      assert run[k + 1].Approve?;
    }
  }

  /** Nothing but the person's approval makes trust: every record has one behind it. */
  lemma {:induction false} TrustNeedsApproval(run: seq<Event>, i: nat)
    requires Possible(START, run) && i < |After(START, run).devices|
    ensures var sys := After(START, run);
            i < |sys.history.enrolments|
            && exists k :: 0 <= k < |run| && run[k].Approve? && run[k].request == sys.history.enrolments[i].request
  {
    OneRecordPerChallenge(run);
    var e := After(START, run).history.enrolments[i];
    assert e in After(START, run).history.enrolments;
    ApprovalsAreDecisions(START, run, Approval(e.challenge, e.request, e.fingerprint));
  }

  /** `after` continues `before`: nothing is taken out of the registry or the
      record of approvals, and no revoked record is live again. */
  ghost predicate Continues(before: System, after: System) {
    && |before.devices| <= |after.devices|
    && SameRecords(before.devices, after.devices[..|before.devices|])
    && before.history.approvals <= after.history.approvals
  }

  lemma EnrolledContinues(devices: seq<Device>, id: string, name: string, fingerprint: string, protocol: string, now: U64)
    requires Enrolled(devices, id, name, fingerprint, protocol, now).Ok?
    ensures var list := Enrolled(devices, id, name, fingerprint, protocol, now).value.0;
            |devices| <= |list| && SameRecords(devices, list[..|devices|])
  {
    var list := Enrolled(devices, id, name, fingerprint, protocol, now).value.0;
    if |list| == |devices| {
      assert list[..|devices|] == list;
    } else {
      assert list[..|devices|] == MapSeq(devices, RevokeLive(fingerprint, now));
    }
  }

  lemma EnrollContinues(sys: System, write: Write)
    requires Allowed(sys, Enroll(write))
    ensures Continues(sys, Next(sys, Enroll(write)))
  {
    var next := Next(sys, Enroll(write));
    var c := sys.state.candidates[sys.flight.index];
    if c.device.Some? && Enrolled(sys.devices, c.device.value, c.name, c.fingerprint, sys.flight.protocol, sys.flight.now).Ok? {
      EnrolledContinues(sys.devices, c.device.value, c.name, c.fingerprint, sys.flight.protocol, sys.flight.now);
    }
    assert sys.devices[..|sys.devices|] == sys.devices;
  }

  lemma StepContinues(sys: System, event: Event)
    requires Allowed(sys, event)
    ensures Continues(sys, Next(sys, event))
  {
    assert Next(sys, event).devices[..|Next(sys, event).devices|] == Next(sys, event).devices;
    match event
    case Enroll(write) => EnrollContinues(sys, write);
    case Revoke(_, _, _) => RegistryKeepsRecords(sys, event);
    case Rename(_, _, _) => RegistryKeepsRecords(sys, event);
    case Touch(_, _, _) => RegistryKeepsRecords(sys, event);
    case _ =>
  }

  lemma {:induction false} RunContinues(sys: System, run: seq<Event>)
    requires Possible(sys, run)
    ensures Continues(sys, After(sys, run))
    decreases |run|
  {
    if run != [] {
      StepContinues(sys, run[0]);
      RunContinues(Next(sys, run[0]), run[1..]);
    }
  }

  /** A revoked record is never revived, and a challenge's approval never changes. */
  lemma {:induction false} DecisionsLast(before: seq<Event>, later: seq<Event>)
    requires Possible(START, before) && Possible(After(START, before), later)
    ensures var s := After(START, before);
            var t := After(s, later);
            && |s.devices| <= |t.devices|
            && (forall i | 0 <= i < |s.devices| ::
              && t.devices[i].id == s.devices[i].id && t.devices[i].fingerprint == s.devices[i].fingerprint
              && (s.devices[i].IsRevoked() ==> t.devices[i].IsRevoked()))
            && (forall x, y | x in s.state.challenges && y in t.state.challenges && x.id == y.id && x.approved.Some? ::
              y.approved == x.approved)
  {
    StartHolds();
    RunKeeps(START, before);
    var s := After(START, before);
    RunKeeps(s, later);
    RunContinues(s, later);
    var t := After(s, later);
    forall x, y | x in s.state.challenges && y in t.state.challenges && x.id == y.id && x.approved.Some?
      ensures y.approved == x.approved
    {
      var a :| a in s.history.approvals && a.challenge == x.id && a.request == x.approved.value;
      assert a in t.history.approvals;
    }
  }

  // ----- Finishing after a crash ----------------------------------------------

  /** After any run, revoking a record shuts its key out, unless the key has another live record. */
  lemma {:induction false} RevokedIsRefused(run: seq<Event>, id: string, now: U64)
    requires Possible(START, run) && Revoked(After(START, run).devices, id, now).Ok?
    ensures var (list, device) := Revoked(After(START, run).devices, id, now).value;
            Authorized(list, device.fingerprint).Ok?
            <==> exists d | d in After(START, run).devices :: d.id != id && IsLive(device.fingerprint)(d)
  {
    StartHolds();
    RunKeeps(START, run);
    var devices := After(START, run).devices;
    RevokedIsExact(devices, id, now);
    var (list, device) := Revoked(devices, id, now).value;
    OnlyOneIsMarked(devices, list, id, now);
    LiveIsAuthorized(list, device.fingerprint);
  }

  lemma {:induction false} LiveIsAuthorized(devices: seq<Device>, fingerprint: string)
    ensures Authorized(devices, fingerprint).Ok? <==> exists d | d in devices :: IsLive(fingerprint)(d)
  {
  }

  lemma OnlyOneIsMarked(devices: seq<Device>, list: seq<Device>, id: string, now: U64)
    requires Pairwise(devices, DistinctDevices) && ChangesOnly(devices, list, id, Marked(now))
    ensures forall d | d in list && d.id == id :: d.IsRevoked()
    ensures forall d: Device | d.id != id :: d in list <==> d in devices
  {
    forall d | d in list && d.id == id
      ensures d.IsRevoked()
    {
      var i :| 0 <= i < |list| && list[i] == d;
      forall j | 0 <= j < i
        ensures devices[j].id != id
      {
        DevicesApart(devices, i, j);
      }
      assert IsFirst(devices, id, i);
    }
    forall d: Device | d.id != id
      ensures d in list <==> d in devices
    {
      if d in list {
        var i :| 0 <= i < |list| && list[i] == d;
        assert devices[i] == d;
      }
      if d in devices {
        var i :| 0 <= i < |devices| && devices[i] == d;
        assert list[i] == d;
      }
    }
  }

  /** A run of the protocol that does what one undisturbed call of `present` does. */
  function CallRun(sys: System, code: string, fingerprint: string, name: string, protocol: string, now: U64,
                   request: string, id: string, io: PresentIo): seq<Event>
    requires Allowed(sys, Ask(code, fingerprint, name, protocol, now, request, id, io.first))
  {
    if !io.readable then []
    else
      var ask := Ask(code, fingerprint, name, protocol, now, request, id, io.first);
      var asked := Next(sys, ask);
      if !asked.flight.Enrolling? then [ask]
      else if !io.registry.readable then [ask, Crash]
      else
        var enroll := Enroll(io.registry.write);
        if !Allowed(asked, enroll) || !Next(asked, enroll).flight.Spending? then [ask, enroll]
        else [ask, enroll, Spend(io.last)]
  }

  lemma {:induction false} AfterTwo(sys: System, a: Event, b: Event)
    requires Allowed(sys, a) && Allowed(Next(sys, a), b)
    ensures Possible(sys, [a, b]) && After(sys, [a, b]) == Next(Next(sys, a), b)
  {
    assert [a, b][1..] == [b];
    assert [b][1..] == [];
    assert Possible(Next(sys, a), [b]);
    assert Possible(Next(Next(sys, a), b), []);
    assert After(Next(sys, a), [b]) == Next(Next(sys, a), b);
  }

  lemma {:induction false} AfterThree(sys: System, a: Event, b: Event, c: Event)
    requires Allowed(sys, a) && Allowed(Next(sys, a), b) && Allowed(Next(Next(sys, a), b), c)
    ensures Possible(sys, [a, b, c]) && After(sys, [a, b, c]) == Next(Next(Next(sys, a), b), c)
  {
    assert [a, b, c][1..] == [b, c];
    AfterTwo(Next(sys, a), b, c);
  }

  lemma CallWithoutFinish(sys: System, code: string, fingerprint: string, name: string, protocol: string, now: U64,
                          request: string, id: string, io: PresentIo)
    requires io.readable
    requires Allowed(sys, Ask(code, fingerprint, name, protocol, now, request, id, io.first))
    requires !Present(sys.state, code, fingerprint, name, now, request).Finish?
    ensures var w := PresentedWhole(sys.state, sys.devices, code, fingerprint, name, protocol, now, request, id, io);
            var next := Next(sys, Ask(code, fingerprint, name, protocol, now, request, id, io.first));
            next.flight.Idle? && next.state == w.0 && next.devices == w.1
  {
  }

  /** Steps 2 and 3 of finalization, taken one after the other. */
  lemma FinalizeIsRun(sys: System, io: PresentIo)
    requires sys.flight.Enrolling? && io.registry.readable && Allowed(sys, Enroll(io.registry.write))
    requires sys.state.candidates[sys.flight.index].device.Some?
    ensures var f := sys.flight;
            var id := sys.state.candidates[f.index].device.value;
            var w := Finalize(sys.state, sys.devices, f.at, f.index, id, f.protocol, f.now, io);
            var enrolled := Next(sys, Enroll(io.registry.write));
            && (enrolled.flight.Spending? ==> Allowed(enrolled, Spend(io.last)))
            && var last := if enrolled.flight.Spending? then Next(enrolled, Spend(io.last)) else enrolled;
               last.state == w.0 && last.devices == w.1 && last.flight.Idle?
  {
  }

  lemma {:induction false} CallWithFinish(sys: System, code: string, fingerprint: string, name: string,
                                          protocol: string, now: U64, request: string, id: string, io: PresentIo)
    requires io.readable
    requires Allowed(sys, Ask(code, fingerprint, name, protocol, now, request, id, io.first))
    requires Present(sys.state, code, fingerprint, name, now, request).Finish?
    ensures var w := PresentedWhole(sys.state, sys.devices, code, fingerprint, name, protocol, now, request, id, io);
            var run := CallRun(sys, code, fingerprint, name, protocol, now, request, id, io);
            && Possible(sys, run)
            && After(sys, run).state == w.0 && After(sys, run).devices == w.1 && After(sys, run).flight.Idle?
  {
    var ask := Ask(code, fingerprint, name, protocol, now, request, id, io.first);
    var asked := Next(sys, ask);
    if !asked.flight.Enrolling? {
      assert [ask][1..] == [];
      assert Possible(asked, []);
    } else if !io.registry.readable {
      AfterTwo(sys, ask, Crash);
    } else {
      var enroll := Enroll(io.registry.write);
      assert Allowed(asked, enroll);
      FinalizeIsRun(asked, io);
      if Next(asked, enroll).flight.Spending? {
        AfterThree(sys, ask, enroll, Spend(io.last));
      } else {
        AfterTwo(sys, ask, enroll);
      }
    }
  }

  /** One call of `present` with no registry change in between is a run of the protocol. */
  lemma {:induction false} CallIsRun(sys: System, code: string, fingerprint: string, name: string, protocol: string,
                                     now: U64, request: string, id: string, io: PresentIo)
    requires Allowed(sys, Ask(code, fingerprint, name, protocol, now, request, id, io.first))
    ensures var w := PresentedWhole(sys.state, sys.devices, code, fingerprint, name, protocol, now, request, id, io);
            var run := CallRun(sys, code, fingerprint, name, protocol, now, request, id, io);
            && Possible(sys, run)
            && After(sys, run).state == w.0 && After(sys, run).devices == w.1 && After(sys, run).flight.Idle?
  {
    if io.readable {
      if Present(sys.state, code, fingerprint, name, now, request).Finish? {
        CallWithFinish(sys, code, fingerprint, name, protocol, now, request, id, io);
      } else {
        CallWithoutFinish(sys, code, fingerprint, name, protocol, now, request, id, io);
        var ask := Ask(code, fingerprint, name, protocol, now, request, id, io.first);
        assert [ask][1..] == [];
        assert Possible(Next(sys, ask), []);
      }
    }
  }

  lemma ChallengeIsFound(s: State, ch: Challenge, code: string)
    requires StateOk(s) && ch in s.challenges && ch.hash == Sha256(code)
    ensures var at := First(s.challenges, HasHash(Sha256(code))); at.Some? && s.challenges[at.value] == ch
  {
    var k :| 0 <= k < |s.challenges| && s.challenges[k] == ch;
    var at := First(s.challenges, HasHash(Sha256(code))).value;
    ChallengesApart(s.challenges, at, k);
  }

  lemma CandidateIsFound(s: State, c: Candidate)
    requires StateOk(s) && c in s.candidates
    ensures var index := First(s.candidates, HasKey(c.challenge, c.fingerprint));
            index.Some? && s.candidates[index.value] == c
    ensures var index := First(s.candidates, HasRequest(c.request)); index.Some? && s.candidates[index.value] == c
  {
    var k :| 0 <= k < |s.candidates| && s.candidates[k] == c;
    var i := First(s.candidates, HasKey(c.challenge, c.fingerprint)).value;
    var j := First(s.candidates, HasRequest(c.request)).value;
    CandidatesApart(s.candidates, i, k);
    CandidatesApart(s.candidates, j, k);
  }

  /** A record under a candidate's reserved id is that candidate's. */
  lemma RecordIsItsOwn(sys: System, c: Candidate, d: Device)
    requires Inv(sys) && c in sys.state.candidates && d in sys.devices && c.device == Some(d.id)
    ensures d.fingerprint == c.fingerprint
  {
    var i :| 0 <= i < |sys.devices| && sys.devices[i] == d;
    var e := sys.history.enrolments[i];
    assert e in sys.history.enrolments;
    var a := Approval(e.challenge, e.request, e.fingerprint);
    assert a in sys.history.approvals && a.request == c.request;
  }

  /** `device` is the one record under its id, and the one live record of its key. */
  ghost predicate Sole(devices: seq<Device>, device: Device) {
    && device in devices && !device.IsRevoked()
    && (forall d | d in devices && d != device ::
      d.id != device.id && (d.fingerprint == device.fingerprint ==> d.IsRevoked()))
    && Count(devices, HasId(device.id)) == 1
  }

  lemma {:induction false} CountDistinct(devices: seq<Device>, i: nat)
    requires Pairwise(devices, DistinctDevices) && i < |devices|
    ensures Count(devices, HasId(devices[i].id)) == 1
  {
    var last := |devices| - 1;
    if i == last {
      NoneCounted(devices[..last], devices[i].id);
    } else {
      assert DistinctDevices(devices[i], devices[last]);
      CountDistinct(devices[..last], i);
    }
  }

  lemma {:induction false} NoneCounted(devices: seq<Device>, id: string)
    requires forall i | 0 <= i < |devices| :: devices[i].id != id
    ensures Count(devices, HasId(id)) == 0
  {
    if devices != [] {
      NoneCounted(devices[..|devices| - 1], id);
    }
  }

  lemma LiveIsSole(devices: seq<Device>, i: nat)
    requires Pairwise(devices, DistinctDevices) && i < |devices| && !devices[i].IsRevoked()
    ensures Sole(devices, devices[i])
  {
    CountDistinct(devices, i);
    forall d | d in devices && d != devices[i]
      ensures d.id != devices[i].id && (d.fingerprint == devices[i].fingerprint ==> d.IsRevoked())
    {
      var k :| 0 <= k < |devices| && devices[k] == d;
      DevicesApart(devices, k, i);
    }
  }

  ghost predicate NotRevoked(devices: seq<Device>, id: string) {
    forall d | d in devices && d.id == id :: !d.IsRevoked()
  }

  /** Enrolling under a reserved id, again or for the first time. */
  lemma EnrolledOnce(sys: System, c: Candidate, protocol: string, now: U64)
    requires Inv(sys) && c in sys.state.candidates && c.device.Some?
    ensures var r := Enrolled(sys.devices, c.device.value, c.name, c.fingerprint, protocol, now);
            && (r.Ok? <==> NotRevoked(sys.devices, c.device.value))
            && (r.Ok? ==>
              var (list, device) := r.value;
              device.id == c.device.value && device.fingerprint == c.fingerprint && Sole(list, device))
  {
    var id := c.device.value;
    match First(sys.devices, IsRecord(id, c.fingerprint))
    case Some(i) =>
      LiveIsSole(sys.devices, i);
    case None =>
      match First(sys.devices, HasId(id)) {
        case Some(i) => RecordIsItsOwn(sys, c, sys.devices[i]);
        case None =>
          var device := NewDevice(id, c.name, c.fingerprint, protocol, now);
          RecordKeepsDistinct(sys.devices, device, now);
          var list := MapSeq(sys.devices, RevokeLive(c.fingerprint, now)) + [device];
          LiveIsSole(list, |list| - 1);
      }
  }

  /** The answer to a finalized candidate that asks again. */
  lemma AnsweredWhileLive(sys: System, c: Candidate)
    requires Inv(sys) && c in sys.state.candidates && c.status == Finalized
    ensures var r := AnsweredAgain(c, sys.devices);
            && c.device.Some?
            && (r.Ok? <==> NotRevoked(sys.devices, c.device.value))
            && (r.Ok? ==> r.value.Paired? && r.value.device.id == c.device.value && Sole(sys.devices, r.value.device))
  {
    var record := RecordOf(sys, c);
    AnsweredByRecord(sys.devices, c, record);
  }

  /** A finalized candidate has a record under its id, with its key. */
  lemma RecordOf(sys: System, c: Candidate) returns (record: Device)
    requires Inv(sys) && c in sys.state.candidates && c.status == Finalized
    ensures record in sys.devices && c.device == Some(record.id) && record.fingerprint == c.fingerprint
  {
    var ch :| ch in sys.state.challenges && ch.id == c.challenge;
    assert Fits(ch, c);
    var e :| e in sys.history.enrolments && e.request == c.request;
    var i :| 0 <= i < |sys.history.enrolments| && sys.history.enrolments[i] == e;
    record := sys.devices[i];
    RecordIsItsOwn(sys, c, record);
  }

  lemma AnsweredByRecord(devices: seq<Device>, c: Candidate, record: Device)
    requires Pairwise(devices, DistinctDevices) && record in devices
    requires c.device == Some(record.id) && record.fingerprint == c.fingerprint
    ensures var r := AnsweredAgain(c, devices);
            && (r.Ok? <==> NotRevoked(devices, record.id))
            && (r.Ok? ==> r.value == Paired(record) && Sole(devices, record))
  {
    var i :| 0 <= i < |devices| && devices[i] == record;
    if !record.IsRevoked() {
      LiveIsSole(devices, i);
      assert IsLive(c.fingerprint)(record);
    } else if Authorized(devices, c.fingerprint).Ok? {
      var other := Authorized(devices, c.fingerprint).value;
      if other.id == record.id {
        LiveIsDistinct(devices, other, record);
      }
    }
  }

  lemma LiveIsDistinct(devices: seq<Device>, a: Device, b: Device)
    requires Pairwise(devices, DistinctDevices) && a in devices && b in devices && a.id == b.id
    ensures a == b
  {
    var i :| 0 <= i < |devices| && devices[i] == a;
    var j :| 0 <= j < |devices| && devices[j] == b;
    DevicesApart(devices, i, j);
  }

  const WORKING := PresentIo(true, Done, Io(true, Done), Done)

  /** Where `present` gets to with the code and certificate of a candidate that has its id. */
  lemma PresentReserved(s: State, ch: Challenge, c: Candidate, code: string, name: string, now: U64, request: string)
    requires StateOk(s) && c in s.candidates && c.device.Some?
    requires ch in s.challenges && ch.id == c.challenge && ch.hash == Sha256(code)
    ensures var p := Present(s, code, c.fingerprint, name, now, request);
            && (c.status == Approved ==> p.Finish? && s.candidates[p.index] == c)
            && (c.status == Finalized ==> p == Again(c))
  {
    ChallengeIsFound(s, ch, code);
    CandidateIsFound(s, c);
    assert Fits(ch, c);
  }

  /** One call that meets no fault, from a reserved id on. */
  lemma WorkingCall(s: State, devices: seq<Device>, p: Presentation, c: Candidate, protocol: string, now: U64, id: string)
    requires p.Finish? && p.at < |s.challenges| && p.index < |s.candidates| && s.candidates[p.index] == c && c.device.Some?
    ensures var (_, after, r) := Carried(s, devices, p, protocol, now, id, WORKING);
            match Enrolled(devices, c.device.value, c.name, c.fingerprint, protocol, now)
            case Ok((list, device)) => after == list && r == Ok(Paired(device))
            case Err(_) => after == devices && r == Err(Unavailable)
  {
  }

  lemma ReservedAnswer(sys: System, p: Presentation, c: Candidate, protocol: string, now: U64, id: string)
    requires Inv(sys) && c in sys.state.candidates && c.device.Some?
    requires p.Finish? ==> p.at < |sys.state.challenges| && p.index < |sys.state.candidates|
    requires if c.status == Approved then p.Finish? && sys.state.candidates[p.index] == c
             else c.status == Finalized && p == Again(c)
    ensures var (_, devices, r) := Carried(sys.state, sys.devices, p, protocol, now, id, WORKING);
            && (r.Ok? <==> NotRevoked(sys.devices, c.device.value))
            && (r.Ok? ==> r.value.Paired? && r.value.device.id == c.device.value
                          && r.value.device.fingerprint == c.fingerprint && Sole(devices, r.value.device))
  {
    if c.status == Approved {
      WorkingCall(sys.state, sys.devices, p, c, protocol, now, id);
      EnrolledOnce(sys, c, protocol, now);
    } else {
      AnsweredWhileLive(sys, c);
    }
  }

  lemma ReservedCall(sys: System, ch: Challenge, c: Candidate, code: string, name: string, protocol: string,
                     now: U64, request: string, id: string)
    requires Inv(sys) && c in sys.state.candidates && (c.status == Approved || c.status == Finalized) && c.device.Some?
    requires ch in sys.state.challenges && ch.id == c.challenge && ch.hash == Sha256(code)
    ensures var (_, devices, r) := PresentedWhole(sys.state, sys.devices, code, c.fingerprint, name, protocol, now, request, id, WORKING);
            && (r.Ok? <==> NotRevoked(sys.devices, c.device.value))
            && (r.Ok? ==> r.value.Paired? && r.value.device.id == c.device.value
                          && r.value.device.fingerprint == c.fingerprint && Sole(devices, r.value.device))
  {
    PresentReserved(sys.state, ch, c, code, name, now, request);
    ReservedAnswer(sys, Present(sys.state, code, c.fingerprint, name, now, request), c, protocol, now, id);
  }

  /** Once a device id was reserved for a request, whatever happens from then on and
      however late it is, the same certificate with the same code ends paired under
      that id, with exactly one record, if and only if that record was not revoked.
      Only the challenge must still be in the file. */
  lemma {:induction false} ReservedPairingFinishes(before: seq<Event>, later: seq<Event>, c: Candidate, ch: Challenge,
                                                   code: string, name: string, protocol: string, now: U64,
                                                   request: string, id: string)
    requires Possible(START, before) && Possible(After(START, before), later)
    requires c in After(START, before).state.candidates && c.device.Some?
    requires ch in After(After(START, before), later).state.challenges && ch.id == c.challenge && ch.hash == Sha256(code)
    ensures var sys := After(After(START, before), later);
            var (_, devices, r) := PresentedWhole(sys.state, sys.devices, code, c.fingerprint, name, protocol, now, request, id, WORKING);
            && ((r.Ok? && r.value.Paired? && r.value.device.id == c.device.value) <==> NotRevoked(sys.devices, c.device.value))
            && (r.Ok? ==> r.value.Paired? && r.value.device.fingerprint == c.fingerprint && Sole(devices, r.value.device))
  {
    StartHolds();
    RunKeeps(START, before);
    var s := After(START, before);
    RunKeeps(s, later);
    var sys := After(s, later);
    var j :| 0 <= j < |sys.state.challenges| && sys.state.challenges[j] == ch;
    var d := ReservationLasts(s, later, c);
    ReservedCall(sys, ch, d, code, name, protocol, now, request, id);
  }

  /** An approved request that asks again in time is paired at once, under the fresh id. */
  lemma {:induction false} ApprovedPairs(run: seq<Event>, ch: Challenge, c: Candidate, code: string, name: string,
                                         protocol: string, now: U64, request: string, id: string)
    requires Possible(START, run)
    requires var sys := After(START, run);
             && c in sys.state.candidates && c.status == Approved && c.device.None? && now < c.expires
             && ch in sys.state.challenges && ch.id == c.challenge && ch.hash == Sha256(code)
             && id !in sys.history.deviceIds
    ensures var sys := After(START, run);
            var (_, devices, r) := PresentedWhole(sys.state, sys.devices, code, c.fingerprint, name, protocol, now, request, id, WORKING);
            && r.Ok? && r.value.Paired?
            && r.value.device == NewDevice(id, c.name, c.fingerprint, protocol, now) && Sole(devices, r.value.device)
  {
    StartHolds();
    RunKeeps(START, run);
    var sys := After(START, run);
    ChallengeIsFound(sys.state, ch, code);
    CandidateIsFound(sys.state, c);
    assert Fits(ch, c);
    var p := Present(sys.state, code, c.fingerprint, name, now, request);
    assert p.Finish? && sys.state.candidates[p.index] == c;
    var device := NewDevice(id, c.name, c.fingerprint, protocol, now);
    RecordKeepsDistinct(sys.devices, device, now);
    var list := MapSeq(sys.devices, RevokeLive(c.fingerprint, now)) + [device];
    LiveIsSole(list, |list| - 1);
    FreshCall(sys.state, sys.devices, p, c, protocol, now, id);
  }

  /** Steps 2 and 3 of finalization under an id the registry does not hold. */
  lemma FinalizeFresh(s: State, devices: seq<Device>, at: nat, index: nat, id: string, protocol: string, now: U64)
    requires at < |s.challenges| && index < |s.candidates| && forall d | d in devices :: d.id != id
    ensures var c := s.candidates[index];
            var (_, after, r) := Finalize(s, devices, at, index, id, protocol, now, WORKING);
            var device := NewDevice(id, c.name, c.fingerprint, protocol, now);
            after == MapSeq(devices, RevokeLive(c.fingerprint, now)) + [device] && r == Ok(Paired(device))
  {
  }

  lemma FreshCall(s: State, devices: seq<Device>, p: Presentation, c: Candidate, protocol: string, now: U64, id: string)
    requires p.Finish? && p.at < |s.challenges| && p.index < |s.candidates| && s.candidates[p.index] == c && c.device.None?
    requires forall d | d in devices :: d.id != id
    ensures var (_, after, r) := Carried(s, devices, p, protocol, now, id, WORKING);
            var device := NewDevice(id, c.name, c.fingerprint, protocol, now);
            after == MapSeq(devices, RevokeLive(c.fingerprint, now)) + [device] && r == Ok(Paired(device))
  {
    FinalizeFresh(Reserved(s, p.index, id), devices, p.at, p.index, id, protocol, now);
  }

  // ----- What the invariant rules out -----------------------------------------

  /** A recorded request is refused as used only once it lost to another, or its record was revoked. */
  lemma {:induction false} GuardsNeverFire(run: seq<Event>, ch: Challenge, c: Candidate, code: string, name: string,
                                           now: U64, request: string)
    requires Possible(START, run)
    requires var s := After(START, run).state;
             c in s.candidates && ch in s.challenges && ch.id == c.challenge && ch.hash == Sha256(code)
    ensures var s := After(START, run).state;
            var p := Present(s, code, c.fingerprint, name, now, request);
            && (c.status == Pending ==> p == if now < ch.expires then Wait(c) else Refuse(Expired))
            && (c.status == Approved ==>
              if now < ch.expires || c.device.Some? then p.Finish? && s.candidates[p.index] == c && s.challenges[p.at] == ch
              else p == Refuse(Expired))
  {
    StartHolds();
    RunKeeps(START, run);
    RecordedIsAnswered(After(START, run).state, ch, c, code, name, now, request);
  }

  lemma RecordedIsAnswered(s: State, ch: Challenge, c: Candidate, code: string, name: string, now: U64, request: string)
    requires StateOk(s) && c in s.candidates && ch in s.challenges && ch.id == c.challenge && ch.hash == Sha256(code)
    ensures var p := Present(s, code, c.fingerprint, name, now, request);
            && (c.status == Pending ==> p == if now < ch.expires then Wait(c) else Refuse(Expired))
            && (c.status == Approved ==>
              if now < ch.expires || c.device.Some? then p.Finish? && s.candidates[p.index] == c && s.challenges[p.at] == ch
              else p == Refuse(Expired))
  {
    ChallengeIsFound(s, ch, code);
    CandidateIsFound(s, c);
    assert Fits(ch, c);
  }

  /** A request that waits can be approved until its code expires, and not after. */
  lemma {:induction false} WaitingCanBeApproved(run: seq<Event>, c: Candidate, now: U64)
    requires Possible(START, run) && c in After(START, run).state.candidates && c.status == Pending
    ensures ApprovedOne(After(START, run).state, c.request, now).Ok? <==> now < c.expires
  {
    StartHolds();
    RunKeeps(START, run);
    PendingCanBeApproved(After(START, run).state, c, now);
  }

  lemma PendingCanBeApproved(s: State, c: Candidate, now: U64)
    requires StateOk(s) && c in s.candidates && c.status == Pending
    ensures ApprovedOne(s, c.request, now).Ok? <==> now < c.expires
  {
    CandidateIsFound(s, c);
    var at := First(s.challenges, HasChallengeId(c.challenge));
    assert at.Some?;
    assert Fits(s.challenges[at.value], c);
  }

  /** However many devices ask, whatever the clock does, few requests ever wait. */
  lemma {:induction false} WaitingIsBounded(run: seq<Event>, challenge: string, now: U64)
    requires Possible(START, run)
    ensures var candidates := After(START, run).state.candidates;
            && Count(candidates, IsWaiting(now)) <= MAX_PENDING
            && Count(candidates, IsWaitingFor(challenge, now)) <= MAX_PENDING_PER_CHALLENGE
            && Count(candidates, RecordedFor(challenge)) <= MAX_CANDIDATES_PER_CHALLENGE
  {
    StartHolds();
    RunKeeps(START, run);
    var candidates := After(START, run).state.candidates;
    CountWeaker(candidates, IsWaiting(now), IsPending());
    CountWeaker(candidates, IsWaitingFor(challenge, now), IsPendingFor(challenge));
  }
}

/** A device id once reserved for a request stays reserved for it, as long as its challenge is kept. */
module PairingReservation {
  import opened Base
  import opened Devices
  import opened Pairing
  import opened PairingProtocol
  import opened PairingInvariant

  predicate HasChallenge(s: State, id: string) {
    exists j :: 0 <= j < |s.challenges| && s.challenges[j].id == id
  }

  /** The same request with the same id reserved, whatever has become of it. */
  predicate Lasts(c: Candidate, d: Candidate) {
    && d.request == c.request && d.challenge == c.challenge && d.fingerprint == c.fingerprint
    && d.device == c.device
  }

  predicate IsKept(t: State, c: Candidate) {
    exists k :: 0 <= k < |t.candidates| && Lasts(c, t.candidates[k])
  }

  /** Every reservation of `s` is in `t`, too, if its challenge is. */
  ghost predicate KeepsReserved(s: State, t: State) {
    forall c | c in s.candidates && c.device.Some? && HasChallenge(t, c.challenge) :: IsKept(t, c)
  }

  lemma SameKeepReserved(s: State, t: State)
    requires |t.candidates| >= |s.candidates|
    requires forall k | 0 <= k < |s.candidates| && s.candidates[k].device.Some? :: Lasts(s.candidates[k], t.candidates[k])
    ensures KeepsReserved(s, t)
  {
  }

  lemma PruneKeepsReserved(s: State, now: U64)
    ensures KeepsReserved(s, Pruned(s, now))
    ensures forall ch | ch in Pruned(s, now).challenges :: ch in s.challenges
  {
    var t := Pruned(s, now);
    forall c | c in s.candidates && c.device.Some? && HasChallenge(t, c.challenge)
      ensures IsKept(t, c)
    {
      var j :| 0 <= j < |t.challenges| && t.challenges[j].id == c.challenge;
      assert HasChallengeId(c.challenge)(t.challenges[j]) && t.challenges[j] in t.challenges;
      assert CandidateKept(t.challenges, now)(c);
      assert c in t.candidates;
      var k :| 0 <= k < |t.candidates| && t.candidates[k] == c;
      assert Lasts(c, t.candidates[k]);
    }
  }

  /** A change that keeps every reservation, and then pruning. */
  lemma ChangedThenPruned(s: State, t: State, now: U64)
    requires KeepsReserved(s, t)
    ensures KeepsReserved(s, Pruned(t, now))
  {
    var u := Pruned(t, now);
    PruneKeepsReserved(t, now);
    forall c | c in s.candidates && c.device.Some? && HasChallenge(u, c.challenge)
      ensures IsKept(u, c)
    {
      var j :| 0 <= j < |u.challenges| && u.challenges[j].id == c.challenge;
      assert u.challenges[j] in u.challenges;
      var i :| 0 <= i < |t.challenges| && t.challenges[i] == u.challenges[j];
      assert HasChallenge(t, c.challenge) && IsKept(t, c);
      var k :| 0 <= k < |t.candidates| && Lasts(c, t.candidates[k]);
      assert IsKept(u, t.candidates[k]);
      var m :| 0 <= m < |u.candidates| && Lasts(t.candidates[k], u.candidates[m]);
      assert Lasts(c, u.candidates[m]);
    }
  }

  lemma AskKeepsReserved(sys: System, event: Event)
    requires event.Ask? && Allowed(sys, event)
    ensures KeepsReserved(sys.state, Next(sys, event).state)
  {
    var s := sys.state;
    var p := Present(s, event.code, event.fingerprint, event.name, event.now, event.request);
    NothingKeepsReserved(s);
    if p.Enlist? {
      EnlistKeepsReserved(s, event.code, event.fingerprint, event.name, event.now, event.request);
    } else if p.Finish? && s.candidates[p.index].device.None? {
      ReservingKeepsReserved(s, p.index, event.id);
    }
    AskWrites(sys, event);
  }

  /** What `present` may write first. */
  lemma AskWrites(sys: System, event: Event)
    requires event.Ask? && Allowed(sys, event)
    ensures var p := Present(sys.state, event.code, event.fingerprint, event.name, event.now, event.request);
      var t := Next(sys, event).state;
      || t == sys.state
      || (p.Enlist? && t == p.after)
      || (p.Finish? && sys.state.candidates[p.index].device.None? && t == Reserved(sys.state, p.index, event.id))
  {
  }

  lemma ReservingKeepsReserved(s: State, index: nat, id: string)
    requires index < |s.candidates| && s.candidates[index].device.None?
    ensures KeepsReserved(s, Reserved(s, index, id))
  {
    SameKeepReserved(s, Reserved(s, index, id));
  }

  lemma EnlistKeepsReserved(s: State, code: string, fingerprint: string, name: string, now: U64, request: string)
    requires Present(s, code, fingerprint, name, now, request).Enlist?
    ensures KeepsReserved(s, Present(s, code, fingerprint, name, now, request).after)
  {
    EnlistFacts(s, code, fingerprint, name, now, request);
    var ch := s.challenges[First(s.challenges, HasHash(Sha256(code))).value];
    var t := s.(candidates := s.candidates + [NewCandidate(ch, request, fingerprint, name, now)]);
    SameKeepReserved(s, t);
    ChangedThenPruned(s, t, now);
  }

  /** Every challenge of `t` was in `s`, whatever was decided about it since. */
  ghost predicate AddsNoChallenge(s: State, t: State) {
    forall ch | ch in t.challenges :: WasIn(s, ch)
  }

  /** The challenge was there before, with the same id and expiry. */
  ghost predicate WasIn(s: State, ch: Challenge) {
    exists x :: x in s.challenges && x.id == ch.id && x.expires == ch.expires
  }

  lemma SameAddNone(s: State, t: State)
    requires |t.challenges| == |s.challenges|
    requires forall j | 0 <= j < |s.challenges| ::
      t.challenges[j].id == s.challenges[j].id && t.challenges[j].expires == s.challenges[j].expires
    ensures AddsNoChallenge(s, t)
  {
    forall ch | ch in t.challenges
      ensures WasIn(s, ch)
    {
      var j :| 0 <= j < |t.challenges| && t.challenges[j] == ch;
      assert s.challenges[j] in s.challenges;
    }
  }

  lemma PrunedAddNone(s: State, t: State, now: U64)
    requires AddsNoChallenge(s, t)
    ensures AddsNoChallenge(s, Pruned(t, now))
  {
  }

  lemma ApprovalKeepsReserved(s: State, request: string, now: U64)
    requires ApprovedOne(s, request, now).Ok?
    ensures var t := Pruned(ApprovedOne(s, request, now).value.0, now); KeepsReserved(s, t) && AddsNoChallenge(s, t)
  {
    ApprovedIsChosen(s, request, now);
    var index := First(s.candidates, HasRequest(request)).value;
    var at := First(s.challenges, HasChallengeId(s.candidates[index].challenge)).value;
    ChosenKeepsReserved(s, at, index, now);
    ChangedThenPruned(s, Chosen(s, at, index, now), now);
    PrunedAddNone(s, Chosen(s, at, index, now), now);
  }

  lemma ChosenKeepsReserved(s: State, at: nat, index: nat, now: U64)
    requires at < |s.challenges| && index < |s.candidates|
    ensures KeepsReserved(s, Chosen(s, at, index, now)) && AddsNoChallenge(s, Chosen(s, at, index, now))
  {
    SameKeepReserved(s, Chosen(s, at, index, now));
    SameAddNone(s, Chosen(s, at, index, now));
  }

  lemma DenialKeepsReserved(s: State, request: string, now: U64)
    requires DeniedOne(s, request, now).Ok?
    ensures var t := Pruned(DeniedOne(s, request, now).value.0, now); KeepsReserved(s, t) && AddsNoChallenge(s, t)
  {
    DeniedFacts(s, request, now);
    var t := DeniedOne(s, request, now).value.0;
    SameKeepReserved(s, t);
    SameAddNone(s, t);
    ChangedThenPruned(s, t, now);
    PrunedAddNone(s, t, now);
  }

  lemma NothingKeepsReserved(s: State)
    ensures KeepsReserved(s, s) && AddsNoChallenge(s, s)
  {
    SameKeepReserved(s, s);
  }

  lemma DecisionKeepsReserved(sys: System, event: Event)
    requires (event.Approve? || event.Deny?) && Allowed(sys, event)
    ensures var s, t := sys.state, Next(sys, event).state; KeepsReserved(s, t) && AddsNoChallenge(s, t)
  {
    NothingKeepsReserved(sys.state);
    if event.Approve? && ApprovedOne(sys.state, event.request, event.now).Ok? {
      ApproveNext(sys, event);
      ApprovalKeepsReserved(sys.state, event.request, event.now);
    }
    if event.Deny? && DeniedOne(sys.state, event.request, event.now).Ok? {
      DenyNext(sys, event);
      DenialKeepsReserved(sys.state, event.request, event.now);
    }
  }

  lemma IssueKeepsReserved(sys: System, event: Event)
    requires event.Issue? && Allowed(sys, event)
    ensures KeepsReserved(sys.state, Next(sys, event).state)
  {
    var s := sys.state;
    var t := s.(challenges := s.challenges + [NewChallenge(event.id, event.code, event.now, event.ttl)]);
    SameKeepReserved(s, s);
    SameKeepReserved(s, t);
    ChangedThenPruned(s, t, event.now);
  }

  lemma SettledKeepsReserved(s: State, at: nat, index: nat, now: U64)
    requires at < |s.challenges| && index < |s.candidates|
    ensures KeepsReserved(s, Settled(s, at, index, now)) && AddsNoChallenge(s, Settled(s, at, index, now))
  {
    SameKeepReserved(s, Settled(s, at, index, now));
    SameAddNone(s, Settled(s, at, index, now));
  }

  lemma SpendKeepsReserved(sys: System, event: Event)
    requires event.Spend? && Allowed(sys, event)
    ensures var s, t := sys.state, Next(sys, event).state; KeepsReserved(s, t) && AddsNoChallenge(s, t)
  {
    var s, f := sys.state, sys.flight;
    SpendNext(sys, event);
    NothingKeepsReserved(s);
    SettledKeepsReserved(s, f.at, f.index, f.now);
    ChangedThenPruned(s, Settled(s, f.at, f.index, f.now), f.now);
    PrunedAddNone(s, Settled(s, f.at, f.index, f.now), f.now);
  }

  /** Every step keeps every reservation whose challenge it leaves in the file. */
  lemma StepKeepsReserved(sys: System, event: Event)
    requires Inv(sys) && Allowed(sys, event)
    ensures KeepsReserved(sys.state, Next(sys, event).state)
  {
    if event.Issue? {
      IssueKeepsReserved(sys, event);
    } else if event.Ask? {
      AskKeepsReserved(sys, event);
    } else if event.Spend? {
      SpendKeepsReserved(sys, event);
    } else if event.Approve? || event.Deny? {
      DecisionKeepsReserved(sys, event);
    } else {
      OtherStepsStay(sys, event);
      NothingKeepsReserved(sys.state);
    }
  }

  lemma OtherStepsStay(sys: System, event: Event)
    requires Allowed(sys, event) && !event.Issue? && !event.Ask? && !event.Spend? && !event.Approve? && !event.Deny?
    ensures Next(sys, event).state == sys.state
  {
  }

  /** No step brings back a challenge that is gone. */
  lemma StepBringsNoneBack(sys: System, event: Event, id: string)
    requires Inv(sys) && Allowed(sys, event) && id in sys.history.challengeIds
    ensures id in Next(sys, event).history.challengeIds
    ensures HasChallenge(Next(sys, event).state, id) ==> HasChallenge(sys.state, id)
  {
    var t := Next(sys, event).state;
    if j :| 0 <= j < |t.challenges| && t.challenges[j].id == id {
      assert t.challenges[j] in t.challenges;
      assert exists ch :: ch in sys.state.challenges && ch.id == id by {
        ChallengeWas(sys, event, t.challenges[j]);
      }
    }
  }

  /** A challenge of the file after a step was there before, or was just issued. */
  lemma ChallengeWas(sys: System, event: Event, ch: Challenge)
    requires Inv(sys) && Allowed(sys, event) && ch in Next(sys, event).state.challenges
    ensures (event.Issue? && ch.id == event.id) || WasIn(sys.state, ch)
  {
    match event
    case Ask(_, _, _, _, _, _, _, _) => AskedWas(sys, event, ch);
    case Spend(_) => SpendKeepsReserved(sys, event);
    case Approve(_, _, _) => DecisionKeepsReserved(sys, event);
    case Deny(_, _, _) => DecisionKeepsReserved(sys, event);
    case Issue(_, _, _, _, _) =>
    case _ =>
  }

  lemma AskedWas(sys: System, event: Event, ch: Challenge)
    requires event.Ask? && Allowed(sys, event) && ch in Next(sys, event).state.challenges
    ensures ch in sys.state.challenges
  {
    AskWrites(sys, event);
    if Present(sys.state, event.code, event.fingerprint, event.name, event.now, event.request).Enlist? {
      EnlistFacts(sys.state, event.code, event.fingerprint, event.name, event.now, event.request);
    }
  }

  lemma {:induction false} ChallengeWasThere(sys: System, run: seq<Event>, id: string)
    requires Inv(sys) && Possible(sys, run) && id in sys.history.challengeIds
    requires HasChallenge(After(sys, run).state, id)
    ensures HasChallenge(sys.state, id)
    decreases |run|
  {
    if run != [] {
      StepBringsNoneBack(sys, run[0], id);
      StepKeeps(sys, run[0]);
      ChallengeWasThere(Next(sys, run[0]), run[1..], id);
    }
  }

  /** Over any run, a reservation lasts as long as its challenge. */
  lemma {:induction false} ReservationLasts(sys: System, run: seq<Event>, c: Candidate) returns (d: Candidate)
    requires Inv(sys) && Possible(sys, run) && c in sys.state.candidates && c.device.Some?
    requires HasChallenge(After(sys, run).state, c.challenge)
    ensures d in After(sys, run).state.candidates && Lasts(c, d) && (d.status == Approved || d.status == Finalized)
    decreases |run|
  {
    if run == [] {
      d := c;
      ReservedIsDecided(sys, c);
    } else {
      var next := Next(sys, run[0]);
      StepKeeps(sys, run[0]);
      StepKeepsReserved(sys, run[0]);
      IssuedEarlier(sys, run[0], c);
      ChallengeWasThere(next, run[1..], c.challenge);
      assert IsKept(next.state, c);
      var k :| 0 <= k < |next.state.candidates| && Lasts(c, next.state.candidates[k]);
      d := ReservationLasts(next, run[1..], next.state.candidates[k]);
    }
  }

  lemma IssuedEarlier(sys: System, event: Event, c: Candidate)
    requires Inv(sys) && Allowed(sys, event) && c in sys.state.candidates
    ensures c.challenge in Next(sys, event).history.challengeIds
  {
    var ch :| ch in sys.state.challenges && ch.id == c.challenge;
    StepBringsNoneBack(sys, event, c.challenge);
  }

  lemma ReservedIsDecided(sys: System, c: Candidate)
    requires Inv(sys) && c in sys.state.candidates && c.device.Some?
    ensures c.status == Approved || c.status == Finalized
  {
    var ch :| ch in sys.state.challenges && ch.id == c.challenge;
    assert Fits(ch, c);
  }
}

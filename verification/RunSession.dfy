/** One session's list of the runs it follows, and what a poll of them sends. */
module RunSession {
  import opened Base
  import opened RunDelivery

  /** A run followed: its project, the routes it lives in, and the number of its events already sent. */
  datatype Watching = Watching(project: string, run: string, routes: nat, sent: nat)

  /** Who started a run, and in which routes. */
  datatype Owner = Owner(device: string, fingerprint: string, routes: nat)

  /** One message of a run: its event, or its end. */
  datatype Line = Line(project: string, run: string, message: Message)

  /**
   * What a session meets when it looks: how often routes were closed so far, the projects shared, which routes are
   * open for each, and what the routes of a run answer about it; `None` when they keep no such run.
   */
  datatype Look = Look(closings: nat, shared: set<string>, open: map<string, nat>,
                       events: Watching -> Option<(seq<Event>, bool)>)

  predicate SameRun(a: Watching, b: Watching) {
    a.project == b.project && a.run == b.run
  }

  predicate About(line: Line, w: Watching) {
    line.project == w.project && line.run == w.run
  }

  /** No run is followed twice. */
  predicate EachOnce(runs: seq<Watching>) {
    forall i, j | 0 <= i < j < |runs| :: !SameRun(runs[i], runs[j])
  }

  // ------------------------------------------------------------------ what is said

  /** A run no longer kept is taken as finished with nothing to send. */
  function Asked(look: Look, w: Watching): (seq<Event>, bool) {
    match look.events(w)
    case None => ([], true)
    case Some(answer) => answer
  }

  predicate IsOver(look: Look, w: Watching) {
    Asked(look, w).1 && Asked(look, w).0 == []
  }

  predicate Blank(s: string) {
    forall i | 0 <= i < |s| :: IsSpace(s[i])
  }

  /** An event as it is sent: one that says nothing is sent as an empty object. */
  function Sent(event: Event): Event {
    if Blank(event.payload) then event.(payload := "{}") else event
  }

  function Lines(w: Watching, events: seq<Event>): (r: seq<Line>)
    ensures |r| == |events| && forall i | 0 <= i < |r| :: r[i] == Line(w.project, w.run, Said(Sent(events[i])))
  {
    seq(|events|, i requires 0 <= i < |events| => Line(w.project, w.run, Said(Sent(events[i]))))
  }

  /** Lines about a run and what is left to follow of it. */
  datatype Polling = Polling(said: Watching -> seq<Line>, rest: Watching -> seq<Watching>)

  /** One poll of a run: its new events, or the end of a run that is over, which is then let go. */
  function Forwarding(look: Look): Polling {
    Polling(
      (w: Watching) => Lines(w, Asked(look, w).0) + if IsOver(look, w) then [Line(w.project, w.run, Ended)] else [],
      (w: Watching) => if IsOver(look, w) then [] else [w.(sent := w.sent + |Asked(look, w).0|)])
  }

  /** The routes the run lives in are still those of a shared project. */
  predicate IsOpen(look: Look, w: Watching) {
    w.project in look.shared && w.project in look.open && look.open[w.project] == w.routes
  }

  const STOPPED: string := "{\"error\":\"this project is no longer shared by this PC, so the run was stopped\"}"

  function Stopped(w: Watching): seq<Line> {
    [Line(w.project, w.run, Said(Event("failed", STOPPED))), Line(w.project, w.run, Ended)]
  }

  /** Letting go of runs in closed routes: each is reported failed and ended. */
  function Closing(look: Look): Polling {
    Polling((w: Watching) => if IsOpen(look, w) then [] else Stopped(w), (w: Watching) => if IsOpen(look, w) then [w] else [])
  }

  function Each<T>(runs: seq<Watching>, f: Watching -> seq<T>): seq<T> {
    if runs == [] then [] else Each(runs[..|runs| - 1], f) + f(runs[|runs| - 1])
  }

  /** Where routes were closed since the session last looked, the runs in them are let go first. */
  function Followed(look: Look, seen: nat, runs: seq<Watching>): seq<Watching> {
    if look.closings == seen then runs else Each(runs, Closing(look).rest)
  }

  function ClosedSaid(look: Look, seen: nat, runs: seq<Watching>): seq<Line> {
    if look.closings == seen then [] else Each(runs, Closing(look).said)
  }

  /** All that one look sends. */
  function AllSaid(look: Look, seen: nat, runs: seq<Watching>): seq<Line> {
    ClosedSaid(look, seen, runs) + Each(Followed(look, seen, runs), Forwarding(look).said)
  }

  // ------------------------------------------------------------------ the session

  /** A connection the session writes to; a write may fail, and then the session ends. */
  class Wire {
    var written: seq<Line>

    constructor ()
      ensures written == []
    {
      written := [];
    }

    method Send(line: Line) returns (ok: bool)
      modifies this
      ensures written == old(written) || written == old(written) + [line]
      ensures ok ==> written == old(written) + [line]
    {
      ok := *;
      var arrives: bool := *;
      if ok || arrives {
        written := written + [line];
      }
    }

    /** Send lines one after another, as far as it goes. */
    method SendAll(lines: seq<Line>) returns (ok: bool)
      modifies this
      ensures ok ==> written == old(written) + lines
      ensures old(written) <= written <= old(written) + lines
    {
      for i := 0 to |lines|
        invariant written == old(written) + lines[..i]
      {
        assert lines[..i + 1] == lines[..i] + [lines[i]];
        ok := Send(lines[i]);
        if !ok {
          return;
        }
      }
      assert lines[..|lines|] == lines;
      ok := true;
    }
  }

  datatype Answer = NoRunNamed | UnknownRun | NotYours | Following

  class Session {
    const device: string
    const fingerprint: string
    var runs: seq<Watching>
    var seen: nat

    constructor (device: string, fingerprint: string, closings: nat)
      ensures runs == [] && seen == closings && this.device == device && this.fingerprint == fingerprint
    {
      this.device, this.fingerprint := device, fingerprint;
      runs, seen := [], closings;
    }

    /** This device started the run, in these very routes. */
    predicate Owns(owners: map<(string, string), Owner>, project: string, run: string, routes: nat) {
      (project, run) in owners && owners[(project, run)] == Owner(device, fingerprint, routes)
    }

    /**
     * Follow a run from the event asked for, unless it is followed already; `known` says whether the routes keep it.
     * Only a run this device started is followed, and any other asker learns no more than that it is not theirs.
     */
    method Follow(project: string, routes: nat, named: Option<string>, from: nat, known: bool,
                  owners: map<(string, string), Owner>)
      returns (answer: Answer)
      requires EachOnce(runs)
      modifies `runs
      ensures EachOnce(runs)
      ensures answer == NoRunNamed <==> named.None?
      ensures answer == UnknownRun <==> named.Some? && !known
      ensures answer == Following <==>
        && named.Some? && known && (project, named.value) in owners
        && var owner := owners[(project, named.value)];
           owner.device == device && owner.fingerprint == fingerprint && owner.routes == routes
      ensures answer != Following ==> runs == old(runs)
      ensures answer == Following ==>
        runs == if exists i :: 0 <= i < |old(runs)| && old(runs)[i].project == project && old(runs)[i].run == named.value
                then old(runs) else old(runs) + [Watching(project, named.value, routes, from)]
    {
      if named.None? {
        return NoRunNamed;
      }
      if !known {
        return UnknownRun;
      }
      if !Owns(owners, project, named.value, routes) {
        return NotYours;
      }
      var w := Watching(project, named.value, routes, from);
      if forall i | 0 <= i < |runs| :: runs[i].project != project || runs[i].run != w.run {
        runs := runs + [w];
      }
      answer := Following;
    }

    /**
     * Poll the runs and tell the device. When every write succeeds, the runs in closed routes have been reported
     * stopped, each other run has been polled once, in order, and exactly those that are over are let go; when a write
     * fails, what was written is the beginning of that.
     */
    method ForwardRuns(look: Look, wire: Wire) returns (ok: bool)
      modifies this, wire
      ensures seen == look.closings
      ensures ok ==> wire.written == old(wire.written) + AllSaid(look, old(seen), old(runs))
      ensures ok ==> runs == Each(Followed(look, old(seen), old(runs)), Forwarding(look).rest)
      ensures wire.written <= old(wire.written) + AllSaid(look, old(seen), old(runs))
    {
      ghost var start, closed, followed := wire.written, ClosedSaid(look, seen, runs), Followed(look, seen, runs);
      ok := ForgetUnshared(look, wire);
      if !ok {
        BeginningOf(start, [], closed, AllSaid(look, old(seen), old(runs)), wire.written);
        return;
      }
      ok := ForwardAll(look, wire);
      Regroup(start, closed, Each(followed, Forwarding(look).said));
    }

    /** Where routes were closed since the session last looked, let go of the runs in them. */
    method ForgetUnshared(look: Look, wire: Wire) returns (ok: bool)
      modifies this, wire
      ensures seen == look.closings
      ensures ok ==> wire.written == old(wire.written) + ClosedSaid(look, old(seen), old(runs))
      ensures ok ==> runs == Followed(look, old(seen), old(runs))
      ensures wire.written <= old(wire.written) + ClosedSaid(look, old(seen), old(runs))
    {
      ok := true;
      if look.closings != seen {
        ok := EndUnsharedRuns(look, wire);
      }
    }

    /** Poll the runs one after another. */
    method ForwardAll(look: Look, wire: Wire) returns (ok: bool)
      modifies `runs, wire
      ensures ok ==> wire.written == old(wire.written) + Each(old(runs), Forwarding(look).said)
      ensures ok ==> runs == Each(old(runs), Forwarding(look).rest)
      ensures wire.written <= old(wire.written) + Each(old(runs), Forwarding(look).said)
    {
      ghost var start, before := wire.written, runs;
      NothingPolled(Forwarding(look), before);
      var index: nat := 0;
      ghost var said := [];
      while index < |runs|
        invariant index <= |runs|
        invariant Polled(Forwarding(look), before, runs[..index], runs[index..], said)
        invariant wire.written == start + said
        decreases |runs| - index
      {
        ghost var here, at := runs, index;
        ok, index := ForwardAt(look, wire, index);
        StepPolled(Forwarding(look), before, here, at, runs, index, ok, start, said, wire.written);
        said := said + Forwarding(look).said(here[at]);
        if !ok {
          return;
        }
      }
      assert runs[..index] == runs && runs[index..] == [];
      AllPolled(Forwarding(look), before, runs, said);
      ok := true;
    }

    /** Poll the run at `index`; `next` is where the runs not yet polled then start. */
    method ForwardAt(look: Look, wire: Wire, index: nat) returns (ok: bool, next: nat)
      requires index < |runs|
      modifies `runs, wire
      ensures ok ==> wire.written == old(wire.written) + Forwarding(look).said(old(runs[index]))
      ensures wire.written <= old(wire.written) + Forwarding(look).said(old(runs[index]))
      ensures ok ==> Moves(Forwarding(look), old(runs), index, runs, next)
    {
      var w := runs[index];
      var over;
      ok, over := ForwardOne(look, w, wire);
      next := index;
      if ok && over {
        Removed(runs, index);
        runs := runs[..index] + runs[index + 1..];
      } else if ok {
        var later := w.(sent := w.sent + |Asked(look, w).0|);
        Moved(runs, index, later);
        runs := runs[index := later];
        next := index + 1;
      }
    }

    /** Send what one run has said, and its end if it is over. */
    method ForwardOne(look: Look, w: Watching, wire: Wire) returns (ok: bool, over: bool)
      modifies wire
      ensures over <==> IsOver(look, w)
      ensures ok ==> wire.written == old(wire.written) + Forwarding(look).said(w)
      ensures wire.written <= old(wire.written) + Forwarding(look).said(w)
    {
      var events, finished := Asked(look, w).0, Asked(look, w).1;
      over := finished && events == [];
      ok := wire.SendAll(Lines(w, events));
      if ok && over {
        ok := wire.Send(Line(w.project, w.run, Ended));
      }
    }

    /** Report ended each run in routes that were closed, and send nothing more of it. */
    method EndUnsharedRuns(look: Look, wire: Wire) returns (ok: bool)
      modifies this, wire
      ensures seen == look.closings
      ensures ok ==> wire.written == old(wire.written) + Each(old(runs), Closing(look).said)
      ensures ok ==> runs == Each(old(runs), Closing(look).rest)
      ensures wire.written <= old(wire.written) + Each(old(runs), Closing(look).said)
    {
      seen := look.closings;
      ghost var start, before := wire.written, runs;
      NothingPolled(Closing(look), before);
      var index: nat := 0;
      ghost var said := [];
      while index < |runs|
        invariant index <= |runs| && seen == look.closings
        invariant Polled(Closing(look), before, runs[..index], runs[index..], said)
        invariant wire.written == start + said
        decreases |runs| - index
      {
        ghost var here, at := runs, index;
        ok, index := EndAt(look, wire, index);
        StepPolled(Closing(look), before, here, at, runs, index, ok, start, said, wire.written);
        said := said + Closing(look).said(here[at]);
        if !ok {
          return;
        }
      }
      assert runs[..index] == runs && runs[index..] == [];
      AllPolled(Closing(look), before, runs, said);
      ok := true;
    }

    /** Let go of the run at `index` if it is in closed routes. */
    method EndAt(look: Look, wire: Wire, index: nat) returns (ok: bool, next: nat)
      requires index < |runs|
      modifies `runs, wire
      ensures ok ==> wire.written == old(wire.written) + Closing(look).said(old(runs[index]))
      ensures wire.written <= old(wire.written) + Closing(look).said(old(runs[index]))
      ensures ok ==> Moves(Closing(look), old(runs), index, runs, next)
    {
      var w := runs[index];
      if IsOpen(look, w) {
        Moved(runs, index, w);
        assert runs[index := w] == runs;
        ok, next := true, index + 1;
      } else {
        Removed(runs, index);
        runs := runs[..index] + runs[index + 1..];
        next := index;
        ok := wire.SendAll(Stopped(w));
      }
    }
  }

  // ------------------------------------------------------------------ the loops

  lemma Removed(runs: seq<Watching>, index: nat)
    requires index < |runs|
    ensures var r := runs[..index] + runs[index + 1..];
      r[..index] == runs[..index] + [] && r[index..] == runs[index..][1..]
  {
  }

  lemma Moved(runs: seq<Watching>, index: nat, w: Watching)
    requires index < |runs|
    ensures var r := runs[index := w];
      r[..index + 1] == runs[..index] + [w] && r[index + 1..] == runs[index..][1..]
  {
  }

  lemma Regroup(a: seq<Line>, b: seq<Line>, c: seq<Line>)
    ensures a + b + c == a + (b + c)
  {
  }

  lemma {:induction false} PrefixOfEach<T>(runs: seq<Watching>, f: Watching -> seq<T>, n: nat)
    requires n <= |runs|
    ensures Each(runs[..n], f) <= Each(runs, f)
    decreases |runs|
  {
    if n < |runs| {
      assert runs[..n] == runs[..|runs| - 1][..n];
      PrefixOfEach(runs[..|runs| - 1], f, n);
    } else {
      assert runs[..n] == runs;
    }
  }

  /** All but the last `todo` runs have been polled; `kept` are those that remain, and `said` what they sent. */
  ghost predicate Polled(p: Polling, before: seq<Watching>, kept: seq<Watching>, todo: seq<Watching>, said: seq<Line>) {
    && |todo| <= |before| && todo == before[|before| - |todo|..]
    && kept == Each(before[..|before| - |todo|], p.rest)
    && said == Each(before[..|before| - |todo|], p.said)
  }

  lemma NothingPolled(p: Polling, before: seq<Watching>)
    ensures Polled(p, before, before[..0], before[0..], [])
  {
  }

  lemma {:induction false} AllPolled(p: Polling, before: seq<Watching>, kept: seq<Watching>, said: seq<Line>)
    requires Polled(p, before, kept, [], said)
    ensures kept == Each(before, p.rest) && said == Each(before, p.said)
  {
    assert before[..|before|] == before;
  }

  lemma {:induction false} PolledNext(p: Polling, before: seq<Watching>, kept: seq<Watching>, todo: seq<Watching>,
                                      said: seq<Line>)
    requires Polled(p, before, kept, todo, said) && todo != []
    ensures said + p.said(todo[0]) <= Each(before, p.said)
    ensures Polled(p, before, kept + p.rest(todo[0]), todo[1..], said + p.said(todo[0]))
  {
    var done := |before| - |todo|;
    assert before[..done + 1][..done] == before[..done];
    assert before[..done + 1][done] == todo[0];
    PrefixOfEach(before, p.said, done + 1);
  }

  /** The run at `index` gave way to what is left of it, and the runs after it follow from `next` on. */
  ghost predicate Moves(p: Polling, runs: seq<Watching>, index: nat, later: seq<Watching>, next: nat) {
    && index < |runs| && next <= |later| && later[..next] == runs[..index] + p.rest(runs[index])
    && later[next..] == runs[index..][1..]
  }

  lemma {:induction false} StepPolled(p: Polling, before: seq<Watching>, runs: seq<Watching>, index: nat,
                                      later: seq<Watching>, next: nat, ok: bool, start: seq<Line>, said: seq<Line>,
                                      written: seq<Line>)
    requires index < |runs| && Polled(p, before, runs[..index], runs[index..], said)
    requires written <= start + said + p.said(runs[index])
    requires ok ==> Moves(p, runs, index, later, next) && written == start + said + p.said(runs[index])
    ensures written <= start + Each(before, p.said)
    ensures ok ==>
      && next <= |later| && |later| - next < |runs| - index
      && Polled(p, before, later[..next], later[next..], said + p.said(runs[index]))
      && written == start + (said + p.said(runs[index]))
  {
    PolledNext(p, before, runs[..index], runs[index..], said);
    BeginningOf(start, said, p.said(runs[index]), Each(before, p.said), written);
    Regroup(start, said, p.said(runs[index]));
    if ok {
      assert |later[next..]| == |runs[index..]| - 1;
    }
  }

  lemma BeginningOf(start: seq<Line>, before: seq<Line>, next: seq<Line>, all: seq<Line>, written: seq<Line>)
    requires before + next <= all && written <= start + before + next
    ensures written <= start + all
  {
    assert start + before + next == start + (before + next);
    assert start + (before + next) <= start + all;
  }

  // ------------------------------------------------------------------ what a look keeps

  /** Of each run, at most the same run is left, and only that run is spoken of. */
  ghost predicate Plain(p: Polling) {
    forall w :: |p.rest(w)| <= 1
      && (forall i | 0 <= i < |p.rest(w)| :: SameRun(p.rest(w)[i], w))
      && forall i | 0 <= i < |p.said(w)| :: About(p.said(w)[i], w)
  }

  lemma ForwardingIsPlain(look: Look)
    ensures Plain(Forwarding(look))
  {
    forall w: Watching
      ensures forall i | 0 <= i < |Forwarding(look).said(w)| :: About(Forwarding(look).said(w)[i], w)
      ensures forall i | 0 <= i < |Forwarding(look).rest(w)| :: SameRun(Forwarding(look).rest(w)[i], w)
    {
    }
  }

  lemma ClosingIsPlain(look: Look)
    ensures Plain(Closing(look))
  {
    forall w: Watching
      ensures forall i | 0 <= i < |Closing(look).said(w)| :: About(Closing(look).said(w)[i], w)
    {
    }
  }

  lemma PollingsArePlain(look: Look)
    ensures Plain(Forwarding(look)) && Plain(Closing(look))
  {
    ForwardingIsPlain(look);
    ClosingIsPlain(look);
  }

  lemma {:induction false} FromRuns(p: Polling, runs: seq<Watching>)
    requires Plain(p)
    ensures forall w | w in Each(runs, p.rest) :: exists i :: 0 <= i < |runs| && SameRun(w, runs[i]) && w in p.rest(runs[i])
    ensures forall l | l in Each(runs, p.said) :: exists i :: 0 <= i < |runs| && About(l, runs[i]) && l in p.said(runs[i])
  {
    if runs != [] {
      var n := |runs| - 1;
      FromRuns(p, runs[..n]);
      forall w | w in Each(runs, p.rest)
        ensures exists i :: 0 <= i < |runs| && SameRun(w, runs[i]) && w in p.rest(runs[i])
      {
        if w in Each(runs[..n], p.rest) {
          var i :| 0 <= i < n && SameRun(w, runs[..n][i]) && w in p.rest(runs[..n][i]);
          assert SameRun(w, runs[i]);
        } else {
          assert SameRun(w, runs[n]);
        }
      }
      forall l | l in Each(runs, p.said)
        ensures exists i :: 0 <= i < |runs| && About(l, runs[i]) && l in p.said(runs[i])
      {
        if l in Each(runs[..n], p.said) {
          var i :| 0 <= i < n && About(l, runs[..n][i]) && l in p.said(runs[..n][i]);
          assert About(l, runs[i]);
        } else {
          assert About(l, runs[n]);
        }
      }
    }
  }

  lemma {:induction false} EachStaysOnce(p: Polling, runs: seq<Watching>)
    requires Plain(p) && EachOnce(runs)
    ensures EachOnce(Each(runs, p.rest))
  {
    if runs != [] {
      var n := |runs| - 1;
      EachStaysOnce(p, runs[..n]);
      var rest := Each(runs[..n], p.rest);
      FromRuns(p, runs[..n]);
      forall i | 0 <= i < |rest|
        ensures !SameRun(rest[i], runs[n])
      {
        assert rest[i] in rest;
        var k :| 0 <= k < n && SameRun(rest[i], runs[..n][k]);
        assert !SameRun(runs[k], runs[n]);
      }
    }
  }

  /** A look follows no run twice, and takes up none. */
  lemma RemainingOnce(look: Look, seen: nat, runs: seq<Watching>)
    requires EachOnce(runs)
    ensures var later := Each(Followed(look, seen, runs), Forwarding(look).rest);
      EachOnce(later) && forall w | w in later :: exists i :: 0 <= i < |runs| && SameRun(w, runs[i])
  {
    PollingsArePlain(look);
    var followed := Followed(look, seen, runs);
    EachStaysOnce(Closing(look), runs);
    FromRuns(Closing(look), runs);
    EachStaysOnce(Forwarding(look), followed);
    FromRuns(Forwarding(look), followed);
    forall w | w in Each(followed, Forwarding(look).rest)
      ensures exists i :: 0 <= i < |runs| && SameRun(w, runs[i])
    {
      var k :| 0 <= k < |followed| && SameRun(w, followed[k]);
      if look.closings != seen {
        assert followed[k] in Each(runs, Closing(look).rest);
        var i :| 0 <= i < |runs| && SameRun(followed[k], runs[i]);
        assert SameRun(w, runs[i]);
      }
    }
  }

  lemma SameIsSame(runs: seq<Watching>, i: nat, k: nat)
    requires EachOnce(runs) && i < |runs| && k < |runs|
    ensures SameRun(runs[k], runs[i]) ==> k == i
  {
    if k < i {
      assert !SameRun(runs[k], runs[i]);
    } else if i < k {
      assert !SameRun(runs[i], runs[k]);
    }
  }

  /**
   * Once routes were closed, nothing more of a run in them passes: all the device hears of it is that it failed and
   * ended, and it is followed no longer.
   */
  lemma ClosedRunIsSilent(look: Look, seen: nat, runs: seq<Watching>, i: nat)
    requires EachOnce(runs) && i < |runs| && look.closings != seen && !IsOpen(look, runs[i])
    ensures forall l | l in AllSaid(look, seen, runs) && About(l, runs[i]) :: l in Stopped(runs[i])
    ensures forall w | w in Each(Followed(look, seen, runs), Forwarding(look).rest) :: !SameRun(w, runs[i])
  {
    PollingsArePlain(look);
    var followed := Followed(look, seen, runs);
    FromRuns(Closing(look), runs);
    FromRuns(Forwarding(look), followed);
    NotFollowed(look, runs, i);
    forall l | l in Each(runs, Closing(look).said) && About(l, runs[i])
      ensures l in Stopped(runs[i])
    {
      var k :| 0 <= k < |runs| && About(l, runs[k]) && l in Closing(look).said(runs[k]);
      SameIsSame(runs, i, k);
    }
    forall l | l in Each(followed, Forwarding(look).said)
      ensures !About(l, runs[i])
    {
      var k :| 0 <= k < |followed| && About(l, followed[k]);
      assert !SameRun(followed[k], runs[i]) by {
        assert followed[k] in followed;
      }
    }
    forall w | w in Each(followed, Forwarding(look).rest)
      ensures !SameRun(w, runs[i])
    {
      var k :| 0 <= k < |followed| && SameRun(w, followed[k]);
      assert followed[k] in followed;
    }
  }

  lemma {:induction false} NotFollowed(look: Look, runs: seq<Watching>, i: nat)
    requires EachOnce(runs) && i < |runs| && !IsOpen(look, runs[i])
    ensures forall w | w in Each(runs, Closing(look).rest) :: !SameRun(w, runs[i])
  {
    PollingsArePlain(look);
    FromRuns(Closing(look), runs);
    forall w | w in Each(runs, Closing(look).rest)
      ensures !SameRun(w, runs[i])
    {
      var k :| 0 <= k < |runs| && SameRun(w, runs[k]) && w in Closing(look).rest(runs[k]);
      SameIsSame(runs, i, k);
    }
  }

  /** What is sent always has something in it, and an event that has is sent as it is. */
  lemma SentSaysSomething(event: Event)
    ensures exists i :: 0 <= i < |Sent(event).payload| && !IsSpace(Sent(event).payload[i])
    ensures Sent(event).name == event.name
    ensures (exists i :: 0 <= i < |event.payload| && !IsSpace(event.payload[i])) ==> Sent(event) == event
    ensures (forall i | 0 <= i < |event.payload| :: IsSpace(event.payload[i])) ==> Sent(event).payload == "{}"
  {
    var sent := Sent(event).payload;
    if Blank(event.payload) {
      assert sent[0] == '{' && !IsSpace(sent[0]);
    } else {
      var i :| 0 <= i < |event.payload| && !IsSpace(event.payload[i]);
      assert sent == event.payload && !IsSpace(sent[i]);
    }
  }

  // ------------------------------------------------------------------ many looks

  /** The runs followed after a look whose every write succeeded. */
  function RunsAfter(look: Look, seen: nat, runs: seq<Watching>): seq<Watching> {
    Each(Followed(look, seen, runs), Forwarding(look).rest)
  }

  /** All that these looks send, one after another. */
  function SaidByAll(looks: seq<Look>, seen: nat, runs: seq<Watching>): seq<Line>
    decreases |looks|
  {
    if looks == [] then []
    else AllSaid(looks[0], seen, runs) + SaidByAll(looks[1..], looks[0].closings, RunsAfter(looks[0], seen, runs))
  }

  function RunsAfterAll(looks: seq<Look>, seen: nat, runs: seq<Watching>): seq<Watching>
    decreases |looks|
  {
    if looks == [] then runs else RunsAfterAll(looks[1..], looks[0].closings, RunsAfter(looks[0], seen, runs))
  }

  function AboutRun(w: Watching): Line -> bool { (l: Line) => l.project == w.project && l.run == w.run }

  function SameAs(w: Watching): Watching -> bool { (v: Watching) => v.project == w.project && v.run == w.run }

  /** What the routes know of a run at one look. */
  datatype Told = Told(log: seq<Event>, finished: bool)

  /** The routes the run lives in are the open ones of a shared project. */
  predicate InOpenRoutes(look: Look, w: Watching) {
    w.project in look.shared && w.project in look.open && look.open[w.project] == w.routes
  }

  /** The routes answer about the run with its log from the first event not yet sent. */
  ghost predicate Tells(look: Look, w: Watching, told: Told) {
    forall v: Watching | v.project == w.project && v.run == w.run && v.routes == w.routes ::
      look.events(v) == Some((Rest(told.log, v.sent), told.finished))
  }

  /** A log only grows, and stays as it is once the run has finished. */
  predicate Grows(tolds: seq<Told>) {
    |tolds| >= 2 ==>
      && tolds[0].log <= tolds[1].log && (tolds[0].finished ==> tolds[1] == tolds[0])
      && Grows(tolds[1..])
  }

  function Furthest(sent: nat, log: seq<Event>): nat {
    if sent < |log| then |log| else sent
  }

  /** Some look finds the run finished and nothing in its log that was not sent before. */
  predicate Over(tolds: seq<Told>, sent: nat) {
    tolds != [] &&
    ((tolds[0].finished && |tolds[0].log| <= sent) || Over(tolds[1..], Furthest(sent, tolds[0].log)))
  }

  // ----- one run among others

  lemma {:induction false} FilterAll<T>(a: seq<T>, p: T -> bool)
    requires forall x | x in a :: p(x)
    ensures Filter(a, p) == a
  {
    if a != [] {
      FilterAll(a[..|a| - 1], p);
      assert a[|a| - 1] in a && a == a[..|a| - 1] + [a[|a| - 1]];
    }
  }

  lemma {:induction false} FilterNone<T>(a: seq<T>, p: T -> bool)
    requires forall x | x in a :: !p(x)
    ensures Filter(a, p) == []
  {
    if a != [] {
      FilterNone(a[..|a| - 1], p);
      assert a[|a| - 1] in a;
    }
  }

  /** Filtering what each run gives is giving what each run's filtered part is. */
  lemma {:induction false} EachFiltered<T>(runs: seq<Watching>, f: Watching -> seq<T>, p: T -> bool, g: Watching -> seq<T>)
    requires forall v :: g(v) == Filter(f(v), p)
    ensures Filter(Each(runs, f), p) == Each(runs, g)
  {
    if runs != [] {
      var n := |runs| - 1;
      EachFiltered(runs[..n], f, p, g);
      FilterJoins(Each(runs[..n], f), f(runs[n]), p);
    }
  }

  lemma {:induction false} EachEmpty<T>(runs: seq<Watching>, g: Watching -> seq<T>)
    requires forall i | 0 <= i < |runs| :: g(runs[i]) == []
    ensures Each(runs, g) == []
  {
    if runs != [] {
      EachEmpty(runs[..|runs| - 1], g);
    }
  }

  lemma {:induction false} EachSingle<T>(runs: seq<Watching>, g: Watching -> seq<T>, k: nat)
    requires k < |runs| && forall i | 0 <= i < |runs| && i != k :: g(runs[i]) == []
    ensures Each(runs, g) == g(runs[k])
  {
    var n := |runs| - 1;
    if k == n {
      EachEmpty(runs[..n], g);
      NothingMore(g(runs[n]));
    } else {
      EachSingle(runs[..n], g, k);
      NothingMore(g(runs[k]));
    }
  }

  lemma {:induction false} EachNone<T>(runs: seq<Watching>, f: Watching -> seq<T>, p: T -> bool)
    requires forall i | 0 <= i < |runs| :: Filter(f(runs[i]), p) == []
    ensures Filter(Each(runs, f), p) == []
  {
    var g := (v: Watching) => Filter(f(v), p);
    EachFiltered(runs, f, p, g);
    EachEmpty(runs, g);
  }

  lemma {:induction false} EachOne<T>(runs: seq<Watching>, f: Watching -> seq<T>, p: T -> bool, k: nat)
    requires k < |runs| && Filter(f(runs[k]), p) == f(runs[k])
    requires forall i | 0 <= i < |runs| && i != k :: Filter(f(runs[i]), p) == []
    ensures Filter(Each(runs, f), p) == f(runs[k])
  {
    var g := (v: Watching) => Filter(f(v), p);
    EachFiltered(runs, f, p, g);
    EachSingle(runs, g, k);
  }

  lemma NothingMore<T>(a: seq<T>)
    ensures [] + a == a && a + [] == a
  {
  }

  /** Where each run is followed once, a polling says about one of them what it says of it, and leaves of it what is left. */
  lemma {:induction false} OneOfEach(p: Polling, runs: seq<Watching>, w: Watching)
    requires Plain(p) && EachOnce(runs)
    ensures var mine := Filter(runs, SameAs(w));
      && (mine == [] ==> Filter(Each(runs, p.said), AboutRun(w)) == [] && Filter(Each(runs, p.rest), SameAs(w)) == [])
      && (mine != [] ==>
            && mine == [mine[0]] && SameRun(mine[0], w)
            && Filter(Each(runs, p.said), AboutRun(w)) == p.said(mine[0])
            && Filter(Each(runs, p.rest), SameAs(w)) == p.rest(mine[0]))
  {
    if k :| 0 <= k < |runs| && SameRun(runs[k], w) {
      MineIsOne(runs, w, k);
      forall i | 0 <= i < |runs| && i != k
        ensures Filter(p.said(runs[i]), AboutRun(w)) == [] && Filter(p.rest(runs[i]), SameAs(w)) == []
      {
        SameIsSame(runs, k, i);
        OthersSayNothing(p, runs[i], w);
      }
      OwnIsAll(p, runs[k], w);
      EachOne(runs, p.said, AboutRun(w), k);
      EachOne(runs, p.rest, SameAs(w), k);
    } else {
      FilterNone(runs, SameAs(w));
      forall i | 0 <= i < |runs|
        ensures Filter(p.said(runs[i]), AboutRun(w)) == [] && Filter(p.rest(runs[i]), SameAs(w)) == []
      {
        OthersSayNothing(p, runs[i], w);
      }
      EachNone(runs, p.said, AboutRun(w));
      EachNone(runs, p.rest, SameAs(w));
    }
  }

  function Itself(v: Watching): seq<Watching> { [v] }

  lemma {:induction false} EachItself(runs: seq<Watching>)
    ensures Each(runs, Itself) == runs
  {
    if runs != [] {
      EachItself(runs[..|runs| - 1]);
      assert runs == runs[..|runs| - 1] + [runs[|runs| - 1]];
    }
  }

  lemma {:induction false} MineIsOne(runs: seq<Watching>, w: Watching, k: nat)
    requires EachOnce(runs) && k < |runs| && SameRun(runs[k], w)
    ensures Filter(runs, SameAs(w)) == [runs[k]]
  {
    EachItself(runs);
    forall i | 0 <= i < |runs| && i != k
      ensures Filter(Itself(runs[i]), SameAs(w)) == []
    {
      SameIsSame(runs, k, i);
      FilterNone([runs[i]], SameAs(w));
    }
    FilterAll([runs[k]], SameAs(w));
    EachOne(runs, Itself, SameAs(w), k);
  }

  lemma OthersSayNothing(p: Polling, v: Watching, w: Watching)
    requires Plain(p) && !SameRun(v, w)
    ensures Filter(p.said(v), AboutRun(w)) == [] && Filter(p.rest(v), SameAs(w)) == []
  {
    FilterNone(p.said(v), AboutRun(w));
    FilterNone(p.rest(v), SameAs(w));
  }

  lemma OwnIsAll(p: Polling, v: Watching, w: Watching)
    requires Plain(p) && SameRun(v, w)
    ensures Filter(p.said(v), AboutRun(w)) == p.said(v) && Filter(p.rest(v), SameAs(w)) == p.rest(v)
  {
    FilterAll(p.said(v), AboutRun(w));
    FilterAll(p.rest(v), SameAs(w));
  }

  // ----- one run through one look

  lemma {:induction false} StillFollowed(look: Look, seen: nat, runs: seq<Watching>, w: Watching, v: Watching)
    requires EachOnce(runs) && Filter(runs, SameAs(w)) == [v] && v.routes == w.routes
    requires look.closings == seen || InOpenRoutes(look, w)
    ensures EachOnce(Followed(look, seen, runs)) && SameRun(v, w)
    ensures Filter(Followed(look, seen, runs), SameAs(w)) == [v] && Filter(ClosedSaid(look, seen, runs), AboutRun(w)) == []
  {
    ClosingIsPlain(look);
    EachStaysOnce(Closing(look), runs);
    OneOfEach(Closing(look), runs, w);
  }

  /** What one look says about a run in open routes, and what is left of it. */
  lemma {:induction false} LookAtOne(look: Look, seen: nat, runs: seq<Watching>, w: Watching, v: Watching, told: Told)
    requires EachOnce(runs) && Filter(runs, SameAs(w)) == [v] && v.routes == w.routes && Tells(look, w, told)
    requires look.closings == seen || InOpenRoutes(look, w)
    ensures EachOnce(RunsAfter(look, seen, runs)) && SameRun(v, w)
    ensures Filter(AllSaid(look, seen, runs), AboutRun(w)) == Forwarding(look).said(v)
    ensures Filter(RunsAfter(look, seen, runs), SameAs(w)) == Forwarding(look).rest(v)
  {
    StillFollowed(look, seen, runs, w, v);
    RemainingOnce(look, seen, runs);
    ForwardingIsPlain(look);
    var followed := Followed(look, seen, runs);
    OneOfEach(Forwarding(look), followed, w);
    FilterJoins(ClosedSaid(look, seen, runs), Each(followed, Forwarding(look).said), AboutRun(w));
  }

  lemma {:induction false} LookAtNone(look: Look, seen: nat, runs: seq<Watching>, w: Watching)
    requires EachOnce(runs) && Filter(runs, SameAs(w)) == []
    ensures EachOnce(RunsAfter(look, seen, runs))
    ensures Filter(AllSaid(look, seen, runs), AboutRun(w)) == []
    ensures Filter(RunsAfter(look, seen, runs), SameAs(w)) == []
  {
    PollingsArePlain(look);
    RemainingOnce(look, seen, runs);
    var followed := Followed(look, seen, runs);
    EachStaysOnce(Closing(look), runs);
    OneOfEach(Closing(look), runs, w);
    OneOfEach(Forwarding(look), followed, w);
    FilterJoins(ClosedSaid(look, seen, runs), Each(followed, Forwarding(look).said), AboutRun(w));
  }

  lemma {:induction false} NeverAgain(looks: seq<Look>, seen: nat, runs: seq<Watching>, w: Watching)
    requires EachOnce(runs) && Filter(runs, SameAs(w)) == []
    ensures Filter(SaidByAll(looks, seen, runs), AboutRun(w)) == []
    ensures Filter(RunsAfterAll(looks, seen, runs), SameAs(w)) == []
    decreases |looks|
  {
    if looks != [] {
      LookAtNone(looks[0], seen, runs, w);
      NeverAgain(looks[1..], looks[0].closings, RunsAfter(looks[0], seen, runs), w);
      FilterJoins(AllSaid(looks[0], seen, runs), SaidByAll(looks[1..], looks[0].closings, RunsAfter(looks[0], seen, runs)), AboutRun(w));
    }
  }

  /** The end of a run whose routes were closed: failed and ended, and nothing else. */
  lemma ClosedRunIsEnded(look: Look, seen: nat, runs: seq<Watching>, w: Watching)
    requires EachOnce(runs) && w in runs && look.closings != seen && !InOpenRoutes(look, w)
    ensures Filter(AllSaid(look, seen, runs), AboutRun(w))
         == [Line(w.project, w.run, Said(Event("failed", STOPPED))), Line(w.project, w.run, Ended)]
    ensures Filter(RunsAfter(look, seen, runs), SameAs(w)) == []
  {
    var k :| 0 <= k < |runs| && runs[k] == w;
    MineIsOne(runs, w, k);
    PollingsArePlain(look);
    var followed := Followed(look, seen, runs);
    EachStaysOnce(Closing(look), runs);
    OneOfEach(Closing(look), runs, w);
    OneOfEach(Forwarding(look), followed, w);
    FilterJoins(ClosedSaid(look, seen, runs), Each(followed, Forwarding(look).said), AboutRun(w));
    NothingMore(Stopped(w));
  }

  // ----- one run through many looks

  /** The end of a run, if it is over. */
  function EndIf(w: Watching, over: bool): seq<Line> {
    if over then [Line(w.project, w.run, Ended)] else []
  }

  lemma {:induction false} GrowsToLast(tolds: seq<Told>)
    requires Grows(tolds) && tolds != []
    ensures tolds[0].log <= tolds[|tolds| - 1].log && (tolds[0].finished ==> tolds[|tolds| - 1] == tolds[0])
  {
    if |tolds| >= 2 {
      GrowsToLast(tolds[1..]);
    }
  }

  lemma LinesJoin(w: Watching, a: seq<Event>, b: seq<Event>)
    ensures Lines(w, a + b) == Lines(w, a) + Lines(w, b)
  {
  }

  lemma RestJoins(first: seq<Event>, last: seq<Event>, sent: nat)
    requires first <= last
    ensures Rest(last, sent) == Rest(first, sent) + Rest(last, Furthest(sent, first))
  {
    if sent < |first| {
      assert last == first + last[|first|..];
    }
  }

  /** What one poll of a run says, and what it leaves. */
  lemma PolledOnce(look: Look, w: Watching, v: Watching, told: Told)
    requires SameRun(v, w) && v.routes == w.routes && Tells(look, w, told)
    ensures var over := told.finished && |told.log| <= v.sent;
      && Forwarding(look).said(v) == Lines(w, Rest(told.log, v.sent)) + EndIf(w, over)
      && Forwarding(look).rest(v) == if over then [] else [v.(sent := Furthest(v.sent, told.log))]
  {
    assert look.events(v) == Some((Rest(told.log, v.sent), told.finished));
    assert Rest(told.log, v.sent) == [] <==> |told.log| <= v.sent;
  }

  /** What was said about a run is its log from the first event not sent before, and its end if it is over. */
  ghost predicate Delivered(said: seq<Line>, left: seq<Watching>, w: Watching, v: Watching, log: seq<Event>, over: bool) {
    && said == Lines(w, Rest(log, v.sent)) + EndIf(w, over)
    && left == if over then [] else [v.(sent := Furthest(v.sent, log))]
  }

  lemma DeliveredMore(a: seq<Line>, b: seq<Line>, left: seq<Watching>, w: Watching, v: Watching, first: seq<Event>,
                      last: seq<Event>, over: bool)
    requires first <= last && Delivered(a, [v.(sent := Furthest(v.sent, first))], w, v, first, false)
    requires Delivered(b, left, w, v.(sent := Furthest(v.sent, first)), last, over)
    ensures Delivered(a + b, left, w, v, last, over)
  {
    RestJoins(first, last, v.sent);
    LinesJoin(w, Rest(first, v.sent), Rest(last, Furthest(v.sent, first)));
    Between(Lines(w, Rest(first, v.sent)), Lines(w, Rest(last, Furthest(v.sent, first))), EndIf(w, over));
  }

  lemma Between(a: seq<Line>, b: seq<Line>, c: seq<Line>)
    ensures (a + []) + (b + c) == (a + b) + c
  {
  }

  lemma DeliveredAll(a: seq<Line>, b: seq<Line>, left: seq<Watching>, w: Watching, v: Watching, log: seq<Event>, over: bool)
    requires Delivered(a, left, w, v, log, over) && b == []
    ensures Delivered(a + b, left, w, v, log, over)
  {
    assert a + b == a;
  }

  lemma {:induction false} LookStep(look: Look, seen: nat, runs: seq<Watching>, w: Watching, v: Watching, told: Told)
    requires EachOnce(runs) && Filter(runs, SameAs(w)) == [v] && SameRun(v, w) && v.routes == w.routes && Tells(look, w, told)
    requires look.closings == seen || InOpenRoutes(look, w)
    ensures EachOnce(RunsAfter(look, seen, runs))
    ensures Delivered(Filter(AllSaid(look, seen, runs), AboutRun(w)), Filter(RunsAfter(look, seen, runs), SameAs(w)), w, v,
                      told.log, told.finished && |told.log| <= v.sent)
  {
    LookAtOne(look, seen, runs, w, v, told);
    PolledOnce(look, w, v, told);
  }

  lemma {:induction false} SaidByMore(looks: seq<Look>, seen: nat, runs: seq<Watching>, w: Watching)
    requires looks != []
    ensures var next := RunsAfter(looks[0], seen, runs);
      && Filter(SaidByAll(looks, seen, runs), AboutRun(w))
         == Filter(AllSaid(looks[0], seen, runs), AboutRun(w)) + Filter(SaidByAll(looks[1..], looks[0].closings, next), AboutRun(w))
      && RunsAfterAll(looks, seen, runs) == RunsAfterAll(looks[1..], looks[0].closings, next)
  {
    var next := RunsAfter(looks[0], seen, runs);
    FilterJoins(AllSaid(looks[0], seen, runs), SaidByAll(looks[1..], looks[0].closings, next), AboutRun(w));
  }

  lemma {:induction false} NoMoreLooks(looks: seq<Look>, seen: nat, runs: seq<Watching>)
    requires looks == []
    ensures SaidByAll(looks, seen, runs) == [] && RunsAfterAll(looks, seen, runs) == runs
  {
  }

  /** A look is told the run's log, and finds it in open routes unless none were closed since the look before. */
  ghost predicate TellsSince(look: Look, seen: nat, w: Watching, told: Told) {
    Tells(look, w, told) && (look.closings == seen || InOpenRoutes(look, w))
  }

  ghost predicate AllTell(looks: seq<Look>, seen: nat, w: Watching, tolds: seq<Told>) {
    && |looks| == |tolds|
    && (looks != [] ==> TellsSince(looks[0], seen, w, tolds[0]) && AllTell(looks[1..], looks[0].closings, w, tolds[1..]))
  }

  /** What these looks send about the run, and what is left of it. */
  ghost predicate Goes(looks: seq<Look>, seen: nat, runs: seq<Watching>, w: Watching, v: Watching, log: seq<Event>,
                       over: bool) {
    Delivered(Filter(SaidByAll(looks, seen, runs), AboutRun(w)), Filter(RunsAfterAll(looks, seen, runs), SameAs(w)), w, v, log, over)
  }

  lemma {:induction false} GoesOver(looks: seq<Look>, seen: nat, runs: seq<Watching>, w: Watching, v: Watching, told: Told)
    requires EachOnce(runs) && Filter(runs, SameAs(w)) == [v] && SameRun(v, w) && v.routes == w.routes && looks != []
    requires TellsSince(looks[0], seen, w, told) && told.finished && |told.log| <= v.sent
    ensures Goes(looks, seen, runs, w, v, told.log, true)
  {
    var next := RunsAfter(looks[0], seen, runs);
    LookStep(looks[0], seen, runs, w, v, told);
    SaidByMore(looks, seen, runs, w);
    NeverAgain(looks[1..], looks[0].closings, next, w);
    DeliveredAll(Filter(AllSaid(looks[0], seen, runs), AboutRun(w)), [], [], w, v, told.log, true);
  }

  lemma {:induction false} GoesLast(looks: seq<Look>, seen: nat, runs: seq<Watching>, w: Watching, v: Watching, told: Told)
    requires EachOnce(runs) && Filter(runs, SameAs(w)) == [v] && SameRun(v, w) && v.routes == w.routes && |looks| == 1
    requires TellsSince(looks[0], seen, w, told) && !(told.finished && |told.log| <= v.sent)
    ensures Goes(looks, seen, runs, w, v, told.log, false)
  {
    var next := RunsAfter(looks[0], seen, runs);
    LookStep(looks[0], seen, runs, w, v, told);
    SaidByMore(looks, seen, runs, w);
    NoMoreLooks(looks[1..], looks[0].closings, next);
    DeliveredAll(Filter(AllSaid(looks[0], seen, runs), AboutRun(w)), [], Filter(next, SameAs(w)), w, v, told.log, false);
  }

  lemma {:induction false} GoesMore(looks: seq<Look>, seen: nat, runs: seq<Watching>, w: Watching, v: Watching,
                                    told: Told, log: seq<Event>, over: bool)
    requires EachOnce(runs) && Filter(runs, SameAs(w)) == [v] && SameRun(v, w) && v.routes == w.routes && looks != []
    requires TellsSince(looks[0], seen, w, told) && !(told.finished && |told.log| <= v.sent) && told.log <= log
    requires Goes(looks[1..], looks[0].closings, RunsAfter(looks[0], seen, runs), w, v.(sent := Furthest(v.sent, told.log)), log, over)
    ensures Goes(looks, seen, runs, w, v, log, over)
  {
    var next := RunsAfter(looks[0], seen, runs);
    LookStep(looks[0], seen, runs, w, v, told);
    SaidByMore(looks, seen, runs, w);
    DeliveredMore(Filter(AllSaid(looks[0], seen, runs), AboutRun(w)),
                  Filter(SaidByAll(looks[1..], looks[0].closings, next), AboutRun(w)),
                  Filter(RunsAfterAll(looks[1..], looks[0].closings, next), SameAs(w)), w, v, told.log, log, over);
  }

  lemma {:induction false} NextLook(looks: seq<Look>, seen: nat, runs: seq<Watching>, w: Watching, v: Watching, told: Told)
    requires EachOnce(runs) && Filter(runs, SameAs(w)) == [v] && SameRun(v, w) && v.routes == w.routes && looks != []
    requires TellsSince(looks[0], seen, w, told) && !(told.finished && |told.log| <= v.sent)
    ensures EachOnce(RunsAfter(looks[0], seen, runs))
    ensures Filter(RunsAfter(looks[0], seen, runs), SameAs(w)) == [v.(sent := Furthest(v.sent, told.log))]
  {
    LookStep(looks[0], seen, runs, w, v, told);
  }

  lemma {:induction false} LooksGoOn(looks: seq<Look>, tolds: seq<Told>, seen: nat, runs: seq<Watching>, w: Watching,
                                     v: Watching)
    requires EachOnce(runs) && Filter(runs, SameAs(w)) == [v] && SameRun(v, w) && v.routes == w.routes
    requires looks != [] && AllTell(looks, seen, w, tolds) && Grows(tolds)
    ensures Goes(looks, seen, runs, w, v, tolds[|tolds| - 1].log, Over(tolds, v.sent))
    decreases |looks|
  {
    var told, log, over := tolds[0], tolds[|tolds| - 1].log, Over(tolds, v.sent);
    GrowsToLast(tolds);
    if told.finished && |told.log| <= v.sent {
      GoesOver(looks, seen, runs, w, v, told);
    } else if |looks| == 1 {
      GoesLast(looks, seen, runs, w, v, told);
    } else {
      NextLook(looks, seen, runs, w, v, told);
      var later := v.(sent := Furthest(v.sent, told.log));
      LooksGoOn(looks[1..], tolds[1..], looks[0].closings, RunsAfter(looks[0], seen, runs), w, later);
      GoesMore(looks, seen, runs, w, v, told, log, over);
    }
  }

  /**
   * Through any number of looks that succeed, whatever else is followed: the device is sent about a run exactly the
   * events of its log from the one it asked for, each once and in order, and then its end if and only if some look
   * found it finished with nothing new; it is followed until then, from the first event not yet sent.
   */
  lemma {:induction false} LooksSendTheLog(looks: seq<Look>, tolds: seq<Told>, seen: nat, runs: seq<Watching>, w: Watching)
    requires EachOnce(runs) && w in runs
    requires looks != [] && AllTell(looks, seen, w, tolds) && Grows(tolds)
    ensures var log, over := tolds[|tolds| - 1].log, Over(tolds, w.sent);
      && Filter(SaidByAll(looks, seen, runs), AboutRun(w)) == Lines(w, Rest(log, w.sent)) + EndIf(w, over)
      && Filter(RunsAfterAll(looks, seen, runs), SameAs(w)) == if over then [] else [w.(sent := Furthest(w.sent, log))]
  {
    var k :| 0 <= k < |runs| && runs[k] == w;
    MineIsOne(runs, w, k);
    LooksGoOn(looks, tolds, seen, runs, w, w);
  }

  /** A run is reported ended only when it has finished, and at the latest at the look after all of it was sent. */
  lemma {:induction false} FinishedIsReported(tolds: seq<Told>, sent: nat)
    requires Grows(tolds)
    ensures Over(tolds, sent) ==> tolds != [] && tolds[|tolds| - 1].finished
    ensures |tolds| >= 2 && tolds[|tolds| - 2].finished ==> Over(tolds, sent)
    decreases |tolds|
  {
    if tolds != [] {
      GrowsToLast(tolds);
      FinishedIsReported(tolds[1..], Furthest(sent, tolds[0].log));
      if |tolds| == 2 {
        assert tolds[1..][0] == tolds[1] && tolds[1..][1..] == [];
      }
    }
  }

  // ------------------------------------------------------------------ one poll, step by step

  function SaidAll(events: seq<Event>): seq<Message> {
    seq(|events|, i requires 0 <= i < |events| => Said(events[i]))
  }

  lemma {:induction false} Joined(s: System, a: seq<Action>, b: seq<Action>)
    requires Possible(s, a) && Possible(After(s, a), b)
    ensures Possible(s, a + b) && After(s, a + b) == After(After(s, a), b)
    decreases |a|
  {
    if a == [] {
      assert a + b == b;
    } else {
      Joined(Next(s, a[0]), a[1..], b);
      assert (a + b)[1..] == a[1..] + b;
    }
  }

  lemma {:induction false} One(s: System, a: Action)
    requires Enabled(s, a)
    ensures Possible(s, [a]) && After(s, [a]) == Next(s, a)
  {
    Prepend(s, a, []);
    assert [a] + [] == [a];
  }

  /** The rest of a batch is sent one event after another. */
  lemma {:induction false} BatchIsSent(s: System, sent: nat, batch: seq<Event>, next: nat,
                                       finished: bool) returns (actions: seq<Action>)
    requires s.link.Up? && s.link.watch == Some(Watch(sent, Sending(batch, next, finished))) && next <= |batch|
    ensures AllQuiet(actions) && Possible(s, actions)
    ensures After(s, actions)
         == s.(link := Up(Some(Watch(sent, Sending(batch, |batch|, finished))), s.link.wire + SaidAll(batch[next..])))
    decreases |batch| - next
  {
    if next == |batch| {
      actions := [];
      assert s.link.wire + SaidAll(batch[next..]) == s.link.wire;
    } else {
      var t := Next(s, SendNext);
      var rest := BatchIsSent(t, sent, batch, next + 1, finished);
      actions := [SendNext] + rest;
      Prepend(s, SendNext, rest);
      assert s.link.wire + [Said(batch[next])] + SaidAll(batch[next + 1..]) == s.link.wire + SaidAll(batch[next..]);
    }
  }

  /** A message as the device gets it. */
  function Spoken(m: Message): Message {
    match m
    case Said(event) => Said(Sent(event))
    case Ended => Ended
  }

  /** A poll while the routes keep the run. */
  lemma KeptPoll(s: System, sent: nat) returns (actions: seq<Action>)
    requires s.link.Up? && s.link.watch == Some(Watch(sent, Idle)) && s.kept
    ensures AllQuiet(actions) && Possible(s, actions)
    ensures var batch := Rest(s.log, sent); var over := s.finished && batch == [];
      After(s, actions) == s.(link := Up(if over then None else Some(Watch(sent + |batch|, Idle)),
                                         s.link.wire + SaidAll(batch) + if over then [Ended] else []))
  {
    var batch := Rest(s.log, sent);
    var checked := Next(s, CheckFinished);
    var reading := Next(checked, ReadLog);
    var sends := BatchIsSent(reading, sent, batch, 0, s.finished);
    assert batch[0..] == batch;
    var all := After(reading, sends);
    One(all, EndPoll);
    Joined(reading, sends, [EndPoll]);
    Prepend(checked, ReadLog, sends + [EndPoll]);
    Prepend(s, CheckFinished, [ReadLog] + (sends + [EndPoll]));
    actions := [CheckFinished] + ([ReadLog] + (sends + [EndPoll]));
    NothingMore(s.link.wire + SaidAll(batch));
    assert batch == [] ==> s.link.wire + SaidAll(batch) == s.link.wire;
  }

  /** A poll that finds no such run. */
  lemma GonePoll(s: System, sent: nat) returns (actions: seq<Action>)
    requires s.link.Up? && s.link.watch == Some(Watch(sent, Idle)) && !s.kept
    ensures AllQuiet(actions) && Possible(s, actions)
    ensures After(s, actions) == s.(link := Up(None, s.link.wire + [Ended]), cut := s.cut || sent < |s.log|)
  {
    var checked := Next(s, CheckFinished);
    One(checked, EndPoll);
    Prepend(s, CheckFinished, [EndPoll]);
    actions := [CheckFinished] + [EndPoll];
  }

  /** What is on the wire after a poll, as the device gets it, is what the session says. */
  ghost predicate SaysAs(wire: seq<Message>, later: seq<Message>, said: seq<Line>) {
    && |later| == |wire| + |said| && wire <= later
    && forall i | 0 <= i < |said| :: Spoken(later[|wire| + i]) == said[i].message
  }

  lemma SaidIsSpoken(wire: seq<Message>, w: Watching, events: seq<Event>, over: bool)
    ensures SaysAs(wire, wire + SaidAll(events) + (if over then [Ended] else []), Lines(w, events) + EndIf(w, over))
  {
  }

  /**
   * A poll of a run as the session makes it is a run of the steps of `RunDelivery`: it puts on the wire exactly the
   * messages of the lines it says, and leaves the run followed from the same event, or not at all.
   */
  lemma PollIsDelivery(s: System, look: Look, w: Watching) returns (actions: seq<Action>)
    requires s.link.Up? && s.link.watch == Some(Watch(w.sent, Idle))
    requires look.events(w) == if s.kept then Some((Rest(s.log, w.sent), s.finished)) else None
    ensures AllQuiet(actions) && Possible(s, actions)
    ensures var t, rest := After(s, actions), Forwarding(look).rest(w);
      && t.log == s.log && t.received == s.received && t.link.Up?
      && SaysAs(s.link.wire, t.link.wire, Forwarding(look).said(w))
      && t.link.watch == if rest == [] then None else Some(Watch(rest[0].sent, Idle))
  {
    var events, over := Asked(look, w).0, IsOver(look, w);
    assert Forwarding(look).said(w) == Lines(w, events) + EndIf(w, over);
    SaidIsSpoken(s.link.wire, w, events, over);
    if s.kept {
      actions := KeptPoll(s, w.sent);
    } else {
      actions := GonePoll(s, w.sent);
      assert s.link.wire + SaidAll([]) + [Ended] == s.link.wire + [Ended];
    }
  }
}

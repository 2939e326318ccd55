/** Delivery of one run's events to the device that started it, over connections that come and go. */
module RunDelivery {
  import opened Base

  datatype Event = Event(name: string, payload: string)

  /** What the PC sends about the run: one of its events, or its end. */
  datatype Message = Said(event: Event) | Ended

  /**
   * Where the session stands with the run between polls and within one: whether it has read that the run
   * finished, and which events it has yet to send. `Gone` is the poll that finds no such run.
   */
  datatype Poll =
    | Idle
    | Checked(finished: bool)
    | Sending(batch: seq<Event>, next: nat, finished: bool)
    | Gone

  datatype Watch = Watch(sent: nat, poll: Poll)

  /** A connection: the run followed on it, if it is, and the messages under way. */
  datatype Link = Down | Up(watch: Option<Watch>, wire: seq<Message>)

  /**
   * The run's log, whether it has finished, and whether the routes still keep it; the connection; and what the
   * device has received. `cut` records that an end was sent for a run no longer kept before all of it was sent.
   */
  datatype System = System(log: seq<Event>, finished: bool, kept: bool, link: Link,
                           received: seq<Event>, ended: bool, cut: bool)

  datatype Action =
    | Emit(event: Event)
    | Finish
    | Evict
    | Connect
    | Disconnect
    | Follow
    | CheckFinished
    | ReadLog
    | SendNext
    | EndPoll
    | Deliver

  /** The run has just been started on a live connection. */
  predicate Start(s: System) {
    s == System([], false, true, Up(Some(Watch(0, Idle)), []), [], false, false)
  }

  function Following(s: System): Option<Watch> {
    if s.link.Up? then s.link.watch else None
  }

  predicate Enabled(s: System, a: Action) {
    match a
    case Emit(_) => !s.finished
    case Finish => !s.finished
    case Evict => s.finished
    case Connect => s.link.Down?
    case Disconnect => s.link.Up?
    // A device asks again from the number of events it has received, with nothing still under way.
    case Follow => s.link.Up? && s.link.watch.None? && s.link.wire == []
    case CheckFinished => Following(s).Some? && Following(s).value.poll.Idle?
    case ReadLog => Following(s).Some? && Following(s).value.poll.Checked?
    case SendNext =>
      Following(s).Some? && Following(s).value.poll.Sending? && Following(s).value.poll.next < |Following(s).value.poll.batch|
    case EndPoll =>
      Following(s).Some? && (Following(s).value.poll.Gone?
        || (Following(s).value.poll.Sending? && Following(s).value.poll.next == |Following(s).value.poll.batch|))
    case Deliver => s.link.Up? && s.link.wire != []
  }

  function Rest(log: seq<Event>, from: nat): seq<Event> {
    if from <= |log| then log[from..] else []
  }

  function Next(s: System, a: Action): System
    requires Enabled(s, a)
  {
    match a
    case Emit(event) => s.(log := s.log + [event])
    case Finish => s.(finished := true)
    case Evict => s.(kept := false)
    case Connect => s.(link := Up(None, []))
    case Disconnect => s.(link := Down)
    case Follow => if s.kept then s.(link := Up(Some(Watch(|s.received|, Idle)), [])) else s
    case CheckFinished =>
      var w := s.link.watch.value;
      s.(link := Up(Some(w.(poll := if s.kept then Checked(s.finished) else Gone)), s.link.wire))
    case ReadLog =>
      var w := s.link.watch.value;
      s.(link := Up(Some(w.(poll := Sending(Rest(s.log, w.sent), 0, w.poll.finished))), s.link.wire))
    case SendNext =>
      var w := s.link.watch.value;
      s.(link := Up(Some(w.(poll := w.poll.(next := w.poll.next + 1))), s.link.wire + [Said(w.poll.batch[w.poll.next])]))
    case EndPoll =>
      var w := s.link.watch.value;
      if w.poll.Gone? then
        s.(link := Up(None, s.link.wire + [Ended]), cut := s.cut || w.sent < |s.log|)
      else if w.poll.finished && w.poll.batch == [] then s.(link := Up(None, s.link.wire + [Ended]))
      else s.(link := Up(Some(Watch(w.sent + |w.poll.batch|, Idle)), s.link.wire))
    case Deliver =>
      var rest := s.link.(wire := s.link.wire[1..]);
      match s.link.wire[0]
      case Said(event) => s.(link := rest, received := s.received + [event])
      case Ended => s.(link := rest, ended := true)
  }

  predicate Possible(s: System, actions: seq<Action>)
    decreases |actions|
  {
    actions == [] || (Enabled(s, actions[0]) && Possible(Next(s, actions[0]), actions[1..]))
  }

  function After(s: System, actions: seq<Action>): System
    requires Possible(s, actions)
    decreases |actions|
  {
    if actions == [] then s else After(Next(s, actions[0]), actions[1..])
  }

  // ------------------------------------------------------------------ the invariant

  /** The events among the messages under way. */
  function Events(wire: seq<Message>): seq<Event> {
    if wire == [] then []
    else Events(wire[..|wire| - 1]) + if wire[|wire| - 1].Said? then [wire[|wire| - 1].event] else []
  }

  /** The end is under way, or was received. */
  predicate EndSent(s: System) {
    s.ended || (s.link.Up? && Ended in s.link.wire)
  }

  /** What the device has, with what is under way to it. */
  function Reaching(s: System): seq<Event> {
    s.received + if s.link.Up? then Events(s.link.wire) else []
  }

  /** How much of the log the session has sent, within the batch it is sending. */
  function Position(w: Watch): nat {
    if w.poll.Sending? then w.sent + w.poll.next else w.sent
  }

  predicate PollOk(s: System, w: Watch) {
    && w.sent <= |s.log|
    && (w.poll.Checked? && w.poll.finished ==> s.finished)
    && (w.poll.Gone? ==> s.finished && !s.kept)
    && (w.poll.Sending? ==>
          && w.poll.next <= |w.poll.batch| && w.sent + |w.poll.batch| <= |s.log|
          && w.poll.batch == s.log[w.sent..w.sent + |w.poll.batch|]
          && (w.poll.finished ==> s.finished && w.sent + |w.poll.batch| == |s.log|))
  }

  predicate EndsLast(wire: seq<Message>) {
    forall i | 0 <= i < |wire| - 1 :: wire[i].Said?
  }

  predicate WireOk(s: System) {
    s.link.Up? ==>
      && EndsLast(s.link.wire)
      && (s.link.watch.Some? ==>
            && Ended !in s.link.wire && PollOk(s, s.link.watch.value)
            && |Reaching(s)| == Position(s.link.watch.value))
  }

  predicate Inv(s: System) {
    && Reaching(s) <= s.log
    && WireOk(s)
    && (!s.kept ==> s.finished) && (s.cut ==> !s.kept)
    && (EndSent(s) ==> s.finished)
    && (s.ended && !s.cut ==> s.received == s.log)
    && (s.link.Up? && Ended in s.link.wire && !s.cut ==> Reaching(s) == s.log)
  }

  lemma {:induction false} EventsPush(wire: seq<Message>, m: Message)
    ensures Events(wire + [m]) == Events(wire) + if m.Said? then [m.event] else []
  {
    assert (wire + [m])[..|wire|] == wire;
  }

  lemma {:induction false} EventsPop(wire: seq<Message>)
    requires wire != []
    ensures Events(wire) == (if wire[0].Said? then [wire[0].event] else []) + Events(wire[1..])
  {
    if |wire| > 1 {
      EventsPop(wire[..|wire| - 1]);
      assert wire[..|wire| - 1][1..] == wire[1..][..|wire[1..]| - 1];
    } else {
      assert wire[..0] == [] && wire[1..] == [];
    }
  }

  lemma LongerPrefix<T>(a: seq<T>, b: seq<T>)
    requires a <= b && |a| < |b|
    ensures a + [b[|a|]] <= b
  {
  }

  lemma {:induction false} SaidJoins(wire: seq<Message>, event: Event)
    requires Ended !in wire
    ensures var longer := wire + [Said(event)];
      EndsLast(longer) && Ended !in longer && Events(longer) == Events(wire) + [event]
  {
    EventsPush(wire, Said(event));
    assert forall i | 0 <= i < |wire| :: wire[i] in wire;
  }

  lemma InBatch(s: System, w: Watch)
    requires PollOk(s, w) && w.poll.Sending? && w.poll.next < |w.poll.batch|
    ensures Position(w) < |s.log| && w.poll.batch[w.poll.next] == s.log[Position(w)]
  {
  }

  lemma SendMoves(s: System)
    requires Inv(s) && Enabled(s, SendNext)
    ensures var t, w := Next(s, SendNext), s.link.watch.value;
      && Position(w) < |s.log| && Reaching(t) == Reaching(s) + [s.log[Position(w)]]
      && EndsLast(t.link.wire) && Ended !in t.link.wire
  {
    var w := s.link.watch.value;
    InBatch(s, w);
    SaidJoins(s.link.wire, w.poll.batch[w.poll.next]);
  }

  lemma SendKeeps(s: System)
    requires Inv(s) && Enabled(s, SendNext)
    ensures Inv(Next(s, SendNext))
  {
    SendMoves(s);
    LongerPrefix(Reaching(s), s.log);
  }

  /** A batch all sent: the session has sent that much more. */
  lemma BatchKeeps(s: System)
    requires Inv(s) && Enabled(s, EndPoll) && Next(s, EndPoll).link.watch.Some?
    ensures Inv(Next(s, EndPoll))
  {
  }

  lemma {:induction false} EndJoins(wire: seq<Message>)
    requires Ended !in wire
    ensures EndsLast(wire + [Ended]) && Events(wire + [Ended]) == Events(wire)
  {
    EventsPush(wire, Ended);
    forall i | 0 <= i < |wire|
      ensures wire[i].Said?
    {
      assert wire[i] in wire;
    }
  }

  lemma WholePrefix<T>(a: seq<T>, b: seq<T>)
    requires a <= b && |a| == |b|
    ensures a == b
  {
  }

  lemma LastShows(s: System)
    requires Inv(s) && Enabled(s, EndPoll) && Next(s, EndPoll).link.watch.None?
    ensures var t, w := Next(s, EndPoll), s.link.watch.value;
      && t.link.wire == s.link.wire + [Ended] && t.received == s.received && t.log == s.log
      && s.finished && (t.cut || w.sent == |s.log|) && |Reaching(s)| == w.sent
  {
  }

  /** A session that is through with a run has sent all of its log, or notes that it has not. */
  lemma LastIsWhole(s: System)
    requires Inv(s) && Enabled(s, EndPoll) && Next(s, EndPoll).link.watch.None?
    ensures var t := Next(s, EndPoll); Reaching(t) == Reaching(s) && s.finished && (t.cut || Reaching(t) == t.log)
    ensures EndsLast(Next(s, EndPoll).link.wire)
  {
    LastShows(s);
    EndJoins(s.link.wire);
    if |Reaching(s)| == |s.log| {
      WholePrefix(Reaching(s), s.log);
    }
  }

  lemma LastKeeps(s: System)
    requires Inv(s) && Enabled(s, EndPoll) && Next(s, EndPoll).link.watch.None?
    ensures Inv(Next(s, EndPoll))
  {
    LastIsWhole(s);
  }

  /** A message that arrives is no longer under way. */
  lemma DeliverMoves(s: System)
    requires s.link.Up? && s.link.wire != [] && EndsLast(s.link.wire)
    ensures var t := Next(s, Deliver); var wire := s.link.wire;
      && Reaching(t) == Reaching(s)
      && t.link == s.link.(wire := wire[1..]) && EndsLast(wire[1..])
      && (Ended in wire[1..] ==> wire[0].Said? && Ended in wire)
      && (wire[0].Ended? ==> wire[1..] == [] && t.received == s.received && Ended in wire)
  {
    EventsPop(s.link.wire);
  }

  lemma DeliverKeeps(s: System)
    requires Inv(s) && Enabled(s, Deliver)
    ensures Inv(Next(s, Deliver))
  {
    DeliverMoves(s);
    if s.link.wire[0].Said? {
      DeliverSaidKeeps(s);
    } else {
      assert s.received <= Reaching(s);
    }
  }

  lemma DeliverSaidKeeps(s: System)
    requires Inv(s) && Enabled(s, Deliver) && s.link.wire[0].Said?
    ensures Inv(Next(s, Deliver))
  {
    DeliverMoves(s);
    assert s.received <= Reaching(s);
    assert s.ended && !s.cut ==> s.received == s.log;
  }

  lemma EmitKeeps(s: System, event: Event)
    requires Inv(s) && Enabled(s, Emit(event))
    ensures Inv(Next(s, Emit(event)))
  {
    var t := Next(s, Emit(event));
    assert s.log <= t.log;
    if s.link.Up? && s.link.watch.Some? && s.link.watch.value.poll.Sending? {
      var w := s.link.watch.value;
      assert t.log[w.sent..w.sent + |w.poll.batch|] == s.log[w.sent..w.sent + |w.poll.batch|];
    }
  }

  lemma ReadKeeps(s: System)
    requires Inv(s) && Enabled(s, ReadLog)
    ensures Inv(Next(s, ReadLog))
  {
  }

  lemma LinkKeeps(s: System, a: Action)
    requires Inv(s) && Enabled(s, a) && (a.Connect? || a.Disconnect? || a.Follow? || a.CheckFinished? || a.Finish? || a.Evict?)
    ensures Inv(Next(s, a))
  {
    assert s.received <= Reaching(s);
  }

  /** Every step keeps the invariant. */
  lemma StepKeeps(s: System, a: Action)
    requires Inv(s) && Enabled(s, a)
    ensures Inv(Next(s, a))
  {
    match a
    case Emit(event) => EmitKeeps(s, event);
    case SendNext => SendKeeps(s);
    case EndPoll => if Next(s, EndPoll).link.watch.Some? { BatchKeeps(s); } else { LastKeeps(s); }
    case Deliver => DeliverKeeps(s);
    case ReadLog => ReadKeeps(s);
    case _ => LinkKeeps(s, a);
  }

  lemma {:induction false} RunKeeps(s: System, actions: seq<Action>)
    requires Inv(s) && Possible(s, actions)
    ensures Inv(After(s, actions))
    decreases |actions|
  {
    if actions != [] {
      StepKeeps(s, actions[0]);
      RunKeeps(Next(s, actions[0]), actions[1..]);
    }
  }

  /**
   * Whatever happens to the connection, the device has exactly the first events of the log, in order, each once;
   * an end means the run is over; and unless the run was dropped before all of it was sent, the device then has
   * all of it.
   */
  lemma {:induction false} NoGapNoDuplicate(s: System, actions: seq<Action>)
    requires Start(s) && Possible(s, actions)
    ensures var t := After(s, actions);
      && t.received <= t.log
      && (t.ended ==> t.finished)
      && (t.ended && !t.cut ==> t.received == t.log)
      && (t.kept ==> !t.cut)
  {
    assert Inv(s) by {
      assert Events([]) == [];
    }
    RunKeeps(s, actions);
    var t := After(s, actions);
    assert t.received <= Reaching(t);
  }

  /** The end of a run no longer kept is complete exactly when all of the log had been sent before. */
  lemma GoneEnd(s: System)
    requires Inv(s) && Enabled(s, EndPoll) && s.link.watch.value.poll.Gone? && !s.cut
    ensures var t := Next(s, EndPoll);
      && Ended in t.link.wire
      && (t.cut <==> Reaching(t) != t.log)
      && (t.cut <==> s.link.watch.value.sent < |s.log|)
  {
    var t := Next(s, EndPoll);
    EventsPush(s.link.wire, Ended);
    assert t.link.wire[|s.link.wire|] == Ended;
    assert Reaching(t) == Reaching(s);
  }

  lemma {:induction false} Prepend(s: System, a: Action, rest: seq<Action>)
    requires Enabled(s, a) && Possible(Next(s, a), rest)
    ensures Possible(s, [a] + rest) && After(s, [a] + rest) == After(Next(s, a), rest)
  {
    assert ([a] + rest)[1..] == rest;
  }

  /** It happens: a run that finished and was dropped between two polls ends with an event unsent. */
  lemma {:induction false} DroppedRunEndsEarly(s: System, event: Event)
    requires Start(s)
    ensures exists actions ::
      Possible(s, actions) && var t := After(s, actions); t.ended && t.received == [] && t.log == [event]
  {
    var s1 := Next(s, Emit(event));
    var s2 := Next(s1, Finish);
    var s3 := Next(s2, Evict);
    var s4 := Next(s3, CheckFinished);
    var s5 := Next(s4, EndPoll);
    var s6 := Next(s5, Deliver);
    assert s5.link.wire == [Ended];
    Prepend(s5, Deliver, []);
    Prepend(s4, EndPoll, [Deliver] + []);
    Prepend(s3, CheckFinished, [EndPoll] + ([Deliver] + []));
    Prepend(s2, Evict, [CheckFinished] + ([EndPoll] + ([Deliver] + [])));
    Prepend(s1, Finish, [Evict] + ([CheckFinished] + ([EndPoll] + ([Deliver] + []))));
    Prepend(s, Emit(event), [Finish] + ([Evict] + ([CheckFinished] + ([EndPoll] + ([Deliver] + [])))));
    assert s6.ended && s6.received == [] && s6.log == [event];
  }

  // ------------------------------------------------------------------ a connection left to itself

  /** The steps of a session that polls and sends, and of its connection. */
  predicate Quiet(a: Action) {
    a.CheckFinished? || a.ReadLog? || a.SendNext? || a.EndPoll? || a.Deliver?
  }

  predicate AllQuiet(actions: seq<Action>) {
    forall i | 0 <= i < |actions| :: Quiet(actions[i])
  }

  /** A finished run that is kept, on a live connection that follows it or was sent its end. */
  predicate Settling(s: System) {
    Inv(s) && s.finished && s.kept && s.link.Up? && (s.link.watch.Some? || EndSent(s))
  }

  /** How far the session is from the poll that finds the run finished and nothing more to send. */
  function Rounds(poll: Poll): nat {
    match poll
    case Idle => 4
    case Checked(finished) => if finished then 3 else 7
    case Sending(batch, next, finished) =>
      if next < |batch| then (if finished then 2 else 6) else if finished && batch == [] then 1 else 5
    case Gone => 0
  }

  /** More steps than are left: each event is sent and delivered, with polls between. */
  function Work(s: System): int
    requires s.link.Up?
  {
    match s.link.watch
    case Some(w) => 8 * (2 * (|s.log| - Position(w)) + |s.link.wire|) + Rounds(w.poll) + 1
    case None => |s.link.wire|
  }

  /** Whichever of them is next, it leaves less to do. */
  lemma QuietStep(s: System, a: Action)
    requires Settling(s) && Quiet(a) && Enabled(s, a)
    ensures Settling(Next(s, a)) && 0 <= Work(Next(s, a)) < Work(s) && Next(s, a).log == s.log
  {
    StepKeeps(s, a);
    if a.Deliver? {
      QuietDelivery(s);
    } else {
      QuietPoll(s, a);
    }
  }

  lemma QuietDelivery(s: System)
    requires Settling(s) && s.link.wire != [] && Inv(Next(s, Deliver))
    ensures Settling(Next(s, Deliver)) && 0 <= Work(Next(s, Deliver)) < Work(s)
  {
    var wire := s.link.wire;
    assert wire == [wire[0]] + wire[1..];
    assert wire[0] in wire;
  }

  lemma QuietPoll(s: System, a: Action)
    requires Settling(s) && Quiet(a) && !a.Deliver? && Enabled(s, a) && Inv(Next(s, a))
    ensures Settling(Next(s, a)) && 0 <= Work(Next(s, a)) < Work(s)
  {
    if a.EndPoll? && Next(s, a).link.watch.None? {
      assert Next(s, a).link.wire[|s.link.wire|] == Ended;
    }
  }

  /** When none of them is possible, everything has arrived. */
  lemma StillIsDelivered(s: System)
    requires Settling(s) && forall a | Quiet(a) :: !Enabled(s, a)
    ensures s.ended && s.received == s.log
  {
    assert !Enabled(s, Deliver) && !Enabled(s, CheckFinished) && !Enabled(s, ReadLog);
    assert !Enabled(s, SendNext) && !Enabled(s, EndPoll);
  }

  /**
   * Once a run has finished, a connection that stays up brings the device the rest of its log and then the end, in
   * whatever order the steps of polling, sending and delivering come: their number is bounded, and when none of
   * them is left, everything has arrived.
   */
  lemma {:induction false} FinishedRunIsDelivered(s: System, actions: seq<Action>)
    requires Settling(s) && Possible(s, actions) && AllQuiet(actions)
    ensures var t := After(s, actions);
      && |actions| <= Work(s) && t.log == s.log
      && ((forall a | Quiet(a) :: !Enabled(t, a)) ==> t.ended && t.received == s.log)
    decreases |actions|
  {
    if actions == [] {
      assert 0 <= Work(s);
      if forall a | Quiet(a) :: !Enabled(s, a) {
        StillIsDelivered(s);
      }
    } else {
      QuietStep(s, actions[0]);
      FinishedRunIsDelivered(Next(s, actions[0]), actions[1..]);
    }
  }
}

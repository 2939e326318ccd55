/** Frames behind a four-byte length, put together again from however they arrive. */
module Frames {
  import opened Base
  import opened Bytes

  datatype FrameError = TooLarge(length: nat) | NotUtf8

  datatype Frame = Complete(payload: ByteString) | Incomplete | Bad(error: FrameError)

  /** The frame of a message, which is given as its bytes. */
  function Encode(message: ByteString): (r: ByteString)
    ensures |r| == 4 + |message|
  {
    FourBytes(|message| % 0x1_0000_0000) + message
  }

  /** The length four bytes give, most significant first. */
  function Length(header: ByteString): nat
    requires |header| >= 4
  {
    256 * (256 * (256 * (header[0] as int) + header[1]) + header[2]) + header[3]
  }

  /** The next frame at the front of `buffer`, and what is left after it. */
  function NextFrame(buffer: ByteString, limit: nat, utf8: ByteString -> bool): (Frame, ByteString) {
    if |buffer| < 4 then (Incomplete, buffer)
    else
      var length := Length(buffer);
      if length > limit then (Bad(TooLarge(length)), buffer)
      else if |buffer| < 4 + length then (Incomplete, buffer)
      else
        var payload, rest := buffer[4..4 + length], buffer[4 + length..];
        (if utf8(payload) then Complete(payload) else Bad(NotUtf8), rest)
  }

  class Reader {
    var buffer: ByteString
    var limit: nat

    constructor (limit: nat)
      ensures buffer == [] && this.limit == limit
    {
      buffer, this.limit := [], limit;
    }

    method SetLimit(limit: nat)
      modifies `limit
      ensures this.limit == limit
    {
      this.limit := limit;
    }

    method Feed(bytes: ByteString)
      modifies `buffer
      ensures buffer == old(buffer) + bytes
    {
      buffer := buffer + bytes;
    }

    /** Take the frame at the front of the buffer when all of it is there; nothing but that frame leaves the buffer. */
    method Next(utf8: ByteString -> bool) returns (frame: Frame)
      modifies `buffer
      ensures (frame, buffer) == NextFrame(old(buffer), limit, utf8)
      ensures frame.Complete? ==> old(buffer) == Encode(frame.payload) + buffer && |frame.payload| <= limit && utf8(frame.payload)
      ensures frame.Incomplete? || (frame.Bad? && frame.error.TooLarge?) ==> buffer == old(buffer)
    {
      if |buffer| < 4 {
        return Incomplete;
      }
      var length := Length(buffer);
      if length > limit {
        return Bad(TooLarge(length));
      }
      if |buffer| < 4 + length {
        return Incomplete;
      }
      CompleteIsEncoded(buffer, limit, utf8);
      var payload := buffer[4..4 + length];
      buffer := buffer[4 + length..];
      frame := if utf8(payload) then Complete(payload) else Bad(NotUtf8);
    }
  }

  /** The number the first four bytes announce. */
  predicate Announces(buffer: ByteString, n: nat) {
    |buffer| >= 4
    && n == 16777216 * (buffer[0] as int) + 65536 * (buffer[1] as int) + 256 * (buffer[2] as int) + buffer[3] as int
  }

  /** What the front of a buffer is taken for: too little, too large, a message, or bytes that are not UTF-8. */
  lemma NextIsExact(buffer: ByteString, limit: nat, utf8: ByteString -> bool)
    ensures var (frame, rest) := NextFrame(buffer, limit, utf8);
      && (frame == Incomplete <==> |buffer| < 4 || exists n: nat :: Announces(buffer, n) && n <= limit && |buffer| < 4 + n)
      && (forall n: nat :: frame == Bad(TooLarge(n)) <==> Announces(buffer, n) && n > limit)
      && (forall m :: frame == Complete(m) <==> Holds(buffer, m, rest, limit) && utf8(m))
      && (frame == Bad(NotUtf8) <==> exists m :: Holds(buffer, m, rest, limit) && !utf8(m))
      && (frame == Incomplete || (frame.Bad? && frame.error.TooLarge?) ==> rest == buffer)
  {
    if |buffer| >= 4 {
      var n := Length(buffer);
      assert Announces(buffer, n);
      var (frame, rest) := NextFrame(buffer, limit, utf8);
      if n <= limit && |buffer| >= 4 + n {
        assert Holds(buffer, buffer[4..4 + n], rest, limit);
      }
      forall m | Holds(buffer, m, rest, limit)
        ensures n <= limit && |buffer| >= 4 + n && m == buffer[4..4 + n]
      {
        assert m == buffer[4..4 + |m|];
      }
    }
  }

  /** The buffer is the announced length within the limit, the bytes of it, and then the rest. */
  predicate Holds(buffer: ByteString, m: ByteString, rest: ByteString, limit: nat) {
    Announces(buffer, |m|) && |m| <= limit && buffer == buffer[..4] + m + rest
  }

  lemma CompleteIsEncoded(buffer: ByteString, limit: nat, utf8: ByteString -> bool)
    ensures var (frame, rest) := NextFrame(buffer, limit, utf8);
      frame.Complete? ==> buffer == Encode(frame.payload) + rest && |frame.payload| <= limit
  {
    if |buffer| >= 4 {
      var length := Length(buffer);
      HeaderOf(buffer);
      if |buffer| >= 4 + length {
        assert buffer == buffer[..4] + buffer[4..4 + length] + buffer[4 + length..];
      }
    }
  }

  lemma HeaderOf(buffer: ByteString)
    requires |buffer| >= 4
    ensures Length(buffer) < 0x1_0000_0000 && FourBytes(Length(buffer)) == buffer[..4]
  {
    FourBytesOfNumber(buffer[..4]);
    NumberOfFour(buffer[..4]);
  }

  // ------------------------------------------------------------------ a whole stream

  /** Takes the next frame off the front of a buffer, under a limit or for the frame of a given number. */
  type Splitter = (ByteString, nat) -> (Frame, ByteString)

  /** The reader's splitter, by the limit. */
  function Taking(utf8: ByteString -> bool): Splitter {
    (buffer: ByteString, limit: nat) => NextFrame(buffer, limit, utf8)
  }

  /** The same by the number of frames before, each of which has its own limit. */
  function Splitting(limits: nat -> nat, take: Splitter): Splitter {
    (buffer: ByteString, n: nat) => take(buffer, limits(n))
  }

  /** What is settled stays settled when more bytes come. */
  ghost predicate Steady(next: Splitter) {
    && (forall b, n :: next(b, n).0.Complete? ==> |next(b, n).1| < |b|)
    && (forall b, n :: next(b, n).0.Incomplete? ==> next(b, n).1 == b)
    && forall b, more, n :: !next(b, n).0.Incomplete? ==> next(b + more, n) == (next(b, n).0, next(b, n).1 + more)
  }

  lemma TakingIsSteady(utf8: ByteString -> bool)
    ensures Steady(Taking(utf8))
  {
    var take := Taking(utf8);
    forall b: ByteString, limit: nat
      ensures take(b, limit).0.Complete? ==> |take(b, limit).1| < |b|
      ensures take(b, limit).0.Incomplete? ==> take(b, limit).1 == b
    {
      assert take(b, limit) == NextFrame(b, limit, utf8);
    }
    forall b: ByteString, more: ByteString, limit: nat
      ensures !take(b, limit).0.Incomplete? ==> take(b + more, limit) == (take(b, limit).0, take(b, limit).1 + more)
    {
      NextFrameMore(b, more, limit, utf8);
    }
  }

  lemma SplittingIsSteady(limits: nat -> nat, take: Splitter)
    requires Steady(take)
    ensures Steady(Splitting(limits, take))
  {
    var next := Splitting(limits, take);
    forall b: ByteString, n: nat
      ensures next(b, n) == take(b, limits(n))
    {
    }
  }

  lemma NextFrameMore(buffer: ByteString, more: ByteString, limit: nat, utf8: ByteString -> bool)
    ensures var (frame, rest) := NextFrame(buffer, limit, utf8);
      !frame.Incomplete? ==> NextFrame(buffer + more, limit, utf8) == (frame, rest + more)
  {
    if |buffer| >= 4 {
      var length := Length(buffer);
      if |buffer| >= 4 + length {
        assert (buffer + more)[4..4 + length] == buffer[4..4 + length];
        assert (buffer + more)[4 + length..] == buffer[4 + length..] + more;
      }
    }
  }

  /** Every frame of a stream, the first error, and what is left. */
  datatype Parsed = Parsed(frames: seq<ByteString>, error: Option<FrameError>, rest: ByteString)

  /** The frames of a stream fed whole, the first of them numbered `n`. */
  function Parse(stream: ByteString, next: Splitter, n: nat): Parsed
    requires Steady(next)
    decreases |stream|
  {
    var (frame, rest) := next(stream, n);
    match frame
    case Incomplete => Parsed([], None, rest)
    case Bad(error) => Parsed([], Some(error), rest)
    case Complete(payload) => Joined([payload], Parse(rest, next, n + 1))
  }

  /** These frames, and then those parsed after them. */
  function Joined(frames: seq<ByteString>, later: Parsed): Parsed {
    later.(frames := frames + later.frames)
  }

  lemma JoinedTwice(a: seq<ByteString>, b: seq<ByteString>, later: Parsed)
    ensures Joined(a, Joined(b, later)) == Joined(a + b, later)
  {
    assert a + (b + later.frames) == a + b + later.frames;
  }

  lemma {:induction false} ParseMore(stream: ByteString, more: ByteString, next: Splitter, n: nat)
    requires Steady(next) && Parse(stream, next, n).error.None?
    ensures var p := Parse(stream, next, n);
      Parse(stream + more, next, n) == Joined(p.frames, Parse(p.rest + more, next, n + |p.frames|))
    decreases |stream|
  {
    var (frame, rest) := next(stream, n);
    if frame.Complete? {
      ParseMore(rest, more, next, n + 1);
      var p := Parse(rest, next, n + 1);
      JoinedTwice([frame.payload], p.frames, Parse(p.rest + more, next, n + 1 + |p.frames|));
    } else {
      assert Joined([], Parse(stream + more, next, n)) == Parse(stream + more, next, n);
    }
  }

  /** An error found stays the first error. */
  lemma {:induction false} ParseBad(stream: ByteString, more: ByteString, next: Splitter, n: nat)
    requires Steady(next) && Parse(stream, next, n).error.Some?
    ensures var p := Parse(stream, next, n); Parse(stream + more, next, n) == p.(rest := p.rest + more)
    decreases |stream|
  {
    var (frame, rest) := next(stream, n);
    if frame.Complete? {
      ParseBad(rest, more, next, n + 1);
    }
  }

  // ------------------------------------------------------------------ a stream in parts

  /** What is done with a reader, until an error: take in bytes, change the limit, or give the next frame. */
  datatype Action = Feed(bytes: ByteString) | SetLimit(limit: nat) | Ask

  datatype State = State(limit: nat, buffer: ByteString, frames: seq<ByteString>, error: Option<FrameError>)

  function Act(s: State, a: Action, take: Splitter): State {
    if s.error.Some? then s
    else
      match a
      case Feed(bytes) => s.(buffer := s.buffer + bytes)
      case SetLimit(limit) => s.(limit := limit)
      case Ask =>
        var (frame, rest) := take(s.buffer, s.limit);
        match frame
        case Incomplete => s
        case Bad(error) => s.(buffer := rest, error := Some(error))
        case Complete(payload) => s.(buffer := rest, frames := s.frames + [payload])
  }

  function Run(actions: seq<Action>, limit: nat, take: Splitter): State {
    if actions == [] then State(limit, [], [], None)
    else Act(Run(actions[..|actions| - 1], limit, take), actions[|actions| - 1], take)
  }

  /** The limit in force is the last one set. */
  lemma {:induction false} LastLimitHolds(before: seq<Action>, limit: nat, chosen: nat, later: seq<Action>, take: Splitter)
    requires (forall i | 0 <= i < |later| :: !later[i].SetLimit?) && Run(before, limit, take).error.None?
    ensures Run(before + [SetLimit(chosen)] + later, limit, take).limit == chosen
    decreases |later|
  {
    var all := before + [SetLimit(chosen)];
    if later == [] {
      assert all + [] == all && all[..|before|] == before;
    } else {
      var n := |later| - 1;
      assert (all + later)[..|all| + n] == all + later[..n];
      LastLimitHolds(before, limit, chosen, later[..n], take);
    }
  }

  /** If the next frame is settled now, it is under its own limit. */
  predicate Settles(s: State, take: Splitter, limits: nat -> nat) {
    s.error.None? && !take(s.buffer, s.limit).0.Incomplete? ==> s.limit == limits(|s.frames|)
  }

  /** The limit may change at any time, as long as each frame is settled under its own. */
  predicate Obeys(actions: seq<Action>, limit: nat, take: Splitter, limits: nat -> nat) {
    actions == [] ||
    var init, last := actions[..|actions| - 1], actions[|actions| - 1];
    Obeys(init, limit, take, limits) && (last.Ask? ==> Settles(Run(init, limit, take), take, limits))
  }

  /** Everything fed, however it was split. */
  function Fed(actions: seq<Action>): ByteString {
    if actions == [] then []
    else
      Fed(actions[..|actions| - 1]) + match actions[|actions| - 1] case Feed(bytes) => bytes case _ => []
  }

  /** The frames so far and those still in the buffer are those of all that was fed. */
  ghost predicate Agrees(s: State, fed: ByteString, next: Splitter)
    requires Steady(next)
  {
    var whole := Parse(fed, next, 0);
    if s.error.Some? then whole.frames == s.frames && whole.error == s.error
    else whole == Joined(s.frames, Parse(s.buffer, next, |s.frames|))
  }

  lemma FeedAgrees(s: State, fed: ByteString, bytes: ByteString, next: Splitter)
    requires Steady(next) && Agrees(s, fed, next)
    ensures Agrees(s.(buffer := s.buffer + bytes), fed + bytes, next) && (s.error.Some? ==> Agrees(s, fed + bytes, next))
  {
    if Parse(fed, next, 0).error.Some? {
      FeedSettled(s, fed, bytes, next);
    } else {
      FeedOpen(s, fed, bytes, next);
    }
  }

  /** The error is among the bytes fed already; what comes after it is not looked at. */
  lemma {:induction false} FeedSettled(s: State, fed: ByteString, bytes: ByteString, next: Splitter)
    requires Steady(next) && Agrees(s, fed, next) && Parse(fed, next, 0).error.Some?
    ensures Agrees(s.(buffer := s.buffer + bytes), fed + bytes, next)
  {
    ParseBad(fed, bytes, next, 0);
    if s.error.None? {
      ParseBad(s.buffer, bytes, next, |s.frames|);
    }
  }

  lemma {:induction false} FeedOpen(s: State, fed: ByteString, bytes: ByteString, next: Splitter)
    requires Steady(next) && Agrees(s, fed, next) && Parse(fed, next, 0).error.None?
    ensures Agrees(s.(buffer := s.buffer + bytes), fed + bytes, next)
  {
    var whole, left := Parse(fed, next, 0), Parse(s.buffer, next, |s.frames|);
    var later := Parse(left.rest + bytes, next, |s.frames| + |left.frames|);
    assert Parse(fed + bytes, next, 0) == Joined(s.frames + left.frames, later) by {
      ParseMore(fed, bytes, next, 0);
    }
    assert Parse(s.buffer + bytes, next, |s.frames|) == Joined(left.frames, later) by {
      ParseMore(s.buffer, bytes, next, |s.frames|);
    }
    JoinedTwice(s.frames, left.frames, later);
  }

  lemma AskAgrees(s: State, fed: ByteString, take: Splitter, limits: nat -> nat)
    requires Steady(take) && Steady(Splitting(limits, take))
    requires Agrees(s, fed, Splitting(limits, take)) && Settles(s, take, limits)
    ensures Agrees(Act(s, Ask, take), fed, Splitting(limits, take))
  {
    if s.error.None? && s.limit == limits(|s.frames|) {
      TakenAgrees(s, fed, Splitting(limits, take), Act(s, Ask, take));
    }
  }

  /** A frame taken off the buffer is the next of the whole stream. */
  lemma TakenAgrees(s: State, fed: ByteString, next: Splitter, t: State)
    requires Steady(next) && Agrees(s, fed, next) && s.error.None?
    requires var (frame, rest) := next(s.buffer, |s.frames|);
      match frame
      case Incomplete => t == s
      case Bad(error) => t == s.(buffer := rest, error := Some(error))
      case Complete(payload) => t == s.(buffer := rest, frames := s.frames + [payload])
    ensures Agrees(t, fed, next)
  {
    var (frame, rest) := next(s.buffer, |s.frames|);
    if frame.Complete? {
      JoinedTwice(s.frames, [frame.payload], Parse(rest, next, |s.frames| + 1));
    } else {
      assert s.frames + [] == s.frames;
    }
  }

  lemma {:induction false} RunAgrees(actions: seq<Action>, limit: nat, take: Splitter, limits: nat -> nat)
    requires Steady(take) && Obeys(actions, limit, take, limits)
    ensures Steady(Splitting(limits, take)) && Agrees(Run(actions, limit, take), Fed(actions), Splitting(limits, take))
  {
    SplittingIsSteady(limits, take);
    var next := Splitting(limits, take);
    if actions == [] {
      assert [] + Parse([], next, 0).frames == Parse([], next, 0).frames;
    } else {
      var init, last := actions[..|actions| - 1], actions[|actions| - 1];
      RunAgrees(init, limit, take, limits);
      match last
      case Feed(bytes) => FeedAgrees(Run(init, limit, take), Fed(init), bytes, next);
      case SetLimit(_) => assert Fed(actions) == Fed(init);
      case Ask =>
        AskAgrees(Run(init, limit, take), Fed(init), take, limits);
        assert Fed(actions) == Fed(init);
    }
  }

  /** No more frames can be given: an error came, or the next is incomplete under its own limit. */
  predicate Drained(s: State, next: Splitter) {
    s.error.Some? || next(s.buffer, |s.frames|).0.Incomplete?
  }

  /**
   * However a stream is split, whenever frames are asked for and whenever the limit is changed, as long as each frame
   * is settled under its own limit: a drained reader has given the same frames and the same first error as for the
   * stream fed whole; before that, a beginning of them.
   */
  lemma {:induction false} SplitDoesNotMatter(actions: seq<Action>, limit: nat, limits: nat -> nat, utf8: ByteString -> bool)
    requires Obeys(actions, limit, Taking(utf8), limits)
    ensures Steady(Splitting(limits, Taking(utf8)))
    ensures var next := Splitting(limits, Taking(utf8));
      var s := Run(actions, limit, Taking(utf8)); var whole := Parse(Fed(actions), next, 0);
      && s.frames <= whole.frames
      && (s.error.Some? ==> s.error == whole.error && s.frames == whole.frames)
      && (Drained(s, next) ==> s.frames == whole.frames && s.error == whole.error)
  {
    TakingIsSteady(utf8);
    RunAgrees(actions, limit, Taking(utf8), limits);
  }

  lemma {:induction false} ObeysAlike(actions: seq<Action>, limit: nat, take: Splitter, limits: nat -> nat,
                                      others: nat -> nat)
    requires Obeys(actions, limit, take, limits) && Run(actions, limit, take).error.None?
    requires forall n: nat | n < |Run(actions, limit, take).frames| :: limits(n) == others(n)
    ensures Obeys(actions, limit, take, others)
  {
    if actions != [] {
      ObeysAlike(actions[..|actions| - 1], limit, take, limits, others);
    }
  }

  /** Every run settles each frame under some limit: the one in force when the frame, or its error, is given. */
  lemma {:induction false} SomeLimitsAreObeyed(actions: seq<Action>, limit: nat, take: Splitter) returns (limits: nat -> nat)
    ensures Obeys(actions, limit, take, limits)
  {
    limits := n => limit;
    if actions != [] {
      var init := actions[..|actions| - 1];
      var before := SomeLimitsAreObeyed(init, limit, take);
      var s := Run(init, limit, take);
      limits := before;
      if s.error.None? {
        limits := n => if n == |s.frames| then s.limit else before(n);
        ObeysAlike(init, limit, take, before, limits);
      }
    }
  }

  // ------------------------------------------------------------------ what the bytes were

  function Concat(parts: seq<ByteString>): ByteString {
    if parts == [] then [] else Concat(parts[..|parts| - 1]) + parts[|parts| - 1]
  }

  function Codes(frames: seq<ByteString>): (r: seq<ByteString>)
    ensures |r| == |frames| && forall i | 0 <= i < |r| :: r[i] == Encode(frames[i])
  {
    seq(|frames|, i requires 0 <= i < |frames| => Encode(frames[i]))
  }

  function Encodings(frames: seq<ByteString>): ByteString {
    Concat(Codes(frames))
  }

  lemma EncodingsMore(frames: seq<ByteString>, frame: ByteString, rest: ByteString)
    ensures Encodings(frames + [frame]) + rest == Encodings(frames) + (Encode(frame) + rest)
  {
    assert Codes(frames + [frame])[..|frames|] == Codes(frames);
  }

  lemma AskLosesNothing(s: State, utf8: ByteString -> bool)
    ensures var t := Act(s, Ask, Taking(utf8));
      t.error.None? ==> Encodings(t.frames) + t.buffer == Encodings(s.frames) + s.buffer
  {
    CompleteIsEncoded(s.buffer, s.limit, utf8);
    var (frame, rest) := NextFrame(s.buffer, s.limit, utf8);
    assert Taking(utf8)(s.buffer, s.limit) == (frame, rest);
    if frame.Complete? {
      EncodingsMore(s.frames, frame.payload, rest);
    }
  }

  lemma FeedAppends(a: ByteString, b: ByteString, bytes: ByteString)
    ensures a + b + bytes == a + (b + bytes)
  {
  }

  /** Until an error, the encodings of the frames given and then the buffer are everything fed. */
  lemma {:induction false} NothingLost(actions: seq<Action>, limit: nat, utf8: ByteString -> bool)
    ensures var s := Run(actions, limit, Taking(utf8));
      s.error.None? ==> Fed(actions) == Encodings(s.frames) + s.buffer
  {
    if actions != [] {
      var init, last := actions[..|actions| - 1], actions[|actions| - 1];
      NothingLost(init, limit, utf8);
      var s := Run(init, limit, Taking(utf8));
      match last
      case Feed(bytes) => FeedAppends(Encodings(s.frames), s.buffer, bytes);
      case SetLimit(_) => assert Fed(actions) == Fed(init);
      case Ask =>
        AskLosesNothing(s, utf8);
        assert Fed(actions) == Fed(init);
    }
  }

  lemma NothingBefore(code: ByteString)
    ensures [] + code == code
  {
  }

  lemma ParseAfter(stream: ByteString, frames: seq<ByteString>, code: ByteString, next: Splitter, n: nat)
    requires Steady(next) && Parse(stream, next, n) == Parsed(frames, None, [])
    ensures Parse(stream + code, next, n) == Joined(frames, Parse(code, next, n + |frames|))
  {
    NothingBefore(code);
    ParseMore(stream, code, next, n);
  }

  lemma {:induction false} OneMoreTaken(stream: ByteString, frames: seq<ByteString>, code: ByteString,
                                        message: ByteString, next: Splitter, n: nat)
    requires Steady(next) && Parse(stream, next, n) == Parsed(frames, None, [])
    requires next(code, n + |frames|) == (Complete(message), []) && next([], n + |frames| + 1) == (Incomplete, [])
    ensures Parse(stream + code, next, n) == Parsed(frames + [message], None, [])
  {
    ParseAfter(stream, frames, code, next, n);
    OneTaken(code, message, next, n + |frames|);
  }

  lemma OneTaken(code: ByteString, message: ByteString, next: Splitter, n: nat)
    requires Steady(next) && next(code, n) == (Complete(message), []) && next([], n + 1) == (Incomplete, [])
    ensures Parse(code, next, n) == Parsed([message], None, [])
  {
    assert Parse([], next, n + 1) == Parsed([], None, []);
  }

  lemma {:induction false} TakenOneByOne(codes: seq<ByteString>, messages: seq<ByteString>, next: Splitter, n: nat)
    requires Steady(next) && (forall k: nat :: next([], k) == (Incomplete, [])) && |codes| == |messages|
    requires forall i | 0 <= i < |messages| :: next(codes[i], n + i) == (Complete(messages[i]), [])
    ensures Parse(Concat(codes), next, n) == Parsed(messages, None, [])
  {
    if messages != [] {
      var k := |messages| - 1;
      TakenOneByOne(codes[..k], messages[..k], next, n);
      OneMoreTaken(Concat(codes[..k]), messages[..k], codes[k], messages[k], next, n);
      assert messages[..k] + [messages[k]] == messages;
    }
  }

  /** Messages within their limits come back as they were written. */
  lemma {:induction false} EncodedComesBack(messages: seq<ByteString>, limits: nat -> nat, n: nat, utf8: ByteString -> bool)
    requires forall i | 0 <= i < |messages| ::
      utf8(messages[i]) && |messages[i]| <= limits(n + i) && |messages[i]| < 0x1_0000_0000
    ensures Steady(Splitting(limits, Taking(utf8)))
    ensures Parse(Encodings(messages), Splitting(limits, Taking(utf8)), n) == Parsed(messages, None, [])
  {
    TakingIsSteady(utf8);
    SplittingIsSteady(limits, Taking(utf8));
    var next := Splitting(limits, Taking(utf8));
    forall i | 0 <= i < |messages|
      ensures next(Encode(messages[i]), n + i) == (Complete(messages[i]), [])
    {
      OneComesBack(messages[i], limits(n + i), utf8);
    }
    forall k: nat
      ensures next([], k) == (Incomplete, [])
    {
      assert next([], k) == NextFrame([], limits(k), utf8);
    }
    TakenOneByOne(Codes(messages), messages, next, n);
  }

  lemma OneComesBack(message: ByteString, limit: nat, utf8: ByteString -> bool)
    requires utf8(message) && |message| <= limit && |message| < 0x1_0000_0000
    ensures NextFrame(Encode(message), limit, utf8) == (Complete(message), [])
  {
    NumberOfFourBytes(|message|);
    NumberOfFour(FourBytes(|message|));
    var frame := Encode(message);
    assert frame[4..4 + |message|] == message && frame[4 + |message|..] == [];
  }
}

/** A source respelled in a locale means what it meant, and its canonical text is the original. */
module LocalizationRoundTrip {
  import opened Base
  import opened SourceMask
  import opened LocalizedWords
  import opened LocalizedSource
  import opened Localization

  // ------------------------------------------------------------------ respelling makes no directive

  /** No candidate starts with any character of the pattern. */
  predicate Plain(pattern: string) {
    forall i | 0 <= i < |pattern| :: pattern[i] == '@' || 'a' <= pattern[i] <= 'z'
  }

  lemma StartsTail(s: string, pattern: string)
    requires s != [] && pattern != []
    ensures StartsWith(s, pattern) <==> s[0] == pattern[0] && StartsWith(s[1..], pattern[1..])
  {
    if StartsWith(s, pattern) {
      assert s[0] == s[..|pattern|][0];
      assert s[1..][..|pattern| - 1] == s[..|pattern|][1..];
    }
    if s[0] == pattern[0] && StartsWith(s[1..], pattern[1..]) {
      assert s[..|pattern|] == [s[0]] + s[1..][..|pattern| - 1];
      assert pattern == [pattern[0]] + pattern[1..];
    }
  }

  lemma {:induction false} PrefixAfter(x: string, s: string, t: string, pattern: string)
    requires Plain(pattern)
    requires |x| <= |pattern| ==> (StartsWith(s, pattern[|x|..]) <==> StartsWith(t, pattern[|x|..]))
    ensures StartsWith(x + s, pattern) <==> StartsWith(x + t, pattern)
    decreases |x|
  {
    if x == [] {
      assert x + s == s && x + t == t && pattern[0..] == pattern;
    } else if pattern != [] {
      assert (x + s)[1..] == x[1..] + s && (x + t)[1..] == x[1..] + t;
      StartsTail(x + s, pattern);
      StartsTail(x + t, pattern);
      if |x| <= |pattern| {
        assert pattern[1..][|x| - 1..] == pattern[|x|..];
      }
      PrefixAfter(x[1..], s, t, pattern[1..]);
    }
  }

  lemma {:induction false} PrefixAlike(lex: Lexicon, spellings: map<string, string>, a: seq<Piece>, b: seq<Piece>,
                                       pattern: string)
    requires Respelled(lex, spellings, a, b) && Plain(pattern)
    ensures StartsWith(Flatten(a), pattern) <==> StartsWith(Flatten(b), pattern)
    decreases |a|
  {
    if a != [] {
      assert Respells(lex, spellings, a[0], b[0]);
      if IsCandidate(a[0]) {
        if pattern != [] {
          assert Flatten(a)[0] == a[0].run[0] && Flatten(b)[0] == b[0].run[0];
          StartsTail(Flatten(a), pattern);
          StartsTail(Flatten(b), pattern);
        }
      } else {
        var x := Text(a[0]);
        if |x| <= |pattern| {
          PrefixAlike(lex, spellings, a[1..], b[1..], pattern[|x|..]);
        }
        PrefixAfter(x, Flatten(a[1..]), Flatten(b[1..]), pattern);
      }
    }
  }

  /** A run of word characters neither starts a directive nor ends a line. */
  lemma {:induction false} DirectiveAfterRun(lex: Lexicon, run: string, rest: string, atLineStart: bool)
    requires lex.Valid() && run != [] && AllWord(lex, run)
    ensures HasDirective(run + rest, atLineStart) <==> HasDirective(rest, false)
    decreases |run|
  {
    var s := run + rest;
    assert IsWord(lex, run[0]) && s[0] == run[0] && run[0] != '@' && run[0] != '\n';
    StartsTail(s, LOCALE);
    assert s[1..] == run[1..] + rest;
    if |run| == 1 {
      assert s[1..] == rest;
    } else {
      DirectiveAfterRun(lex, run[1..], rest, false);
    }
  }

  lemma {:induction false} DirectivesAlike(lex: Lexicon, spellings: map<string, string>, a: seq<Piece>, b: seq<Piece>,
                                           atLineStart: bool)
    requires lex.Valid() && WellFormed(lex, a) && Respelled(lex, spellings, a, b)
    ensures HasDirective(Flatten(a), atLineStart) <==> HasDirective(Flatten(b), atLineStart)
    decreases |a|
  {
    if a != [] {
      assert Respells(lex, spellings, a[0], b[0]);
      WellFormedTail(lex, a);
      match a[0]
      case Run(run) =>
        DirectivesAlike(lex, spellings, a[1..], b[1..], false);
        DirectiveAfterRun(lex, run, Flatten(a[1..]), atLineStart);
        DirectiveAfterRun(lex, b[0].run, Flatten(b[1..]), atLineStart);
      case Other(c) =>
        DirectivesAlike(lex, spellings, a[1..], b[1..], c == '\n');
        PrefixAlike(lex, spellings, a, b, LOCALE);
        assert Flatten(a)[1..] == Flatten(a[1..]) && Flatten(b)[1..] == Flatten(b[1..]);
    }
  }

  // ------------------------------------------------------------------ a source under a directive

  /** The text with this first line. */
  function Under(head: string, body: string): string {
    head + ['\n'] + body
  }

  lemma UnderFacts(head: string, body: string)
    requires '\n' !in head
    ensures var text := Under(head, body);
      LineEnd(text, 0) == |head| && text[..|head|] == head && text[|head| + 1..] == body && |head| < |text|
  {
    var text := Under(head, body);
    var end := LineEnd(text, 0);
    assert forall i | 0 <= i < |head| :: text[i] == head[i] && text[i] != '\n';
    assert text[|head|] == '\n';
  }

  /** The profile a request opens for an explicit tag. */
  ghost predicate Opens(request: Request, tag: string) {
    && tag in request.profiles && request.available
    && (request.pin.Some? ==> request.pin.value == Pin(tag, request.profiles[tag].identity))
  }

  /** The body of an explicit source is evaluated by its candidate words alone. */
  lemma {:induction false} ExplicitEvaluates(lex: Lexicon, request: Request, head: string, tag: string, body: string,
                                             found: seq<Found>, answer: Option<Evaluation>)
    requires lex.Valid() && QuoteFree(request.normalize) && Opens(request, tag)
    requires '\n' !in head && ReadFirstLine(request.normalize, head) == Directive(tag) && !HasDirective(body, true)
    requires found == Words(Pieces(lex, body, Normal), |head| + 1) && Spelled(request.profiles[tag], found)
    ensures var profile := request.profiles[tag];
      Evaluates(lex, request, Under(head, body), answer) <==>
      answer == Some(Localized(Explicit, tag, profile.identity, Mapped(profile, found)))
  {
    var text := Under(head, body);
    UnderFacts(head, body);
    DirectiveHasNoQuotes(request.normalize, text);
    QuoteFreeIsNormal(text, |head| + 1);
    var offsets := seq(|text| + 1, i requires 0 <= i <= |text| => ByteLength(text[..i]));
    assert IsOffsets(text, offsets);
    forall at | IsOffsets(text, at)
      ensures EvaluatesAt(lex, request, text, at, answer) <==>
              answer == Some(Localized(Explicit, tag, request.profiles[tag].identity, Mapped(request.profiles[tag], found)))
    {
      EvaluatesUnder(lex, request, head, tag, body, found, at, answer);
    }
  }

  lemma {:induction false} EvaluatesUnder(lex: Lexicon, request: Request, head: string, tag: string, body: string,
                                          found: seq<Found>, offsets: seq<nat>, answer: Option<Evaluation>)
    requires Opens(request, tag) && |offsets| == |Under(head, body)| + 1
    requires '\n' !in head && ReadFirstLine(request.normalize, head) == Directive(tag) && !HasDirective(body, true)
    requires ModeAt(Under(head, body), |head| + 1) == Normal
    requires found == Words(Pieces(lex, body, Normal), |head| + 1) && Spelled(request.profiles[tag], found)
    ensures var profile := request.profiles[tag];
      EvaluatesAt(lex, request, Under(head, body), offsets, answer) <==>
      answer == Some(Localized(Explicit, tag, profile.identity, Mapped(profile, found)))
  {
    var text := Under(head, body);
    UnderFacts(head, body);
    LaterTroubleShows(text, offsets, |head| + 1, []);
    assert TroubleOf(request.normalize, text, offsets) == [];
    assert WordsFrom(lex, text, |head| + 1) == found;
    var s := Chosen(Explicit, tag, request.profiles[tag]);
    assert OpenExplicit(request.profiles, tag, request.pin, request.available) == s;
    assert Selects(lex, request, Directive(tag), found, offsets, s);
  }

  /** The words of the original are the candidates of its pieces. */
  lemma {:induction false} OriginalsAreWords(ps: seq<Piece>, at: nat)
    ensures Originals(ps) == seq(|Words(ps, at)|, i requires 0 <= i < |Words(ps, at)| => Words(ps, at)[i].word)
    decreases |ps|
  {
    if ps != [] {
      OriginalsAreWords(ps[1..], at + |Text(ps[0])|);
      WordsTail(ps, at);
      OriginalsTail(ps);
    }
  }

  /**
   * A source under an explicit directive, respelled in the locale it names: the stage answers with exactly the
   * words of the original.
   */
  lemma {:induction false} RespelledEvaluates(lex: Lexicon, request: Request, head: string, tag: string, body: string,
                                              b: seq<Piece>, answer: Option<Evaluation>)
    requires lex.Valid() && QuoteFree(request.normalize) && Opens(request, tag)
    requires '\n' !in head && ReadFirstLine(request.normalize, head) == Directive(tag) && !HasDirective(body, true)
    requires Respelled(lex, request.profiles[tag].spellings, Pieces(lex, body, Normal), b)
    ensures Evaluates(lex, request, Under(head, Flatten(b)), answer) <==>
      answer == Some(Localized(Explicit, tag, request.profiles[tag].identity, Originals(Pieces(lex, body, Normal))))
  {
    var profile := request.profiles[tag];
    var a := Pieces(lex, body, Normal);
    FlattenPieces(lex, body, Normal);
    PiecesWellFormed(lex, body, Normal);
    DirectivesAlike(lex, profile.spellings, a, b, true);
    RespelledPieces(lex, profile.spellings, body, Normal, a, b);
    SpellingsFound(lex, profile, a, b, |head| + 1);
    ExplicitEvaluates(lex, request, head, tag, Flatten(b), Words(b, |head| + 1), answer);
  }

  /** Putting those words back gives the original text, with an offset for each character and for the end. */
  lemma {:induction false} RespelledRebuilds(lex: Lexicon, spellings: map<string, string>, head: string, body: string,
                                             b: seq<Piece>, offsets: seq<nat>)
    requires lex.Valid() && '\n' !in head && '\"' !in head
    requires Respelled(lex, spellings, Pieces(lex, body, Normal), b)
    requires IsOffsets(Under(head, Flatten(b)), offsets)
    ensures var r := Rebuilt(lex, Under(head, Flatten(b)), offsets, Originals(Pieces(lex, body, Normal)));
      && r.0 == Under(head, body)
      && IsOffsetMap(r.1, |Under(head, body)|, 0, ByteLength(Under(head, Flatten(b))))
  {
    var a := Pieces(lex, body, Normal);
    var text, skip := Under(head, Flatten(b)), |head| + 1;
    UnderFacts(head, Flatten(b));
    assert text[..skip] == head + ['\n'];
    QuoteFreeIsNormal(text, skip);
    FlattenPieces(lex, body, Normal);
    RespelledPieces(lex, spellings, body, Normal, a, b);
    var found, words := WordsFrom(lex, text, skip), Originals(a);
    assert found == Words(b, skip);
    Restores(lex, spellings, text, skip, a, b);
    SpliceSkip(text, 0, skip, found, words);
    assert Under(head, body) == text[0..skip] + body;
    forall i, j | 0 <= i < j < |offsets|
      ensures offsets[i] <= offsets[j]
    {
      OffsetsIncrease(text, offsets, i, j);
    }
    SpliceOffsets(offsets, text, 0, found, words);
    assert text[..|text|] == text;
  }
}

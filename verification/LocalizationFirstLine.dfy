/** Rebuilding sources without a directive, whose first line is evaluated but not rebuilt. */
module LocalizationFirstLine {
  import opened Base
  import opened SourceMask
  import opened LocalizedWords
  import opened LocalizedSource
  import opened Localization
  import opened LocalizationRoundTrip

  // ------------------------------------------------------------------ the first line in pieces

  /** How many pieces the first line has, with its line feed. */
  function LinePieces(ps: seq<Piece>): (n: nat)
    ensures n <= |ps|
  {
    if ps == [] then 0 else if ps[0] == Other('\n') then 1 else 1 + LinePieces(ps[1..])
  }

  /** The end of the line at `at` and its line feed, or of the text. */
  function LineAfter(text: string, at: nat): (n: nat)
    requires at <= |text|
    ensures at <= n <= |text|
  {
    if LineEnd(text, at) < |text| then LineEnd(text, at) + 1 else |text|
  }

  lemma {:induction false} LineAfterSkip(text: string, at: nat, next: nat)
    requires at <= next <= |text| && forall i | at <= i < next :: text[i] != '\n'
    ensures LineAfter(text, at) == LineAfter(text, next)
    decreases next - at
  {
    if at < next {
      LineAfterSkip(text, at + 1, next);
    }
  }

  lemma {:induction false} StaysNormal(lex: Lexicon, text: string, index: nat, n: nat)
    requires lex.Valid() && index + n <= |text| && ModeAt(text, index) == Normal && n <= RunLength(lex, text[index..])
    ensures ModeAt(text, index + n) == Normal
  {
    if n > 0 {
      StaysNormal(lex, text, index, n - 1);
      var s := text[index..];
      assert s[..RunLength(lex, s)][n - 1] == text[index + n - 1];
      assert IsWord(lex, text[index + n - 1]);
    }
  }

  /** The pieces of a text from `at` on. */
  function PiecesFrom(lex: Lexicon, text: string, at: nat): seq<Piece>
    requires at <= |text|
  {
    Pieces(lex, text[at..], ModeAt(text, at))
  }

  predicate OnLine(text: string, at: nat, next: nat)
    requires at <= next <= |text|
  {
    forall i | at <= i < next :: text[i] != '\n'
  }

  /** The first piece reaches to `next`, and ends the line or lies on it. */
  ghost predicate Leads(lex: Lexicon, text: string, at: nat, ps: seq<Piece>, next: nat)
    requires at <= |text|
  {
    && ps != [] && at < next <= |text| && Text(ps[0]) == text[at..next] && ps[1..] == PiecesFrom(lex, text, next)
    && if ps[0] == Other('\n') then LineAfter(text, at) == next else OnLine(text, at, next)
  }

  lemma {:induction false} RunLeads(lex: Lexicon, text: string, at: nat)
    requires lex.Valid() && at < |text| && ModeAt(text, at) == Normal && IsWord(lex, text[at])
    ensures Leads(lex, text, at, PiecesFrom(lex, text, at), at + RunLength(lex, text[at..]))
  {
    var s := text[at..];
    var n := RunLength(lex, s);
    StaysNormal(lex, text, at, n);
    assert s[..n] == text[at..at + n] && s[n..] == text[at + n..];
    var ps := PiecesFrom(lex, text, at);
    assert ps == [Run(s[..n])] + Pieces(lex, s[n..], Normal);
    forall i | at <= i < at + n
      ensures text[i] != '\n'
    {
      assert text[i] == s[..n][i - at];
    }
  }

  lemma FeedEnds(text: string, at: nat)
    requires at < |text|
    ensures text[at] == '\n' ==> LineAfter(text, at) == at + 1
    ensures text[at] != '\n' ==> OnLine(text, at, at + 1)
  {
  }

  lemma {:induction false} OtherLeads(lex: Lexicon, text: string, at: nat)
    requires at < |text| && !(ModeAt(text, at) == Normal && IsWord(lex, text[at]))
    ensures Leads(lex, text, at, PiecesFrom(lex, text, at), at + 1)
  {
    OtherFirst(lex, text, at, ModeAt(text, at));
    FeedEnds(text, at);
    ModeNext(text, at);
  }

  lemma ModeNext(text: string, at: nat)
    requires at < |text|
    ensures ModeAt(text, at + 1) == Step(text[at..], ModeAt(text, at))
  {
  }

  lemma TwoParts(text: string, at: nat, next: nat, end: nat)
    requires at <= next <= end <= |text|
    ensures text[at..end] == text[at..next] + text[next..end]
  {
  }

  lemma {:induction false} LinePiecesNext(ps: seq<Piece>)
    requires ps != []
    ensures var n := LinePieces(ps);
      && (ps[0] == Other('\n') ==> n == 1 && Flatten(ps[..n]) == Text(ps[0]))
      && (ps[0] != Other('\n') ==>
        && n == LinePieces(ps[1..]) + 1 && ps[n..] == ps[1..][n - 1..]
        && Flatten(ps[..n]) == Text(ps[0]) + Flatten(ps[1..][..n - 1]))
  {
    var n := LinePieces(ps);
    assert ps[..n][1..] == ps[1..][..n - 1];
  }

  /** The line is made of whole pieces, and the text after it falls into the other ones. */
  lemma {:induction false} LineSplits(lex: Lexicon, text: string, at: nat, ps: seq<Piece>)
    requires lex.Valid() && at <= |text| && ps == PiecesFrom(lex, text, at)
    ensures var end, n := LineAfter(text, at), LinePieces(ps);
      Flatten(ps[..n]) == text[at..end] && ps[n..] == PiecesFrom(lex, text, end)
    decreases |text| - at
  {
    if at < |text| {
      var next := at + 1;
      if ModeAt(text, at) == Normal && IsWord(lex, text[at]) {
        RunLeads(lex, text, at);
        next := at + RunLength(lex, text[at..]);
      } else {
        OtherLeads(lex, text, at);
      }
      LineSplitsAfter(lex, text, at, ps, next);
    }
  }

  lemma {:induction false} LineSplitsAfter(lex: Lexicon, text: string, at: nat, ps: seq<Piece>, next: nat)
    requires lex.Valid() && at < next <= |text| && Leads(lex, text, at, ps, next)
    ensures var end, n := LineAfter(text, at), LinePieces(ps);
      Flatten(ps[..n]) == text[at..end] && ps[n..] == PiecesFrom(lex, text, end)
    decreases |text| - at, 0
  {
    LinePiecesNext(ps);
    if ps[0] != Other('\n') {
      LineSplits(lex, text, next, ps[1..]);
      LineAfterSkip(text, at, next);
      TwoParts(text, at, next, LineAfter(text, next));
    }
  }

  // ------------------------------------------------------------------ the same text

  /** The same pieces but for their candidates. */
  ghost predicate Alike(lex: Lexicon, a: seq<Piece>, c: seq<Piece>) {
    && |a| == |c|
    && forall i | 0 <= i < |a| :: if IsCandidate(a[i]) then c[i].Run? && SpellingOk(lex, c[i].run) else c[i] == a[i]
  }

  lemma AlikeRest(lex: Lexicon, a: seq<Piece>, c: seq<Piece>)
    requires Alike(lex, a, c) && WellFormed(lex, a) && a != []
    ensures c != [] && Alike(lex, a[1..], c[1..]) && WellFormed(lex, a[1..])
    ensures if IsCandidate(a[0]) then c[0].Run? && SpellingOk(lex, c[0].run) else c[0] == a[0]
  {
    WellFormedTail(lex, a);
  }

  /** A run ends where its word characters end. */
  lemma {:induction false} RunEnds(lex: Lexicon, a: seq<Piece>, c: seq<Piece>)
    requires Alike(lex, a, c) && WellFormed(lex, a) && a != [] && IsCandidate(a[0])
    ensures RunLength(lex, Flatten(a)) == |a[0].run| && RunLength(lex, Flatten(c)) == |c[0].run|
  {
    AlikeRest(lex, a, c);
    assert |a| > 1 ==> a[1].Other? && !IsWord(lex, a[1].c) && c[1] == a[1];
    RunLengthOf(lex, a[0].run, Flatten(a[1..]));
    RunLengthOf(lex, c[0].run, Flatten(c[1..]));
  }

  lemma SameHead(x: string, xs: string, y: string, ys: string)
    requires |x| == |y|
    ensures x + xs == y + ys <==> x == y && xs == ys
  {
    if x + xs == y + ys {
      assert (x + xs)[..|x|] == x && (y + ys)[..|y|] == y;
      assert (x + xs)[|x|..] == xs && (y + ys)[|y|..] == ys;
    }
  }

  lemma SameWords(x: string, xs: seq<string>, y: string, ys: seq<string>)
    ensures [x] + xs == [y] + ys <==> x == y && xs == ys
  {
    if [x] + xs == [y] + ys {
      assert ([x] + xs)[0] == x && ([y] + ys)[0] == y;
      assert ([x] + xs)[1..] == xs && ([y] + ys)[1..] == ys;
    }
  }

  /** Texts that differ in their candidates at most are the same exactly when the candidates are. */
  lemma {:induction false} SameText(lex: Lexicon, a: seq<Piece>, c: seq<Piece>)
    requires Alike(lex, a, c) && WellFormed(lex, a)
    ensures Flatten(a) == Flatten(c) <==> Originals(a) == Originals(c)
    decreases |a|
  {
    if a != [] {
      AlikeRest(lex, a, c);
      SameText(lex, a[1..], c[1..]);
      if IsCandidate(a[0]) {
        RunEnds(lex, a, c);
        if |a[0].run| == |c[0].run| {
          SameHead(a[0].run, Flatten(a[1..]), c[0].run, Flatten(c[1..]));
        }
        SameWords(a[0].run, Originals(a[1..]), c[0].run, Originals(c[1..]));
      } else {
        SameHead(Text(a[0]), Flatten(a[1..]), Text(c[0]), Flatten(c[1..]));
        OriginalsTail(a);
        OriginalsTail(c);
      }
    }
  }

  // ------------------------------------------------------------------ what is evaluated

  /** A source without a directive, once its locale is chosen. */
  lemma {:induction false} ChosenIsEvaluated(lex: Lexicon, request: Request, text: string, found: seq<Found>,
                                             offsets: seq<nat>, how: Method, tag: string, profile: Profile)
    requires IsOffsets(text, offsets) && WordsFrom(lex, text, 0) == found
    requires ReadFirstLine(request.normalize, text[..LineEnd(text, 0)]) == NoDirective
    requires TroubleOf(request.normalize, text, offsets) == [] && Spelled(profile, found)
    requires Selects(lex, request, NoDirective, found, offsets, Chosen(how, tag, profile))
    ensures Evaluates(lex, request, text, Some(Localized(how, tag, profile.identity, Mapped(profile, found))))
  {
    var answer := Localized(how, tag, profile.identity, Mapped(profile, found));
    var s := Chosen(how, tag, profile);
    assert Selects(lex, request, NoDirective, found, offsets, s) && Classified(lex, found, offsets, s, answer);
    assert EvaluatesAt(lex, request, text, offsets, Some(answer));
  }

  lemma {:induction false} NoDirectiveNoTrouble(normalize: string -> Option<string>, text: string, offsets: seq<nat>)
    requires |offsets| == |text| + 1 && !HasDirective(text, true)
    ensures ReadFirstLine(normalize, text[..LineEnd(text, 0)]) == NoDirective && TroubleOf(normalize, text, offsets) == []
  {
    var end := LineEnd(text, 0);
    assert text[0..] == text && text[0..end] == text[..end];
    LineStarts(text, 0);
    if end < |text| {
      LaterTroubleShows(text, offsets, end + 1, []);
    }
  }

  /** A respelled source without a directive: the stage answers with the words of the original, first line and all. */
  lemma {:induction false} ChosenAnswersOriginals(lex: Lexicon, request: Request, body: string, b: seq<Piece>,
                                                  offsets: seq<nat>, how: Method, tag: string, profile: Profile)
    requires lex.Valid() && Respelled(lex, profile.spellings, Pieces(lex, body, Normal), b) && !HasDirective(body, true)
    requires IsOffsets(Flatten(b), offsets)
    requires Selects(lex, request, NoDirective, Words(b, 0), offsets, Chosen(how, tag, profile))
    ensures Evaluates(lex, request, Flatten(b),
                      Some(Localized(how, tag, profile.identity, Originals(Pieces(lex, body, Normal)))))
  {
    var a, text := Pieces(lex, body, Normal), Flatten(b);
    FlattenPieces(lex, body, Normal);
    PiecesWellFormed(lex, body, Normal);
    DirectivesAlike(lex, profile.spellings, a, b, true);
    NoDirectiveNoTrouble(request.normalize, text, offsets);
    RespelledPieces(lex, profile.spellings, body, Normal, a, b);
    SpellingsFound(lex, profile, a, b, 0);
    assert text[0..] == text;
    ChosenIsEvaluated(lex, request, text, Words(b, 0), offsets, how, tag, profile);
  }

  // ------------------------------------------------------------------ what is rebuilt

  lemma {:induction false} OriginalsJoin(a: seq<Piece>, b: seq<Piece>)
    ensures Originals(a + b) == Originals(a) + Originals(b)
    decreases |a|
  {
    if a == [] {
      assert a + b == b;
    } else {
      assert (a + b)[1..] == a[1..] + b;
      OriginalsJoin(a[1..], b);
    }
  }

  lemma {:induction false} FlattenJoin(a: seq<Piece>, b: seq<Piece>)
    ensures Flatten(a + b) == Flatten(a) + Flatten(b)
    decreases |a|
  {
    if a == [] {
      assert a + b == b;
    } else {
      assert (a + b)[1..] == a[1..] + b;
      FlattenJoin(a[1..], b);
    }
  }

  /** Words that may stand as candidates, and enough of them, stand in the refilled pieces as they come. */
  lemma {:induction false} RefilledWords(lex: Lexicon, b: seq<Piece>, words: seq<string>)
    requires |Originals(b)| <= |words| && forall i | 0 <= i < |words| :: SpellingOk(lex, words[i])
    ensures Alike(lex, b, Refill(b, words)) && Originals(Refill(b, words)) == words[..|Originals(b)|]
    decreases |b|
  {
    if b != [] {
      OriginalsTail(b);
      OriginalsTail(Refill(b, words));
      var rest := if IsCandidate(b[0]) then words[1..] else words;
      RefilledWords(lex, b[1..], rest);
      assert Refill(b, words)[1..] == Refill(b[1..], rest);
      if IsCandidate(b[0]) {
        assert words[..|Originals(b)|] == [words[0]] + rest[..|Originals(b[1..])|];
      }
      var c := Refill(b, words);
      forall i | 0 <= i < |b|
        ensures if IsCandidate(b[i]) then c[i].Run? && SpellingOk(lex, c[i].run) else c[i] == b[i]
      {
        assert i > 0 ==> b[i] == b[1..][i - 1] && c[i] == c[1..][i - 1];
      }
    }
  }

  lemma {:induction false} OriginalsAreOk(lex: Lexicon, a: seq<Piece>)
    requires WellFormed(lex, a)
    ensures forall i | 0 <= i < |Originals(a)| :: SpellingOk(lex, Originals(a)[i])
    decreases |a|
  {
    if a != [] {
      WellFormedTail(lex, a);
      OriginalsAreOk(lex, a[1..]);
      OriginalsTail(a);
      assert IsCandidate(a[0]) ==> SpellingOk(lex, a[0].run);
    }
  }

  lemma {:induction false} AsManyOriginals(lex: Lexicon, spellings: map<string, string>, a: seq<Piece>, b: seq<Piece>)
    requires Respelled(lex, spellings, a, b)
    ensures |Originals(a)| == |Originals(b)|
    decreases |a|
  {
    if a != [] {
      RespelledRest(lex, spellings, a, b);
      AsManyOriginals(lex, spellings, a[1..], b[1..]);
    }
  }

  /** The pieces of what is rebuilt: those of the first line as they are, and after them the words from the first on. */
  function RebuiltPieces(b: seq<Piece>, words: seq<string>): seq<Piece> {
    b[..LinePieces(b)] + Refill(b[LinePieces(b)..], words)
  }

  lemma {:induction false} RebuiltIs(lex: Lexicon, text: string, offsets: seq<nat>, words: seq<string>)
    requires lex.Valid() && |offsets| == |text| + 1
    ensures Rebuilt(lex, text, offsets, words).0 == Flatten(RebuiltPieces(Pieces(lex, text, Normal), words))
  {
    var b, end := Pieces(lex, text, Normal), FirstLineLength(text);
    var n := LinePieces(b);
    assert text[0..] == text && LineAfter(text, 0) == end;
    LineSplits(lex, text, 0, b);
    var rest := PiecesFrom(lex, text, end);
    FlattenPieces(lex, text[end..], ModeAt(text, end));
    Refills(text, end, rest, words);
    SpliceSkip(text, 0, end, WordsFrom(lex, text, end), words);
    FlattenJoin(b[..n], Refill(b[n..], words));
  }

  /** How many candidates stand on the first line. */
  function FirstLineWords(lex: Lexicon, text: string): nat {
    |Originals(Pieces(lex, text, Normal)[..LinePieces(Pieces(lex, text, Normal))])|
  }

  lemma {:induction false} RebuiltAlike(lex: Lexicon, spellings: map<string, string>, a: seq<Piece>, b: seq<Piece>)
    requires WellFormed(lex, a) && Respelled(lex, spellings, a, b)
    ensures var words, c := Originals(a), RebuiltPieces(b, Originals(a)); var m := |Originals(b[..LinePieces(b)])|;
      && Alike(lex, a, c) && |words| == |Originals(b)| && m <= |words|
      && Originals(c) == Originals(b)[..m] + words[..|words| - m]
  {
    var words, n := Originals(a), LinePieces(b);
    var line, rest := b[..n], b[n..];
    assert line + rest == b;
    OriginalsJoin(line, rest);
    AsManyOriginals(lex, spellings, a, b);
    OriginalsAreOk(lex, a);
    RefilledWords(lex, rest, words);
    OriginalsJoin(line, Refill(rest, words));
    var c := RebuiltPieces(b, words);
    forall i | 0 <= i < |a|
      ensures if IsCandidate(a[i]) then c[i].Run? && SpellingOk(lex, c[i].run) else c[i] == a[i]
    {
      assert Respells(lex, spellings, a[i], b[i]);
      assert c[i] == if i < n then b[i] else Refill(rest, words)[i - n];
      assert i >= n ==> b[i] == rest[i - n];
    }
  }

  /**
   * The text of a source without a directive comes back exactly when each of the `m` candidates on its first line is
   * spelled as itself, and every word stands again `m` words later: those of the first line are evaluated but not
   * taken, so that every later word is put `m` candidates too late.
   */
  lemma {:induction false} RebuiltExactly(lex: Lexicon, spellings: map<string, string>, body: string, b: seq<Piece>,
                                          offsets: seq<nat>)
    requires lex.Valid() && Respelled(lex, spellings, Pieces(lex, body, Normal), b) && |offsets| == |Flatten(b)| + 1
    ensures var words, spelled, m := Originals(Pieces(lex, body, Normal)), Originals(b), FirstLineWords(lex, Flatten(b));
      && m <= |words| == |spelled|
      && (Rebuilt(lex, Flatten(b), offsets, words).0 == body <==>
          spelled[..m] == words[..m] && words[..|words| - m] == words[m..])
  {
    var a := Pieces(lex, body, Normal);
    var words, spelled := Originals(a), Originals(b);
    PiecesWellFormed(lex, body, Normal);
    FlattenPieces(lex, body, Normal);
    RespelledPieces(lex, spellings, body, Normal, a, b);
    RebuiltIs(lex, Flatten(b), offsets, words);
    RebuiltAlike(lex, spellings, a, b);
    SameText(lex, a, RebuiltPieces(b, words));
    Shifted(spelled, words, FirstLineWords(lex, Flatten(b)));
  }

  lemma Shifted(spelled: seq<string>, words: seq<string>, m: nat)
    requires m <= |words| == |spelled|
    ensures words == spelled[..m] + words[..|words| - m] <==> spelled[..m] == words[..m] && words[..|words| - m] == words[m..]
  {
    var shifted := spelled[..m] + words[..|words| - m];
    assert words == words[..m] + words[m..];
    assert shifted[..m] == spelled[..m] && shifted[m..] == words[..|words| - m];
  }

  /** So with no candidate on the first line, the text comes back. */
  lemma {:induction false} PlainFirstLine(lex: Lexicon, spellings: map<string, string>, body: string, b: seq<Piece>,
                                          offsets: seq<nat>)
    requires lex.Valid() && Respelled(lex, spellings, Pieces(lex, body, Normal), b) && |offsets| == |Flatten(b)| + 1
    requires FirstLineWords(lex, Flatten(b)) == 0
    ensures Rebuilt(lex, Flatten(b), offsets, Originals(Pieces(lex, body, Normal))).0 == body
  {
    RebuiltExactly(lex, spellings, body, b, offsets);
    NoShift(Originals(b), Originals(Pieces(lex, body, Normal)), FirstLineWords(lex, Flatten(b)));
  }

  lemma NoShift(spelled: seq<string>, words: seq<string>, m: nat)
    requires m == 0
    ensures m <= |words| && m <= |spelled| && spelled[..m] == words[..m] && words[..|words| - m] == words[m..]
  {
  }

  // ------------------------------------------------------------------ a first line that stays and a word that moves

  /** The capitals, with the reserved words A and B. */
  function Capitals(): Lexicon {
    Lexicon(c => if 'A' <= c <= 'Z' then Some("latin") else None, {"A", "B"}, c => c, map["A" := "A", "B" := "B"])
  }

  /** A is spelled as itself, and B is spelled C. */
  function Moved(): Profile {
    Profile("p", map["A" := "A", "C" := "B"], {"A", "C"})
  }

  lemma {:induction false} TwoLines(lex: Lexicon, x: char, y: char)
    requires IsWord(lex, x) && IsWord(lex, y) && !IsWord(lex, '\n') && x != '\"' && y != '\"'
    ensures Pieces(lex, [x, '\n', y], Normal) == [Run([x]), Other('\n'), Run([y])]
  {
    var s := [x, '\n', y];
    RunLengthOf(lex, [x], ['\n', y]);
    RunLengthOf(lex, [y], []);
    assert [x] + ['\n', y] == s && s[1..] == ['\n', y] && [y] + [] == [y];
    assert s[1..][1..] == [y] && [y][1..] == [];
    assert s[..1] == [x] && [y][..1] == [y];
    assert Pieces(lex, [y], Normal) == [Run([y])] + Pieces(lex, [], Normal);
    assert Pieces(lex, ['\n', y], Normal) == [Other('\n')] + Pieces(lex, [y], Normal);
  }

  lemma TwoLinesFacts(v: string, w: string)
    requires Candidate(v) && Candidate(w)
    ensures var ps := [Run(v), Other('\n'), Run(w)];
      && Words(ps, 0) == [Found(v, 0), Found(w, |v| + 1)] && Originals(ps) == [v, w]
      && LinePieces(ps) == 2 && Originals(ps[..2]) == [v]
  {
    var ps := [Run(v), Other('\n'), Run(w)];
    assert ps[1..] == [Other('\n'), Run(w)] && ps[1..][1..] == [Run(w)] && ps[1..][1..][1..] == [];
    assert Words(ps[1..][1..], |v| + 1) == [Found(w, |v| + 1)] && Originals(ps[1..][1..]) == [w];
    assert ps[..2][1..] == [Other('\n')] && ps[..2][1..][1..] == [];
  }

  lemma TwoLinesRespelled(lex: Lexicon, spellings: map<string, string>, v: string, w: string, v': string, w': string)
    requires SpellingOk(lex, v') && SpellingOk(lex, w') && v' in spellings && w' in spellings
    requires spellings[v'] == v && spellings[w'] == w && Candidate(v) && Candidate(w)
    ensures Respelled(lex, spellings, [Run(v), Other('\n'), Run(w)], [Run(v'), Other('\n'), Run(w')])
  {
  }

  lemma MovedWords()
    ensures WordsFrom(Capitals(), "A\nC", 0) == [Found("A", 0), Found("C", 2)]
    ensures Originals(Pieces(Capitals(), "A\nB", Normal)) == ["A", "B"] && FirstLineWords(Capitals(), "A\nC") == 1
    ensures Respelled(Capitals(), Moved().spellings, Pieces(Capitals(), "A\nB", Normal), Pieces(Capitals(), "A\nC", Normal))
  {
    TwoLinesRespelled(Capitals(), Moved().spellings, "A", "B", "A", "C");
    TwoLines(Capitals(), 'A', 'C');
    TwoLines(Capitals(), 'A', 'B');
    TwoLinesFacts("A", "C");
    TwoLinesFacts("A", "B");
    assert "A\nC"[0..] == "A\nC";
  }

  /** The offsets of a text of three ASCII characters. */
  lemma ThreeOffsets(text: string)
    requires |text| == 3 && Ascii(text[0]) && Ascii(text[1]) && Ascii(text[2])
    ensures IsOffsets(text, [0, 1, 2, 3])
  {
    assert text[..3][..2] == text[..2] && text[..2][..1] == text[..1] && text[..1][..0] == text[..0];
    assert ByteLength(text[..1]) == 1 && ByteLength(text[..2]) == 2;
  }

  /**
   * For instance, where A is spelled as itself and B is spelled C, the lines A and B are written A and C. The stage
   * detects the locale and answers with the words A and B, and yet the lines A and A are rebuilt.
   */
  lemma MovedWordIsLost(tag: string)
    ensures var request := Request(_ => None, map[tag := Moved()], None, true);
      Evaluates(Capitals(), request, "A\nC", Some(Localized(Auto, tag, "p", ["A", "B"])))
    ensures Rebuilt(Capitals(), "A\nC", [0, 1, 2, 3], ["A", "B"]).0 != "A\nB"
  {
    var request := Request(_ => None, map[tag := Moved()], None, true);
    MovedWords();
    ThreeOffsets("A\nC");
    MovedIsDetected(request, tag, [0, 1, 2, 3]);
    MovedIsEvaluated(request, tag, [0, 1, 2, 3]);
    MovedIsNotRebuilt(Capitals(), Moved().spellings, "A\nB", "A\nC", [0, 1, 2, 3]);
  }

  lemma {:induction false} MovedIsNotRebuilt(lex: Lexicon, spellings: map<string, string>, body: string, text: string,
                                             offsets: seq<nat>)
    requires lex.Valid() && |offsets| == |text| + 1
    requires Respelled(lex, spellings, Pieces(lex, body, Normal), Pieces(lex, text, Normal))
    requires Originals(Pieces(lex, body, Normal)) == ["A", "B"] && FirstLineWords(lex, text) == 1
    ensures Rebuilt(lex, text, offsets, ["A", "B"]).0 != body
  {
    FlattenPieces(lex, text, Normal);
    RebuiltExactly(lex, spellings, body, Pieces(lex, text, Normal), offsets);
    assert ["A", "B"][..1] == ["A"] && ["A", "B"][1..] == ["B"];
  }

  lemma MovedIsDetected(request: Request, tag: string, offsets: seq<nat>)
    requires request.profiles == map[tag := Moved()] && request.available && |offsets| == 4
    ensures Detects(Capitals(), [Found("A", 0), Found("C", 2)], offsets, request.profiles, true, Chosen(Auto, tag, Moved()))
  {
    var lex, found := Capitals(), [Found("A", 0), Found("C", 2)];
    assert found[1].word !in lex.reserved && found[1].word in request.profiles[tag].spellings;
    assert Matches(lex, found, request.profiles) == {tag};
    assert FirstForeign(lex, found) < 2;
  }

  lemma MovedIsEvaluated(request: Request, tag: string, offsets: seq<nat>)
    requires request.profiles == map[tag := Moved()] && request.available && request.pin.None?
    requires IsOffsets("A\nC", offsets) && WordsFrom(Capitals(), "A\nC", 0) == [Found("A", 0), Found("C", 2)]
    requires Detects(Capitals(), [Found("A", 0), Found("C", 2)], offsets, request.profiles, true, Chosen(Auto, tag, Moved()))
    ensures Evaluates(Capitals(), request, "A\nC", Some(Localized(Auto, tag, "p", ["A", "B"])))
  {
    MovedHasNoDirective('A', 'C');
    NoDirectiveNoTrouble(request.normalize, "A\nC", offsets);
    MovedIsMapped();
    ChosenIsEvaluated(Capitals(), request, "A\nC", [Found("A", 0), Found("C", 2)], offsets, Auto, tag, Moved());
  }

  lemma MovedHasNoDirective(x: char, y: char)
    requires x != '@' && y != '@'
    ensures !HasDirective([x, '\n', y], true)
  {
    var text := [x, '\n', y];
    assert text[1..] == ['\n', y] && text[1..][1..] == [y] && text[1..][1..][1..] == [];
    assert !StartsWith(text, LOCALE) && !StartsWith([y], LOCALE);
    assert !HasDirective([], false) && !HasDirective([y], true);
    assert !HasDirective(['\n', y], false);
  }

  lemma MovedIsMapped()
    ensures var found := [Found("A", 0), Found("C", 2)];
      Spelled(Moved(), found) && Mapped(Moved(), found) == ["A", "B"]
  {
  }
}

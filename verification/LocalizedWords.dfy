/** The words of a source, and what respelling them leaves as it was. */
module LocalizedWords {
  import opened Base
  import opened SourceMask

  /** Letters by script, the reserved words, and the table of look-alike characters. */
  datatype Lexicon = Lexicon(
    repertoire: char -> Option<string>,
    reserved: set<string>,
    lookalike: char -> char,
    canonicalSkeletons: map<string, string>)
  {
    /** The only ASCII letters of any script are the capitals. */
    ghost predicate Valid() {
      forall c: char | c as int < 0x80 :: repertoire(c).Some? ==> 'A' <= c <= 'Z'
    }
  }

  predicate Ascii(c: char) {
    c as int < 0x80
  }

  predicate IsWord(lex: Lexicon, c: char) {
    (Ascii(c) && ('A' <= c <= 'Z' || 'a' <= c <= 'z' || '0' <= c <= '9' || c == '_')) || lex.repertoire(c).Some?
  }

  predicate AllWord(lex: Lexicon, s: string) {
    forall i | 0 <= i < |s| :: IsWord(lex, s[i])
  }

  /** A run of word characters that is to be looked up: it starts in capitals and has no small ASCII letter. */
  predicate Candidate(s: string) {
    s != [] && (Ascii(s[0]) ==> 'A' <= s[0] <= 'Z') && forall i | 0 <= i < |s| :: !('a' <= s[i] <= 'z')
  }

  /** A source in pieces: runs of word characters outside strings, and every other character by itself. */
  datatype Piece = Run(run: string) | Other(c: char)

  function Text(p: Piece): string {
    match p
    case Run(run) => run
    case Other(c) => [c]
  }

  function Flatten(ps: seq<Piece>): string {
    if ps == [] then [] else Text(ps[0]) + Flatten(ps[1..])
  }

  predicate IsCandidate(p: Piece) {
    p.Run? && Candidate(p.run)
  }

  /** How many word characters `s` starts with. */
  function RunLength(lex: Lexicon, s: string): (n: nat)
    ensures n <= |s| && AllWord(lex, s[..n]) && (n < |s| ==> !IsWord(lex, s[n]))
  {
    if s == [] || !IsWord(lex, s[0]) then 0
    else
      var n := RunLength(lex, s[1..]);
      assert s[..1 + n] == [s[0]] + s[1..][..n];
      1 + n
  }

  function Pieces(lex: Lexicon, s: string, mode: Mode): seq<Piece> {
    if s == [] then []
    else if mode == Normal && IsWord(lex, s[0]) then
      var n := RunLength(lex, s);
      [Run(s[..n])] + Pieces(lex, s[n..], Normal)
    else [Other(s[0])] + Pieces(lex, s[1..], Step(s, mode))
  }

  lemma {:induction false} FlattenPieces(lex: Lexicon, s: string, mode: Mode)
    ensures Flatten(Pieces(lex, s, mode)) == s
  {
    if s != [] {
      if mode == Normal && IsWord(lex, s[0]) {
        var n := RunLength(lex, s);
        FlattenPieces(lex, s[n..], Normal);
        assert s == s[..n] + s[n..];
      } else {
        FlattenPieces(lex, s[1..], Step(s, mode));
      }
    }
  }

  // ------------------------------------------------------------------ respelling

  /** What one spelling may be: word characters that make a candidate. */
  ghost predicate SpellingOk(lex: Lexicon, s: string) {
    Candidate(s) && AllWord(lex, s)
  }

  ghost predicate Respells(lex: Lexicon, spellings: map<string, string>, a: Piece, b: Piece) {
    if IsCandidate(a) then
      b.Run? && SpellingOk(lex, b.run) && b.run in spellings && spellings[b.run] == a.run
    else b == a
  }

  /** `b` is `a` with every candidate replaced by one of its spellings. */
  ghost predicate Respelled(lex: Lexicon, spellings: map<string, string>, a: seq<Piece>, b: seq<Piece>) {
    |a| == |b| && forall i | 0 <= i < |a| :: Respells(lex, spellings, a[i], b[i])
  }

  /** Runs are as long as they can be, and have no quotes in them. */
  ghost predicate WellFormed(lex: Lexicon, ps: seq<Piece>) {
    && (forall i | 0 <= i < |ps| && ps[i].Run? :: ps[i].run != [] && AllWord(lex, ps[i].run))
    && forall i | 0 <= i < |ps| - 1 && ps[i].Run? :: ps[i + 1].Other? && !IsWord(lex, ps[i + 1].c)
  }

  lemma {:induction false} PiecesWellFormed(lex: Lexicon, s: string, mode: Mode)
    ensures WellFormed(lex, Pieces(lex, s, mode))
  {
    if s != [] {
      if mode == Normal && IsWord(lex, s[0]) {
        var n := RunLength(lex, s);
        PiecesWellFormed(lex, s[n..], Normal);
        var rest := Pieces(lex, s[n..], Normal);
        assert rest != [] ==> rest[0] == Other(s[n]);
      } else {
        PiecesWellFormed(lex, s[1..], Step(s, mode));
      }
    }
  }

  lemma WellFormedTail(lex: Lexicon, ps: seq<Piece>)
    requires WellFormed(lex, ps) && ps != []
    ensures WellFormed(lex, ps[1..])
  {
    var rest := ps[1..];
    forall i | 0 <= i < |rest| - 1 && rest[i].Run?
      ensures rest[i + 1].Other? && !IsWord(lex, rest[i + 1].c)
    {
      assert ps[i + 1].Run? && ps[i + 2] == rest[i + 1];
    }
  }

  /** How many quotes `s` starts with. */
  function Quotes(s: string): (n: nat)
    ensures n <= |s|
  {
    if s == [] || s[0] != '\"' then 0 else 1 + Quotes(s[1..])
  }

  lemma {:induction false} TripleIsQuotes(s: string)
    ensures Triple(s) <==> Quotes(s) >= 3
  {
    if s != [] && s[0] == '\"' && |s| > 1 && s[1] == '\"' {
      assert s[1..][1..] == s[2..];
      assert Quotes(s) == 2 + Quotes(s[2..]);
    }
  }

  lemma {:induction false} QuotesAlike(lex: Lexicon, spellings: map<string, string>, a: seq<Piece>, b: seq<Piece>)
    requires lex.Valid() && WellFormed(lex, a) && Respelled(lex, spellings, a, b)
    ensures Quotes(Flatten(a)) == Quotes(Flatten(b))
    decreases |a|
  {
    if a != [] {
      assert Respells(lex, spellings, a[0], b[0]);
      match a[0]
      case Run(run) =>
        assert IsWord(lex, run[0]) && IsWord(lex, b[0].run[0]);
        assert Flatten(a)[0] == run[0] && Flatten(b)[0] == b[0].run[0];
      case Other(c) =>
        WellFormedTail(lex, a);
        QuotesAlike(lex, spellings, a[1..], b[1..]);
        assert Flatten(a)[1..] == Flatten(a[1..]) && Flatten(b)[1..] == Flatten(b[1..]);
    }
  }

  lemma {:induction false} RunLengthOf(lex: Lexicon, run: string, rest: string)
    requires AllWord(lex, run) && (rest != [] ==> !IsWord(lex, rest[0]))
    ensures RunLength(lex, run + rest) == |run|
  {
    if run != [] {
      assert (run + rest)[1..] == run[1..] + rest;
      RunLengthOf(lex, run[1..], rest);
    } else {
      assert run + rest == rest;
    }
  }

  lemma StepAlike(s: string, t: string, mode: Mode)
    requires s != [] && t != [] && s[0] == t[0] && (Triple(s) <==> Triple(t))
    ensures Step(s, mode) == Step(t, mode)
  {
  }

  /** A respelled source falls into the respelled pieces: the runs and the strings are where they were. */
  lemma {:induction false} RespelledPieces(lex: Lexicon, spellings: map<string, string>, s: string, mode: Mode,
                                           a: seq<Piece>, b: seq<Piece>)
    requires lex.Valid() && a == Pieces(lex, s, mode) && Respelled(lex, spellings, a, b)
    ensures Pieces(lex, Flatten(b), mode) == b
    decreases |s|
  {
    if s != [] {
      assert Respells(lex, spellings, a[0], b[0]);
      PiecesWellFormed(lex, s, mode);
      if a[0].Run? {
        var n := RunLength(lex, s);
        RespelledPieces(lex, spellings, s[n..], Normal, a[1..], b[1..]);
        RunStays(lex, spellings, a, b);
      } else {
        RespelledPieces(lex, spellings, s[1..], Step(s, mode), a[1..], b[1..]);
        OtherStays(lex, spellings, s, mode, a, b);
      }
    }
  }

  /** A run is still one run in the respelled source, and the scan goes on as it did. */
  lemma {:induction false} RunStays(lex: Lexicon, spellings: map<string, string>, a: seq<Piece>, b: seq<Piece>)
    requires lex.Valid() && WellFormed(lex, a) && Respelled(lex, spellings, a, b) && a != [] && a[0].Run?
    requires Pieces(lex, Flatten(b[1..]), Normal) == b[1..]
    ensures Pieces(lex, Flatten(b), Normal) == b
  {
    assert Respells(lex, spellings, a[0], b[0]);
    RestStarts(lex, spellings, a, b);
    RunFirst(lex, b[0].run, Flatten(b[1..]));
  }

  /** A character that is no word's is its own piece in the respelled source, and the scan goes on as it did. */
  lemma {:induction false} OtherStays(lex: Lexicon, spellings: map<string, string>, s: string, mode: Mode,
                                      a: seq<Piece>, b: seq<Piece>)
    requires lex.Valid() && s != [] && a == Pieces(lex, s, mode) && WellFormed(lex, a) && Respelled(lex, spellings, a, b)
    requires a[0].Other? && Pieces(lex, Flatten(b[1..]), Step(s, mode)) == b[1..]
    ensures Pieces(lex, Flatten(b), mode) == b
  {
    var t := Flatten(b);
    assert Respells(lex, spellings, a[0], b[0]);
    FlattenPieces(lex, s, mode);
    QuotesAlike(lex, spellings, a, b);
    TripleIsQuotes(s);
    TripleIsQuotes(t);
    StepAlike(s, t, mode);
    assert t[1..] == Flatten(b[1..]);
    assert Pieces(lex, t, mode) == [Other(t[0])] + Pieces(lex, t[1..], Step(t, mode));
  }

  lemma {:induction false} RunFirst(lex: Lexicon, run: string, rest: string)
    requires run != [] && AllWord(lex, run) && (rest != [] ==> !IsWord(lex, rest[0]))
    ensures Pieces(lex, run + rest, Normal) == [Run(run)] + Pieces(lex, rest, Normal)
  {
    var t := run + rest;
    RunLengthOf(lex, run, rest);
    assert t[..|run|] == run && t[|run|..] == rest;
    assert t[0] == run[0] && IsWord(lex, t[0]);
  }

  /** After a run comes the end or a character that is not a word's, in the respelled source too. */
  lemma RestStarts(lex: Lexicon, spellings: map<string, string>, a: seq<Piece>, b: seq<Piece>)
    requires WellFormed(lex, a) && Respelled(lex, spellings, a, b) && a != [] && a[0].Run?
    ensures var rest := Flatten(b[1..]); rest != [] ==> !IsWord(lex, rest[0])
  {
    if |a| > 1 {
      assert a[1].Other? && !IsWord(lex, a[1].c);
      assert Respells(lex, spellings, a[1], b[1]);
      assert b[1..][0] == b[1];
    }
  }

  // ------------------------------------------------------------------ the words

  /** A candidate word and where it starts. */
  datatype Found = Found(word: string, start: nat)

  /** The candidates of pieces that start at `at`. */
  function Words(ps: seq<Piece>, at: nat): seq<Found> {
    if ps == [] then []
    else (if IsCandidate(ps[0]) then [Found(ps[0].run, at)] else []) + Words(ps[1..], at + |Text(ps[0])|)
  }

  function FoundAt(text: string, index: nat, end: nat): seq<Found>
    requires index <= end <= |text|
  {
    if Candidate(text[index..end]) then [Found(text[index..end], index)] else []
  }

  lemma Regroup(a: seq<Found>, b: seq<Found>, c: seq<Found>)
    ensures a + (b + c) == a + b + c
  {
  }

  lemma {:induction false} WordsAtRun(lex: Lexicon, text: string, index: nat, end: nat)
    requires index < end <= |text| && IsWord(lex, text[index]) && end == index + RunLength(lex, text[index..])
    ensures Words(Pieces(lex, text[index..], Normal), index)
         == FoundAt(text, index, end) + Words(Pieces(lex, text[end..], Normal), end)
  {
    var s := text[index..];
    assert s[..end - index] == text[index..end] && s[end - index..] == text[end..];
    var ps := Pieces(lex, s, Normal);
    assert ps == [Run(text[index..end])] + Pieces(lex, text[end..], Normal);
    assert ps[1..] == Pieces(lex, text[end..], Normal);
  }

  lemma {:induction false} OtherFirst(lex: Lexicon, text: string, at: nat, mode: Mode)
    requires at < |text| && !(mode == Normal && IsWord(lex, text[at]))
    ensures var ps := Pieces(lex, text[at..], mode);
      && ps != [] && ps[0] == Other(text[at]) && Text(ps[0]) == text[at..at + 1]
      && ps[1..] == Pieces(lex, text[at + 1..], Step(text[at..], mode))
  {
    var s := text[at..];
    assert s[1..] == text[at + 1..] && s[0] == text[at];
    assert Pieces(lex, s, mode) == [Other(s[0])] + Pieces(lex, s[1..], Step(s, mode));
    assert text[at..at + 1] == [text[at]];
  }

  lemma NoWordFirst(ps: seq<Piece>, at: nat)
    requires ps != [] && ps[0].Other?
    ensures Words(ps, at) == Words(ps[1..], at + 1)
  {
  }

  lemma {:induction false} WordsAtOther(lex: Lexicon, text: string, index: nat, mode: Mode)
    requires index < |text| && !(mode == Normal && IsWord(lex, text[index]))
    ensures Words(Pieces(lex, text[index..], mode), index)
         == Words(Pieces(lex, text[index + 1..], Step(text[index..], mode)), index + 1)
  {
    OtherFirst(lex, text, index, mode);
    NoWordFirst(Pieces(lex, text[index..], mode), index);
  }

  lemma {:induction false} WordHere(lex: Lexicon, text: string, mask: seq<bool>, index: nat, mode: Mode)
    requires lex.Valid() && index < |text| && ModeAt(text, index) == mode && IsMask(text, mask)
    ensures mask[index] && IsWord(lex, text[index]) <==> mode == Normal && IsWord(lex, text[index])
  {
  }

  /** The candidates of a text from a place on, which may be inside a string that an earlier line left open. */
  function WordsFrom(lex: Lexicon, text: string, skip: nat): seq<Found>
    requires skip <= |text|
  {
    Words(Pieces(lex, text[skip..], ModeAt(text, skip)), skip)
  }

  /** The candidate words found in `text` from `skip` on, where the mask says what is outside strings. */
  method FindWords(lex: Lexicon, text: string, mask: seq<bool>, skip: nat) returns (found: seq<Found>)
    requires skip <= |text| && IsMask(text, mask)
    requires lex.Valid()
    ensures found == WordsFrom(lex, text, skip)
  {
    found := [];
    var index := skip;
    ghost var mode := ModeAt(text, skip);
    ghost var all := WordsFrom(lex, text, skip);
    while index < |text|
      invariant skip <= index <= |text| && ModeAt(text, index) == mode
      invariant found + Words(Pieces(lex, text[index..], mode), index) == all
      decreases |text| - index
    {
      WordHere(lex, text, mask, index, mode);
      if mask[index] && IsWord(lex, text[index]) {
        var end, word := TakeRun(lex, text, mask, index);
        Regroup(found, word, Words(Pieces(lex, text[end..], Normal), end));
        found := found + word;
        mode, index := Normal, end;
      } else {
        WordsAtOther(lex, text, index, mode);
        mode, index := Step(text[index..], mode), index + 1;
      }
    }
  }

  /** The run at `index`, as far as the mask and the characters go, and the word it may be. */
  method TakeRun(lex: Lexicon, text: string, mask: seq<bool>, index: nat) returns (end: nat, word: seq<Found>)
    requires index < |text| && IsMask(text, mask)
    requires lex.Valid() && ModeAt(text, index) == Normal && IsWord(lex, text[index])
    ensures index < end <= |text| && ModeAt(text, end) == Normal
    ensures Words(Pieces(lex, text[index..], Normal), index) == word + Words(Pieces(lex, text[end..], Normal), end)
  {
    end := index;
    ghost var n := RunLength(lex, text[index..]);
    while end < |text| && mask[end] && IsWord(lex, text[end])
      invariant index <= end <= index + n <= |text| && ModeAt(text, end) == Normal
    {
      assert text[index..][end - index] == text[end];
      end := end + 1;
    }
    if end < |text| {
      WordHere(lex, text, mask, end, Normal);
      assert text[index..][end - index] == text[end];
    }
    word := FoundAt(text, index, end);
    WordsAtRun(lex, text, index, end);
  }
}

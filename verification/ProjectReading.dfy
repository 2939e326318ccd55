/** The first stages of one file together: localization, the canonical text, and its strings and brackets. */
module ProjectReading {
  import opened Base
  import opened SourceMask
  import opened SourceStrings
  import opened LocalizedWords
  import opened LocalizedSource
  import opened Localization
  import opened LocalizationRoundTrip
  import opened LocalizationRun
  import opened ProjectDiagnostics
  import opened ProjectUnits
  import opened ProjectLexical

  /** The blocks and references in a text whose characters have these places. */
  type LineReader = (string, seq<nat>) -> (seq<Block>, seq<Reference>)

  function ErrorOf(fault: Fault): string {
    match fault
    case EncodingInvalid => "error.encoding.invalid"
    case DirectiveInvalid => "error.localization.directive_invalid"
    case LocaleInvalid => "error.localization.locale_invalid"
    case ProfileDrift => "error.localization.profile_drift"
    case ProfileUnavailable => "error.localization.profile_unavailable"
    case DetectionAmbiguous => "error.localization.detection_ambiguous"
    case DetectionFailed => "error.localization.detection_failed"
    case MixedWords => "error.localization.mixed"
    case ConfusableWord => "error.localization.confusable"
    case UnknownWord => "error.keyword.unknown"
  }

  function StageOf(fault: Fault): string {
    if fault == EncodingInvalid || fault == UnknownWord then "lexical" else "localization"
  }

  // ------------------------------------------------------------------ strings and brackets

  function Mask(text: string): (mask: seq<bool>)
    ensures IsMask(text, mask)
  {
    seq(|text|, i requires 0 <= i < |text| => Outside(text, i))
  }

  lemma {:induction false} ScannedInside(s: seq<Bracket>, n: nat)
    requires forall i | 0 <= i < |s| :: s[i].at < n
    ensures match Scanned(s)
      case Mismatch(at) => at < n
      case Open(stack) => forall i | 0 <= i < |stack| :: stack[i].at < n
  {
    if s != [] {
      var init, b := s[..|s| - 1], s[|s| - 1];
      ScannedInside(init, n);
      assert b.at < n && Scanned(s) == Push(Scanned(init), b);
      if Scanned(init).Open? {
        var stack := Scanned(init).stack;
        assert forall i | 0 <= i < |stack| :: stack[i].at < n;
      }
    }
  }

  function LexicalOf(text: string): (v: Lexical)
    ensures (v.Mismatched? || v.Unclosed?) ==> v.at < |text|
  {
    var s := Brackets(text, Mask(text), |text|);
    BracketsIncrease(text, Mask(text), |text|);
    assert forall i | 0 <= i < |s| :: s[i].at < |text|;
    ScannedInside(s, |text|);
    assert Scanned(s).Open? && Scanned(s).stack != [] ==> Scanned(s).stack[0].at < |text|;
    Verdict(ModeAt(text, |text|) != Normal, Scanned(s))
  }

  /** What is read of a canonical text, each of whose characters has a place in the file. */
  function Lexed(text: string, where: seq<nat>, size: nat, lines: LineReader): Reading
    requires |where| == |text| + 1
  {
    match LexicalOf(text)
    case UnclosedString => Unreadable("error.literal.unclosed", "lexical", size)
    case Mismatched(at) => Unreadable("error.delimiter.mismatch", "lexical", where[at])
    case Unclosed(at) => Unreadable("error.delimiter.unclosed", "lexical", where[at])
    case Clean => Readable(lines(text, where).0, lines(text, where).1, size)
  }

  /**
   * A text is read exactly when every string in it ends and its brackets are balanced. Otherwise an open string is
   * reported at the end of the file, then the first bracket that breaks what was read, then the outermost open one.
   */
  lemma {:induction false} LexedExactly(text: string, where: seq<nat>, size: nat, lines: LineReader)
    requires |where| == |text| + 1
    ensures var r, s := Lexed(text, where, size, lines), Brackets(text, Mask(text), |text|);
      if !AllClosed(text, 0) then r == Unreadable("error.literal.unclosed", "lexical", size)
      else if Balanced(s) then r == Readable(lines(text, where).0, lines(text, where).1, size)
      else if Completable(s) then
        exists i :: StaysOpen(s, i) && s[i].at <= |text| && r == Unreadable("error.delimiter.unclosed", "lexical", where[s[i].at])
      else exists i :: Breaks(s, i) && s[i].at <= |text| && r == Unreadable("error.delimiter.mismatch", "lexical", where[s[i].at])
  {
    UnclosedIsExact(text, 0);
    VerdictIsExact(text, Mask(text), ModeAt(text, |text|) != Normal);
    BracketsIncrease(text, Mask(text), |text|);
  }

  function LexedPair(canonical: (string, seq<nat>), size: nat, lines: LineReader): Reading
    requires |canonical.1| == |canonical.0| + 1
  {
    Lexed(canonical.0, canonical.1, size, lines)
  }

  method LexAndRead(text: string, where: seq<nat>, size: nat, lines: LineReader) returns (reading: Reading)
    requires |where| == |text| + 1
    ensures reading == Lexed(text, where, size, lines)
  {
    var mask, unclosed := OutsideStringMask(text);
    assert mask[..] == Mask(text);
    var verdict := CheckDelimiters(text, mask[..], unclosed);
    assert verdict == LexicalOf(text);
    match verdict
    case UnclosedString => reading := Unreadable("error.literal.unclosed", "lexical", size);
    case Mismatched(at) => reading := Unreadable("error.delimiter.mismatch", "lexical", where[at]);
    case Unclosed(at) => reading := Unreadable("error.delimiter.unclosed", "lexical", where[at]);
    case Clean => reading := Readable(lines(text, where).0, lines(text, where).1, size);
  }

  // ------------------------------------------------------------------ one file

  lemma RebuiltHasPlaces(lex: Lexicon, text: string, offsets: seq<nat>, words: seq<string>)
    requires IsOffsets(text, offsets)
    ensures |Rebuilt(lex, text, offsets, words).1| == |Rebuilt(lex, text, offsets, words).0| + 1
  {
    var n := FirstLineLength(text);
    var found := WordsFrom(lex, text, n);
    WordsInside(lex, text, n);
    OrderedEarlier(found, 0, n, |text|);
    forall i, j | 0 <= i < j < |offsets|
      ensures offsets[i] <= offsets[j]
    {
      OffsetsIncrease(text, offsets, i, j);
    }
    SpliceOffsets(offsets, text, 0, found, words);
  }

  /** What a file comes to once localization has answered; `None` where the tool stops with an error of its own. */
  function ReadAs(lex: Lexicon, text: string, offsets: seq<nat>, lines: LineReader,
                  answer: Option<Evaluation>): Option<Reading>
    requires IsOffsets(text, offsets)
  {
    match answer
    case None => None
    case Some(Rejected(fault, offset)) => Some(Unreadable(ErrorOf(fault), StageOf(fault), offset))
    case Some(Canonical(_)) => Some(Lexed(text, offsets, offsets[|text|], lines))
    case Some(Localized(_, _, _, words)) =>
      if LineEnd(text, 0) == |text| then None
      else
        RebuiltHasPlaces(lex, text, offsets, words);
        Some(LexedPair(Rebuilt(lex, text, offsets, words), offsets[|text|], lines))
  }

  ghost predicate Reads(lex: Lexicon, request: Request, lines: LineReader, source: Source, reading: Option<Reading>) {
    match source
    case NotUtf8(offset) => reading == Some(Unreadable(ErrorOf(EncodingInvalid), StageOf(EncodingInvalid), offset))
    case Decoded(text) =>
      exists offsets, answer :: IsOffsets(text, offsets) && EvaluatesAt(lex, request, text, offsets, answer)
        && reading == ReadAs(lex, text, offsets, lines, answer)
  }

  lemma {:induction false} OffsetsAreUnique(text: string, a: seq<nat>, b: seq<nat>)
    requires IsOffsets(text, a) && IsOffsets(text, b)
    ensures a == b
  {
  }

  /** Evaluate, put the canonical words back, and read what comes of it. */
  method ReadFile(lex: Lexicon, request: Request, lines: LineReader, source: Source) returns (reading: Option<Reading>)
    requires lex.Valid()
    ensures Reads(lex, request, lines, source, reading)
  {
    var answer := EvaluateSource(lex, request, source);
    if source.NotUtf8? {
      return Some(Unreadable(ErrorOf(EncodingInvalid), StageOf(EncodingInvalid), source.offset));
    }
    var text := source.text;
    var offsets := ByteOffsets(text);
    assert EvaluatesAt(lex, request, text, offsets, answer) by {
      var at :| IsOffsets(text, at) && EvaluatesAt(lex, request, text, at, answer);
      OffsetsAreUnique(text, at, offsets);
    }
    if answer.None? {
      return None;
    }
    if answer.value.Rejected? {
      return Some(Unreadable(ErrorOf(answer.value.error), StageOf(answer.value.error), answer.value.offset));
    }
    var canonical := Canonicalize(lex, text, offsets, answer.value);
    if canonical.None? {
      return None;
    }
    if answer.value.Localized? {
      RebuiltHasPlaces(lex, text, offsets, answer.value.words);
    }
    var r := LexAndRead(canonical.value.0, canonical.value.1, offsets[|text|], lines);
    reading := Some(r);
  }

  lemma EarlyStages()
    ensures "localization" in STAGES && "lexical" in STAGES
  {
    assert STAGES[0] == "localization" && STAGES[1] == "lexical";
  }

  predicate Early(stage: string) {
    stage == "localization" || stage == "lexical"
  }

  lemma ReadAsIsEarly(lex: Lexicon, text: string, offsets: seq<nat>, lines: LineReader, answer: Option<Evaluation>)
    requires IsOffsets(text, offsets)
    ensures var r := ReadAs(lex, text, offsets, lines, answer);
      r.Some? && r.value.Unreadable? ==> Early(r.value.stage)
  {
  }

  /** Every error of these stages has a registered stage. */
  lemma ReadingIsStaged(lex: Lexicon, request: Request, lines: LineReader, source: Source, reading: Option<Reading>)
    requires Reads(lex, request, lines, source, reading) && reading.Some? && reading.value.Unreadable?
    ensures reading.value.stage in STAGES
  {
    EarlyStages();
    if source.Decoded? {
      var offsets, answer :| IsOffsets(source.text, offsets) && EvaluatesAt(lex, request, source.text, offsets, answer)
                             && reading == ReadAs(lex, source.text, offsets, lines, answer);
      ReadAsIsEarly(lex, source.text, offsets, lines, answer);
    }
    assert Early(reading.value.stage);
  }

  /** With one possible answer there is one possible reading. */
  lemma ReadsOne(lex: Lexicon, request: Request, lines: LineReader, text: string, offsets: seq<nat>,
                 answer: Option<Evaluation>,
                 reading: Option<Reading>)
    requires IsOffsets(text, offsets) && forall x :: Evaluates(lex, request, text, x) <==> x == answer
    ensures Reads(lex, request, lines, Decoded(text), reading) <==> reading == ReadAs(lex, text, offsets, lines, answer)
  {
    assert Evaluates(lex, request, text, answer);
    var at :| IsOffsets(text, at) && EvaluatesAt(lex, request, text, at, answer);
    OffsetsAreUnique(text, at, offsets);
    if Reads(lex, request, lines, Decoded(text), reading) {
      var where, other :| IsOffsets(text, where) && EvaluatesAt(lex, request, text, where, other)
                          && reading == ReadAs(lex, text, where, lines, other);
      OffsetsAreUnique(text, where, offsets);
      assert Evaluates(lex, request, text, other);
    }
  }

  lemma {:induction false} SizeIs(text: string, offsets: seq<nat>)
    requires IsOffsets(text, offsets)
    ensures offsets[|text|] == ByteLength(text)
  {
    assert text[..|text|] == text;
  }

  lemma {:induction false} LocalizedReads(lex: Lexicon, text: string, offsets: seq<nat>, lines: LineReader,
                                          how: Method, tag: string, id: string, words: seq<string>)
    requires IsOffsets(text, offsets) && LineEnd(text, 0) < |text|
    ensures |Rebuilt(lex, text, offsets, words).1| == |Rebuilt(lex, text, offsets, words).0| + 1
    ensures ReadAs(lex, text, offsets, lines, Some(Localized(how, tag, id, words)))
         == Some(LexedPair(Rebuilt(lex, text, offsets, words), offsets[|text|], lines))
  {
    RebuiltHasPlaces(lex, text, offsets, words);
  }

  /**
   * A file respelled under an explicit directive is read as the original text under that directive would be, whatever
   * reads its lines; only the places are those of the respelled file.
   */
  lemma {:induction false} RespelledReads(lex: Lexicon, request: Request, lines: LineReader, head: string,
                                          tag: string, body: string, b: seq<Piece>, offsets: seq<nat>,
                                          reading: Option<Reading>)
    requires lex.Valid() && QuoteFree(request.normalize) && Opens(request, tag)
    requires '\n' !in head && '\"' !in head && ReadFirstLine(request.normalize, head) == Directive(tag) && !HasDirective(body, true)
    requires Respelled(lex, request.profiles[tag].spellings, Pieces(lex, body, Normal), b)
    requires IsOffsets(Under(head, Flatten(b)), offsets)
    ensures var where := Rebuilt(lex, Under(head, Flatten(b)), offsets, Originals(Pieces(lex, body, Normal))).1;
      && |where| == |Under(head, body)| + 1
      && (Reads(lex, request, lines, Decoded(Under(head, Flatten(b))), reading) <==>
          reading == Some(Lexed(Under(head, body), where, ByteLength(Under(head, Flatten(b))), lines)))
  {
    var text, words := Under(head, Flatten(b)), Originals(Pieces(lex, body, Normal));
    var id := request.profiles[tag].identity;
    RespelledRebuilds(lex, request.profiles[tag].spellings, head, body, b, offsets);
    UnderFacts(head, Flatten(b));
    forall answer
      ensures Evaluates(lex, request, text, answer) <==> answer == Some(Localized(Explicit, tag, id, words))
    {
      RespelledEvaluates(lex, request, head, tag, body, b, answer);
    }
    SizeIs(text, offsets);
    LocalizedReads(lex, text, offsets, lines, Explicit, tag, id, words);
    ReadsOne(lex, request, lines, text, offsets, Some(Localized(Explicit, tag, id, words)), reading);
  }
}

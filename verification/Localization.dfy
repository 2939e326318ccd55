/** The localization stage of one source: its directive, its locale, its words, and its canonical text. */
module Localization {
  import opened Base
  import opened SourceMask
  import opened LocalizedWords
  import opened LocalizedSource

  // ------------------------------------------------------------------ the directive

  function TroubleAt(line: string, offset: nat): seq<Trouble> {
    if StartsWith(line, LOCALE) then [Trouble(DirectiveInvalid, offset)] else []
  }

  /** `before`, and then the directives on lines from `start` on, which are all misplaced. */
  function LaterTrouble(text: string, offsets: seq<nat>, start: nat, before: seq<Trouble>): seq<Trouble>
    requires start <= |text| < |offsets|
    decreases |text| - start
  {
    var end := LineEnd(text, start);
    var next := before + TroubleAt(text[start..end], offsets[start]);
    if end == |text| then next else LaterTrouble(text, offsets, end + 1, next)
  }

  lemma TroubleShows(before: seq<Trouble>, line: string, offset: nat)
    ensures before + TroubleAt(line, offset) == [] <==> before == [] && !StartsWith(line, LOCALE)
  {
  }

  /** There is trouble exactly when there was before or some line starts like a directive. */
  lemma {:induction false} LaterTroubleShows(text: string, offsets: seq<nat>, start: nat, before: seq<Trouble>)
    requires start <= |text| < |offsets|
    ensures LaterTrouble(text, offsets, start, before) == [] <==> before == [] && !HasDirective(text[start..], true)
    decreases |text| - start
  {
    var end := LineEnd(text, start);
    var next := before + TroubleAt(text[start..end], offsets[start]);
    TroubleShows(before, text[start..end], offsets[start]);
    LineStarts(text, start);
    if end == |text| {
      assert LaterTrouble(text, offsets, start, before) == next;
    } else {
      LaterTroubleShows(text, offsets, end + 1, next);
    }
  }

  /** A directive starts this line or a later one. */
  lemma LineStarts(text: string, start: nat)
    requires start <= |text|
    ensures var end := LineEnd(text, start);
      HasDirective(text[start..], true) <==>
      StartsWith(text[start..end], LOCALE) || (end < |text| && HasDirective(text[end + 1..], true))
  {
    var end := LineEnd(text, start);
    var s := text[start..];
    if start < |text| {
      SkipLine(text, start, end);
      if StartsWith(s, LOCALE) {
        assert forall i | 0 <= i < 7 :: text[start + i] == s[..7][i] == LOCALE[i];
        assert end >= start + 7;
        assert text[start..end][..7] == s[..7];
      }
      if StartsWith(text[start..end], LOCALE) {
        assert text[start..end][..7] == s[..7];
      }
      assert HasDirective(s, true) <==> StartsWith(s, LOCALE) || HasDirective(s, false);
    }
  }

  lemma {:induction false} SkipLine(text: string, start: nat, end: nat)
    requires start <= |text| && end == LineEnd(text, start)
    ensures HasDirective(text[start..], false) <==> end < |text| && HasDirective(text[end + 1..], true)
    decreases |text| - start
  {
    if start < |text| {
      assert text[start..][1..] == text[start + 1..];
      if text[start] != '\n' {
        SkipLine(text, start + 1, end);
      }
    }
  }

  function FirstTrouble(first: FirstLine, offsets: seq<nat>): seq<Trouble>
    requires |offsets| > 0 && (first.BadTag? ==> |offsets| > 8)
  {
    match first
    case BadDirective => [Trouble(DirectiveInvalid, offsets[0])]
    case BadTag => [Trouble(LocaleInvalid, offsets[8])]
    case _ => []
  }

  function TroubleOf(normalize: string -> Option<string>, text: string, offsets: seq<nat>): seq<Trouble>
    requires |offsets| == |text| + 1
  {
    var end := LineEnd(text, 0);
    var first := FirstTrouble(ReadFirstLine(normalize, text[..end]), offsets);
    if end == |text| then first else LaterTrouble(text, offsets, end + 1, first)
  }

  /** The first line's directive, and everything wrong with it or any other. */
  method FindDirective(normalize: string -> Option<string>, text: string, offsets: seq<nat>)
    returns (first: FirstLine, problems: seq<Trouble>)
    requires |offsets| == |text| + 1
    ensures first == ReadFirstLine(normalize, text[..LineEnd(text, 0)])
    ensures problems == TroubleOf(normalize, text, offsets)
  {
    var end := LineEnd(text, 0);
    first := ReadFirstLine(normalize, text[..end]);
    problems := FirstTrouble(first, offsets);
    if end < |text| {
      problems := FindLater(text, offsets, end + 1, problems);
    }
  }

  /** Every later line that starts like a directive is trouble. */
  method FindLater(text: string, offsets: seq<nat>, start: nat, before: seq<Trouble>) returns (problems: seq<Trouble>)
    requires start <= |text| < |offsets|
    ensures problems == LaterTrouble(text, offsets, start, before)
  {
    var end;
    end, problems := FindHere(text, offsets, start, before);
    while end < |text|
      invariant end <= |text|
      invariant LaterTrouble(text, offsets, start, before)
             == if end == |text| then problems else LaterTrouble(text, offsets, end + 1, problems)
      decreases |text| - end
    {
      end, problems := FindHere(text, offsets, end + 1, problems);
    }
  }

  /** One line, up to its line feed or the end of the text. */
  method FindHere(text: string, offsets: seq<nat>, start: nat, before: seq<Trouble>)
    returns (end: nat, problems: seq<Trouble>)
    requires start <= |text| < |offsets|
    ensures start <= end <= |text|
    ensures LaterTrouble(text, offsets, start, before)
         == if end == |text| then problems else LaterTrouble(text, offsets, end + 1, problems)
  {
    end := LineEnd(text, start);
    problems := before + TroubleAt(text[start..end], offsets[start]);
  }

  // ------------------------------------------------------------------ choosing a locale

  datatype Selection = Refused(error: Fault, offset: nat) | NotNeeded | Chosen(how: Method, locale: string, profile: Profile)

  function OpenPin(profiles: map<string, Profile>, pin: Pin, available: bool): Selection {
    if !available || pin.locale !in profiles then Refused(ProfileUnavailable, 0)
    else if pin.identity != profiles[pin.locale].identity then Refused(ProfileDrift, 0)
    else Chosen(Pinned, pin.locale, profiles[pin.locale])
  }

  function OpenExplicit(profiles: map<string, Profile>, tag: string, pin: Option<Pin>, available: bool): Selection {
    if pin.Some? && pin.value.locale != tag then Refused(ProfileDrift, 0)
    else if !available || tag !in profiles then Refused(ProfileUnavailable, 0)
    else if pin.Some? && pin.value.identity != profiles[tag].identity then Refused(ProfileDrift, 0)
    else Chosen(Explicit, tag, profiles[tag])
  }

  /** The locales that spell one of the words found that is not reserved. */
  function Matches(lex: Lexicon, found: seq<Found>, profiles: map<string, Profile>): set<string> {
    set locale | locale in profiles &&
      exists i :: 0 <= i < |found| && found[i].word !in lex.reserved && found[i].word in profiles[locale].spellings
  }

  predicate AllReserved(lex: Lexicon, found: seq<Found>) {
    forall i | 0 <= i < |found| :: found[i].word in lex.reserved
  }

  function FirstForeign(lex: Lexicon, found: seq<Found>): (i: nat)
    requires !AllReserved(lex, found)
    ensures i < |found| && found[i].word !in lex.reserved && AllReserved(lex, found[..i])
  {
    if found[0].word !in lex.reserved then 0
    else
      var i := FirstForeign(lex, found[1..]);
      assert found[..1 + i] == [found[0]] + found[1..][..i];
      1 + i
  }

  /** How a source without directive or pin gets its locale. */
  ghost predicate Detects(lex: Lexicon, found: seq<Found>, offsets: seq<nat>, profiles: map<string, Profile>,
                          available: bool,
                          s: Selection)
  {
    if AllReserved(lex, found) then s == NotNeeded
    else
      var i := FirstForeign(lex, found);
      found[i].start < |offsets| &&
      var at := offsets[found[i].start];
      var matches := Matches(lex, found, profiles);
      if !available then s == Refused(ProfileUnavailable, at)
      else if |matches| > 1 then s == Refused(DetectionAmbiguous, at)
      else if matches == {} then s == Refused(DetectionFailed, at)
      else s.Chosen? && s.how == Auto && matches == {s.locale} && s.profile == profiles[s.locale]
  }

  method Detect(lex: Lexicon, found: seq<Found>, offsets: seq<nat>, profiles: map<string, Profile>, available: bool)
    returns (s: Selection)
    requires StartsInside(found, |offsets|)
    ensures Detects(lex, found, offsets, profiles, available, s)
  {
    if AllReserved(lex, found) {
      return NotNeeded;
    }
    var at := offsets[found[FirstForeign(lex, found)].start];
    if !available {
      return Refused(ProfileUnavailable, at);
    }
    var matches := Matches(lex, found, profiles);
    if |matches| > 1 {
      return Refused(DetectionAmbiguous, at);
    }
    if matches == {} {
      return Refused(DetectionFailed, at);
    }
    var locale :| locale in matches;
    assert matches == {locale} by {
      assert |matches - {locale}| == |matches| - 1;
    }
    return Chosen(Auto, locale, profiles[locale]);
  }

  // ------------------------------------------------------------------ the stage

  datatype Request = Request(normalize: string -> Option<string>, profiles: map<string, Profile>, pin: Option<Pin>, available: bool)

  lemma {:induction false} WordsInside(lex: Lexicon, text: string, skip: nat)
    requires skip <= |text|
    ensures Ordered(WordsFrom(lex, text, skip), skip, |text|) && StartsInside(WordsFrom(lex, text, skip), |text| + 1)
  {
    FlattenPieces(lex, text[skip..], ModeAt(text, skip));
    WordsOrdered(Pieces(lex, text[skip..], ModeAt(text, skip)), skip);
    OrderedInside(WordsFrom(lex, text, skip), skip, |text|);
  }

  /** The answer once the locale is chosen. */
  ghost predicate Classified(lex: Lexicon, found: seq<Found>, offsets: seq<nat>, s: Selection, e: Evaluation) {
    match s
    case Refused(error, offset) => e == Rejected(error, offset)
    case NotNeeded => e == Canonical(seq(|found|, i requires 0 <= i < |found| => found[i].word))
    case Chosen(how, locale, profile) =>
      if Spelled(profile, found) then e == Localized(how, locale, profile.identity, Mapped(profile, found))
      else exists i: nat :: IsFirstError(lex, profile, found, i) && found[i].start < |offsets|
                       && e == Rejected(WordError(lex, profile, found[i].word), offsets[found[i].start])
  }

  /** The directive's trouble to report: the earliest. */
  predicate Earliest(problems: seq<Trouble>, t: Trouble) {
    t in problems && forall other | other in problems :: t.offset <= other.offset
  }

  /** The stage's answer for a text; `None` where it fails on a directive with no line after it. */
  ghost predicate Evaluates(lex: Lexicon, request: Request, text: string, answer: Option<Evaluation>) {
    exists offsets :: IsOffsets(text, offsets) && EvaluatesAt(lex, request, text, offsets, answer)
  }

  ghost predicate EvaluatesAt(lex: Lexicon, request: Request, text: string, offsets: seq<nat>, answer: Option<Evaluation>)
    requires |offsets| == |text| + 1
  {
    var n := LineEnd(text, 0);
    var first := ReadFirstLine(request.normalize, text[..n]);
    var problems := TroubleOf(request.normalize, text, offsets);
    if problems != [] then exists t :: Earliest(problems, t) && answer == Some(Rejected(t.error, t.offset))
    else if first.Directive? && n == |text| then answer == None
    else
      var skip := if first.Directive? then n + 1 else 0;
      var found := WordsFrom(lex, text, skip);
      answer.Some? && exists s :: Selects(lex, request, first, found, offsets, s) && Classified(lex, found, offsets, s, answer.value)
  }

  ghost predicate Selects(lex: Lexicon, request: Request, first: FirstLine, found: seq<Found>, offsets: seq<nat>,
                          s: Selection) {
    if first.Directive? then s == OpenExplicit(request.profiles, first.tag, request.pin, request.available)
    else if request.pin.Some? then s == OpenPin(request.profiles, request.pin.value, request.available)
    else Detects(lex, found, offsets, request.profiles, request.available, s)
  }

  // ------------------------------------------------------------------ the canonical text

  /** A well-formed tag has no quotes. */
  ghost predicate QuoteFree(normalize: string -> Option<string>) {
    forall tag :: normalize(tag).Some? ==> '\"' !in tag
  }

  /** The end of the first line and its line feed, or of the text. */
  function FirstLineLength(text: string): (n: nat)
    ensures n <= |text|
  {
    if LineEnd(text, 0) < |text| then LineEnd(text, 0) + 1 else |text|
  }

  lemma {:induction false} QuoteFreeIsNormal(text: string, n: nat)
    requires n <= |text| && '\"' !in text[..n]
    ensures ModeAt(text, n) == Normal
  {
    if n > 0 {
      assert text[..n - 1] == text[..n][..n - 1];
      QuoteFreeIsNormal(text, n - 1);
      assert text[n - 1] == text[..n][n - 1];
    }
  }

  lemma {:induction false} DirectiveHasNoQuotes(normalize: string -> Option<string>, text: string)
    requires QuoteFree(normalize) && ReadFirstLine(normalize, text[..LineEnd(text, 0)]).Directive?
    ensures '\"' !in text[..FirstLineLength(text)]
  {
    var line := text[..LineEnd(text, 0)];
    assert line == line[..7] + [line[7]] + line[8..];
    assert text[..FirstLineLength(text)] == line || text[..FirstLineLength(text)] == line + ['\n'];
  }

  /** The words after the first line, replaced in order; the line itself stays. */
  function Rebuilt(lex: Lexicon, text: string, offsets: seq<nat>, words: seq<string>): (string, seq<nat>)
    requires |offsets| == |text| + 1
  {
    var found := WordsFrom(lex, text, FirstLineLength(text));
    WordsInside(lex, text, FirstLineLength(text));
    OrderedEarlier(found, 0, FirstLineLength(text), |text|);
    OrderedInside(found, 0, |text|);
    (Splice(text, 0, found, words), Splice(offsets, 0, found, Repeats(offsets, found, words)))
  }
}

/** What the localization stage answers, one answer at a time and without its own intermediate results. */
module LocalizationAnswers {
  import opened Base
  import opened SourceMask
  import opened LocalizedWords
  import opened LocalizedSource
  import opened Localization

  // ------------------------------------------------------------------ words

  /** A character outside the strings that a word may have. */
  predicate InWord(lex: Lexicon, text: string, k: int) {
    && 0 <= k < |text| && Outside(text, k)
    && ('A' <= text[k] <= 'Z' || 'a' <= text[k] <= 'z' || '0' <= text[k] <= '9' || text[k] == '_' || lex.repertoire(text[k]).Some?)
  }

  /** A stretch of such characters that goes as far as it can, from `skip` on. */
  predicate WholeRun(lex: Lexicon, text: string, skip: nat, start: nat, end: int) {
    && skip <= start < end <= |text| && (forall k | start <= k < end :: InWord(lex, text, k))
    && (start == skip || !InWord(lex, text, start - 1)) && !InWord(lex, text, end)
  }

  /** It starts with a capital letter or beyond ASCII, and has no small ASCII letter. */
  predicate InCapitals(word: string) {
    && word != [] && ('A' <= word[0] <= 'Z' || word[0] as int >= 128)
    && forall c | c in word :: c < 'a' || c > 'z'
  }

  predicate WordEndsAt(lex: Lexicon, text: string, skip: nat, f: Found, end: int) {
    WholeRun(lex, text, skip, f.start, end) && f.word == text[f.start..end] && InCapitals(f.word)
  }

  /** The text has this word at this place. */
  ghost predicate HasWord(lex: Lexicon, text: string, skip: nat, f: Found) {
    exists end :: WordEndsAt(lex, text, skip, f, end)
  }

  lemma {:induction false} InWordIs(lex: Lexicon, text: string, k: nat)
    requires lex.Valid() && k < |text|
    ensures InWord(lex, text, k) <==> ModeAt(text, k) == Normal && IsWord(lex, text[k])
  {
  }

  lemma InCapitalsIs(word: string)
    ensures Candidate(word) <==> InCapitals(word)
  {
    if Candidate(word) {
      assert forall c | c in word :: exists i :: 0 <= i < |word| && word[i] == c;
    }
    if InCapitals(word) {
      assert forall i | 0 <= i < |word| :: word[i] in word;
    }
  }

  /** A run of word characters is outside the strings to its end. */
  lemma {:induction false} RunIsPlain(lex: Lexicon, text: string, index: nat, k: nat)
    requires lex.Valid() && index <= |text| && index <= k <= index + RunLength(lex, text[index..]) && ModeAt(text, index) == Normal
    ensures k <= |text| && ModeAt(text, k) == Normal
  {
    if k > index {
      RunIsPlain(lex, text, index, k - 1);
      assert text[index..][..RunLength(lex, text[index..])][k - 1 - index] == text[k - 1];
      assert IsWord(lex, text[k - 1]);
    }
  }

  lemma {:induction false} RunIsInWord(lex: Lexicon, text: string, index: nat, k: nat)
    requires lex.Valid() && index <= |text| && index <= k < index + RunLength(lex, text[index..]) && ModeAt(text, index) == Normal
    ensures InWord(lex, text, k)
  {
    RunIsPlain(lex, text, index, k);
    assert text[index..][..RunLength(lex, text[index..])][k - index] == text[k];
    InWordIs(lex, text, k);
  }

  lemma {:induction false} RunEnds(lex: Lexicon, text: string, index: nat)
    requires lex.Valid() && index < |text| && IsWord(lex, text[index])
    ensures var end := index + RunLength(lex, text[index..]); index < end <= |text| && !InWord(lex, text, end)
  {
    var s := text[index..];
    var n := RunLength(lex, s);
    assert n > 0;
    if n < |s| {
      assert text[index + n] == s[n];
      InWordIs(lex, text, index + n);
    }
  }

  lemma {:induction false} RunIsWhole(lex: Lexicon, text: string, skip: nat, index: nat, end: nat)
    requires lex.Valid() && skip <= index < |text| && ModeAt(text, index) == Normal && IsWord(lex, text[index])
    requires index == skip || !InWord(lex, text, index - 1)
    requires end == index + RunLength(lex, text[index..])
    ensures WholeRun(lex, text, skip, index, end)
  {
    RunEnds(lex, text, index);
    forall k | index <= k < end
      ensures InWord(lex, text, k)
    {
      RunIsInWord(lex, text, index, k);
    }
  }

  lemma InsideRun(lex: Lexicon, text: string, skip: nat, start: nat, end: int, k: int)
    ensures WholeRun(lex, text, skip, start, end) && start <= k < end ==> InWord(lex, text, k)
  {
  }

  lemma OneWholeRun(lex: Lexicon, text: string, skip: nat, start: nat, end: int, other: int)
    requires WholeRun(lex, text, skip, start, end) && WholeRun(lex, text, skip, start, other)
    ensures end == other
  {
    InsideRun(lex, text, skip, start, end, other);
    InsideRun(lex, text, skip, start, other, end);
  }

  /** The word at the start of a run is all of the run, if that is in capitals. */
  lemma WordAtRun(lex: Lexicon, text: string, skip: nat, index: nat, end: nat, f: Found)
    requires WholeRun(lex, text, skip, index, end) && f.start == index
    ensures HasWord(lex, text, skip, f) <==> f in FoundAt(text, index, end)
  {
    InCapitalsIs(text[index..end]);
    if e :| WordEndsAt(lex, text, skip, f, e) {
      OneWholeRun(lex, text, skip, index, end, e);
    }
    if f in FoundAt(text, index, end) {
      assert WordEndsAt(lex, text, skip, f, end);
    }
  }

  lemma NoWordInside(lex: Lexicon, text: string, skip: nat, index: nat, end: nat, f: Found)
    requires WholeRun(lex, text, skip, index, end) && index < f.start < end
    ensures !HasWord(lex, text, skip, f)
  {
    InsideRun(lex, text, skip, index, end, f.start - 1);
  }

  /** The words from a place on are exactly those the text has from there on. */
  lemma {:induction false} WordsAre(lex: Lexicon, text: string, skip: nat, index: nat, f: Found)
    requires lex.Valid() && skip <= index <= |text|
    requires index == skip || !InWord(lex, text, index - 1) || !InWord(lex, text, index)
    ensures f in Words(Pieces(lex, text[index..], ModeAt(text, index)), index) <==> f.start >= index && HasWord(lex, text, skip, f)
    decreases |text| - index, 1
  {
    if index < |text| {
      InWordIs(lex, text, index);
      if InWord(lex, text, index) {
        WordsFromRun(lex, text, skip, index, index + RunLength(lex, text[index..]), f);
      } else {
        WordsAtOther(lex, text, index, ModeAt(text, index));
        WordsAre(lex, text, skip, index + 1, f);
        NoWordHere(lex, text, skip, index, f);
      }
    } else if f.start >= index {
      NoWordHere(lex, text, skip, f.start, f);
    }
  }

  lemma {:induction false} WordsFromRun(lex: Lexicon, text: string, skip: nat, index: nat, end: nat, f: Found)
    requires lex.Valid() && skip <= index < |text| && ModeAt(text, index) == Normal && IsWord(lex, text[index])
    requires index == skip || !InWord(lex, text, index - 1)
    requires end == index + RunLength(lex, text[index..])
    ensures f in Words(Pieces(lex, text[index..], Normal), index) <==> f.start >= index && HasWord(lex, text, skip, f)
    decreases |text| - index, 0
  {
    RunIsWhole(lex, text, skip, index, end);
    RunIsPlain(lex, text, index, end);
    WordsAtRun(lex, text, index, end);
    WordsAre(lex, text, skip, end, f);
    if f.start == index {
      WordAtRun(lex, text, skip, index, end, f);
    } else if index < f.start < end {
      NoWordInside(lex, text, skip, index, end, f);
    }
  }

  lemma NoWordHere(lex: Lexicon, text: string, skip: nat, index: nat, f: Found)
    requires !InWord(lex, text, index)
    ensures f.start == index ==> !HasWord(lex, text, skip, f)
  {
  }

  /** All the words of the text from `skip` on, in order. */
  ghost predicate AreWords(lex: Lexicon, text: string, skip: nat, found: seq<Found>) {
    Increasing(found) && forall f :: f in found <==> HasWord(lex, text, skip, f)
  }

  predicate Increasing(found: seq<Found>) {
    forall i, j | 0 <= i < j < |found| :: found[i].start < found[j].start
  }

  lemma {:induction false} OrderedIncreases(found: seq<Found>, cursor: nat, end: nat)
    requires Ordered(found, cursor, end) && forall f | f in found :: f.word != []
    ensures Increasing(found) && forall f | f in found :: cursor <= f.start
    decreases |found|
  {
    if found != [] {
      assert found[0] in found;
      OrderedIncreases(found[1..], found[0].start + |found[0].word|, end);
      assert forall j | 0 < j < |found| :: found[j] == found[1..][j - 1] && found[j] in found[1..];
    }
  }

  lemma HasFirst(a: seq<Found>)
    ensures a != [] ==> a[0] in a
  {
  }

  lemma {:induction false} SameWords(a: seq<Found>, b: seq<Found>)
    requires Increasing(a) && Increasing(b) && forall f :: f in a <==> f in b
    ensures a == b
    decreases |a|
  {
    HasFirst(a);
    HasFirst(b);
    if a != [] {
      assert a[0] == b[0];
      RestSame(a, b);
      RestSame(b, a);
      SameWords(a[1..], b[1..]);
    }
  }

  lemma RestSame(a: seq<Found>, b: seq<Found>)
    requires Increasing(a) && a != [] && b != [] && a[0] == b[0] && forall f | f in a :: f in b
    ensures Increasing(a[1..]) && forall f | f in a[1..] :: f in b[1..]
  {
    forall f | f in a[1..]
      ensures f in b[1..]
    {
      var i :| 0 <= i < |a| - 1 && a[1..][i] == f;
      assert a[i + 1] == f && f in a && f.start > a[0].start;
      assert b == [b[0]] + b[1..];
    }
  }

  /** The words the stage finds are exactly the words of the text. */
  lemma FoundAreWords(lex: Lexicon, text: string, skip: nat)
    requires lex.Valid() && skip <= |text|
    ensures AreWords(lex, text, skip, WordsFrom(lex, text, skip))
  {
    var found := WordsFrom(lex, text, skip);
    forall f
      ensures f in found <==> HasWord(lex, text, skip, f)
    {
      WordsAre(lex, text, skip, skip, f);
    }
    WordsInside(lex, text, skip);
    OrderedIncreases(found, skip, |text|);
  }

  lemma WordsAreFound(lex: Lexicon, text: string, skip: nat, found: seq<Found>)
    requires lex.Valid() && skip <= |text| && AreWords(lex, text, skip, found)
    ensures WordsFrom(lex, text, skip) == found
  {
    FoundAreWords(lex, text, skip);
    SameWords(WordsFrom(lex, text, skip), found);
  }

  // ------------------------------------------------------------------ directives

  predicate EndsFirstLine(text: string, n: int) {
    0 <= n <= |text| && '\n' !in text[..n] && (n < |text| ==> text[n] == '\n')
  }

  /** The line is a directive for this tag. */
  predicate Writes(line: string, tag: string) {
    line == "@locale " + tag && tag != [] && ' ' !in tag
  }

  /** A line that is not the first starts at `i`, and starts like a directive. */
  predicate LaterDirective(text: string, i: int) {
    0 < i <= |text| && text[i - 1] == '\n' && "@locale" <= text[i..]
  }

  /** What is wrong with the first line: it is not as a directive is, or its tag is not well-formed. */
  ghost predicate FirstTroubled(normalize: string -> Option<string>, line: string, t: Trouble) {
    || ("@locale" <= line && (forall tag :: !Writes(line, tag)) && t == Trouble(DirectiveInvalid, 0))
    || (exists tag :: Writes(line, tag) && normalize(tag).None? && t == Trouble(LocaleInvalid, 8))
  }

  predicate LaterTroubled(text: string, i: int, t: Trouble) {
    LaterDirective(text, i) && t == Trouble(DirectiveInvalid, ByteLength(text[..i]))
  }

  /** Something is wrong with the first line, or a later one starts like a directive. */
  ghost predicate Troubled(normalize: string -> Option<string>, text: string, n: int, t: Trouble)
    requires EndsFirstLine(text, n)
  {
    FirstTroubled(normalize, text[..n], t) || exists i :: LaterTroubled(text, i, t)
  }

  lemma {:induction false} FirstLineIs(text: string, n: int)
    requires EndsFirstLine(text, n)
    ensures LineEnd(text, 0) == n
  {
    NoneBefore(text, n, LineEnd(text, 0));
  }

  lemma NoneBefore(text: string, n: nat, k: nat)
    requires n <= |text| && '\n' !in text[..n]
    ensures k < n ==> text[k] != '\n'
  {
    if k < n {
      assert text[..n][k] == text[k];
    }
  }

  lemma OneTag(line: string, a: string, b: string)
    requires Writes(line, a) && Writes(line, b)
    ensures a == b
  {
    assert a == line[8..] && b == line[8..];
  }

  lemma StartsIs(s: string)
    ensures StartsWith(s, LOCALE) <==> "@locale" <= s
  {
  }

  lemma WritesIs(line: string)
    ensures StartsWith(line, LOCALE) && |line| > 8 && line[7] == ' ' && ' ' !in line[8..] ==> Writes(line, line[8..])
    ensures forall tag | Writes(line, tag) :: StartsWith(line, LOCALE) && |line| > 8 && line[7] == ' ' && line[8..] == tag
  {
    if StartsWith(line, LOCALE) && |line| > 8 && line[7] == ' ' {
      assert line == line[..7] + [line[7]] + line[8..];
      assert LOCALE + [' '] == "@locale ";
    }
    forall tag | Writes(line, tag)
      ensures StartsWith(line, LOCALE) && |line| > 8 && line[7] == ' ' && line[8..] == tag
    {
      assert line[..8] == "@locale ";
      assert "@locale "[..7] == LOCALE;
      assert line[..8][..7] == line[..7];
    }
  }

  lemma {:induction false} AsciiLength(s: string)
    requires forall i | 0 <= i < |s| :: Ascii(s[i])
    ensures ByteLength(s) == |s|
  {
    if s != [] {
      AsciiLength(s[..|s| - 1]);
    }
  }

  /** A tag starts at the ninth byte. */
  lemma TagOffset(text: string, n: int, tag: string)
    requires EndsFirstLine(text, n) && Writes(text[..n], tag)
    ensures n > 8 && ByteLength(text[..8]) == 8
  {
    assert text[..n][..8] == text[..8] == "@locale ";
    AsciiLength("@locale ");
  }

  lemma FirstTroubleIs(normalize: string -> Option<string>, text: string, offsets: seq<nat>, n: int, t: Trouble)
    requires IsOffsets(text, offsets) && EndsFirstLine(text, n)
    ensures t in FirstTrouble(ReadFirstLine(normalize, text[..n]), offsets) <==> FirstTroubled(normalize, text[..n], t)
  {
    var line := text[..n];
    StartsIs(line);
    WritesIs(line);
    assert offsets[0] == ByteLength(text[..0]) == 0;
    if Writes(line, line[if n > 8 then 8 else 0..]) {
      TagOffset(text, n, line[8..]);
    }
  }

  /** A line starts like a directive where the rest of the text does. */
  lemma {:induction false} LineStartIs(text: string, start: nat, end: nat)
    requires start <= |text| && end == LineEnd(text, start)
    ensures StartsWith(text[start..end], LOCALE) <==> "@locale" <= text[start..]
  {
    StartsIs(text[start..end]);
    if "@locale" <= text[start..] {
      assert forall i | 0 <= i < 7 :: text[start + i] == text[start..][..7][i] == LOCALE[i];
      assert end >= start + 7;
      assert text[start..end][..7] == text[start..][..7];
    }
    if "@locale" <= text[start..end] {
      assert text[start..end][..7] == text[start..][..7];
    }
  }

  /** A later directive starts at `start` or after it. */
  ghost predicate TroubledFrom(text: string, start: nat, t: Trouble) {
    exists i :: start <= i && LaterTroubled(text, i, t)
  }

  lemma {:induction false} NoneOnLine(text: string, start: nat, i: nat)
    requires start <= |text|
    ensures start < i <= LineEnd(text, start) ==> text[i - 1] != '\n'
  {
  }

  lemma {:induction false} TroubledNext(text: string, start: nat, end: nat, t: Trouble)
    requires 0 < start <= |text| && text[start - 1] == '\n' && end == LineEnd(text, start)
    ensures TroubledFrom(text, start, t) <==> LaterTroubled(text, start, t) || (end < |text| && TroubledFrom(text, end + 1, t))
  {
    if i :| start <= i && LaterTroubled(text, i, t) {
      NoneOnLine(text, start, i);
    }
  }

  lemma {:induction false} LaterTroubleIs(text: string, offsets: seq<nat>, start: nat, before: seq<Trouble>, t: Trouble)
    requires IsOffsets(text, offsets) && 0 < start <= |text| && text[start - 1] == '\n'
    ensures t in LaterTrouble(text, offsets, start, before) <==> t in before || TroubledFrom(text, start, t)
    decreases |text| - start
  {
    var end := LineEnd(text, start);
    var next := before + TroubleAt(text[start..end], offsets[start]);
    LineStartIs(text, start, end);
    TroubledNext(text, start, end, t);
    assert t in next <==> t in before || LaterTroubled(text, start, t);
    if end < |text| {
      LaterTroubleIs(text, offsets, end + 1, next, t);
    }
  }

  /** What the stage finds wrong with the directives is exactly what is wrong with them. */
  lemma TroubleIs(normalize: string -> Option<string>, text: string, offsets: seq<nat>, n: int, t: Trouble)
    requires IsOffsets(text, offsets) && EndsFirstLine(text, n)
    ensures t in TroubleOf(normalize, text, offsets) <==> Troubled(normalize, text, n, t)
  {
    FirstLineIs(text, n);
    FirstTroubleIs(normalize, text, offsets, n, t);
    var first := FirstTrouble(ReadFirstLine(normalize, text[..n]), offsets);
    if n < |text| {
      LaterTroubleIs(text, offsets, n + 1, first, t);
    }
    if i :| LaterTroubled(text, i, t) {
      NoneBefore(text, n, i - 1);
    }
  }

  // ------------------------------------------------------------------ words under a profile

  /** Two letters of the word are of different scripts. */
  predicate MixesScripts(lex: Lexicon, word: string) {
    exists i, j | 0 <= i < |word| && 0 <= j < |word| ::
      && !('0' <= word[i] <= '9') && word[i] != '_' && !('0' <= word[j] <= '9') && word[j] != '_'
      && lex.repertoire(word[i]) != lex.repertoire(word[j])
  }

  /** The word looks like one the profile spells. */
  predicate LooksSpelled(lex: Lexicon, profile: Profile, word: string) {
    exists s | s in profile.skeletons :: |s| == |word| && forall i | 0 <= i < |s| :: s[i] == lex.lookalike(word[i])
  }

  /** Why the profile does not let the word pass. */
  predicate Refuses(lex: Lexicon, profile: Profile, word: string, error: Fault) {
    && word !in profile.spellings
    && match error
       case MixedWords => word in lex.reserved
       case ConfusableWord => word !in lex.reserved && (MixesScripts(lex, word) || LooksSpelled(lex, profile, word))
       case UnknownWord => word !in lex.reserved && !MixesScripts(lex, word) && !LooksSpelled(lex, profile, word)
       case _ => false
  }

  /** A word that is not merely unknown. */
  predicate Mistaken(lex: Lexicon, profile: Profile, word: string) {
    Refuses(lex, profile, word, MixedWords) || Refuses(lex, profile, word, ConfusableWord)
  }

  /** The word to report: the first mistaken one, and the first unknown one where none is mistaken. */
  predicate ToReport(lex: Lexicon, profile: Profile, found: seq<Found>, i: int, error: Fault) {
    && 0 <= i < |found| && Refuses(lex, profile, found[i].word, error)
    && if error == UnknownWord then
         (forall f | f in found :: !Mistaken(lex, profile, f.word)) && forall k | 0 <= k < i :: found[k].word in profile.spellings
       else forall k | 0 <= k < i :: !Mistaken(lex, profile, found[k].word)
  }

  /** The words answered under a profile: each in its canonical form, or the error of the word to report. */
  ghost predicate WordsAnswered(lex: Lexicon, text: string, found: seq<Found>, how: Method, locale: string, profile: Profile,
                                e: Evaluation)
  {
    if forall f | f in found :: f.word in profile.spellings then
      && e.Localized? && e.how == how && e.locale == locale && e.identity == profile.identity && |e.words| == |found|
      && forall i | 0 <= i < |found| :: e.words[i] == profile.spellings[found[i].word]
    else
      e.Rejected? && exists i :: ToReport(lex, profile, found, i, e.error) && found[i].start <= |text|
                              && e.offset == ByteLength(text[..found[i].start])
  }

  lemma MixesIs(lex: Lexicon, word: string)
    ensures |Scripts(lex, word)| > 1 <==> MixesScripts(lex, word)
  {
    var scripts := Scripts(lex, word);
    if i, j :| 0 <= i < |word| && 0 <= j < |word| && !Continuation(word[i]) && !Continuation(word[j])
               && lex.repertoire(word[i]) != lex.repertoire(word[j]) {
      assert lex.repertoire(word[i]) in scripts && lex.repertoire(word[j]) in scripts;
      assert |scripts - {lex.repertoire(word[i])}| == |scripts| - 1;
    }
    if |scripts| > 1 {
      var a :| a in scripts;
      assert |scripts - {a}| == |scripts| - 1;
      var b :| b in scripts - {a};
    }
  }

  lemma LooksIs(lex: Lexicon, profile: Profile, word: string)
    ensures Skeleton(lex, word) in profile.skeletons <==> LooksSpelled(lex, profile, word)
  {
    if s :| s in profile.skeletons && |s| == |word| && forall i | 0 <= i < |s| :: s[i] == lex.lookalike(word[i]) {
      assert Skeleton(lex, word) == s;
    }
  }

  /** A word's error is why the profile refuses it. */
  lemma WordErrorIs(lex: Lexicon, profile: Profile, word: string)
    requires word !in profile.spellings
    ensures Refuses(lex, profile, word, WordError(lex, profile, word))
    ensures WordError(lex, profile, word) == UnknownWord <==> !Mistaken(lex, profile, word)
  {
    MixesIs(lex, word);
    LooksIs(lex, profile, word);
  }

  lemma FirstErrorIs(lex: Lexicon, profile: Profile, found: seq<Found>, i: nat)
    requires IsFirstError(lex, profile, found, i)
    ensures ToReport(lex, profile, found, i, WordError(lex, profile, found[i].word))
  {
    forall k | 0 <= k < |found| && found[k].word !in profile.spellings
      ensures WordError(lex, profile, found[k].word) == UnknownWord <==> !Mistaken(lex, profile, found[k].word)
    {
      WordErrorIs(lex, profile, found[k].word);
    }
    WordErrorIs(lex, profile, found[i].word);
  }

  lemma ChosenIsAnswered(lex: Lexicon, text: string, offsets: seq<nat>, found: seq<Found>, how: Method, locale: string,
                         profile: Profile, e: Evaluation)
    requires IsOffsets(text, offsets) && Classified(lex, found, offsets, Chosen(how, locale, profile), e)
    ensures WordsAnswered(lex, text, found, how, locale, profile, e)
  {
    assert forall i | 0 <= i < |found| :: found[i] in found;
    if !Spelled(profile, found) {
      var i: nat :| IsFirstError(lex, profile, found, i) && found[i].start < |offsets|
                    && e == Rejected(WordError(lex, profile, found[i].word), offsets[found[i].start]);
      FirstErrorIs(lex, profile, found, i);
    }
  }

  // ------------------------------------------------------------------ the answers

  /** No line starts like a directive. */
  ghost predicate NoDirectives(text: string) {
    !("@locale" <= text) && forall i :: !LaterDirective(text, i)
  }

  /** The first line is a directive whose tag has this normal form, and no other line starts like one. */
  ghost predicate Directs(normalize: string -> Option<string>, text: string, n: int, tag: string) {
    && EndsFirstLine(text, n) && (forall i :: !LaterDirective(text, i))
    && exists written :: Writes(text[..n], written) && normalize(written) == Some(tag)
  }

  lemma NoTrouble(normalize: string -> Option<string>, text: string, offsets: seq<nat>, n: int)
    requires IsOffsets(text, offsets) && EndsFirstLine(text, n)
    ensures TroubleOf(normalize, text, offsets) == [] <==> forall t :: !Troubled(normalize, text, n, t)
  {
    var problems := TroubleOf(normalize, text, offsets);
    forall t
      ensures t in problems <==> Troubled(normalize, text, n, t)
    {
      TroubleIs(normalize, text, offsets, n, t);
    }
    if problems != [] {
      assert problems[0] in problems;
    }
  }

  lemma {:induction false} NoDirectiveRead(normalize: string -> Option<string>, text: string, offsets: seq<nat>)
    requires IsOffsets(text, offsets) && NoDirectives(text)
    ensures TroubleOf(normalize, text, offsets) == [] && ReadFirstLine(normalize, text[..LineEnd(text, 0)]).NoDirective?
  {
    var n := LineEnd(text, 0);
    LineStartIs(text, 0, n);
    assert text[0..] == text && text[0..n] == text[..n];
    StartsIs(text[..n]);
    WritesIs(text[..n]);
    NoTrouble(normalize, text, offsets, n);
  }

  lemma {:induction false} DirectiveRead(normalize: string -> Option<string>, text: string, offsets: seq<nat>, n: int,
                                         tag: string)
    requires IsOffsets(text, offsets) && Directs(normalize, text, n, tag)
    ensures LineEnd(text, 0) == n
    ensures TroubleOf(normalize, text, offsets) == [] && ReadFirstLine(normalize, text[..n]) == Directive(tag)
  {
    var line := text[..n];
    var written :| Writes(line, written) && normalize(written) == Some(tag);
    FirstLineIs(text, n);
    WritesIs(line);
    forall other | Writes(line, other)
      ensures other == written
    {
      OneTag(line, other, written);
    }
    NoTrouble(normalize, text, offsets, n);
  }

  /** Something is wrong with the directives, or there are none, or the first line is the only one. */
  lemma DirectivesAre(normalize: string -> Option<string>, text: string, n: int)
    requires EndsFirstLine(text, n)
    ensures (exists t :: Troubled(normalize, text, n, t)) || NoDirectives(text) || exists tag :: Directs(normalize, text, n, tag)
  {
    if i :| LaterDirective(text, i) {
      assert LaterTroubled(text, i, Trouble(DirectiveInvalid, ByteLength(text[..i])));
      assert Troubled(normalize, text, n, Trouble(DirectiveInvalid, ByteLength(text[..i])));
    } else if "@locale" <= text {
      FirstLineIs(text, n);
      LineStartIs(text, 0, n);
      assert text[0..] == text && text[0..n] == text[..n];
      if tag :| Writes(text[..n], tag) {
        assert normalize(tag).None? ==> Troubled(normalize, text, n, Trouble(LocaleInvalid, 8));
        assert normalize(tag).Some? ==> Directs(normalize, text, n, normalize(tag).value);
      } else {
        assert Troubled(normalize, text, n, Trouble(DirectiveInvalid, 0));
      }
    }
  }

  /** Anything wrong with the directives is answered with whichever stands first. */
  lemma TroubleIsAnswered(lex: Lexicon, request: Request, text: string, n: int, answer: Option<Evaluation>)
    requires EndsFirstLine(text, n) && Evaluates(lex, request, text, answer)
    requires exists t :: Troubled(request.normalize, text, n, t)
    ensures answer.Some? && answer.value.Rejected?
    ensures Troubled(request.normalize, text, n, Trouble(answer.value.error, answer.value.offset))
    ensures forall t | Troubled(request.normalize, text, n, t) :: answer.value.offset <= t.offset
  {
    var offsets :| IsOffsets(text, offsets) && EvaluatesAt(lex, request, text, offsets, answer);
    var problems := TroubleOf(request.normalize, text, offsets);
    forall t
      ensures t in problems <==> Troubled(request.normalize, text, n, t)
    {
      TroubleIs(request.normalize, text, offsets, n, t);
    }
    var found :| Troubled(request.normalize, text, n, found);
    assert found in problems;
    var t :| Earliest(problems, t) && answer == Some(Rejected(t.error, t.offset));
  }

  /** The locale a directive names is taken if the pin agrees and its profile is there, as the pin knows it. */
  ghost predicate DirectedAnswer(lex: Lexicon, request: Request, text: string, tag: string, found: seq<Found>,
                                 e: Evaluation) {
    var pin, profiles := request.pin, request.profiles;
    if pin.Some? && pin.value.locale != tag then e == Rejected(ProfileDrift, 0)
    else if !request.available || tag !in profiles then e == Rejected(ProfileUnavailable, 0)
    else if pin.Some? && pin.value.identity != profiles[tag].identity then e == Rejected(ProfileDrift, 0)
    else WordsAnswered(lex, text, found, Explicit, tag, profiles[tag], e)
  }

  /** A source with a directive: no answer if there is nothing after its line. */
  lemma DirectedIsExact(lex: Lexicon, request: Request, text: string, n: int, tag: string, found: seq<Found>,
                        answer: Option<Evaluation>)
    requires lex.Valid() && Evaluates(lex, request, text, answer) && Directs(request.normalize, text, n, tag)
    requires n < |text| ==> AreWords(lex, text, n + 1, found)
    ensures answer.None? <==> n == |text|
    ensures answer.Some? ==> DirectedAnswer(lex, request, text, tag, found, answer.value)
  {
    var offsets :| IsOffsets(text, offsets) && EvaluatesAt(lex, request, text, offsets, answer);
    DirectiveRead(request.normalize, text, offsets, n, tag);
    if n < |text| {
      WordsAreFound(lex, text, n + 1, found);
      var s :| Selects(lex, request, Directive(tag), found, offsets, s) && Classified(lex, found, offsets, s, answer.value);
      if s.Chosen? {
        ChosenIsAnswered(lex, text, offsets, found, s.how, s.locale, s.profile, answer.value);
      }
    }
  }

  /**
   * A pinned source without directives is localized exactly when the pinned profile is there, has the pinned identity,
   * and spells every word; without the profile or with another identity that is what is answered.
   */
  lemma PinnedIsExact(lex: Lexicon, request: Request, text: string, found: seq<Found>, answer: Option<Evaluation>)
    requires lex.Valid() && Evaluates(lex, request, text, answer) && NoDirectives(text) && request.pin.Some?
    requires AreWords(lex, text, 0, found)
    ensures var pin, profiles := request.pin.value, request.profiles;
      var there := request.available && pin.locale in profiles;
      && answer.Some?
      && (answer.value == Rejected(ProfileUnavailable, 0) <==> !there)
      && (answer.value == Rejected(ProfileDrift, 0) <==> there && profiles[pin.locale].identity != pin.identity)
      && (answer.value.Localized? <==>
            there && profiles[pin.locale].identity == pin.identity && forall f | f in found :: f.word in profiles[pin.locale].spellings)
      && (there && profiles[pin.locale].identity == pin.identity ==>
            WordsAnswered(lex, text, found, Pinned, pin.locale, profiles[pin.locale], answer.value))
  {
    var offsets :| IsOffsets(text, offsets) && EvaluatesAt(lex, request, text, offsets, answer);
    NoDirectiveRead(request.normalize, text, offsets);
    WordsAreFound(lex, text, 0, found);
    var s :| Selects(lex, request, NoDirective, found, offsets, s) && Classified(lex, found, offsets, s, answer.value);
    if s.Chosen? {
      ChosenIsAnswered(lex, text, offsets, found, s.how, s.locale, s.profile, answer.value);
    }
  }

  /** The first word that is not reserved. */
  predicate FirstForeignWord(lex: Lexicon, found: seq<Found>, i: int) {
    0 <= i < |found| && found[i].word !in lex.reserved && forall k | 0 <= k < i :: found[k].word in lex.reserved
  }

  /** A profile that spells one of the words that are not reserved. */
  predicate Fits(lex: Lexicon, request: Request, found: seq<Found>, locale: string) {
    && locale in request.profiles
    && exists f | f in found :: f.word !in lex.reserved && f.word in request.profiles[locale].spellings
  }

  /** A source of reserved words is canonical; any other is of the one locale that fits it. */
  ghost predicate DetectedAnswer(lex: Lexicon, request: Request, text: string, found: seq<Found>, e: Evaluation) {
    if forall f | f in found :: f.word in lex.reserved then
      e.Canonical? && |e.words| == |found| && forall i | 0 <= i < |found| :: e.words[i] == found[i].word
    else exists i :: FirstForeignWord(lex, found, i) && found[i].start <= |text|
                     && ForeignAnswer(lex, request, text, found, ByteLength(text[..found[i].start]), e)
  }

  ghost predicate ForeignAnswer(lex: Lexicon, request: Request, text: string, found: seq<Found>, at: nat, e: Evaluation) {
    if !request.available then e == Rejected(ProfileUnavailable, at)
    else if exists a, b :: a != b && Fits(lex, request, found, a) && Fits(lex, request, found, b) then e == Rejected(DetectionAmbiguous, at)
    else if forall a :: !Fits(lex, request, found, a) then e == Rejected(DetectionFailed, at)
    else exists a :: Fits(lex, request, found, a) && WordsAnswered(lex, text, found, Auto, a, request.profiles[a], e)
  }

  lemma MatchesAre(lex: Lexicon, request: Request, found: seq<Found>)
    ensures forall a :: a in Matches(lex, found, request.profiles) <==> Fits(lex, request, found, a)
  {
    forall a
      ensures a in Matches(lex, found, request.profiles) <==> Fits(lex, request, found, a)
    {
      if Fits(lex, request, found, a) {
        var f :| f in found && f.word !in lex.reserved && f.word in request.profiles[a].spellings;
        var i :| 0 <= i < |found| && found[i] == f;
      }
    }
  }

  lemma SeveralIs(s: set<string>)
    ensures |s| > 1 <==> exists a, b :: a != b && a in s && b in s
  {
    if a, b :| a != b && a in s && b in s {
      assert |s - {a}| == |s| - 1 && b in s - {a};
    }
    if |s| > 1 {
      var a :| a in s;
      assert |s - {a}| == |s| - 1;
      var b :| b in s - {a};
    }
  }

  lemma {:induction false} DetectsIs(lex: Lexicon, request: Request, text: string, offsets: seq<nat>,
                                     found: seq<Found>, at: nat, s: Selection, e: Evaluation)
    requires IsOffsets(text, offsets) && Classified(lex, found, offsets, s, e) && !AllReserved(lex, found)
    requires Detects(lex, found, offsets, request.profiles, request.available, s)
    requires at == offsets[found[FirstForeign(lex, found)].start]
    ensures ForeignAnswer(lex, request, text, found, at, e)
  {
    var matches := Matches(lex, found, request.profiles);
    MatchesAre(lex, request, found);
    SeveralIs(matches);
    if s.Chosen? {
      ChosenIsAnswered(lex, text, offsets, found, s.how, s.locale, s.profile, e);
      assert s.locale in matches && Fits(lex, request, found, s.locale);
    }
  }

  /** A source with neither directive nor pin. */
  lemma DetectedIsExact(lex: Lexicon, request: Request, text: string, found: seq<Found>, answer: Option<Evaluation>)
    requires lex.Valid() && Evaluates(lex, request, text, answer) && NoDirectives(text) && request.pin.None?
    requires AreWords(lex, text, 0, found)
    ensures answer.Some? && DetectedAnswer(lex, request, text, found, answer.value)
  {
    var offsets :| IsOffsets(text, offsets) && EvaluatesAt(lex, request, text, offsets, answer);
    NoDirectiveRead(request.normalize, text, offsets);
    WordsAreFound(lex, text, 0, found);
    var s :| Selects(lex, request, NoDirective, found, offsets, s) && Classified(lex, found, offsets, s, answer.value);
    assert forall i | 0 <= i < |found| :: found[i] in found;
    if !AllReserved(lex, found) {
      var i := FirstForeign(lex, found);
      assert FirstForeignWord(lex, found, i) by {
        assert forall k | 0 <= k < i :: found[k] == found[..i][k];
      }
      DetectsIs(lex, request, text, offsets, found, offsets[found[i].start], s, answer.value);
    }
  }

  // ------------------------------------------------------------------ bytes

  /** How many values `n` bytes of UTF-8 can take: seven bits in one, and five and six for each further in more. */
  function Capacity(n: nat): nat {
    if n == 0 then 0 else if n == 1 then 128 else if n == 2 then 2048 else 32 * Capacity(n - 1)
  }

  /** A character takes as few bytes as it can. */
  lemma LengthIsLeast(c: char)
    ensures 1 <= Utf8Length(c) <= 4 && Capacity(Utf8Length(c) - 1) <= c as int < Capacity(Utf8Length(c))
  {
    assert Capacity(3) == 65536 && Capacity(4) == 2097152;
  }
}

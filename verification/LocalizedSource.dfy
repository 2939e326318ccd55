/** Locale selection for one source, and its text with the canonical words put back. */
module LocalizedSource {
  import opened Base
  import opened SourceMask
  import opened LocalizedWords

  // ------------------------------------------------------------------ byte offsets

  function Utf8Length(c: char): nat {
    var n := c as int;
    if n < 0x80 then 1 else if n < 0x800 then 2 else if n < 0x1_0000 then 3 else 4
  }

  function ByteLength(s: string): nat {
    if s == [] then 0 else ByteLength(s[..|s| - 1]) + Utf8Length(s[|s| - 1])
  }

  /** The offset of each character in the encoded text, and of its end. */
  predicate IsOffsets(text: string, offsets: seq<nat>) {
    |offsets| == |text| + 1 && forall i | 0 <= i <= |text| :: offsets[i] == ByteLength(text[..i])
  }

  method ByteOffsets(text: string) returns (offsets: seq<nat>)
    ensures IsOffsets(text, offsets)
  {
    offsets := [];
    var total := 0;
    for i := 0 to |text|
      invariant |offsets| == i && total == ByteLength(text[..i])
      invariant forall k | 0 <= k < i :: offsets[k] == ByteLength(text[..k])
    {
      offsets := offsets + [total];
      assert text[..i + 1][..i] == text[..i];
      total := total + Utf8Length(text[i]);
    }
    offsets := offsets + [total];
  }

  lemma {:induction false} OffsetsIncrease(text: string, offsets: seq<nat>, i: nat, j: nat)
    requires IsOffsets(text, offsets) && i < j <= |text|
    ensures offsets[i] < offsets[j]
  {
    assert text[..j][..j - 1] == text[..j - 1];
    if i < j - 1 {
      OffsetsIncrease(text, offsets, i, j - 1);
    }
  }

  // ------------------------------------------------------------------ the directive

  const LOCALE: string := "@locale"

  predicate StartsWith(s: string, start: string) {
    |start| <= |s| && s[..|start|] == start
  }

  /** Where the line at `start` ends. */
  function LineEnd(s: string, start: nat): (end: nat)
    requires start <= |s|
    ensures start <= end <= |s| && (end < |s| ==> s[end] == '\n')
    ensures forall i | start <= i < end :: s[i] != '\n'
    decreases |s| - start
  {
    if start == |s| || s[start] == '\n' then start else LineEnd(s, start + 1)
  }

  /** The errors of the stage, named after their registered identifiers. */
  datatype Fault =
    | EncodingInvalid | DirectiveInvalid | LocaleInvalid | ProfileDrift | ProfileUnavailable | DetectionAmbiguous | DetectionFailed
    | MixedWords | ConfusableWord | UnknownWord

  datatype Trouble = Trouble(error: Fault, offset: nat)

  /** The directive of a first line, or what is wrong with it; neither if it is no directive. */
  datatype FirstLine = NoDirective | Directive(tag: string) | BadDirective | BadTag

  /** `normalize` gives a well-formed tag its normal form. */
  function ReadFirstLine(normalize: string -> Option<string>, line: string): (r: FirstLine)
    ensures r.BadTag? ==> |line| > 8
  {
    if !StartsWith(line, LOCALE) then NoDirective
    else if |line| <= 8 || line[7] != ' ' || ' ' in line[8..] then BadDirective
    else
      match normalize(line[8..])
      case None => BadTag
      case Some(tag) => Directive(tag)
  }

  /** A line of `s` starts a directive; `atLineStart` says whether `s` itself starts a line. */
  predicate HasDirective(s: string, atLineStart: bool) {
    s != [] && ((atLineStart && StartsWith(s, LOCALE)) || HasDirective(s[1..], s[0] == '\n'))
  }

  // ------------------------------------------------------------------ classification

  datatype Profile = Profile(identity: string, spellings: map<string, string>, skeletons: set<string>)

  datatype Pin = Pin(locale: string, identity: string)

  datatype Method = Explicit | Pinned | Auto

  datatype Evaluation =
    | Rejected(error: Fault, offset: nat)
    | Canonical(words: seq<string>)
    | Localized(how: Method, locale: string, identity: string, words: seq<string>)

  predicate Continuation(c: char) {
    '0' <= c <= '9' || c == '_'
  }

  function Skeleton(lex: Lexicon, word: string): string {
    seq(|word|, i requires 0 <= i < |word| => lex.lookalike(word[i]))
  }

  function Scripts(lex: Lexicon, word: string): set<Option<string>> {
    set i | 0 <= i < |word| && !Continuation(word[i]) :: lex.repertoire(word[i])
  }

  predicate Confusable(lex: Lexicon, profile: Profile, word: string) {
    |Scripts(lex, word)| > 1 || Skeleton(lex, word) in profile.skeletons
  }

  /** What is wrong with a word that the profile does not spell. */
  function WordError(lex: Lexicon, profile: Profile, word: string): Fault {
    if word in lex.reserved then MixedWords
    else if Confusable(lex, profile, word) then ConfusableWord
    else UnknownWord
  }

  predicate Spelled(profile: Profile, found: seq<Found>) {
    forall i | 0 <= i < |found| :: found[i].word in profile.spellings
  }

  /** The canonical words of a text whose every candidate the profile spells. */
  function Mapped(profile: Profile, found: seq<Found>): seq<string>
    requires Spelled(profile, found)
  {
    seq(|found|, i requires 0 <= i < |found| => profile.spellings[found[i].word])
  }

  /** The first of the words the profile does not spell; localization errors come before unknown words. */
  predicate IsFirstError(lex: Lexicon, profile: Profile, found: seq<Found>, i: nat) {
    && i < |found| && found[i].word !in profile.spellings
    && forall k | 0 <= k < |found| && found[k].word !in profile.spellings ::
      var mine, other := WordError(lex, profile, found[i].word), WordError(lex, profile, found[k].word);
      if mine == UnknownWord then other == mine && i <= k
      else other == UnknownWord || i <= k
  }

  /** Map every candidate, or find the error to report. */
  method MapWords(lex: Lexicon, profile: Profile, found: seq<Found>) returns (words: seq<string>, wrong: Option<nat>)
    ensures wrong.None? <==> Spelled(profile, found)
    ensures wrong.None? ==> words == Mapped(profile, found)
    ensures wrong.Some? ==> IsFirstError(lex, profile, found, wrong.value)
  {
    words := [];
    var localization: Option<nat>, lexical: Option<nat> := None, None;
    for i := 0 to |found|
      invariant localization.Some? ==>
        && localization.value < i && found[localization.value].word !in profile.spellings
        && WordError(lex, profile, found[localization.value].word) != UnknownWord
      invariant lexical.Some? ==>
        && lexical.value < i && found[lexical.value].word !in profile.spellings
        && WordError(lex, profile, found[lexical.value].word) == UnknownWord
      invariant forall k | 0 <= k < i && found[k].word !in profile.spellings ::
        if WordError(lex, profile, found[k].word) == UnknownWord then lexical.Some? && lexical.value <= k
        else localization.Some? && localization.value <= k
      invariant localization.None? && lexical.None? ==>
        |words| == i && forall k | 0 <= k < i :: found[k].word in profile.spellings && words[k] == profile.spellings[found[k].word]
    {
      var word := found[i].word;
      if word in profile.spellings {
        words := words + [profile.spellings[word]];
      } else if WordError(lex, profile, word) != UnknownWord {
        localization := if localization.None? then Some(i) else localization;
      } else {
        lexical := if lexical.None? then Some(i) else lexical;
      }
    }
    wrong := if localization.Some? then localization else lexical;
  }

  // ------------------------------------------------------------------ putting the canonical words back

  /** `base` from `cursor` on with the stretches found replaced in order, as far as the replacements go. */
  function Splice<T>(base: seq<T>, cursor: nat, found: seq<Found>, inserts: seq<seq<T>>): seq<T>
    requires Ordered(found, cursor, |base|)
    decreases |found|
  {
    if found == [] || inserts == [] then base[cursor..]
    else
      var end := found[0].start + |found[0].word|;
      base[cursor..found[0].start] + inserts[0] + Splice(base, end, found[1..], inserts[1..])
  }

  /** The stretches found follow one another between `cursor` and `end`. */
  predicate Ordered(found: seq<Found>, cursor: nat, end: nat)
    decreases |found|
  {
    if found == [] then cursor <= end
    else
      && cursor <= found[0].start && found[0].start + |found[0].word| <= end
      && Ordered(found[1..], found[0].start + |found[0].word|, end)
  }

  function Repeated(x: nat, n: nat): seq<nat> {
    seq(n, _ => x)
  }

  /** For each word, the offset of what it replaces, once for each of its characters. */
  function Repeats(offsets: seq<nat>, found: seq<Found>, words: seq<string>): seq<seq<nat>>
    requires forall i | 0 <= i < |found| :: found[i].start < |offsets|
  {
    if found == [] || words == [] then []
    else [Repeated(offsets[found[0].start], |words[0]|)] + Repeats(offsets, found[1..], words[1..])
  }

  lemma {:induction false} WordsOrdered(ps: seq<Piece>, at: nat)
    ensures Ordered(Words(ps, at), at, at + |Flatten(ps)|)
    decreases |ps|
  {
    if ps != [] {
      var next := at + |Text(ps[0])|;
      WordsOrdered(ps[1..], next);
      WordsTail(ps, at);
      if !IsCandidate(ps[0]) {
        OrderedEarlier(Words(ps[1..], next), at, next, at + |Flatten(ps)|);
      }
    }
  }

  lemma WordsTail(ps: seq<Piece>, at: nat)
    requires ps != []
    ensures var rest := Words(ps[1..], at + |Text(ps[0])|);
      if IsCandidate(ps[0]) then
        Words(ps, at) != [] && Words(ps, at)[0] == Found(ps[0].run, at) && Words(ps, at)[1..] == rest
      else Words(ps, at) == rest
  {
  }

  lemma {:induction false} OriginalsTail(a: seq<Piece>)
    requires a != []
    ensures if IsCandidate(a[0]) then Originals(a) != [] && Originals(a)[0] == a[0].run && Originals(a)[1..] == Originals(a[1..])
            else Originals(a) == Originals(a[1..])
  {
  }

  lemma {:induction false} OrderedEarlier(found: seq<Found>, earlier: nat, cursor: nat, end: nat)
    requires Ordered(found, cursor, end) && earlier <= cursor
    ensures Ordered(found, earlier, end)
  {
  }

  lemma {:induction false} SpliceSkip<T>(base: seq<T>, cursor: nat, next: nat, found: seq<Found>, inserts: seq<seq<T>>)
    requires Ordered(found, next, |base|) && cursor <= next <= |base|
    ensures Ordered(found, cursor, |base|)
    ensures Splice(base, cursor, found, inserts) == base[cursor..next] + Splice(base, next, found, inserts)
  {
    if found != [] && inserts != [] {
      assert base[cursor..found[0].start] == base[cursor..next] + base[next..found[0].start];
    }
  }

  /** The candidates of the original, which are what the found spellings stand for. */
  function Originals(a: seq<Piece>): seq<string> {
    if a == [] then [] else (if IsCandidate(a[0]) then [a[0].run] else []) + Originals(a[1..])
  }

  lemma MappedTail(profile: Profile, found: seq<Found>)
    requires found != [] && Spelled(profile, found[1..]) && found[0].word in profile.spellings
    ensures Spelled(profile, found)
    ensures Mapped(profile, found) == [profile.spellings[found[0].word]] + Mapped(profile, found[1..])
  {
  }

  lemma {:induction false} SpellingsFound(lex: Lexicon, profile: Profile, a: seq<Piece>, b: seq<Piece>, at: nat)
    requires Respelled(lex, profile.spellings, a, b)
    ensures Spelled(profile, Words(b, at)) && Mapped(profile, Words(b, at)) == Originals(a)
    decreases |a|
  {
    if a != [] {
      assert Respells(lex, profile.spellings, a[0], b[0]);
      var next := at + |Text(b[0])|;
      SpellingsFound(lex, profile, a[1..], b[1..], next);
      WordsTail(b, at);
      OriginalsTail(a);
      if IsCandidate(a[0]) {
        MappedTail(profile, Words(b, at));
        assert Originals(a) == [a[0].run] + Originals(a[1..]);
      }
    }
  }

  lemma SpliceHead<T>(base: seq<T>, cursor: nat, found: seq<Found>, inserts: seq<seq<T>>)
    requires found != [] && inserts != [] && found[0].start == cursor && Ordered(found, cursor, |base|)
    ensures Splice(base, cursor, found, inserts)
         == inserts[0] + Splice(base, cursor + |found[0].word|, found[1..], inserts[1..])
  {
    assert base[cursor..cursor] + inserts[0] == inserts[0];
  }

  lemma {:induction false} FlattenTail(text: string, cursor: nat, b: seq<Piece>)
    requires cursor <= |text| && text[cursor..] == Flatten(b) && b != []
    ensures var next := cursor + |Text(b[0])|;
      next <= |text| && text[cursor..next] == Text(b[0]) && text[next..] == Flatten(b[1..])
  {
    var next := cursor + |Text(b[0])|;
    assert |text[cursor..]| == |Text(b[0])| + |Flatten(b[1..])|;
    assert text[cursor..next] == text[cursor..][..|Text(b[0])|];
    assert text[next..] == text[cursor..][|Text(b[0])|..];
  }

  lemma RespelledRest(lex: Lexicon, spellings: map<string, string>, a: seq<Piece>, b: seq<Piece>)
    requires Respelled(lex, spellings, a, b) && a != []
    ensures b != [] && Respells(lex, spellings, a[0], b[0]) && Respelled(lex, spellings, a[1..], b[1..])
  {
    forall i | 0 <= i < |a[1..]|
      ensures Respells(lex, spellings, a[1..][i], b[1..][i])
    {
      assert Respells(lex, spellings, a[i + 1], b[i + 1]);
    }
  }

  /** The pieces with their candidates replaced in order, as far as the words go. */
  function Refill(b: seq<Piece>, words: seq<string>): (c: seq<Piece>)
    ensures |c| == |b|
  {
    if b == [] then []
    else if IsCandidate(b[0]) && words != [] then [Run(words[0])] + Refill(b[1..], words[1..])
    else [b[0]] + Refill(b[1..], words)
  }

  /** One word put back, before the other pieces. */
  lemma {:induction false} RefillsWord(text: string, cursor: nat, next: nat, b: seq<Piece>, words: seq<string>)
    requires b != [] && words != [] && IsCandidate(b[0]) && next == cursor + |b[0].run|
    requires Ordered(Words(b, cursor), cursor, |text|) && Ordered(Words(b[1..], next), next, |text|)
    ensures Splice(text, cursor, Words(b, cursor), words)
         == words[0] + Splice(text, next, Words(b[1..], next), words[1..])
  {
    WordsTail(b, cursor);
    SpliceHead(text, cursor, Words(b, cursor), words);
  }

  /** A piece left as it is. */
  lemma {:induction false} RefillsOther(text: string, cursor: nat, next: nat, b: seq<Piece>, words: seq<string>)
    requires b != [] && (!IsCandidate(b[0]) || words == []) && cursor <= next <= |text|
    requires next == cursor + |Text(b[0])| && Ordered(Words(b[1..], next), next, |text|)
    requires Ordered(Words(b, cursor), cursor, |text|)
    ensures Splice(text, cursor, Words(b, cursor), words)
         == text[cursor..next] + Splice(text, next, Words(b[1..], next), words)
  {
    WordsTail(b, cursor);
    SpliceSkip(text, cursor, next, Words(b[1..], next), words);
  }

  lemma {:induction false} RefillNext(b: seq<Piece>, words: seq<string>)
    requires b != []
    ensures Flatten(Refill(b, words)) ==
      if IsCandidate(b[0]) && words != [] then words[0] + Flatten(Refill(b[1..], words[1..]))
      else Text(b[0]) + Flatten(Refill(b[1..], words))
  {
    var c := Refill(b, words);
    assert c[1..] == if IsCandidate(b[0]) && words != [] then Refill(b[1..], words[1..]) else Refill(b[1..], words);
    assert Flatten(c) == Text(c[0]) + Flatten(c[1..]);
  }

  /** Replacing what was found in a text replaces the candidates of its pieces. */
  lemma {:induction false} Refills(text: string, cursor: nat, b: seq<Piece>, words: seq<string>)
    requires cursor <= |text| && text[cursor..] == Flatten(b)
    ensures Ordered(Words(b, cursor), cursor, |text|)
    ensures Splice(text, cursor, Words(b, cursor), words) == Flatten(Refill(b, words))
    decreases |b|
  {
    WordsOrdered(b, cursor);
    if b == [] {
      assert Splice(text, cursor, [], words) == text[cursor..];
    } else {
      var next := cursor + |Text(b[0])|;
      var rest := if IsCandidate(b[0]) && words != [] then words[1..] else words;
      FlattenTail(text, cursor, b);
      Refills(text, next, b[1..], rest);
      RefillsFirst(text, cursor, next, b, words, rest);
    }
  }

  /** The first piece refilled, before the others. */
  lemma {:induction false} RefillsFirst(text: string, cursor: nat, next: nat, b: seq<Piece>, words: seq<string>,
                                        rest: seq<string>)
    requires b != [] && next == cursor + |Text(b[0])| <= |text| && text[cursor..next] == Text(b[0])
    requires Ordered(Words(b, cursor), cursor, |text|) && Ordered(Words(b[1..], next), next, |text|)
    requires rest == if IsCandidate(b[0]) && words != [] then words[1..] else words
    requires Splice(text, next, Words(b[1..], next), rest) == Flatten(Refill(b[1..], rest))
    ensures Splice(text, cursor, Words(b, cursor), words) == Flatten(Refill(b, words))
  {
    RefillNext(b, words);
    if IsCandidate(b[0]) && words != [] {
      RefillsWord(text, cursor, next, b, words);
    } else {
      RefillsOther(text, cursor, next, b, words);
    }
  }

  /** The originals put back into the respelled pieces make the original pieces. */
  lemma {:induction false} RefillOriginals(lex: Lexicon, spellings: map<string, string>, a: seq<Piece>, b: seq<Piece>)
    requires Respelled(lex, spellings, a, b)
    ensures Refill(b, Originals(a)) == a
    decreases |a|
  {
    if a != [] {
      RespelledRest(lex, spellings, a, b);
      RefillOriginals(lex, spellings, a[1..], b[1..]);
      OriginalsTail(a);
    }
  }

  /** Replacing what was found in the respelled source by the originals gives the original source. */
  lemma {:induction false} Restores(lex: Lexicon, spellings: map<string, string>, text: string, cursor: nat,
                                    a: seq<Piece>, b: seq<Piece>)
    requires cursor <= |text| && text[cursor..] == Flatten(b) && Respelled(lex, spellings, a, b)
    ensures Ordered(Words(b, cursor), cursor, |text|)
    ensures Splice(text, cursor, Words(b, cursor), Originals(a)) == Flatten(a)
  {
    Refills(text, cursor, b, Originals(a));
    RefillOriginals(lex, spellings, a, b);
  }

  // ------------------------------------------------------------------ the offset map

  predicate NonDecreasing(s: seq<nat>) {
    forall i, j | 0 <= i < j < |s| :: s[i] <= s[j]
  }

  predicate StartsInside(found: seq<Found>, n: nat) {
    forall i | 0 <= i < |found| :: found[i].start < n
  }

  lemma {:induction false} OrderedInside(found: seq<Found>, cursor: nat, end: nat)
    requires Ordered(found, cursor, end)
    ensures cursor <= end && StartsInside(found, end + 1) && Ordered(found, cursor, end + 1)
    decreases |found|
  {
    if found != [] {
      OrderedInside(found[1..], found[0].start + |found[0].word|, end);
      assert forall i | 0 < i < |found| :: found[i] == found[1..][i - 1];
    }
  }

  lemma JoinNonDecreasing(a: seq<nat>, b: seq<nat>)
    requires NonDecreasing(a) && NonDecreasing(b) && (a != [] && b != [] ==> a[|a| - 1] <= b[0])
    ensures NonDecreasing(a + b)
  {
    forall i, j | 0 <= i < j < |a + b|
      ensures (a + b)[i] <= (a + b)[j]
    {
      if i < |a| <= j {
        assert a[i] <= a[|a| - 1] && b[0] <= b[j - |a|];
      }
    }
  }

  /** A run of one offset and then the rest, after the offsets before it. */
  lemma JoinThree(before: seq<nat>, x: nat, n: nat, rest: seq<nat>)
    requires NonDecreasing(before) && NonDecreasing(rest) && rest != [] && x <= rest[0]
    requires before != [] ==> before[|before| - 1] <= x
    ensures NonDecreasing(before + Repeated(x, n) + rest)
    ensures (before + Repeated(x, n) + rest)[0] == if before != [] then before[0] else if n > 0 then x else rest[0]
  {
    JoinNonDecreasing(before, Repeated(x, n));
    JoinNonDecreasing(before + Repeated(x, n), rest);
  }

  /** The shape of an offset map: one longer than its text, never going back, from `low` or later to `high`. */
  predicate IsOffsetMap(where: seq<nat>, length: nat, low: nat, high: nat) {
    |where| == length + 1 && NonDecreasing(where) && low <= where[0] && where[length] == high
  }

  lemma MapJoins(offsets: seq<nat>, cursor: nat, start: nat, end: nat, n: nat, rest: seq<nat>, length: nat)
    requires NonDecreasing(offsets) && cursor <= start <= end < |offsets|
    requires IsOffsetMap(rest, length, offsets[end], offsets[|offsets| - 1])
    ensures IsOffsetMap(offsets[cursor..start] + Repeated(offsets[start], n) + rest, start - cursor + n + length,
                        offsets[cursor], offsets[|offsets| - 1])
  {
    JoinThree(offsets[cursor..start], offsets[start], n, rest);
  }

  lemma {:induction false} RepeatsNext(offsets: seq<nat>, found: seq<Found>, words: seq<string>)
    requires StartsInside(found, |offsets|) && found != [] && words != []
    ensures var inserts := Repeats(offsets, found, words);
      && inserts != [] && inserts[0] == Repeated(offsets[found[0].start], |words[0]|)
      && inserts[1..] == Repeats(offsets, found[1..], words[1..])
  {
  }

  /** The offset map is one longer than the text it belongs to, never goes back, and ends at the end. */
  lemma {:induction false} SpliceOffsets(offsets: seq<nat>, text: string, cursor: nat, found: seq<Found>, words: seq<string>)
    requires |offsets| == |text| + 1 && NonDecreasing(offsets) && Ordered(found, cursor, |text|)
    ensures cursor <= |text| && StartsInside(found, |offsets|) && Ordered(found, cursor, |offsets|)
    ensures IsOffsetMap(Splice(offsets, cursor, found, Repeats(offsets, found, words)),
                        |Splice(text, cursor, found, words)|, offsets[cursor], offsets[|text|])
    decreases |found|
  {
    OrderedInside(found, cursor, |text|);
    if found == [] || words == [] {
      assert Splice(text, cursor, found, words) == text[cursor..];
    } else {
      var end := found[0].start + |found[0].word|;
      OrderedInside(found[1..], end, |text|);
      SpliceOffsets(offsets, text, end, found[1..], words[1..]);
      SpliceOffsetsFirst(offsets, text, cursor, end, found, words);
    }
  }

  lemma {:induction false} SpliceFirst<T>(base: seq<T>, cursor: nat, end: nat, found: seq<Found>, inserts: seq<seq<T>>)
    requires found != [] && inserts != [] && end == found[0].start + |found[0].word| && Ordered(found, cursor, |base|)
    ensures Splice(base, cursor, found, inserts)
         == base[cursor..found[0].start] + inserts[0] + Splice(base, end, found[1..], inserts[1..])
  {
  }

  lemma {:induction false} SpliceOffsetsFirst(offsets: seq<nat>, text: string, cursor: nat, end: nat,
                                              found: seq<Found>, words: seq<string>)
    requires |offsets| == |text| + 1 && NonDecreasing(offsets) && found != [] && words != []
    requires end == found[0].start + |found[0].word| && cursor <= found[0].start && end <= |text|
    requires Ordered(found, cursor, |text|) && Ordered(found, cursor, |offsets|) && StartsInside(found, |offsets|)
    requires Ordered(found[1..], end, |text|) && Ordered(found[1..], end, |offsets|)
    requires IsOffsetMap(Splice(offsets, end, found[1..], Repeats(offsets, found[1..], words[1..])),
                         |Splice(text, end, found[1..], words[1..])|, offsets[end], offsets[|text|])
    ensures IsOffsetMap(Splice(offsets, cursor, found, Repeats(offsets, found, words)),
                        |Splice(text, cursor, found, words)|, offsets[cursor], offsets[|text|])
  {
    var start := found[0].start;
    var inserts := Repeats(offsets, found, words);
    RepeatsNext(offsets, found, words);
    SpliceFirst(offsets, cursor, end, found, inserts);
    SpliceFirst(text, cursor, end, found, words);
    MapJoins(offsets, cursor, start, end, |words[0]|, Splice(offsets, end, found[1..], inserts[1..]),
             |Splice(text, end, found[1..], words[1..])|);
  }
}

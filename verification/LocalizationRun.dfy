/** The localization stage as it runs, and the rebuilding of the canonical text. */
module LocalizationRun {
  import opened Base
  import opened SourceMask
  import opened LocalizedWords
  import opened LocalizedSource
  import opened Localization

  /** The earliest trouble. */
  method First(problems: seq<Trouble>) returns (t: Trouble)
    requires problems != []
    ensures Earliest(problems, t)
  {
    t := problems[0];
    for i := 1 to |problems|
      invariant t in problems && forall k | 0 <= k < i :: t.offset <= problems[k].offset
    {
      if problems[i].offset < t.offset {
        t := problems[i];
      }
    }
  }

  /** The text of a source, or the place of its first byte that is not UTF-8. */
  datatype Source = Decoded(text: string) | NotUtf8(offset: nat)

  /** Evaluate one source. */
  method EvaluateSource(lex: Lexicon, request: Request, source: Source) returns (answer: Option<Evaluation>)
    requires lex.Valid()
    ensures match source
      case NotUtf8(offset) => answer == Some(Rejected(EncodingInvalid, offset))
      case Decoded(text) => Evaluates(lex, request, text, answer)
  {
    if source.NotUtf8? {
      return Some(Rejected(EncodingInvalid, source.offset));
    }
    var text := source.text;
    var offsets := ByteOffsets(text);
    var first, problems := FindDirective(request.normalize, text, offsets);
    if problems != [] {
      var t := First(problems);
      answer := Some(Rejected(t.error, t.offset));
    } else if first.Directive? && LineEnd(text, 0) == |text| {
      answer := None;
    } else {
      var skip := if first.Directive? then LineEnd(text, 0) + 1 else 0;
      var mask, unclosed := OutsideStringMask(text);
      var found := FindWords(lex, text, mask[..], skip);
      WordsInside(lex, text, skip);
      var s := Select(lex, request, first, found, offsets);
      var e := Classify(lex, found, offsets, s);
      answer := Some(e);
      assert Selects(lex, request, first, found, offsets, s) && Classified(lex, found, offsets, s, e);
    }
    assert EvaluatesAt(lex, request, text, offsets, answer);
  }

  method Select(lex: Lexicon, request: Request, first: FirstLine, found: seq<Found>,
                offsets: seq<nat>) returns (s: Selection)
    requires StartsInside(found, |offsets|)
    ensures Selects(lex, request, first, found, offsets, s)
  {
    if first.Directive? {
      s := OpenExplicit(request.profiles, first.tag, request.pin, request.available);
    } else if request.pin.Some? {
      s := OpenPin(request.profiles, request.pin.value, request.available);
    } else {
      s := Detect(lex, found, offsets, request.profiles, request.available);
    }
  }

  method Classify(lex: Lexicon, found: seq<Found>, offsets: seq<nat>, s: Selection) returns (e: Evaluation)
    requires StartsInside(found, |offsets|)
    ensures Classified(lex, found, offsets, s, e)
  {
    match s
    case Refused(error, offset) =>
      e := Rejected(error, offset);
    case NotNeeded =>
      e := Canonical(seq(|found|, i requires 0 <= i < |found| => found[i].word));
    case Chosen(how, locale, profile) =>
      var words, wrong := MapWords(lex, profile, found);
      if wrong.None? {
        e := Localized(how, locale, profile.identity, words);
      } else {
        e := Rejected(WordError(lex, profile, found[wrong.value].word), offsets[found[wrong.value].start]);
      }
  }

  /**
   * The text with its words put back, and where each character comes from. The first line is always left as it
   * is; the result is `None` where there is no line after it.
   */
  method Canonicalize(lex: Lexicon, text: string, offsets: seq<nat>, e: Evaluation)
    returns (r: Option<(string, seq<nat>)>)
    requires lex.Valid() && |offsets| == |text| + 1
    ensures e.Canonical? ==> r == Some((text, offsets))
    ensures e.Localized? ==>
      r == if LineEnd(text, 0) == |text| then None else Some(Rebuilt(lex, text, offsets, e.words))
  {
    if !e.Localized? {
      return Some((text, offsets));
    }
    if LineEnd(text, 0) == |text| {
      return None;
    }
    var skip := LineEnd(text, 0) + 1;
    var mask, unclosed := OutsideStringMask(text);
    var found := FindWords(lex, text, mask[..], skip);
    WordsInside(lex, text, skip);
    OrderedEarlier(found, 0, skip, |text|);
    OrderedInside(found, 0, |text|);
    var canonical, where := PutBack(text, offsets, found, e.words);
    return Some((canonical, where));
  }

  /** Put the words in place of what was found, from the beginning to the end. */
  method PutBack(text: string, offsets: seq<nat>, found: seq<Found>, words: seq<string>)
    returns (canonical: string, where: seq<nat>)
    requires |offsets| == |text| + 1
    requires Ordered(found, 0, |text|) && Ordered(found, 0, |offsets|) && StartsInside(found, |offsets|)
    ensures canonical == Splice(text, 0, found, words)
    ensures where == Splice(offsets, 0, found, Repeats(offsets, found, words))
  {
    ghost var whole := (Splice(text, 0, found, words), Splice(offsets, 0, found, Repeats(offsets, found, words)));
    canonical, where := [], [];
    var cursor: nat, i: nat := 0, 0;
    assert found[0..] == found && words[0..] == words;
    while i < |found| && i < |words|
      invariant i <= |found| && i <= |words|
      invariant Pending(text, offsets, cursor, found[i..], words[i..], canonical, where, whole)
      decreases |found| - i
    {
      var start, end := found[i].start, found[i].start + |found[i].word|;
      TakeWordAt(text, offsets, cursor, found, words, i, canonical, where, whole);
      canonical := canonical + text[cursor..start] + words[i];
      where := where + offsets[cursor..start] + Repeated(offsets[start], |words[i]|);
      cursor, i := end, i + 1;
    }
    canonical := canonical + text[cursor..];
    where := where + offsets[cursor..];
  }

  /** What is done and what is left make up the whole. */
  ghost predicate Pending(text: string, offsets: seq<nat>, cursor: nat, found: seq<Found>, words: seq<string>,
                          canonical: string, where: seq<nat>, whole: (string, seq<nat>))
  {
    && |offsets| == |text| + 1 && cursor <= |text|
    && Ordered(found, cursor, |text|) && Ordered(found, cursor, |offsets|) && StartsInside(found, |offsets|)
    && canonical + Splice(text, cursor, found, words) == whole.0
    && where + Splice(offsets, cursor, found, Repeats(offsets, found, words)) == whole.1
  }

  lemma SpliceNext<T>(done: seq<T>, base: seq<T>, cursor: nat, found: seq<Found>, inserts: seq<seq<T>>, whole: seq<T>)
    requires Ordered(found, cursor, |base|) && found != [] && inserts != []
    requires done + Splice(base, cursor, found, inserts) == whole
    ensures done + base[cursor..found[0].start] + inserts[0]
            + Splice(base, found[0].start + |found[0].word|, found[1..], inserts[1..]) == whole
  {
    var x, y, z := base[cursor..found[0].start], inserts[0], Splice(base, found[0].start + |found[0].word|, found[1..], inserts[1..]);
    assert done + (x + y + z) == done + x + y + z;
  }

  lemma TakeWord(text: string, offsets: seq<nat>, cursor: nat, found: seq<Found>, words: seq<string>,
                 canonical: string, where: seq<nat>, whole: (string, seq<nat>))
    requires Pending(text, offsets, cursor, found, words, canonical, where, whole) && found != [] && words != []
    ensures var start := found[0].start; var end := start + |found[0].word|;
      && end <= |text|
      && Pending(text, offsets, end, found[1..], words[1..], canonical + text[cursor..start] + words[0],
                 where + offsets[cursor..start] + Repeated(offsets[start], |words[0]|), whole)
  {
    OrderedInside(found[1..], found[0].start + |found[0].word|, |text|);
    var inserts := Repeats(offsets, found, words);
    assert inserts[0] == Repeated(offsets[found[0].start], |words[0]|);
    assert inserts[1..] == Repeats(offsets, found[1..], words[1..]);
    SpliceNext(canonical, text, cursor, found, words, whole.0);
    SpliceNext(where, offsets, cursor, found, inserts, whole.1);
  }

  lemma TakeWordAt(text: string, offsets: seq<nat>, cursor: nat, found: seq<Found>, words: seq<string>, i: nat,
                   canonical: string, where: seq<nat>, whole: (string, seq<nat>))
    requires i < |found| && i < |words|
    requires Pending(text, offsets, cursor, found[i..], words[i..], canonical, where, whole)
    ensures var start := found[i].start; var end := start + |found[i].word|;
      && cursor <= start <= end <= |text|
      && Pending(text, offsets, end, found[i + 1..], words[i + 1..], canonical + text[cursor..start] + words[i],
                 where + offsets[cursor..start] + Repeated(offsets[start], |words[i]|), whole)
  {
    TakeWord(text, offsets, cursor, found[i..], words[i..], canonical, where, whole);
    assert found[i..][1..] == found[i + 1..] && words[i..][1..] == words[i + 1..];
  }
}

/** The tokenizer of grammars. */
module EbnfTokens {
  import opened Base
  import opened EbnfParser

  /** Which characters are white space, which are letters, and which are letters or digits. */
  datatype Alphabet = Alphabet(space: char -> bool, letter: char -> bool, alnum: char -> bool) {

    ghost predicate Valid() {
      && (forall c | letter(c) :: alnum(c))
      && (forall c | space(c) :: !alnum(c) && !IsMark(c))
      && forall c | IsMark(c) :: !alnum(c)
    }
  }

  predicate IsSymbol(c: char) {
    c == '=' || c == ';' || c == ',' || c == '|' || c == '[' || c == ']' || c == '{' || c == '}' || c == '(' || c == ')'
  }

  predicate IsMark(c: char) {
    IsSymbol(c) || c == '\'' || c == '\"' || c == '?' || c == '_' || c == '*'
  }

  predicate InName(a: Alphabet, c: char) {
    a.alnum(c) || c == '_'
  }

  predicate StartsName(a: Alphabet, c: char) {
    a.letter(c) || c == '_'
  }

  datatype TokenError =
    | UnclosedComment(at: nat)
    | UnclosedTerminal(at: nat)
    | UnclosedSpecial(at: nat)
    | EmptySpecial(at: nat)
    | Unexpected(c: char, at: nat)

  /** How many characters of a name `s` starts with. */
  function NameLength(a: Alphabet, s: string): (n: nat)
    ensures n <= |s| && (forall i | 0 <= i < n :: InName(a, s[i])) && (n < |s| ==> !InName(a, s[n]))
  {
    if s == [] || !InName(a, s[0]) then 0 else 1 + NameLength(a, s[1..])
  }

  function Is(c: char): char -> bool { (x: char) => x == c }

  /** Where the first end of a comment is. */
  function CommentEnd(s: string): (r: Option<nat>)
    ensures r.Some? ==> r.value + 2 <= |s|
  {
    if |s| < 2 then None
    else if s[0] == '*' && s[1] == ')' then Some(0)
    else
      match CommentEnd(s[1..])
      case None => None
      case Some(k) => Some(k + 1)
  }

  function StripStart(a: Alphabet, s: string): (r: string)
    ensures |r| <= |s| && forall c | c in r :: c in s
    ensures r != [] ==> r[|r| - 1] == s[|s| - 1]
  {
    if s == [] || !a.space(s[0]) then s else StripStart(a, s[1..])
  }

  function Strip(a: Alphabet, s: string): (r: string)
    ensures |r| <= |s| && forall c | c in r :: c in s
    ensures r != [] ==> !a.space(r[|r| - 1])
  {
    if s == [] || !a.space(s[|s| - 1]) then StripStart(a, s) else Strip(a, s[..|s| - 1])
  }

  /** What a text starts with: something to pass over, a token, or an error. */
  datatype Front = Pass(length: nat) | Take(token: Token, length: nat) | Fault(error: TokenError)

  function FrontOf(a: Alphabet, s: string, at: nat): (r: Front)
    requires s != []
    ensures !r.Fault? ==> 0 < r.length <= |s|
  {
    var c := s[0];
    if a.space(c) then Pass(1)
    else if c == '(' && |s| > 1 && s[1] == '*' then
      match CommentEnd(s[2..])
      case None => Fault(UnclosedComment(at))
      case Some(k) => Pass(k + 4)
    else if StartsName(a, c) then
      var n := 1 + NameLength(a, s[1..]);
      Take(Name(s[..n]), n)
    else if c == '\'' || c == '\"' then
      match First(s[1..], Is(c))
      case None => Fault(UnclosedTerminal(at))
      case Some(k) => Take(Quoted(s[1..1 + k]), k + 2)
    else if c == '?' then
      match First(s[1..], Is(c))
      case None => Fault(UnclosedSpecial(at))
      case Some(k) =>
        var value := Strip(a, s[1..1 + k]);
        if value == [] then Fault(EmptySpecial(at)) else Take(Query(value), k + 2)
    else if IsSymbol(c) then Take(Punct(c), 1)
    else Fault(Unexpected(c, at))
  }

  /** These tokens, and then those read after them. */
  function Onto(before: seq<Token>, r: Result<seq<Token>, TokenError>): Result<seq<Token>, TokenError> {
    match r
    case Err(error) => Err(error)
    case Ok(tokens) => Ok(before + tokens)
  }

  /** What stands in front of a text that starts at an offset. */
  type Reading = (string, nat) -> Front

  /** Whatever is read is there. */
  ghost predicate Steady(reading: Reading) {
    forall s, at | s != [] :: !reading(s, at).Fault? ==> 0 < reading(s, at).length <= |s|
  }

  function ReadingOf(a: Alphabet): (reading: Reading)
    ensures Steady(reading)
  {
    (s: string, at: nat) => if s == [] then Pass(0) else FrontOf(a, s, at)
  }

  /** The tokens of a text that starts at offset `at`, with the end marker after them. */
  function Scan(reading: Reading, s: string, at: nat): Result<seq<Token>, TokenError>
    requires Steady(reading)
    decreases |s|
  {
    if s == [] then Ok([Eof])
    else
      match reading(s, at)
      case Fault(error) => Err(error)
      case Pass(n) => Scan(reading, s[n..], at + n)
      case Take(token, n) => Onto([token], Scan(reading, s[n..], at + n))
  }

  function Tokens(a: Alphabet, s: string, at: nat): Result<seq<Token>, TokenError> {
    Scan(ReadingOf(a), s, at)
  }

  // ----- The loop ---------------------------------------------------------------

  method Tokenize(a: Alphabet, source: string) returns (r: Result<seq<Token>, TokenError>)
    ensures r == Tokens(a, source, 0)
  {
    var tokens: seq<Token> := [];
    var index: nat := 0;
    ghost var whole := Scan(ReadingOf(a), source, 0);
    OntoNothing(whole);
    assert source[0..] == source;
    while index < |source|
      invariant index <= |source|
      invariant whole == Resumed(ReadingOf(a), source, Ok((tokens, index)))
    {
      var front := ReadFront(a, source, index);
      ScanNext(ReadingOf(a), source, index, tokens, front);
      var next := Advanced(front, index, tokens);
      if next.Err? {
        return Err(next.error);
      }
      tokens, index := next.value.0, next.value.1;
    }
    assert source[index..] == [];
    return Ok(tokens + [Eof]);
  }

  /** The tokens and the place to go on from, once what stands at `index` is passed over or taken up. */
  function Advanced(front: Front, index: nat, tokens: seq<Token>): Result<(seq<Token>, nat), TokenError> {
    match front
    case Fault(error) => Err(error)
    case Pass(n) => Ok((tokens, index + n))
    case Take(token, n) => Ok((tokens + [token], index + n))
  }

  /** Reading on from there. */
  function Resumed(reading: Reading, source: string, next: Result<(seq<Token>, nat), TokenError>): Result<seq<Token>,
                   TokenError>
    requires Steady(reading) && (next.Ok? ==> next.value.1 <= |source|)
  {
    match next
    case Err(error) => Err(error)
    case Ok((tokens, index)) => Onto(tokens, Scan(reading, source[index..], index))
  }

  /** What stands at `index`. */
  method ReadFront(a: Alphabet, source: string, index: nat) returns (front: Front)
    requires index < |source|
    ensures front == FrontOf(a, source[index..], index)
    ensures front == ReadingOf(a)(source[index..], index)
  {
    var c, rest := source[index], source[index + 1..];
    assert source[index..][1..] == rest;
    if a.space(c) {
      return Pass(1);
    }
    if c == '(' && rest != [] && rest[0] == '*' {
      assert source[index..][2..] == rest[1..];
      var end := CommentEnd(rest[1..]);
      return if end.None? then Fault(UnclosedComment(index)) else Pass(end.value + 4);
    }
    if StartsName(a, c) {
      var end := index + 1;
      while end < |source| && InName(a, source[end])
        invariant index < end <= |source|
        invariant forall i | index < i < end :: InName(a, source[i])
      {
        end := end + 1;
      }
      NameEnds(a, rest, end - index - 1);
      assert source[index..][..end - index] == source[index..end];
      return Take(Name(source[index..end]), end - index);
    }
    if c == '\'' || c == '\"' || c == '?' {
      var end := First(rest, Is(c));
      if end.None? {
        return Fault(if c == '?' then UnclosedSpecial(index) else UnclosedTerminal(index));
      }
      assert source[index..][1..1 + end.value] == rest[..end.value];
      if c != '?' {
        return Take(Quoted(rest[..end.value]), end.value + 2);
      }
      var value := Strip(a, rest[..end.value]);
      return if value == [] then Fault(EmptySpecial(index)) else Take(Query(value), end.value + 2);
    }
    return if IsSymbol(c) then Take(Punct(c), 1) else Fault(Unexpected(c, index));
  }

  lemma OntoNothing(r: Result<seq<Token>, TokenError>)
    ensures Onto([], r) == r
  {
    if r.Ok? {
      assert [] + r.value == r.value;
    }
  }

  lemma OntoTwice(x: seq<Token>, y: seq<Token>, r: Result<seq<Token>, TokenError>)
    ensures Onto(x, Onto(y, r)) == Onto(x + y, r)
  {
    if r.Ok? {
      assert x + (y + r.value) == x + y + r.value;
    }
  }

  lemma {:induction false} ScanNext(reading: Reading, source: string, index: nat, tokens: seq<Token>, front: Front)
    requires Steady(reading) && index < |source| && front == reading(source[index..], index)
    ensures front.Fault? || 0 < front.length <= |source| - index
    ensures Resumed(reading, source, Ok((tokens, index))) == Resumed(reading, source, Advanced(front, index, tokens))
  {
    var s := source[index..];
    match front
    case Fault(_) =>
    case Pass(n) => assert s[n..] == source[index + n..];
    case Take(token, n) =>
      assert s[n..] == source[index + n..];
      OntoTwice(tokens, [token], Scan(reading, s[n..], index + n));
  }

  /** Only one length is that of the name in front. */
  lemma {:induction false} NameEnds(a: Alphabet, s: string, n: nat)
    requires n <= |s| && (forall i | 0 <= i < n :: InName(a, s[i])) && (n < |s| ==> !InName(a, s[n]))
    ensures NameLength(a, s) == n
  {
  }

  // ----- What tokens there are ---------------------------------------------------

  /** A token that can stand in a text. */
  predicate Writable(a: Alphabet, t: Token) {
    match t
    case Name(text) => text != [] && StartsName(a, text[0]) && forall i | 0 <= i < |text| :: InName(a, text[i])
    case Quoted(text) => '\'' !in text || '\"' !in text
    case Query(text) => text != [] && '?' !in text && Strip(a, text) == text
    case Punct(c) => IsSymbol(c)
    case Eof => false
  }

  lemma {:induction false} StripStarts(a: Alphabet, s: string)
    ensures StripStart(a, s) == [] || !a.space(StripStart(a, s)[0])
  {
    if s != [] && a.space(s[0]) {
      StripStarts(a, s[1..]);
    }
  }

  lemma {:induction false} StripTwice(a: Alphabet, s: string)
    ensures Strip(a, Strip(a, s)) == Strip(a, s)
  {
    if s != [] && a.space(s[|s| - 1]) {
      StripTwice(a, s[..|s| - 1]);
    } else {
      StripStarts(a, s);
    }
  }

  lemma {:induction false} FrontIsWritable(a: Alphabet, s: string, at: nat)
    requires a.Valid() && s != []
    ensures FrontOf(a, s, at).Take? ==> Writable(a, FrontOf(a, s, at).token)
  {
    var c := s[0];
    if FrontOf(a, s, at).Take? {
      if StartsName(a, c) {
        var n := 1 + NameLength(a, s[1..]);
        assert forall i | 0 < i < n :: s[i] == s[1..][i - 1];
      } else if c == '\'' || c == '\"' || c == '?' {
        var k := First(s[1..], Is(c)).value;
        assert forall i | 0 <= i < k :: s[1..1 + k][i] == s[1..][i] != c;
        StripTwice(a, s[1..1 + k]);
      }
    }
  }

  /** The tokens of any text that has no error can be written, and end with the end marker and have no other. */
  lemma TokensAreWritable(a: Alphabet, s: string, at: nat)
    requires a.Valid() && Tokens(a, s, at).Ok?
    ensures var ts := Tokens(a, s, at).value;
      Ended(ts) && forall i | 0 <= i < |ts| - 1 :: Writable(a, ts[i])
  {
    forall s: string, at: nat | s != [] && ReadingOf(a)(s, at).Take?
      ensures Writable(a, ReadingOf(a)(s, at).token)
    {
      FrontIsWritable(a, s, at);
    }
    ScanGives(ReadingOf(a), t => Writable(a, t), s, at);
  }

  /** What holds of every token read in front holds of all the tokens. */
  lemma {:induction false} ScanGives(reading: Reading, p: Token -> bool, s: string, at: nat)
    requires Steady(reading) && !p(Eof) && Scan(reading, s, at).Ok?
    requires forall s, at | s != [] && reading(s, at).Take? :: p(reading(s, at).token)
    ensures var ts := Scan(reading, s, at).value;
      Ended(ts) && forall i | 0 <= i < |ts| - 1 :: p(ts[i])
    decreases |s|
  {
    if s != [] {
      var front := reading(s, at);
      ScanGives(reading, p, s[front.length..], at + front.length);
    }
  }

  // ----- Whatever is written is read back ----------------------------------------

  function Shown(t: Token): string
    requires !t.Eof?
  {
    match t
    case Name(text) => text
    case Quoted(text) => if '\'' !in text then ['\''] + text + ['\''] else ['\"'] + text + ['\"']
    case Query(text) => ['?'] + text + ['?']
    case Punct(c) => [c]
  }

  /** White space and comments. */
  predicate Layout(a: Alphabet, s: string)
    decreases |s|
  {
    || s == []
    || (a.space(s[0]) && Layout(a, s[1..]))
    || (|s| >= 4 && s[0] == '(' && s[1] == '*'
        && CommentEnd(s[2..]).Some? && Layout(a, s[CommentEnd(s[2..]).value + 4..]))
  }

  lemma {:induction false} CommentEndMore(s: string, rest: string)
    requires CommentEnd(s).Some?
    ensures CommentEnd(s + rest) == CommentEnd(s)
  {
    if !(s[0] == '*' && s[1] == ')') {
      CommentEndMore(s[1..], rest);
      assert (s + rest)[1..] == s[1..] + rest;
    }
  }

  /** The length of the first piece of a layout. */
  function LayoutStep(a: Alphabet, gap: string): nat
    requires gap != [] && Layout(a, gap)
  {
    if a.space(gap[0]) then 1 else CommentEnd(gap[2..]).value + 4
  }

  ghost predicate PassesLayout(a: Alphabet, reading: Reading) {
    forall gap, rest, at: nat | gap != [] && Layout(a, gap) :: reading(gap + rest, at) == Pass(LayoutStep(a, gap))
  }

  lemma {:induction false} LayoutIsPassed(a: Alphabet, reading: Reading, gap: string, rest: string, at: nat)
    requires a.Valid() && Steady(reading) && PassesLayout(a, reading) && Layout(a, gap)
    ensures Scan(reading, gap + rest, at) == Scan(reading, rest, at + |gap|)
    decreases |gap|
  {
    if gap == [] {
      assert gap + rest == rest;
    } else {
      var n := LayoutStep(a, gap);
      assert Layout(a, gap[n..]) && n <= |gap|;
      LayoutIsPassed(a, reading, gap[n..], rest, at + n);
      assert reading(gap + rest, at) == Pass(n);
      PassNext(reading, gap, rest, at, n);
    }
  }

  lemma DropFrom(s: string, rest: string, n: nat)
    requires n <= |s|
    ensures (s + rest)[n..] == s[n..] + rest
  {
  }

  lemma {:induction false} LayoutFront(a: Alphabet, gap: string, rest: string, at: nat)
    requires a.Valid() && gap != [] && Layout(a, gap)
    ensures FrontOf(a, gap + rest, at) == Pass(LayoutStep(a, gap))
  {
    if !a.space(gap[0]) {
      CommentEndMore(gap[2..], rest);
      DropFrom(gap, rest, 2);
    }
  }

  lemma {:induction false} PassNext(reading: Reading, s: string, rest: string, at: nat, n: nat)
    requires Steady(reading) && 0 < n <= |s| && reading(s + rest, at) == Pass(n)
    ensures Scan(reading, s + rest, at) == Scan(reading, s[n..] + rest, at + n)
  {
    DropFrom(s, rest, n);
  }

  lemma {:induction false} TakeNext(reading: Reading, shown: string, t: Token, rest: string, at: nat)
    requires Steady(reading) && shown != [] && reading(shown + rest, at) == Take(t, |shown|)
    ensures Scan(reading, shown + rest, at) == Onto([t], Scan(reading, rest, at + |shown|))
  {
    DropFrom(shown, rest, |shown|);
    assert shown[|shown|..] + rest == rest;
  }

  lemma {:induction false} FirstIsAfter(text: string, c: char, rest: string)
    requires c !in text
    ensures First(text + [c] + rest, Is(c)) == Some(|text|)
  {
    var s := text + [c] + rest;
    var found := First(s, Is(c));
    assert s[|text|] == c && c in s && Is(c)(c);
    assert forall i | 0 <= i < |text| :: s[i] == text[i] != c;
  }

  /** A token in front of white space is read as it was written. */
  lemma {:induction false} TokenIsRead(a: Alphabet, t: Token, rest: string, at: nat)
    requires a.Valid() && Writable(a, t) && rest != [] && a.space(rest[0])
    ensures FrontOf(a, Shown(t) + rest, at) == Take(t, |Shown(t)|)
  {
    match t
    case Name(text) => NameIsRead(a, text, rest, at);
    case Quoted(text) => QuotedIsRead(a, text, if '\'' !in text then '\'' else '\"', rest, at);
    case Query(text) => QueryIsRead(a, text, rest, at);
    case Punct(c) => assert ([c] + rest)[1] == rest[0];
  }

  lemma {:induction false} NameIsRead(a: Alphabet, text: string, rest: string, at: nat)
    requires a.Valid() && Writable(a, Name(text)) && rest != [] && a.space(rest[0])
    ensures FrontOf(a, text + rest, at) == Take(Name(text), |text|)
  {
    DropFrom(text, rest, 1);
    NameEnds(a, text[1..] + rest, |text| - 1);
    assert (text + rest)[..|text|] == text;
  }

  lemma {:induction false} QueryIsRead(a: Alphabet, text: string, rest: string, at: nat)
    requires a.Valid() && Writable(a, Query(text))
    ensures FrontOf(a, ['?'] + text + ['?'] + rest, at) == Take(Query(text), |text| + 2)
  {
    var s := ['?'] + text + ['?'] + rest;
    assert s[1..] == text + ['?'] + rest;
    FirstIsAfter(text, '?', rest);
    assert s[1..1 + |text|] == text;
  }

  lemma {:induction false} QuotedIsRead(a: Alphabet, text: string, quote: char, rest: string, at: nat)
    requires a.Valid() && quote !in text && (quote == '\'' || quote == '\"')
    ensures FrontOf(a, [quote] + text + [quote] + rest, at) == Take(Quoted(text), |text| + 2)
  {
    var s := [quote] + text + [quote] + rest;
    assert s[1..] == text + [quote] + rest;
    FirstIsAfter(text, quote, rest);
    assert s[1..1 + |text|] == text;
  }

  /** A token and the layout after it. */
  datatype Item = Item(token: Token, gap: string)

  predicate ItemOk(a: Alphabet, item: Item) {
    Writable(a, item.token) && item.gap != [] && a.space(item.gap[0]) && Layout(a, item.gap)
  }

  predicate AllOk(a: Alphabet, items: seq<Item>) {
    forall i | 0 <= i < |items| :: ItemOk(a, items[i])
  }

  function ItemLength(item: Item): nat
    requires !item.token.Eof?
  {
    |Shown(item.token)| + |item.gap|
  }

  /** An item and the text after it. */
  function ItemText(item: Item, rest: string): string
    requires !item.token.Eof?
  {
    Shown(item.token) + item.gap + rest
  }

  function TextOf(a: Alphabet, items: seq<Item>): string
    requires AllOk(a, items)
  {
    if items == [] then [] else assert ItemOk(a, items[0]); ItemText(items[0], TextOf(a, items[1..]))
  }

  function TokensOf(items: seq<Item>): (r: seq<Token>)
    ensures |r| == |items| && forall i | 0 <= i < |r| :: r[i] == items[i].token
  {
    seq(|items|, i requires 0 <= i < |items| => items[i].token)
  }

  /** A token in front of white space is read as it was written, and layout is passed over. */
  ghost predicate ReadsBack(a: Alphabet, reading: Reading)
    requires Steady(reading)
  {
    && (forall t, rest, at: nat | Writable(a, t) && rest != [] && a.space(rest[0]) ::
      reading(Shown(t) + rest, at) == Take(t, |Shown(t)|))
    && (forall gap, rest, at: nat | Layout(a, gap) ::
      Scan(reading, gap + rest, at) == Scan(reading, rest, at + |gap|))
  }

  lemma {:induction false} ReadingReadsBack(a: Alphabet)
    requires a.Valid()
    ensures ReadsBack(a, ReadingOf(a))
  {
    forall t, rest, at: nat | Writable(a, t) && rest != [] && a.space(rest[0])
      ensures ReadingOf(a)(Shown(t) + rest, at) == Take(t, |Shown(t)|)
    {
      TokenIsRead(a, t, rest, at);
    }
    forall gap, rest, at: nat | gap != [] && Layout(a, gap)
      ensures ReadingOf(a)(gap + rest, at) == Pass(LayoutStep(a, gap))
    {
      LayoutFront(a, gap, rest, at);
    }
    forall gap, rest, at: nat | Layout(a, gap)
      ensures Scan(ReadingOf(a), gap + rest, at) == Scan(ReadingOf(a), rest, at + |gap|)
    {
      LayoutIsPassed(a, ReadingOf(a), gap, rest, at);
    }
  }

  lemma {:induction false} ItemIsRead(a: Alphabet, reading: Reading, item: Item, rest: string, at: nat)
    requires Steady(reading) && ReadsBack(a, reading) && ItemOk(a, item)
    ensures Scan(reading, ItemText(item, rest), at) == Onto([item.token], Scan(reading, rest, at + ItemLength(item)))
  {
    var shown := Shown(item.token);
    assert (item.gap + rest)[0] == item.gap[0];
    assert reading(shown + (item.gap + rest), at) == Take(item.token, |shown|);
    TakeNext(reading, shown, item.token, item.gap + rest, at);
    assert shown + (item.gap + rest) == shown + item.gap + rest;
  }

  lemma {:induction false} ItemsAreRead(a: Alphabet, reading: Reading, items: seq<Item>, at: nat)
    requires Steady(reading) && ReadsBack(a, reading) && AllOk(a, items)
    ensures Scan(reading, TextOf(a, items), at) == Ok(TokensOf(items) + [Eof])
    decreases |items|
  {
    if items == [] {
      assert TokensOf(items) + [Eof] == [Eof];
    } else {
      assert ItemOk(a, items[0]);
      ItemIsRead(a, reading, items[0], TextOf(a, items[1..]), at);
      ItemsAreRead(a, reading, items[1..], at + ItemLength(items[0]));
      TokensOfNext(items);
    }
  }

  lemma TokensOfNext(items: seq<Item>)
    requires items != []
    ensures TokensOf(items) + [Eof] == [items[0].token] + (TokensOf(items[1..]) + [Eof])
  {
    assert TokensOf(items) == [items[0].token] + TokensOf(items[1..]);
  }

  lemma {:induction false} AllIsRead(a: Alphabet, reading: Reading, lead: string, items: seq<Item>)
    requires Steady(reading) && ReadsBack(a, reading) && Layout(a, lead) && AllOk(a, items)
    ensures Scan(reading, lead + TextOf(a, items), 0) == Ok(TokensOf(items) + [Eof])
  {
    assert Scan(reading, lead + TextOf(a, items), 0) == Scan(reading, TextOf(a, items), 0 + |lead|);
    ItemsAreRead(a, reading, items, |lead|);
  }

  /** Tokens written with white space and comments between them are read back, whatever layout stands in front. */
  lemma {:induction false} WrittenIsRead(a: Alphabet, lead: string, items: seq<Item>)
    requires a.Valid() && Layout(a, lead) && AllOk(a, items)
    ensures Tokens(a, lead + TextOf(a, items), 0) == Ok(TokensOf(items) + [Eof])
  {
    ReadingReadsBack(a);
    AllIsRead(a, ReadingOf(a), lead, items);
  }

  /** Any text that writes out a grammar in normal form, however laid out, parses to that grammar. */
  lemma {:induction false} GrammarTextParses(a: Alphabet, lead: string, items: seq<Item>, productions: seq<Production>)
    requires a.Valid() && Layout(a, lead) && AllOk(a, items)
    requires productions != [] && NormalProductions(productions) && DistinctNames(productions)
    requires TokensOf(items) == RenderProductions(productions)
    ensures var r := Tokens(a, lead + TextOf(a, items), 0);
      r.Ok? && Ended(r.value) && ProductionsAt(r.value, 0, []) == Ok(productions)
  {
    WrittenIsRead(a, lead, items);
    RenderParses(productions);
  }
}

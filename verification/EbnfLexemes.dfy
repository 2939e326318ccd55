/** What stands in front of a grammar text, told from its characters, and how a text falls into it from front to end. */
module EbnfLexemes {
  import opened Base
  import opened EbnfParser
  import opened EbnfTokens

  /** `end` stands in `s` at `n`, and nowhere before that from `start` on. */
  predicate FirstAt(s: string, start: nat, end: string, n: nat) {
    && start <= n <= |s| && end <= s[n..]
    && forall k | start <= k < n :: !(end <= s[k..])
  }

  predicate Blank(a: Alphabet, s: string) {
    forall i | 0 <= i < |s| :: a.space(s[i])
  }

  /** `t` is `s` without the blanks at both ends. */
  ghost predicate Trims(a: Alphabet, s: string, t: string) {
    && (exists before, after :: s == before + t + after && Blank(a, before) && Blank(a, after))
    && (t != [] ==> !a.space(t[0]) && !a.space(t[|t| - 1]))
  }

  predicate OpensComment(s: string) {
    "(*" <= s
  }

  /** A name goes as far as it can. */
  predicate NameAt(a: Alphabet, s: string, n: nat) {
    && 0 < n <= |s| && (a.letter(s[0]) || s[0] == '_')
    && (forall i | 0 < i < n :: a.alnum(s[i]) || s[i] == '_')
    && (n < |s| ==> !a.alnum(s[n]) && s[n] != '_')
  }

  /** What a text starts with, or why it starts with nothing. */
  ghost predicate FrontIs(a: Alphabet, s: string, at: nat, front: Front)
    requires s != []
  {
    var c := s[0];
    match front
    case Pass(n) => (n == 1 && a.space(c)) || (n >= 4 && !a.space(c) && OpensComment(s) && FirstAt(s, 2, "*)", n - 2))
    case Take(Name(x), n) => NameAt(a, s, n) && x == s[..n] && !a.space(c)
    case Take(Quoted(x), n) => (c == '\'' || c == '\"') && n == |x| + 2 && FirstAt(s, 1, [c], n - 1) && x == s[1..n - 1]
    case Take(Query(x), n) => c == '?' && n >= 2 && FirstAt(s, 1, "?", n - 1) && x != [] && Trims(a, s[1..n - 1], x)
    case Take(Punct(x), n) => n == 1 && x == c && c in "=;,|[]{}()" && !OpensComment(s)
    case Take(Eof, _) => false
    case Fault(UnclosedComment(k)) => k == at && OpensComment(s) && forall n: nat :: !FirstAt(s, 2, "*)", n)
    case Fault(UnclosedTerminal(k)) => k == at && (c == '\'' || c == '\"') && forall n: nat :: !FirstAt(s, 1, [c], n)
    case Fault(UnclosedSpecial(k)) => k == at && c == '?' && forall n: nat :: !FirstAt(s, 1, "?", n)
    case Fault(EmptySpecial(k)) => k == at && c == '?' && exists n: nat :: FirstAt(s, 1, "?", n) && Blank(a, s[1..n])
    case Fault(Unexpected(x, k)) =>
      && k == at && x == c && !a.space(c) && !a.letter(c)
      && c !in "=;,|[]{}()" && c != '_' && c != '\'' && c != '\"' && c != '?'
  }

  // ------------------------------------------------------------------ searching

  lemma CharAt(s: string, c: char, n: nat)
    requires n <= |s|
    ensures [c] <= s[n..] <==> n < |s| && s[n] == c
  {
    if n < |s| && s[n] == c {
      assert s[n..][..1] == [c];
    }
  }

  lemma CharIsFound(s: string, c: char)
    requires s != []
    ensures match First(s[1..], Is(c))
      case Some(k) => FirstAt(s, 1, [c], k + 1)
      case None => forall n: nat :: !FirstAt(s, 1, [c], n)
  {
    var found := First(s[1..], Is(c));
    forall n: nat | n <= |s|
      ensures [c] <= s[n..] <==> n < |s| && s[n] == c
    {
      CharAt(s, c, n);
    }
    if found.None? {
      forall n: nat | 1 <= n < |s|
        ensures s[n] != c
      {
        assert s[1..][n - 1] == s[n] && s[n] in s[1..] && !Is(c)(s[n]);
      }
    } else {
      assert s[1..][found.value] == s[found.value + 1];
      forall k: nat | 1 <= k < found.value + 1
        ensures s[k] != c
      {
        assert s[1..][k - 1] == s[k] && !Is(c)(s[k]);
      }
    }
  }

  lemma EndsAt(s: string, n: nat)
    requires n <= |s|
    ensures "*)" <= s[n..] <==> n + 2 <= |s| && s[n] == '*' && s[n + 1] == ')'
  {
    if n + 2 <= |s| && s[n] == '*' && s[n + 1] == ')' {
      assert s[n..][..2] == "*)";
    }
  }

  lemma {:induction false} CommentEndIs(s: string)
    ensures match CommentEnd(s)
      case Some(k) =>
        k + 2 <= |s| && s[k] == '*' && s[k + 1] == ')' && forall i | 0 <= i < k :: !(s[i] == '*' && s[i + 1] == ')')
      case None => forall i | 0 <= i < |s| - 1 :: !(s[i] == '*' && s[i + 1] == ')')
  {
    if |s| >= 2 && !(s[0] == '*' && s[1] == ')') {
      CommentEndIs(s[1..]);
      assert forall i | 0 < i < |s| :: s[i] == s[1..][i - 1];
    }
  }

  lemma CommentIsFound(s: string)
    requires |s| >= 2
    ensures match CommentEnd(s[2..])
      case Some(k) => FirstAt(s, 2, "*)", k + 2)
      case None => forall n: nat :: !FirstAt(s, 2, "*)", n)
  {
    CommentEndIs(s[2..]);
    var t := s[2..];
    forall n: nat | 2 <= n <= |s|
      ensures "*)" <= s[n..] <==> n - 2 < |t| - 1 && t[n - 2] == '*' && t[n - 2 + 1] == ')'
    {
      EndsAt(s, n);
    }
  }

  // ------------------------------------------------------------------ trimming

  lemma BlankJoins(a: Alphabet, s: string, t: string)
    requires Blank(a, s) && Blank(a, t)
    ensures Blank(a, s + t)
  {
  }

  lemma Regroup(a: string, b: string, c: string)
    ensures a + (b + c) == a + b + c
  {
  }

  lemma {:induction false} StripStartDrops(a: Alphabet, s: string) returns (before: string)
    ensures s == before + StripStart(a, s) && Blank(a, before)
  {
    if s != [] && a.space(s[0]) {
      var rest := StripStartDrops(a, s[1..]);
      BlankJoins(a, [s[0]], rest);
      before := [s[0]] + rest;
      Regroup([s[0]], rest, StripStart(a, s[1..]));
    } else {
      before := [];
    }
  }

  lemma {:induction false} StripDrops(a: Alphabet, s: string) returns (before: string, after: string)
    ensures s == before + Strip(a, s) + after && Blank(a, before) && Blank(a, after)
  {
    if s != [] && a.space(s[|s| - 1]) {
      var x, y := StripDrops(a, s[..|s| - 1]);
      BlankJoins(a, y, [s[|s| - 1]]);
      before, after := x, y + [s[|s| - 1]];
      Regroup(x + Strip(a, s), y, [s[|s| - 1]]);
    } else {
      before := StripStartDrops(a, s);
      after := [];
    }
  }

  lemma {:induction false} StripStartsWell(a: Alphabet, s: string)
    ensures Strip(a, s) != [] ==> !a.space(Strip(a, s)[0])
  {
    if s != [] && a.space(s[|s| - 1]) {
      StripStartsWell(a, s[..|s| - 1]);
    } else {
      StripStarts(a, s);
    }
  }

  lemma {:induction false} StripTrims(a: Alphabet, s: string)
    ensures Trims(a, s, Strip(a, s))
  {
    var t := Strip(a, s);
    var before, after := StripDrops(a, s);
    StripStartsWell(a, s);
    assert s == before + t + after && Blank(a, before) && Blank(a, after);
  }

  lemma {:induction false} StripsToNothing(a: Alphabet, s: string)
    requires Strip(a, s) == []
    ensures Blank(a, s)
  {
    var before, after := StripDrops(a, s);
    BlankJoins(a, before, after);
    assert before + Strip(a, s) == before;
  }

  // ------------------------------------------------------------------ the front

  lemma SymbolIs(c: char)
    ensures IsSymbol(c) <==> c in "=;,|[]{}()"
  {
  }

  lemma OpensIs(s: string)
    requires s != []
    ensures OpensComment(s) <==> s[0] == '(' && |s| > 1 && s[1] == '*'
  {
    if s[0] == '(' && |s| > 1 && s[1] == '*' {
      assert s[..2] == "(*";
    }
  }

  lemma {:induction false} NameIs(a: Alphabet, s: string)
    requires s != [] && StartsName(a, s[0])
    ensures NameAt(a, s, 1 + NameLength(a, s[1..]))
  {
    var n := 1 + NameLength(a, s[1..]);
    assert forall i | 0 < i < |s| :: s[i] == s[1..][i - 1];
  }

  /** Between two question marks: what is there, trimmed, or nothing. */
  lemma QueryInside(a: Alphabet, s: string, k: nat)
    requires s != [] && FirstAt(s, 1, "?", k + 1)
    ensures var inside := s[1..1 + k];
      Trims(a, inside, Strip(a, inside)) && (Strip(a, inside) == [] ==> Blank(a, inside))
  {
    var inside := s[1..1 + k];
    StripTrims(a, inside);
    if Strip(a, inside) == [] {
      StripsToNothing(a, inside);
    }
  }

  lemma QueryFront(a: Alphabet, s: string, at: nat)
    requires a.Valid() && s != [] && s[0] == '?'
    ensures FrontIs(a, s, at, FrontOf(a, s, at))
  {
    CharIsFound(s, '?');
    var found := First(s[1..], Is('?'));
    if found.Some? {
      QueryInside(a, s, found.value);
    }
  }

  /** The front the tokenizer reads is what stands there. */
  lemma FrontIsExact(a: Alphabet, s: string, at: nat)
    requires a.Valid() && s != []
    ensures FrontIs(a, s, at, FrontOf(a, s, at))
  {
    var c := s[0];
    OpensIs(s);
    SymbolIs(c);
    if c == '?' {
      QueryFront(a, s, at);
    } else if StartsName(a, c) {
      NameIs(a, s);
    } else if c == '\'' || c == '\"' {
      CharIsFound(s, c);
    } else if OpensComment(s) {
      CommentIsFound(s);
    }
  }
}

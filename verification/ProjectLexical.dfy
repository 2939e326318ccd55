/** The brackets of a source outside its strings. */
module ProjectLexical {
  import opened Base
  import opened SourceMask

  /** A bracket, where it stands, whether it opens, and whether it is square. */
  datatype Bracket = Bracket(at: nat, opens: bool, square: bool)

  function BracketOf(c: char, at: nat): Option<Bracket> {
    if c == '(' then Some(Bracket(at, true, false))
    else if c == '[' then Some(Bracket(at, true, true))
    else if c == ')' then Some(Bracket(at, false, false))
    else if c == ']' then Some(Bracket(at, false, true))
    else None
  }

  /** The brackets among the first `n` characters that the mask leaves in. */
  function Brackets(text: string, mask: seq<bool>, n: nat): seq<Bracket>
    requires n <= |text| == |mask|
  {
    if n == 0 then []
    else
      Brackets(text, mask, n - 1)
      + match BracketOf(text[n - 1], n - 1)
        case None => []
        case Some(b) => if mask[n - 1] then [b] else []
  }

  // ------------------------------------------------------------------ balance

  predicate Closes(o: Bracket, c: Bracket) {
    o.opens && !c.opens && o.square == c.square
  }

  /** Nothing, or a bracket, something balanced, the bracket that closes it, and something balanced. */
  ghost predicate Balanced(s: seq<Bracket>)
    decreases |s|, 1
  {
    s == [] || exists i: nat :: Group(s, i)
  }

  ghost predicate Group(s: seq<Bracket>, i: nat)
    decreases |s|, 0
  {
    0 < i < |s| && Closes(s[0], s[i]) && Balanced(s[1..i]) && Balanced(s[i + 1..])
  }

  lemma {:induction false} Wrap(o: Bracket, inner: seq<Bracket>, c: Bracket, rest: seq<Bracket>)
    requires Closes(o, c) && Balanced(inner) && Balanced(rest)
    ensures Balanced([o] + inner + [c] + rest)
  {
    var s := [o] + inner + [c] + rest;
    var i := |inner| + 1;
    assert s[1..i] == inner && s[i + 1..] == rest && s[i] == c;
    assert Group(s, i);
  }

  /** A sequence about its first element and the one at `i`. */
  lemma Parts(s: seq<Bracket>, i: nat, b: seq<Bracket>)
    requires 0 < i < |s|
    ensures s + b == [s[0]] + s[1..i] + [s[i]] + (s[i + 1..] + b)
  {
  }

  lemma {:induction false} JoinBalanced(a: seq<Bracket>, b: seq<Bracket>)
    requires Balanced(a) && Balanced(b)
    ensures Balanced(a + b)
    decreases |a|
  {
    if a == [] {
      assert a + b == b;
    } else {
      var i: nat :| Group(a, i);
      JoinBalanced(a[i + 1..], b);
      Wrap(a[0], a[1..i], a[i], a[i + 1..] + b);
      Parts(a, i, b);
    }
  }

  // ------------------------------------------------------------------ the stack

  /** The brackets still open, or the first one that does not fit. */
  datatype Scan = Open(stack: seq<Bracket>) | Mismatch(at: nat)

  function Push(scan: Scan, b: Bracket): Scan {
    match scan
    case Mismatch(_) => scan
    case Open(stack) =>
      if b.opens then Open(stack + [b])
      else if stack == [] || !Closes(stack[|stack| - 1], b) then Mismatch(b.at)
      else Open(stack[..|stack| - 1])
  }

  function Scanned(s: seq<Bracket>): Scan {
    if s == [] then Open([]) else Push(Scanned(s[..|s| - 1]), s[|s| - 1])
  }

  datatype Lexical = Clean | UnclosedString | Mismatched(at: nat) | Unclosed(at: nat)

  function Verdict(unclosed: bool, scan: Scan): Lexical {
    if unclosed then UnclosedString
    else
      match scan
      case Mismatch(at) => Mismatched(at)
      case Open(stack) => if stack == [] then Clean else Unclosed(stack[0].at)
  }

  /** The scan of the first `n` characters. */
  function ScanText(text: string, mask: seq<bool>, n: nat): Scan
    requires n <= |text| == |mask|
  {
    if n == 0 then Open([])
    else
      var before, b := ScanText(text, mask, n - 1), BracketOf(text[n - 1], n - 1);
      if mask[n - 1] && b.Some? then Push(before, b.value) else before
  }

  lemma {:induction false} ScanTextIsScan(text: string, mask: seq<bool>, n: nat)
    requires n <= |text| == |mask|
    ensures ScanText(text, mask, n) == Scanned(Brackets(text, mask, n))
  {
    if n > 0 {
      ScanTextIsScan(text, mask, n - 1);
      var before, after := Brackets(text, mask, n - 1), Brackets(text, mask, n);
      assert after == before || after[..|after| - 1] == before;
    }
  }

  lemma {:induction false} MismatchStays(text: string, mask: seq<bool>, n: nat, at: nat)
    requires n <= |text| == |mask| && ScanText(text, mask, n) == Mismatch(at)
    ensures ScanText(text, mask, |text|) == Mismatch(at)
    decreases |text| - n
  {
    if n < |text| {
      MismatchStays(text, mask, n + 1, at);
    }
  }

  /** The scan with a stack, over the characters outside strings. */
  method CheckDelimiters(text: string, mask: seq<bool>, unclosed: bool) returns (verdict: Lexical)
    requires |mask| == |text|
    ensures verdict == Verdict(unclosed, Scanned(Brackets(text, mask, |text|)))
  {
    if unclosed {
      return UnclosedString;
    }
    ScanTextIsScan(text, mask, |text|);
    var stack: seq<Bracket> := [];
    for i := 0 to |text|
      invariant ScanText(text, mask, i) == Open(stack)
    {
      var b := BracketOf(text[i], i);
      if mask[i] && b.Some? {
        if b.value.opens {
          stack := stack + [b.value];
        } else if stack == [] || !Closes(stack[|stack| - 1], b.value) {
          MismatchStays(text, mask, i + 1, i);
          return Mismatched(i);
        } else {
          stack := stack[..|stack| - 1];
        }
      }
    }
    verdict := if stack == [] then Clean else Unclosed(stack[0].at);
  }

  // ------------------------------------------------------------------ what the stack finds

  /** Something balanced leaves the stack as it was. */
  lemma {:induction false} ScanBalanced(a: seq<Bracket>, w: seq<Bracket>)
    requires Scanned(a).Open? && Balanced(w)
    ensures Scanned(a + w) == Scanned(a)
    decreases |w|
  {
    if w == [] {
      assert a + w == a;
    } else {
      var i: nat :| Group(w, i);
      var outer := a + [w[0]];
      ScanOne(a, w[0]);
      ScanBalanced(outer, w[1..i]);
      ScanPair(a, w[0], outer + w[1..i], w[i]);
      ScanBalanced(outer + w[1..i] + [w[i]], w[i + 1..]);
      Strung(a, w, i);
    }
  }

  lemma Strung(a: seq<Bracket>, w: seq<Bracket>, i: nat)
    requires 0 < i < |w|
    ensures a + w == a + [w[0]] + w[1..i] + [w[i]] + w[i + 1..]
  {
  }

  /** What closes the bracket just opened leaves the stack as it was before it. */
  lemma {:induction false} ScanPair(a: seq<Bracket>, o: Bracket, inside: seq<Bracket>, c: Bracket)
    requires Scanned(a).Open? && Closes(o, c) && Scanned(inside) == Push(Scanned(a), o)
    ensures Scanned(inside + [c]) == Scanned(a)
  {
    ScanOne(inside, c);
    var stack := Scanned(a).stack;
    assert (stack + [o])[..|stack|] == stack;
  }

  lemma {:induction false} ScanOne(a: seq<Bracket>, b: Bracket)
    ensures Scanned(a + [b]) == Push(Scanned(a), b)
  {
    assert (a + [b])[..|a|] == a;
  }

  /** Balanced stretches with the brackets of the stack between them. */
  ghost predicate Layered(s: seq<Bracket>, stack: seq<Bracket>)
    decreases |stack|
  {
    if stack == [] then Balanced(s)
    else exists i: nat :: Layer(s, stack, i)
  }

  ghost predicate Layer(s: seq<Bracket>, stack: seq<Bracket>, i: nat)
    requires stack != []
    decreases |stack|, 0
  {
    && i < |s| && s[i] == stack[|stack| - 1] && s[i].opens
    && Layered(s[..i], stack[..|stack| - 1]) && Balanced(s[i + 1..])
  }

  lemma {:induction false} LayeredMore(s: seq<Bracket>, stack: seq<Bracket>, w: seq<Bracket>)
    requires Layered(s, stack) && Balanced(w)
    ensures Layered(s + w, stack)
  {
    if stack == [] {
      JoinBalanced(s, w);
    } else {
      var i: nat :| Layer(s, stack, i);
      JoinBalanced(s[i + 1..], w);
      Cut(s, w, i);
      assert Layer(s + w, stack, i);
    }
  }

  lemma Cut(s: seq<Bracket>, w: seq<Bracket>, i: nat)
    requires i < |s|
    ensures (s + w)[..i] == s[..i] && (s + w)[i] == s[i] && (s + w)[i + 1..] == s[i + 1..] + w
  {
  }

  lemma {:induction false} ScanIsLayered(s: seq<Bracket>)
    ensures Scanned(s).Open? ==> Layered(s, Scanned(s).stack)
  {
    if s != [] && Scanned(s).Open? {
      var init, b := s[..|s| - 1], s[|s| - 1];
      ScanIsLayered(init);
      var stack := Scanned(init).stack;
      assert s == init + [b];
      if b.opens {
        OpenLayer(init, stack, b);
      } else {
        CloseLayer(init, stack, b);
      }
    }
  }

  lemma {:induction false} OpenLayer(init: seq<Bracket>, stack: seq<Bracket>, b: Bracket)
    requires Layered(init, stack) && b.opens
    ensures Layered(init + [b], stack + [b])
  {
    var s, more := init + [b], stack + [b];
    assert more[..|more| - 1] == stack && s[..|init|] == init && s[|init| + 1..] == [];
    assert Layer(s, more, |init|);
  }

  lemma {:induction false} CloseLayer(init: seq<Bracket>, stack: seq<Bracket>, b: Bracket)
    requires stack != [] && Layered(init, stack) && Closes(stack[|stack| - 1], b)
    ensures Layered(init + [b], stack[..|stack| - 1])
  {
    var i: nat :| Layer(init, stack, i);
    Wrap(init[i], init[i + 1..], b, []);
    LayeredMore(init[..i], stack[..|stack| - 1], [init[i]] + init[i + 1..] + [b] + []);
    Closed(init, i, b);
  }

  lemma Closed(init: seq<Bracket>, i: nat, b: Bracket)
    requires i < |init|
    ensures init[..i] + ([init[i]] + init[i + 1..] + [b] + []) == init + [b]
  {
  }

  /** The brackets can still be completed to something balanced. */
  ghost predicate Completable(s: seq<Bracket>) {
    exists more :: Balanced(s + more)
  }

  /** Whatever is layered can be completed: by closing what is open. */
  lemma {:induction false} LayeredCompletes(s: seq<Bracket>, stack: seq<Bracket>) returns (more: seq<Bracket>)
    requires Layered(s, stack)
    ensures Balanced(s + more)
    decreases |stack|
  {
    if stack == [] {
      more := [];
      assert s + [] == s;
    } else {
      var i: nat :| Layer(s, stack, i);
      var close := Bracket(0, false, s[i].square);
      CloseLayer(s, stack, close);
      var rest := LayeredCompletes(s + [close], stack[..|stack| - 1]);
      more := [close] + rest;
      assert s + [close] + rest == s + more;
    }
  }

  lemma {:induction false} OpenPrefix(a: seq<Bracket>, b: seq<Bracket>)
    requires Scanned(a + b).Open?
    ensures Scanned(a).Open?
    decreases |b|
  {
    if b == [] {
      assert a + b == a;
    } else {
      assert (a + b)[..|a + b| - 1] == a + b[..|b| - 1];
      OpenPrefix(a, b[..|b| - 1]);
    }
  }

  /** No bracket is out of place exactly when what was read can still be completed. */
  lemma {:induction false} ScanIsExact(s: seq<Bracket>)
    ensures Scanned(s).Open? <==> Completable(s)
    ensures Scanned(s) == Open([]) <==> Balanced(s)
  {
    ScanIsLayered(s);
    if Scanned(s).Open? {
      var more := LayeredCompletes(s, Scanned(s).stack);
    }
    if Completable(s) {
      var more :| Balanced(s + more);
      ScanBalanced([], s + more);
      assert [] + (s + more) == s + more;
      OpenPrefix(s, more);
    }
    if Balanced(s) {
      ScanBalanced([], s);
      assert [] + s == s;
    }
  }

  /** The bracket after the longest balanced beginning. */
  ghost predicate StaysOpen(s: seq<Bracket>, i: int) {
    0 <= i < |s| && s[i].opens && Balanced(s[..i]) && forall j | i < j <= |s| :: !Balanced(s[..j])
  }

  /** The first bracket after which nothing could complete what was read. */
  ghost predicate Breaks(s: seq<Bracket>, i: int) {
    0 <= i < |s| && Completable(s[..i]) && !Completable(s[..i + 1])
  }

  lemma {:induction false} StaysOpenMore(s: seq<Bracket>, i: nat)
    requires s != [] && StaysOpen(s[..|s| - 1], i) && !Balanced(s)
    ensures StaysOpen(s, i)
  {
    var init := s[..|s| - 1];
    forall j | i < j <= |s|
      ensures !Balanced(s[..j])
    {
      if j < |s| {
        assert init[..j] == s[..j];
      } else {
        assert s[..j] == s;
      }
    }
    assert init[..i] == s[..i];
  }

  lemma {:induction false} OpensLast(s: seq<Bracket>)
    requires s != [] && Balanced(s[..|s| - 1]) && s[|s| - 1].opens && !Balanced(s)
    ensures StaysOpen(s, |s| - 1)
  {
    assert s[..|s|] == s;
  }

  /** The bracket reported as unclosed is the outermost open one. */
  lemma {:induction false} OutermostOpen(s: seq<Bracket>) returns (i: nat)
    requires Scanned(s).Open? && Scanned(s).stack != []
    ensures StaysOpen(s, i) && s[i] == Scanned(s).stack[0]
  {
    var init := s[..|s| - 1];
    ScanIsExact(init);
    ScanIsExact(s);
    if Scanned(init).stack == [] {
      OpensLast(s);
      i := |s| - 1;
    } else {
      i := OutermostOpen(init);
      StaysOpenMore(s, i);
    }
  }

  /** The bracket reported as a mismatch is the first that breaks what was read. */
  lemma {:induction false} FirstBreak(s: seq<Bracket>) returns (i: nat)
    requires Scanned(s).Mismatch?
    ensures Breaks(s, i) && s[i].at == Scanned(s).at
  {
    var init := s[..|s| - 1];
    ScanIsExact(init);
    ScanIsExact(s);
    if Scanned(init).Mismatch? {
      i := FirstBreak(init);
      assert init[..i] == s[..i] && init[..i + 1] == s[..i + 1];
    } else {
      i := |s| - 1;
      assert s[..|s|] == s;
    }
  }

  /**
   * A source passes exactly when no string is open and its brackets are balanced. A mismatch is reported at the first
   * bracket after which nothing could complete them, and otherwise the bracket after the longest balanced beginning.
   */
  lemma {:induction false} VerdictIsExact(text: string, mask: seq<bool>, unclosed: bool)
    requires |mask| == |text|
    ensures var s := Brackets(text, mask, |text|); var v := Verdict(unclosed, Scanned(s));
      && (v == UnclosedString <==> unclosed)
      && (v == Clean <==> !unclosed && Balanced(s))
      && (v.Mismatched? <==> !unclosed && !Completable(s))
      && (v.Mismatched? ==> exists i :: Breaks(s, i) && s[i].at == v.at)
      && (v.Unclosed? ==> exists i :: StaysOpen(s, i) && s[i].at == v.at)
  {
    var s := Brackets(text, mask, |text|);
    ScanIsExact(s);
    if Scanned(s).Mismatch? {
      var i := FirstBreak(s);
    } else if Scanned(s).stack != [] {
      var i := OutermostOpen(s);
    }
  }

  /** The brackets are the four characters outside the strings, in their order. */
  predicate IsBracket(text: string, mask: seq<bool>, n: nat, b: Bracket)
    requires n <= |text| == |mask|
  {
    && b.at < n && mask[b.at] && text[b.at] in "()[]"
    && (b.opens <==> text[b.at] in "([") && (b.square <==> text[b.at] in "[]")
  }

  lemma BracketOfIs(c: char, at: nat, b: Bracket)
    ensures BracketOf(c, at) == Some(b) <==> b.at == at && c in "()[]" && (b.opens <==> c in "([") && (b.square <==> c in "[]")
  {
  }

  lemma OneMoreBracket(text: string, mask: seq<bool>, n: nat)
    requires 0 < n <= |text| == |mask|
    ensures var b := BracketOf(text[n - 1], n - 1);
      Brackets(text, mask, n) == Brackets(text, mask, n - 1) + if b.Some? && mask[n - 1] then [b.value] else []
  {
  }

  lemma {:induction false} BracketsAre(text: string, mask: seq<bool>, n: nat, b: Bracket)
    requires n <= |text| == |mask|
    ensures b in Brackets(text, mask, n) <==> IsBracket(text, mask, n, b)
  {
    if n > 0 {
      BracketsAre(text, mask, n - 1, b);
      OneMoreBracket(text, mask, n);
      BracketOfIs(text[n - 1], n - 1, b);
    }
  }

  lemma {:induction false} BracketsIncrease(text: string, mask: seq<bool>, n: nat)
    requires n <= |text| == |mask|
    ensures forall i | 0 <= i < |Brackets(text, mask, n)| :: Brackets(text, mask, n)[i].at < n
    ensures var s := Brackets(text, mask, n); forall i, j | 0 <= i < j < |s| :: s[i].at < s[j].at
  {
    if n > 0 {
      BracketsIncrease(text, mask, n - 1);
      OneMoreBracket(text, mask, n);
    }
  }
}

/** Strings as they are written, and what of a text they cover. */
module SourceStrings {
  import opened SourceMask

  function Delimiter(multiline: bool): string {
    if multiline then "\"\"\"" else "\""
  }

  /** The first delimiter of `s` that no backslash takes away stands at `n`. */
  predicate ClosesAt(s: string, multiline: bool, n: int) {
    if Delimiter(multiline) <= s then n == 0
    else if s == [] then false
    else if s[0] == '\\' then |s| >= 2 && n >= 2 && ClosesAt(s[2..], multiline, n - 2)
    else n >= 1 && ClosesAt(s[1..], multiline, n - 1)
  }

  ghost predicate NeverCloses(s: string, multiline: bool) {
    forall n :: !ClosesAt(s, multiline, n)
  }

  /** A string starts with three quotes if it can, and with one if not; it ends with the same. */
  predicate LiteralAt(text: string, i: nat, j: int) {
    && i < |text| && text[i] == '\"'
    && var multiline := "\"\"\"" <= text[i..];
       var k := |Delimiter(multiline)|;
       i + 2 * k <= j <= |text| && ClosesAt(text[i + k..], multiline, j - i - 2 * k)
  }

  /** Nothing is outside the strings from `i` up to `j`. */
  predicate Covered(text: string, i: nat, j: int) {
    j <= |text| && forall k | i <= k < j :: !Outside(text, k)
  }

  lemma TripleIs(s: string)
    ensures Triple(s) <==> "\"\"\"" <= s
  {
    if Triple(s) {
      assert s[..3] == "\"\"\"";
    }
  }

  lemma QuoteIs(s: string)
    ensures "\"" <= s <==> s != [] && s[0] == '\"'
  {
    if s != [] && s[0] == '\"' {
      assert s[..1] == "\"";
    }
  }

  function InString(multiline: bool): Mode {
    if multiline then Multi(false) else Str(false)
  }

  lemma Rest(text: string, i: nat, k: nat)
    requires i + k <= |text|
    ensures text[i..][k..] == text[i + k..]
  {
  }

  lemma OneStep(text: string, i: nat)
    requires i < |text|
    ensures ModeAt(text, i + 1) == Step(text[i..], ModeAt(text, i))
  {
  }

  lemma PlainStep(text: string, i: nat, multiline: bool)
    requires i < |text| && ModeAt(text, i) == InString(multiline) && !(Delimiter(multiline) <= text[i..]) && text[i] != '\\'
    ensures ModeAt(text, i + 1) == InString(multiline)
  {
    TripleIs(text[i..]);
    QuoteIs(text[i..]);
    OneStep(text, i);
  }

  lemma EscapedStep(text: string, i: nat, multiline: bool)
    requires i < |text| && ModeAt(text, i) == InString(multiline) && text[i] == '\\'
    ensures !Outside(text, i)
    ensures i + 1 < |text| ==> !Outside(text, i + 1) && ModeAt(text, i + 2) == InString(multiline)
  {
    OneStep(text, i);
    assert ModeAt(text, i + 1) == if multiline then Multi(true) else Str(true);
    if i + 1 < |text| {
      OneStep(text, i + 1);
    }
  }

  /** Past one character of a string, or a backslash and what it takes away. */
  lemma InsideStep(text: string, i: nat, multiline: bool)
    requires i < |text| && ModeAt(text, i) == InString(multiline) && !(Delimiter(multiline) <= text[i..])
    ensures var n := if text[i] == '\\' then 2 else 1;
      Covered(text, i, if i + n <= |text| then i + n else |text|) && (i + n <= |text| ==> ModeAt(text, i + n) == InString(multiline))
  {
    if text[i] == '\\' {
      EscapedStep(text, i, multiline);
    } else {
      PlainStep(text, i, multiline);
    }
  }

  /** A string that is open to `i` is covered up to its end, and the text goes on outside. */
  lemma {:induction false} ClosedIsCovered(text: string, i: nat, multiline: bool, n: int)
    requires i <= |text| && ModeAt(text, i) == InString(multiline) && ClosesAt(text[i..], multiline, n)
    ensures var j := i + n + |Delimiter(multiline)|;
      j <= |text| && Covered(text, i, j) && ModeAt(text, j) == Normal
    decreases |text| - i
  {
    if Delimiter(multiline) <= text[i..] {
      TripleIs(text[i..]);
      OneStep(text, i);
      if multiline {
        ThreeSteps(text, i);
      }
    } else {
      InsideStep(text, i, multiline);
      var k := if text[i] == '\\' then 2 else 1;
      Rest(text, i, k);
      ClosedIsCovered(text, i + k, multiline, n - k);
    }
  }

  lemma StillNeverCloses(text: string, i: nat, k: nat, multiline: bool)
    requires i < |text| && !(Delimiter(multiline) <= text[i..]) && NeverCloses(text[i..], multiline)
    requires k == (if text[i] == '\\' then 2 else 1) && i + k <= |text|
    ensures NeverCloses(text[i + k..], multiline)
  {
    var rest := text[i + k..];
    if n :| ClosesAt(rest, multiline, n) {
      NoEarlier(rest, multiline, n);
      assert ClosesAt(text[i..], multiline, n + k);
    }
  }

  lemma {:induction false} UnclosedIsCovered(text: string, i: nat, multiline: bool)
    requires i <= |text| && ModeAt(text, i) == InString(multiline) && NeverCloses(text[i..], multiline)
    ensures Covered(text, i, |text|) && ModeAt(text, |text|) != Normal
    decreases |text| - i
  {
    if i < |text| {
      assert !ClosesAt(text[i..], multiline, 0);
      InsideStep(text, i, multiline);
      var k := if text[i] == '\\' then 2 else 1;
      if i + k <= |text| {
        Rest(text, i, k);
        StillNeverCloses(text, i, k, multiline);
        UnclosedIsCovered(text, i + k, multiline);
      }
    }
  }

  lemma {:induction false} NoEarlier(s: string, multiline: bool, n: int)
    requires ClosesAt(s, multiline, n)
    ensures 0 <= n && n + |Delimiter(multiline)| <= |s|
  {
    if !(Delimiter(multiline) <= s) {
      if s[0] == '\\' {
        NoEarlier(s[2..], multiline, n - 2);
      } else {
        NoEarlier(s[1..], multiline, n - 1);
      }
    }
  }

  // ------------------------------------------------------------------ the whole text

  /** Where `i` is outside the strings, `k` is a character further on that is outside them too. */
  ghost predicate PlainAt(text: string, i: nat, k: int)
    decreases |text| - i
  {
    if i >= |text| then false
    else if text[i] != '\"' then k == i || PlainAt(text, i + 1, k)
    else exists j :: i < j <= |text| && LiteralAt(text, i, j) && PlainAt(text, j, k)
  }

  lemma LiteralOpens(text: string, i: nat)
    requires i < |text| && ModeAt(text, i) == Normal && text[i] == '\"'
    ensures var multiline := "\"\"\"" <= text[i..];
      var k := |Delimiter(multiline)|;
      i + k <= |text| && Covered(text, i, i + k) && ModeAt(text, i + k) == InString(multiline)
  {
    TripleIs(text[i..]);
    OneStep(text, i);
    if Triple(text[i..]) {
      ThreeSteps(text, i);
    }
  }

  /** A string is covered, and the text goes on outside after it. */
  lemma {:induction false} LiteralIsCovered(text: string, i: nat, j: int)
    requires ModeAt(text, if i < |text| then i else |text|) == Normal && LiteralAt(text, i, j)
    ensures i < j <= |text| && Covered(text, i, j) && ModeAt(text, j) == Normal
  {
    var multiline := "\"\"\"" <= text[i..];
    var k := |Delimiter(multiline)|;
    LiteralOpens(text, i);
    ClosedIsCovered(text, i + k, multiline, j - i - 2 * k);
  }

  lemma ClosedIsLiteral(text: string, i: nat, n: int)
    requires i < |text| && text[i] == '\"'
    ensures var multiline := "\"\"\"" <= text[i..];
      var k := |Delimiter(multiline)|;
      i + k <= |text| && (ClosesAt(text[i + k..], multiline, n) ==> LiteralAt(text, i, i + 2 * k + n))
  {
    var multiline := "\"\"\"" <= text[i..];
    var k := |Delimiter(multiline)|;
    var rest := text[i + k..];
    if ClosesAt(rest, multiline, n) {
      NoEarlier(rest, multiline, n);
    }
  }

  lemma NoneNeverCloses(text: string, i: nat)
    requires i < |text| && text[i] == '\"' && forall j :: !LiteralAt(text, i, j)
    ensures var multiline := "\"\"\"" <= text[i..];
      i + |Delimiter(multiline)| <= |text| && NeverCloses(text[i + |Delimiter(multiline)|..], multiline)
  {
    var multiline := "\"\"\"" <= text[i..];
    var k := |Delimiter(multiline)|;
    var rest := text[i + k..];
    if n :| ClosesAt(rest, multiline, n) {
      ClosedIsLiteral(text, i, n);
    }
  }

  /** A quote that starts no string leaves all the rest covered. */
  lemma {:induction false} UnclosedCoversAll(text: string, i: nat)
    requires i < |text| && ModeAt(text, i) == Normal && text[i] == '\"' && forall j :: !LiteralAt(text, i, j)
    ensures Covered(text, i, |text|) && ModeAt(text, |text|) != Normal
  {
    var multiline := "\"\"\"" <= text[i..];
    var k := |Delimiter(multiline)|;
    LiteralOpens(text, i);
    NoneNeverCloses(text, i);
    UnclosedIsCovered(text, i + k, multiline);
  }

  lemma LiteralIsOne(text: string, i: nat, j: int, k: int)
    requires LiteralAt(text, i, j) && LiteralAt(text, i, k)
    ensures j == k
  {
    var multiline := "\"\"\"" <= text[i..];
    var d := |Delimiter(multiline)|;
    ClosesOnce(text[i + d..], multiline, j - i - 2 * d, k - i - 2 * d);
  }

  lemma {:induction false} ClosesOnce(s: string, multiline: bool, m: int, n: int)
    requires ClosesAt(s, multiline, m) && ClosesAt(s, multiline, n)
    ensures m == n
  {
    if !(Delimiter(multiline) <= s) {
      if s[0] == '\\' {
        ClosesOnce(s[2..], multiline, m - 2, n - 2);
      } else {
        ClosesOnce(s[1..], multiline, m - 1, n - 1);
      }
    }
  }

  lemma {:induction false} PlainIsLater(text: string, i: nat, k: int)
    requires PlainAt(text, i, k)
    ensures i <= k < |text|
    decreases |text| - i
  {
    if text[i] != '\"' {
      if k != i {
        PlainIsLater(text, i + 1, k);
      }
    } else {
      var j :| i < j <= |text| && LiteralAt(text, i, j) && PlainAt(text, j, k);
      PlainIsLater(text, j, k);
    }
  }

  lemma {:induction false} OutsideIsPlain(text: string, i: nat, k: nat)
    requires i <= k < |text| && ModeAt(text, i) == Normal
    ensures Outside(text, k) <==> PlainAt(text, i, k)
    decreases |text| - i
  {
    if text[i] != '\"' {
      OneStep(text, i);
      if k > i {
        OutsideIsPlain(text, i + 1, k);
      }
    } else if j :| LiteralAt(text, i, j) {
      LiteralIsCovered(text, i, j);
      if k >= j {
        OutsideIsPlain(text, j, k);
      } else if PlainAt(text, i, k) {
        PlainBeyond(text, i, j, k);
      }
      if PlainAt(text, i, k) {
        PlainBeyond(text, i, j, k);
      }
    } else {
      UnclosedCoversAll(text, i);
    }
  }

  lemma {:induction false} PlainBeyond(text: string, i: nat, j: nat, k: int)
    requires i < |text| && text[i] == '\"' && LiteralAt(text, i, j) && i < j <= |text| && PlainAt(text, i, k)
    ensures PlainAt(text, j, k) && j <= k
  {
    var other :| i < other <= |text| && LiteralAt(text, i, other) && PlainAt(text, other, k);
    LiteralIsOne(text, i, j, other);
    PlainIsLater(text, j, k);
  }

  /** The mask marks exactly the characters that stand outside the strings when they are taken off from the start. */
  lemma {:induction false} MaskIsExact(text: string, mask: seq<bool>)
    requires IsMask(text, mask)
    ensures forall k | 0 <= k < |text| :: mask[k] <==> PlainAt(text, 0, k)
  {
    forall k | 0 <= k < |text|
      ensures mask[k] <==> PlainAt(text, 0, k)
    {
      OutsideIsPlain(text, 0, k);
    }
  }

  /** From `i` on, every quote outside a string starts one that ends. */
  ghost predicate AllClosed(text: string, i: nat)
    decreases |text| - i
  {
    if i >= |text| then true
    else if text[i] != '\"' then AllClosed(text, i + 1)
    else exists j :: i < j <= |text| && LiteralAt(text, i, j) && AllClosed(text, j)
  }

  /** The scan ends outside exactly when every string ends. */
  lemma {:induction false} UnclosedIsExact(text: string, i: nat)
    requires i <= |text| && ModeAt(text, i) == Normal
    ensures ModeAt(text, |text|) == Normal <==> AllClosed(text, i)
    decreases |text| - i
  {
    if i < |text| {
      if text[i] != '\"' {
        OneStep(text, i);
        UnclosedIsExact(text, i + 1);
      } else if j :| LiteralAt(text, i, j) {
        LiteralIsCovered(text, i, j);
        UnclosedIsExact(text, j);
        forall k | LiteralAt(text, i, k)
          ensures k == j
        {
          LiteralIsOne(text, i, j, k);
        }
      } else {
        UnclosedCoversAll(text, i);
      }
    }
  }
}

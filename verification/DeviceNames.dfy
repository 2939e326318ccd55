/** The name kept for a device, told from the name given. */
module DeviceNames {
  import opened Base
  import opened Devices

  /** Unicode's White_Space property, by code point. */
  predicate White(n: int) {
    9 <= n <= 13 || n == 32 || n == 133 || n == 160 || n == 5760 || 8192 <= n <= 8202 || n == 8232 || n == 8233 || n == 8239
    || n == 8287 || n == 12288
  }

  predicate Blank(s: string) {
    forall i | 0 <= i < |s| :: White(s[i] as int)
  }

  /** `printable` is `name` without its control characters. */
  predicate PrintableOf(name: string, printable: string) {
    if name == [] then printable == []
    else if name[0] as int < 32 || 127 <= name[0] as int < 160 then PrintableOf(name[1..], printable)
    else printable != [] && printable[0] == name[0] && PrintableOf(name[1..], printable[1..])
  }

  /** `kept` is `s` without the blanks at both ends. */
  ghost predicate Trims(s: string, kept: string) {
    && (exists before, after :: s == before + kept + after && Blank(before) && Blank(after))
    && (kept != [] ==> !White(kept[0] as int) && !White(kept[|kept| - 1] as int))
  }

  /** `kept` is what is left of a name without control characters, cut to 64 characters, and trimmed. */
  ghost predicate Keeps(name: string, printable: string, kept: string) {
    PrintableOf(name, printable) && Trims(if |printable| > 64 then printable[..64] else printable, kept)
  }

  lemma {:induction false} FilterIsPrintable(name: string)
    ensures PrintableOf(name, Filter(name, Printable))
  {
    if name != [] {
      FilterFirst(name, Printable);
      FilterIsPrintable(name[1..]);
      var rest := Filter(name[1..], Printable);
      assert ([name[0]] + rest)[1..] == rest;
    }
  }

  lemma SpaceIsWhite(c: char)
    ensures IsSpace(c) <==> White(c as int)
  {
  }

  lemma BlankJoins(a: string, b: string)
    requires Blank(a) && Blank(b)
    ensures Blank(a + b)
  {
  }

  lemma Regroup(a: string, b: string, c: string)
    ensures a + (b + c) == a + b + c
  {
  }

  lemma {:induction false} TrimStartDrops(s: string) returns (before: string)
    ensures s == before + TrimStart(s) && Blank(before)
  {
    if s != [] && IsSpace(s[0]) {
      var rest := TrimStartDrops(s[1..]);
      SpaceIsWhite(s[0]);
      BlankJoins([s[0]], rest);
      before := [s[0]] + rest;
      Regroup([s[0]], rest, TrimStart(s[1..]));
    } else {
      before := [];
    }
  }

  lemma {:induction false} TrimEndDrops(s: string) returns (after: string)
    ensures s == TrimEnd(s) + after && Blank(after)
  {
    if s != [] && IsSpace(s[|s| - 1]) {
      var rest := TrimEndDrops(s[..|s| - 1]);
      SpaceIsWhite(s[|s| - 1]);
      BlankJoins(rest, [s[|s| - 1]]);
      after := rest + [s[|s| - 1]];
      Regroup(TrimEnd(s), rest, [s[|s| - 1]]);
    } else {
      after := [];
    }
  }

  lemma {:induction false} TrimmedEnds(s: string)
    ensures var kept := TrimEnd(TrimStart(s)); kept != [] ==> !White(kept[0] as int) && !White(kept[|kept| - 1] as int)
  {
    var left := TrimStart(s);
    var kept := TrimEnd(left);
    if kept != [] {
      assert kept[0] == left[0];
      SpaceIsWhite(kept[0]);
      SpaceIsWhite(kept[|kept| - 1]);
    }
  }

  lemma {:induction false} TrimmedIs(s: string)
    ensures Trims(s, TrimEnd(TrimStart(s)))
  {
    var left := TrimStart(s);
    TrimmedEnds(s);
    var before := TrimStartDrops(s);
    var after := TrimEndDrops(left);
    Regroup(before, TrimEnd(left), after);
  }

  /** The name kept is what is left of the name given, or the default where nothing is. */
  lemma CleanNameIs(name: string)
    ensures exists printable, kept :: Keeps(name, printable, kept) && CleanName(name) == if kept == [] then "Android device" else kept
  {
    var printable := Filter(name, Printable);
    var bounded := if |printable| > NAME_LENGTH then printable[..NAME_LENGTH] else printable;
    FilterIsPrintable(name);
    TrimmedIs(bounded);
    assert Keeps(name, printable, TrimEnd(TrimStart(bounded)));
  }
}

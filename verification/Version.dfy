/** Product versions: Semantic Versioning 2.0.0 without build metadata. */
module Version {
  import opened Base
  import opened Order
  import opened TextParts
  import Decimal

  datatype Identifier = Numeric(number: nat) | Alphanumeric(text: string)

  datatype Version = Version(major: nat, minor: nat, patch: nat, pre: seq<Identifier>)

  // ------------------------------------------------------------------ precedence

  datatype Ordering = Less | Equal | Greater

  function Flip(o: Ordering): Ordering {
    match o
    case Less => Greater
    case Equal => Equal
    case Greater => Less
  }

  function Then(o: Ordering, p: Ordering): Ordering {
    if o == Equal then p else o
  }

  function CompareNumbers(a: nat, b: nat): Ordering {
    if a < b then Less else if a == b then Equal else Greater
  }

  function CompareTexts(a: string, b: string): Ordering {
    if a == b then Equal else if StringLeq(a, b) then Less else Greater
  }

  function CompareIdentifiers(a: Identifier, b: Identifier): Ordering {
    match (a, b)
    case (Numeric(m), Numeric(n)) => CompareNumbers(m, n)
    case (Numeric(_), Alphanumeric(_)) => Less
    case (Alphanumeric(_), Numeric(_)) => Greater
    case (Alphanumeric(s), Alphanumeric(t)) => CompareTexts(s, t)
  }

  /** Identifier by identifier, and then the longer list is the greater. */
  function CompareLists(a: seq<Identifier>, b: seq<Identifier>): Ordering {
    if a == [] || b == [] then CompareNumbers(|a|, |b|)
    else Then(CompareIdentifiers(a[0], b[0]), CompareLists(a[1..], b[1..]))
  }

  /** A release comes after its pre-releases. */
  function ComparePre(a: seq<Identifier>, b: seq<Identifier>): Ordering {
    if a == [] && b == [] then Equal
    else if a == [] then Greater
    else if b == [] then Less
    else CompareLists(a, b)
  }

  function Compare(a: Version, b: Version): Ordering {
    Then(CompareNumbers(a.major, b.major),
         Then(CompareNumbers(a.minor, b.minor),
              Then(CompareNumbers(a.patch, b.patch), ComparePre(a.pre, b.pre))))
  }

  lemma IdentifiersOrdered(a: Identifier, b: Identifier, c: Identifier)
    ensures CompareIdentifiers(a, b) == Equal <==> a == b
    ensures CompareIdentifiers(b, a) == Flip(CompareIdentifiers(a, b))
    ensures CompareIdentifiers(a, b) == CompareIdentifiers(b, c) == Less ==> CompareIdentifiers(a, c) == Less
  {
    if a.Alphanumeric? && b.Alphanumeric? {
      StringLeqTotal(a.text, b.text);
      if c.Alphanumeric? && StringLeq(a.text, b.text) && StringLeq(b.text, c.text) {
        StringLeqTransitive(a.text, b.text, c.text);
        StringLeqTotal(b.text, c.text);
      }
    }
  }

  lemma {:induction false} ListsOrdered(a: seq<Identifier>, b: seq<Identifier>, c: seq<Identifier>)
    ensures CompareLists(a, b) == Equal <==> a == b
    ensures CompareLists(b, a) == Flip(CompareLists(a, b))
    ensures CompareLists(a, b) == CompareLists(b, c) == Less ==> CompareLists(a, c) == Less
    decreases |b|
  {
    if a != [] && b != [] {
      var tail := if c == [] then [] else c[1..];
      IdentifiersOrdered(a[0], b[0], if c == [] then b[0] else c[0]);
      ListsOrdered(a[1..], b[1..], tail);
      assert a == [a[0]] + a[1..] && b == [b[0]] + b[1..];
      if c != [] {
        IdentifiersOrdered(b[0], c[0], c[0]);
      }
    }
  }

  lemma PreOrdered(a: seq<Identifier>, b: seq<Identifier>, c: seq<Identifier>)
    ensures ComparePre(a, b) == Equal <==> a == b
    ensures ComparePre(b, a) == Flip(ComparePre(a, b))
    ensures ComparePre(a, b) == ComparePre(b, c) == Less ==> ComparePre(a, c) == Less
  {
    ListsOrdered(a, b, c);
  }

  /**
   * Precedence is a total order: two versions compare equal only if they are the same version, comparing the
   * other way round gives the opposite, and less than is transitive.
   */
  lemma PrecedenceIsTotal(a: Version, b: Version, c: Version)
    ensures Compare(a, b) == Equal <==> a == b
    ensures Compare(b, a) == Flip(Compare(a, b))
    ensures Compare(a, b) == Compare(b, c) == Less ==> Compare(a, c) == Less
  {
    PreOrdered(a.pre, b.pre, c.pre);
    PreOrdered(b.pre, c.pre, c.pre);
  }

  // ------------------------------------------------------------------ item 11 of Semantic Versioning

  /** Numbers by value, and any number before any text. */
  ghost predicate IdentifierBefore(a: Identifier, b: Identifier) {
    match a
    case Numeric(m) => b.Alphanumeric? || m < b.number
    case Alphanumeric(s) => b.Alphanumeric? && TextBefore(s, b.text)
  }

  ghost predicate ListBefore(a: seq<Identifier>, b: seq<Identifier>) {
    a < b || exists k: nat :: Parts(a, b, k) && IdentifierBefore(a[k], b[k])
  }

  /** By the first number that differs; where none does, a pre-release before the release, and pre-releases by their lists. */
  ghost predicate Before(a: Version, b: Version) {
    || a.major < b.major
    || (a.major == b.major && a.minor < b.minor)
    || (a.major == b.major && a.minor == b.minor && a.patch < b.patch)
    || (a.major == b.major && a.minor == b.minor && a.patch == b.patch
        && a.pre != [] && (b.pre == [] || ListBefore(a.pre, b.pre)))
  }

  lemma IdentifiersByKind(a: Identifier, b: Identifier)
    ensures CompareIdentifiers(a, b) == Less <==> IdentifierBefore(a, b)
  {
    if a.Alphanumeric? && b.Alphanumeric? {
      TextsByAscii(a.text, b.text);
    }
  }

  lemma {:induction false} ListsByIdentifier(a: seq<Identifier>, b: seq<Identifier>)
    ensures CompareLists(a, b) == Less <==> ListBefore(a, b)
  {
    if a != [] && b != [] {
      IdentifiersByKind(a[0], b[0]);
      IdentifiersOrdered(a[0], b[0], b[0]);
      if a[0] == b[0] {
        ListsByIdentifier(a[1..], b[1..]);
        PrefixTail(a, b);
        if k: nat :| Parts(a[1..], b[1..], k) && IdentifierBefore(a[1..][k], b[1..][k]) {
          PartsTail(a, b, k);
          assert Parts(a, b, k + 1) && IdentifierBefore(a[k + 1], b[k + 1]);
        }
        if k: nat :| Parts(a, b, k) && IdentifierBefore(a[k], b[k]) {
          PartsTail(a, b, k - 1);
          assert Parts(a[1..], b[1..], k - 1) && IdentifierBefore(a[1..][k - 1], b[1..][k - 1]);
        }
      } else {
        assert Parts(a, b, 0);
        assert forall k: nat | Parts(a, b, k) :: k > 0 ==> a[..k][0] == b[..k][0];
      }
    }
  }

  /** One version compares less than another exactly when item 11 puts it before. */
  lemma PrecedenceIsExact(a: Version, b: Version)
    ensures Compare(a, b) == Less <==> Before(a, b)
    ensures Compare(a, b) == Greater <==> Before(b, a)
  {
    ListsByIdentifier(a.pre, b.pre);
    ListsByIdentifier(b.pre, a.pre);
    PrecedenceIsTotal(a, b, b);
  }

  // ------------------------------------------------------------------ text

  /** A number without superfluous zeros that fits its type. */
  function ParseNumber(s: string): (r: Option<nat>)
    ensures r.Some? ==> r.value <= U64_MAX
  {
    if !Decimal.AllDigits(s) || !Decimal.Shortest(s) || Decimal.Value(s) > U64_MAX then None
    else Some(Decimal.Value(s))
  }

  predicate Allowed(c: char) {
    '0' <= c <= '9' || 'A' <= c <= 'Z' || 'a' <= c <= 'z' || c == '-'
  }

  predicate AllAllowed(s: string) {
    forall i | 0 <= i < |s| :: Allowed(s[i])
  }

  function ParseIdentifier(s: string): Option<Identifier> {
    if s == [] || !AllAllowed(s) then None
    else if Decimal.AllDigits(s) then
      match ParseNumber(s)
      case None => None
      case Some(n) => Some(Numeric(n))
    else Some(Alphanumeric(s))
  }

  function ParseIdentifiers(parts: seq<string>): (r: Option<seq<Identifier>>)
    ensures r.Some? ==> |r.value| == |parts|
  {
    if parts == [] then Some([])
    else
      match (ParseIdentifier(parts[0]), ParseIdentifiers(parts[1..]))
      case (Some(id), Some(rest)) => Some([id] + rest)
      case _ => None
  }

  function ParsePre(pre: Option<string>): Option<seq<Identifier>> {
    if pre.None? then Some([]) else ParseIdentifiers(Split(pre.value, '.'))
  }

  function Parse(text: string): Option<Version> {
    var halves := SplitOnce(text, '-');
    var core := if halves.Some? then halves.value.0 else text;
    var pre := if halves.Some? then Some(halves.value.1) else None;
    var numbers := Split(core, '.');
    if |numbers| != 3 then None
    else
      match (ParsePre(pre), ParseNumber(numbers[0]), ParseNumber(numbers[1]), ParseNumber(numbers[2]))
      case (Some(ids), Some(major), Some(minor), Some(patch)) => Some(Version(major, minor, patch, ids))
      case _ => None
  }

  function ShowIdentifier(id: Identifier): string {
    match id
    case Numeric(n) => Decimal.Text(n)
    case Alphanumeric(s) => s
  }

  function ShowIdentifiers(ids: seq<Identifier>): (r: seq<string>)
    ensures |r| == |ids|
  {
    if ids == [] then [] else [ShowIdentifier(ids[0])] + ShowIdentifiers(ids[1..])
  }

  function ShowCore(v: Version): string {
    Join([Decimal.Text(v.major), Decimal.Text(v.minor), Decimal.Text(v.patch)], '.')
  }

  function Show(v: Version): string {
    if v.pre == [] then ShowCore(v) else ShowCore(v) + ['-'] + Join(ShowIdentifiers(v.pre), '.')
  }

  /** The first `n` identifiers, as they stand in a text. */
  function ShownTo(v: Version, n: nat): string
    requires n <= |v.pre|
  {
    if n == 0 then ShowCore(v) else ShowCore(v) + ['-'] + Join(ShowIdentifiers(v.pre[..n]), '.')
  }

  lemma {:induction false} ShowPush(ids: seq<Identifier>, id: Identifier)
    ensures ShowIdentifiers(ids + [id]) == ShowIdentifiers(ids) + [ShowIdentifier(id)]
  {
    if ids == [] {
      assert ids + [id] == [id];
    } else {
      assert (ids + [id])[1..] == ids[1..] + [id];
      ShowPush(ids[1..], id);
    }
  }

  lemma ShownNext(v: Version, n: nat)
    requires n < |v.pre|
    ensures ShownTo(v, n + 1) == ShownTo(v, n) + (if n == 0 then "-" else ".") + ShowIdentifier(v.pre[n])
  {
    assert v.pre[..n + 1] == v.pre[..n] + [v.pre[n]];
    ShowPush(v.pre[..n], v.pre[n]);
    if n > 0 {
      JoinPush(ShowIdentifiers(v.pre[..n]), ShowIdentifier(v.pre[n]), '.');
    }
  }

  /** Writing a version: three numbers with points, then a hyphen and the identifiers with points. */
  method WriteVersion(v: Version) returns (text: string)
    ensures text == Show(v)
  {
    text := Decimal.Text(v.major) + "." + Decimal.Text(v.minor) + "." + Decimal.Text(v.patch);
    assert text == ShowCore(v) by {
      var major, minor, patch := Decimal.Text(v.major), Decimal.Text(v.minor), Decimal.Text(v.patch);
      JoinPush([major], minor, '.');
      JoinPush([major, minor], patch, '.');
      assert [major] + [minor] == [major, minor] && [major, minor] + [patch] == [major, minor, patch];
    }
    for i := 0 to |v.pre|
      invariant text == ShownTo(v, i)
    {
      ShownNext(v, i);
      text := text + (if i == 0 then "-" else ".") + ShowIdentifier(v.pre[i]);
    }
    assert v.pre[..|v.pre|] == v.pre;
  }

  predicate IdentifierOk(id: Identifier) {
    match id
    case Numeric(n) => n <= U64_MAX
    case Alphanumeric(s) => s != [] && AllAllowed(s) && !Decimal.AllDigits(s)
  }

  /** What a version in memory can be, if it came from a text. */
  predicate VersionOk(v: Version) {
    v.major <= U64_MAX && v.minor <= U64_MAX && v.patch <= U64_MAX && forall i | 0 <= i < |v.pre| :: IdentifierOk(v.pre[i])
  }

  lemma {:induction false} NumberBack(n: nat)
    requires n <= U64_MAX
    ensures ParseNumber(Decimal.Text(n)) == Some(n) && '.' !in Decimal.Text(n) && '-' !in Decimal.Text(n)
  {
    Decimal.ValueOfText(n);
  }

  lemma IdentifierBack(id: Identifier)
    requires IdentifierOk(id)
    ensures ParseIdentifier(ShowIdentifier(id)) == Some(id) && '.' !in ShowIdentifier(id)
  {
    if id.Numeric? {
      NumberBack(id.number);
      var s := Decimal.Text(id.number);
      assert forall i | 0 <= i < |s| :: Decimal.IsDigit(s[i]);
    }
  }

  lemma {:induction false} IdentifiersBack(ids: seq<Identifier>)
    requires forall i | 0 <= i < |ids| :: IdentifierOk(ids[i])
    ensures ParseIdentifiers(ShowIdentifiers(ids)) == Some(ids)
    ensures forall i | 0 <= i < |ids| :: '.' !in ShowIdentifiers(ids)[i]
  {
    if ids != [] {
      IdentifierBack(ids[0]);
      IdentifiersBack(ids[1..]);
      assert [ids[0]] + ids[1..] == ids;
    }
  }

  lemma CoreBack(v: Version)
    requires VersionOk(v)
    ensures '-' !in ShowCore(v)
    ensures Split(ShowCore(v), '.') == [Decimal.Text(v.major), Decimal.Text(v.minor), Decimal.Text(v.patch)]
  {
    NumberBack(v.major);
    NumberBack(v.minor);
    NumberBack(v.patch);
    var parts := [Decimal.Text(v.major), Decimal.Text(v.minor), Decimal.Text(v.patch)];
    SplitJoin(parts, '.');
    var rest := [parts[1], parts[2]];
    assert parts[1..] == rest && rest[1..] == [parts[2]];
    assert Join(rest, '.') == parts[1] + ['.'] + Join([parts[2]], '.') && Join([parts[2]], '.') == parts[2];
    assert ShowCore(v) == parts[0] + ['.'] + (parts[1] + ['.'] + parts[2]);
  }

  lemma ParseShown(v: Version)
    requires VersionOk(v)
    ensures Parse(Show(v)) == Some(v)
  {
    CoreBack(v);
    NumberBack(v.major);
    NumberBack(v.minor);
    NumberBack(v.patch);
    if v.pre == [] {
      SplitOnceSplits(Show(v), '-');
    } else {
      var ids := ShowIdentifiers(v.pre);
      SplitOnceJoined(ShowCore(v), Join(ids, '.'), '-');
      IdentifiersBack(v.pre);
      SplitJoin(ids, '.');
    }
  }

  lemma {:induction false} IdentifiersShown(parts: seq<string>)
    requires ParseIdentifiers(parts).Some?
    ensures ShowIdentifiers(ParseIdentifiers(parts).value) == parts
    ensures forall i | 0 <= i < |parts| :: IdentifierOk(ParseIdentifiers(parts).value[i])
  {
    if parts != [] {
      IdentifiersShown(parts[1..]);
      if Decimal.AllDigits(parts[0]) {
        Decimal.TextOfValue(parts[0]);
      }
      assert parts == [parts[0]] + parts[1..];
    }
  }

  lemma ShowParsed(text: string)
    requires Parse(text).Some?
    ensures VersionOk(Parse(text).value) && Show(Parse(text).value) == text
  {
    var v := Parse(text).value;
    var halves := SplitOnce(text, '-');
    SplitOnceSplits(text, '-');
    var core := if halves.Some? then halves.value.0 else text;
    var numbers := Split(core, '.');
    JoinSplit(core, '.');
    Decimal.TextOfValue(numbers[0]);
    Decimal.TextOfValue(numbers[1]);
    Decimal.TextOfValue(numbers[2]);
    assert numbers == [numbers[0], numbers[1], numbers[2]];
    if halves.Some? {
      IdentifiersShown(Split(halves.value.1, '.'));
      JoinSplit(halves.value.1, '.');
    }
  }

  /** Reading and showing are inverse to each other between the texts accepted and the versions there can be. */
  lemma ParseIsExact(text: string, v: Version)
    ensures Parse(text) == Some(v) <==> VersionOk(v) && text == Show(v)
  {
    if VersionOk(v) {
      ParseShown(v);
    }
    if Parse(text).Some? {
      ShowParsed(text);
    }
  }
}

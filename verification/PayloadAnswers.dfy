/** What a pairing text must be to be accepted, and what any other is refused for, told from its characters. */
module PayloadAnswers {
  import opened Base
  import opened Bytes
  import opened TextParts
  import opened Payload
  import B64
  import Decimal

  // ------------------------------------------------------------------ escapes

  const CAPITAL_HEX: string := "0123456789ABCDEF"
  const SMALL_HEX: string := "0123456789abcdef"

  /** What is never escaped: letters, digits, and seven marks. */
  predicate AsItIs(c: char) {
    'A' <= c <= 'Z' || 'a' <= c <= 'z' || '0' <= c <= '9' || c in "-._~:[]"
  }

  /** `t` is `s` with every byte that is not plain written as a percent sign and two hexadecimal digits. */
  predicate Encodes(s: string, t: string) {
    if s == [] then t == []
    else if AsItIs(s[0]) then t != [] && t[0] == s[0] && Encodes(s[1..], t[1..])
    else
      && |t| >= 3 && t[0] == '%' && Encodes(s[1..], t[3..])
      && exists high, low | 0 <= high < 16 && 0 <= low < 16 ::
           t[1] == CAPITAL_HEX[high] && t[2] == CAPITAL_HEX[low] && s[0] as int == 16 * high + low
  }

  predicate IsHex(c: char, v: int) {
    0 <= v < 16 && (c == CAPITAL_HEX[v] || c == SMALL_HEX[v])
  }

  /** The two characters after a percent sign stand for this byte; the first may be a plus sign. */
  predicate StandsFor(a: char, b: char, c: char) {
    exists high, low | 0 <= high < 16 && 0 <= low < 16 ::
      IsHex(b, low) && (IsHex(a, high) || (a == '+' && high == 0)) && c as int == 16 * high + low
  }

  /** `t` is `s` with every escape taken away. */
  predicate Decodes(s: string, t: string) {
    if s == [] then t == []
    else if s[0] == '%' then |s| >= 3 && t != [] && StandsFor(s[1], s[2], t[0]) && Decodes(s[3..], t[1..])
    else t != [] && t[0] == s[0] && Decodes(s[1..], t[1..])
  }

  lemma PlainIs(c: char)
    ensures Plain(c) <==> AsItIs(c)
  {
  }

  lemma HexDigitIs(v: nat)
    requires v < 16
    ensures HexDigit(v) == CAPITAL_HEX[v]
  {
  }

  lemma HexValueIs(c: char, v: nat)
    ensures HexValue(c) == Some(v) <==> IsHex(c, v)
  {
  }

  lemma HexPairIs(a: char, b: char, c: char)
    ensures HexPair(a, b) == Some(c as int) <==> StandsFor(a, b, c)
  {
    forall v: nat
      ensures HexValue(a) == Some(v) <==> IsHex(a, v)
      ensures HexValue(b) == Some(v) <==> IsHex(b, v)
    {
      HexValueIs(a, v);
      HexValueIs(b, v);
    }
    if HexPair(a, b) == Some(c as int) {
      var low := HexValue(b).value;
      var high := if a == '+' then 0 else HexValue(a).value;
      assert IsHex(b, low) && (IsHex(a, high) || (a == '+' && high == 0)) && c as int == 16 * high + low;
    }
  }

  /** Decoding gives the bytes its text stands for, where it stands for any. */
  lemma {:induction false} UnescapedIs(s: string, t: string)
    ensures Unescaped(s) == Some(t) <==> Decodes(s, t)
  {
    if s != [] {
      var n := if s[0] == '%' then 3 else 1;
      if n <= |s| && t != [] {
        UnescapedIs(s[n..], t[1..]);
        assert t == [t[0]] + t[1..];
        if n == 3 {
          HexPairIs(s[1], s[2], t[0]);
        }
      }
    }
  }

  lemma EscapedIs(c: char)
    requires c as int < 0x100 && !AsItIs(c)
    ensures Escaped(c) == ['%', CAPITAL_HEX[c as int / 16], CAPITAL_HEX[c as int % 16]]
  {
    PlainIs(c);
    HexDigitIs(c as int / 16);
    HexDigitIs(c as int % 16);
  }

  /** Encoding escapes exactly what needs it. */
  lemma {:induction false} EncodedIs(s: string)
    requires IsBytes(s)
    ensures Encodes(s, PercentEncode(s))
  {
    if s != [] {
      EncodedIs(s[1..]);
      PlainIs(s[0]);
      var rest := PercentEncode(s[1..]);
      if AsItIs(s[0]) {
        assert ([s[0]] + rest)[1..] == rest;
      } else {
        EscapedIs(s[0]);
        var t := Escaped(s[0]) + rest;
        assert t[3..] == rest;
        var high, low := s[0] as int / 16, s[0] as int % 16;
        assert t[1] == CAPITAL_HEX[high] && t[2] == CAPITAL_HEX[low] && s[0] as int == 16 * high + low;
      }
    }
  }

  // ------------------------------------------------------------------ fields

  /** The field has this key and this value. */
  ghost predicate Gives(pair: string, utf8: Utf8, key: string, value: string) {
    exists encoded :: pair == key + "=" + encoded && '=' !in key && Decodes(encoded, value) && utf8(value)
  }

  ghost predicate Readable(pair: string, utf8: Utf8) {
    exists key, value :: Gives(pair, utf8, key, value)
  }

  predicate IsSlot(key: string) {
    key == "v" || key == "pc" || key == "n" || key == "fp" || key == "c" || key == "e"
  }

  ghost predicate GivenAt(pairs: seq<string>, utf8: Utf8, i: int, key: string, value: string) {
    0 <= i < |pairs| && Gives(pairs[i], utf8, key, value)
  }

  /** The values of all fields with the key "a", in order. */
  ghost predicate AddressesAre(pairs: seq<string>, utf8: Utf8, addresses: seq<string>) {
    if pairs == [] then addresses == []
    else
      var n := |pairs| - 1;
      if exists value :: Gives(pairs[n], utf8, "a", value) then
        && addresses != [] && Gives(pairs[n], utf8, "a", addresses[|addresses| - 1])
        && AddressesAre(pairs[..n], utf8, addresses[..|addresses| - 1])
      else AddressesAre(pairs[..n], utf8, addresses)
  }

  /** One of the first `n` fields has the key. */
  ghost predicate Named(pairs: seq<string>, utf8: Utf8, n: int, key: string) {
    exists i, value :: i < n && GivenAt(pairs, utf8, i, key, value)
  }

  /** The field at `i` names a slot that one before it names. */
  ghost predicate Again(pairs: seq<string>, utf8: Utf8, i: int, key: string) {
    IsSlot(key) && (exists value :: GivenAt(pairs, utf8, i, key, value)) && Named(pairs, utf8, i, key)
  }

  ghost predicate Fine(pairs: seq<string>, utf8: Utf8, i: int) {
    0 <= i < |pairs| && Readable(pairs[i], utf8) && forall key :: !Again(pairs, utf8, i, key)
  }

  ghost predicate SlotIs(pairs: seq<string>, utf8: Utf8, key: string, value: string) {
    exists i :: GivenAt(pairs, utf8, i, key, value)
  }

  /** Every field can be read, no slot is named twice, and these are the slots and addresses named. */
  ghost predicate FieldsAre(pairs: seq<string>, utf8: Utf8, f: Fields) {
    && (forall i | 0 <= i < |pairs| :: Fine(pairs, utf8, i))
    && (forall key :: key in f.slots <==> IsSlot(key) && Named(pairs, utf8, |pairs|, key))
    && (forall key | key in f.slots :: SlotIs(pairs, utf8, key, f.slots[key]))
    && AddressesAre(pairs, utf8, f.addresses)
  }

  /** Why the field at `n` is not taken in. */
  ghost predicate Refused(pairs: seq<string>, utf8: Utf8, n: int, error: ParseError) {
    && 0 <= n < |pairs|
    && match error
       case FieldWithoutValue => '=' !in pairs[n]
       case BadlyEncoded => '=' in pairs[n] && !Readable(pairs[n], utf8)
       case NamedTwice(key) => Again(pairs, utf8, n, key)
       case _ => false
  }

  /** Where reading the fields stops, and why. */
  ghost predicate Stops(pairs: seq<string>, utf8: Utf8, n: int, error: ParseError) {
    Refused(pairs, utf8, n, error) && forall i | 0 <= i < n :: Fine(pairs, utf8, i)
  }

  /** A field's key and value, as the reader takes it apart. */
  lemma {:induction false} GivesIs(pair: string, utf8: Utf8, key: string, value: string)
    ensures Gives(pair, utf8, key, value) <==>
      match SplitOnce(pair, '=')
      case None => false
      case Some((k, encoded)) => key == k && PercentDecode(encoded, utf8) == Some(value)
  {
    SplitOnceSplits(pair, '=');
    match SplitOnce(pair, '=')
    case None =>
    case Some((k, encoded)) => UnescapedIs(encoded, value);
    if encoded :| pair == key + "=" + encoded && '=' !in key && Decodes(encoded, value) && utf8(value) {
      SplitOnceJoined(key, encoded, '=');
      assert pair == key + ['='] + encoded;
    }
  }

  lemma {:induction false} ReadableIs(pair: string, utf8: Utf8)
    ensures Readable(pair, utf8) <==> SplitOnce(pair, '=').Some? && PercentDecode(SplitOnce(pair, '=').value.1, utf8).Some?
  {
    if SplitOnce(pair, '=').Some? && PercentDecode(SplitOnce(pair, '=').value.1, utf8).Some? {
      GivesIs(pair, utf8, SplitOnce(pair, '=').value.0, PercentDecode(SplitOnce(pair, '=').value.1, utf8).value);
    }
    if key, value :| Gives(pair, utf8, key, value) {
      GivesIs(pair, utf8, key, value);
    }
  }

  lemma OneValue(pair: string, utf8: Utf8, key: string, a: string, other: string, b: string)
    requires Gives(pair, utf8, key, a) && Gives(pair, utf8, other, b)
    ensures key == other && a == b
  {
    GivesIs(pair, utf8, key, a);
    GivesIs(pair, utf8, other, b);
  }

  /** One more field names its key, and nothing else. */
  lemma NamedMore(pairs: seq<string>, utf8: Utf8, n: nat, last: string, value: string, key: string)
    requires n < |pairs| && Gives(pairs[n], utf8, last, value)
    ensures Named(pairs, utf8, n + 1, key) <==> Named(pairs, utf8, n, key) || key == last
  {
    if i, v :| i < n + 1 && GivenAt(pairs, utf8, i, key, v) {
      if i == n {
        OneValue(pairs[n], utf8, last, value, key, v);
      }
    }
    assert GivenAt(pairs, utf8, n, last, value);
  }

  lemma {:induction false} HasMark(pair: string)
    ensures SplitOnce(pair, '=').Some? <==> '=' in pair
  {
    SplitOnceSplits(pair, '=');
    match SplitOnce(pair, '=')
    case None =>
    case Some((a, b)) => assert pair[|a|] == '=';
  }

  /** The fields with one more taken in: an address at the end, a slot in its place, and any other left out. */
  function Taken(f: Fields, key: string, value: string): Fields {
    if key == "a" then Fields(f.slots, f.addresses + [value])
    else if IsSlot(key) then Fields(f.slots[key := value], f.addresses)
    else f
  }

  lemma SlotsAre(key: string)
    ensures key in SLOTS <==> IsSlot(key)
    ensures IsSlot(key) ==> key != "a"
  {
  }

  lemma FillTakes(f: Fields, pair: string, utf8: Utf8, key: string, value: string)
    requires Gives(pair, utf8, key, value)
    ensures Fill(f, pair, utf8) == if IsSlot(key) && key in f.slots then Err(NamedTwice(key)) else Ok(Taken(f, key, value))
  {
    GivesIs(pair, utf8, key, value);
    SlotsAre(key);
  }

  /** A field that can be read is fine unless it names a slot again. */
  lemma FineIs(pairs: seq<string>, utf8: Utf8, n: nat, key: string, value: string)
    requires n < |pairs| && Gives(pairs[n], utf8, key, value)
    ensures Fine(pairs, utf8, n) <==> !(IsSlot(key) && Named(pairs, utf8, n, key))
    ensures Again(pairs, utf8, n, key) <==> IsSlot(key) && Named(pairs, utf8, n, key)
  {
    assert GivenAt(pairs, utf8, n, key, value);
    assert Again(pairs, utf8, n, key) <==> IsSlot(key) && Named(pairs, utf8, n, key);
    forall other | Again(pairs, utf8, n, other)
      ensures other == key
    {
      var v :| GivenAt(pairs, utf8, n, other, v);
      OneValue(pairs[n], utf8, key, value, other, v);
    }
  }

  lemma FillRefuses(f: Fields, pairs: seq<string>, utf8: Utf8, n: nat)
    requires n < |pairs| && !Readable(pairs[n], utf8)
    ensures Fill(f, pairs[n], utf8) == Err(if '=' in pairs[n] then BadlyEncoded else FieldWithoutValue)
  {
    ReadableIs(pairs[n], utf8);
    HasMark(pairs[n]);
  }

  /** What the next field does to the fields read so far. */
  lemma FillIs(pairs: seq<string>, utf8: Utf8, n: nat, f: Fields)
    requires n < |pairs| && forall key :: key in f.slots <==> IsSlot(key) && Named(pairs, utf8, n, key)
    ensures match Fill(f, pairs[n], utf8)
      case Ok(g) => Fine(pairs, utf8, n) && exists key, value :: Gives(pairs[n], utf8, key, value) && g == Taken(f, key, value)
      case Err(error) => !Fine(pairs, utf8, n) && Refused(pairs, utf8, n, error)
  {
    if key, value :| Gives(pairs[n], utf8, key, value) {
      FillTakes(f, pairs[n], utf8, key, value);
      FineIs(pairs, utf8, n, key, value);
    } else {
      FillRefuses(f, pairs, utf8, n);
    }
  }

  /** The slots and addresses of the first `n` fields, all of which are fine. */
  ghost predicate TakenTo(pairs: seq<string>, utf8: Utf8, n: int, f: Fields)
    requires 0 <= n <= |pairs|
  {
    && (forall key :: key in f.slots <==> IsSlot(key) && Named(pairs, utf8, n, key))
    && (forall key | key in f.slots :: SlotIs(pairs, utf8, key, f.slots[key]))
    && AddressesAre(pairs[..n], utf8, f.addresses)
  }

  lemma TakenMore(pairs: seq<string>, utf8: Utf8, n: nat, f: Fields, key: string, value: string)
    requires n < |pairs| && Fine(pairs, utf8, n) && Gives(pairs[n], utf8, key, value) && TakenTo(pairs, utf8, n, f)
    ensures TakenTo(pairs, utf8, n + 1, Taken(f, key, value))
  {
    var g := Taken(f, key, value);
    SlotsAre(key);
    assert GivenAt(pairs, utf8, n, key, value);
    forall other
      ensures Named(pairs, utf8, n + 1, other) <==> Named(pairs, utf8, n, other) || other == key
    {
      NamedMore(pairs, utf8, n, key, value, other);
    }
    AddressesMore(pairs, utf8, n, f.addresses, key, value);
  }

  lemma {:induction false} AddressesMore(pairs: seq<string>, utf8: Utf8, n: nat, addresses: seq<string>, key: string, value: string)
    requires n < |pairs| && Gives(pairs[n], utf8, key, value) && AddressesAre(pairs[..n], utf8, addresses)
    ensures AddressesAre(pairs[..n + 1], utf8, if key == "a" then addresses + [value] else addresses)
  {
    assert pairs[..n + 1][..n] == pairs[..n];
    if v :| Gives(pairs[n], utf8, "a", v) {
      OneValue(pairs[n], utf8, key, value, "a", v);
      assert (addresses + [value])[..|addresses|] == addresses;
    }
  }

  /** The fields are taken in, each of them fine, or reading stops at one of them. */
  ghost predicate Read(pairs: seq<string>, utf8: Utf8, n: int, r: Result<Fields, ParseError>)
    requires 0 <= n <= |pairs|
  {
    match r
    case Ok(f) => (forall i | 0 <= i < n :: Fine(pairs, utf8, i)) && TakenTo(pairs, utf8, n, f)
    case Err(error) => exists k :: k < n && Stops(pairs, utf8, k, error)
  }

  lemma ReadMore(pairs: seq<string>, utf8: Utf8, n: nat, f: Fields)
    requires n < |pairs| && Read(pairs, utf8, n, Ok(f))
    ensures Read(pairs, utf8, n + 1, Fill(f, pairs[n], utf8))
  {
    FillIs(pairs, utf8, n, f);
    var r := Fill(f, pairs[n], utf8);
    if r.Ok? {
      var key, value :| Gives(pairs[n], utf8, key, value) && r.value == Taken(f, key, value);
      TakenMore(pairs, utf8, n, f, key, value);
    } else {
      assert Stops(pairs, utf8, n, r.error);
    }
  }

  /** The first fields are taken in exactly when each is fine, and what is taken in is what they say. */
  lemma {:induction false} FilledTo(pairs: seq<string>, utf8: Utf8, n: nat)
    requires n <= |pairs|
    ensures Read(pairs, utf8, n, FillAll(pairs[..n], utf8))
  {
    if n == 0 {
      NothingRead(pairs, utf8);
    } else {
      FilledTo(pairs, utf8, n - 1);
      var init, whole := pairs[..n - 1], pairs[..n];
      assert whole[..n - 1] == init;
      var r := FillAll(init, utf8);
      if r.Ok? {
        ReadMore(pairs, utf8, n - 1, r.value);
      } else {
        var k :| k < n - 1 && Stops(pairs, utf8, k, r.error);
      }
    }
  }

  lemma NothingRead(pairs: seq<string>, utf8: Utf8)
    ensures Read(pairs, utf8, 0, FillAll(pairs[..0], utf8))
  {
    assert pairs[..0] == [];
  }

  lemma {:induction false} OneAddressList(pairs: seq<string>, utf8: Utf8, a: seq<string>, b: seq<string>)
    requires AddressesAre(pairs, utf8, a) && AddressesAre(pairs, utf8, b)
    ensures a == b
    decreases |pairs|
  {
    if pairs != [] {
      var n := |pairs| - 1;
      if value :| Gives(pairs[n], utf8, "a", value) {
        OneValue(pairs[n], utf8, "a", a[|a| - 1], "a", b[|b| - 1]);
        OneAddressList(pairs[..n], utf8, a[..|a| - 1], b[..|b| - 1]);
      } else {
        OneAddressList(pairs[..n], utf8, a, b);
      }
    }
  }

  lemma OneSlotValue(pairs: seq<string>, utf8: Utf8, key: string, a: string, b: string)
    requires forall i | 0 <= i < |pairs| :: Fine(pairs, utf8, i)
    requires IsSlot(key) && SlotIs(pairs, utf8, key, a) && SlotIs(pairs, utf8, key, b)
    ensures a == b
  {
    var i :| GivenAt(pairs, utf8, i, key, a);
    var j :| GivenAt(pairs, utf8, j, key, b);
    FineIs(pairs, utf8, i, key, a);
    FineIs(pairs, utf8, j, key, b);
    assert i < j ==> Named(pairs, utf8, j, key);
    assert j < i ==> Named(pairs, utf8, i, key);
    OneValue(pairs[i], utf8, key, a, key, if i == j then b else a);
  }

  lemma OneReading(pairs: seq<string>, utf8: Utf8, f: Fields, g: Fields)
    requires FieldsAre(pairs, utf8, f) && FieldsAre(pairs, utf8, g)
    ensures f == g
  {
    OneAddressList(pairs, utf8, f.addresses, g.addresses);
    forall key | key in f.slots && key in g.slots
      ensures f.slots[key] == g.slots[key]
    {
      OneSlotValue(pairs, utf8, key, f.slots[key], g.slots[key]);
    }
    assert f.slots == g.slots;
  }

  /** Reading the fields gives what they say, or stops where and why it must. */
  lemma {:induction false} FieldsAreRead(pairs: seq<string>, utf8: Utf8)
    ensures var r := FillAll(pairs, utf8);
      if r.Ok? then FieldsAre(pairs, utf8, r.value)
      else (exists n :: Stops(pairs, utf8, n, r.error)) && forall f :: !FieldsAre(pairs, utf8, f)
  {
    assert pairs[..|pairs|] == pairs;
    FilledTo(pairs, utf8, |pairs|);
    var r := FillAll(pairs, utf8);
    if r.Err? {
      var n :| n < |pairs| && Stops(pairs, utf8, n, r.error);
      StopsIsNotFine(pairs, utf8, n, r.error);
    }
  }

  lemma StopsIsNotFine(pairs: seq<string>, utf8: Utf8, n: int, error: ParseError)
    requires Stops(pairs, utf8, n, error)
    ensures !Fine(pairs, utf8, n)
  {
    if error == FieldWithoutValue {
      ReadableIs(pairs[n], utf8);
      HasMark(pairs[n]);
    }
  }

  // ------------------------------------------------------------------ values

  /** Decimal digits, with a plus sign before them or none, that stand for this number. */
  predicate Writes(s: string, digits: string, n: nat) {
    && (s == digits || s == "+" + digits) && digits != [] && (forall i | 0 <= i < |digits| :: '0' <= digits[i] <= '9')
    && Decimal.AllDigits(digits) && Decimal.Value(digits) == n
  }

  /** The text is a number up to `max`. */
  ghost predicate NumberIs(s: string, max: nat, n: nat) {
    n <= max && exists digits :: Writes(s, digits, n)
  }

  lemma NumberRead(s: string, max: nat, n: nat)
    ensures ParseUnsigned(s, max) == Some(n) <==> NumberIs(s, max, n)
  {
    var digits := if |s| > 1 && s[0] == '+' then s[1..] else s;
    assert s == digits || s == "+" + digits;
    if ParseUnsigned(s, max) == Some(n) {
      assert forall i | 0 <= i < |digits| :: Decimal.IsDigit(digits[i]);
      assert Writes(s, digits, n);
    }
    if d :| Writes(s, d, n) {
      assert Decimal.IsDigit(d[0]);
      assert d == digits;
    }
  }

  predicate FingerprintIs(s: string) {
    |s| == 64 && forall i | 0 <= i < |s| :: s[i] in SMALL_HEX
  }

  lemma SmallHexIs(c: char)
    ensures LowerHex(c) <==> c in SMALL_HEX
  {
    if '0' <= c <= '9' {
      assert SMALL_HEX[c as int - '0' as int] == c;
    } else if 'a' <= c <= 'f' {
      assert SMALL_HEX[10 + c as int - 'a' as int] == c;
    }
  }

  lemma FingerprintOkIs(s: string)
    ensures FingerprintOk(s) <==> FingerprintIs(s)
  {
    forall i | 0 <= i < |s|
      ensures LowerHex(s[i]) <==> s[i] in SMALL_HEX
    {
      SmallHexIs(s[i]);
    }
  }

  /** A pairing code is how 32 bytes are written. */
  ghost predicate CodeIs(s: string) {
    exists bytes: ByteString :: |bytes| == 32 && s == B64.Encode(bytes)
  }

  lemma CodeOkIs(s: string)
    ensures CodeOk(s) <==> CodeIs(s)
  {
    if CodeOk(s) {
      B64.DecodeIsExact(s, B64.Decode(s).value);
    }
    if bytes: ByteString :| |bytes| == 32 && s == B64.Encode(bytes) {
      B64.DecodeIsExact(s, bytes);
    }
  }

  /** What is wrong first with the fields read: each is looked for and looked at in this order. */
  ghost predicate Lacks(f: Fields, error: ParseError) {
    var s := f.slots;
    if "v" !in s then error == NoVersion
    else if forall n: nat :: !NumberIs(s["v"], 4294967295, n) then error == BadVersion
    else if NumberIs(s["v"], 4294967295, 0) || NumberIs(s["v"], 4294967295, 1) then error == OlderFlow
    else if !NumberIs(s["v"], 4294967295, 2) then error.OtherVersion? && NumberIs(s["v"], 4294967295, error.version)
    else if "fp" !in s then error == NoFingerprint
    else if !FingerprintIs(s["fp"]) then error == BadFingerprint
    else if "c" !in s then error == NoCode
    else if !CodeIs(s["c"]) then error == BadCode
    else if f.addresses == [] then error == NoAddress
    else if "pc" !in s then error == NoId
    else if "e" !in s then error == NoExpiry
    else (forall n: nat :: !NumberIs(s["e"], U64_MAX, n)) && error == BadExpiry
  }

  /** Fields that say a whole payload. */
  ghost predicate Says(f: Fields, p: Payload) {
    var s := f.slots;
    && "v" in s && "fp" in s && "c" in s && "pc" in s && "e" in s && f.addresses != []
    && NumberIs(s["v"], 4294967295, 2) && FingerprintIs(s["fp"]) && CodeIs(s["c"])
    && p.version == 2 && p.fingerprint == s["fp"] && p.code == s["c"] && p.addresses == f.addresses && p.pcId == s["pc"]
    && p.pcName == (if "n" in s then s["n"] else "") && NumberIs(s["e"], U64_MAX, p.expires)
  }

  lemma NumbersRead(s: string, max: nat)
    ensures forall n: nat :: ParseUnsigned(s, max) == Some(n) <==> NumberIs(s, max, n)
  {
    forall n: nat
      ensures ParseUnsigned(s, max) == Some(n) <==> NumberIs(s, max, n)
    {
      NumberRead(s, max, n);
    }
  }

  lemma CheckedIs(f: Fields)
    ensures var r := Checked(f); if r.Ok? then Says(f, r.value) else Lacks(f, r.error)
  {
    if "v" in f.slots {
      NumbersRead(f.slots["v"], U32_MAX);
    }
    if "fp" in f.slots {
      FingerprintOkIs(f.slots["fp"]);
    }
    if "c" in f.slots {
      CodeOkIs(f.slots["c"]);
    }
    if "e" in f.slots {
      NumbersRead(f.slots["e"], U64_MAX);
    }
  }

  ghost predicate IsRefused(pairs: seq<string>, utf8: Utf8, error: ParseError) {
    (exists n :: Stops(pairs, utf8, n, error)) || exists f :: FieldsAre(pairs, utf8, f) && Lacks(f, error)
  }

  lemma LacksNothing(f: Fields, p: Payload, error: ParseError)
    requires Says(f, p)
    ensures !Lacks(f, error)
  {
    NumberRead(f.slots["v"], 4294967295, 0);
    NumberRead(f.slots["v"], 4294967295, 1);
    NumberRead(f.slots["v"], 4294967295, 2);
  }

  lemma SaysIsChecked(f: Fields, p: Payload)
    requires Says(f, p)
    ensures Checked(f) == Ok(p)
  {
    CheckedIs(f);
    if Checked(f).Err? {
      LacksNothing(f, p, Checked(f).error);
    } else {
      NumberRead(f.slots["e"], U64_MAX, p.expires);
      NumberRead(f.slots["e"], U64_MAX, Checked(f).value.expires);
    }
  }

  // ------------------------------------------------------------------ the text

  /** The text is the prefix and these fields, with ampersands between them. */
  predicate Holds(text: string, pairs: seq<string>) {
    text == "LCLPAIR|" + Join(pairs, '&') && pairs != [] && forall i | 0 <= i < |pairs| :: '&' !in pairs[i]
  }

  lemma StartsIs(text: string)
    ensures Starts(text, LEGACY) <==> "lclpair://" <= text
    ensures Starts(text, PREFIX) <==> "LCLPAIR|" <= text
  {
  }

  lemma HeldPairs(text: string)
    requires "LCLPAIR|" <= text
    ensures Holds(text, Split(text[8..], '&')) && forall pairs | Holds(text, pairs) :: pairs == Split(text[8..], '&')
  {
    JoinSplit(text[8..], '&');
    assert text == text[..8] + text[8..];
    forall pairs | Holds(text, pairs)
      ensures pairs == Split(text[8..], '&')
    {
      assert ("LCLPAIR|" + Join(pairs, '&'))[8..] == Join(pairs, '&');
      SplitJoin(pairs, '&');
    }
  }

  /** A text is accepted as a payload exactly when it is the prefix and fields, all of them fine, that say the payload. */
  lemma AcceptedExactly(text: string, utf8: Utf8, p: Payload)
    ensures ParseTrimmed(text, utf8) == Ok(p) <==>
      exists pairs, f :: Holds(text, pairs) && FieldsAre(pairs, utf8, f) && Says(f, p)
  {
    StartsIs(text);
    var r := ParseTrimmed(text, utf8);
    if "LCLPAIR|" <= text {
      HeldPairs(text);
      var pairs := Split(text[8..], '&');
      FieldsAreRead(pairs, utf8);
      if FillAll(pairs, utf8).Ok? {
        CheckedIs(FillAll(pairs, utf8).value);
      }
    }
    if pairs, f :| Holds(text, pairs) && FieldsAre(pairs, utf8, f) && Says(f, p) {
      AcceptedOnce(text, utf8, p, pairs, f);
    }
  }

  /** Fields that say this much are read so. */
  lemma {:induction false} FieldsAreFilled(pairs: seq<string>, utf8: Utf8, f: Fields)
    requires FieldsAre(pairs, utf8, f)
    ensures FillAll(pairs, utf8) == Ok(f)
  {
    FieldsAreRead(pairs, utf8);
    var r := FillAll(pairs, utf8);
    if r.Ok? {
      OneReading(pairs, utf8, f, r.value);
    }
  }

  lemma {:induction false} HeldIsParsed(text: string, utf8: Utf8, pairs: seq<string>)
    requires Holds(text, pairs)
    ensures ParseTrimmed(text, utf8) == var r := FillAll(pairs, utf8); if r.Ok? then Checked(r.value) else Err(r.error)
  {
    PrefixOf(Join(pairs, '&'));
    SplitJoin(pairs, '&');
  }

  lemma AcceptedOnce(text: string, utf8: Utf8, p: Payload, pairs: seq<string>, f: Fields)
    requires Holds(text, pairs) && FieldsAre(pairs, utf8, f) && Says(f, p)
    ensures ParseTrimmed(text, utf8) == Ok(p)
  {
    HeldIsParsed(text, utf8, pairs);
    FieldsAreFilled(pairs, utf8, f);
    SaysIsChecked(f, p);
  }

  /**
   * Any other text is refused for the first of: the older link, no prefix, a field that cannot be read or names a slot
   * again, and what the fields lack.
   */
  lemma RefusedExactly(text: string, utf8: Utf8)
    ensures var r := ParseTrimmed(text, utf8);
      r.Err? ==>
        if "lclpair://" <= text then r.error == OlderFlow
        else if !("LCLPAIR|" <= text) then r.error == NotPairingText
        else exists pairs :: Holds(text, pairs) && IsRefused(pairs, utf8, r.error)
  {
    StartsIs(text);
    if "LCLPAIR|" <= text {
      HeldPairs(text);
      var pairs := Split(text[8..], '&');
      FieldsAreRead(pairs, utf8);
      if FillAll(pairs, utf8).Ok? {
        CheckedIs(FillAll(pairs, utf8).value);
      }
    }
  }
}

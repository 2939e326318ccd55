/** Pairing text: what a pairing code says, written and read. Texts are given as their UTF-8 bytes, one to a character. */
module Payload {
  import opened Base
  import opened Bytes
  import B64
  import Decimal
  import opened TextParts

  /** Which sequences of bytes are UTF-8; all of ASCII is. */
  type Utf8 = string -> bool

  predicate IsAscii(s: string) {
    forall i | 0 <= i < |s| :: s[i] as int < 0x80
  }

  ghost predicate HoldsAscii(utf8: Utf8) {
    forall s: string | IsAscii(s) :: utf8(s)
  }

  predicate IsBytes(s: string) {
    forall i | 0 <= i < |s| :: s[i] as int < 0x100
  }

  // ------------------------------------------------------------------ percent encoding

  predicate Plain(c: char) {
    'A' <= c <= 'Z' || 'a' <= c <= 'z' || '0' <= c <= '9'
    || c == '-' || c == '.' || c == '_' || c == '~' || c == ':' || c == '[' || c == ']'
  }

  function HexDigit(v: nat): char
    requires v < 16
  {
    if v < 10 then '0' + v as char else 'A' + (v - 10) as char
  }

  function HexValue(c: char): (v: Option<nat>)
    ensures v.Some? ==> v.value < 16
  {
    if '0' <= c <= '9' then Some(c as int - '0' as int)
    else if 'A' <= c <= 'F' then Some(c as int - 'A' as int + 10)
    else if 'a' <= c <= 'f' then Some(c as int - 'a' as int + 10)
    else None
  }

  /** The byte of two hexadecimal digits, or of one after a plus sign. */
  function HexPair(a: char, b: char): (v: Option<nat>)
    ensures v.Some? ==> v.value < 256
  {
    var low := HexValue(b);
    if low.None? then None
    else if a == '+' then low
    else
      var high := HexValue(a);
      if high.None? then None else Some(16 * high.value + low.value)
  }

  function Escaped(c: char): string
    requires c as int < 0x100
  {
    if Plain(c) then [c] else ['%', HexDigit(c as int / 16), HexDigit(c as int % 16)]
  }

  function PercentEncode(s: string): string
    requires IsBytes(s)
  {
    if s == [] then [] else Escaped(s[0]) + PercentEncode(s[1..])
  }

  function Unescaped(s: string): Option<string> {
    if s == [] then Some([])
    else if s[0] == '%' then
      if |s| < 3 || HexPair(s[1], s[2]).None? then None
      else
        match Unescaped(s[3..])
        case None => None
        case Some(rest) => Some([HexPair(s[1], s[2]).value as char] + rest)
    else
      match Unescaped(s[1..])
      case None => None
      case Some(rest) => Some([s[0]] + rest)
  }

  function PercentDecode(s: string, utf8: Utf8): Option<string> {
    var bytes := Unescaped(s);
    if bytes.Some? && utf8(bytes.value) then bytes else None
  }

  lemma ValueOfHexDigit(v: nat)
    requires v < 16
    ensures HexValue(HexDigit(v)) == Some(v) && HexDigit(v) != '+'
  {
  }

  lemma EscapeRead(c: char)
    requires c as int < 0x100 && !Plain(c)
    ensures |Escaped(c)| == 3 && Escaped(c)[0] == '%' && HexPair(Escaped(c)[1], Escaped(c)[2]) == Some(c as int)
  {
    ValueOfHexDigit(c as int / 16);
    ValueOfHexDigit(c as int % 16);
  }

  lemma {:induction false} UnescapedEncoded(s: string)
    requires IsBytes(s)
    ensures Unescaped(PercentEncode(s)) == Some(s)
  {
    if s != [] {
      UnescapedEncoded(s[1..]);
      var head, rest := Escaped(s[0]), PercentEncode(s[1..]);
      if Plain(s[0]) {
        assert (head + rest)[1..] == rest;
      } else {
        EscapeRead(s[0]);
        assert (head + rest)[3..] == rest;
      }
      assert s == [s[0]] + s[1..];
    }
  }

  /** Decoding never makes a text longer, and leaves only a text without escapes as it is. */
  lemma {:induction false} UnescapedIsShorter(s: string)
    ensures '%' !in s ==> Unescaped(s) == Some(s)
    ensures Unescaped(s).Some? ==> |Unescaped(s).value| <= |s| && ('%' in s ==> |Unescaped(s).value| < |s|)
  {
    if s != [] {
      if s[0] == '%' {
        if |s| >= 3 {
          UnescapedIsShorter(s[3..]);
        }
      } else {
        UnescapedIsShorter(s[1..]);
        assert s == [s[0]] + s[1..];
      }
    }
  }

  /** An encoded text has only plain characters and escapes. */
  lemma {:induction false} EncodedIsPlain(s: string)
    requires IsBytes(s)
    ensures forall i | 0 <= i < |PercentEncode(s)| :: Plain(PercentEncode(s)[i]) || PercentEncode(s)[i] == '%'
  {
    if s != [] {
      EncodedIsPlain(s[1..]);
      assert forall c | c in Escaped(s[0]) :: Plain(c) || c == '%';
    }
  }

  // ------------------------------------------------------------------ the fields

  datatype ParseError =
    | OlderFlow | NotPairingText | FieldWithoutValue | BadlyEncoded | NamedTwice(key: string)
    | NoVersion | BadVersion | OtherVersion(version: nat) | NoFingerprint | BadFingerprint | NoCode | BadCode
    | NoAddress | NoId | NoExpiry | BadExpiry

  datatype Fields = Fields(slots: map<string, string>, addresses: seq<string>)

  const SLOTS: set<string> := {"v", "pc", "n", "fp", "c", "e"}

  /** Take in one field. */
  function Fill(f: Fields, pair: string, utf8: Utf8): Result<Fields, ParseError> {
    match SplitOnce(pair, '=')
    case None => Err(FieldWithoutValue)
    case Some((key, encoded)) =>
      match PercentDecode(encoded, utf8)
      case None => Err(BadlyEncoded)
      case Some(value) =>
        if key == "a" then Ok(f.(addresses := f.addresses + [value]))
        else if key !in SLOTS then Ok(f)
        else if key in f.slots then Err(NamedTwice(key))
        else Ok(f.(slots := f.slots[key := value]))
  }

  function FillAll(pairs: seq<string>, utf8: Utf8): Result<Fields, ParseError> {
    if pairs == [] then Ok(Fields(map[], []))
    else
      match FillAll(pairs[..|pairs| - 1], utf8)
      case Err(error) => Err(error)
      case Ok(f) => Fill(f, pairs[|pairs| - 1], utf8)
  }

  lemma {:induction false} FillMore(pairs: seq<string>, pair: string, utf8: Utf8)
    ensures FillAll(pairs + [pair], utf8) ==
      match FillAll(pairs, utf8) case Err(error) => Err(error) case Ok(f) => Fill(f, pair, utf8)
  {
    assert (pairs + [pair])[..|pairs|] == pairs;
  }

  /** A slot once filled keeps its value: a second value is an error. */
  lemma {:induction false} SlotStays(pairs: seq<string>, utf8: Utf8, i: nat, key: string, encoded: string)
    requires i < |pairs| && SplitOnce(pairs[i], '=') == Some((key, encoded)) && key in SLOTS
    requires FillAll(pairs, utf8).Ok?
    ensures key in FillAll(pairs, utf8).value.slots
    ensures Some(FillAll(pairs, utf8).value.slots[key]) == PercentDecode(encoded, utf8)
  {
    var n := |pairs| - 1;
    if i < n {
      assert pairs[..n][i] == pairs[i];
      SlotStays(pairs[..n], utf8, i, key, encoded);
    }
  }

  // ------------------------------------------------------------------ the payload

  datatype Payload = Payload(version: nat, pcId: string, pcName: string, fingerprint: string, addresses: seq<string>,
                             code: string, expires: nat)

  const PREFIX: string := "LCLPAIR|"
  const LEGACY: string := "lclpair://"
  const VERSION: nat := 2
  const U32_MAX: nat := 0xFFFF_FFFF

  /** An unsigned number as the standard library reads one: digits, with a plus sign if one likes. */
  function ParseUnsigned(s: string, max: nat): Option<nat> {
    var digits := if |s| > 1 && s[0] == '+' then s[1..] else s;
    if digits == [] || !Decimal.AllDigits(digits) || Decimal.Value(digits) > max then None
    else Some(Decimal.Value(digits))
  }

  predicate LowerHex(c: char) {
    '0' <= c <= '9' || 'a' <= c <= 'f'
  }

  predicate FingerprintOk(s: string) {
    |s| == 64 && forall i | 0 <= i < |s| :: LowerHex(s[i])
  }

  predicate CodeOk(s: string) {
    var bytes := B64.Decode(s);
    bytes.Some? && |bytes.value| == 32
  }

  /** The checks of the fields, in the order they are made. */
  function Checked(f: Fields): Result<Payload, ParseError> {
    if "v" !in f.slots then Err(NoVersion)
    else
      match ParseUnsigned(f.slots["v"], U32_MAX)
      case None => Err(BadVersion)
      case Some(version) =>
        if version < VERSION then Err(OlderFlow)
        else if version != VERSION then Err(OtherVersion(version))
        else if "fp" !in f.slots then Err(NoFingerprint)
        else if !FingerprintOk(f.slots["fp"]) then Err(BadFingerprint)
        else if "c" !in f.slots then Err(NoCode)
        else if !CodeOk(f.slots["c"]) then Err(BadCode)
        else if f.addresses == [] then Err(NoAddress)
        else if "pc" !in f.slots then Err(NoId)
        else if "e" !in f.slots then Err(NoExpiry)
        else
          match ParseUnsigned(f.slots["e"], U64_MAX)
          case None => Err(BadExpiry)
          case Some(expires) =>
            Ok(Payload(version, f.slots["pc"], if "n" in f.slots then f.slots["n"] else [], f.slots["fp"],
                       f.addresses, f.slots["c"], expires))
  }

  predicate Starts(s: string, prefix: string) {
    |prefix| <= |s| && s[..|prefix|] == prefix
  }

  function ParseTrimmed(text: string, utf8: Utf8): Result<Payload, ParseError> {
    if Starts(text, LEGACY) then Err(OlderFlow)
    else if !Starts(text, PREFIX) then Err(NotPairingText)
    else
      match FillAll(Split(text[|PREFIX|..], '&'), utf8)
      case Err(error) => Err(error)
      case Ok(f) => Checked(f)
  }

  /** Reading, field by field. */
  method Parse(text: string, trim: string -> string, utf8: Utf8) returns (r: Result<Payload, ParseError>)
    ensures r == ParseTrimmed(trim(text), utf8)
  {
    var trimmed := trim(text);
    if Starts(trimmed, LEGACY) {
      return Err(OlderFlow);
    }
    if !Starts(trimmed, PREFIX) {
      return Err(NotPairingText);
    }
    var pairs := Split(trimmed[|PREFIX|..], '&');
    var f := Fields(map[], []);
    for i := 0 to |pairs|
      invariant FillAll(pairs[..i], utf8) == Ok(f)
    {
      assert pairs[..i + 1] == pairs[..i] + [pairs[i]];
      FillMore(pairs[..i], pairs[i], utf8);
      var next := Fill(f, pairs[i], utf8);
      if next.Err? {
        FirstErrorStays(pairs, utf8, i + 1);
        return Err(next.error);
      }
      f := next.value;
    }
    assert pairs[..|pairs|] == pairs;
    r := Checked(f);
  }

  lemma {:induction false} FirstErrorStays(pairs: seq<string>, utf8: Utf8, n: nat)
    requires n <= |pairs| && FillAll(pairs[..n], utf8).Err?
    ensures FillAll(pairs, utf8) == FillAll(pairs[..n], utf8)
    decreases |pairs|
  {
    if n < |pairs| {
      assert pairs[..|pairs| - 1][..n] == pairs[..n];
      FirstErrorStays(pairs[..|pairs| - 1], utf8, n);
    } else {
      assert pairs[..n] == pairs;
    }
  }

  // ------------------------------------------------------------------ writing

  function Field(key: string, value: string): string {
    key + ['='] + value
  }

  predicate AllBytes(p: Payload) {
    IsBytes(p.pcName) && forall i | 0 <= i < |p.addresses| :: IsBytes(p.addresses[i])
  }

  function AddressFields(addresses: seq<string>): seq<string>
    requires forall i | 0 <= i < |addresses| :: IsBytes(addresses[i])
  {
    if addresses == [] then []
    else AddressFields(addresses[..|addresses| - 1]) + [Field("a", PercentEncode(addresses[|addresses| - 1]))]
  }

  function HeadFields(p: Payload): seq<string>
    requires AllBytes(p)
  {
    [Field("v", Decimal.Text(p.version)), Field("pc", p.pcId), Field("n", PercentEncode(p.pcName)), Field("fp", p.fingerprint)]
  }

  function TailFields(p: Payload): seq<string> {
    [Field("c", p.code), Field("e", Decimal.Text(p.expires))]
  }

  /** The text of a payload: its fields, with ampersands between them. */
  function ToText(p: Payload): string
    requires AllBytes(p)
  {
    PREFIX + Join(HeadFields(p) + AddressFields(p.addresses) + TailFields(p), '&')
  }

  /** The text so far is the prefix and these fields. */
  predicate Written(text: string, fields: seq<string>) {
    fields != [] && text == PREFIX + Join(fields, '&')
  }

  lemma FieldWritten(text: string, fields: seq<string>, start: string, key: string, value: string)
    requires Written(text, fields) && start == ['&'] + key + ['=']
    ensures Written(text + start + value, fields + [Field(key, value)])
  {
    JoinPush(fields, Field(key, value), '&');
    assert start + value == ['&'] + Field(key, value);
  }

  /** Writing, field by field. */
  method WriteText(p: Payload) returns (text: string)
    requires AllBytes(p)
    ensures text == ToText(p)
  {
    text := WriteHead(p);
    ghost var fields := HeadFields(p);
    for i := 0 to |p.addresses|
      invariant Written(text, fields) && fields == HeadFields(p) + AddressFields(p.addresses[..i])
    {
      assert p.addresses[..i + 1][..i] == p.addresses[..i];
      text, fields := AddField(text, fields, "&a=", "a", PercentEncode(p.addresses[i]));
    }
    assert p.addresses[..|p.addresses|] == p.addresses;
    text := WriteTail(p, text, fields);
  }

  method WriteHead(p: Payload) returns (text: string)
    requires AllBytes(p)
    ensures text == PREFIX + Join(HeadFields(p), '&')
  {
    ghost var fields := [Field("v", Decimal.Text(p.version))];
    text := PREFIX + ("v=" + Decimal.Text(p.version));
    text, fields := AddField(text, fields, "&pc=", "pc", p.pcId);
    text, fields := AddField(text, fields, "&n=", "n", PercentEncode(p.pcName));
    text, fields := AddField(text, fields, "&fp=", "fp", p.fingerprint);
    assert fields == HeadFields(p);
  }

  method WriteTail(p: Payload, before: string, ghost fields: seq<string>) returns (text: string)
    requires Written(before, fields)
    ensures text == PREFIX + Join(fields + TailFields(p), '&')
  {
    ghost var more;
    text, more := AddField(before, fields, "&c=", "c", p.code);
    text, more := AddField(text, more, "&e=", "e", Decimal.Text(p.expires));
    assert more == fields + TailFields(p);
  }

  method AddField(before: string, ghost fields: seq<string>, start: string, ghost key: string, value: string)
    returns (text: string, ghost more: seq<string>)
    requires Written(before, fields) && start == ['&'] + key + ['=']
    ensures text == before + start + value && more == fields + [Field(key, value)] && Written(text, more)
  {
    FieldWritten(before, fields, start, key, value);
    text, more := before + start + value, fields + [Field(key, value)];
  }

  // ------------------------------------------------------------------ what is read is valid

  /** What every text that is accepted says. */
  predicate Valid(p: Payload) {
    && p.version == VERSION && FingerprintOk(p.fingerprint) && CodeOk(p.code) && p.addresses != []
    && p.expires <= U64_MAX
  }

  lemma ReadIsValid(text: string, utf8: Utf8)
    ensures ParseTrimmed(text, utf8).Ok? ==> Valid(ParseTrimmed(text, utf8).value)
  {
  }

  // ------------------------------------------------------------------ reading undoes writing

  lemma {:induction false} PlainHasNone(s: string, c: char)
    requires forall i | 0 <= i < |s| :: Plain(s[i]) || s[i] == '%'
    requires !Plain(c) && c != '%'
    ensures c !in s
  {
  }

  /** Every field is written without an ampersand of its own. */
  predicate Clean(pcId: string) {
    '&' !in pcId && '%' !in pcId
  }

  lemma {:induction false} CodeIsPlain(code: string)
    requires B64.Decode(code).Some?
    ensures forall i | 0 <= i < |code| :: Plain(code[i])
  {
    if code != [] {
      var n := B64.Min(4, |code|);
      var group := code[..n];
      CodeIsPlain(code[n..]);
      forall i | 0 <= i < |code|
        ensures Plain(code[i])
      {
        if i < n {
          assert B64.SymbolBits(group).Some?;
          assert B64.Value(group[i]).Some?;
          assert code[i] == group[i];
        } else {
          assert code[i] == code[n..][i - n];
        }
      }
    }
  }

  /** A value written as it is comes back as it is. */
  lemma DecodePlain(s: string, utf8: Utf8)
    requires HoldsAscii(utf8) && forall i | 0 <= i < |s| :: Plain(s[i])
    ensures PercentDecode(s, utf8) == Some(s) && '&' !in s
  {
    UnescapedIsShorter(s);
    assert IsAscii(s);
  }

  lemma {:induction false} DecodeNumber(n: nat, max: nat, utf8: Utf8)
    requires HoldsAscii(utf8) && n <= max
    ensures PercentDecode(Decimal.Text(n), utf8) == Some(Decimal.Text(n)) && '&' !in Decimal.Text(n)
    ensures ParseUnsigned(Decimal.Text(n), max) == Some(n)
  {
    var s := Decimal.Text(n);
    assert forall i | 0 <= i < |s| :: Decimal.IsDigit(s[i]);
    DecodePlain(s, utf8);
    Decimal.ValueOfText(n);
  }

  lemma {:induction false} DecodeEncoded(s: string, utf8: Utf8)
    requires IsBytes(s) && utf8(s)
    ensures PercentDecode(PercentEncode(s), utf8) == Some(s) && '&' !in PercentEncode(s)
  {
    UnescapedEncoded(s);
    EncodedIsPlain(s);
    PlainHasNone(PercentEncode(s), '&');
  }

  lemma FillField(f: Fields, key: string, encoded: string, value: string, utf8: Utf8)
    requires '=' !in key && PercentDecode(encoded, utf8) == Some(value)
    ensures key == "a" ==> Fill(f, Field(key, encoded), utf8) == Ok(f.(addresses := f.addresses + [value]))
    ensures key in SLOTS && key !in f.slots && key != "a" ==> Fill(f, Field(key, encoded), utf8) == Ok(f.(slots := f.slots[key := value]))
  {
    SplitOnceJoined(key, encoded, '=');
  }

  /** The texts of a payload are texts of the host: bytes that are UTF-8. */
  ghost predicate Texts(p: Payload, utf8: Utf8) {
    && AllBytes(p) && utf8(p.pcName) && utf8(p.pcId)
    && forall i | 0 <= i < |p.addresses| :: utf8(p.addresses[i])
  }

  /** One more slot filled. */
  lemma {:induction false} FillSlot(pairs: seq<string>, f: Fields, key: string, encoded: string, value: string, utf8: Utf8)
    requires key in SLOTS && key !in f.slots && '=' !in key && PercentDecode(encoded, utf8) == Some(value)
    requires FillAll(pairs, utf8) == Ok(f)
    ensures FillAll(pairs + [Field(key, encoded)], utf8) == Ok(f.(slots := f.slots[key := value]))
  {
    FillField(f, key, encoded, value, utf8);
    FillMore(pairs, Field(key, encoded), utf8);
  }

  /** Two more slots filled. */
  lemma {:induction false} FillTwo(pairs: seq<string>, f: Fields, key1: string, encoded1: string, value1: string,
                                   key2: string, encoded2: string, value2: string, utf8: Utf8)
    requires key1 in SLOTS && key1 !in f.slots && '=' !in key1 && PercentDecode(encoded1, utf8) == Some(value1)
    requires key2 in SLOTS && key2 !in f.slots && '=' !in key2 && PercentDecode(encoded2, utf8) == Some(value2)
    requires key1 != key2 && FillAll(pairs, utf8) == Ok(f)
    ensures FillAll(pairs + [Field(key1, encoded1), Field(key2, encoded2)], utf8)
         == Ok(f.(slots := f.slots[key1 := value1][key2 := value2]))
  {
    var more := pairs + [Field(key1, encoded1)];
    FillSlot(pairs, f, key1, encoded1, value1, utf8);
    FillSlot(more, f.(slots := f.slots[key1 := value1]), key2, encoded2, value2, utf8);
    assert pairs + [Field(key1, encoded1), Field(key2, encoded2)] == more + [Field(key2, encoded2)];
  }

  lemma FillFirstTwo(p: Payload, utf8: Utf8)
    requires HoldsAscii(utf8) && Texts(p, utf8) && Valid(p) && Clean(p.pcId)
    ensures FillAll(HeadFields(p)[..2], utf8) == Ok(Fields(map["v" := Decimal.Text(p.version)]["pc" := p.pcId], []))
    ensures '&' !in HeadFields(p)[0] && '&' !in HeadFields(p)[1]
  {
    DecodeNumber(p.version, U32_MAX, utf8);
    UnescapedIsShorter(p.pcId);
    FillTwo([], Fields(map[], []), "v", Decimal.Text(p.version), Decimal.Text(p.version), "pc", p.pcId, p.pcId, utf8);
    assert HeadFields(p)[..2] == [] + [Field("v", Decimal.Text(p.version)), Field("pc", p.pcId)];
  }

  lemma FillHead(p: Payload, utf8: Utf8)
    requires HoldsAscii(utf8) && Texts(p, utf8) && Valid(p) && Clean(p.pcId)
    ensures FillAll(HeadFields(p), utf8) == Ok(Fields(HeadSlots(p), []))
    ensures forall i | 0 <= i < 4 :: '&' !in HeadFields(p)[i]
  {
    FillFirstTwo(p, utf8);
    DecodeEncoded(p.pcName, utf8);
    DecodePlain(p.fingerprint, utf8);
    var first := HeadFields(p)[..2];
    var f := Fields(map["v" := Decimal.Text(p.version)]["pc" := p.pcId], []);
    FillTwo(first, f, "n", PercentEncode(p.pcName), p.pcName, "fp", p.fingerprint, p.fingerprint, utf8);
    assert HeadFields(p) == first + [Field("n", PercentEncode(p.pcName)), Field("fp", p.fingerprint)];
  }

  function HeadSlots(p: Payload): map<string, string> {
    map["v" := Decimal.Text(p.version)]["pc" := p.pcId]["n" := p.pcName]["fp" := p.fingerprint]
  }

  /** The field adds this address to whatever was taken in before. */
  ghost predicate Adds(pair: string, address: string, utf8: Utf8) {
    forall f: Fields :: Fill(f, pair, utf8) == Ok(f.(addresses := f.addresses + [address]))
  }

  lemma {:induction false} AddressAdds(address: string, utf8: Utf8)
    requires IsBytes(address) && utf8(address)
    ensures Adds(Field("a", PercentEncode(address)), address, utf8)
  {
    DecodeEncoded(address, utf8);
    forall f: Fields
      ensures Fill(f, Field("a", PercentEncode(address)), utf8) == Ok(f.(addresses := f.addresses + [address]))
    {
      FillField(f, "a", PercentEncode(address), address, utf8);
    }
  }

  lemma {:induction false} FillAdded(head: seq<string>, f: Fields, pairs: seq<string>, addresses: seq<string>, utf8: Utf8)
    requires FillAll(head, utf8) == Ok(f) && |pairs| == |addresses|
    requires forall i | 0 <= i < |pairs| :: Adds(pairs[i], addresses[i], utf8)
    ensures FillAll(head + pairs, utf8) == Ok(f.(addresses := f.addresses + addresses))
    decreases |pairs|
  {
    if pairs == [] {
      assert head + pairs == head && f.addresses + addresses == f.addresses;
    } else {
      var n := |pairs| - 1;
      var before := head + pairs[..n];
      var g := f.(addresses := f.addresses + addresses[..n]);
      assert FillAll(before, utf8) == Ok(g) by {
        FillAdded(head, f, pairs[..n], addresses[..n], utf8);
      }
      AddOne(before, g, pairs[n], addresses[n], utf8);
      LastOf(head, pairs);
      LastOf(f.addresses, addresses);
    }
  }

  lemma {:induction false} AddOne(pairs: seq<string>, f: Fields, pair: string, address: string, utf8: Utf8)
    requires FillAll(pairs, utf8) == Ok(f) && Adds(pair, address, utf8)
    ensures FillAll(pairs + [pair], utf8) == Ok(f.(addresses := f.addresses + [address]))
  {
    FillMore(pairs, pair, utf8);
    assert Fill(f, pair, utf8) == Ok(f.(addresses := f.addresses + [address]));
  }

  lemma LastOf(a: seq<string>, s: seq<string>)
    requires s != []
    ensures a + s == a + s[..|s| - 1] + [s[|s| - 1]]
  {
  }

  lemma {:induction false} AddressFieldAt(addresses: seq<string>)
    requires forall i | 0 <= i < |addresses| :: IsBytes(addresses[i])
    ensures |AddressFields(addresses)| == |addresses|
    ensures forall i | 0 <= i < |addresses| :: AddressFields(addresses)[i] == Field("a", PercentEncode(addresses[i]))
    decreases |addresses|
  {
    if addresses != [] {
      AddressFieldAt(addresses[..|addresses| - 1]);
    }
  }

  lemma {:induction false} FillAddresses(head: seq<string>, slots: map<string, string>, addresses: seq<string>, utf8: Utf8)
    requires FillAll(head, utf8) == Ok(Fields(slots, []))
    requires forall i | 0 <= i < |addresses| :: IsBytes(addresses[i]) && utf8(addresses[i])
    ensures FillAll(head + AddressFields(addresses), utf8) == Ok(Fields(slots, addresses))
  {
    var pairs := AddressFields(addresses);
    AddressFieldAt(addresses);
    forall i | 0 <= i < |pairs|
      ensures Adds(pairs[i], addresses[i], utf8)
    {
      AddressAdds(addresses[i], utf8);
    }
    FillAdded(head, Fields(slots, []), pairs, addresses, utf8);
    assert [] + addresses == addresses;
  }

  lemma {:induction false} AddressesClean(addresses: seq<string>)
    requires forall i | 0 <= i < |addresses| :: IsBytes(addresses[i])
    ensures forall i | 0 <= i < |AddressFields(addresses)| :: '&' !in AddressFields(addresses)[i]
  {
    AddressFieldAt(addresses);
    forall i | 0 <= i < |addresses|
      ensures '&' !in AddressFields(addresses)[i]
    {
      EncodedIsPlain(addresses[i]);
      PlainHasNone(PercentEncode(addresses[i]), '&');
    }
  }

  lemma {:induction false} FillTail(f: Fields, pairs: seq<string>, p: Payload, utf8: Utf8)
    requires HoldsAscii(utf8) && Valid(p) && FillAll(pairs, utf8) == Ok(f) && "c" !in f.slots && "e" !in f.slots
    ensures FillAll(pairs + TailFields(p), utf8) == Ok(f.(slots := f.slots["c" := p.code]["e" := Decimal.Text(p.expires)]))
    ensures forall i | 0 <= i < 2 :: '&' !in TailFields(p)[i]
  {
    CodeIsPlain(p.code);
    DecodePlain(p.code, utf8);
    DecodeNumber(p.expires, U64_MAX, utf8);
    FillTwo(pairs, f, "c", p.code, p.code, "e", Decimal.Text(p.expires), Decimal.Text(p.expires), utf8);
  }

  /** A valid payload with a clean id is read back from its text. */
  lemma ReadBack(p: Payload, utf8: Utf8)
    requires HoldsAscii(utf8) && Texts(p, utf8) && Valid(p) && Clean(p.pcId)
    ensures ParseTrimmed(ToText(p), utf8) == Ok(p)
  {
    var head, addresses := HeadFields(p), AddressFields(p.addresses);
    FillHead(p, utf8);
    FillAddresses(head, HeadSlots(p), p.addresses, utf8);
    AddressesClean(p.addresses);
    FillTail(Fields(HeadSlots(p), p.addresses), head + addresses, p, utf8);
    AllClean(head, addresses, TailFields(p));
    SplitJoin(head + addresses + TailFields(p), '&');
    PrefixOf(Join(head + addresses + TailFields(p), '&'));
    CheckedBack(p, utf8);
  }

  lemma AllClean(a: seq<string>, b: seq<string>, c: seq<string>)
    requires forall i | 0 <= i < |a| :: '&' !in a[i]
    requires forall i | 0 <= i < |b| :: '&' !in b[i]
    requires forall i | 0 <= i < |c| :: '&' !in c[i]
    ensures forall i | 0 <= i < |a + b + c| :: '&' !in (a + b + c)[i]
  {
  }

  lemma CheckedBack(p: Payload, utf8: Utf8)
    requires HoldsAscii(utf8) && Valid(p)
    ensures Checked(Fields(HeadSlots(p)["c" := p.code]["e" := Decimal.Text(p.expires)], p.addresses)) == Ok(p)
  {
    DecodeNumber(p.version, U32_MAX, utf8);
    DecodeNumber(p.expires, U64_MAX, utf8);
  }

  lemma PrefixOf(rest: string)
    ensures Starts(PREFIX + rest, PREFIX) && !Starts(PREFIX + rest, LEGACY) && (PREFIX + rest)[|PREFIX|..] == rest
  {
    assert (PREFIX + rest)[0] == 'L' && LEGACY[0] == 'l';
  }

  /** The second field of any payload's text is its id, up to the first ampersand. */
  lemma SecondField(p: Payload)
    requires AllBytes(p)
    ensures var split := Split(ToText(p)[|PREFIX|..], '&');
      |split| > 1 && split[1] == Field("pc", Before(p.pcId, '&'))
  {
    var head := HeadFields(p);
    var pairs := head + AddressFields(p.addresses) + TailFields(p);
    PrefixOf(Join(pairs, '&'));
    var rest := Join(pairs[2..], '&');
    var after := head[1] + ['&'] + rest;
    assert pairs[1..][1..] == pairs[2..];
    assert Join(pairs[1..], '&') == after;
    assert Join(pairs, '&') == head[0] + ['&'] + after;
    VersionHasNone(p.version);
    SplitFirst(head[0], after, '&');
    SplitHead(head[1], rest, '&');
    BeforeField(p.pcId);
  }

  /** Any text read back as the payload it was written from has a clean id. */
  lemma ReadBackIsClean(p: Payload, utf8: Utf8)
    requires AllBytes(p) && ParseTrimmed(ToText(p), utf8) == Ok(p)
    ensures Clean(p.pcId)
  {
    var split, id := Split(ToText(p)[|PREFIX|..], '&'), Before(p.pcId, '&');
    SecondField(p);
    SplitOnceJoined("pc", id, '=');
    SlotStays(split, utf8, 1, "pc", id);
    UnescapedIsShorter(id);
  }

  lemma {:induction false} VersionHasNone(n: nat)
    ensures '&' !in Field("v", Decimal.Text(n))
  {
    assert forall i | 0 <= i < |Decimal.Text(n)| :: Decimal.IsDigit(Decimal.Text(n)[i]);
  }

  lemma {:induction false} BeforeField(id: string)
    ensures Before(Field("pc", id), '&') == Field("pc", Before(id, '&'))
  {
    BeforeJoined("pc" + ['='], id, '&');
  }

  /** A payload is read back from its text exactly when it is valid and its id needs no escape. */
  lemma RoundTrip(p: Payload, utf8: Utf8)
    requires HoldsAscii(utf8) && Texts(p, utf8)
    ensures ParseTrimmed(ToText(p), utf8) == Ok(p) <==> Valid(p) && Clean(p.pcId)
  {
    if Valid(p) && Clean(p.pcId) {
      ReadBack(p, utf8);
    }
    if ParseTrimmed(ToText(p), utf8) == Ok(p) {
      ReadIsValid(ToText(p), utf8);
      ReadBackIsClean(p, utf8);
    }
  }

  lemma {:induction false} JoinEnds(parts: seq<string>, with: char)
    requires parts != [] && parts[|parts| - 1] != []
    ensures var s, last := Join(parts, with), parts[|parts| - 1]; s != [] && s[|s| - 1] == last[|last| - 1]
  {
    if |parts| > 1 {
      JoinEnds(parts[1..], with);
    }
  }

  /** Nothing would be trimmed from a payload's text: it starts with a letter and ends with a digit. */
  lemma NothingToTrim(p: Payload)
    requires AllBytes(p)
    ensures var s := ToText(p); s != [] && s[0] == 'L' && Decimal.IsDigit(s[|s| - 1])
  {
    var pairs := HeadFields(p) + AddressFields(p.addresses) + TailFields(p);
    var digits := Decimal.Text(p.expires);
    assert pairs[|pairs| - 1] == Field("e", digits);
    assert Field("e", digits)[|Field("e", digits)| - 1] == digits[|digits| - 1];
    JoinEnds(pairs, '&');
  }
}

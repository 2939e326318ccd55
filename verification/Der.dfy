/** Distinguished Encoding Rules, as far as certificates need them. */
module Der {
  import opened Base
  import opened Bytes

  const SEQUENCE: Byte := 0x30
  const INTEGER: Byte := 0x02
  const BIT_STRING: Byte := 0x03
  const OID: Byte := 0x06
  const VERSION: Byte := 0xa0

  const OID_EC_PUBLIC_KEY: ByteString := [0x2a, 0x86, 0x48, 0xce, 0x3d, 0x02, 0x01]
  const OID_PRIME256V1: ByteString := [0x2a, 0x86, 0x48, 0xce, 0x3d, 0x03, 0x01, 0x07]

  /** A machine word holds every length. */
  const WORD: nat := 0x1_0000_0000_0000_0000

  // ------------------------------------------------------------------ writing

  function LengthBytes(length: nat): ByteString
    requires length < WORD
  {
    if length < 0x80 then [length]
    else
      assert |Digits(length)| <= 8 by {
        DigitsFit(length, 8);
        assert Power(8) == WORD;
      }
      [0x80 + |Digits(length)|] + Digits(length)
  }

  /** One element: tag, length and value. */
  function Tlv(tag: Byte, value: ByteString): ByteString
    requires |value| < WORD
  {
    [tag] + LengthBytes(|value|) + value
  }

  // ------------------------------------------------------------------ reading

  datatype Element = Element(tag: Byte, value: ByteString, encoded: ByteString)

  /** The length at the front of `s` and how many bytes it takes; none if it is indefinite or takes over five. */
  function ReadLength(s: ByteString): Option<(nat, nat)> {
    if s == [] then None
    else if s[0] < 0x80 then Some((s[0], 1))
    else
      var count := s[0] - 0x80;
      if count == 0 || count > 4 || |s| - 1 < count then None
      else Some((Number(s[1..1 + count]), 1 + count))
  }

  /** The first element that `input` starts with, and what follows it. */
  function Read(input: ByteString): Option<(Element, ByteString)> {
    if input == [] || input[0] % 32 == 31 then None
    else
      match ReadLength(input[1..])
      case None => None
      case Some((length, taken)) =>
        var header := 1 + taken;
        if |input| - header < length then None
        else Some((Element(input[0], input[header..header + length], input[..header + length]), input[header + length..]))
  }

  /** The loop over the bytes of a long length gives their number. */
  method LongLength(bytes: ByteString) returns (length: nat)
    ensures length == Number(bytes)
  {
    length := 0;
    for i := 0 to |bytes|
      invariant length == Number(bytes[..i])
    {
      assert bytes[..i + 1][..i] == bytes[..i];
      length := length * 256 + bytes[i];
    }
    assert bytes[..|bytes|] == bytes;
  }

  /** An element read is the front of the input, and its value is the end of its encoding. */
  lemma ReadSplits(input: ByteString)
    ensures Read(input).Some? ==>
      var (e, rest) := Read(input).value;
      && input == e.encoded + rest && e.encoded != [] && e.tag == e.encoded[0]
      && |e.value| < |e.encoded| && e.value == e.encoded[|e.encoded| - |e.value|..]
  {
  }

  /** Bytes that give a length: one below 128, or a count of one to four and so many bytes of the number. */
  predicate GivesLength(bytes: ByteString, length: nat) {
    || (length < 128 && bytes == [length])
    || (2 <= |bytes| <= 5 && bytes[0] as int == 128 + |bytes| - 1 && Number(bytes[1..]) == length)
  }

  /** An element is a tag of one byte, its length, and so many bytes; anything may follow. */
  ghost predicate IsElement(e: Element) {
    e.tag % 32 != 31 && exists length :: GivesLength(length, |e.value|) && e.encoded == [e.tag] + length + e.value
  }

  lemma LengthIsRead(s: ByteString, length: ByteString, n: nat)
    requires GivesLength(length, n) && length <= s
    ensures ReadLength(s) == Some((n, |length|))
  {
    if length != [n] {
      assert s[1..|length|] == length[1..];
    }
  }

  lemma ReadGivesLength(s: ByteString)
    ensures ReadLength(s).Some? ==>
      var (n, taken) := ReadLength(s).value; 0 < taken <= |s| && GivesLength(s[..taken], n)
  {
    if ReadLength(s).Some? {
      var (n, taken) := ReadLength(s).value;
      assert s[..taken][1..] == s[1..taken];
    }
  }

  /** What is read is exactly an element at the front, and what follows it. */
  lemma ReadExactly(input: ByteString, e: Element, rest: ByteString)
    ensures Read(input) == Some((e, rest)) <==> input == e.encoded + rest && IsElement(e)
  {
    if Read(input) == Some((e, rest)) {
      ReadGivesLength(input[1..]);
      var (n, taken) := ReadLength(input[1..]).value;
      assert input[..1 + taken + n] == [input[0]] + input[1..][..taken] + input[1 + taken..1 + taken + n];
    }
    if input == e.encoded + rest && IsElement(e) {
      var length :| GivesLength(length, |e.value|) && e.encoded == [e.tag] + length + e.value;
      ElementIsRead(input, e.tag, length, e.value, rest);
    }
  }

  lemma ElementIsRead(input: ByteString, tag: Byte, length: ByteString, value: ByteString, rest: ByteString)
    requires tag % 32 != 31 && GivesLength(length, |value|) && input == [tag] + length + value + rest
    ensures Read(input) == Some((Element(tag, value, [tag] + length + value), rest))
  {
    var header := 1 + |length|;
    assert input[1..] == length + (value + rest);
    LengthIsRead(input[1..], length, |value|);
    assert input[header..header + |value|] == value;
    assert input[..header + |value|] == [tag] + length + value;
    assert input[header + |value|..] == rest;
  }

  /** The elements a value is made of, without those nested in them. */
  function Children(value: ByteString): Option<seq<Element>> {
    if value == [] then Some([])
    else
      match Read(value)
      case None => None
      case Some((e, rest)) =>
        ReadSplits(value);
        match Children(rest)
        case None => None
        case Some(others) => Some([e] + others)
  }

  /** The loop over the elements of a value. */
  method ReadChildren(value: ByteString) returns (out: Option<seq<Element>>)
    ensures out == Children(value)
  {
    var left, found: seq<Element> := value, [];
    assert Children(value).Some? ==> [] + Children(value).value == Children(value).value;
    while left != []
      invariant Children(value) == match Children(left) case None => None case Some(others) => Some(found + others)
      decreases |left|
    {
      ReadSplits(left);
      var read := Read(left);
      if read.None? {
        return None;
      }
      var later := Children(read.value.1);
      assert later.Some? ==> found + ([read.value.0] + later.value) == found + [read.value.0] + later.value;
      found := found + [read.value.0];
      left := read.value.1;
    }
    assert found + [] == found;
    return Some(found);
  }

  // ------------------------------------------------------------------ reading undoes writing

  /** A long length is read when it has one to four bytes. */
  lemma {:induction false} ReadLongLength(digits: ByteString, more: ByteString)
    requires |digits| <= 8
    ensures ReadLength([0x80 + |digits|] + digits + more) ==
      if 1 <= |digits| <= 4 then Some((Number(digits), 1 + |digits|)) else None
  {
    var s := [0x80 + |digits|] + digits + more;
    assert s[1..1 + |digits|] == digits;
  }

  lemma ReadLengthBytes(length: nat, more: ByteString)
    requires length < WORD
    ensures ReadLength(LengthBytes(length) + more) ==
      if length < 0x1_0000_0000 then Some((length, |LengthBytes(length)|)) else None
  {
    if length >= 0x80 {
      DigitsFit(length, 8);
      assert Power(8) == WORD;
      DigitsFit(length, 4);
      assert Power(4) == 0x1_0000_0000;
      DigitsFit(length, 0);
      NumberOfDigits(length);
      ReadLongLength(Digits(length), more);
    }
  }

  /**
   * Reading undoes writing for a single-byte tag and a value shorter than 2^32 bytes, whatever follows; any other
   * element is refused.
   */
  lemma ReadUndoesTlv(tag: Byte, value: ByteString, more: ByteString)
    requires |value| < WORD
    ensures Read(Tlv(tag, value) + more) ==
      if tag % 32 != 31 && |value| < 0x1_0000_0000 then Some((Element(tag, value, Tlv(tag, value)), more)) else None
  {
    var length := LengthBytes(|value|);
    var input := Tlv(tag, value) + more;
    assert input[0] == tag && input[1..] == length + (value + more);
    ReadLengthBytes(|value|, value + more);
    if |value| < 0x1_0000_0000 {
      var header := 1 + |length|;
      assert input[header..header + |value|] == value;
      assert input[..header + |value|] == Tlv(tag, value);
      assert input[header + |value|..] == more;
    }
  }

  /** An element to write: its tag and value. */
  datatype Tagged = Tagged(tag: Byte, value: ByteString)

  predicate Writable(t: Tagged) {
    t.tag % 32 != 31 && |t.value| < 0x1_0000_0000
  }

  function Written(t: Tagged): ByteString
    requires Writable(t)
  {
    Tlv(t.tag, t.value)
  }

  predicate AllWritable(ts: seq<Tagged>) {
    forall i | 0 <= i < |ts| :: Writable(ts[i])
  }

  function Joined(ts: seq<Tagged>): ByteString
    requires AllWritable(ts)
  {
    if ts == [] then [] else Written(ts[0]) + Joined(ts[1..])
  }

  function ReadBack(t: Tagged): Element
    requires Writable(t)
  {
    Element(t.tag, t.value, Written(t))
  }

  function AllReadBack(ts: seq<Tagged>): (r: seq<Element>)
    requires AllWritable(ts)
    ensures |r| == |ts| && forall i | 0 <= i < |r| :: r[i] == ReadBack(ts[i])
  {
    seq(|ts|, i requires 0 <= i < |ts| => ReadBack(ts[i]))
  }

  lemma {:induction false} ChildrenNext(value: ByteString, e: Element, rest: ByteString)
    requires value != [] && Read(value) == Some((e, rest)) && Children(rest).Some?
    ensures Children(value) == Some([e] + Children(rest).value)
  {
    ReadSplits(value);
  }

  lemma {:induction false} JoinedReads(ts: seq<Tagged>)
    requires AllWritable(ts) && ts != []
    ensures Joined(ts) != [] && Read(Joined(ts)) == Some((ReadBack(ts[0]), Joined(ts[1..])))
  {
    assert Writable(ts[0]);
    ReadUndoesTlv(ts[0].tag, ts[0].value, Joined(ts[1..]));
  }

  lemma ReadBackNext(ts: seq<Tagged>)
    requires AllWritable(ts) && ts != []
    ensures AllReadBack(ts) == [ReadBack(ts[0])] + AllReadBack(ts[1..])
  {
  }

  /** Taking a value apart undoes joining its elements. */
  lemma {:induction false} ChildrenUndoJoin(ts: seq<Tagged>)
    requires AllWritable(ts)
    ensures Children(Joined(ts)) == Some(AllReadBack(ts))
  {
    if ts != [] {
      JoinedReads(ts);
      ChildrenUndoJoin(ts[1..]);
      ChildrenNext(Joined(ts), ReadBack(ts[0]), Joined(ts[1..]));
      ReadBackNext(ts);
    }
  }

  // ------------------------------------------------------------------ integers

  function Trimmed(bytes: ByteString): (r: ByteString)
    ensures r != [] ==> r[0] != 0
  {
    if bytes == [] || bytes[0] != 0 then bytes else Trimmed(bytes[1..])
  }

  /** The body of a non-negative INTEGER. */
  function UnsignedBody(bytes: ByteString): ByteString {
    var trimmed := Trimmed(bytes);
    if trimmed == [] || trimmed[0] >= 0x80 then [0] + trimmed else trimmed
  }

  lemma {:induction false} NumberOfPadded(s: ByteString)
    ensures Number([0] + s) == Number(s)
  {
    if s == [] {
      assert ([0] + s)[..0] == [];
    } else {
      assert ([0] + s)[..|s|] == [0] + s[..|s| - 1];
      NumberOfPadded(s[..|s| - 1]);
    }
  }

  lemma {:induction false} TrimmedNumber(bytes: ByteString)
    ensures Number(Trimmed(bytes)) == Number(bytes)
  {
    if bytes != [] && bytes[0] == 0 {
      TrimmedNumber(bytes[1..]);
      NumberOfPadded(bytes[1..]);
      assert bytes == [0] + bytes[1..];
    }
  }

  /** An integer keeps its value, is not negative, and has no byte it does not need. */
  lemma {:induction false} UnsignedIsMinimal(bytes: ByteString)
    ensures var body := UnsignedBody(bytes);
      && body != [] && body[0] < 0x80 && Number(body) == Number(bytes)
      && (|body| > 1 && body[0] == 0 ==> body[1] >= 0x80)
  {
    TrimmedNumber(bytes);
    NumberOfPadded(Trimmed(bytes));
  }

  // ------------------------------------------------------------------ certificates

  /** The key element of a certificate, with its tag and length. */
  function CertificateSpki(certificate: ByteString): Option<ByteString> {
    match Read(certificate)
    case None => None
    case Some((outer, rest)) =>
      if outer.tag != SEQUENCE || rest != [] then None
      else
        match Children(outer.value)
        case None => None
        case Some(parts) =>
          if parts == [] || parts[0].tag != SEQUENCE then None
          else
            match Children(parts[0].value)
            case None => None
            case Some(fields) =>
              if fields == [] then None
              else
                var at := (if fields[0].tag == VERSION then 1 else 0) + 5;
                if at < |fields| && fields[at].tag == SEQUENCE then Some(fields[at].encoded) else None
  }

  /** The element of a certificate that is built of these fields and these parts after them. */
  function Certificate(fields: seq<Tagged>, parts: seq<Tagged>): Tagged
    requires AllWritable(fields) && AllWritable(parts) && |Joined(fields)| < 0x1_0000_0000
  {
    Tagged(SEQUENCE, Joined([Tagged(SEQUENCE, Joined(fields))] + parts))
  }

  /** The fields in the order of section 4.1 of RFC 5280, with the version or without it. */
  datatype Fields = Fields(version: Option<ByteString>, serial: ByteString, signature: ByteString, issuer: ByteString,
                           validity: ByteString, subject: ByteString, spki: ByteString, extensions: seq<Tagged>)

  function InOrder(f: Fields): seq<Tagged> {
    (if f.version.Some? then [Tagged(VERSION, f.version.value)] else [])
    + [Tagged(INTEGER, f.serial), Tagged(SEQUENCE, f.signature), Tagged(SEQUENCE, f.issuer),
       Tagged(SEQUENCE, f.validity), Tagged(SEQUENCE, f.subject), Tagged(SEQUENCE, f.spki)]
    + f.extensions
  }

  /** The fields of a certificate are found again. */
  lemma {:induction false} CertificateFields(fields: seq<Tagged>, parts: seq<Tagged>)
    requires AllWritable(fields) && AllWritable(parts) && |Joined(fields)| < 0x1_0000_0000
    requires Writable(Certificate(fields, parts))
    ensures CertificateSpki(Written(Certificate(fields, parts))) ==
      if fields == [] then None
      else
        var at := (if fields[0].tag == VERSION then 1 else 0) + 5;
        if at < |fields| && fields[at].tag == SEQUENCE then Some(Written(fields[at])) else None
  {
    var c := Certificate(fields, parts);
    var inside := [Tagged(SEQUENCE, Joined(fields))] + parts;
    ReadUndoesTlv(c.tag, c.value, []);
    assert Written(c) + [] == Written(c);
    ChildrenUndoJoin(inside);
    ChildrenUndoJoin(fields);
  }

  /** The public key of every certificate with the fields in order is exactly the one put in. */
  lemma SpkiIsFound(f: Fields, parts: seq<Tagged>)
    requires AllWritable(InOrder(f)) && AllWritable(parts) && |Joined(InOrder(f))| < 0x1_0000_0000
    requires Writable(Certificate(InOrder(f), parts)) && |f.spki| < 0x1_0000_0000
    ensures CertificateSpki(Written(Certificate(InOrder(f), parts))) == Some(Written(Tagged(SEQUENCE, f.spki)))
  {
    CertificateFields(InOrder(f), parts);
  }

  /** The point in a key element, where it is an uncompressed P-256 key; otherwise nothing. */
  function EcP256Point(spki: ByteString): Option<ByteString> {
    match Read(spki)
    case None => None
    case Some((outer, rest)) =>
      if outer.tag != SEQUENCE || rest != [] then None
      else
        match Children(outer.value)
        case None => None
        case Some(parts) =>
          if |parts| != 2 then None
          else
            match Children(parts[0].value)
            case None => None
            case Some(ids) =>
              if |ids| != 2 || ids[0].tag != OID || ids[0].value != OID_EC_PUBLIC_KEY
                 || ids[1].tag != OID || ids[1].value != OID_PRIME256V1 || parts[1].tag != BIT_STRING then None
              else
                var key := parts[1].value;
                if |key| == 66 && key[0] == 0 && key[1] == 0x04 then Some(key[1..]) else None
  }

  /** What names a P-256 key. */
  function Algorithm(): seq<Tagged> {
    [Tagged(OID, OID_EC_PUBLIC_KEY), Tagged(OID, OID_PRIME256V1)]
  }

  /** A key's bits: an uncompressed point with no bits unused. */
  predicate Uncompressed(key: ByteString, point: ByteString) {
    key == [0] + point && |point| == 65 && point[0] == 0x04
  }

  lemma KeyBits(key: ByteString, point: ByteString)
    ensures Uncompressed(key, point) <==> |key| == 66 && key[0] == 0 && key[1] == 0x04 && key[1..] == point
  {
    if key == [0] + point {
      assert key[1..] == point;
    } else if |key| > 0 && key[0] == 0 {
      assert key == [0] + key[1..];
    }
  }

  /**
   * In an element of any parts, the first of any elements itself, a point is found exactly when there is one part
   * more, the first names a P-256 key, and the other holds the point in the uncompressed form.
   */
  lemma {:induction false} PointIsFound(tag: Byte, ids: seq<Tagged>, others: seq<Tagged>, point: ByteString)
    requires AllWritable(ids) && AllWritable([Tagged(tag, Joined(ids))] + others)
    requires Writable(Tagged(SEQUENCE, Joined([Tagged(tag, Joined(ids))] + others)))
    ensures EcP256Point(Written(Tagged(SEQUENCE, Joined([Tagged(tag, Joined(ids))] + others)))) == Some(point) <==>
      && ids == Algorithm() && |others| == 1 && others[0].tag == BIT_STRING
      && Uncompressed(others[0].value, point)
  {
    var parts := [Tagged(tag, Joined(ids))] + others;
    ReadUndoesTlv(SEQUENCE, Joined(parts), []);
    assert Written(Tagged(SEQUENCE, Joined(parts))) + [] == Written(Tagged(SEQUENCE, Joined(parts)));
    ChildrenUndoJoin(parts);
    ChildrenUndoJoin(ids);
    if |others| == 1 {
      KeyBits(others[0].value, point);
    }
  }

  // ------------------------------------------------------------------ exactly what is accepted

  /** The bytes are one element of the tag, made of these elements. */
  ghost predicate MadeOf(bytes: ByteString, tag: Byte, parts: seq<Element>) {
    exists value :: IsElement(Element(tag, value, bytes)) && Children(value) == Some(parts)
  }

  lemma MadeOfIs(bytes: ByteString, tag: Byte, parts: seq<Element>)
    ensures MadeOf(bytes, tag, parts) <==>
      Read(bytes).Some? && var (e, rest) := Read(bytes).value; e.tag == tag && rest == [] && Children(e.value) == Some(parts)
  {
    if Read(bytes).Some? {
      var (e, rest) := Read(bytes).value;
      ReadExactly(bytes, e, rest);
      if rest == [] {
        assert e.encoded + [] == e.encoded;
        assert e == Element(e.tag, e.value, bytes);
      }
    }
    if value :| IsElement(Element(tag, value, bytes)) && Children(value) == Some(parts) {
      assert bytes == bytes + [];
      ReadExactly(bytes, Element(tag, value, bytes), []);
    }
  }

  /** The key among the fields of a certificate: the sixth, or the seventh after a version, and a SEQUENCE. */
  predicate KeyAmong(fields: seq<Element>, key: ByteString) {
    && fields != []
    && var at := if fields[0].tag == 0xa0 then 6 else 5;
       at < |fields| && fields[at].tag == 0x30 && fields[at].encoded == key
  }

  /** The first part is a SEQUENCE of fields with the key. */
  predicate HasKey(parts: seq<Element>, key: ByteString) {
    && parts != [] && parts[0].tag == 0x30 && Children(parts[0].value).Some?
    && KeyAmong(Children(parts[0].value).value, key)
  }

  lemma SpkiInParts(certificate: ByteString, parts: seq<Element>, key: ByteString)
    requires MadeOf(certificate, 0x30, parts)
    ensures CertificateSpki(certificate) == Some(key) <==> HasKey(parts, key)
  {
    MadeOfIs(certificate, 0x30, parts);
  }

  lemma SpkiHasParts(certificate: ByteString) returns (parts: seq<Element>)
    requires CertificateSpki(certificate).Some?
    ensures MadeOf(certificate, 0x30, parts)
  {
    parts := Children(Read(certificate).value.0.value).value;
    MadeOfIs(certificate, 0x30, parts);
  }

  /** A key is found exactly in one SEQUENCE whose first part has it. */
  lemma SpkiExactly(certificate: ByteString, key: ByteString)
    ensures CertificateSpki(certificate) == Some(key) <==> exists parts :: MadeOf(certificate, 0x30, parts) && HasKey(parts, key)
  {
    if CertificateSpki(certificate) == Some(key) {
      var parts := SpkiHasParts(certificate);
      SpkiInParts(certificate, parts, key);
    }
    if parts :| MadeOf(certificate, 0x30, parts) && HasKey(parts, key) {
      SpkiInParts(certificate, parts, key);
    }
  }

  /** The parts of a P-256 key: what names it, whatever its tag, and the bits of the point. */
  ghost predicate KeyParts(parts: seq<Element>, point: ByteString) {
    && |parts| == 2 && parts[1].tag == 3 && parts[1].value == [0] + point && |point| == 65 && point[0] == 4
    && exists kind: Element, curve: Element :: Children(parts[0].value) == Some([kind, curve])
                             && kind.tag == 6 && kind.value == [42, 134, 72, 206, 61, 2, 1]
                             && curve.tag == 6 && curve.value == [42, 134, 72, 206, 61, 3, 1, 7]
  }

  /** A point is found exactly in one SEQUENCE of such parts. */
  lemma PointExactly(spki: ByteString, point: ByteString)
    ensures EcP256Point(spki) == Some(point) <==> exists parts :: MadeOf(spki, 0x30, parts) && KeyParts(parts, point)
  {
    if Read(spki).Some? && Children(Read(spki).value.0.value).Some? {
      var parts := Children(Read(spki).value.0.value).value;
      MadeOfIs(spki, 0x30, parts);
      KeyPartsAre(parts, point);
      assert Read(spki).value.0.tag == 0x30 && Read(spki).value.1 == [] ==> (EcP256Point(spki) == Some(point) <==> KeyParts(parts, point));
    }
    if parts :| MadeOf(spki, 0x30, parts) && KeyParts(parts, point) {
      MadeOfIs(spki, 0x30, parts);
    }
  }

  lemma KeyPartsAre(parts: seq<Element>, point: ByteString)
    ensures KeyParts(parts, point) <==>
      && |parts| == 2 && Children(parts[0].value).Some?
      && var ids := Children(parts[0].value).value;
         |ids| == 2 && ids[0].tag == OID && ids[0].value == OID_EC_PUBLIC_KEY && ids[1].tag == OID && ids[1].value == OID_PRIME256V1
         && parts[1].tag == BIT_STRING
         && var key := parts[1].value; |key| == 66 && key[0] == 0 && key[1] == 0x04 && key[1..] == point
  {
    if |parts| == 2 {
      KeyBits(parts[1].value, point);
      if Children(parts[0].value).Some? {
        var ids := Children(parts[0].value).value;
        assert |ids| == 2 ==> ids == [ids[0], ids[1]];
      }
    }
  }
}

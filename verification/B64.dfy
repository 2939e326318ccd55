/** Base64url without padding. */
module B64 {
  import opened Base
  import opened Bytes

  /** The symbol of a six-bit value: capitals, small letters, digits, hyphen, underscore. */
  function Symbol(v: nat): char
    requires v < 64
  {
    if v < 26 then 'A' + v as char
    else if v < 52 then 'a' + (v - 26) as char
    else if v < 62 then '0' + (v - 52) as char
    else if v == 62 then '-' else '_'
  }

  /** The position of a symbol in the alphabet. */
  function Value(c: char): (v: Option<nat>)
    ensures v.Some? ==> v.value < 64 && Symbol(v.value) == c
  {
    if 'A' <= c <= 'Z' then Some(c as int - 'A' as int)
    else if 'a' <= c <= 'z' then Some(c as int - 'a' as int + 26)
    else if '0' <= c <= '9' then Some(c as int - '0' as int + 52)
    else if c == '-' then Some(62) else if c == '_' then Some(63) else None
  }

  lemma ValueOfSymbol(v: nat)
    requires v < 64
    ensures Value(Symbol(v)) == Some(v)
  {
  }

  // ------------------------------------------------------------------ one group

  /** The 24 bits of one to three bytes, zeros after them. */
  function Bits(chunk: ByteString): nat
    requires 1 <= |chunk| <= 3
  {
    0x1_0000 * (chunk[0] as int)
    + (if |chunk| > 1 then 0x100 * (chunk[1] as int) else 0)
    + if |chunk| > 2 then chunk[2] else 0
  }

  function Six(n: nat, i: nat): nat
    requires i < 4
    ensures Six(n, i) < 64
  {
    if i == 0 then n / 0x4_0000 % 64 else if i == 1 then n / 0x1000 % 64 else if i == 2 then n / 64 % 64 else n % 64
  }

  function EncodeChunk(chunk: ByteString): (s: string)
    requires 1 <= |chunk| <= 3
    ensures |s| == |chunk| + 1
  {
    var n := Bits(chunk);
    [Symbol(Six(n, 0)), Symbol(Six(n, 1))]
    + (if |chunk| > 1 then [Symbol(Six(n, 2))] else [])
    + if |chunk| > 2 then [Symbol(Six(n, 3))] else []
  }

  /** The 24 bits of two to four symbols, zeros after them. */
  function SymbolBits(s: string): Option<nat>
    requires 2 <= |s| <= 4
  {
    var a, b := Value(s[0]), Value(s[1]);
    var c, d := if |s| > 2 then Value(s[2]) else Some(0), if |s| > 3 then Value(s[3]) else Some(0);
    if a.None? || b.None? || c.None? || d.None? then None
    else Some(0x4_0000 * a.value + 0x1000 * b.value + 64 * c.value + d.value)
  }

  /** The bytes of a group, unless a symbol is foreign or a bit it does not use is set. */
  function DecodeChunk(s: string): (r: Option<ByteString>)
    requires 2 <= |s| <= 4
    ensures r.Some? ==> |r.value| == |s| - 1
  {
    match SymbolBits(s)
    case None => None
    case Some(n) =>
      BitsFit(s);
      if |s| == 2 then (if n % 0x1_0000 != 0 then None else Some([n / 0x1_0000]))
      else if |s| == 3 then (if n % 0x100 != 0 then None else Some([n / 0x1_0000, n / 0x100 % 256]))
      else Some([n / 0x1_0000, n / 0x100 % 256, n % 256])
  }

  lemma BitsFit(s: string)
    requires 2 <= |s| <= 4
    ensures SymbolBits(s).Some? ==> SymbolBits(s).value < 0x100_0000
  {
  }

  /** Six-bit groups and eight-bit groups of the same 24 bits. */
  lemma SixesMake(n: nat)
    requires n < 0x100_0000
    ensures 0x4_0000 * Six(n, 0) + 0x1000 * Six(n, 1) + 64 * Six(n, 2) + Six(n, 3) == n
  {
    assert n / 64 == n / 0x1000 * 64 + n / 64 % 64;
    assert n / 0x1000 == n / 0x4_0000 * 64 + n / 0x1000 % 64;
  }

  lemma SixesOf(a: nat, b: nat, c: nat, d: nat)
    requires a < 64 && b < 64 && c < 64 && d < 64
    ensures var n := 0x4_0000 * a + 0x1000 * b + 64 * c + d;
      Six(n, 0) == a && Six(n, 1) == b && Six(n, 2) == c && Six(n, 3) == d
  {
    var n := 0x4_0000 * a + 0x1000 * b + 64 * c + d;
    assert n / 64 == 0x1000 * a + 64 * b + c;
    assert n / 0x1000 == 64 * a + b;
    assert n / 0x4_0000 == a;
  }

  lemma EightsMake(n: nat)
    requires n < 0x100_0000
    ensures 0x1_0000 * (n / 0x1_0000) + 0x100 * (n / 0x100 % 256) + n % 256 == n
  {
    assert n / 0x100 == n / 0x1_0000 * 256 + n / 0x100 % 256;
  }

  lemma EightsOf(a: nat, b: nat, c: nat)
    requires a < 256 && b < 256 && c < 256
    ensures var n := 0x1_0000 * a + 0x100 * b + c;
      n < 0x100_0000 && n / 0x1_0000 == a && n / 0x100 % 256 == b && n % 256 == c
      && (c == 0 ==> n % 0x100 == 0) && (b == 0 && c == 0 ==> n % 0x1_0000 == 0)
  {
    var n := 0x1_0000 * a + 0x100 * b + c;
    assert n / 0x100 == 0x100 * a + b;
  }

  lemma DecodeUndoesEncode(chunk: ByteString)
    requires 1 <= |chunk| <= 3
    ensures DecodeChunk(EncodeChunk(chunk)) == Some(chunk)
  {
    var n, s := Bits(chunk), EncodeChunk(chunk);
    var b, c := if |chunk| > 1 then chunk[1] else 0, if |chunk| > 2 then chunk[2] else 0;
    assert n == 0x1_0000 * (chunk[0] as int) + 0x100 * (b as int) + c;
    EightsOf(chunk[0], b, c);
    SixesMake(n);
    UnusedAreZero(chunk);
    ValueOfSymbol(Six(n, 0));
    ValueOfSymbol(Six(n, 1));
    ValueOfSymbol(Six(n, 2));
    ValueOfSymbol(Six(n, 3));
    assert SymbolBits(s) == Some(n);
    if |chunk| == 1 {
      assert chunk == [chunk[0]];
    } else if |chunk| == 2 {
      assert chunk == [chunk[0], b];
    } else {
      assert chunk == [chunk[0], b, c];
    }
  }

  lemma UnusedAreZero(chunk: ByteString)
    requires 1 <= |chunk| <= 3
    ensures |chunk| < 3 ==> Six(Bits(chunk), 3) == 0
    ensures |chunk| < 2 ==> Six(Bits(chunk), 2) == 0
  {
    var n := Bits(chunk);
    if |chunk| == 1 {
      assert n == 64 * (0x400 * (chunk[0] as int));
      assert n / 64 == 64 * (16 * (chunk[0] as int));
    } else if |chunk| == 2 {
      assert n == 64 * (0x400 * (chunk[0] as int) + 4 * (chunk[1] as int));
    }
  }

  lemma EncodeUndoesDecode(s: string)
    requires 2 <= |s| <= 4 && DecodeChunk(s).Some?
    ensures EncodeChunk(DecodeChunk(s).value) == s
  {
    var n, chunk := SymbolBits(s).value, DecodeChunk(s).value;
    var a, b := Value(s[0]).value, Value(s[1]).value;
    var c, d := if |s| > 2 then Value(s[2]).value else 0, if |s| > 3 then Value(s[3]).value else 0;
    BitsFit(s);
    SixesOf(a, b, c, d);
    EightsMake(n);
    if |s| == 2 {
      assert n == 0x1_0000 * (n / 0x1_0000);
    } else if |s| == 3 {
      assert n == 0x100 * (n / 0x100) && n / 0x100 == 0x100 * (n / 0x1_0000) + n / 0x100 % 256;
    }
    assert Bits(chunk) == n;
  }

  // ------------------------------------------------------------------ the whole text

  function Min(a: nat, b: nat): nat {
    if a < b then a else b
  }

  function Encode(bytes: ByteString): string {
    if bytes == [] then []
    else
      var n := Min(3, |bytes|);
      EncodeChunk(bytes[..n]) + Encode(bytes[n..])
  }

  function Decode(text: string): Option<ByteString> {
    if text == [] then Some([])
    else
      var n := Min(4, |text|);
      if n == 1 then None
      else
        match DecodeChunk(text[..n])
        case None => None
        case Some(chunk) =>
          match Decode(text[n..])
          case None => None
          case Some(rest) => Some(chunk + rest)
  }

  /** Encoding in a loop over groups of three. */
  method EncodeText(bytes: ByteString) returns (out: string)
    ensures out == Encode(bytes)
  {
    out := [];
    var i := 0;
    while i < |bytes|
      invariant i <= |bytes|
      invariant out + Encode(bytes[i..]) == Encode(bytes)
    {
      var n := Min(3, |bytes| - i);
      EncodeStep(out, bytes, i, n);
      out := out + EncodeChunk(bytes[i..i + n]);
      i := i + n;
    }
  }

  lemma EncodeStep(out: string, bytes: ByteString, i: nat, n: nat)
    requires i < |bytes| && n == Min(3, |bytes| - i)
    ensures out + Encode(bytes[i..]) == out + EncodeChunk(bytes[i..i + n]) + Encode(bytes[i + n..])
  {
    assert bytes[i..][..n] == bytes[i..i + n] && bytes[i..][n..] == bytes[i + n..];
  }

  /** Decoding in a loop over groups of four, after the check of the length. */
  method DecodeText(text: string) returns (out: Option<ByteString>)
    ensures out == Decode(text)
  {
    DanglingSymbol(text);
    if |text| % 4 == 1 {
      return None;
    }
    out := DecodeGroups(text);
  }

  method DecodeGroups(text: string) returns (out: Option<ByteString>)
    requires |text| % 4 != 1
    ensures out == Decode(text)
  {
    var done: ByteString, i := [], 0;
    ghost var left := Decode(text);
    ghost var whole := left;
    assert text[0..] == text;
    ContinuedFromNothing(left);
    while i < |text|
      invariant i <= |text| && (i < |text| ==> i % 4 == 0)
      invariant left == Decode(text[i..]) && whole == Continued(done, left)
    {
      var n := Min(4, |text| - i);
      NeverOneLeft(|text|, i);
      DecodeStep(text, i, n);
      var chunk := DecodeChunk(text[i..i + n]);
      if chunk.None? {
        return None;
      }
      left := Decode(text[i + n..]);
      ContinuedTwice(done, chunk.value, left);
      done := done + chunk.value;
      i := i + n;
    }
    assert done + [] == done;
    return Some(done);
  }

  /** What was decoded so far, and then the rest if that decodes too. */
  function Continued(done: ByteString, rest: Option<ByteString>): Option<ByteString> {
    if rest.None? then None else Some(done + rest.value)
  }

  lemma ContinuedFromNothing(rest: Option<ByteString>)
    ensures Continued([], rest) == rest
  {
    assert rest.Some? ==> [] + rest.value == rest.value;
  }

  lemma ContinuedTwice(a: ByteString, b: ByteString, rest: Option<ByteString>)
    ensures Continued(a, Continued(b, rest)) == Continued(a + b, rest)
  {
    assert rest.Some? ==> a + (b + rest.value) == a + b + rest.value;
  }

  lemma NeverOneLeft(length: nat, i: nat)
    requires length % 4 != 1 && i < length && i % 4 == 0
    ensures length - i != 1 && (i + Min(4, length - i) < length ==> (i + Min(4, length - i)) % 4 == 0)
  {
  }

  lemma DecodeStep(text: string, i: nat, n: nat)
    requires i < |text| && n == Min(4, |text| - i) && n != 1
    ensures Decode(text[i..]) ==
      var chunk := DecodeChunk(text[i..i + n]);
      if chunk.None? then None else Continued(chunk.value, Decode(text[i + n..]))
  {
    assert text[i..][..n] == text[i..i + n] && text[i..][n..] == text[i + n..];
  }

  lemma {:induction false} DanglingSymbol(text: string)
    ensures |text| % 4 == 1 ==> Decode(text).None?
  {
    if |text| > 4 {
      DanglingSymbol(text[4..]);
    }
  }

  lemma {:induction false} DecodeEncode(bytes: ByteString)
    ensures Decode(Encode(bytes)) == Some(bytes)
  {
    if bytes != [] {
      var n := Min(3, |bytes|);
      DecodeUndoesEncode(bytes[..n]);
      DecodeEncode(bytes[n..]);
      DecodeGroup(EncodeChunk(bytes[..n]), Encode(bytes[n..]));
      assert bytes == bytes[..n] + bytes[n..];
    }
  }

  lemma {:induction false} DecodeGroup(head: string, rest: string)
    requires 2 <= |head| <= 4 && (rest != [] ==> |head| == 4) && DecodeChunk(head).Some? && Decode(rest).Some?
    ensures Decode(head + rest) == Some(DecodeChunk(head).value + Decode(rest).value)
  {
    assert (head + rest)[..|head|] == head && (head + rest)[|head|..] == rest;
  }

  lemma {:induction false} EncodeGroup(head: ByteString, rest: ByteString)
    requires 1 <= |head| <= 3 && (rest != [] ==> |head| == 3)
    ensures Encode(head + rest) == EncodeChunk(head) + Encode(rest)
  {
    assert (head + rest)[..|head|] == head && (head + rest)[|head|..] == rest;
  }

  lemma {:induction false} EncodeDecode(text: string)
    requires Decode(text).Some?
    ensures Encode(Decode(text).value) == text
  {
    if text != [] {
      var n := Min(4, |text|);
      var chunk, rest := DecodeChunk(text[..n]).value, Decode(text[n..]).value;
      EncodeUndoesDecode(text[..n]);
      EncodeDecode(text[n..]);
      assert n < 4 ==> text[n..] == [];
      EncodeGroup(chunk, rest);
      assert text == text[..n] + text[n..];
    }
  }

  /** Decoding accepts exactly what encoding writes, and gives back what was encoded. */
  lemma {:induction false} DecodeIsExact(text: string, bytes: ByteString)
    ensures Decode(text) == Some(bytes) <==> text == Encode(bytes)
  {
    DecodeEncode(bytes);
    if Decode(text).Some? {
      EncodeDecode(text);
    }
  }

  // ------------------------------------------------------------------ the alphabet and the order of bits

  /** Table 2 of RFC 4648, with its characters in ASCII. */
  predicate Listed(v: int, c: char) {
    || (0 <= v < 26 && c as int == 65 + v)
    || (26 <= v < 52 && c as int == 97 + v - 26)
    || (52 <= v < 62 && c as int == 48 + v - 52)
    || (v == 62 && c as int == 45)
    || (v == 63 && c as int == 95)
  }

  /** Three bytes are four symbols of six bits each, the most significant first. */
  predicate Spells(chunk: ByteString, a: nat, b: nat, c: nat, d: nat) {
    |chunk| == 3 && a < 64 && b < 64 && c < 64 && d < 64
    && 65536 * (chunk[0] as int) + 256 * (chunk[1] as int) + chunk[2] as int == 262144 * a + 4096 * b + 64 * c + d
  }

  /** A group of three bytes is written in the symbols of its six-bit parts. */
  lemma GroupIsWritten(chunk: ByteString, a: nat, b: nat, c: nat, d: nat)
    requires Spells(chunk, a, b, c, d)
    ensures var s := EncodeChunk(chunk);
      |s| == 4 && Listed(a, s[0]) && Listed(b, s[1]) && Listed(c, s[2]) && Listed(d, s[3])
  {
    SixesOf(a, b, c, d);
  }

  /** A group of fewer bytes is written like one filled up with zeros, in one symbol more than it has bytes. */
  lemma ShortIsWritten(chunk: ByteString)
    requires 1 <= |chunk| <= 2
    ensures EncodeChunk(chunk) == EncodeChunk(chunk + if |chunk| == 1 then [0, 0] else [0])[..|chunk| + 1]
  {
  }
}

/** Bytes, and numbers written in them most significant first. */
module Bytes {

  type Byte = x: nat | x < 256

  type ByteString = seq<Byte>

  /** The number that big-endian bytes stand for. */
  function Number(s: ByteString): nat {
    if s == [] then 0 else 256 * Number(s[..|s| - 1]) + s[|s| - 1]
  }

  /** A number in as few bytes as it needs, and in none for zero. */
  function Digits(n: nat): (s: ByteString)
    ensures s != [] ==> s[0] != 0
  {
    if n == 0 then [] else
      var init := Digits(n / 256);
      assert init == [] ==> n / 256 == 0 by {
        if n / 256 != 0 {
          assert |Digits(n / 256)| > 0;
        }
      }
      init + [n % 256]
  }

  lemma {:induction false} NumberOfDigits(n: nat)
    ensures Number(Digits(n)) == n
  {
    if n != 0 {
      NumberOfDigits(n / 256);
      assert Digits(n)[..|Digits(n)| - 1] == Digits(n / 256);
    }
  }

  function Power(k: nat): (p: nat)
    ensures p > 0
  {
    if k == 0 then 1 else 256 * Power(k - 1)
  }

  /** A number needs at most `k` bytes exactly when it is below 256 to the power `k`. */
  lemma {:induction false} DigitsFit(n: nat, k: nat)
    ensures |Digits(n)| <= k <==> n < Power(k)
    decreases k
  {
    if k > 0 && n != 0 {
      DigitsFit(n / 256, k - 1);
      assert n < 256 * Power(k - 1) <==> n / 256 < Power(k - 1);
    }
  }

  lemma {:induction false} NumberFits(s: ByteString)
    ensures Number(s) < Power(|s|)
  {
    if s != [] {
      NumberFits(s[..|s| - 1]);
    }
  }

  /** A number in four bytes. */
  function FourBytes(n: nat): (s: ByteString)
    requires n < 0x1_0000_0000
    ensures |s| == 4
  {
    var a, b, c := n / 256 / 256 / 256, n / 256 / 256, n / 256;
    [a, b % 256, c % 256, n % 256]
  }

  lemma {:induction false} NumberOfFour(s: ByteString)
    requires |s| == 4
    ensures Number(s) == 256 * (256 * (256 * (s[0] as int) + s[1]) + s[2]) + s[3]
  {
    assert s[..3][..2] == s[..2] && s[..2][..1] == s[..1] && s[..1][..0] == [];
    assert Number(s[..1]) == s[0];
    assert Number(s[..2]) == 256 * (s[0] as int) + s[1];
  }

  lemma {:induction false} FourBytesOfNumber(s: ByteString)
    requires |s| == 4
    ensures Number(s) < 0x1_0000_0000 && FourBytes(Number(s)) == s
  {
    NumberOfFour(s);
    var n := Number(s);
    assert n / 256 == 256 * (256 * (s[0] as int) + s[1]) + s[2];
    assert n / 256 / 256 == 256 * (s[0] as int) + s[1];
  }

  lemma NumberOfFourBytes(n: nat)
    requires n < 0x1_0000_0000
    ensures Number(FourBytes(n)) == n
  {
    NumberOfFour(FourBytes(n));
  }
}

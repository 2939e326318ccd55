/** The order of strings, and sequences of them. */
module Order {

  /** Strings by code point, as the host language compares them. */
  predicate StringLeq(a: string, b: string) {
    a == [] || (b != [] && (a[0] < b[0] || (a[0] == b[0] && StringLeq(a[1..], b[1..]))))
  }

  lemma {:induction false} StringLeqTotal(a: string, b: string)
    ensures StringLeq(a, b) || StringLeq(b, a)
    ensures StringLeq(a, b) && StringLeq(b, a) ==> a == b
  {
    if a != [] && b != [] {
      StringLeqTotal(a[1..], b[1..]);
      assert a == [a[0]] + a[1..] && b == [b[0]] + b[1..];
    }
  }

  lemma {:induction false} StringLeqTransitive(a: string, b: string, c: string)
    requires StringLeq(a, b) && StringLeq(b, c)
    ensures StringLeq(a, c)
  {
    if a != [] && a[0] == b[0] == c[0] {
      StringLeqTransitive(a[1..], b[1..], c[1..]);
    }
  }

  /** `a` and `b` agree before `k` and differ there. */
  predicate Parts<T(==)>(a: seq<T>, b: seq<T>, k: nat) {
    k < |a| && k < |b| && a[..k] == b[..k] && a[k] != b[k]
  }

  /** Texts in ASCII order, a text before those it begins. */
  ghost predicate TextBefore(s: string, t: string) {
    s < t || exists k: nat :: Parts(s, t, k) && s[k] < t[k]
  }

  lemma PartsTail<T>(a: seq<T>, b: seq<T>, k: nat)
    requires a != [] && b != [] && a[0] == b[0]
    ensures Parts(a[1..], b[1..], k) <==> Parts(a, b, k + 1)
  {
    if k < |a| - 1 && k < |b| - 1 {
      assert a[..k + 1] == [a[0]] + a[1..][..k] && b[..k + 1] == [b[0]] + b[1..][..k];
      assert a[1..][..k] == a[..k + 1][1..] && b[1..][..k] == b[..k + 1][1..];
    }
  }

  lemma PrefixTail<T>(a: seq<T>, b: seq<T>)
    requires a != [] && b != [] && a[0] == b[0]
    ensures a[1..] < b[1..] <==> a < b
  {
    if a[1..] < b[1..] {
      assert a == [a[0]] + a[1..] && b == [b[0]] + b[1..];
    }
  }

  lemma {:induction false} TextsByAscii(s: string, t: string)
    ensures StringLeq(s, t) && s != t <==> TextBefore(s, t)
  {
    if s != [] && t != [] {
      if s[0] == t[0] {
        TextsByAscii(s[1..], t[1..]);
        PrefixTail(s, t);
        assert s == [s[0]] + s[1..] && t == [t[0]] + t[1..];
        if k: nat :| Parts(s[1..], t[1..], k) && s[1..][k] < t[1..][k] {
          PartsTail(s, t, k);
          assert Parts(s, t, k + 1) && s[k + 1] < t[k + 1];
        }
        if k: nat :| Parts(s, t, k) && s[k] < t[k] {
          PartsTail(s, t, k - 1);
          assert Parts(s[1..], t[1..], k - 1) && s[1..][k - 1] < t[1..][k - 1];
        }
      } else {
        assert Parts(s, t, 0);
        assert forall k: nat | Parts(s, t, k) :: k > 0 ==> s[..k][0] == t[..k][0];
      }
    }
  }

  /** No string twice. */
  predicate Distinct(s: seq<string>) {
    forall i, j | 0 <= i < j < |s| :: s[i] != s[j]
  }

  function IndexOf(s: seq<string>, x: string): (i: nat)
    requires x in s
    ensures i < |s| && s[i] == x
  {
    if s[0] == x then 0 else 1 + IndexOf(s[1..], x)
  }
}

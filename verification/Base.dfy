/** Types and sequence operations shared by the models. */
module Base {

  datatype Option<+T> = None | Some(value: T)

  datatype Result<+T, +E> = Ok(value: T) | Err(error: E)

  const U64_MAX: nat := 0xFFFF_FFFF_FFFF_FFFF

  /** A Rust `u64`. */
  type U64 = x: nat | x <= U64_MAX

  function SaturatingAdd(a: U64, b: U64): U64 {
    if a + b <= U64_MAX then a + b else U64_MAX
  }

  /** How one write of a state file ends: it succeeds, or it fails with or without taking effect. */
  datatype Write = Done | Failed(durable: bool)

  /** What one locked read-change-write meets: a file it can read or not, and the write's end. */
  datatype Io = Io(readable: bool, write: Write)

  /** The file's contents after writing `after` over `before`. */
  function Saved<T>(before: T, after: T, write: Write): T {
    if write == Failed(false) then before else after
  }

  /** Unicode White_Space. */
  predicate IsSpace(c: char) {
    '\t' <= c <= '\r' || c == ' ' || c == '\U{85}' || c == '\U{A0}' || c == '\U{1680}'
    || '\U{2000}' <= c <= '\U{200A}' || c == '\U{2028}' || c == '\U{2029}' || c == '\U{202F}'
    || c == '\U{205F}' || c == '\U{3000}'
  }

  /** An identifier: segments of lower-case letters, digits and underscores, each starting with a letter, joined by points. */
  predicate Identifier(s: string, starts: bool) {
    if s == [] then !starts
    else if 'a' <= s[0] <= 'z' then Identifier(s[1..], false)
    else if starts then false
    else if s[0] == '.' then Identifier(s[1..], true)
    else ('0' <= s[0] <= '9' || s[0] == '_') && Identifier(s[1..], false)
  }

  /** The first position whose element satisfies `p`. */
  function First<T>(s: seq<T>, p: T -> bool): (r: Option<nat>)
    ensures r.Some? ==> r.value < |s| && p(s[r.value]) && forall i | 0 <= i < r.value :: !p(s[i])
    ensures r.None? ==> forall x | x in s :: !p(x)
  {
    if s == [] then None
    else if p(s[0]) then Some(0)
    else
      match First(s[1..], p)
      case None => assert forall x | x in s :: x == s[0] || x in s[1..]; None
      case Some(i) => assert forall k | 0 < k < i + 1 :: s[k] == s[1..][k - 1]; Some(i + 1)
  }

  /** The elements that satisfy `p`, in order. */
  function Filter<T>(s: seq<T>, p: T -> bool): (r: seq<T>)
    ensures forall x | x in r :: x in s && p(x)
    ensures forall x | x in s && p(x) :: x in r
  {
    if s == [] then []
    else
      var rest := Filter(s[..|s| - 1], p);
      assert s == s[..|s| - 1] + [s[|s| - 1]];
      if p(s[|s| - 1]) then rest + [s[|s| - 1]] else rest
  }

  lemma {:induction false} FilterOne<T>(s: seq<T>, p: T -> bool)
    requires s != []
    ensures Filter(s, p) == Filter(s[..|s| - 1], p) + if p(s[|s| - 1]) then [s[|s| - 1]] else []
  {
  }

  /** What is kept stays in its order. */
  lemma {:induction false} FilterJoins<T>(a: seq<T>, b: seq<T>, p: T -> bool)
    ensures Filter(a + b, p) == Filter(a, p) + Filter(b, p)
    ensures |b| == 1 ==> Filter(b, p) == if p(b[0]) then b else []
  {
    if b == [] {
      assert a + b == a;
    } else {
      var n := |b| - 1;
      FilterJoins(a, b[..n], p);
      assert (a + b)[..|a| + n] == a + b[..n];
      FilterOne(a + b, p);
      FilterOne(b, p);
    }
  }

  lemma {:induction false} FilterFirst<T>(s: seq<T>, p: T -> bool)
    requires s != []
    ensures Filter(s, p) == if p(s[0]) then [s[0]] + Filter(s[1..], p) else Filter(s[1..], p)
  {
    assert s == [s[0]] + s[1..];
    FilterJoins([s[0]], s[1..], p);
    FilterJoins([], [s[0]], p);
    assert [] + [s[0]] == [s[0]];
  }

  /** How many elements satisfy `p`. */
  function Count<T>(s: seq<T>, p: T -> bool): nat {
    if s == [] then 0
    else Count(s[..|s| - 1], p) + if p(s[|s| - 1]) then 1 else 0
  }

  function MapSeq<T, U>(s: seq<T>, f: T -> U): (r: seq<U>)
    ensures |r| == |s| && forall i | 0 <= i < |s| :: r[i] == f(s[i])
  {
    seq(|s|, i requires 0 <= i < |s| => f(s[i]))
  }

  /** Every earlier element is related by `r` to every later one. */
  ghost predicate Pairwise<T>(s: seq<T>, r: (T, T) -> bool) {
    forall i, j | 0 <= i < j < |s| :: r(s[i], s[j])
  }

  lemma {:induction false} FilterPairwise<T>(s: seq<T>, p: T -> bool, r: (T, T) -> bool)
    requires Pairwise(s, r)
    ensures Pairwise(Filter(s, p), r)
  {
    if s != [] {
      var init, last := s[..|s| - 1], s[|s| - 1];
      FilterPairwise(init, p, r);
      if p(last) {
        var rest := Filter(init, p);
        forall i, j | 0 <= i < j < |rest| + 1
          ensures r((rest + [last])[i], (rest + [last])[j])
        {
          if j == |rest| {
            assert rest[i] in rest;
            var k :| 0 <= k < |init| && init[k] == rest[i];
            assert r(s[k], s[|s| - 1]);
          }
        }
      }
    }
  }

  lemma PushPairwise<T>(s: seq<T>, x: T, r: (T, T) -> bool)
    requires Pairwise(s, r) && forall i | 0 <= i < |s| :: r(s[i], x)
    ensures Pairwise(s + [x], r)
  {
  }

  lemma {:induction false} CountFilter<T>(s: seq<T>, p: T -> bool, q: T -> bool, r: T -> bool)
    requires forall x | x in s && p(x) && q(x) :: r(x)
    ensures Count(Filter(s, p), q) <= Count(s, r)
  {
    if s != [] {
      CountFilter(s[..|s| - 1], p, q, r);
      assert s[|s| - 1] in s;
      var rest := Filter(s[..|s| - 1], p);
      if p(s[|s| - 1]) {
        assert (rest + [s[|s| - 1]])[..|rest|] == rest;
      }
    }
  }

  lemma {:induction false} CountMap<T>(s: seq<T>, f: T -> T, q: T -> bool)
    requires forall x | x in s && q(f(x)) :: q(x)
    ensures Count(MapSeq(s, f), q) <= Count(s, q)
  {
    if s != [] {
      CountMap(s[..|s| - 1], f, q);
      assert MapSeq(s, f)[..|s| - 1] == MapSeq(s[..|s| - 1], f);
      assert s[|s| - 1] in s;
    }
  }

  lemma {:induction false} CountWeaker<T>(s: seq<T>, p: T -> bool, q: T -> bool)
    requires forall x | x in s && p(x) :: q(x)
    ensures Count(s, p) <= Count(s, q)
  {
    if s != [] {
      CountWeaker(s[..|s| - 1], p, q);
      assert s[|s| - 1] in s;
    }
  }

  lemma {:induction false} CountPush<T>(s: seq<T>, x: T, p: T -> bool)
    ensures Count(s + [x], p) == Count(s, p) + if p(x) then 1 else 0
  {
    assert (s + [x])[..|s|] == s;
  }
}

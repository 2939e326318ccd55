/** Texts in parts, with a separator between them. */
module TextParts {
  import opened Base

  function Split(s: string, at: char): (r: seq<string>)
    ensures r != []
  {
    if s == [] then [[]]
    else
      var rest := Split(s[1..], at);
      if s[0] == at then [[]] + rest else [[s[0]] + rest[0]] + rest[1..]
  }

  function SplitOnce(s: string, at: char): Option<(string, string)> {
    if s == [] then None
    else if s[0] == at then Some(([], s[1..]))
    else
      match SplitOnce(s[1..], at)
      case None => None
      case Some((a, b)) => Some(([s[0]] + a, b))
  }

  function Join(parts: seq<string>, with: char): string {
    if parts == [] then [] else if |parts| == 1 then parts[0] else parts[0] + [with] + Join(parts[1..], with)
  }

  /** One more part after the others. */
  lemma {:induction false} JoinPush(parts: seq<string>, part: string, with: char)
    requires parts != []
    ensures Join(parts + [part], with) == Join(parts, with) + [with] + part
    decreases |parts|
  {
    if |parts| == 1 {
      assert (parts + [part])[1..] == [part];
    } else {
      assert (parts + [part])[1..] == parts[1..] + [part];
      JoinPush(parts[1..], part, with);
    }
  }

  /** The first part, up to the first separator, and the parts after it. */
  lemma {:induction false} SplitFirst(a: string, rest: string, at: char)
    requires at !in a
    ensures Split(a + [at] + rest, at) == [a] + Split(rest, at)
    ensures Split(a, at) == [a]
  {
    if a == [] {
      assert [] + [at] + rest == [at] + rest;
      assert ([at] + rest)[1..] == rest;
    } else {
      SplitFirst(a[1..], rest, at);
      assert (a + [at] + rest)[1..] == a[1..] + [at] + rest;
      assert [a[0]] + a[1..] == a;
    }
  }

  lemma {:induction false} SplitJoin(parts: seq<string>, at: char)
    requires parts != [] && forall i | 0 <= i < |parts| :: at !in parts[i]
    ensures Split(Join(parts, at), at) == parts
  {
    if |parts| == 1 {
      SplitFirst(parts[0], [], at);
      assert parts == [parts[0]];
    } else {
      SplitJoin(parts[1..], at);
      SplitFirst(parts[0], Join(parts[1..], at), at);
    }
  }

  lemma {:induction false} SplitOnceJoined(key: string, value: string, at: char)
    requires at !in key
    ensures SplitOnce(key + [at] + value, at) == Some((key, value))
  {
    if key == [] {
      assert [] + [at] + value == [at] + value;
    } else {
      assert (key + [at] + value)[1..] == key[1..] + [at] + value;
      SplitOnceJoined(key[1..], value, at);
      assert [key[0]] + key[1..] == key;
    }
  }

  /** The part of a text before the first separator. */
  function Before(s: string, at: char): (r: string)
    ensures |r| <= |s| && (at in s ==> |r| < |s|) && (at !in s ==> r == s) && at !in r
  {
    if s == [] || s[0] == at then []
    else
      assert s == [s[0]] + s[1..];
      [s[0]] + Before(s[1..], at)
  }

  lemma HeadAndTail(a: string, rest: string)
    requires a != []
    ensures (a + rest)[0] == a[0] && (a + rest)[1..] == a[1..] + rest && [a[0]] + (a[1..] + rest) == a + rest
  {
  }

  lemma {:induction false} BeforeJoined(a: string, rest: string, at: char)
    requires at !in a
    ensures Before(a + rest, at) == a + Before(rest, at)
  {
    if a == [] {
      assert a + rest == rest && a + Before(rest, at) == Before(rest, at);
    } else {
      HeadAndTail(a, rest);
      HeadAndTail(a, Before(rest, at));
      BeforeJoined(a[1..], rest, at);
      assert a[0] in a;
    }
  }

  lemma {:induction false} SplitHead(s: string, more: string, at: char)
    ensures Split(s + [at] + more, at)[0] == Before(s, at)
  {
    if s == [] {
      assert s + [at] + more == [at] + more;
    } else {
      assert (s + [at] + more)[1..] == s[1..] + [at] + more;
      SplitHead(s[1..], more, at);
    }
  }

  lemma {:induction false} SplitOnceSplits(s: string, at: char)
    ensures match SplitOnce(s, at)
            case None => at !in s
            case Some((a, b)) => s == a + [at] + b && at !in a
  {
    if s != [] && s[0] != at {
      SplitOnceSplits(s[1..], at);
      assert s == [s[0]] + s[1..];
    } else if s != [] {
      assert s == [] + [at] + s[1..];
    }
  }

  /** Joining undoes splitting, and no part has the separator. */
  lemma {:induction false} JoinSplit(s: string, at: char)
    ensures Join(Split(s, at), at) == s
    ensures forall i | 0 <= i < |Split(s, at)| :: at !in Split(s, at)[i]
  {
    if s != [] {
      var rest := Split(s[1..], at);
      JoinSplit(s[1..], at);
      assert s == [s[0]] + s[1..];
      if s[0] == at {
        assert ([[]] + rest)[1..] == rest;
      } else {
        var parts := [[s[0]] + rest[0]] + rest[1..];
        assert parts[1..] == rest[1..];
        assert |rest| > 1 ==> [s[0]] + (rest[0] + [at] + Join(rest[1..], at)) == [s[0]] + rest[0] + [at] + Join(rest[1..], at);
      }
    }
  }
}

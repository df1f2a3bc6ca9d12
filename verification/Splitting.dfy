/** Cutting a text at a separator, as splitSemi of src/RakNetPing.cpp and splitJwt of
    src/BedrockKeyExchange.cpp do it: every field is kept, empty ones included. */
module Splitting {

  function Split<T(==)>(s: seq<T>, sep: T): (parts: seq<seq<T>>)
    ensures |parts| >= 1
  {
    SplitFrom(s, sep, [])
  }

  function SplitFrom<T(==)>(s: seq<T>, sep: T, current: seq<T>): (parts: seq<seq<T>>)
    ensures |parts| >= 1
    decreases |s|
  {
    if s == [] then [current]
    else if s[0] == sep then [current] + SplitFrom(s[1..], sep, [])
    else SplitFrom(s[1..], sep, current + [s[0]])
  }

  /** The fields put together again with separators. */
  function Join<T>(parts: seq<seq<T>>, sep: T): seq<T>
    requires parts != []
  {
    if |parts| == 1 then parts[0] else parts[0] + [sep] + Join(parts[1..], sep)
  }

  /** The loop of splitSemi and of splitJwt. */
  method SplitLoop<T(==)>(s: seq<T>, sep: T) returns (parts: seq<seq<T>>)
    ensures parts == Split(s, sep)
  {
    parts := [];
    var current: seq<T> := [];
    for i := 0 to |s|
      invariant Split(s, sep) == parts + SplitFrom(s[i..], sep, current)
    {
      var c := s[i];
      assert s[i..][1..] == s[i + 1..];
      if c == sep {
        parts := parts + [current];
        current := [];
      } else {
        current := current + [c];
      }
    }
    parts := parts + [current];
  }

  lemma {:induction false} SplitRun<T>(a: seq<T>, rest: seq<T>, sep: T, current: seq<T>)
    requires sep !in a
    ensures SplitFrom(a + rest, sep, current) == SplitFrom(rest, sep, current + a)
    decreases |a|
  {
    if a == [] {
      assert a + rest == rest && current + a == current;
    } else {
      assert (a + rest)[1..] == a[1..] + rest && (a + rest)[0] == a[0];
      SplitRun(a[1..], rest, sep, current + [a[0]]);
      assert current + [a[0]] + a[1..] == current + a;
    }
  }

  lemma SplitOne<T>(a: seq<T>, sep: T)
    requires sep !in a
    ensures Split(a, sep) == [a]
  {
    SplitRun(a, [], sep, []);
    assert a + [] == a && [] + a == a;
  }

  lemma SplitMore<T>(a: seq<T>, b: seq<T>, sep: T)
    requires sep !in a
    ensures Split(a + [sep] + b, sep) == [a] + Split(b, sep)
  {
    SplitRun(a, [sep] + b, sep, []);
    assert a + [sep] + b == a + ([sep] + b) && [] + a == a;
    assert ([sep] + b)[1..] == b;
  }

  function FirstSep<T(==)>(s: seq<T>, sep: T): (i: nat)
    ensures i <= |s| && sep !in s[..i]
    ensures i < |s| ==> s[i] == sep
  {
    if s == [] || s[0] == sep then 0 else 1 + FirstSep(s[1..], sep)
  }

  /** Splitting loses nothing: the fields hold no separator and join to the text. */
  lemma {:induction false} SplitJoins<T>(s: seq<T>, sep: T)
    ensures Join(Split(s, sep), sep) == s && forall p | p in Split(s, sep) :: sep !in p
    decreases |s|
  {
    var i := FirstSep(s, sep);
    if i == |s| {
      assert s[..i] == s;
      SplitOne(s, sep);
    } else {
      var a, b := s[..i], s[i + 1..];
      assert s == a + [sep] + b;
      SplitMore(a, b, sep);
      SplitJoins(b, sep);
      assert ([a] + Split(b, sep))[1..] == Split(b, sep);
    }
  }

  /** And fields without separators are what their joined text splits into. */
  lemma {:induction false} JoinSplits<T>(parts: seq<seq<T>>, sep: T)
    requires parts != [] && forall p | p in parts :: sep !in p
    ensures Split(Join(parts, sep), sep) == parts
    decreases |parts|
  {
    if |parts| == 1 {
      SplitOne(parts[0], sep);
    } else {
      JoinSplits(parts[1..], sep);
      SplitMore(parts[0], Join(parts[1..], sep), sep);
      assert parts == [parts[0]] + parts[1..];
    }
  }
}

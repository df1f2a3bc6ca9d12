/** Plain text: matching at an offset, and first-match search as std::string::find does it.
    A character stands for one byte of a C++ std::string. */
module Text {
  import opened Wrappers

  /** `s` occurs in `t` at offset `i`. */
  predicate At(t: string, i: nat, s: string) {
    i + |s| <= |t| && t[i..i + |s|] == s
  }

  /** No occurrence of `s` starts in `t` at an offset in [lo, hi). */
  ghost predicate Free(t: string, lo: nat, hi: nat, s: string) {
    forall p | lo <= p < hi :: !At(t, p, s)
  }

  /** std::string::find(s, from): the first occurrence at or after `from`, None for npos. */
  function Find(t: string, s: string, from: nat): (r: Option<nat>)
    ensures r.Some? ==> from <= r.value && r.value + |s| <= |t|
    decreases |t| - from
  {
    if from + |s| > |t| then None
    else if At(t, from, s) then Some(from)
    else Find(t, s, from + 1)
  }

  lemma {:induction false} FindIsFirst(t: string, s: string, from: nat)
    ensures var r := Find(t, s, from);
            match r
            case Some(p) => At(t, p, s) && Free(t, from, p, s)
            case None => Free(t, from, |t| + 1, s)
    decreases |t| - from
  {
    if from + |s| <= |t| && !At(t, from, s) {
      FindIsFirst(t, s, from + 1);
    }
  }

  /** std::string::rfind(c) of one character: the last occurrence. */
  function FindLast(t: string, c: char): (r: Option<nat>)
    ensures r.Some? ==> r.value < |t| && t[r.value] == c && forall p | r.value < p < |t| :: t[p] != c
    ensures r.None? ==> c !in t
  {
    if t == "" then None
    else if t[|t| - 1] == c then Some(|t| - 1)
    else FindLast(t[..|t| - 1], c)
  }

  /** std::isspace in the C locale. */
  predicate IsSpace(c: char) {
    c == ' ' || c == '\t' || c == '\n' || c == '\U{b}' || c == '\U{c}' || c == '\r'
  }

  predicate IsDigit(c: char) {
    '0' <= c <= '9'
  }

  /** The first offset at or after `i` that does not hold a space. */
  function SkipSpaces(t: string, i: nat): (r: nat)
    requires i <= |t|
    ensures i <= r <= |t|
    ensures forall p | i <= p < r :: IsSpace(t[p])
    ensures r < |t| ==> !IsSpace(t[r])
    decreases |t| - i
  {
    if i < |t| && IsSpace(t[i]) then SkipSpaces(t, i + 1) else i
  }

  lemma {:induction false} SkipSpacesIs(t: string, i: nat, p: nat)
    requires i <= p <= |t| && (forall x | i <= x < p :: IsSpace(t[x])) && (p < |t| ==> !IsSpace(t[p]))
    ensures SkipSpaces(t, i) == p
    decreases p - i
  {
    if i < p {
      SkipSpacesIs(t, i + 1, p);
    }
  }

  lemma FindIs(t: string, s: string, from: nat, p: nat)
    requires from <= p && At(t, p, s) && Free(t, from, p, s)
    ensures Find(t, s, from) == Some(p)
  {
    FindIsFirst(t, s, from);
  }

  lemma FindNone(t: string, s: string, from: nat)
    requires Free(t, from, |t| + 1, s)
    ensures Find(t, s, from) == None
  {
    FindIsFirst(t, s, from);
  }

  lemma AtConcat(t: string, i: nat, a: string, b: string)
    ensures At(t, i, a + b) <==> At(t, i, a) && At(t, i + |a|, b)
  {
    if i + |a + b| <= |t| {
      assert t[i..i + |a + b|] == t[i..i + |a|] + t[i + |a|..i + |a| + |b|];
      if At(t, i, a + b) {
        assert t[i..i + |a|] == (a + b)[..|a|];
        assert t[i + |a|..i + |a| + |b|] == (a + b)[|a|..];
      }
    }
  }

  /** A first match that lies in a common beginning is the first match in both texts. */
  lemma FindCommon(t: string, u: string, s: string, from: nat, n: nat)
    requires n <= |t| && n <= |u| && t[..n] == u[..n]
    requires Find(t, s, from).Some? && Find(t, s, from).value + |s| <= n
    ensures Find(u, s, from) == Find(t, s, from)
  {
    var r := Find(t, s, from).value;
    FindIsFirst(t, s, from);
    forall p | from <= p <= r
      ensures At(t, p, s) == At(u, p, s)
    {
      assert t[p..p + |s|] == t[..n][p..p + |s|] && u[p..p + |s|] == u[..n][p..p + |s|];
    }
    FindIs(u, s, from, r);
  }

  lemma CharAt(t: string, p: nat, c: char)
    requires p < |t|
    ensures At(t, p, [c]) <==> t[p] == c
  {
  }
}

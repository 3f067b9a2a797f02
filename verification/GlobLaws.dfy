/** What the wildcards mean, in laws that determine the language of every pattern. */
module GlobLaws {
  import opened Options
  import opened Words
  import opened Glob

  // ---------- patterns, from the front ----------

  lemma MatchesEmpty(s: seq<Char16>)
    ensures Matches([], s) <==> s == []
  {
    AcceptsIsLanguage([], s);
  }

  lemma MatchesAccepts(p: seq<Char16>, s: seq<Char16>)
    ensures Matches(p, s) <==> Parse(p).Some? && Accepts(Parse(p).value, s)
  {
    if Parse(p).Some? {
      AcceptsIsLanguage(Parse(p).value, s);
    }
  }

  /** `*` stands for any string. */
  lemma MatchesStar(p: seq<Char16>, s: seq<Char16>)
    ensures Matches([0x2A] + p, s) <==> exists k | 0 <= k <= |s| :: Matches(p, s[k..])
  {
    var q := [0x2A] + p;
    assert q[0] == 0x2A && q[1..] == p;
    MatchesAccepts(q, s);
    forall k | 0 <= k <= |s|
      ensures Matches(p, s[k..]) <==> Parse(p).Some? && Accepts(Parse(p).value, s[k..])
    {
      MatchesAccepts(p, s[k..]);
    }
    if Parse(p).Some? {
      AcceptsAny(Parse(p).value, s);
    }
  }

  /** A token that stands for one character. */
  lemma MatchesToken(p: seq<Char16>, t: Token, rest: seq<Char16>, s: seq<Char16>)
    requires Parse(p) == Cons(t, Parse(rest)) && t != Any
    ensures Matches(p, s) <==> s != [] && InToken(t, [s[0]]) && Matches(rest, s[1..])
  {
    MatchesAccepts(p, s);
    if s != [] {
      MatchesAccepts(rest, s[1..]);
      assert s[..1] == [s[0]];
    }
    if Parse(rest).Some? {
      AcceptsOne(t, Parse(rest).value, s);
    }
  }

  /** `?` stands for any one character. */
  lemma MatchesQuestion(p: seq<Char16>, s: seq<Char16>)
    ensures Matches([0x3F] + p, s) <==> s != [] && Matches(p, s[1..])
  {
    var q := [0x3F] + p;
    assert q[0] == 0x3F && q[1..] == p;
    MatchesToken(q, One, p, s);
  }

  /** A character that is none of the wildcards stands for itself. */
  lemma MatchesLiteral(c: Char16, p: seq<Char16>, s: seq<Char16>)
    requires c != 0x2A && c != 0x3F && c != 0x5B
    ensures Matches([c] + p, s) <==> s != [] && s[0] == c && Matches(p, s[1..])
  {
    var q := [c] + p;
    assert q[0] == c && q[1..] == p;
    MatchesToken(q, Literal(c), p, s);
  }

  /** A set stands for one of the characters in it. */
  lemma MatchesSet(body: seq<Char16>, p: seq<Char16>, s: seq<Char16>)
    requires 0x5D !in body
    ensures Matches([0x5B] + body + [0x5D] + p, s) <==> s != [] && InSet(body, s[0]) && Matches(p, s[1..])
  {
    var q := [0x5B] + body + [0x5D] + p;
    assert q[0] == 0x5B && q[1..] == body + [0x5D] + p;
    ClosedAfter(body, p);
    MatchesToken(q, Set(body), p, s);
  }

  lemma ClosedAfter(body: seq<Char16>, p: seq<Char16>)
    requires 0x5D !in body
    ensures var r := body + [0x5D] + p;
      CloseAt(r) == |body| && |body| < |r| && r[..|body|] == body && r[|body| + 1..] == p
  {
    var r := body + [0x5D] + p;
    assert r[|body|] == 0x5D;
    assert forall i | 0 <= i < |body| :: r[i] == body[i] && body[i] in body;
  }

  // ---------- sets, from the back ----------

  lemma SetEmpty(c: Char16)
    ensures !InSet([], c)
  {
  }

  /** One more character in a set: itself, unless it is a dash; and after a dash also the range up to it,
    * from the character before the dash, or from zero. */
  lemma SetMore(b: seq<Char16>, p: Char16, c: Char16)
    ensures InSet(b + [p], c) <==>
              || InSet(b, c)
              || (p != 0x2D && c == p)
              || (b != [] && b[|b| - 1] == 0x2D && ((if |b| == 1 then 0 else b[|b| - 2]) <= c <= p || c == p))
  {
    var d, n := b + [p], |b|;
    assert d[n] == p && forall i | 0 <= i < n :: d[i] == b[i];
    forall i | 0 <= i < n - 1
      ensures Admits(d, i, c) <==> Admits(b, i, c)
    {
    }
    if InSet(b, c) {
      var i :| 0 <= i < n && Admits(b, i, c);
      assert Admits(d, i, c);
    }
    if InSet(d, c) {
      var i :| 0 <= i < n + 1 && Admits(d, i, c);
      if i == n - 1 && b[i] != 0x2D {
        assert Admits(b, i, c);
      }
    }
    if p != 0x2D && c == p {
      assert Admits(d, n, c);
    }
    if n > 0 && b[n - 1] == 0x2D && ((if n == 1 then 0 else b[n - 2]) <= c <= p || c == p) {
      assert Admits(d, n - 1, c);
    }
  }

  /** Without a dash, a set holds exactly its characters. */
  lemma {:induction false} SetOfMembers(b: seq<Char16>, c: Char16)
    requires 0x2D !in b
    ensures InSet(b, c) <==> c in b
    decreases |b|
  {
    if b != [] {
      var n := |b| - 1;
      assert b == b[..n] + [b[n]] && b[n] in b;
      SetOfMembers(b[..n], c);
      SetMore(b[..n], b[n], c);
    }
  }

  /** `lo-hi` holds the range and both its ends. */
  lemma SetOfRange(lo: Char16, hi: Char16, c: Char16)
    requires lo != 0x2D && hi != 0x2D
    ensures InSet([lo, 0x2D, hi], c) <==> lo <= c <= hi || c == lo || c == hi
  {
    assert [] + [lo] == [lo] && [lo] + [0x2D] == [lo, 0x2D] && [lo, 0x2D] + [hi] == [lo, 0x2D, hi];
    SetMore([], lo, c);
    SetMore([lo], 0x2D, c);
    SetMore([lo, 0x2D], hi, c);
  }

  /** A leading dash ranges from zero. */
  lemma SetUpTo(hi: Char16, c: Char16)
    ensures InSet([0x2D, hi], c) <==> c <= hi
  {
    assert [] + [0x2D] == [0x2D] && [0x2D] + [hi] == [0x2D, hi];
    SetMore([], 0x2D, c);
    SetMore([0x2D], hi, c);
  }

  /** Where no dash is at the seam, two sets in one hold what either holds. */
  lemma {:induction false} SetOfBoth(a: seq<Char16>, b: seq<Char16>, c: Char16)
    requires a == [] || a[|a| - 1] != 0x2D
    requires b == [] || b[0] != 0x2D
    ensures InSet(a + b, c) <==> InSet(a, c) || InSet(b, c)
    decreases |b|
  {
    if b == [] {
      assert a + b == a;
    } else {
      var n := |b| - 1;
      var x, p := b[..n], b[n];
      assert b == x + [p] && a + b == a + x + [p];
      SetOfBoth(a, x, c);
      SetMore(x, p, c);
      SetMore(a + x, p, c);
      assert n > 0 ==> (a + x)[|a + x| - 1] == x[n - 1] && x[0] == b[0];
      assert n > 1 ==> (a + x)[|a + x| - 2] == x[n - 2];
      assert n == 0 ==> a + x == a;
    }
  }

  /** The pattern `[lo-hi]`. */
  lemma MatchesRange(lo: Char16, hi: Char16, s: seq<Char16>)
    requires lo != 0x2D && lo != 0x5D && hi != 0x2D && hi != 0x5D
    ensures Matches([0x5B, lo, 0x2D, hi, 0x5D], s) <==> |s| == 1 && (lo <= s[0] <= hi || s[0] == lo || s[0] == hi)
  {
    assert [0x5B] + [lo, 0x2D, hi] + [0x5D] + [] == [0x5B, lo, 0x2D, hi, 0x5D];
    MatchesSet([lo, 0x2D, hi], [], s);
    if s != [] {
      SetOfRange(lo, hi, s[0]);
      MatchesEmpty(s[1..]);
    }
  }
}

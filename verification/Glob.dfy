/** The glob matcher `MetaMatch` of `str.c`, against the language of a pattern. */
module Glob {
  import opened Options
  import opened Words

  const STAR: Char16 := 0x2A
  const QUESTION: Char16 := 0x3F
  const OPEN: Char16 := 0x5B
  const CLOSE: Char16 := 0x5D
  const DASH: Char16 := 0x2D

  /** A buffer that holds a string: its first NUL is its last character. */
  ghost predicate Terminated(b: seq<Char16>) {
    |b| > 0 && b[|b| - 1] == 0 && forall i | 0 <= i < |b| - 1 :: b[i] != 0
  }

  /** The string that a pointer to cell `i` of a terminated buffer denotes. */
  function From(b: seq<Char16>, i: nat): seq<Char16>
    requires i < |b|
  {
    b[i..|b| - 1]
  }

  // ---------- the language of a pattern ----------

  datatype Token = Any | One | Set(body: seq<Char16>) | Literal(c: Char16)

  /** The position of the first `]`, or the length when there is none. */
  function CloseAt(p: seq<Char16>): (k: nat)
    ensures k <= |p|
    ensures forall i | 0 <= i < k :: p[i] != CLOSE
    ensures k < |p| ==> p[k] == CLOSE
  {
    if p == [] || p[0] == CLOSE then 0 else 1 + CloseAt(p[1..])
  }

  function Cons(t: Token, rest: Option<seq<Token>>): Option<seq<Token>> {
    match rest
    case None => None
    case Some(ts) => Some([t] + ts)
  }

  /** The tokens of a pattern; None when a set is never closed. */
  function Parse(p: seq<Char16>): Option<seq<Token>> {
    if p == [] then Some([])
    else if p[0] == STAR then Cons(Any, Parse(p[1..]))
    else if p[0] == QUESTION then Cons(One, Parse(p[1..]))
    else if p[0] == OPEN then
      var k := CloseAt(p[1..]);
      if k == |p[1..]| then None else Cons(Set(p[1..][..k]), Parse(p[1..][k + 1..]))
    else Cons(Literal(p[0]), Parse(p[1..]))
  }

  /** What position `i` of a set's body admits: itself, unless it is a dash; a dash admits the range
    * between its neighbours and its upper neighbour. A leading dash ranges from zero. */
  ghost predicate Admits(body: seq<Char16>, i: nat, c: Char16)
    requires i < |body|
  {
    if body[i] != DASH then c == body[i]
    else i + 1 < |body| && ((if i == 0 then 0 else body[i - 1]) <= c <= body[i + 1] || c == body[i + 1])
  }

  ghost predicate InSet(body: seq<Char16>, c: Char16) {
    exists i | 0 <= i < |body| :: Admits(body, i, c)
  }

  ghost predicate InToken(t: Token, piece: seq<Char16>) {
    match t
    case Any => true
    case One => |piece| == 1
    case Literal(c) => piece == [c]
    case Set(body) => |piece| == 1 && InSet(body, piece[0])
  }

  function Join(pieces: seq<seq<Char16>>): seq<Char16> {
    if pieces == [] then [] else pieces[0] + Join(pieces[1..])
  }

  ghost predicate Splits(ts: seq<Token>, pieces: seq<seq<Char16>>, s: seq<Char16>) {
    |pieces| == |ts| && Join(pieces) == s && forall i | 0 <= i < |ts| :: InToken(ts[i], pieces[i])
  }

  /** A string is in the language of the tokens when it falls into pieces, one for each token. */
  ghost predicate InLanguage(ts: seq<Token>, s: seq<Char16>) {
    exists pieces :: Splits(ts, pieces, s)
  }

  // ---------- the same language, one token at a time ----------

  ghost predicate Accepts(ts: seq<Token>, s: seq<Char16>)
    decreases |ts|
  {
    if ts == [] then s == []
    else if ts[0] == Any then exists k | 0 <= k <= |s| :: Accepts(ts[1..], s[k..])
    else s != [] && InToken(ts[0], s[..1]) && Accepts(ts[1..], s[1..])
  }

  lemma {:induction false} AcceptsSplit(ts: seq<Token>, pieces: seq<seq<Char16>>, s: seq<Char16>)
    requires Splits(ts, pieces, s)
    ensures Accepts(ts, s)
  {
    if ts != [] {
      var k := |pieces[0]|;
      FirstPiece(ts, pieces, s);
      hide Splits, InToken;
      AcceptsSplit(ts[1..], pieces[1..], s[k..]);
    }
  }

  lemma FirstPiece(ts: seq<Token>, pieces: seq<seq<Char16>>, s: seq<Char16>)
    requires Splits(ts, pieces, s) && ts != []
    ensures var k := |pieces[0]|;
      && k <= |s| && s[..k] == pieces[0] && InToken(ts[0], s[..k])
      && (ts[0] != Any ==> k == 1) && Splits(ts[1..], pieces[1..], s[k..])
  {
    assert s[|pieces[0]|..] == Join(pieces[1..]);
    assert InToken(ts[0], pieces[0]);
  }

  lemma {:induction false} SplitOfAccepted(ts: seq<Token>, s: seq<Char16>) returns (pieces: seq<seq<Char16>>)
    requires Accepts(ts, s)
    ensures Splits(ts, pieces, s)
  {
    if ts == [] {
      pieces := [];
    } else {
      var k := 1;
      if ts[0] == Any {
        k :| 0 <= k <= |s| && Accepts(ts[1..], s[k..]);
      }
      var rest := SplitOfAccepted(ts[1..], s[k..]);
      pieces := [s[..k]] + rest;
      assert pieces[1..] == rest;
      assert s[..k] + s[k..] == s;
    }
  }

  lemma AcceptsIsLanguage(ts: seq<Token>, s: seq<Char16>)
    ensures Accepts(ts, s) <==> InLanguage(ts, s)
  {
    if Accepts(ts, s) {
      var pieces := SplitOfAccepted(ts, s);
    }
    if InLanguage(ts, s) {
      var pieces :| Splits(ts, pieces, s);
      AcceptsSplit(ts, pieces, s);
    }
  }

  /** A pattern parses exactly when each of its opening brackets has a closing one after it. */
  lemma {:induction false} ParsesIffClosed(p: seq<Char16>)
    ensures Parse(p).Some? <==> forall i | 0 <= i < |p| && p[i] == OPEN :: CLOSE in p[i..]
  {
    if p != [] && p[0] != OPEN {
      ParsesIffClosed(p[1..]);
      ClosedTail(p, 1);
    } else if p != [] {
      var q := p[1..];
      var k := CloseAt(q);
      assert p[0..] == p;
      if k < |q| {
        ParsesIffClosed(q[k + 1..]);
        assert q[k + 1..] == p[k + 2..];
        ClosedTail(p, k + 2);
        forall i | 0 <= i < k + 2
          ensures CLOSE in p[i..]
        {
          assert p[i..][k + 1 - i] == CLOSE;
        }
      } else {
        assert CLOSE !in p;
      }
    }
  }

  lemma ClosedTail(p: seq<Char16>, n: nat)
    requires n <= |p|
    ensures (forall i | n <= i < |p| && p[i] == OPEN :: CLOSE in p[i..])
       <==> (forall i | 0 <= i < |p[n..]| && p[n..][i] == OPEN :: CLOSE in p[n..][i..])
  {
    forall i | 0 <= i < |p[n..]|
      ensures p[n..][i..] == p[n + i..]
    {
    }
    if forall i | 0 <= i < |p[n..]| && p[n..][i] == OPEN :: CLOSE in p[n..][i..] {
      forall i | n <= i < |p| && p[i] == OPEN
        ensures CLOSE in p[i..]
      {
        assert p[n..][i - n] == OPEN;
      }
    }
  }

  // ---------- the matcher ----------

  lemma ParseStep(p: seq<Char16>, i: nat)
    requires i < |p| - 1 && p[i] != OPEN && Parse(From(p, i)).Some?
    ensures Parse(From(p, i + 1)).Some?
    ensures var t := if p[i] == STAR then Any else if p[i] == QUESTION then One else Literal(p[i]);
            Parse(From(p, i)) == Some([t] + Parse(From(p, i + 1)).value)
  {
    assert From(p, i)[1..] == From(p, i + 1);
  }

  /** The body of the set that opens at `i`. */
  function Body(p: seq<Char16>, i: nat): seq<Char16>
    requires i < |p| - 1
  {
    From(p, i + 1)[..CloseAt(From(p, i + 1))]
  }

  lemma ParseSet(p: seq<Char16>, i: nat)
    requires i < |p| - 1 && p[i] == OPEN && Parse(From(p, i)).Some?
    ensures var b := Body(p, i);
      && i + |b| + 1 < |p| - 1 && p[i + |b| + 1] == CLOSE && CLOSE !in b
      && (forall k | 0 <= k < |b| :: p[i + 1 + k] == b[k])
      && Parse(From(p, i + |b| + 2)).Some?
      && Parse(From(p, i)) == Some([Set(b)] + Parse(From(p, i + |b| + 2)).value)
  {
    var q := From(p, i + 1);
    assert From(p, i)[1..] == q;
    var k := CloseAt(q);
    assert q[k + 1..] == From(p, i + k + 2);
  }

  /** Matching one character against a set, from the cell after the opening bracket. The result
    * `next` is the cell after the closing bracket. */
  method MatchSet(c: Char16, p: seq<Char16>, start: nat, ghost body: seq<Char16>) returns (ok: bool, next: nat)
    requires Terminated(p) && c != 0
    requires start + |body| < |p| - 1 && p[start + |body|] == CLOSE && CLOSE !in body
    requires forall k | 0 <= k < |body| :: p[start + k] == body[k]
    ensures ok <==> InSet(body, c)
    ensures ok ==> next == start + |body| + 1
  {
    var l: Char16 := 0;
    next := start;
    var q := p[next];
    next := next + 1;
    while q != 0
      invariant start < next <= start + |body| + 1 && q == p[next - 1]
      invariant q == DASH ==> l == if next - 1 == start then 0 else body[next - 2 - start]
      invariant forall i | 0 <= i < next - 1 - start :: !Admits(body, i, c)
      decreases |p| - next
    {
      ghost var at := next - 1 - start;
      assert at < |body| ==> p[start + at] == body[at] && body[at] in body;
      if q == CLOSE {
        return false, next;
      }
      assert at + 1 < |body| ==> p[start + (at + 1)] == body[at + 1] && body[at + 1] in body;
      if q == DASH {
        q := p[next];
        if q == 0 || q == CLOSE {
          assert at + 1 == |body|;
          return false, next;
        }
        if l <= c <= q {
          assert Admits(body, at, c);
          break;
        }
      }
      l := q;
      if c == q {
        assert Admits(body, at, c);
        break;
      }
      assert !Admits(body, at, c);
      q := p[next];
      next := next + 1;
    }
    while q != 0 && q != CLOSE
      invariant start < next <= start + |body| + 1 && q != 0
      invariant q == CLOSE <==> next == start + |body| + 1
      decreases |p| - next
    {
      assert next - start < |body| ==> p[start + (next - start)] == body[next - start] && body[next - start] in body;
      q := p[next];
      next := next + 1;
    }
    ok := true;
  }

  /** Reading the cell at `i`: the string is empty, or it has that character in front. */
  lemma FromStep(b: seq<Char16>, i: nat)
    requires Terminated(b) && i < |b|
    ensures b[i] == 0 <==> i == |b| - 1
    ensures if i == |b| - 1 then From(b, i) == []
            else From(b, i) != [] && From(b, i)[..1] == [b[i]] && From(b, i)[1..] == From(b, i + 1)
  {
  }

  lemma AcceptsEmpty(s: seq<Char16>)
    ensures Parse([]) == Some([]) && (Accepts([], s) <==> s == [])
  {
  }

  lemma AcceptsOne(t: Token, tail: seq<Token>, s: seq<Char16>)
    requires t != Any
    ensures Accepts([t] + tail, s) <==> s != [] && InToken(t, s[..1]) && Accepts(tail, s[1..])
  {
    assert ([t] + tail)[1..] == tail;
  }

  lemma AcceptsAny(tail: seq<Token>, s: seq<Char16>)
    ensures Accepts([Any] + tail, s) <==> exists k | 0 <= k <= |s| :: Accepts(tail, s[k..])
  {
    assert ([Any] + tail)[1..] == tail;
  }

  lemma StarAccepts(tail: seq<Token>, sb: seq<Char16>, s0: nat, s: nat)
    requires s0 <= s < |sb| && Accepts(tail, From(sb, s))
    ensures Accepts([Any] + tail, From(sb, s0))
  {
    hide Accepts;
    assert From(sb, s0)[s - s0..] == From(sb, s);
    AcceptsAny(tail, From(sb, s0));
  }

  lemma StarRejects(tail: seq<Token>, sb: seq<Char16>, s0: nat)
    requires s0 < |sb| && forall k | s0 <= k < |sb| :: !Accepts(tail, From(sb, k))
    ensures !Accepts([Any] + tail, From(sb, s0))
  {
    hide Accepts;
    AcceptsAny(tail, From(sb, s0));
    forall k | 0 <= k <= |From(sb, s0)|
      ensures !Accepts(tail, From(sb, s0)[k..])
    {
      assert From(sb, s0)[k..] == From(sb, s0 + k);
    }
  }

  lemma InOne(c: Char16)
    ensures InToken(One, [c])
    ensures forall p: Char16 :: InToken(Literal(p), [c]) <==> c == p
    ensures forall b: seq<Char16> :: InToken(Set(b), [c]) <==> InSet(b, c)
  {
  }

  /** `MetaMatch` on the strings at cell `start` of `sb` and cell `pattern` of `pb`. Every read is
    * within the buffers. */
  method MetaMatch(sb: seq<Char16>, start: nat, pb: seq<Char16>, pattern: nat) returns (ok: bool)
    requires Terminated(sb) && start < |sb| && Terminated(pb) && pattern < |pb|
    requires Parse(From(pb, pattern)).Some?
    ensures ok <==> Accepts(Parse(From(pb, pattern)).value, From(sb, start))
    decreases |pb| - pattern, |sb| - start
  {
    var s, n := start, pattern;
    hide Accepts, Parse, InToken, From;
    ghost var goal := Accepts(Parse(From(pb, pattern)).value, From(sb, start));
    while true
      invariant pattern <= n < |pb| && start <= s < |sb|
      invariant Parse(From(pb, n)).Some?
      invariant Accepts(Parse(From(pb, n)).value, From(sb, s)) == goal
      decreases |pb| - n
    {
      FromStep(pb, n);
      FromStep(sb, s);
      var p := pb[n];
      n := n + 1;
      if p == 0 {
        AcceptsEmpty(From(sb, s));
        return sb[s] == 0;
      }
      if p != OPEN {
        ParseStep(pb, n - 1);
      }
      ghost var tail := if p != OPEN then Parse(From(pb, n)).value else [];
      if p == STAR {
        ghost var s0 := s;
        while sb[s] != 0
          invariant s0 <= s < |sb|
          invariant forall k | s0 <= k < s :: !Accepts(tail, From(sb, k))
          decreases |sb| - s
        {
          ok := MetaMatch(sb, s, pb, n);
          if ok {
            StarAccepts(tail, sb, s0, s);
            return true;
          }
          s := s + 1;
          assert s < |sb|;
        }
        ok := MetaMatch(sb, s, pb, n);
        if ok {
          StarAccepts(tail, sb, s0, s);
        } else {
          StarRejects(tail, sb, s0);
        }
        return ok;
      } else if p == QUESTION {
        AcceptsOne(One, tail, From(sb, s));
        InOne(sb[s]);
        if sb[s] == 0 {
          return false;
        }
        s := s + 1;
      } else if p == OPEN {
        var c := sb[s];
        ParseSet(pb, n - 1);
        ghost var body := Body(pb, n - 1);
        AcceptsOne(Set(body), Parse(From(pb, n + |body| + 1)).value, From(sb, s));
        InOne(c);
        if c == 0 {
          return false;
        }
        var inSet, next := MatchSet(c, pb, n, body);
        if !inSet {
          return false;
        }
        n := next;
        s := s + 1;
      } else {
        AcceptsOne(Literal(p), tail, From(sb, s));
        InOne(sb[s]);
        var c := sb[s];
        if c != p {
          return false;
        }
        s := s + 1;
      }
    }
  }

  /** The language of a pattern, if its sets are closed. */
  ghost predicate Matches(p: seq<Char16>, s: seq<Char16>) {
    Parse(p).Some? && InLanguage(Parse(p).value, s)
  }

  /** `LibStubMetaiMatch`, the library's own collation service: the matcher, called on whole buffers,
    * decides the language of the pattern. */
  method LibStubMetaiMatch(sb: seq<Char16>, pb: seq<Char16>) returns (ok: bool)
    requires Terminated(sb) && Terminated(pb)
    requires forall i | 0 <= i < |pb| && pb[i] == OPEN :: CLOSE in pb[i..]
    ensures ok <==> Matches(pb[..|pb| - 1], sb[..|sb| - 1])
  {
    forall i | 0 <= i < |From(pb, 0)| && From(pb, 0)[i] == OPEN
      ensures CLOSE in From(pb, 0)[i..]
    {
      assert CLOSE in pb[i..];
      var j :| 0 <= j < |pb[i..]| && pb[i..][j] == CLOSE;
      assert From(pb, 0)[i..][j] == CLOSE;
    }
    ParsesIffClosed(From(pb, 0));
    ok := MetaMatch(sb, 0, pb, 0);
    AcceptsIsLanguage(Parse(From(pb, 0)).value, From(sb, 0));
  }
}

/** Escapes in patterns: when __pattmatch of tools.c has the meaning frat.h documents. */
module Escapes {
  import opened Arith
  import opened Wildcard

  /** Does p start with an escaped character? A backslash at the very end stands for itself. */
  predicate Escape(p: string) { |p| > 1 && p[0] == '\\' }

  /** The documented meaning: a backslash makes the next character literal, '*' is any one character,
      '***' is any snippet, any other character is itself. */
  ghost predicate MeansEscaped(p: string, s: string)
    decreases |p|
  {
    if p == "" then s == ""
    else if Escape(p) then s != "" && s[0] == p[1] && MeansEscaped(p[2..], s[1..])
    else if StartsBlock(p) then exists k :: 0 <= k <= |s| && MeansEscaped(p[3..], s[k..])
    else if p[0] == '*' then s != "" && MeansEscaped(p[1..], s[1..])
    else s != "" && p[0] == s[0] && MeansEscaped(p[1..], s[1..])
  }

  /** The patterns whose escapes survive: an escaped '*' only follows directly on block wildcards, with
      at most one '*' after it; block wildcards follow on each other only in front of such an escape;
      and no other three '*' come together once the backslashes are gone. */
  predicate Honoured(p: string)
    decreases |p|, 1
  {
    if p == "" then true
    else if Escape(p) then p[1] != '*' && Honoured(p[2..])
    else if StartsBlock(p) then HonouredAfter(p[3..], false)
    else if p[0] == '*' then !StartsBlock(Unescaped(p)) && Honoured(p[1..])
    else Honoured(p[1..])
  }

  /** What may follow on a block wildcard, or on several. */
  predicate HonouredAfter(r: string, several: bool)
    decreases |r|, 2
  {
    if r == "" then !several
    else if Escape(r) && r[1] == '*' then !StartsBlock(Unescaped(r)) && Honoured(r[2..])
    else if StartsBlock(r) then HonouredAfter(r[3..], true)
    else r[0] != '*' && !several && Honoured(r)
  }

  // ---------------------------------------------------------------- wildcard languages

  /** A pattern as its literals with what stands in front of each: a number of single wildcards and
      whether a block wildcard is among them. */
  datatype Form =
    | End(ones: nat, many: bool)
    | Then(ones: nat, many: bool, c: char, next: Form)

  /** The names a form stands for. */
  ghost predicate Fits(f: Form, s: string)
    decreases f
  {
    match f
    case End(n, many) => |s| == n || (many && |s| > n)
    case Then(n, many, c, next) => exists j :: Lands(f, s, j) && Fits(next, s[j + 1..])
  }

  /** The first literal of f may fall on s[j]. */
  predicate Lands(f: Form, s: string, j: int)
    requires f.Then?
  {
    0 <= j < |s| && s[j] == f.c && (j == f.ones || (f.many && j > f.ones))
  }

  /** The length of the shortest names. */
  function Least(f: Form): nat
  {
    if f.End? then f.ones else f.ones + 1 + Least(f.next)
  }

  /** One of the shortest names. */
  function Shortest(f: Form): (s: string)
    ensures |s| == Least(f)
  {
    if f.End? then Repeated('a', f.ones) else Repeated('a', f.ones) + [f.c] + Shortest(f.next)
  }

  lemma {:induction false} LeastFits(f: Form, s: string)
    requires Fits(f, s)
    ensures |s| >= Least(f)
  {
    if f.Then? {
      var j :| Lands(f, s, j) && Fits(f.next, s[j + 1..]);
      LeastFits(f.next, s[j + 1..]);
    }
  }

  /** A name with the literal in its first possible place. */
  lemma FitsAt(f: Form, p: string, rest: string, s: string)
    requires f.Then? && |p| == f.ones && s == p + [f.c] + rest && Fits(f.next, rest)
    ensures Fits(f, s)
  {
    assert s[f.ones + 1..] == rest;
    assert Lands(f, s, f.ones);
  }

  lemma {:induction false} ShortestFits(f: Form)
    ensures Fits(f, Shortest(f))
  {
    if f.Then? {
      ShortestFits(f.next);
      FitsAt(f, Repeated('a', f.ones), Shortest(f.next), Shortest(f));
    }
  }

  /** A shortest name has its first literal in the first possible place. */
  lemma ShortNames(f: Form, s: string)
    requires f.Then? && |s| == Least(f)
    ensures Fits(f, s) <==> s[f.ones] == f.c && Fits(f.next, s[f.ones + 1..])
  {
    if Fits(f, s) {
      var j :| Lands(f, s, j) && Fits(f.next, s[j + 1..]);
      LeastFits(f.next, s[j + 1..]);
    }
    if s[f.ones] == f.c && Fits(f.next, s[f.ones + 1..]) {
      assert Lands(f, s, f.ones);
    }
  }

  /** s is a name of f with its first literal at j. */
  ghost predicate FitsFrom(f: Form, s: string, j: nat)
    requires f.Then?
  {
    j < |s| && s[j] == f.c && Fits(f.next, s[j + 1..])
  }

  /** A name one longer has it there or one further on. */
  lemma LongerNames(f: Form, s: string)
    requires f.Then? && |s| == Least(f) + 1
    ensures Fits(f, s) <==> FitsFrom(f, s, f.ones) || (f.many && FitsFrom(f, s, f.ones + 1))
  {
    hide Fits, Least;
    if Fits(f, s) {
      var j := LandsEarly(f, s);
    }
    if FitsFrom(f, s, f.ones) {
      LandsFits(f, s, f.ones);
    }
    if f.many && FitsFrom(f, s, f.ones + 1) {
      LandsFits(f, s, f.ones + 1);
    }
  }

  /** The first literal falls at most as far behind its first place as the name is longer than the shortest. */
  lemma LandsEarly(f: Form, s: string) returns (j: nat)
    requires f.Then? && Fits(f, s)
    ensures Lands(f, s, j) && FitsFrom(f, s, j) && j + Least(f) <= f.ones + |s|
  {
    j :| Lands(f, s, j) && Fits(f.next, s[j + 1..]);
    LeastFits(f.next, s[j + 1..]);
  }

  /** A character that is neither of two. */
  function Other(a: char, b: char): (d: char)
    ensures d != a && d != b
  {
    if a != 'a' && b != 'a' then 'a' else if a != 'b' && b != 'b' then 'b' else 'c'
  }

  /** s tells f and g apart, and still does behind a block wildcard and the literal c0: it is a
      shortest name, or one longer and no name of either when that literal takes up its first character. */
  ghost predicate Tells(f: Form, g: Form, c0: char, s: string)
  {
    && (Fits(f, s) <==> !Fits(g, s))
    && (|s| == Least(f) <= Least(g) || |s| == Least(g) <= Least(f) ||
        (|s| == Least(f) + 1 == Least(g) + 1 && !(s[0] == c0 && (Fits(f, s[1..]) || Fits(g, s[1..])))))
  }

  /** Different shortest lengths. */
  lemma TellsByLength(f: Form, g: Form, c0: char) returns (s: string)
    requires Least(f) < Least(g)
    ensures Tells(f, g, c0, s) && Tells(g, f, c0, s)
  {
    s := Shortest(f);
    ShortestFits(f);
    if Fits(g, s) {
      LeastFits(g, s);
    }
  }

  /** The first literal of f stands where g has a wildcard. */
  lemma TellsByPlace(f: Form, g: Form, c0: char) returns (s: string)
    requires f.Then? && f.ones < g.ones && Least(f) == Least(g)
    ensures Tells(f, g, c0, s) && Tells(g, f, c0, s)
  {
    var d := Other(f.c, f.c);
    var p := Repeated(d, g.ones);
    if g.Then? {
      s := p + [g.c] + Shortest(g.next);
      ShortestFits(g.next);
      FitsAt(g, p, Shortest(g.next), s);
    } else {
      s := p;
    }
    ShortNames(f, s);
  }

  /** Different literals in the same place. */
  lemma TellsByLiteral(f: Form, g: Form, c0: char) returns (s: string)
    requires f.Then? && g.Then? && f.ones == g.ones && f.c != g.c && Least(f) == Least(g)
    ensures Tells(f, g, c0, s)
  {
    s := Shortest(f);
    ShortestFits(f);
    ShortNames(g, s);
  }

  /** A block wildcard in the first place of f only. */
  lemma TellsByBlock(f: Form, g: Form, c0: char) returns (s: string)
    requires f.many && g == f.(many := false)
    ensures Tells(f, g, c0, s) && Tells(g, f, c0, s)
  {
    if f.End? {
      s := Repeated(Other(c0, c0), f.ones + 1);
    } else {
      var d := Other(c0, f.c);
      s := Repeated(d, f.ones + 1) + [f.c] + Shortest(f.next);
      ShortestFits(f.next);
      assert s[f.ones + 2..] == Shortest(f.next);
      LongerNames(f, s);
      LongerNames(g, s);
    }
  }

  /** Put behind the same wildcards and literal, a name that tells the rests apart tells the forms apart. */
  lemma TellsBehind(f: Form, g: Form, c0: char, t: string) returns (s: string)
    requires f.Then? && g.Then? && f.ones == g.ones && f.c == g.c && Least(f) == Least(g)
    requires Tells(f.next, g.next, f.c, t)
    ensures Tells(f, g, c0, s)
  {
    var n := f.ones;
    s := Repeated('a', n) + [f.c] + t;
    assert s[n + 1..] == t;
    if |s| == Least(f) {
      ShortNames(f, s);
      ShortNames(g, s);
    } else {
      assert s[n + 2..] == t[1..] && s[n + 1] == t[0];
      LongerNames(f, s);
      LongerNames(g, s);
      assert s[1..][n] == s[n + 1] && s[1..][n + 1..] == t[1..];
      ShortNames(f, s[1..]);
      ShortNames(g, s[1..]);
    }
  }

  /** A name that tells two different forms apart. */
  lemma {:induction false} Distinguished(f: Form, g: Form, c0: char) returns (s: string)
    requires f != g
    ensures Tells(f, g, c0, s)
    decreases f
  {
    if Least(f) < Least(g) {
      s := TellsByLength(f, g, c0);
    } else if Least(g) < Least(f) {
      s := TellsByLength(g, f, c0);
    } else if f.ones < g.ones {
      s := TellsByPlace(f, g, c0);
    } else if g.ones < f.ones {
      s := TellsByPlace(g, f, c0);
    } else if f.End? || f.c != g.c {
      if f.End? {
        if f.many {
          s := TellsByBlock(f, g, c0);
        } else {
          s := TellsByBlock(g, f, c0);
        }
      } else {
        s := TellsByLiteral(f, g, c0);
      }
    } else if f.next != g.next {
      var t := Distinguished(f.next, g.next, f.c);
      s := TellsBehind(f, g, c0, t);
    } else if f.many {
      s := TellsByBlock(f, g, c0);
    } else {
      s := TellsByBlock(g, f, c0);
    }
  }

  /** Two forms stand for the same names exactly when they are the same. */
  lemma FormsExactly(f: Form, g: Form)
    ensures (forall s: string :: Fits(f, s) <==> Fits(g, s)) <==> f == g
  {
    if f != g {
      var s := Distinguished(f, g, 'a');
      assert Fits(f, s) <==> !Fits(g, s);
    }
  }

  function WithOne(f: Form): Form { f.(ones := f.ones + 1) }

  function WithMany(f: Form): Form { f.(many := true) }

  function Literal(c: char, f: Form): Form { Then(0, false, c, f) }

  lemma FitsLiteral(c: char, f: Form, s: string)
    ensures Fits(Literal(c, f), s) <==> s != "" && s[0] == c && Fits(f, s[1..])
  {
    if s != "" && s[0] == c && Fits(f, s[1..]) {
      assert Lands(Literal(c, f), s, 0);
    }
  }

  lemma FitsOne(f: Form, s: string)
    ensures Fits(WithOne(f), s) <==> s != "" && Fits(f, s[1..])
  {
    if f.Then? {
      if Fits(WithOne(f), s) {
        OneLess(f, s);
      }
      if s != "" && Fits(f, s[1..]) {
        OneMore(f, s);
      }
    }
  }

  lemma OneLess(f: Form, s: string)
    requires f.Then? && Fits(WithOne(f), s)
    ensures s != "" && Fits(f, s[1..])
  {
    var j :| Lands(WithOne(f), s, j) && Fits(f.next, s[j + 1..]);
    assert Lands(f, s[1..], j - 1) && s[1..][j..] == s[j + 1..];
  }

  lemma OneMore(f: Form, s: string)
    requires f.Then? && s != "" && Fits(f, s[1..])
    ensures Fits(WithOne(f), s)
  {
    var t := s[1..];
    var j :| Lands(f, t, j) && Fits(f.next, t[j + 1..]);
    SuffixOfTail(s, t, j);
    LandsFits(WithOne(f), s, j + 1);
  }

  lemma SuffixOfTail(s: string, t: string, j: nat)
    requires s != "" && t == s[1..] && j < |t|
    ensures t[j] == s[j + 1] && t[j + 1..] == s[j + 2..]
  {
  }

  lemma LandsFits(f: Form, s: string, j: nat)
    requires f.Then? && Lands(f, s, j) && Fits(f.next, s[j + 1..])
    ensures Fits(f, s)
  {
  }

  lemma FitsMany(f: Form, s: string)
    ensures Fits(WithMany(f), s) <==> exists k :: 0 <= k <= |s| && Fits(f, s[k..])
  {
    if Fits(WithMany(f), s) {
      var k := ManySkips(f, s);
    }
    if k :| 0 <= k <= |s| && Fits(f, s[k..]) {
      SkipFits(f, s, k);
    }
  }

  lemma ManySkips(f: Form, s: string) returns (k: nat)
    requires Fits(WithMany(f), s)
    ensures k <= |s| && Fits(f, s[k..])
  {
    if f.End? {
      k := |s| - f.ones;
    } else {
      var j :| Lands(WithMany(f), s, j) && Fits(f.next, s[j + 1..]);
      k := j - f.ones;
      assert s[k..][f.ones + 1..] == s[j + 1..];
      assert Lands(f, s[k..], f.ones);
    }
  }

  lemma SkipFits(f: Form, s: string, k: nat)
    requires k <= |s| && Fits(f, s[k..])
    ensures Fits(WithMany(f), s)
  {
    if f.Then? {
      var j :| Lands(f, s[k..], j) && Fits(f.next, s[k..][j + 1..]);
      assert s[k..][j + 1..] == s[k + j + 1..];
      assert Lands(WithMany(f), s, k + j);
    }
  }

  // ---------------------------------------------------------------- what is documented

  function Documented(p: string): Form
    decreases |p|
  {
    if p == "" then End(0, false)
    else if Escape(p) then Literal(p[1], Documented(p[2..]))
    else if StartsBlock(p) then WithMany(Documented(p[3..]))
    else if p[0] == '*' then WithOne(Documented(p[1..]))
    else Literal(p[0], Documented(p[1..]))
  }

  lemma {:induction false} DocumentedIs(p: string, s: string)
    ensures MeansEscaped(p, s) <==> Fits(Documented(p), s)
    decreases |p|
  {
    if p != "" {
      if Escape(p) {
        FitsLiteral(p[1], Documented(p[2..]), s);
        if s != "" {
          DocumentedIs(p[2..], s[1..]);
        }
      } else if StartsBlock(p) {
        FitsMany(Documented(p[3..]), s);
        forall k | 0 <= k <= |s|
          ensures MeansEscaped(p[3..], s[k..]) <==> Fits(Documented(p[3..]), s[k..])
        {
          DocumentedIs(p[3..], s[k..]);
        }
      } else {
        FitsOne(Documented(p[1..]), s);
        FitsLiteral(p[0], Documented(p[1..]), s);
        if s != "" {
          DocumentedIs(p[1..], s[1..]);
        }
      }
    }
  }

  // ---------------------------------------------------------------- what match_rec does

  /** A block wildcard in front of another '*' demands a '*' in the name. */
  function Actual(u: string): Form
    decreases |u|
  {
    if u == "" then End(0, false)
    else if StartsBlock(u) then
      var r := u[3..];
      if r == "" then End(0, true)
      else if r[0] != '*' then WithMany(Actual(r))
      else if !StartsBlock(r) then WithMany(Literal('*', Actual(r[1..])))
      else if r[3..] == "" || r[3] != '*' then WithMany(Literal('*', WithMany(Actual(r[3..]))))
      else Actual(r)
    else if u[0] == '*' then WithOne(Actual(u[1..]))
    else Literal(u[0], Actual(u[1..]))
  }

  /** Some suffix of s that starts with c matches u. */
  ghost predicate Reaches(u: string, c: char, s: string)
  {
    exists k :: 0 <= k < |s| && s[k] == c && Match(u, s[k..])
  }

  lemma BlockReaches(u: string, s: string)
    requires StartsBlock(u) && |u| > 3
    ensures Match(u, s) <==> Reaches(u[3..], u[3], s)
  {
    ScanFinds(u, s);
  }

  /** A literal is found by trying every suffix. */
  lemma ReachesLiteral(r: string, s: string)
    requires r != "" && r[0] != '*'
    ensures Reaches(r, r[0], s) <==> exists k :: 0 <= k <= |s| && Match(r, s[k..])
  {
    if k :| 0 <= k <= |s| && Match(r, s[k..]) {
      assert s[k..] != "" && s[k..][0] == r[0];
    }
  }

  /** Two block wildcards and a third '*': the second block adds nothing. */
  lemma ReachesTwice(r: string, s: string)
    requires StartsBlock(r) && |r| > 3 && r[3] == '*'
    ensures Reaches(r, '*', s) <==> Match(r, s)
  {
    BlockReaches(r, s);
    if Match(r, s) {
      var i :| 0 <= i < |s| && s[i] == '*' && Match(r[3..], s[i..]);
      BlockReaches(r, s[i..]);
      assert s[i..][0..] == s[i..];
    }
    if Reaches(r, '*', s) {
      var k :| 0 <= k < |s| && s[k] == '*' && Match(r, s[k..]);
      BlockReaches(r, s[k..]);
      var j :| 0 <= j < |s[k..]| && s[k..][j] == '*' && Match(r[3..], s[k..][j..]);
      assert s[k..][j..] == s[k + j..];
    }
  }

  /** Two block wildcards and no third '*': a '*' and then any snippet. */
  lemma ReachesPast(r: string, s: string)
    requires StartsBlock(r) && (r[3..] == "" || r[3] != '*') && s != "" && s[0] == '*'
    ensures Match(r, s) <==> exists k :: 0 <= k <= |s[1..]| && Match(r[3..], s[1..][k..])
  {
    if r[3..] == "" {
      assert Match(r[3..], s[1..][|s| - 1..]);
    } else {
      BlockReaches(r, s);
      ReachesLiteral(r[3..], s);
      if k :| 0 <= k <= |s| && Match(r[3..], s[k..]) {
        assert k > 0 by {
          assert s[0..] == s;
        }
        assert s[1..][k - 1..] == s[k..];
      }
      if k :| 0 <= k <= |s[1..]| && Match(r[3..], s[1..][k..]) {
        assert s[1..][k..] == s[k + 1..];
      }
    }
  }

  lemma {:induction false} ActualIs(u: string, s: string)
    ensures Match(u, s) <==> Fits(Actual(u), s)
    decreases |u|, 0
  {
    if u != "" {
      if StartsBlock(u) {
        if |u| > 3 {
          BlockReaches(u, s);
          ActualBlock(u, u[3..], s);
        }
      } else {
        FitsOne(Actual(u[1..]), s);
        FitsLiteral(u[0], Actual(u[1..]), s);
        if s != "" {
          ActualIs(u[1..], s[1..]);
        }
      }
    }
  }

  lemma {:induction false} ActualBlock(u: string, r: string, s: string)
    requires StartsBlock(u) && r == u[3..] && r != ""
    ensures Reaches(r, r[0], s) <==> Fits(Actual(u), s)
    decreases |r|, 1
  {
    if r[0] != '*' {
      ReachesLiteral(r, s);
      FitsMany(Actual(r), s);
      forall k | 0 <= k <= |s|
        ensures Match(r, s[k..]) <==> Fits(Actual(r), s[k..])
      {
        ActualIs(r, s[k..]);
      }
    } else if !StartsBlock(r) {
      StarThen(r, Actual(r[1..]), s);
    } else if r[3..] == "" || r[3] != '*' {
      StarThen(r, WithMany(Actual(r[3..])), s);
    } else {
      ReachesTwice(r, s);
      ActualIs(r, s);
    }
  }

  /** A '*' in the name and then f. */
  lemma {:induction false} StarThen(r: string, f: Form, s: string)
    requires r != "" && r[0] == '*'
    requires f == if !StartsBlock(r) then Actual(r[1..]) else WithMany(Actual(r[3..]))
    requires StartsBlock(r) ==> r[3..] == "" || r[3] != '*'
    ensures Reaches(r, '*', s) <==> Fits(WithMany(Literal('*', f)), s)
    decreases |r|, 0
  {
    var g := WithMany(Literal('*', f));
    forall k | 0 <= k < |s| && s[k] == '*'
      ensures Match(r, s[k..]) <==> Fits(f, s[k + 1..])
    {
      var t := s[k..];
      assert t[1..] == s[k + 1..];
      if StartsBlock(r) {
        ReachesPast(r, t);
        FitsMany(Actual(r[3..]), t[1..]);
        forall i | 0 <= i <= |t[1..]|
          ensures Match(r[3..], t[1..][i..]) <==> Fits(Actual(r[3..]), t[1..][i..])
        {
          ActualIs(r[3..], t[1..][i..]);
        }
      } else {
        ActualIs(r[1..], t[1..]);
      }
    }
    if Reaches(r, '*', s) {
      var k :| 0 <= k < |s| && s[k] == '*' && Match(r, s[k..]);
      assert Lands(g, s, k);
    }
    if Fits(g, s) {
      var k :| Lands(g, s, k) && Fits(f, s[k + 1..]);
      assert Match(r, s[k..]);
    }
  }

  // ---------------------------------------------------------------- the two compared

  /** The '*' a string starts with. */
  function Stars(p: string): nat { if p == "" || p[0] != '*' then 0 else 1 + Stars(p[1..]) }

  ghost predicate UpToStar(f: Form) { f.Then? && f.c == '*' }

  /** Without an escaped '*' the leading wildcards count as they stand. */
  lemma {:induction false} DocumentedStars(r: string)
    requires !UpToStar(Documented(r))
    ensures Stars(Unescaped(r)) == Stars(r)
    ensures Documented(r).ones == Stars(r) % 3 && (Documented(r).many <==> Stars(r) >= 3)
    decreases |r|
  {
    hide Unescaped, Documented;
    if r == "" || r[0] != '*' {
      NoStars(r);
    } else {
      DocumentedWild(r);
      if StartsBlock(r) {
        UnescapedBlock(r);
        ThreeStars(r, r[3..]);
        ThreeStars(Unescaped(r), Unescaped(r[3..]));
        DocumentedStars(r[3..]);
      } else {
        UnescapedStar(r);
        FewStars(r);
        DocumentedStars(r[1..]);
        StarsStar(Unescaped(r), Unescaped(r[1..]));
      }
    }
  }

  lemma DocumentedWild(r: string)
    requires r != "" && r[0] == '*'
    ensures Documented(r) == if StartsBlock(r) then WithMany(Documented(r[3..])) else WithOne(Documented(r[1..]))
  {
  }

  lemma NoStars(r: string)
    requires (r == "" || r[0] != '*') && !UpToStar(Documented(r))
    ensures Stars(Unescaped(r)) == 0 == Stars(r) && Documented(r).ones == 0 && !Documented(r).many
  {
  }

  lemma StarsStar(p: string, r: string)
    requires p == "*" + r
    ensures Stars(p) == 1 + Stars(r)
  {
    assert p[1..] == r;
  }

  lemma ThreeStars(p: string, r: string)
    requires p == "***" + r
    ensures Stars(p) == 3 + Stars(r) && p[3..] == r
  {
    var a, b := p[1..], p[2..];
    assert a[0] == '*' && b[0] == '*' && a[1..] == b && b[1..] == r;
    assert Stars(a) == 1 + Stars(b) && Stars(b) == 1 + Stars(r);
  }

  lemma FewStars(p: string)
    requires !StartsBlock(p)
    ensures Stars(p) <= 2
  {
    if p != "" && p[0] == '*' {
      var q := p[1..];
      if q != "" && q[0] == '*' {
        var r := q[1..];
        assert r != "" ==> r[0] == p[2];
        assert Stars(p) == 1 + Stars(q) && Stars(q) == 1 + Stars(r) && Stars(r) == 0;
      }
    }
  }

  lemma UnescapedStar(p: string)
    requires p != "" && p[0] == '*'
    ensures Unescaped(p) == "*" + Unescaped(p[1..])
  {
  }

  lemma UnescapedBlock(p: string)
    requires StartsBlock(p)
    ensures Unescaped(p) == "***" + Unescaped(p[3..])
  {
    hide Unescaped;
    var a, b := p[1..], p[2..];
    assert a[1..] == b && b[1..] == p[3..];
    UnescapedStar(p);
    UnescapedStar(a);
    UnescapedStar(b);
    ThreeInFront(Unescaped(p[3..]));
  }

  lemma ThreeInFront(x: string)
    ensures "*" + ("*" + ("*" + x)) == "***" + x
  {
  }

  /** What comes after the '*' that two block wildcards in a row demand. */
  function Tail(x: string): Form
    decreases |x|
  {
    if x == "" || x[0] != '*' then WithMany(Actual(x))
    else if !StartsBlock(x) then Actual(x[1..])
    else Tail(x[3..])
  }

  lemma {:induction false} ActualSix(x: string)
    ensures Actual("******" + x) == WithMany(Literal('*', Tail(x)))
    decreases |x|
  {
    var u := "******" + x;
    assert u[3..] == "***" + x && u[3..][3..] == x;
    if x != "" && x[0] == '*' {
      var r := "***" + x;
      assert r[3..] == x;
      if StartsBlock(x) {
        assert r == "******" + x[3..];
        ActualSix(x[3..]);
      }
    }
  }

  lemma ActualFew(y: string)
    requires Stars(y) <= 1
    ensures !UpToStar(Actual(y)) && Actual(y).ones == Stars(y) && !Actual(y).many
  {
    if Stars(y) == 1 {
      var z := y[1..];
      assert Stars(z) == 0;
      assert z != "" ==> z[0] == y[1];
    }
  }

  lemma {:induction false} TailHead(x: string)
    ensures !UpToStar(Tail(x)) && Tail(x).ones == (if Stars(x) % 3 == 2 then 1 else 0)
    ensures Tail(x).many <==> Stars(x) % 3 == 0
    decreases |x|
  {
    hide Actual, Stars, Tail;
    if x == "" || x[0] != '*' {
      TailPlain(x);
    } else if StartsBlock(x) {
      TailBlock(x);
      TailHead(x[3..]);
    } else {
      TailStar(x);
    }
  }

  lemma TailPlain(x: string)
    requires x == "" || x[0] != '*'
    ensures Stars(x) == 0 && Tail(x).ones == 0 && Tail(x).many && !UpToStar(Tail(x))
  {
  }

  lemma TailBlock(x: string)
    requires StartsBlock(x)
    ensures Tail(x) == Tail(x[3..]) && Stars(x) == 3 + Stars(x[3..])
  {
    assert x == "***" + x[3..];
    ThreeStars(x, x[3..]);
  }

  lemma TailStar(x: string)
    requires x != "" && x[0] == '*' && !StartsBlock(x)
    ensures 1 <= Stars(x) <= 2 && Tail(x).ones == Stars(x) - 1 && !Tail(x).many && !UpToStar(Tail(x))
  {
    hide Actual;
    FewStars(x);
    ActualFew(x[1..]);
  }

  /** With three '*' after the first block the code and the documentation part. */
  lemma TailDiffers(r: string, x: string)
    requires Unescaped(r) == "**" + x
    ensures Documented(r) != Tail(x)
  {
    hide *;
    TailHead(x);
    if !UpToStar(Documented(r)) {
      DocumentedStars(r);
      assert "**" + x == "*" + ("*" + x);
      StarsStar("**" + x, "*" + x);
      StarsStar("*" + x, x);
    }
  }

  lemma {:induction false} BlockHead(r: string)
    ensures Actual("***" + r).ones == 0 && Actual("***" + r).many
    decreases |r|
  {
    assert ("***" + r)[3..] == r;
    if StartsBlock(r) {
      assert r == "***" + r[3..];
      BlockHead(r[3..]);
    }
  }

  /** The code reads the unescaped pattern as the documentation reads the pattern exactly when its
      escapes are honoured. */
  lemma {:induction false} SameForm(p: string)
    ensures Honoured(p) <==> Documented(p) == Actual(Unescaped(p))
    decreases |p|, 1
  {
    if p != "" {
      var u := Unescaped(p);
      if Escape(p) {
        SameForm(p[2..]);
        assert u[1..] == Unescaped(p[2..]);
        if StartsBlock(u) {
          assert u == "***" + u[3..];
          BlockHead(u[3..]);
        }
      } else if StartsBlock(p) {
        SameAfter(p[3..], false);
        UnescapedBlock(p);
      } else {
        SameForm(p[1..]);
        assert u[1..] == Unescaped(p[1..]);
        if StartsBlock(u) {
          assert u == "***" + u[3..];
          BlockHead(u[3..]);
        }
      }
    }
  }

  /** An escaped '*' right after block wildcards. */
  lemma SameStar(r: string, x: string, f: Form)
    requires f == Documented(r) && x == "*" + Unescaped(r)
    ensures (!StartsBlock(x) && f == Actual(Unescaped(r))) <==> WithMany(Literal('*', f)) == Actual("***" + x)
  {
    if StartsBlock(x) {
      StarBlock(r, x, x[3..]);
    } else {
      assert ("***" + x)[3..] == x && x[1..] == Unescaped(r);
    }
  }

  lemma StarBlock(r: string, x: string, y: string)
    requires x == "***" + y && x == "*" + Unescaped(r)
    ensures WithMany(Literal('*', Documented(r))) != Actual("***" + x)
  {
    assert Unescaped(r) == x[1..] == "**" + y;
    TailDiffers(r, y);
    ActualSix(y);
    assert "***" + x == "******" + y;
  }

  lemma SixStar(y: string)
    requires y != "" && y[0] == '*'
    ensures Actual("******" + y) == Actual("***" + y)
  {
    hide Actual;
    var u, r := "******" + y, "***" + y;
    assert u[3..] == r && r[3] == y[0];
    ActualCrowded(u, r);
  }

  /** The first of two block wildcards in front of a third '*' counts for nothing. */
  lemma ActualCrowded(u: string, r: string)
    requires StartsBlock(u) && r == u[3..] && StartsBlock(r) && |r| > 3 && r[3] == '*'
    ensures Actual(u) == Actual(r)
  {
  }

  lemma {:induction false} SameAfter(r: string, several: bool)
    ensures HonouredAfter(r, several) <==>
            WithMany(Documented(r)) == Actual((if several then "******" else "***") + Unescaped(r))
    decreases |r|, 2
  {
    var x := Unescaped(r);
    if r != "" && Escape(r) && r[1] == '*' {
      SameForm(r[2..]);
      SameStar(r[2..], x, Documented(r[2..]));
      SixStar(x);
    } else if StartsBlock(r) {
      UnescapedBlock(r);
      SameAfter(r[3..], true);
      SixStar(x);
      assert "***" + x == "******" + Unescaped(r[3..]);
    } else if r != "" && r[0] == '*' {
      UnescapedStar(r);
      SixStar(x);
      BlockHead(x);
    } else if several {
      ActualSix(x);
    } else {
      SameForm(r);
      assert ("***" + x)[3..] == x;
    }
  }

  /** __pattmatch has the documented meaning on all names exactly for the patterns whose escapes are
      honoured. */
  lemma EscapesExactly(p: string)
    ensures (forall s: string :: Match(Unescaped(p), s) <==> MeansEscaped(p, s)) <==> Honoured(p)
  {
    SameForm(p);
    var f, g := Documented(p), Actual(Unescaped(p));
    if f == g {
      forall s: string
        ensures Match(Unescaped(p), s) <==> MeansEscaped(p, s)
      {
        DocumentedIs(p, s);
        ActualIs(Unescaped(p), s);
      }
    } else {
      FormsExactly(f, g);
      var s :| Fits(f, s) != Fits(g, s);
      DocumentedIs(p, s);
      ActualIs(Unescaped(p), s);
    }
  }

  lemma {:induction false} PlainMeans(p: string, s: string)
    requires '\\' !in p
    ensures MeansEscaped(p, s) <==> Means(p, s)
    decreases |p|
  {
    if p != "" {
      assert p[0] in p;
      if StartsBlock(p) {
        forall k | 0 <= k <= |s|
          ensures MeansEscaped(p[3..], s[k..]) <==> Means(p[3..], s[k..])
        {
          PlainMeans(p[3..], s[k..]);
        }
      } else if s != "" {
        PlainMeans(p[1..], s[1..]);
      }
    }
  }

  /** For a pattern without backslash the two readings of the documentation are one, and so are the
      two conditions. */
  lemma PattMatchPlain(p: string)
    requires '\\' !in p
    ensures forall s: string :: MeansEscaped(p, s) <==> Means(p, s)
    ensures Honoured(p) <==> !Crowded(p)
  {
    forall s: string
      ensures MeansEscaped(p, s) <==> Means(p, s)
    {
      PlainMeans(p, s);
    }
    NoEscapes(p);
    EscapesExactly(p);
    MatchExactly(p);
  }

  /** An escaped '*' that matches another character. */
  lemma EscapeLost()
    ensures !Honoured("\\*") && Match(Unescaped("\\*"), "b") && !MeansEscaped("\\*", "b")
  {
    assert Unescaped("\\*") == "*";
  }

  /** Escapes the code honours: after one block wildcard, and after two. */
  lemma EscapeKept()
    ensures Honoured("***\\*") && Honoured("******\\*")
  {
    var r := "***\\*";
    assert r[3..] == "\\*" && ("***" + r)[3..] == r && "***" + r == "******\\*";
    assert Unescaped("\\*") == "*";
    assert HonouredAfter("\\*", true) && HonouredAfter("\\*", false);
  }
}

/** Wildcard matching of names (match_rec and __pattmatch of tools.c). */
module Wildcard {

  /** Does a block wildcard start here? */
  predicate StartsBlock(p: string) { |p| >= 3 && p[0] == '*' && p[1] == '*' && p[2] == '*' }

  // ---------------------------------------------------------------- the code

  /** match_rec */
  function Match(p: string, s: string): bool
    decreases |p|, |s| + 1
  {
    if p == "" then s == ""
    else if StartsBlock(p) then p[3..] == "" || Scan(p, s)
    else if p[0] == '*' then s != "" && Match(p[1..], s[1..])
    else s != "" && p[0] == s[0] && Match(p[1..], s[1..])
  }

  /** The scan after a block wildcard: try each place where the next pattern character occurs literally. */
  function Scan(p: string, s: string): bool
    requires |p| > 3
    decreases |p|, |s|
  {
    if s == "" then false
    else (s[0] == p[3] && Match(p[3..], s)) || Scan(p, s[1..])
  }

  /** match_rec as the source runs it: recursion with one scanning loop. */
  method MatchRec(p: string, s: string) returns (b: bool)
    ensures b == Match(p, s)
    decreases |p|
  {
    if p == "" {
      return s == "";
    }
    if StartsBlock(p) {
      if |p| == 3 {
        return true;
      }
      var proceed, i := p[3], 0;
      while i < |s|
        invariant i <= |s| && Match(p, s) == Scan(p, s[i..])
      {
        if s[i] == proceed {
          b := MatchRec(p[3..], s[i..]);
          if b {
            return true;
          }
        }
        assert s[i..][1..] == s[i + 1..];
        i := i + 1;
      }
      return false;
    }
    if s == "" || (p[0] != '*' && p[0] != s[0]) {
      return false;
    }
    b := MatchRec(p[1..], s[1..]);
  }

  /** The escape pass of __pattmatch: a backslash is dropped and the next character kept. */
  function Unescaped(p: string): (r: string)
    ensures |r| <= |p|
  {
    if p == "" then ""
    else if p[0] == '\\' && |p| > 1 then [p[1]] + Unescaped(p[2..])
    else [p[0]] + Unescaped(p[1..])
  }

  /** __pattmatch */
  method PattMatch(pattern: string, s: string) returns (b: bool)
    ensures b == Match(Unescaped(pattern), s)
  {
    hide Match, Copying, Unescaped;
    var proc := new char[|pattern| + 1];
    var i, j := 0, 0;
    CopyingStart(pattern, proc[..0]);
    while i < |pattern|
      invariant 0 <= j <= i <= |pattern|
      invariant Copying(proc[..j], pattern, i)
    {
      ghost var done := proc[..j];
      CopyingStep(done, pattern, i);
      if pattern[i] == '\\' && i + 1 < |pattern| {
        proc[j] := pattern[i + 1];
        i := i + 2;
      } else {
        proc[j] := pattern[i];
        i := i + 1;
      }
      assert proc[..j + 1] == done + [proc[j]];
      j := j + 1;
    }
    CopyingEnd(proc[..j], pattern);
    b := MatchRec(proc[..j], s);
  }

  /** The copying loop at i with done in the buffer. */
  ghost predicate Copying(done: string, pattern: string, i: nat)
  {
    i <= |pattern| && done + Unescaped(pattern[i..]) == Unescaped(pattern)
  }

  lemma CopyingStart(pattern: string, done: string)
    requires done == ""
    ensures Copying(done, pattern, 0)
  {
    assert pattern[0..] == pattern && done + Unescaped(pattern) == Unescaped(pattern);
  }

  lemma CopyingEnd(done: string, pattern: string)
    requires Copying(done, pattern, |pattern|)
    ensures done == Unescaped(pattern)
  {
    assert pattern[|pattern|..] == "" && done + "" == done;
  }

  lemma CopyingStep(done: string, pattern: string, i: nat)
    requires Copying(done, pattern, i) && i < |pattern|
    ensures var skip := pattern[i] == '\\' && i + 1 < |pattern|;
      if skip then Copying(done + [pattern[i + 1]], pattern, i + 2) else Copying(done + [pattern[i]], pattern, i + 1)
  {
    var n := if pattern[i] == '\\' && i + 1 < |pattern| then 2 else 1;
    var c, rest := pattern[i + n - 1], Unescaped(pattern[i + n..]);
    assert pattern[i..][n..] == pattern[i + n..];
    assert done + ([c] + rest) == (done + [c]) + rest;
  }

  // ---------------------------------------------------------------- the documented meaning

  /** '*' is any one character, '***' is any snippet, any other character is itself. */
  ghost predicate Means(p: string, s: string)
    decreases |p|
  {
    if p == "" then s == ""
    else if StartsBlock(p) then exists k :: 0 <= k <= |s| && Means(p[3..], s[k..])
    else if p[0] == '*' then s != "" && Means(p[1..], s[1..])
    else s != "" && p[0] == s[0] && Means(p[1..], s[1..])
  }

  /** Does no '*' of p run on into q? */
  predicate CleanCut(p: string, q: string) { p == "" || q == "" || p[|p| - 1] != '*' || q[0] != '*' }

  /** The first k characters of s are meant by p, the rest by q. */
  ghost predicate Splits(p: string, q: string, s: string, k: nat)
  {
    k <= |s| && Means(p, s[..k]) && Means(q, s[k..])
  }

  /** One pattern after another means one name after another. */
  lemma {:induction false} MeansConcat(p: string, q: string, s: string)
    requires CleanCut(p, q)
    ensures Means(p + q, s) <==> exists k: nat :: Splits(p, q, s, k)
    decreases |p|
  {
    if p == "" {
      assert p + q == q && s[0..] == s && s[..0] == "";
      assert Means(q, s) ==> Splits(p, q, s, 0);
    } else if q == "" {
      assert p + q == p && s[..|s|] == s;
      assert Means(p, s) ==> Splits(p, q, s, |s|);
    } else {
      var n := if StartsBlock(p) then 3 else 1;
      var r := p[n..];
      assert (p + q)[n..] == r + q;
      assert StartsBlock(p + q) <==> StartsBlock(p);
      assert CleanCut(r, q);
      if StartsBlock(p) {
        BlockConcat(p, q, r, s);
      } else if s != "" {
        MeansConcat(r, q, s[1..]);
        ShiftCut(p, q, r, s);
      }
    }
  }

  lemma SplitLater(p: string, q: string, r: string, s: string, i: nat, j: nat)
    requires StartsBlock(p) && r == p[3..] && i <= |s| && Splits(r, q, s[i..], j)
    ensures Splits(p, q, s, i + j)
  {
    assert s[i..][j..] == s[i + j..] && s[i..][..j] == s[..i + j][i..];
  }

  lemma SplitEarlier(p: string, q: string, r: string, s: string, k: nat) returns (i: nat)
    requires StartsBlock(p) && r == p[3..] && Splits(p, q, s, k)
    ensures i <= k <= |s| && Splits(r, q, s[i..], k - i)
  {
    i :| 0 <= i <= k && Means(r, s[..k][i..]);
    assert s[i..][..k - i] == s[..k][i..] && s[i..][k - i..] == s[k..];
  }

  lemma BlockMeans(p: string, r: string, s: string)
    requires StartsBlock(p) && r == p[3..]
    ensures Means(p, s) <==> exists k :: 0 <= k <= |s| && Means(r, s[k..])
  {
  }

  lemma BlockConcat(p: string, q: string, r: string, s: string)
    requires StartsBlock(p) && r == p[3..] && CleanCut(r, q) && (p + q)[3..] == r + q && StartsBlock(p + q)
    ensures Means(p + q, s) <==> exists k: nat :: Splits(p, q, s, k)
    decreases |r| + 1
  {
    hide Means, Splits, StartsBlock;
    BlockMeans(p + q, r + q, s);
    if Means(p + q, s) {
      var i :| 0 <= i <= |s| && Means(r + q, s[i..]);
      MeansConcat(r, q, s[i..]);
      var j: nat :| Splits(r, q, s[i..], j);
      SplitLater(p, q, r, s, i, j);
    }
    if k: nat :| Splits(p, q, s, k) {
      var i := SplitEarlier(p, q, r, s, k);
      MeansConcat(r, q, s[i..]);
    }
  }

  /** A first character that is no block, in front of a cut. */
  lemma ShiftCut(p: string, q: string, r: string, s: string)
    requires p != "" && !StartsBlock(p) && r == p[1..] && s != ""
    ensures (exists k: nat :: Splits(p, q, s, k))
            <==> (p[0] == '*' || p[0] == s[0]) && exists k: nat :: Splits(r, q, s[1..], k)
  {
    if k: nat :| Splits(p, q, s, k) {
      assert k > 0 && s[..k][1..] == s[1..][..k - 1] && s[1..][k - 1..] == s[k..];
      assert Splits(r, q, s[1..], k - 1);
    }
    if p[0] == '*' || p[0] == s[0] {
      if k: nat :| Splits(r, q, s[1..], k) {
        assert s[..k + 1][1..] == s[1..][..k] && s[1..][k..] == s[k + 1..];
        assert Splits(p, q, s, k + 1);
      }
    }
  }

  /** A single character: '*' means any one character, another one itself. */
  lemma MeansOne(c: char, s: string)
    ensures Means([c], s) <==> |s| == 1 && (c == '*' || s[0] == c)
  {
    assert [c][1..] == "";
    assert s != "" ==> (Means("", s[1..]) <==> |s| == 1);
  }

  lemma MeansNothing(s: string)
    ensures Means("", s) <==> s == ""
  {
  }

  /** A block wildcard alone means any name. */
  lemma MeansBlock(p: string, s: string)
    requires p == "***"
    ensures Means(p, s)
  {
    MeansNothing(s[|s|..]);
    assert p[3..] == "" && StartsBlock(p);
    assert Means(p[3..], s[|s|..]);
  }

  /** Some block wildcard of the pattern is directly followed by another '*'. */
  predicate Crowded(p: string)
    decreases |p|
  {
    if p == "" then false
    else if StartsBlock(p) then (|p| > 3 && p[3] == '*') || Crowded(p[3..])
    else Crowded(p[1..])
  }

  /** The scan finds a match exactly when some suffix that starts with the next character matches. */
  lemma {:induction false} ScanFinds(p: string, s: string)
    requires |p| > 3
    ensures Scan(p, s) <==> exists k :: 0 <= k < |s| && s[k] == p[3] && Match(p[3..], s[k..])
  {
    if s != "" {
      ScanFinds(p, s[1..]);
      assert s[0..] == s;
      if Scan(p, s[1..]) {
        var k :| 0 <= k < |s[1..]| && s[1..][k] == p[3] && Match(p[3..], s[1..][k..]);
        assert s[1..][k..] == s[k + 1..];
      }
      if k :| 0 < k < |s| && s[k] == p[3] && Match(p[3..], s[k..]) {
        assert s[1..][k - 1..] == s[k..] && s[1..][k - 1] == s[k];
      }
    }
  }

  /** Whatever match_rec accepts, the documented meaning accepts. */
  lemma {:induction false} MatchSound(p: string, s: string)
    requires Match(p, s)
    ensures Means(p, s)
    decreases |p|
  {
    if p != "" {
      if StartsBlock(p) {
        if |p| == 3 {
          assert Means(p[3..], s[|s|..]);
        } else {
          ScanFinds(p, s);
          var k :| 0 <= k < |s| && s[k] == p[3] && Match(p[3..], s[k..]);
          MatchSound(p[3..], s[k..]);
        }
      } else {
        MatchSound(p[1..], s[1..]);
      }
    }
  }

  /** For a pattern without a crowded block, match_rec accepts whatever the meaning accepts. */
  lemma {:induction false} MatchComplete(p: string, s: string)
    requires Means(p, s) && !Crowded(p)
    ensures Match(p, s)
    decreases |p|
  {
    if p != "" {
      if StartsBlock(p) {
        if |p| > 3 {
          var k :| 0 <= k <= |s| && Means(p[3..], s[k..]);
          assert s[k..] != "" && s[k..][0] == p[3];
          MatchComplete(p[3..], s[k..]);
          ScanFinds(p, s);
        }
      } else {
        MatchComplete(p[1..], s[1..]);
      }
    }
  }

  /** A name without '*' that the pattern means: every wildcard filled with an 'a' or with nothing. */
  function Sample(p: string): (s: string)
    ensures '*' !in s
    decreases |p|
  {
    if p == "" then ""
    else if StartsBlock(p) then Sample(p[3..])
    else if p[0] == '*' then "a" + Sample(p[1..])
    else [p[0]] + Sample(p[1..])
  }

  lemma {:induction false} SampleMeant(p: string)
    ensures Means(p, Sample(p))
    decreases |p|
  {
    if p != "" {
      if StartsBlock(p) {
        SampleMeant(p[3..]);
        assert Sample(p)[0..] == Sample(p);
      } else {
        SampleMeant(p[1..]);
        assert Sample(p)[1..] == Sample(p[1..]);
      }
    }
  }

  /** match_rec cannot get past a crowded block on a name without '*'. */
  lemma {:induction false} CrowdedFails(p: string, s: string)
    requires Crowded(p) && '*' !in s
    ensures !Match(p, s)
    decreases |p|
  {
    if StartsBlock(p) {
      ScanFinds(p, s);
      if k :| 0 <= k < |s| && s[k] == p[3] && Match(p[3..], s[k..]) {
        assert s[k] in s;
        CrowdedFails(p[3..], s[k..]);
      }
    } else if s != "" {
      CrowdedFails(p[1..], s[1..]);
    }
  }

  /** match_rec has the documented meaning on all names exactly for the patterns without a crowded block. */
  lemma MatchExactly(p: string)
    ensures (forall s: string :: Match(p, s) <==> Means(p, s)) <==> !Crowded(p)
  {
    if Crowded(p) {
      SampleMeant(p);
      CrowdedFails(p, Sample(p));
    } else {
      forall s: string
        ensures Match(p, s) <==> Means(p, s)
      {
        if Match(p, s) {
          MatchSound(p, s);
        }
        if Means(p, s) {
          MatchComplete(p, s);
        }
      }
    }
  }

  lemma {:induction false} NoEscapes(p: string)
    requires '\\' !in p
    ensures Unescaped(p) == p
  {
    if p != "" {
      NoEscapes(p[1..]);
    }
  }

  /** A crowded pattern and a name that only its meaning accepts. */
  lemma CrowdedLost()
    ensures Crowded("****") && Means("****", "a") && !Match("****", "a")
  {
    var p, s := "****", "a";
    assert p[3..] == "*" && s[0..] == s;
    assert Crowded(p);
    assert Means(p[3..], s[0..]);
    CrowdedFails(p, s);
  }
}

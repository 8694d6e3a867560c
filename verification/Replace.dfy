/** Two-pass string replacement (str_replace of tools.c). */
module Replace {
  import opened Arith

  /** pat occurs in str at i. */
  predicate Occurs(str: string, pat: string, i: nat) { i + |pat| <= |str| && str[i..i + |pat|] == pat }

  /** strstr: the first occurrence at or after i, |str| + 1 if there is none. */
  function Next(str: string, pat: string, i: nat): (j: nat)
    ensures j <= |str| ==> i <= j && Occurs(str, pat, j)
    decreases |str| + 1 - i
  {
    if i > |str| then |str| + 1 else if Occurs(str, pat, i) then i else Next(str, pat, i + 1)
  }

  /** Leftmost, non-overlapping replacement of pat in str[i..], read off character by character. */
  function Replaced(str: string, pat: string, by_: string, i: nat): string
    requires pat != ""
    decreases |str| - i
  {
    if i >= |str| then ""
    else if Occurs(str, pat, i) then by_ + Replaced(str, pat, by_, i + |pat|)
    else [str[i]] + Replaced(str, pat, by_, i + 1)
  }

  /** How many replacements that makes. */
  function Hits(str: string, pat: string, i: nat): nat
    requires pat != ""
    decreases |str| - i
  {
    if i >= |str| then 0
    else if Occurs(str, pat, i) then 1 + Hits(str, pat, i + |pat|)
    else Hits(str, pat, i + 1)
  }

  /** Up to the next occurrence, at j, nothing changes. */
  lemma {:induction false} SkipTo(str: string, pat: string, by_: string, i: nat, j: nat)
    requires pat != "" && i <= |str| && j == Next(str, pat, i) <= |str|
    ensures i <= j < |str| && Replaced(str, pat, by_, i) == str[i..j] + by_ + Replaced(str, pat, by_, j + |pat|)
    ensures Hits(str, pat, i) == 1 + Hits(str, pat, j + |pat|)
    decreases |str| - i
  {
    var rest := Replaced(str, pat, by_, j + |pat|);
    if Occurs(str, pat, i) {
      assert str[i..j] + by_ == by_;
    } else {
      SkipTo(str, pat, by_, i + 1, j);
      Prepend(str, i, j, by_, rest);
    }
  }

  lemma Prepend(str: string, i: nat, j: nat, by_: string, rest: string)
    requires i < j <= |str|
    ensures [str[i]] + (str[i + 1..j] + by_ + rest) == str[i..j] + by_ + rest
  {
  }

  /** Without a further occurrence nothing changes at all. */
  lemma {:induction false} SkipAll(str: string, pat: string, by_: string, i: nat)
    requires pat != "" && i <= |str| && Next(str, pat, i) > |str|
    ensures Replaced(str, pat, by_, i) == str[i..] && Hits(str, pat, i) == 0
    decreases |str| - i
  {
    if i < |str| {
      SkipAll(str, pat, by_, i + 1);
      assert str[i..] == [str[i]] + str[i + 1..];
    }
  }

  // ---------------------------------------------------------------- replacement without positions

  /** The parts with sep between them. */
  function Join(parts: seq<string>, sep: string): string
    requires parts != []
  {
    if |parts| == 1 then parts[0] else parts[0] + sep + Join(parts[1..], sep)
  }

  /** pat occurs in part + pat at its end and nowhere before. */
  ghost predicate Leads(part: string, pat: string) { forall a, b :: part + pat == a + pat + b ==> b == "" }

  ghost predicate Lacks(part: string, pat: string) { forall a, b :: part != a + pat + b }

  /** parts are what a string falls into when it is cut at the leftmost pat, over and over. */
  ghost predicate Leftmost(parts: seq<string>, pat: string)
  {
    && parts != [] && Lacks(parts[|parts| - 1], pat)
    && forall i :: 0 <= i < |parts| - 1 ==> Leads(parts[i], pat)
  }

  lemma OccursIs(str: string, pat: string, i: nat)
    ensures Occurs(str, pat, i) ==> str == str[..i] + pat + str[i + |pat|..]
    ensures forall a, b :: str == a + pat + b ==> Occurs(str, pat, |a|)
  {
    forall a, b | str == a + pat + b
      ensures Occurs(str, pat, |a|)
    {
      assert (a + pat + b)[|a|..|a| + |pat|] == pat;
    }
  }

  lemma {:induction false} NextLeast(str: string, pat: string, i: nat, j: nat)
    requires i <= j <= |str| && Occurs(str, pat, j)
    ensures Next(str, pat, i) <= j
    decreases j - i
  {
    if !Occurs(str, pat, i) {
      NextLeast(str, pat, i + 1, j);
    }
  }

  lemma OccursShift(pre: string, str: string, pat: string, i: nat)
    requires |pre| <= i
    ensures Occurs(pre + str, pat, i) <==> Occurs(str, pat, i - |pre|)
  {
    if i + |pat| <= |pre + str| {
      assert (pre + str)[i..i + |pat|] == str[i - |pre|..i - |pre| + |pat|];
    }
  }

  /** part + pat contains pat at its end and not before. */
  lemma LeadsOnce(part: string, pat: string, rest: string, k: nat)
    requires pat != "" && Leads(part, pat) && Occurs(part + pat + rest, pat, k)
    ensures k >= |part|
  {
    if k < |part| {
      var t := part + pat;
      assert (t + rest)[k..k + |pat|] == t[k..k + |pat|];
      OccursIs(t, pat, k);
    }
  }

  lemma LeadsThere(part: string, pat: string, rest: string)
    ensures Occurs(part + pat + rest, pat, |part|)
  {
    assert (part + pat + rest)[|part|..|part| + |pat|] == pat;
  }

  /** The first occurrence after pre, in front of a part that leads up to it. */
  lemma NextAfter(pre: string, part: string, pat: string, str: string, rest: string)
    requires pat != "" && Leads(part, pat) && str == part + pat + rest
    ensures Next(pre + str, pat, |pre|) == |pre| + |part|
  {
    hide Occurs, Leads;
    var j := Next(pre + str, pat, |pre|);
    LeadsThere(part, pat, rest);
    OccursShift(pre, str, pat, |pre| + |part|);
    NextLeast(pre + str, pat, |pre|, |pre| + |part|);
    OccursShift(pre, str, pat, j);
    LeadsOnce(part, pat, rest, j - |pre|);
  }

  lemma NextNone(pre: string, part: string, pat: string)
    requires pat != "" && Lacks(part, pat)
    ensures Next(pre + part, pat, |pre|) > |pre + part|
  {
    var j := Next(pre + part, pat, |pre|);
    if j <= |pre + part| {
      OccursShift(pre, part, pat, j);
      OccursIs(part, pat, j - |pre|);
    }
  }

  lemma PartPlaces(pre: string, part: string, pat: string, rest: string, str: string, pre': string, j: nat)
    requires str == pre + (part + pat + rest) && pre' == pre + part + pat && j == |pre| + |part|
    ensures str == pre' + rest && j <= |str| && str[|pre|..j] == part && |pre'| == j + |pat| && |pre| <= |str|
  {
  }

  /** One part and one occurrence. */
  lemma ReplacedPart(pre: string, part: string, pat: string, by_: string, rest: string, str: string, pre': string)
    requires pat != "" && Leads(part, pat) && str == pre + (part + pat + rest) && pre' == pre + part + pat
    ensures str == pre' + rest && Hits(str, pat, |pre|) == 1 + Hits(str, pat, |pre'|)
    ensures Replaced(str, pat, by_, |pre|) == part + by_ + Replaced(str, pat, by_, |pre'|)
  {
    hide Leads, Next, Replaced, Hits, Occurs;
    var j := |pre| + |part|;
    NextAfter(pre, part, pat, part + pat + rest, rest);
    PartPlaces(pre, part, pat, rest, str, pre', j);
    PartSkipped(str, pat, by_, |pre|, j, part, |pre'|);
  }

  lemma PartSkipped(str: string, pat: string, by_: string, i: nat, j: nat, part: string, k: nat)
    requires pat != "" && i <= |str| && j == Next(str, pat, i) <= |str| && k == j + |pat|
    requires i <= j && part == str[i..j]
    ensures Hits(str, pat, i) == 1 + Hits(str, pat, k)
    ensures Replaced(str, pat, by_, i) == part + by_ + Replaced(str, pat, by_, k)
  {
    hide Next, Replaced, Hits, Occurs;
    SkipTo(str, pat, by_, i, j);
  }

  /** The last part. */
  lemma ReplacedLast(pre: string, part: string, pat: string, by_: string, str: string)
    requires pat != "" && Lacks(part, pat) && str == pre + part
    ensures Replaced(str, pat, by_, |pre|) == part && Hits(str, pat, |pre|) == 0
  {
    NextNone(pre, part, pat);
    SkipAll(str, pat, by_, |pre|);
  }

  /** Replacement from the end of pre on. */
  lemma {:induction false} ReplacedAfter(pre: string, parts: seq<string>, pat: string, by_: string, str: string)
    requires pat != "" && Leftmost(parts, pat) && str == pre + Join(parts, pat)
    ensures Replaced(str, pat, by_, |pre|) == Join(parts, by_) && Hits(str, pat, |pre|) == |parts| - 1
    decreases |parts|
  {
    hide Leads, Lacks, Replaced, Hits;
    if |parts| == 1 {
      ReplacedLast(pre, parts[0], pat, by_, str);
    } else {
      var rest, pre' := Join(parts[1..], pat), pre + parts[0] + pat;
      ReplacedPart(pre, parts[0], pat, by_, rest, str, pre');
      ReplacedAfter(pre', parts[1..], pat, by_, str);
    }
  }

  /** Replacing means: cut the string at the leftmost pat, over and over, and join the parts with by_. The
      number of hits is the number of cuts. */
  lemma ReplacedExactly(parts: seq<string>, pat: string, by_: string)
    requires pat != "" && Leftmost(parts, pat)
    ensures Replaced(Join(parts, pat), pat, by_, 0) == Join(parts, by_)
    ensures Hits(Join(parts, pat), pat, 0) == |parts| - 1
  {
    ReplacedAfter("", parts, pat, by_, Join(parts, pat));
  }

  /** Every string falls into such parts. */
  lemma {:induction false} CutLeftmost(str: string, pat: string) returns (parts: seq<string>)
    requires pat != ""
    ensures Leftmost(parts, pat) && Join(parts, pat) == str
    decreases |str|
  {
    var j := Next(str, pat, 0);
    if j > |str| {
      parts := [str];
      LacksIt(str, pat);
    } else {
      var rest := CutLeftmost(str[j + |pat|..], pat);
      parts := [str[..j]] + rest;
      OccursIs(str, pat, j);
      LeadsUp(str, pat, j);
      assert parts[1..] == rest && parts[|parts| - 1] == rest[|rest| - 1];
    }
  }

  lemma LacksIt(str: string, pat: string)
    requires pat != "" && Next(str, pat, 0) > |str|
    ensures Lacks(str, pat)
  {
    forall a, b
      ensures str != a + pat + b
    {
      if str == a + pat + b {
        OccursIs(str, pat, |a|);
        NextLeast(str, pat, 0, |a|);
      }
    }
  }

  lemma OccursInPrefix(str: string, n: nat, t: string, pat: string, i: nat)
    requires n <= |str| && t == str[..n] && Occurs(t, pat, i)
    ensures Occurs(str, pat, i)
  {
    assert t[i..i + |pat|] == str[i..i + |pat|];
  }

  lemma LeadsUp(str: string, pat: string, j: nat)
    requires pat != "" && j == Next(str, pat, 0) <= |str|
    ensures Leads(str[..j], pat)
  {
    hide Next;
    var t := str[..j] + pat;
    assert t == str[..j + |pat|];
    forall a, b | t == a + pat + b
      ensures b == ""
    {
      OccursIs(t, pat, |a|);
      OccursInPrefix(str, j + |pat|, t, pat, |a|);
      NextLeast(str, pat, 0, |a|);
    }
  }

  lemma OneMore(h: int, d: int)
    ensures (1 + h) * d == d + h * d
  {
  }

  /** The length of the result: each hit trades |pat| characters for |by_|. */
  lemma {:induction false} Length(str: string, pat: string, by_: string, i: nat, d: int)
    requires pat != "" && i <= |str| && d == |by_| - |pat|
    ensures |Replaced(str, pat, by_, i)| == |str| - i + Hits(str, pat, i) * d
    decreases |str| - i
  {
    if i < |str| {
      if Occurs(str, pat, i) {
        Length(str, pat, by_, i + |pat|, d);
        OneMore(Hits(str, pat, i + |pat|), d);
      } else {
        Length(str, pat, by_, i + 1, d);
      }
    }
  }

  /** The unsigned length formula: the difference of the two lengths may be negative and wraps. */
  function PredictedLength(len: nat, count: nat, lenNew: nat, lenOld: nat): nat
  {
    (len + count * ((lenNew - lenOld) % TWO_64)) % TWO_64
  }

  lemma WrapMul(count: nat, d: int)
    ensures exists k :: count * (d % TWO_64) == count * d + k * TWO_64
  {
    var q := d / TWO_64;
    assert d == TWO_64 * q + d % TWO_64;
    assert count * (d % TWO_64) == count * d + (-(count * q)) * TWO_64;
  }

  lemma WrapsTo(n: int, k: int)
    requires 0 <= n < TWO_64
    ensures (n + k * TWO_64) % TWO_64 == n
  {
  }

  /** It nevertheless predicts the length of the result, growing or shrinking, as long as that
      length itself fits in 64 bits. */
  lemma LengthPredicted(str: string, pat: string, by_: string)
    requires pat != "" && |Replaced(str, pat, by_, 0)| < TWO_64
    ensures PredictedLength(|str|, Hits(str, pat, 0), |by_|, |pat|) == |Replaced(str, pat, by_, 0)|
  {
    var c, d := Hits(str, pat, 0), |by_| - |pat|;
    Length(str, pat, by_, 0, d);
    WrapMul(c, d);
    var k :| c * (d % TWO_64) == c * d + k * TWO_64;
    WrapsTo(|str| + c * d, k);
  }

  /** memcpy into the output buffer. */
  method CopyTo(buf: array<char>, at: nat, s: string)
    requires at + |s| <= buf.Length
    modifies buf
    ensures buf[..at + |s|] == old(buf[..at]) + s
  {
    forall i | 0 <= i < |s| {
      buf[at + i] := s[i];
    }
    assert buf[..at] == old(buf[..at]);
    assert buf[at..at + |s|] == s;
    assert buf[..at + |s|] == buf[..at] + buf[at..at + |s|];
  }

  /** The counting pass. */
  method CountHits(str: string, pat: string) returns (count: nat)
    requires pat != ""
    ensures count == Hits(str, pat, 0)
  {
    count := 0;
    var p := Next(str, pat, 0);
    HitsPending(str, pat, 0, p);
    while p <= |str|
      invariant p <= |str| ==> Occurs(str, pat, p)
      invariant Hits(str, pat, 0) == count + Pending(str, pat, p)
      decreases |str| + 1 - p
    {
      count := count + 1;
      var q := Next(str, pat, p + |pat|);
      HitsPending(str, pat, p + |pat|, q);
      p := q;
    }
  }

  lemma HitsPending(str: string, pat: string, i: nat, j: nat)
    requires pat != "" && i <= |str| && j == Next(str, pat, i)
    ensures Hits(str, pat, i) == Pending(str, pat, j)
  {
    if j <= |str| {
      SkipTo(str, pat, "", i, j);
    } else {
      SkipAll(str, pat, "", i);
    }
  }

  /** Hits from an occurrence at p on, none if p is past the end. */
  ghost function Pending(str: string, pat: string, p: nat): nat
    requires pat != ""
  {
    if p <= |str| then 1 + Hits(str, pat, p + |pat|) else 0
  }

  /** The copying pass, into a buffer with room for the result and its terminator. */
  method Fill(str: string, pat: string, by_: string, result: array<char>)
    requires pat != "" && result.Length == |Replaced(str, pat, by_, 0)| + 1
    modifies result
    ensures result[..] == Replaced(str, pat, by_, 0) + ['\0']
  {
    hide Filling, Replaced, Next;
    ghost var all := Replaced(str, pat, by_, 0);
    FillStart(result[..0], str, pat, by_, all);
    var out: nat, in_: nat, p := 0, 0, Next(str, pat, 0);
    while p <= |str|
      invariant out < result.Length && result.Length == |all| + 1 && in_ <= |str|
      invariant Filling(result[..out], str, pat, by_, in_, p, all)
      decreases |str| + 1 - p
    {
      ghost var done := result[..out];
      FillRoom(done, str, pat, by_, in_, p, all);
      var part := str[in_..p];
      CopyTo(result, out, part);
      var mid := out + |part|;
      CopyTo(result, mid, by_);
      var next := p + |pat|;
      var q := Next(str, pat, next);
      FillStep(done, str, pat, by_, in_, p, all, result[..mid + |by_|], next, q);
      out, in_, p := mid + |by_|, next, q;
    }
    var tail := str[in_..];
    FillEnd(result[..out], str, pat, by_, in_, p, all, tail);
    CopyTo(result, out, tail);
    assert result[..|all|] == all;
    result[out + |tail|] := '\0';
    Terminated(result, all);
  }

  lemma FillEnd(done: string, str: string, pat: string, by_: string, in_: nat, p: nat, all: string, tail: string)
    requires Filling(done, str, pat, by_, in_, p, all) && p > |str| && tail == str[in_..]
    ensures done + tail == all
  {
    SkipAll(str, pat, by_, in_);
  }

  lemma Terminated(a: array<char>, s: string)
    requires a.Length == |s| + 1 && a[..|s|] == s && a[|s|] == '\0'
    ensures a[..] == s + ['\0']
  {
  }

  /** done has been written, in_ has been reached, the next occurrence is at p. */
  ghost predicate Filling(done: string, str: string, pat: string, by_: string, in_: nat, p: nat, all: string)
  {
    pat != "" && in_ <= |str| && p == Next(str, pat, in_) && done + Replaced(str, pat, by_, in_) == all
  }

  lemma FillStart(done: string, str: string, pat: string, by_: string, all: string)
    requires pat != "" && done == "" && all == Replaced(str, pat, by_, 0)
    ensures Filling(done, str, pat, by_, 0, Next(str, pat, 0), all)
  {
    assert "" + all == all;
  }

  lemma FillRoom(done: string, str: string, pat: string, by_: string, in_: nat, p: nat, all: string)
    requires Filling(done, str, pat, by_, in_, p, all) && p <= |str|
    ensures in_ <= p <= |str| && |done| + (p - in_) + |by_| <= |all|
  {
    SkipTo(str, pat, by_, in_, p);
  }

  lemma FillStep(done: string, str: string, pat: string, by_: string, in_: nat, p: nat, all: string,
                 done': string, next: nat, q: nat)
    requires Filling(done, str, pat, by_, in_, p, all) && p <= |str| && in_ <= p
    requires done' == done + str[in_..p] + by_ && next == p + |pat| && q == Next(str, pat, next)
    ensures Filling(done', str, pat, by_, next, q, all)
  {
    SkipTo(str, pat, by_, in_, p);
    Regroup(done, str[in_..p], by_, Replaced(str, pat, by_, next), Replaced(str, pat, by_, in_), done');
  }

  /** str_replace: count, allocate by the formula, copy. An empty pattern yields NULL. */
  method StrReplace(str: string, pat: string, by_: string) returns (r: Option<string>)
    requires pat != "" ==> |Replaced(str, pat, by_, 0)| + 1 < TWO_64
    ensures r == if pat == "" then None else Some(Replaced(str, pat, by_, 0))
  {
    if pat == "" {
      return None;
    }
    var count := CountHits(str, pat);
    if count == 0 {
      if Next(str, pat, 0) <= |str| {
        SkipTo(str, pat, by_, 0, Next(str, pat, 0));
      }
      SkipAll(str, pat, by_, 0);
      assert str[0..] == str;
      return Some(str);
    }
    LengthPredicted(str, pat, by_);
    var newLen := PredictedLength(|str|, count, |by_|, |pat|);
    var result := new char[newLen + 1];
    Fill(str, pat, by_, result);
    r := Some(result[..newLen]);
  }

  lemma Regroup(done: string, a: string, b: string, rest: string, todo: string, now: string)
    requires todo == a + b + rest && now == done + a + b
    ensures now + rest == done + todo
  {
  }
}

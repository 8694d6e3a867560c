/** Numbers in the debugger: %d and %x of dbg_vsprintf, and the parser dbg_getoffs (dbg.c). */
module Numbers {
  import opened Arith

  const TWO_31: int := 0x8000_0000
  const TWO_63: int := 0x8000_0000_0000_0000

  // ---------------------------------------------------------------- digits

  predicate IsDecimal(c: char) { '0' <= c <= '9' }

  predicate IsHex(c: char) { IsDecimal(c) || 'a' <= c <= 'f' || 'A' <= c <= 'F' }

  function DigitValue(c: char): (d: nat)
    requires IsHex(c)
    ensures d < 16 && (IsDecimal(c) ==> d < 10)
  {
    if IsDecimal(c) then c as int - '0' as int
    else if 'a' <= c <= 'f' then c as int - 'a' as int + 10
    else c as int - 'A' as int + 10
  }

  /** The printer's digit: 0x30 or 0x37 is added. */
  function Digit(n: nat): (c: char)
    requires n < 16
    ensures IsHex(c) && DigitValue(c) == n && (n < 10 ==> IsDecimal(c))
  {
    (n + (if n > 9 then 0x37 else 0x30)) as char
  }

  /** The digits as characters: printed in upper case, read in either. */
  lemma DigitTable(n: nat)
    requires n < 16
    ensures Digit(n) == "0123456789ABCDEF"[n]
    ensures forall c :: c in {"0123456789ABCDEF"[n], "0123456789abcdef"[n]} ==>
      IsHex(c) && DigitValue(c) == n && (IsDecimal(c) <==> n < 10)
  {
  }

  lemma HexCharacters(c: char)
    requires IsHex(c)
    ensures var d := DigitValue(c); c == "0123456789ABCDEF"[d] || c == "0123456789abcdef"[d]
  {
  }

  function Power(b: nat, k: nat): nat
  {
    if k == 0 then 1 else b * Power(b, k - 1)
  }

  ghost predicate AllHex(s: string) { forall i :: 0 <= i < |s| ==> IsHex(s[i]) }

  ghost predicate AllDecimal(s: string) { forall i :: 0 <= i < |s| ==> IsDecimal(s[i]) }

  /** The number a digit string denotes in base b. */
  function Value(s: string, b: nat): nat
    requires AllHex(s)
  {
    if s == "" then 0 else DigitValue(s[0]) * Power(b, |s| - 1) + Value(s[1..], b)
  }

  /** The number of hexadecimal digits of v. */
  function Width(v: nat): nat { if v < 16 then 1 else 1 + Width(v / 16) }

  // ---------------------------------------------------------------- parsing

  /** A digit loop of dbg_getoffs, in 64-bit unsigned arithmetic. */
  function Accumulate(s: string, i: nat, hex: bool, ret: nat): nat
    requires i <= |s|
    decreases |s| - i
  {
    if i < |s| && (if hex then IsHex(s[i]) else IsDecimal(s[i])) then
      Accumulate(s, i + 1, hex, (ret * (if hex then 16 else 10) + DigitValue(s[i])) % TWO_64)
    else ret
  }

  /** The offset part of dbg_getoffs on a command line s, from i on. */
  function Offset(s: string, i: nat): nat
    requires i <= |s|
  {
    if i + 1 < |s| && s[i] == '0' && s[i + 1] == 'x' then Accumulate(s, i + 2, true, 0)
    else Accumulate(s, i, false, 0)
  }

  method GetOffset(s: string, start: nat) returns (ret: nat)
    requires start <= |s|
    ensures ret == Offset(s, start)
  {
    ret := 0;
    var i := start;
    if i + 1 < |s| && s[i] == '0' && s[i + 1] == 'x' {
      i := i + 2;
      while i < |s| && IsHex(s[i])
        invariant i <= |s| && Offset(s, start) == Accumulate(s, i, true, ret)
      {
        ModAdd(ret * 16, DigitValue(s[i]));
        ret := (ret * 16) % TWO_64;
        ret := (ret + DigitValue(s[i])) % TWO_64;
        i := i + 1;
      }
    } else {
      while i < |s| && IsDecimal(s[i])
        invariant i <= |s| && Offset(s, start) == Accumulate(s, i, false, ret)
      {
        ModAdd(ret * 10, DigitValue(s[i]));
        ret := (ret * 10) % TWO_64;
        ret := (ret + DigitValue(s[i])) % TWO_64;
        i := i + 1;
      }
    }
  }

  // ---------------------------------------------------------------- printing

  /** Does a width pad a string of w characters, given the limit below which widths count? */
  function Padding(w: nat, len: int, limit: nat): nat
  {
    if 0 < len <= limit && w < len then len - w else 0
  }

  /** %x: at most 16 digits, filled in from the right; the shift of a negative number keeps its sign. */
  method FormatHex(v: int, len: int) returns (s: string)
    requires -TWO_63 <= v < TWO_63
    ensures AllHex(s) && Value(s, 16) == v % TWO_64
    ensures |s| == if 0 < len <= 16 then Max(Width(v % TWO_64), len) else Width(v % TWO_64)
  {
    hide Printed, Value, AllHex, Width;
    var tmp := new char[19];
    var arg, i := v, 16;
    tmp[16] := '\0';
    ghost var digits := "";
    NonePrinted(v);
    while i == 16 || (arg != 0 && i > 0)
      invariant 0 <= i <= 16 && tmp[i..16] == digits && |digits| == 16 - i
      invariant Printed(v, arg, digits)
      decreases i
    {
      PrintDigit(v, arg, digits);
      i := i - 1;
      tmp[i] := Digit(arg % 16);
      assert tmp[i..16] == [tmp[i]] + tmp[i + 1..16];
      digits := [Digit(arg % 16)] + digits;
      arg := arg / 16;
    }
    AllPrinted(v, arg, digits);
    ghost var w := |digits|;
    if 0 < len <= 16 {
      while i > 16 - len
        invariant 0 <= i <= 16 && tmp[i..16] == digits && |digits| == 16 - i
        invariant AllHex(digits) && Value(digits, 16) == v % TWO_64
        invariant w <= |digits| && (|digits| == w || |digits| <= len)
      {
        LeadingZero(digits, 16);
        i := i - 1;
        tmp[i] := '0';
        assert tmp[i..16] == [tmp[i]] + tmp[i + 1..16];
        digits := ['0'] + digits;
      }
    }
    s := tmp[i..16];
  }

  /** Digits printed so far for v: they and what is left make up v, and account for its width. */
  ghost predicate Printed(v: int, arg: int, digits: string)
  {
    && -TWO_63 <= v < TWO_63 && AllHex(digits) && |digits| <= 16
    && v == arg * Power(16, |digits|) + Value(digits, 16) && Value(digits, 16) < Power(16, |digits|)
    && (v >= 0 ==> arg >= 0 && (digits != "" ==> Width(v) == |digits| + if arg == 0 then 0 else Width(arg)))
    && (v < 0 ==> arg < 0) && (digits == "" ==> arg == v)
  }

  lemma NonePrinted(v: int)
    requires -TWO_63 <= v < TWO_63
    ensures Printed(v, v, "")
  {
  }

  lemma Prepend(c: char, s: string, b: nat)
    requires IsHex(c) && AllHex(s)
    ensures AllHex([c] + s) && Value([c] + s, b) == DigitValue(c) * Power(b, |s|) + Value(s, b)
  {
    assert ([c] + s)[1..] == s;
  }

  /** One turn of the digit loop. */
  lemma PrintDigit(v: int, arg: int, digits: string)
    requires Printed(v, arg, digits) && |digits| < 16 && (digits != "" ==> arg != 0)
    ensures Printed(v, arg / 16, [Digit(arg % 16)] + digits)
  {
    var p, q, r, n := Power(16, |digits|), arg / 16, arg % 16, Value(digits, 16);
    Prepend(Digit(r), digits, 16);
    SplitDigit(v, arg, p, q, r, n);
  }

  lemma SplitDigit(v: int, arg: int, p: nat, q: int, r: nat, n: nat)
    requires v == arg * p + n && arg == 16 * q + r && r < 16 && n < p
    ensures v == q * (16 * p) + (r * p + n) && r * p + n < 16 * p
  {
    assert (16 * q + r) * p == q * (16 * p) + r * p;
    MulMono(r, 15, p);
  }

  lemma Powers16()
    ensures Power(16, 15) == 0x1000_0000_0000_0000 && Power(16, 16) == TWO_64
  {
    assert Power(16, 4) == 0x1_0000;
    assert Power(16, 8) == 0x1_0000_0000;
    assert Power(16, 12) == 0x1_0000_0000_0000;
  }

  lemma {:induction false} WidthOf(n: nat, k: nat)
    requires (k == 0 || Power(16, k) <= n) && n < Power(16, k + 1)
    ensures Width(n) == k + 1
  {
    if k > 0 {
      assert Power(16, k) == 16 * Power(16, k - 1);
      assert Power(16, k + 1) == 16 * Power(16, k);
      WidthOf(n / 16, k - 1);
    }
  }

  /** When the loop ends, the digits denote v modulo 2^64 and are as many as that needs. */
  lemma AllPrinted(v: int, arg: int, digits: string)
    requires Printed(v, arg, digits) && digits != "" && (arg == 0 || |digits| == 16)
    ensures AllHex(digits) && Value(digits, 16) == v % TWO_64 && |digits| == Width(v % TWO_64)
  {
    hide Width, Value, AllHex;
    Powers16();
    var n := Value(digits, 16);
    if v >= 0 {
      if arg > 0 {
        MulMono(1, arg, TWO_64);
      }
      assert v == n;
      NoWrap(n);
    } else {
      Borrowed(v, arg, n);
      WidthOf(n, 15);
    }
  }

  /** A negative number that one 2^64 makes up for. */
  lemma Borrowed(v: int, arg: int, n: nat)
    requires -TWO_63 <= v < 0 && arg < 0 && v == arg * TWO_64 + n && n < TWO_64
    ensures n == v + TWO_64 == v % TWO_64 && n >= TWO_63
  {
  }

  lemma LeadingZero(s: string, b: nat)
    requires AllHex(s)
    ensures AllHex(['0'] + s) && Value(['0'] + s, b) == Value(s, b)
  {
    Prepend('0', s, b);
  }

  // ---------------------------------------------------------------- hexadecimal round trip

  /** After the run the accumulator stands still. */
  lemma AccumulateEnds(pre: string, s: string, rest: string, hex: bool, ret: nat, b: nat)
    requires s == "" && (rest == "" || !(if hex then IsHex(rest[0]) else IsDecimal(rest[0])))
    ensures Accumulate(pre + s + rest, |pre|, hex, ret) == ret * Power(b, |s|) + Value(s, b)
  {
    var all := pre + s + rest;
    assert rest != "" ==> all[|pre|] == rest[0];
    assert ret * Power(b, 0) == ret;
  }

  /** One digit of the run. */
  lemma AccumulateOne(all: string, i: nat, s: string, hex: bool, ret: nat, r: nat, b: nat)
    requires b == (if hex then 16 else 10) && s != "" && AllHex(s) && (!hex ==> AllDecimal(s))
    requires i < |all| && all[i] == s[0] && r == (ret * b + DigitValue(s[0])) % TWO_64
    ensures Accumulate(all, i, hex, ret) == Accumulate(all, i + 1, hex, r)
  {
  }

  lemma ValueOne(s: string, b: nat, d: nat, p: nat)
    requires s != "" && AllHex(s) && d == DigitValue(s[0]) && p == Power(b, |s| - 1)
    ensures Value(s, b) == d * p + Value(s[1..], b) && Power(b, |s|) == b * p
  {
  }

  /** The parser's accumulator over a run of digits. */
  lemma {:induction false} AccumulateRun(pre: string, s: string, rest: string, hex: bool, ret: nat, b: nat)
    requires b == (if hex then 16 else 10) && AllHex(s) && (!hex ==> AllDecimal(s))
    requires rest == "" || !(if hex then IsHex(rest[0]) else IsDecimal(rest[0]))
    ensures Accumulate(pre + s + rest, |pre|, hex, ret) % TWO_64 == (ret * Power(b, |s|) + Value(s, b)) % TWO_64
    decreases |s|
  {
    hide Accumulate, Value, Power, IsHex, IsDecimal, DigitValue;
    if s == "" {
      AccumulateEnds(pre, s, rest, hex, ret, b);
    } else {
      var d, p, r, all := DigitValue(s[0]), Power(b, |s| - 1), (ret * b + DigitValue(s[0])) % TWO_64, pre + s + rest;
      assert all == (pre + [s[0]]) + s[1..] + rest;
      AccumulateOne(all, |pre|, s, hex, ret, r, b);
      AccumulateRun(pre + [s[0]], s[1..], rest, hex, r, b);
      StepValue(ret, b, d, p, Value(s[1..], b));
      ValueOne(s, b, d, p);
    }
  }

  /** Reducing early or late makes no difference modulo 2^64. */
  lemma StepValue(ret: nat, b: nat, d: nat, p: nat, n: nat)
    ensures (((ret * b + d) % TWO_64) * p + n) % TWO_64 == (ret * (b * p) + (d * p + n)) % TWO_64
  {
    var x := ret * b + d;
    var q := x / TWO_64;
    assert x == TWO_64 * q + x % TWO_64;
    assert x * p == (q * p) * TWO_64 + (x % TWO_64) * p;
    assert x * p == ret * (b * p) + d * p;
    ModShift((x % TWO_64) * p + n, q * p);
  }

  lemma ModShift(a: int, k: int)
    ensures (a + k * TWO_64) % TWO_64 == a % TWO_64
  {
  }

  lemma {:induction false} AccumulateBound(s: string, i: nat, hex: bool, ret: nat)
    requires i <= |s| && ret < TWO_64
    ensures Accumulate(s, i, hex, ret) < TWO_64
    decreases |s| - i
  {
    if i < |s| && (if hex then IsHex(s[i]) else IsDecimal(s[i])) {
      AccumulateBound(s, i + 1, hex, (ret * (if hex then 16 else 10) + DigitValue(s[i])) % TWO_64);
    }
  }

  /** Parsing "0x" and what %x prints returns the number, a negative one as its two's complement,
      whatever the width and whatever follows, as long as that is no further digit. */
  method HexRoundTrip(v: int, len: int, rest: string) returns (s: string, r: nat)
    requires -TWO_63 <= v < TWO_63 && (rest == "" || !IsHex(rest[0]))
    ensures r == Offset("0x" + s + rest, 0) == v % TWO_64
  {
    s := FormatHex(v, len);
    HexParses(s, rest, v);
    r := GetOffset("0x" + s + rest, 0);
  }

  lemma HexParses(s: string, rest: string, v: int)
    requires AllHex(s) && Value(s, 16) == v % TWO_64 && (rest == "" || !IsHex(rest[0]))
    ensures Offset("0x" + s + rest, 0) == v % TWO_64
  {
    var all := "0x" + s + rest;
    HexPrefix("0x", s + rest, all);
    HexRun("0x", s, rest, all, Accumulate(all, 2, true, 0), v % TWO_64);
  }

  /** Letters in lower case read the same. */
  ghost predicate SameDigits(s: string, t: string)
  {
    && |s| == |t|
    && forall i :: 0 <= i < |s| ==> t[i] == s[i] || ('A' <= s[i] <= 'F' && t[i] as int == s[i] as int + 32)
  }

  lemma {:induction false} CaseBlind(s: string, t: string, b: nat)
    requires AllHex(s) && SameDigits(s, t)
    ensures AllHex(t) && Value(t, b) == Value(s, b)
  {
    if s != "" {
      CaseBlind(s[1..], t[1..], b);
      assert t == [t[0]] + t[1..];
    }
  }

  /** What %x prints parses to the number in lower case as well. */
  lemma LowerCaseParses(s: string, t: string, rest: string, v: int)
    requires AllHex(s) && Value(s, 16) == v % TWO_64 && SameDigits(s, t) && (rest == "" || !IsHex(rest[0]))
    ensures Offset("0x" + t + rest, 0) == v % TWO_64
  {
    CaseBlind(s, t, 16);
    HexParses(t, rest, v);
  }

  lemma HexRun(pre: string, s: string, rest: string, all: string, r: nat, n: nat)
    requires |pre| == 2 && AllHex(s) && (rest == "" || !IsHex(rest[0])) && all == pre + s + rest
    requires r == Accumulate(all, 2, true, 0) && n == Value(s, 16) < TWO_64
    ensures r == n
  {
    AccumulateRun(pre, s, rest, true, 0, 16);
    AccumulateBound(all, 2, true, 0);
    NoWrap(r);
    NoWrap(n);
  }

  lemma HexPrefix(pre: string, t: string, all: string)
    requires pre == "0x" && all == pre + t
    ensures Offset(all, 0) == Accumulate(all, 2, true, 0)
  {
    assert all[0] == pre[0] && all[1] == pre[1];
  }

  // ---------------------------------------------------------------- decimal

  /** n in decimal, without leading zeros. */
  function Decimal(n: nat): (s: string)
    ensures s != "" && AllDecimal(s)
  {
    if n < 10 then [Digit(n)] else Decimal(n / 10) + [Digit(n % 10)]
  }

  /** What %d prints: the pad goes in front of the sign. */
  function Printout(v: int, len: int, pad: char): string
  {
    var t := if v < 0 then "-" + Decimal(-v) else Decimal(v);
    Repeated(pad, Padding(|t|, len, 17)) + t
  }

  lemma {:induction false} DecimalLength(n: nat, w: nat)
    requires w >= 1 && n < Power(10, w)
    ensures |Decimal(n)| <= w
    decreases w
  {
    if n >= 10 {
      assert Power(10, 1) == 10 * Power(10, 0);
      assert Power(10, w) == 10 * Power(10, w - 1);
      DecimalLength(n / 10, w - 1);
    }
  }

  lemma Power10()
    ensures Power(10, 10) == 10_000_000_000
  {
    assert Power(10, 4) == 10_000;
    assert Power(10, 8) == 100_000_000;
  }

  /** The digit loop of %d, from the right of the 18-character buffer. */
  method FillDigits(tmp: array<char>, n: nat) returns (i: nat)
    requires tmp.Length == 19 && n < 10_000_000_000
    modifies tmp
    ensures 8 <= i < 18 && tmp[i..18] == Decimal(n)
  {
    hide Decimal, Power;
    Power10();
    DecimalLength(n, 10);
    assert Decimal(n) + "" == Decimal(n);
    var arg := n;
    i := 18;
    ghost var t := "";
    while i == 18 || (arg != 0 && i > 0)
      invariant 0 <= i <= 18 && tmp[i..18] == t && |t| == 18 - i
      invariant Decimal(n) == (if arg == 0 && i < 18 then "" else Decimal(arg)) + t
      decreases i
    {
      i := i - 1;
      tmp[i] := Digit(arg % 10);
      assert tmp[i..18] == [tmp[i]] + tmp[i + 1..18];
      DecimalDigit(n, arg, t);
      t := [Digit(arg % 10)] + t;
      arg := arg / 10;
    }
  }

  /** The padding loop of %d. */
  method FillPad(tmp: array<char>, from: nat, len: int, pad: char) returns (i: nat)
    requires tmp.Length == 19 && from <= 18
    modifies tmp
    ensures i <= 18 && tmp[i..18] == Repeated(pad, Padding(18 - from, len, 17)) + old(tmp[from..18])
  {
    hide Repeated;
    ghost var t, k := tmp[from..18], 0;
    i := from;
    OnePadLess(pad, t);
    if 0 < len < 18 {
      while i > 18 - len
        invariant i <= 18 && tmp[i..18] == Repeated(pad, k) + t && k + |t| == 18 - i
        invariant k == 0 || k + |t| <= len
      {
        i := i - 1;
        tmp[i] := pad;
        assert tmp[i..18] == [tmp[i]] + tmp[i + 1..18];
        OneMorePad(pad, k, t);
        k := k + 1;
      }
    }
    assert k == Padding(|t|, len, 17);
  }

  /** %d of a 32-bit value. */
  method FormatDecimal(v: int, len: int, pad: char) returns (s: string)
    requires -TWO_31 <= v < TWO_31
    ensures s == Printout(v, len, pad)
  {
    var tmp := new char[19];
    tmp[18] := '\0';
    var i := FillDigits(tmp, if v < 0 then -v else v);
    if v < 0 {
      i := i - 1;
      tmp[i] := '-';
      assert tmp[i..18] == [tmp[i]] + tmp[i + 1..18];
    }
    i := FillPad(tmp, i, len, pad);
    s := tmp[i..18];
  }

  lemma OnePadLess(pad: char, t: string)
    ensures Repeated(pad, 0) + t == t
  {
  }

  lemma DecimalDigit(n: nat, arg: nat, t: string)
    requires Decimal(n) == Decimal(arg) + t
    ensures Decimal(n) == (if arg / 10 == 0 then "" else Decimal(arg / 10)) + ([Digit(arg % 10)] + t)
  {
    if arg >= 10 {
      assert Decimal(arg / 10) + [Digit(arg % 10)] + t == Decimal(arg / 10) + ([Digit(arg % 10)] + t);
    }
  }

  lemma OneMorePad(pad: char, k: nat, t: string)
    ensures Repeated(pad, k + 1) + t == [pad] + (Repeated(pad, k) + t)
  {
  }

  // ---------------------------------------------------------------- decimal round trip

  lemma {:induction false} AppendDigit(s: string, c: char, b: nat)
    requires AllHex(s) && IsHex(c)
    ensures AllHex(s + [c]) && Value(s + [c], b) == Value(s, b) * b + DigitValue(c)
  {
    if s == "" {
      assert s + [c] == [c];
      assert Power(b, 0) == 1;
    } else {
      assert (s + [c])[1..] == s[1..] + [c];
      AppendDigit(s[1..], c, b);
      Horner(DigitValue(s[0]), Power(b, |s| - 1), b, Value(s[1..], b), DigitValue(c));
    }
  }

  lemma Horner(d: nat, p: nat, b: nat, x: nat, e: nat)
    ensures d * (b * p) + (x * b + e) == (d * p + x) * b + e
  {
    assert d * (b * p) == (d * p) * b;
  }

  lemma {:induction false} DecimalValue(n: nat)
    ensures AllHex(Decimal(n)) && Value(Decimal(n), 10) == n
  {
    if n >= 10 {
      DecimalValue(n / 10);
      AppendDigit(Decimal(n / 10), Digit(n % 10), 10);
    } else {
      AppendDigit("", Digit(n), 10);
      assert "" + [Digit(n)] == [Digit(n)];
    }
  }

  lemma {:induction false} ZerosInFront(k: nat, t: string, b: nat)
    requires AllHex(t)
    ensures AllHex(Repeated('0', k) + t) && Value(Repeated('0', k) + t, b) == Value(t, b)
  {
    if k == 0 {
      assert Repeated('0', 0) + t == t;
    } else {
      ZerosInFront(k - 1, t, b);
      OneMorePad('0', k - 1, t);
      LeadingZero(Repeated('0', k - 1) + t, b);
    }
  }

  lemma {:induction false} NoLeadingZero(n: nat)
    ensures |Decimal(n)| > 1 ==> Decimal(n)[0] != '0'
    ensures n > 0 ==> Decimal(n)[0] != '0'
  {
    if n >= 10 {
      NoLeadingZero(n / 10);
    }
  }

  /** What %d prints: padding, a minus sign if the number is negative, and the digits of its size without
      leading zeros; as long as the digits and the sign, or the width if that is below 18 and larger. */
  lemma PrintoutReads(v: int, len: int, pad: char) returns (k: nat, t: string)
    ensures Printout(v, len, pad) == Repeated(pad, k) + (if v < 0 then "-" else "") + t
    ensures AllHex(t) && AllDecimal(t) && t != "" && (|t| > 1 ==> t[0] != '0')
    ensures Value(t, 10) == if v < 0 then -v else v
    ensures var w := |t| + (if v < 0 then 1 else 0); k + w == if 0 < len < 18 then Max(len, w) else w
  {
    var n := if v < 0 then -v else v;
    t := Decimal(n);
    var u := (if v < 0 then "-" else "") + t;
    k := Padding(|u|, len, 17);
    DecimalValue(n);
    NoLeadingZero(n);
    assert v >= 0 ==> u == t;
    assert Repeated(pad, k) + u == Repeated(pad, k) + (if v < 0 then "-" else "") + t;
  }

  /** A decimal run is parsed to its value, unless it looks like a hexadecimal prefix. */
  lemma DecimalParses(s: string, rest: string, all: string)
    requires AllDecimal(s) && AllHex(s) && Value(s, 10) < TWO_64 && (rest == "" || !IsDecimal(rest[0]))
    requires !(|s| == 1 && s[0] == '0' && rest != "" && rest[0] == 'x') && all == s + rest
    ensures Offset(all, 0) == Value(s, 10)
  {
    NoHexPrefix(s, rest, all);
    PlainRun(s, rest, all, Accumulate(all, 0, false, 0), Value(s, 10));
  }

  lemma TimesNothing(p: nat)
    ensures 0 * p == 0
  {
  }

  lemma PlainRun(s: string, rest: string, all: string, r: nat, n: nat)
    requires AllDecimal(s) && AllHex(s) && (rest == "" || !IsDecimal(rest[0])) && all == s + rest
    requires r == Accumulate(all, 0, false, 0) && n == Value(s, 10) < TWO_64
    ensures r == n
  {
    hide Accumulate, Value, Power, AllHex, AllDecimal, IsDecimal, IsHex;
    AccumulateRun("", s, rest, false, 0, 10);
    assert "" + s + rest == all;
    AccumulateBound(all, 0, false, 0);
    TimesNothing(Power(10, |s|));
    NoWrap(r);
    NoWrap(n);
  }

  lemma NoHexPrefix(s: string, rest: string, all: string)
    requires AllDecimal(s) && all == s + rest && !(|s| == 1 && s[0] == '0' && rest != "" && rest[0] == 'x')
    requires rest == "" || !IsDecimal(rest[0])
    ensures Offset(all, 0) == Accumulate(all, 0, false, 0)
  {
    if |s| >= 2 {
      assert all[1] == s[1];
    } else if |s| == 1 && rest != "" {
      assert all[0] == s[0] && all[1] == rest[0];
    } else if s == "" && rest != "" {
      assert all[0] == rest[0];
    }
  }

  /** Parsing what %d prints returns the number exactly when it is 0, or positive and not padded with
      spaces: the parser reads no leading space and no sign. */
  lemma DecimalExactly(v: int, len: int, pad: char)
    requires -TWO_31 <= v < TWO_31 && (pad == ' ' || pad == '0')
    ensures Offset(Printout(v, len, pad), 0) == v <==>
            v == 0 || (v > 0 && !(pad == ' ' && |Decimal(v)| < len < 18))
  {
    var s := Printout(v, len, pad);
    assert s + "" == s;
    if v >= 0 {
      var k := Padding(|Decimal(v)|, len, 17);
      DecimalValue(v);
      if pad == '0' || k == 0 {
        if k == 0 {
          assert s == Decimal(v);
        } else {
          ZerosInFront(k, Decimal(v), 10);
        }
        DecimalParses(s, "", s);
      } else {
        assert s[0] == ' ';
      }
    }
  }
}

/** The pieces of the Java runtime the record manager leans on: the 32-bit `int`,
    `String.trim()`, `Integer.parseInt(String)` and the decimal rendering that string
    concatenation uses for an `int`. */
module JavaText {
  import opened Outcomes

  const INT_MIN: int := -0x8000_0000
  const INT_MAX: int := 0x7fff_ffff

  /** Java's `int`. */
  type Int32 = x: int | INT_MIN <= x <= INT_MAX

  // ---------------------------------------------------------------------------
  // String.trim()
  // ---------------------------------------------------------------------------

  /** `String.trim()` strips characters whose code is U+0020 or below. */
  predicate IsSpaceOrControl(c: char) {
    c <= ' '
  }

  /** A line that `trim()` turns into the empty string. */
  predicate IsBlank(t: string) {
    forall i :: 0 <= i < |t| ==> IsSpaceOrControl(t[i])
  }

  function TrimStart(t: string): string {
    if |t| > 0 && IsSpaceOrControl(t[0]) then TrimStart(t[1..]) else t
  }

  function TrimEnd(t: string): string {
    if |t| > 0 && IsSpaceOrControl(t[|t| - 1]) then TrimEnd(t[..|t| - 1]) else t
  }

  /** `TrimStart` drops a blank prefix and stops at the first non-blank character. */
  lemma {:induction false} TrimStartFacts(t: string)
    ensures var r := TrimStart(t);
      && |r| <= |t| && r == t[|t| - |r|..]
      && IsBlank(t[..|t| - |r|])
      && (r == [] || !IsSpaceOrControl(r[0]))
  {
    if |t| > 0 && IsSpaceOrControl(t[0]) {
      var u := t[1..];
      TrimStartFacts(u);
      var r := TrimStart(u);
      assert r == t[|t| - |r|..];
      assert t[..|t| - |r|] == [t[0]] + u[..|u| - |r|];
    }
  }

  /** `TrimEnd` drops a blank suffix and stops at the last non-blank character. */
  lemma {:induction false} TrimEndFacts(t: string)
    ensures var r := TrimEnd(t);
      && |r| <= |t| && r == t[..|r|]
      && IsBlank(t[|r|..])
      && (r == [] || !IsSpaceOrControl(r[|r| - 1]))
  {
    if |t| > 0 && IsSpaceOrControl(t[|t| - 1]) {
      var u := t[..|t| - 1];
      TrimEndFacts(u);
      var r := TrimEnd(u);
      assert r == t[..|r|];
      assert t[|r|..] == u[|r|..] + [t[|t| - 1]];
    }
  }

  /** `String.trim()`: cuts the blank characters off both ends. What the result is
      made of is stated by `TrimPieces` and `TrimEmptyIffBlank`. */
  function Trim(t: string): string {
    TrimEnd(TrimStart(t))
  }

  /** The trimmed text is the slice of the line from `i` on, with blank text on
      either side, and it neither starts nor ends with a blank character. */
  lemma TrimPieces(t: string)
    ensures var r := Trim(t); var i := |t| - |TrimStart(t)|;
      && 0 <= i && i + |r| <= |t| && r == t[i..i + |r|] && IsBlank(t[..i]) && IsBlank(t[i + |r|..])
      && (r == [] || (!IsSpaceOrControl(r[0]) && !IsSpaceOrControl(r[|r| - 1])))
  {
    var s := TrimStart(t);
    var r := TrimEnd(s);
    TrimStartFacts(t);
    TrimEndFacts(s);
    var i := |t| - |s|;
    SliceOfSuffix(t, i, |r|);
    if r != [] {
      assert r[0] == s[0];
    }
  }

  lemma SliceOfSuffix(t: string, i: nat, n: nat)
    requires i + n <= |t|
    ensures t[i..][..n] == t[i..i + n] && t[i..][n..] == t[i + n..]
  {
  }

  /** `trim().isEmpty()` holds exactly of blank lines. */
  lemma TrimEmptyIffBlank(t: string)
    ensures Trim(t) == [] <==> IsBlank(t)
  {
    TrimPieces(t);
    var i := |t| - |TrimStart(t)|;
    BlankPieces(t, i, i + |Trim(t)|);
  }

  /** A text whose head, middle and tail are blank is blank, and a blank text has blank pieces. */
  lemma BlankPieces(t: string, i: nat, j: nat)
    requires i <= j <= |t|
    ensures IsBlank(t[..i]) && IsBlank(t[i..j]) && IsBlank(t[j..]) <==> IsBlank(t)
  {
    if IsBlank(t[..i]) && IsBlank(t[i..j]) && IsBlank(t[j..]) {
      forall k | 0 <= k < |t|
        ensures IsSpaceOrControl(t[k])
      {
        if k < i {
          assert t[..i][k] == t[k];
        } else if k < j {
          assert t[i..j][k - i] == t[k];
        } else {
          assert t[j..][k - j] == t[k];
        }
      }
    }
  }

  /** Trimming twice is trimming once. */
  lemma TrimIdempotent(t: string)
    ensures Trim(Trim(t)) == Trim(t)
  {
    var r := Trim(t);
    TrimPieces(t);
    if r != [] {
      assert TrimStart(r) == r;
      assert TrimEnd(r) == r;
    }
  }

  // ---------------------------------------------------------------------------
  // Decimal digits
  // ---------------------------------------------------------------------------

  predicate IsDigit(c: char) {
    '0' <= c <= '9'
  }

  predicate AllDigits(t: string) {
    forall i :: 0 <= i < |t| ==> IsDigit(t[i])
  }

  function DigitValue(c: char): nat
    requires IsDigit(c)
  {
    c as int - '0' as int
  }

  function DigitChar(d: nat): char
    requires d < 10
  {
    ('0' as int + d) as char
  }

  /** The number a string of decimal digits denotes, read most significant first. */
  function DigitsValue(t: string): nat
    requires AllDigits(t)
  {
    if |t| == 0 then 0 else DigitsValue(t[..|t| - 1]) * 10 + DigitValue(t[|t| - 1])
  }

  /** The decimal digits of `n` without leading zeros; reading them back gives `n`. */
  function Decimal(n: nat): (r: string)
    ensures |r| > 0 && AllDigits(r)
    ensures DigitsValue(r) == n
    ensures r[0] == '0' ==> n == 0 && r == "0"
  {
    if n < 10 then
      [DigitChar(n)]
    else
      var p := Decimal(n / 10);
      var r := p + [DigitChar(n % 10)];
      assert r[..|r| - 1] == p;
      r
  }

  // ---------------------------------------------------------------------------
  // Integer.toString(int) and Integer.parseInt(String)
  // ---------------------------------------------------------------------------

  /** How Java renders an `int` inside a string concatenation: an optional minus sign
      followed by decimal digits. */
  function IntToString(n: int): (r: string)
    ensures |r| > 0
    ensures forall i :: 0 <= i < |r| ==> IsDigit(r[i]) || (i == 0 && r[i] == '-' && n < 0)
    ensures n < 0 <==> r[0] == '-'
    ensures n < 0 ==> AllDigits(r[1..]) && DigitsValue(r[1..]) == -n
    ensures n >= 0 ==> AllDigits(r) && DigitsValue(r) == n
    ensures n > 0 ==> r[0] != '0'
    ensures n < 0 ==> |r| > 1 && r[1] != '0'
    ensures n == 0 ==> r == "0"
  {
    if n < 0 then
      var d := Decimal(-n);
      assert ("-" + d)[1..] == d;
      "-" + d
    else
      var d := Decimal(n);
      assert IsDigit(d[0]);
      d
  }

  /** `Integer.parseInt(t)` with radix 10: an optional `-` or `+`, then at least one
      ASCII digit, and the value must fit an `int`; every other text is refused
      (`None` stands for the `NumberFormatException`). No trimming is done. */
  function ParseInt(t: string): Option<Int32> {
    if |t| == 0 then None
    else
      var negative := t[0] == '-';
      var digits := if t[0] == '-' || t[0] == '+' then t[1..] else t;
      if |digits| == 0 || !AllDigits(digits) then None
      else
        var d: int := DigitsValue(digits);
        var v := if negative then -d else d;
        if INT_MIN <= v <= INT_MAX then Some(v) else None
  }

  /** `Integer.parseInt` reads back exactly what string concatenation wrote. */
  lemma ParseIntToString(n: Int32)
    ensures ParseInt(IntToString(n)) == Some(n)
  {
    var t := IntToString(n);
    var m: int := n;
    if m < 0 {
      assert t[1..] == Decimal(-m);
    } else {
      assert t == Decimal(n);
      assert IsDigit(t[0]);
    }
  }

  /** `Integer.parseInt` takes any run of digits, leading zeros included, after an
      optional `+` or `-`, as long as the value fits an `int`. */
  lemma ParseIntOfSignedDigits(sign: string, d: string)
    requires sign == "" || sign == "+" || sign == "-"
    requires |d| > 0 && AllDigits(d)
    ensures var v := if sign == "-" then -(DigitsValue(d) as int) else DigitsValue(d) as int;
      ParseInt(sign + d) == if INT_MIN <= v <= INT_MAX then Some(v) else None
  {
    var t := sign + d;
    if sign == "" {
      assert t == d;
      assert IsDigit(t[0]);
    } else {
      assert t[0] == sign[0];
      assert t[1..] == d;
    }
  }

  /** The texts `Integer.parseInt` can read: an optional `+` or `-` sign followed
      by at least one ASCII digit. */
  predicate SignedDigits(t: string) {
    && |t| > 0
    && (IsDigit(t[0]) || ((t[0] == '+' || t[0] == '-') && |t| > 1))
    && AllDigits(t[1..])
  }

  /** `Integer.parseInt` refuses every text that is not a sign and digits; such a
      text splits into the sign and the digits `ParseIntOfSignedDigits` is about. */
  lemma ParseIntOnlySignedDigits(t: string)
    ensures ParseInt(t).Some? ==> SignedDigits(t)
    ensures SignedDigits(t) ==>
      var sign := if IsDigit(t[0]) then "" else t[..1];
      && (sign == "" || sign == "+" || sign == "-")
      && |t[|sign|..]| > 0 && AllDigits(t[|sign|..]) && t == sign + t[|sign|..]
  {
    if ParseInt(t).Some? && IsDigit(t[0]) {
      assert AllDigits(t);
    }
    if SignedDigits(t) && IsDigit(t[0]) {
      assert AllDigits(t) by {
        forall i | 0 <= i < |t| ensures IsDigit(t[i]) {
          if i > 0 {
            assert t[1..][i - 1] == t[i];
          }
        }
      }
    }
  }

  /** A text with a space or control character anywhere is not a number to
      `Integer.parseInt`: only a trimmed line can parse. */
  lemma ParseIntRejectsSpace(t: string, k: nat)
    requires k < |t| && IsSpaceOrControl(t[k])
    ensures ParseInt(t) == None
  {
    if ParseInt(t).Some? {
      if k == 0 {
        assert !(IsDigit(t[0]) || t[0] == '-' || t[0] == '+');
      } else {
        var digits := if t[0] == '-' || t[0] == '+' then t[1..] else t;
        assert t[k] in digits;
      }
    }
  }

  // ---------------------------------------------------------------------------
  // Splitting text at a separator character
  // ---------------------------------------------------------------------------

  /** The longest prefix of `t` that does not contain `c`. */
  function PrefixBefore(t: string, c: char): (r: string)
    ensures |r| <= |t| && r == t[..|r|]
    ensures c !in r
    ensures |r| < |t| ==> t[|r|] == c
  {
    if |t| == 0 || t[0] == c then [] else [t[0]] + PrefixBefore(t[1..], c)
  }

  /** The longest suffix of `t` that does not contain `c`. */
  function SuffixAfter(t: string, c: char): (r: string)
    ensures |r| <= |t| && r == t[|t| - |r|..]
    ensures c !in r
    ensures |r| < |t| ==> t[|t| - |r| - 1] == c
  {
    if |t| == 0 || t[|t| - 1] == c then [] else SuffixAfter(t[..|t| - 1], c) + [t[|t| - 1]]
  }

  /** Cutting `a + b` before `c` gives back `a` when `a` lacks `c` and `b` starts with it. */
  lemma {:induction false} PrefixBeforeJoin(a: string, b: string, c: char)
    requires c !in a
    requires |b| > 0 && b[0] == c
    ensures PrefixBefore(a + b, c) == a
  {
    if |a| > 0 {
      assert (a + b)[1..] == a[1..] + b;
      PrefixBeforeJoin(a[1..], b, c);
      assert a == [a[0]] + a[1..];
    } else {
      assert a + b == b;
    }
  }

  /** Cutting `a + b` after the last `c` gives back `b` when `b` lacks `c` and `a` ends with it. */
  lemma {:induction false} SuffixAfterJoin(a: string, b: string, c: char)
    requires c !in b
    requires |a| > 0 && a[|a| - 1] == c
    ensures SuffixAfter(a + b, c) == b
  {
    if |b| > 0 {
      var t := a + b;
      assert t[..|t| - 1] == a + b[..|b| - 1];
      SuffixAfterJoin(a, b[..|b| - 1], c);
      assert b == b[..|b| - 1] + [b[|b| - 1]];
    } else {
      assert a + b == a;
    }
  }
}

/** The console input checks of `StudentManagementSystem`: what each prompt accepts
    from one line, and the retry loop that keeps reading lines until one is accepted.
    Console input is a sequence of lines; running out of lines is where Java's
    `Scanner.nextLine` would throw. */
module Validation {
  import opened Outcomes
  import opened JavaText

  /** `getValidChoice`, one line: the line as typed (not trimmed) must parse to 1..5. */
  function AcceptChoice(line: string): (r: Option<Int32>)
    ensures r.Some? ==> 1 <= r.value <= 5 && ParseInt(line) == r
    ensures ParseInt(line).Some? && 1 <= ParseInt(line).value <= 5 ==> r == ParseInt(line)
  {
    match ParseInt(line)
    case Some(c) => if 1 <= c <= 5 then Some(c) else None
    case None => None
  }

  /** `getValidId`, one line: the trimmed line must parse to a number above zero. */
  function AcceptId(line: string): (r: Option<Int32>)
    ensures r.Some? ==> r.value > 0 && ParseInt(Trim(line)) == r
    ensures ParseInt(Trim(line)).Some? && ParseInt(Trim(line)).value > 0 ==> r == ParseInt(Trim(line))
  {
    match ParseInt(Trim(line))
    case Some(id) => if id > 0 then Some(id) else None
    case None => None
  }

  /** `getValidMarks(prompt, currentValue)`, one line: a blank line (one that trims
      to nothing, see `TrimEmptyIffBlank`) keeps `currentValue` without checking it;
      otherwise the trimmed line must parse to 0..100. */
  function AcceptMarks(line: string, currentValue: Int32): (r: Option<Int32>)
    ensures r.Some? ==> (0 <= r.value <= 100) || (IsBlank(line) && r.value == currentValue)
    ensures IsBlank(line) ==> r == Some(currentValue)
    ensures !IsBlank(line) && r.Some? ==> ParseInt(Trim(line)) == r
    ensures !IsBlank(line) && ParseInt(Trim(line)).Some? && 0 <= ParseInt(Trim(line)).value <= 100 ==> r == ParseInt(Trim(line))
  {
    if IsBlank(line) then Some(currentValue)
    else
      match ParseInt(Trim(line))
      case Some(m) => if 0 <= m <= 100 then Some(m) else None
      case None => None
  }

  /** The name prompt of `addStudent`, one line: the trimmed line, unless it trims
      to nothing. */
  function AcceptName(line: string): Option<string> {
    if IsBlank(line) then None else Some(Trim(line))
  }

  /** An accepted name is the typed line trimmed: not empty and with nothing left to
      trim. A name is refused exactly when the line is blank. */
  lemma AcceptedNameIsTrimmed(line: string)
    ensures AcceptName(line).None? <==> IsBlank(line)
    ensures AcceptName(line).Some? ==> AcceptName(line).value == Trim(line)
    ensures AcceptName(line).Some? ==> var n := AcceptName(line).value; |n| > 0 && Trim(n) == n
  {
    TrimEmptyIffBlank(line);
    TrimIdempotent(line);
  }

  /** The marks prompt of `addStudent`: `getValidMarks()` passes -1 as the current
      value, so a blank line yields -1. */
  const ADD_DEFAULT_MARKS: Int32 := -1

  /** The position of the first line from `from` on that `accept` takes, or
      `|lines|` when there is none: where a prompt loop stops reading. */
  function FirstIndex<T>(lines: seq<string>, from: nat, accept: string -> Option<T>): (r: nat)
    requires from <= |lines|
    ensures from <= r <= |lines|
    ensures r < |lines| ==> accept(lines[r]).Some?
    ensures forall j {:trigger accept(lines[j])} :: from <= j < r ==> accept(lines[j]).None?
    decreases |lines| - from
  {
    if from == |lines| then |lines|
    else if accept(lines[from]).Some? then from
    else FirstIndex(lines, from + 1, accept)
  }

  /** The marks prompt with `currentValue` as the value a blank line keeps. */
  function MarksPrompt(currentValue: Int32): (p: string -> Option<Int32>)
    ensures forall line :: p(line) == AcceptMarks(line, currentValue)
  {
    line => AcceptMarks(line, currentValue)
  }

  /** Every prompt loop: read lines from position `from` on until `accept` takes
      one. Returns the accepted value and the position after the last line read, or
      `None` when the lines ran out first. */
  method FirstAccepted<T>(lines: seq<string>, from: nat, accept: string -> Option<T>) returns (r: Option<T>, next: nat)
    requires from <= |lines|
    ensures from <= next <= |lines|
    ensures r.Some? ==> from < next && accept(lines[next - 1]) == r
    ensures r.None? ==> next == |lines|
    ensures forall j {:trigger accept(lines[j])} :: from <= j < next && (r.None? || j < next - 1) ==> accept(lines[j]).None?
    ensures r.Some? <==> FirstIndex(lines, from, accept) < |lines|
    ensures r.Some? ==> next == FirstIndex(lines, from, accept) + 1
    ensures r.None? ==> |lines| == FirstIndex(lines, from, accept)
  {
    next := from;
    while next < |lines|
      invariant from <= next <= |lines|
      invariant forall j {:trigger accept(lines[j])} :: from <= j < next ==> accept(lines[j]).None?
      invariant FirstIndex(lines, next, accept) == FirstIndex(lines, from, accept)
    {
      var a := accept(lines[next]);
      if a.Some? {
        return a, next + 1;
      }
      next := next + 1;
    }
    return None, next;
  }

  // ---------------------------------------------------------------------------
  // What each prompt makes of the text Java would print for a number
  // ---------------------------------------------------------------------------

  /** Typing a number at the menu selects it exactly when it is 1..5. */
  lemma ChoiceOfNumber(n: Int32)
    ensures AcceptChoice(IntToString(n)) == if 1 <= n <= 5 then Some(n) else None
  {
    ParseIntToString(n);
  }

  /** The menu does not trim: a choice typed with a leading space is refused. */
  lemma ChoiceNotTrimmed(n: Int32)
    ensures AcceptChoice(" " + IntToString(n)) == None
  {
    ParseIntRejectsSpace(" " + IntToString(n), 0);
  }

  /** Typing a number at the id prompt, with any blanks before and after it, gives
      that id exactly when it is above zero. */
  lemma IdOfNumber(n: Int32, pre: string, post: string)
    requires IsBlank(pre) && IsBlank(post)
    ensures AcceptId(pre + IntToString(n) + post) == if n > 0 then Some(n) else None
  {
    TrimOfPadded(pre, IntToString(n), post);
    ParseIntToString(n);
  }

  /** Typing a number at a marks prompt gives it exactly when it is in 0..100. */
  lemma MarksOfNumber(n: Int32, currentValue: Int32)
    ensures AcceptMarks(IntToString(n), currentValue) == if 0 <= n <= 100 then Some(n) else None
  {
    var t := IntToString(n);
    TrimOfPadded([], t, []);
    assert [] + t + [] == t;
    ParseIntToString(n);
  }

  // ---------------------------------------------------------------------------
  // What each prompt makes of any signed run of digits
  // ---------------------------------------------------------------------------

  /** The menu takes `+3` or `03` as choice 3: any run of digits, after an optional
      `+`, whose value is 1..5. */
  lemma ChoiceOfDigits(sign: string, d: string)
    requires sign == "" || sign == "+"
    requires |d| > 0 && AllDigits(d)
    ensures AcceptChoice(sign + d) == if 1 <= DigitsValue(d) <= 5 then Some(DigitsValue(d) as Int32) else None
  {
    ParseIntOfSignedDigits(sign, d);
  }

  /** The id prompt takes `+5`, `007` or ` 5`: any run of digits, after an optional
      `+` and with any blanks around it, whose value is an `int` above zero. */
  lemma IdOfDigits(pre: string, sign: string, d: string, post: string)
    requires IsBlank(pre) && IsBlank(post)
    requires sign == "" || sign == "+"
    requires |d| > 0 && AllDigits(d)
    ensures AcceptId(pre + (sign + d) + post) == if 0 < DigitsValue(d) <= INT_MAX then Some(DigitsValue(d) as Int32) else None
  {
    SignedDigitsAreWord(sign, d);
    TrimOfPadded(pre, sign + d, post);
    ParseIntOfSignedDigits(sign, d);
  }

  /** A marks prompt takes `+50` or `050` as 50: any run of digits, after an
      optional `+` and with any blanks around it, whose value is 0..100. */
  lemma MarksOfDigits(pre: string, sign: string, d: string, post: string, currentValue: Int32)
    requires IsBlank(pre) && IsBlank(post)
    requires sign == "" || sign == "+"
    requires |d| > 0 && AllDigits(d)
    ensures AcceptMarks(pre + (sign + d) + post, currentValue) == if DigitsValue(d) <= 100 then Some(DigitsValue(d) as Int32) else None
  {
    var line := pre + (sign + d) + post;
    SignedDigitsAreWord(sign, d);
    TrimOfPadded(pre, sign + d, post);
    TrimEmptyIffBlank(line);
    ParseIntOfSignedDigits(sign, d);
  }

  /** A signed run of digits neither starts nor ends with a blank. */
  lemma SignedDigitsAreWord(sign: string, d: string)
    requires sign == "" || sign == "+"
    requires |d| > 0 && AllDigits(d)
    ensures var t := sign + d; |t| > 0 && !IsSpaceOrControl(t[0]) && !IsSpaceOrControl(t[|t| - 1])
  {
    var t := sign + d;
    assert t[|t| - 1] == d[|d| - 1];
    if sign == "" {
      assert t[0] == d[0];
    }
  }

  /** Trimming a word that starts and ends with printable characters, with any
      blanks before and after it, gives the word back. */
  lemma TrimOfPadded(pre: string, t: string, post: string)
    requires IsBlank(pre) && IsBlank(post)
    requires |t| > 0 && !IsSpaceOrControl(t[0]) && !IsSpaceOrControl(t[|t| - 1])
    ensures Trim(pre + t + post) == t
  {
    TrimStartOfPadded(pre, t + post);
    assert pre + t + post == pre + (t + post);
    TrimEndOfPadded(t, post);
  }

  lemma {:induction false} TrimStartOfPadded(pad: string, t: string)
    requires IsBlank(pad)
    requires |t| > 0 && !IsSpaceOrControl(t[0])
    ensures TrimStart(pad + t) == t
  {
    if |pad| > 0 {
      assert (pad + t)[1..] == pad[1..] + t;
      TrimStartOfPadded(pad[1..], t);
    } else {
      assert pad + t == t;
    }
  }

  lemma {:induction false} TrimEndOfPadded(t: string, pad: string)
    requires IsBlank(pad)
    requires |t| > 0 && !IsSpaceOrControl(t[|t| - 1])
    ensures TrimEnd(t + pad) == t
  {
    if |pad| > 0 {
      assert (t + pad)[..|t + pad| - 1] == t + pad[..|pad| - 1];
      TrimEndOfPadded(t, pad[..|pad| - 1]);
    } else {
      assert t + pad == t;
    }
  }
}

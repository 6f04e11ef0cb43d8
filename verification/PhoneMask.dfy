/** Masking phone numbers in log text: every run of ten or more digits, with a plus sign before it if there is one. */
module PhoneMask {
  import opened Sequences

  /** How many digits the text starts with. */
  function DigitRun(s: string): (n: nat)
    ensures n <= |s| && forall i :: 0 <= i < n ==> IsDigit(s[i])
    ensures n < |s| ==> !IsDigit(s[n])
  {
    if s == "" || !IsDigit(s[0]) then 0 else 1 + DigitRun(s[1..])
  }

  function PlusLength(s: string): (n: nat)
    ensures n <= |s|
  {
    if s != "" && s[0] == '+' then 1 else 0
  }

  /** The length of the leftmost-greedy match of the pattern at the start of s, 0 if there is none. */
  function MatchLength(s: string): (n: nat)
    ensures n == 0 || 10 <= n <= |s|
  {
    var plus := PlusLength(s);
    var run := DigitRun(s[plus..]);
    if run >= 10 then plus + run else 0
  }

  function LastFive(digits: string): (r: string)
    ensures |digits| < 5 ==> r == digits
    ensures |digits| >= 5 ==> |r| == 5 && forall i :: 0 <= i < 5 ==> r[i] == digits[|digits| - 5 + i]
  {
    if |digits| <= 5 then digits else digits[|digits| - 5..]
  }

  /** The last five characters, a leading plus sign aside. */
  function Last5(s: string): string {
    LastFive(s[PlusLength(s)..])
  }

  const STARS := "****"

  function MaskPhones(s: string): string {
    if s == "" then ""
    else
      var n := MatchLength(s);
      if n > 0 then STARS + Last5(s[..n]) + MaskPhones(s[n..])
      else [s[0]] + MaskPhones(s[1..])
  }

  /** No ten digits in a row anywhere. */
  ghost predicate NoLongRun(s: string) {
    forall i :: 0 <= i <= |s| ==> DigitRun(s[i..]) < 10
  }

  // ------------------------------------------------------------- nothing slips by

  lemma NoLongRunCons(c: char, s: string)
    requires NoLongRun(s) && DigitRun([c] + s) < 10
    ensures NoLongRun([c] + s)
  {
    var t := [c] + s;
    forall i | 0 <= i <= |t|
      ensures DigitRun(t[i..]) < 10
    {
      if i > 0 {
        assert t[i..] == s[i - 1..];
      } else {
        assert t[0..] == t;
      }
    }
  }

  lemma DigitRunCons(c: char, s: string)
    ensures DigitRun([c] + s) == if IsDigit(c) then 1 + DigitRun(s) else 0
  {
    assert ([c] + s)[1..] == s;
  }

  lemma {:induction false} NoLongRunBefore(digits: string, s: string)
    requires NoLongRun(s) && DigitRun(s) == 0 && |digits| < 10
    ensures NoLongRun(digits + s) && DigitRun(digits + s) <= |digits|
  {
    hide NoLongRun, DigitRun;
    if digits == "" {
      assert digits + s == s;
    } else {
      NoLongRunBefore(digits[1..], s);
      assert digits + s == [digits[0]] + (digits[1..] + s);
      DigitRunCons(digits[0], digits[1..] + s);
      NoLongRunCons(digits[0], digits[1..] + s);
    }
  }

  /** A masked number shows stars where its digits began, so digits left of it join nothing. */
  lemma {:induction false} MaskedRun(s: string)
    ensures DigitRun(MaskPhones(s)) == if MatchLength(s) > 0 then 0 else DigitRun(s)
    decreases |s|
  {
    if s != "" && MatchLength(s) == 0 && IsDigit(s[0]) {
      assert s[0..] == s;
      MatchOneLater(s);
      MaskedRun(s[1..]);
    }
  }

  /** A short run of digits holds no match at its next position either. */
  lemma MatchOneLater(s: string)
    requires s != "" && MatchLength(s) == 0 && IsDigit(s[0])
    ensures MatchLength(s[1..]) > 0 ==> s[1..][0] == '+'
    ensures MatchLength(s[1..]) > 0 ==> DigitRun(s) == 1
  {
    assert s[0..] == s;
    if PlusLength(s[1..]) == 0 {
      assert s[1..][0..] == s[1..];
    }
  }

  /** Masking leaves no run of ten or more digits, in any text. */
  lemma {:induction false} MaskLeavesNoLongRun(s: string)
    ensures NoLongRun(MaskPhones(s))
    decreases |s|
  {
    if s != "" {
      var n := MatchLength(s);
      if n > 0 {
        var tail := MaskPhones(s[n..]);
        MaskLeavesNoLongRun(s[n..]);
        RestOfMatch(s);
        MaskedRun(s[n..]);
        var kept := Last5(s[..n]);
        NoLongRunBefore(kept, tail);
        StarsBefore(kept + tail);
        assert STARS + kept + tail == STARS + (kept + tail);
      } else {
        MaskLeavesNoLongRun(s[1..]);
        MaskedRun(s);
        assert s[0..] == s;
        NoLongRunCons(s[0], MaskPhones(s[1..]));
      }
    }
  }

  lemma StarsBefore(s: string)
    requires NoLongRun(s)
    ensures NoLongRun(STARS + s)
  {
    NoLongRunCons('*', s);
    NoLongRunCons('*', ['*'] + s);
    NoLongRunCons('*', ['*'] + (['*'] + s));
    NoLongRunCons('*', ['*'] + (['*'] + (['*'] + s)));
    assert STARS + s == ['*'] + (['*'] + (['*'] + (['*'] + s)));
  }

  /** A match takes the whole run: what follows starts with no digit, and the kept part is five digits. */
  lemma RestOfMatch(s: string)
    requires MatchLength(s) > 0
    ensures DigitRun(s[MatchLength(s)..]) == 0
    ensures |Last5(s[..MatchLength(s)])| == 5
  {
    var plus := PlusLength(s);
    var t := s[plus..];
    var run := DigitRun(t);
    assert s[plus + run..] == t[run..];
    assert s[..plus + run][plus..] == t[..run];
  }

  // -------------------------------------------------------------------- idempotence

  lemma TailHasNoLongRun(s: string)
    requires s != "" && NoLongRun(s)
    ensures NoLongRun(s[1..])
  {
    hide DigitRun;
    forall i | 0 <= i <= |s[1..]|
      ensures DigitRun(s[1..][i..]) < 10
    {
      assert s[1..][i..] == s[i + 1..];
    }
  }

  lemma NoLongRunNoMatch(s: string)
    requires s != "" && NoLongRun(s)
    ensures MatchLength(s) == 0
  {
    hide DigitRun;
    assert DigitRun(s[0..]) < 10 && DigitRun(s[1..]) < 10;
  }

  lemma MaskNothing()
    ensures MaskPhones("") == ""
  {
  }

  lemma MaskPlain(s: string)
    requires s != "" && MatchLength(s) == 0
    ensures MaskPhones(s) == [s[0]] + MaskPhones(s[1..])
  {
    hide MatchLength;
  }

  lemma {:induction false} MaskFixesShortRuns(s: string)
    requires NoLongRun(s)
    ensures MaskPhones(s) == s
    decreases |s|
  {
    hide *;
    if s == "" {
      MaskNothing();
    } else {
      NoLongRunNoMatch(s);
      TailHasNoLongRun(s);
      MaskFixesShortRuns(s[1..]);
      MaskPlain(s);
      assert s == [s[0]] + s[1..];
    }
  }

  /** Text is left alone exactly when it has no long run, and masking twice is masking once. */
  lemma MaskIdempotent(s: string)
    ensures MaskPhones(s) == s <==> NoLongRun(s)
    ensures MaskPhones(MaskPhones(s)) == MaskPhones(s)
  {
    MaskLeavesNoLongRun(s);
    MaskFixesShortRuns(MaskPhones(s));
    if NoLongRun(s) {
      MaskFixesShortRuns(s);
    }
  }

  // ------------------------------------------------------- what changes and what not

  datatype Part = Plain(c: char) | Phone(plus: bool, digits: string)

  function Source(parts: seq<Part>): string {
    if parts == [] then ""
    else match parts[0]
      case Plain(c) => [c] + Source(parts[1..])
      case Phone(plus, digits) => (if plus then "+" else "") + digits + Source(parts[1..])
  }

  function Masked(parts: seq<Part>): string {
    if parts == [] then ""
    else match parts[0]
      case Plain(c) => [c] + Masked(parts[1..])
      case Phone(_, digits) => "****" + LastFive(digits) + Masked(parts[1..])
  }

  /** Numbers are whole: ten or more digits, no digit next to them, and the plus sign taken if there is one. */
  predicate WholeNumbers(parts: seq<Part>) {
    forall k :: 0 <= k < |parts| && parts[k].Phone? ==>
      && |parts[k].digits| >= 10 && (forall i :: 0 <= i < |parts[k].digits| ==> IsDigit(parts[k].digits[i]))
      && (k > 0 && parts[k - 1].Plain? && !parts[k].plus ==> !IsDigit(parts[k - 1].c) && parts[k - 1].c != '+')
      && (k + 1 < |parts| ==>
            && !(parts[k + 1].Plain? && IsDigit(parts[k + 1].c))
            && !(parts[k + 1].Phone? && !parts[k + 1].plus))
  }

  /** parts begins the way s does. */
  ghost predicate BeginsAs(parts: seq<Part>, s: string) {
    if s == "" then parts == []
    else if MatchLength(s) > 0 then parts != [] && parts[0].Phone? && (parts[0].plus <==> s[0] == '+')
    else parts != [] && parts[0] == Plain(s[0])
  }

  /**
    Any text splits into whole numbers and other characters so that masking
    replaces each number, plus sign included, by stars and its last five digits
    and copies every other character.
   */
  lemma {:induction false} MaskByParts(s: string) returns (parts: seq<Part>)
    ensures WholeNumbers(parts) && BeginsAs(parts, s)
    ensures Source(parts) == s && Masked(parts) == MaskPhones(s)
    decreases |s|
  {
    hide *;
    if s == "" {
      parts := [];
      EmptyParts();
    } else if MatchLength(s) > 0 {
      var rest := MaskByParts(s[MatchLength(s)..]);
      parts := NumberPart(s, rest);
    } else {
      var rest := MaskByParts(s[1..]);
      parts := PlainPart(s, rest);
    }
  }

  lemma EmptyParts()
    ensures WholeNumbers([]) && BeginsAs([], "") && Source([]) == "" && Masked([]) == MaskPhones("") == ""
  {
  }

  lemma PlainPart(s: string, rest: seq<Part>) returns (parts: seq<Part>)
    requires s != "" && MatchLength(s) == 0 && WholeNumbers(rest) && BeginsAs(rest, s[1..])
    requires Source(rest) == s[1..] && Masked(rest) == MaskPhones(s[1..])
    ensures WholeNumbers(parts) && BeginsAs(parts, s)
    ensures Source(parts) == s && Masked(parts) == MaskPhones(s)
  {
    hide *;
    parts := [Plain(s[0])] + rest;
    assert parts[1..] == rest && s == [s[0]] + s[1..];
    MaskPlain(s);
    PlainUnfolds(s, parts);
    PartsAfterPlain(parts, s);
  }

  lemma PlainUnfolds(s: string, parts: seq<Part>)
    requires s != "" && MatchLength(s) == 0 && parts != [] && parts[0] == Plain(s[0])
    ensures BeginsAs(parts, s)
    ensures Source(parts) == [s[0]] + Source(parts[1..]) && Masked(parts) == [s[0]] + Masked(parts[1..])
  {
    hide MatchLength;
  }

  lemma NumberPart(s: string, rest: seq<Part>) returns (parts: seq<Part>)
    requires MatchLength(s) > 0 && WholeNumbers(rest) && BeginsAs(rest, s[MatchLength(s)..])
    requires Source(rest) == s[MatchLength(s)..] && Masked(rest) == MaskPhones(s[MatchLength(s)..])
    ensures WholeNumbers(parts) && BeginsAs(parts, s)
    ensures Source(parts) == s && Masked(parts) == MaskPhones(s)
  {
    var plus, n := PlusLength(s), MatchLength(s);
    var digits := s[plus..n];
    parts := [Phone(plus == 1, digits)] + rest;
    assert parts[1..] == rest;
    RestOfMatch(s);
    MatchDigits(s);
    PartsAfterNumber(parts, s[n..]);
    hide WholeNumbers, DigitRun, Last5, LastFive;
    assert Source(parts) == (if plus == 1 then "+" else "") + digits + Source(rest);
    assert Masked(parts) == STARS + LastFive(digits) + Masked(rest);
  }

  lemma PartsAfterPlain(parts: seq<Part>, s: string)
    requires s != "" && MatchLength(s) == 0 && parts != [] && parts[0] == Plain(s[0]) && WholeNumbers(parts[1..])
    requires BeginsAs(parts[1..], s[1..])
    ensures WholeNumbers(parts)
  {
    if MatchLength(s[1..]) > 0 {
      NumberAfterPlain(s);
    }
    hide MatchLength;
    forall k | 1 <= k < |parts|
      ensures parts[k] == parts[1..][k - 1]
    {
    }
  }

  lemma MatchDigits(s: string)
    requires MatchLength(s) > 0
    ensures var plus, n := PlusLength(s), MatchLength(s);
            && |s[plus..n]| >= 10 && (forall i :: 0 <= i < |s[plus..n]| ==> IsDigit(s[plus..n][i]))
            && Last5(s[..n]) == LastFive(s[plus..n])
            && s == (if plus == 1 then "+" else "") + s[plus..n] + s[n..]
  {
    var plus, n := PlusLength(s), MatchLength(s);
    assert s[plus..][..n - plus] == s[plus..n];
    assert s[..n][plus..] == s[plus..n];
    assert PlusLength(s[..n]) == plus;
  }

  lemma PartsAfterNumber(parts: seq<Part>, after: string)
    requires parts != [] && parts[0].Phone? && |parts[0].digits| >= 10
    requires forall i :: 0 <= i < |parts[0].digits| ==> IsDigit(parts[0].digits[i])
    requires WholeNumbers(parts[1..]) && DigitRun(after) == 0
    requires BeginsAs(parts[1..], after)
    ensures WholeNumbers(parts)
  {
    NoMatchAtDigitless(after);
    hide MatchLength, DigitRun;
    forall k | 1 <= k < |parts|
      ensures parts[k] == parts[1..][k - 1]
    {
    }
  }

  lemma NoMatchAtDigitless(s: string)
    requires DigitRun(s) == 0
    ensures MatchLength(s) > 0 ==> s != "" && s[0] == '+'
    ensures s != "" ==> !IsDigit(s[0])
  {
    assert s[0..] == s;
  }

  /** A character left plain just before a number is neither a digit nor a plus sign the number would take. */
  lemma NumberAfterPlain(s: string)
    requires s != "" && MatchLength(s) == 0 && MatchLength(s[1..]) > 0
    ensures s[1] != '+' ==> !IsDigit(s[0]) && s[0] != '+'
  {
    assert s[0..] == s && s[1..][0..] == s[1..];
  }
}

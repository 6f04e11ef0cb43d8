/** Contact cards: what is written can be read back, for every name and phone. */
module VCard {
  import opened Sequences

  const CRLF := "\r\n"
  const BEGIN := "BEGIN:VCARD"
  const VERSION := "VERSION:3.0"
  const FN := "FN:"
  const N := "N:"
  const NO_OTHER_NAMES := ";;;;"
  const TEL := "TEL;TYPE=CELL;waid="
  const END := "END:VCARD"

  function DigitsOnly(s: string): (d: string)
    ensures forall i :: 0 <= i < |d| ==> IsDigit(d[i])
  {
    if s == "" then "" else (if IsDigit(s[0]) then [s[0]] else "") + DigitsOnly(s[1..])
  }

  function EscapeChar(c: char): string {
    if c == '\\' then "\\\\"
    else if c == '\n' then "\\n"
    else if c == '\r' then ""
    else if c == ',' then "\\,"
    else if c == ';' then "\\;"
    else [c]
  }

  function Escape(s: string): string {
    if s == "" then "" else EscapeChar(s[0]) + Escape(s[1..])
  }

  function DisplayName(name: string, phone: string): string {
    if name != "" then name
    else if DigitsOnly(phone) != "" then "+" + DigitsOnly(phone)
    else ""
  }

  function Line(text: string): string {
    text + CRLF
  }

  function BuildVCard(name: string, phone: string): string {
    var digits := DigitsOnly(phone);
    var escaped := Escape(DisplayName(name, phone));
    Line(BEGIN) + (Line(VERSION) + (Line(FN + escaped) + (Line(N + escaped + NO_OTHER_NAMES)
      + ((if digits != "" then Line(TEL + digits + ":+" + digits) else "") + Line(END)))))
  }

  // ------------------------------------------------------------------ reading back

  /** Text-value unescaping, section 3.4 of RFC 6350. */
  function Unescape(s: string): string {
    if |s| >= 2 && s[0] == '\\' && s[1] in {'n', 'N'} then "\n" + Unescape(s[2..])
    else if |s| >= 2 && s[0] == '\\' && s[1] in {'\\', ',', ';'} then [s[1]] + Unescape(s[2..])
    else if s == "" then "" else [s[0]] + Unescape(s[1..])
  }

  function WithoutCR(s: string): string {
    if s == "" then "" else (if s[0] == '\r' then "" else [s[0]]) + WithoutCR(s[1..])
  }

  /** The text before the first line end. */
  function FirstLine(s: string): (r: string)
    ensures |r| <= |s|
  {
    if s == "" || "\r\n" <= s then "" else [s[0]] + FirstLine(s[1..])
  }

  /** Lines that end in CRLF. */
  function Lines(s: string): seq<string>
    decreases |s|
  {
    var line := FirstLine(s);
    if |s| < |line| + 2 then [] else [line] + Lines(s[|line| + 2..])
  }

  /** The text before the first separator that is not escaped. */
  function FirstPart(s: string, separator: char): string {
    if s == "" || s[0] == separator then ""
    else if s[0] == '\\' && |s| >= 2 then s[..2] + FirstPart(s[2..], separator)
    else [s[0]] + FirstPart(s[1..], separator)
  }

  function UpToColon(s: string): string {
    if s == "" || s[0] == ':' then "" else [s[0]] + UpToColon(s[1..])
  }

  // -------------------------------------------------------------------- round trip

  /** Escaping is undone exactly, up to the carriage returns it drops. */
  lemma {:induction false} UnescapeInverts(s: string)
    ensures Unescape(Escape(s)) == WithoutCR(s)
  {
    if s != "" {
      UnescapeInverts(s[1..]);
      UnescapeOne(s[0], Escape(s[1..]));
    }
  }

  lemma UnescapeOne(c: char, rest: string)
    ensures Unescape(EscapeChar(c) + rest) == (if c == '\r' then "" else [c]) + Unescape(rest)
  {
    var e := EscapeChar(c);
    if c == '\r' {
      assert e + rest == rest;
    } else if |e| == 2 {
      assert (e + rest)[2..] == rest && (e + rest)[0] == '\\' && (e + rest)[1] == e[1];
    } else {
      assert (e + rest)[1..] == rest && (e + rest)[0] == c;
    }
  }

  /** Nothing is lost exactly when the text has no carriage return. */
  lemma {:induction false} ExactIffNoCR(s: string)
    ensures |WithoutCR(s)| <= |s|
    ensures WithoutCR(s) == s <==> '\r' !in s
  {
    if s != "" {
      ExactIffNoCR(s[1..]);
      assert s == [s[0]] + s[1..];
      if s[0] != '\r' && WithoutCR(s) == s {
        assert WithoutCR(s)[1..] == WithoutCR(s[1..]);
      }
    }
  }

  /** Two names that give the same escaped text differ at most in carriage returns. */
  lemma EscapeInjective(a: string, b: string)
    requires Escape(a) == Escape(b)
    ensures WithoutCR(a) == WithoutCR(b)
  {
    UnescapeInverts(a);
    UnescapeInverts(b);
  }

  ghost predicate OneLine(s: string) {
    '\r' !in s && '\n' !in s
  }

  lemma {:induction false} EscapedIsOneLine(s: string)
    ensures OneLine(Escape(s))
  {
    if s != "" {
      EscapedIsOneLine(s[1..]);
      assert OneLine(EscapeChar(s[0]));
      hide EscapeChar;
      OneLineConcat(EscapeChar(s[0]), Escape(s[1..]));
    }
  }

  lemma OneLineConcat(a: string, b: string)
    requires OneLine(a) && OneLine(b)
    ensures OneLine(a + b)
  {
  }

  lemma {:induction false} FirstLineOf(text: string, rest: string)
    requires OneLine(text)
    ensures FirstLine(Line(text) + rest) == text
  {
    var s := Line(text) + rest;
    if text == "" {
      assert s[..2] == CRLF;
    } else {
      assert s[0] == text[0] && text[0] in text;
      assert s[1..] == Line(text[1..]) + rest;
      FirstLineOf(text[1..], rest);
    }
  }

  lemma LinesOf(text: string, rest: string)
    requires OneLine(text)
    ensures Lines(Line(text) + rest) == [text] + Lines(rest)
  {
    FirstLineOf(text, rest);
    assert (Line(text) + rest)[|text| + 2..] == rest;
  }

  lemma PartOne(c: char, tail: string, separator: char)
    requires separator in {',', ';'}
    ensures FirstPart(EscapeChar(c) + tail, separator) == EscapeChar(c) + FirstPart(tail, separator)
  {
    var e := EscapeChar(c);
    if |e| == 2 {
      assert (e + tail)[..2] == e && (e + tail)[2..] == tail && (e + tail)[0] == '\\';
    } else if |e| == 1 {
      assert (e + tail)[1..] == tail && (e + tail)[0] == c;
    } else {
      assert e + tail == tail;
    }
  }

  /** Escaped text never ends early where text is split at commas or semicolons. */
  lemma {:induction false} EscapedIsOnePart(s: string, separator: char, rest: string)
    requires separator in {',', ';'}
    ensures FirstPart(Escape(s) + [separator] + rest, separator) == Escape(s)
  {
    if s == "" {
      assert Escape(s) + [separator] + rest == [separator] + rest;
    } else {
      hide EscapeChar, FirstPart;
      EscapedIsOnePart(s[1..], separator, rest);
      PartOne(s[0], Escape(s[1..]) + [separator] + rest, separator);
      assert Escape(s) + [separator] + rest == EscapeChar(s[0]) + (Escape(s[1..]) + [separator] + rest);
    }
  }

  lemma {:induction false} DigitsConcat(a: string, b: string)
    ensures DigitsOnly(a + b) == DigitsOnly(a) + DigitsOnly(b)
  {
    if a == "" {
      assert a + b == b;
    } else {
      DigitsConcat(a[1..], b);
      assert (a + b)[1..] == a[1..] + b;
    }
  }

  /** Digits are kept, all of them and in order, and nothing else is. */
  lemma DigitsAreKept(before: string, c: char, after: string)
    ensures DigitsOnly(before + [c] + after)
         == DigitsOnly(before) + (if '0' <= c <= '9' then [c] else "") + DigitsOnly(after)
  {
    DigitsConcat(before + [c], after);
    DigitsConcat(before, [c]);
    OneDigit(c);
    hide DigitsOnly;
  }

  lemma OneDigit(c: char)
    ensures DigitsOnly([c]) == if '0' <= c <= '9' then [c] else ""
  {
    assert [c][1..] == "" && DigitsOnly("") == "";
  }

  lemma {:induction false} ColonAfterDigits(d: string, rest: string)
    requires forall i :: 0 <= i < |d| ==> IsDigit(d[i])
    ensures UpToColon(d + ":" + rest) == d
  {
    if d == "" {
      assert d + ":" + rest == ":" + rest;
    } else {
      assert (d + ":" + rest)[1..] == d[1..] + ":" + rest;
      ColonAfterDigits(d[1..], rest);
    }
  }

  function Joined(lines: seq<string>): string {
    if lines == [] then "" else Line(lines[0]) + Joined(lines[1..])
  }

  lemma {:induction false} LinesOfJoined(lines: seq<string>)
    requires forall k :: 0 <= k < |lines| ==> OneLine(lines[k])
    ensures Lines(Joined(lines)) == lines
  {
    if lines != [] {
      LinesOfJoined(lines[1..]);
      LinesOf(lines[0], Joined(lines[1..]));
    }
  }

  lemma JoinedCons(line: string, rest: seq<string>)
    ensures Joined([line] + rest) == Line(line) + Joined(rest)
  {
    assert ([line] + rest)[1..] == rest;
  }

  /** The card as a reader sees it. */
  function Expected(escaped: string, digits: string): seq<string> {
    ["BEGIN:VCARD"] + (["VERSION:3.0"] + (["FN:" + escaped] + (["N:" + escaped + ";;;;"]
      + (TelLine(digits) + ["END:VCARD"]))))
  }

  function TelLine(digits: string): seq<string> {
    if digits == "" then [] else ["TEL;TYPE=CELL;waid=" + digits + ":+" + digits]
  }

  lemma CardIsJoined(name: string, phone: string)
    ensures BuildVCard(name, phone) == Joined(Expected(Escape(DisplayName(name, phone)), DigitsOnly(phone)))
  {
    var escaped, digits := Escape(DisplayName(name, phone)), DigitsOnly(phone);
    assert Joined([]) == "";
    hide Joined, Escape, DigitsOnly, DisplayName, Line;
    JoinedCons(END, []);
    assert [END] + [] == [END] && Line(END) + "" == Line(END);
    var tail := TelLine(digits) + [END];
    if digits == "" {
      assert tail == [END];
    } else {
      JoinedCons(TEL + digits + ":+" + digits, [END]);
    }
    JoinedCons(N + escaped + NO_OTHER_NAMES, tail);
    JoinedCons(FN + escaped, [N + escaped + NO_OTHER_NAMES] + tail);
    JoinedCons(VERSION, [FN + escaped] + ([N + escaped + NO_OTHER_NAMES] + tail));
    JoinedCons(BEGIN, [VERSION] + ([FN + escaped] + ([N + escaped + NO_OTHER_NAMES] + tail)));
  }

  lemma FixedLinesOneLine()
    ensures OneLine(BEGIN) && OneLine(VERSION) && OneLine(END)
  {
  }

  lemma FixedPartsOneLine()
    ensures OneLine(FN) && OneLine(N) && OneLine(NO_OTHER_NAMES) && OneLine(TEL) && OneLine(":+")
  {
  }

  lemma ExpectedOneLine(escaped: string, digits: string, k: nat)
    requires OneLine(escaped) && forall i :: 0 <= i < |digits| ==> IsDigit(digits[i])
    requires k < |Expected(escaped, digits)|
    ensures OneLine(Expected(escaped, digits)[k])
  {
    assert OneLine(digits);
    FixedLinesOneLine();
    FixedPartsOneLine();
    hide OneLine;
    OneLineConcat(FN, escaped);
    OneLineConcat(N, escaped);
    OneLineConcat(N + escaped, NO_OTHER_NAMES);
    OneLineConcat(TEL, digits);
    OneLineConcat(TEL + digits, ":+");
    OneLineConcat(TEL + digits + ":+", digits);
  }

  /** The card is exactly these lines, and no text in a name can add one. */
  lemma CardLines(name: string, phone: string)
    ensures Lines(BuildVCard(name, phone)) == Expected(Escape(DisplayName(name, phone)), DigitsOnly(phone))
  {
    var escaped, digits := Escape(DisplayName(name, phone)), DigitsOnly(phone);
    CardIsJoined(name, phone);
    EscapedIsOneLine(DisplayName(name, phone));
    hide BuildVCard, Joined, Lines, OneLine, Expected;
    forall k | 0 <= k < |Expected(escaped, digits)|
      ensures OneLine(Expected(escaped, digits)[k])
    {
      ExpectedOneLine(escaped, digits, k);
    }
    LinesOfJoined(Expected(escaped, digits));
  }

  lemma ExpectedShape(escaped: string, digits: string)
    ensures var lines := Expected(escaped, digits);
            && |lines| == (if digits == "" then 5 else 6)
            && FN <= lines[2] && lines[2][|FN|..] == escaped
            && N <= lines[3] && lines[3][|N|..] == escaped + [';'] + ";;;"
            && (digits != "" ==> TEL <= lines[4] && lines[4][|TEL|..] == digits + ":" + ("+" + digits))
  {
    assert (FN + escaped)[|FN|..] == escaped;
    assert (N + escaped + NO_OTHER_NAMES)[|N|..] == escaped + [';'] + ";;;";
    assert (TEL + digits + ":+" + digits)[|TEL|..] == digits + ":" + ("+" + digits);
  }

  /** The name a reader sees: the one given, less carriage returns, else the number, else nothing. */
  lemma ShownName(name: string, phone: string)
    ensures WithoutCR(DisplayName(name, phone))
         == if name != "" then WithoutCR(name)
            else if DigitsOnly(phone) != "" then "+" + DigitsOnly(phone)
            else ""
  {
    if name == "" {
      ExactIffNoCR("+" + DigitsOnly(phone));
    }
  }

  /**
    From the card alone a reader gets back the name to show, the given one or
    else the number, from either line that carries it, and the digits, in 5 lines
    without a number and 6 with one.
   */
  lemma CardRoundTrip(name: string, phone: string)
    ensures var lines, digits := Lines(BuildVCard(name, phone)), DigitsOnly(phone);
            var shown := if name != "" then WithoutCR(name) else if digits != "" then "+" + digits else "";
            && |lines| == (if digits == "" then 5 else 6)
            && "FN:" <= lines[2] && Unescape(lines[2][3..]) == shown
            && "N:" <= lines[3] && Unescape(FirstPart(lines[3][2..], ';')) == shown
            && (digits != "" ==> "TEL;TYPE=CELL;waid=" <= lines[4] && UpToColon(lines[4][19..]) == digits)
  {
    var digits, display := DigitsOnly(phone), DisplayName(name, phone);
    assert FN == "FN:" && N == "N:" && TEL == "TEL;TYPE=CELL;waid=" && |FN| == 3 && |N| == 2 && |TEL| == 19;
    hide Lines, BuildVCard, Escape, Unescape, FirstPart, UpToColon, Expected, DisplayName, DigitsOnly, WithoutCR;
    CardLines(name, phone);
    ShownName(name, phone);
    ExpectedShape(Escape(display), digits);
    UnescapeInverts(display);
    EscapedIsOnePart(display, ';', ";;;");
    ColonAfterDigits(digits, "+" + digits);
  }
}

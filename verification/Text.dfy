/** Strings as the configuration and the menu handle them: white space, lines, and
    decimal numbers. */
module Text {
  import opened Bytes

  /* ---- white space ---- */

  /** Unicode White_Space, which is what `trim` and `char::is_whitespace` go by. */
  predicate IsSpace(c: char)
  {
    var u := c as int;
    || 0x09 <= u <= 0x0D || u == 0x20 || u == 0x85 || u == 0xA0 || u == 0x1680
    || 0x2000 <= u <= 0x200A || u == 0x2028 || u == 0x2029 || u == 0x202F || u == 0x205F || u == 0x3000
  }

  function TrimStart(s: string): (r: string)
    ensures r != [] ==> !IsSpace(r[0])
    ensures |r| <= |s|
  {
    if s != [] && IsSpace(s[0]) then TrimStart(s[1..]) else s
  }

  function TrimEnd(s: string): (r: string)
    ensures r <= s
    ensures r != [] ==> !IsSpace(r[|r| - 1])
  {
    if s != [] && IsSpace(s[|s| - 1]) then TrimEnd(s[..|s| - 1]) else s
  }

  function Trim(s: string): string { TrimEnd(TrimStart(s)) }

  predicate Trimmed(s: string)
  {
    s != [] ==> !IsSpace(s[0]) && !IsSpace(s[|s| - 1])
  }

  lemma TrimmedIsTrim(s: string)
    requires Trimmed(s)
    ensures Trim(s) == s
  {
  }

  lemma {:induction false} TrimStartSpaces(pad: string, s: string)
    requires forall i :: 0 <= i < |pad| ==> IsSpace(pad[i])
    ensures TrimStart(pad + s) == TrimStart(s)
  {
    if pad == [] {
      assert pad + s == s;
    } else {
      assert (pad + s)[1..] == pad[1..] + s;
      TrimStartSpaces(pad[1..], s);
    }
  }

  const WHITE_SPACE: string :=
    "\t\n\U{0B}\U{0C}\r \U{85}\U{A0}\U{1680}\U{2000}\U{2001}\U{2002}\U{2003}\U{2004}\U{2005}\U{2006}\U{2007}"
    + "\U{2008}\U{2009}\U{200A}\U{2028}\U{2029}\U{202F}\U{205F}\U{3000}"

  /** Nothing but characters with that property, of which there are twenty-five. */
  predicate White(s: string) { forall i :: 0 <= i < |s| ==> s[i] in WHITE_SPACE }

  lemma WhiteIsSpace(c: char)
    ensures IsSpace(c) <==> c in WHITE_SPACE
  {
    var w := WHITE_SPACE;
    assert w[0] == '\t' && w[1] == '\n' && w[2] as int == 0x0B && w[3] as int == 0x0C && w[4] == '\r' && w[5] == ' ';
    assert w[6] as int == 0x85 && w[7] as int == 0xA0 && w[8] as int == 0x1680;
    assert w[9] as int == 0x2000 && w[10] as int == 0x2001 && w[11] as int == 0x2002 && w[12] as int == 0x2003;
    assert w[13] as int == 0x2004 && w[14] as int == 0x2005 && w[15] as int == 0x2006 && w[16] as int == 0x2007;
    assert w[17] as int == 0x2008 && w[18] as int == 0x2009 && w[19] as int == 0x200A && w[20] as int == 0x2028;
    assert w[21] as int == 0x2029 && w[22] as int == 0x202F && w[23] as int == 0x205F && w[24] as int == 0x3000;
  }

  lemma {:induction false} TrimEndSpaces(s: string, pad: string)
    requires forall i :: 0 <= i < |pad| ==> IsSpace(pad[i])
    ensures TrimEnd(s + pad) == TrimEnd(s)
    decreases |pad|
  {
    if pad == [] {
      assert s + pad == s;
    } else {
      assert (s + pad)[..|s + pad| - 1] == s + pad[..|pad| - 1];
      TrimEndSpaces(s, pad[..|pad| - 1]);
    }
  }

  lemma {:induction false} TrimStartKeeps(s: string, pad: string)
    ensures TrimStart(s) != [] ==> TrimStart(s + pad) == TrimStart(s) + pad
    ensures TrimStart(s) == [] ==> TrimStart(s + pad) == TrimStart(pad)
    decreases |s|
  {
    if s == [] {
      assert s + pad == pad;
    } else if IsSpace(s[0]) {
      assert (s + pad)[1..] == s[1..] + pad;
      TrimStartKeeps(s[1..], pad);
    }
  }

  /** White space around text makes no difference to what is left of it. */
  lemma TrimAround(before: string, s: string, after: string)
    requires White(before) && White(after)
    ensures Trim(before + s + after) == Trim(s)
  {
    AllSpace(before);
    AllSpace(after);
    assert before + s + after == before + (s + after);
    TrimStartSpaces(before, s + after);
    TrimStartKeeps(s, after);
    TrimEndSpaces(TrimStart(s), after);
    if TrimStart(s) == [] {
      assert after + [] == after;
      TrimStartSpaces(after, []);
      assert TrimStart(after) == [];
    }
  }

  lemma AllSpace(s: string)
    ensures White(s) <==> forall i :: 0 <= i < |s| ==> IsSpace(s[i])
  {
    forall i | 0 <= i < |s|
      ensures IsSpace(s[i]) <==> s[i] in WHITE_SPACE
    {
      WhiteIsSpace(s[i]);
    }
  }

  lemma {:induction false} TrimStartWithout(s: string, c: char)
    requires Without(s, c)
    ensures Without(TrimStart(s), c)
  {
    if s != [] && IsSpace(s[0]) {
      TrimStartWithout(s[1..], c);
    }
  }

  /** What is left after trimming is trimmed, and has no character the text had not. */
  lemma TrimLeaves(s: string)
    ensures Trimmed(Trim(s))
    ensures forall c :: Without(s, c) ==> Without(Trim(s), c)
  {
    forall c | Without(s, c)
      ensures Without(Trim(s), c)
    {
      TrimStartWithout(s, c);
    }
  }

  /** The index of the first white-space character, or the length if there is none. */
  function FirstSpace(s: string): (k: nat)
    ensures k <= |s|
    ensures forall i :: 0 <= i < k ==> !IsSpace(s[i])
    ensures k < |s| ==> IsSpace(s[k])
  {
    if s == [] || IsSpace(s[0]) then 0 else 1 + FirstSpace(s[1..])
  }

  /* ---- lines ---- */

  /** The index of the first `c`, or the length if there is none. */
  function IndexOf(s: string, c: char): (k: nat)
    ensures k <= |s|
    ensures forall i :: 0 <= i < k ==> s[i] != c
    ensures k < |s| ==> s[k] == c
  {
    if s == [] || s[0] == c then 0 else 1 + IndexOf(s[1..], c)
  }

  predicate Without(s: string, c: char) { forall i :: 0 <= i < |s| ==> s[i] != c }

  function StripCr(s: string): string
  {
    if s != [] && s[|s| - 1] == '\r' then s[..|s| - 1] else s
  }

  /** `lines`: a terminator is a line feed, or one with a carriage return before it,
      and the last line need not have one. */
  function Lines(text: string): seq<string>
    decreases |text|
  {
    if text == "" then []
    else
      var k := IndexOf(text, '\n');
      if k == |text| then [text] else [StripCr(text[..k])] + Lines(text[k + 1..])
  }

  function Join(lines: seq<string>): string
  {
    if lines == [] then "" else lines[0] + "\n" + Join(lines[1..])
  }

  lemma LinesCons(line: string, rest: string)
    requires Without(line, '\n') && StripCr(line) == line
    ensures Lines(line + "\n" + rest) == [line] + Lines(rest)
  {
    var text := line + "\n" + rest;
    assert forall i :: 0 <= i < |line| ==> text[i] == line[i];
    assert text[|line|] == '\n';
    var k := IndexOf(text, '\n');
    assert k == |line| && text[..k] == line && text[k + 1..] == rest;
  }

  /** No line has a line feed in it, and there are no more of them than characters. */
  lemma LinesClean(text: string)
    ensures |Lines(text)| <= |text| && forall i :: 0 <= i < |Lines(text)| ==> Without(Lines(text)[i], '\n')
    decreases |text|
  {
    if text != "" {
      var k := IndexOf(text, '\n');
      if k < |text| {
        LinesClean(text[k + 1..]);
      }
    }
  }

  /** A carriage return before the line feed belongs to the terminator; the last line may
      do without one. */
  lemma LinesMean(line: string, rest: string)
    requires Without(line, '\n')
    ensures Lines(line + "\r\n" + rest) == [line] + Lines(rest)
    ensures line != "" ==> Lines(line) == [line]
    ensures line == "" || line[|line| - 1] != '\r' ==> Lines(line + "\n" + rest) == [line] + Lines(rest)
    ensures Lines("") == []
  {
    var text, cr := line + "\r\n" + rest, line + "\r";
    assert forall i :: 0 <= i < |cr| ==> text[i] == cr[i];
    assert text[|cr|] == '\n';
    assert IndexOf(text, '\n') == |cr| && text[..|cr|] == cr && text[|cr| + 1..] == rest;
    assert StripCr(cr) == line;
    assert IndexOf(line, '\n') == |line|;
    if line == "" || line[|line| - 1] != '\r' {
      LinesCons(line, rest);
    }
  }

  /** Lines joined are lines again. */
  lemma {:induction false} LinesOfJoin(lines: seq<string>)
    requires forall i :: 0 <= i < |lines| ==> Without(lines[i], '\n') && StripCr(lines[i]) == lines[i]
    ensures Lines(Join(lines)) == lines
  {
    hide Lines;
    if lines == [] {
      NoLines();
    } else {
      LinesCons(lines[0], Join(lines[1..]));
      LinesOfJoin(lines[1..]);
      assert lines == [lines[0]] + lines[1..];
    }
  }

  lemma NoLines()
    ensures Lines("") == []
  {
  }

  /* ---- decimal numbers ---- */

  const DIGITS: string := "0123456789"

  function Digit(d: nat): (c: char)
    requires d < 10
    ensures '0' <= c <= '9' && c as int - '0' as int == d
  {
    DIGITS[d]
  }

  predicate IsDigit(c: char) { '0' <= c <= '9' }

  /** A number in decimal, with no leading zero. */
  function Decimal(n: nat): (s: string)
    ensures s != [] && forall i :: 0 <= i < |s| ==> IsDigit(s[i])
    ensures n > 0 ==> s[0] != '0'
  {
    if n < 10 then [Digit(n)] else Decimal(n / 10) + [Digit(n % 10)]
  }

  predicate AllDigits(s: string) { s != [] && forall i :: 0 <= i < |s| ==> IsDigit(s[i]) }

  function Value(s: string): nat
    requires forall i :: 0 <= i < |s| ==> IsDigit(s[i])
  {
    if s == [] then 0
    else
      assert IsDigit(s[|s| - 1]);
      10 * Value(s[..|s| - 1]) + (s[|s| - 1] as int - '0' as int)
  }

  lemma {:induction false} ValueOfDecimal(n: nat)
    ensures Value(Decimal(n)) == n
  {
    if n >= 10 {
      ValueOfDecimal(n / 10);
      assert Decimal(n)[..|Decimal(n)| - 1] == Decimal(n / 10);
    }
  }

  /** `parse::<u64>`: digits after an optional plus sign, and the number must fit. */
  function ParseU64(s: string): Option<u64>
  {
    var digits := if s != [] && s[0] == '+' then s[1..] else s;
    if AllDigits(digits) && Value(digits) < TWO_64 then Some(Value(digits)) else None
  }

  function Noughts(k: nat): (s: string)
    ensures |s| == k && forall i :: 0 <= i < k ==> s[i] == '0'
  {
    seq(k, _ => '0')
  }

  lemma {:induction false} ValueOfPadded(k: nat, s: string)
    requires forall i :: 0 <= i < |s| ==> IsDigit(s[i])
    ensures Value(Noughts(k) + s) == Value(s)
    decreases k + |s|
  {
    var t := Noughts(k) + s;
    if s != [] {
      assert t[..|t| - 1] == Noughts(k) + s[..|s| - 1];
      ValueOfPadded(k, s[..|s| - 1]);
    } else if k > 0 {
      assert t == Noughts(k) && t[..k - 1] == Noughts(k - 1) + s;
      ValueOfPadded(k - 1, s);
    } else {
      assert t == s;
    }
  }

  /** Which texts are numbers, and which number: a decimal that fits 64 bits, however many
      noughts and with or without a plus sign before it. */
  lemma NumberReads(plus: bool, k: nat, n: nat)
    ensures ParseU64((if plus then "+" else "") + Noughts(k) + Decimal(n))
            == if n < 0x1_0000_0000_0000_0000 then Some(n) else None
  {
    hide Value, Decimal, ParseU64;
    var digits := Noughts(k) + Decimal(n);
    ValueOfPadded(k, Decimal(n));
    ValueOfDecimal(n);
    DigitsParse(digits);
    assert "" + Noughts(k) + Decimal(n) == digits && "+" + Noughts(k) + Decimal(n) == "+" + digits;
  }

  lemma DigitsParse(digits: string)
    requires digits != [] && forall i :: 0 <= i < |digits| ==> IsDigit(digits[i])
    ensures ParseU64(digits) == ParseU64("+" + digits)
            == if Value(digits) < 0x1_0000_0000_0000_0000 then Some(Value(digits)) else None
  {
    hide Value;
    assert IsDigit(digits[0]);
    assert ("+" + digits)[1..] == digits;
  }

  lemma NoNumber(s: string)
    requires s == "" || s == "+" || (s[0] != '+' && !('0' <= s[0] <= '9'))
             || exists i :: 1 <= i < |s| && !('0' <= s[i] <= '9')
    ensures ParseU64(s) == None
  {
    if i :| 1 <= i < |s| && !('0' <= s[i] <= '9') {
      assert !IsDigit(s[i]) && s[1..][i - 1] == s[i];
    }
  }

  lemma DecimalParses(n: u64)
    ensures ParseU64(Decimal(n)) == Some(n)
  {
    ValueOfDecimal(n);
  }
}

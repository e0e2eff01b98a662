/** Decimal text of integers as JavaScript's Number.prototype.toString writes
    it, String.prototype.padStart, and the two-field "HH:MM" / "MM-DD" layout
    that formatTime and the date key of getApplicableSchedule build from
    them; each with the parser that reads it back. */
module Text {
  import opened Basics

  predicate IsDigit(c: char) { '0' <= c <= '9' }

  predicate AllDigits(s: string) { forall i :: 0 <= i < |s| ==> IsDigit(s[i]) }

  function DigitChar(d: nat): (c: char)
    requires d < 10
    ensures IsDigit(c) && c as int - '0' as int == d
  {
    ('0' as int + d) as char
  }

  /** The decimal digits of n, most significant first, without leading zeros. */
  function NatToString(n: nat): (s: string)
    ensures |s| >= 1 && AllDigits(s)
    ensures s[0] == '0' ==> n == 0
    ensures |s| == 1 <==> n < 10
    decreases n
  {
    if n < 10 then [DigitChar(n)] else NatToString(n / 10) + [DigitChar(n % 10)]
  }

  /** `${i}` for an integer-valued JavaScript number. */
  function IntToString(i: int): string
  {
    if i < 0 then "-" + NatToString(-i) else NatToString(i)
  }

  /** The value of a string of decimal digits. */
  function DigitsValue(s: string): nat
    requires AllDigits(s)
    decreases |s|
  {
    if s == [] then 0
    else DigitsValue(s[..|s| - 1]) * 10 + (s[|s| - 1] as int - '0' as int)
  }

  /** Reads back what IntToString writes: an optional minus sign and at least one digit. */
  function ParseInt(s: string): Option<int>
  {
    if |s| >= 2 && s[0] == '-' && AllDigits(s[1..]) then Some(0 - DigitsValue(s[1..]) as int)
    else if |s| >= 1 && AllDigits(s) then Some(DigitsValue(s))
    else None
  }

  lemma {:induction false} NatToStringRoundTrip(n: nat)
    ensures DigitsValue(NatToString(n)) == n
    decreases n
  {
    if n >= 10 {
      NatToStringRoundTrip(n / 10);
      var s := NatToString(n);
      assert s[..|s| - 1] == NatToString(n / 10);
    }
  }

  /** IntToString loses nothing: its text parses back to the same integer. */
  lemma IntToStringRoundTrip(i: int)
    ensures ParseInt(IntToString(i)) == Some(i)
  {
    var s := IntToString(i);
    if i < 0 {
      NatToStringRoundTrip(-i);
      assert s[1..] == NatToString(-i);
    } else {
      NatToStringRoundTrip(i);
    }
  }

  /** IntToString writes only digits and a minus sign. */
  lemma IntToStringChars(i: int, c: char)
    requires c in IntToString(i)
    ensures IsDigit(c) || c == '-'
  {
    var s := IntToString(i);
    var k :| 0 <= k < |s| && s[k] == c;
    if i < 0 && k > 0 {
      assert c == NatToString(-i)[k - 1];
    }
  }

  /** s.padStart(width, fill) for a one-character fill string. */
  function PadStart(s: string, width: nat, fill: char): (r: string)
    ensures |r| == if |s| < width then width else |s|
    ensures r[|r| - |s|..] == s
    ensures forall i :: 0 <= i < |r| - |s| ==> r[i] == fill
  {
    if |s| >= width then s else seq(width - |s|, _ => fill) + s
  }

  /** n.toString().padStart(2, '0'). */
  function Pad2(n: int): string
  {
    PadStart(IntToString(n), 2, '0')
  }

  lemma Pad2Digits(n: int)
    requires 0 <= n <= 99
    ensures |Pad2(n)| == 2 && AllDigits(Pad2(n)) && DigitsValue(Pad2(n)) == n
  {
    var s := IntToString(n);
    NatToStringRoundTrip(n);
    if n < 10 {
      assert Pad2(n) == ['0'] + s;
      assert Pad2(n)[..1] == "0";
    } else {
      assert |NatToString(n / 10)| == 1;
    }
  }

  /** Two padded numbers joined by a separator: formatTime writes
      `${HH}:${MM}` and getApplicableSchedule keys dates by `${MM}-${DD}`. */
  function PaddedPair(a: int, sep: char, b: int): string
  {
    Pad2(a) + [sep] + Pad2(b)
  }

  function ParsePaddedPair(s: string, sep: char): Option<(int, int)>
  {
    if |s| == 5 && s[2] == sep && AllDigits(s[..2]) && AllDigits(s[3..])
    then Some((DigitsValue(s[..2]), DigitsValue(s[3..])))
    else None
  }

  /** For fields 0..99 the pair is exactly five characters: two digits, the
      separator, two digits, and it reads back to the same two numbers. */
  lemma PaddedPairRoundTrip(a: int, sep: char, b: int)
    requires 0 <= a <= 99 && 0 <= b <= 99
    ensures var s := PaddedPair(a, sep, b);
      |s| == 5 && s[2] == sep && ParsePaddedPair(s, sep) == Some((a, b))
  {
    Pad2Digits(a);
    Pad2Digits(b);
    SplitPair(Pad2(a), sep, Pad2(b));
  }

  lemma SplitPair(p: string, sep: char, q: string)
    requires |p| == 2 && |q| == 2
    ensures var s := p + [sep] + q;
      |s| == 5 && s[2] == sep && s[..2] == p && s[3..] == q
  {
  }

  /** formatTime(hour, minute). */
  function FormatTime(hour: int, minute: int): string
  {
    PaddedPair(hour, ':', minute)
  }

  lemma FormatTimeShape(hour: int, minute: int)
    requires 0 <= hour <= 99 && 0 <= minute <= 99
    ensures var s := FormatTime(hour, minute);
      |s| == 5 && s[2] == ':' && AllDigits(s[..2]) && AllDigits(s[3..]) &&
      ParsePaddedPair(s, ':') == Some((hour, minute))
  {
    PaddedPairRoundTrip(hour, ':', minute);
  }

  /** Distinct times in range are never written the same. */
  lemma FormatTimeInjective(h1: int, m1: int, h2: int, m2: int)
    requires 0 <= h1 <= 99 && 0 <= m1 <= 99 && 0 <= h2 <= 99 && 0 <= m2 <= 99
    requires FormatTime(h1, m1) == FormatTime(h2, m2)
    ensures h1 == h2 && m1 == m2
  {
    FormatTimeShape(h1, m1);
    FormatTimeShape(h2, m2);
  }
}

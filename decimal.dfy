/** Decimal rendering of integers, as Python's `str(int)` writes them inside an f-string,
    with the parser that inverts it. */
module Decimal {
  import opened Wrappers

  function DigitChar(d: nat): (c: char)
    requires d < 10
    ensures '0' <= c <= '9'
  {
    (d + '0' as int) as char
  }

  function DigitValue(c: char): (r: Option<nat>)
    ensures r.Some? <==> '0' <= c <= '9'
    ensures r.Some? ==> r.value < 10 && DigitChar(r.value) == c
  {
    if '0' <= c <= '9' then Some(c as int - '0' as int) else None
  }

  /** The digits of `n`, most significant first, without leading zeros. */
  function Digits(n: nat): (s: string)
    decreases n
    ensures |s| > 0
    ensures forall i :: 0 <= i < |s| ==> '0' <= s[i] <= '9'
  {
    if n < 10 then [DigitChar(n)] else Digits(n / 10) + [DigitChar(n % 10)]
  }

  /** `str(n)`: a minus sign before the digits of a negative number. */
  function Show(n: int): string {
    if n < 0 then "-" + Digits(-n) else Digits(n)
  }

  function ParseDigits(s: string): Option<nat>
    decreases |s|
  {
    if |s| == 0 then None
    else match DigitValue(s[|s| - 1])
      case None => None
      case Some(d) =>
        if |s| == 1 then Some(d)
        else match ParseDigits(s[..|s| - 1])
          case None => None
          case Some(p) => Some(10 * p + d)
  }

  function ParseInt(s: string): Option<int> {
    if |s| > 0 && s[0] == '-' then
      match ParseDigits(s[1..])
      case None => None
      case Some(n) => Some(-(n as int))
    else match ParseDigits(s)
      case None => None
      case Some(n) => Some(n)
  }

  lemma {:induction false} DigitsRoundTrip(n: nat)
    ensures ParseDigits(Digits(n)) == Some(n)
    decreases n
  {
    var s := Digits(n);
    if n >= 10 {
      DigitsRoundTrip(n / 10);
      assert s[..|s| - 1] == Digits(n / 10);
      assert s[|s| - 1] == DigitChar(n % 10);
    }
  }

  /** Reading back what `Show` writes gives the number again. */
  lemma ShowRoundTrip(n: int)
    ensures ParseInt(Show(n)) == Some(n)
  {
    if n < 0 {
      DigitsRoundTrip(-n);
      ParseNegative(Digits(-n), -n);
    } else {
      DigitsRoundTrip(n);
      ParsePlain(Digits(n), n);
    }
  }

  lemma ParseNegative(d: string, m: nat)
    requires ParseDigits(d) == Some(m)
    ensures ParseInt("-" + d) == Some(-(m as int))
  {
    assert ("-" + d)[1..] == d;
  }

  lemma ParsePlain(d: string, m: nat)
    requires ParseDigits(d) == Some(m) && '0' <= d[0] <= '9'
    ensures ParseInt(d) == Some(m)
  {
  }

  /** `Show` writes only digits and the minus sign. */
  lemma ShowAlphabet(n: int)
    ensures forall i :: 0 <= i < |Show(n)| ==> Show(n)[i] == '-' || '0' <= Show(n)[i] <= '9'
  {
  }

  /** The text before and after the first `sep`, if `s` contains one. */
  function Split(s: string, sep: char): Option<(string, string)>
    decreases |s|
  {
    if s == [] then None
    else if s[0] == sep then Some(([], s[1..]))
    else match Split(s[1..], sep)
      case None => None
      case Some(p) => Some(([s[0]] + p.0, p.1))
  }

  lemma {:induction false} SplitFirst(x: string, sep: char, y: string)
    requires forall i :: 0 <= i < |x| ==> x[i] != sep
    ensures Split(x + [sep] + y, sep) == Some((x, y))
    decreases |x|
  {
    var s := x + [sep] + y;
    if x != [] {
      assert s[1..] == x[1..] + [sep] + y;
      SplitFirst(x[1..], sep, y);
      assert [s[0]] + x[1..] == x;
    } else {
      assert s[1..] == y;
    }
  }

  /** The text `__str__` shows for one bucket: `raw+extra=effective`. */
  function Summary(raw: int, extra: int, effective: int): string {
    Show(raw) + "+" + Show(extra) + "=" + Show(effective)
  }

  function ParseSummary(s: string): Option<(int, int, int)> {
    match Split(s, '+')
    case None => None
    case Some(p) =>
      match Split(p.1, '=')
      case None => None
      case Some(q) =>
        match (ParseInt(p.0), ParseInt(q.0), ParseInt(q.1))
        case (Some(a), Some(e), Some(c)) => Some((a, e, c))
        case _ => None
  }

  /** The three numbers of a summary can be read back from its text. */
  lemma SummaryRoundTrip(raw: int, extra: int, effective: int)
    ensures ParseSummary(Summary(raw, extra, effective)) == Some((raw, extra, effective))
  {
    var a, e, c := Show(raw), Show(extra), Show(effective);
    ShowAlphabet(raw);
    ShowAlphabet(extra);
    assert Summary(raw, extra, effective) == a + ['+'] + (e + "=" + c);
    SplitFirst(a, '+', e + "=" + c);
    assert e + "=" + c == e + ['='] + c;
    SplitFirst(e, '=', c);
    ShowRoundTrip(raw);
    ShowRoundTrip(extra);
    ShowRoundTrip(effective);
  }
}

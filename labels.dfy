/**
  Anniversary-type labels such as "5 Years".  A label's number of years is
  `int(label.split()[0])`: the first whitespace-separated token, read with the
  rules of Python's `int()` for a string in base 10.  A label with no token
  raises `IndexError` and a token that is not an integer raises `ValueError`;
  both are kept apart because the callers handle them differently.
*/
module Labels {
  import opened Wrappers

  datatype ParseError = MissingToken | NotAnInteger

  /** The characters `str.split()` with no argument splits on (`str.isspace`). */
  predicate IsSpace(c: char)
  {
    var n := c as int;
    (9 <= n <= 13) || (28 <= n <= 32) || n == 0x85 || n == 0xA0 || n == 0x1680
    || (0x2000 <= n <= 0x200A) || n == 0x2028 || n == 0x2029 || n == 0x202F
    || n == 0x205F || n == 0x3000
  }

  predicate NoSpace(s: string)
  {
    forall i :: 0 <= i < |s| ==> !IsSpace(s[i])
  }

  /** `s` without its leading whitespace. */
  function SkipSpace(s: string): (r: string)
    ensures |r| <= |s| && r == s[|s| - |r|..]
    ensures forall i :: 0 <= i < |s| - |r| ==> IsSpace(s[i])
    ensures |r| > 0 ==> !IsSpace(r[0])
    decreases |s|
  {
    if |s| > 0 && IsSpace(s[0]) then SkipSpace(s[1..]) else s
  }

  /** The longest prefix of `s` without whitespace. */
  function TakeToken(s: string): (t: string)
    ensures |t| <= |s| && t == s[..|t|] && NoSpace(t)
    ensures |t| < |s| ==> IsSpace(s[|t|])
    decreases |s|
  {
    if |s| == 0 || IsSpace(s[0]) then [] else [s[0]] + TakeToken(s[1..])
  }

  /** `t` is a maximal whitespace-free run of `s` starting at `k`, and only
      whitespace comes before it: the first word `str.split()` yields. */
  predicate TokenAt(s: string, t: string, k: nat)
  {
    && k + |t| <= |s|
    && (forall i :: 0 <= i < k ==> IsSpace(s[i]))
    && s[k..k + |t|] == t
    && |t| > 0 && NoSpace(t)
    && (k + |t| == |s| || IsSpace(s[k + |t|]))
  }

  /** `s.split()[0]`, or `None` where the split is empty. */
  function FirstToken(s: string): (r: Option<string>)
    ensures r.None? <==> forall i :: 0 <= i < |s| ==> IsSpace(s[i])
    ensures r.Some? ==> TokenAt(s, r.value, |s| - |SkipSpace(s)|)
  {
    var t := SkipSpace(s);
    if |t| == 0 then None
    else
      FirstTokenAt(s);
      Some(TakeToken(t))
  }

  lemma FirstTokenAt(s: string)
    requires |SkipSpace(s)| > 0
    ensures TokenAt(s, TakeToken(SkipSpace(s)), |s| - |SkipSpace(s)|)
  {
    var t := SkipSpace(s);
    TakeTokenAt(t);
    TokenAtShift(s, t, TakeToken(t), |s| - |t|);
  }

  lemma TakeTokenAt(t: string)
    requires |t| > 0 && !IsSpace(t[0])
    ensures TokenAt(t, TakeToken(t), 0)
  {
    var w := TakeToken(t);
    assert |w| > 0 by {
      assert w == [t[0]] + TakeToken(t[1..]);
    }
    assert t[0..0 + |w|] == w;
  }

  /** A token after leading whitespace is a token of the whole string. */
  lemma TokenAtShift(s: string, t: string, w: string, k: nat)
    requires k <= |s| && t == s[k..]
    requires forall i :: 0 <= i < k ==> IsSpace(s[i])
    requires TokenAt(t, w, 0)
    ensures TokenAt(s, w, k)
  {
    assert s[k..k + |w|] == t[0..|w|];
    assert k + |w| < |s| ==> s[k + |w|] == t[|w|];
  }

  /** There is only one first word: two runs that both satisfy `TokenAt`
      are the same run. */
  lemma TokenAtUnique(s: string, t: string, k: nat, t': string, k': nat)
    requires TokenAt(s, t, k) && TokenAt(s, t', k')
    ensures k == k' && t == t'
  {
    assert forall i :: k <= i < k + |t| ==> !IsSpace(s[i]) by {
      forall i | k <= i < k + |t| ensures !IsSpace(s[i]) {
        assert s[i] == s[k..k + |t|][i - k];
      }
    }
    assert forall i :: k' <= i < k' + |t'| ==> !IsSpace(s[i]) by {
      forall i | k' <= i < k' + |t'| ensures !IsSpace(s[i]) {
        assert s[i] == s[k'..k' + |t'|][i - k'];
      }
    }
    assert !IsSpace(s[k]) && !IsSpace(s[k']);
    assert k == k';
    assert k + |t| < |s| ==> IsSpace(s[k + |t|]);
    assert k + |t'| < |s| ==> IsSpace(s[k + |t'|]);
    assert |t| == |t'|;
    assert t == s[k..k + |t|] == t';
  }

  predicate IsDigit(c: char)
  {
    '0' <= c <= '9'
  }

  /** Python's decimal-integer grammar: digits, with single underscores
      allowed between two digits. */
  predicate WellFormedDigits(s: string)
  {
    && |s| > 0
    && IsDigit(s[0])
    && (forall i :: 0 <= i < |s| ==> IsDigit(s[i]) || s[i] == '_')
    && (forall i :: 0 <= i < |s| && s[i] == '_' ==> i + 1 < |s| && IsDigit(s[i + 1]))
  }

  /** The value of a digit string, ignoring underscores. */
  function DigitsValue(s: string): nat
    decreases |s|
  {
    if |s| == 0 then 0
    else
      var n := |s| - 1;
      if IsDigit(s[n]) then DigitsValue(s[..n]) * 10 + (s[n] as int - '0' as int)
      else DigitsValue(s[..n])
  }

  /** The most digits `int()` reads from, and `str()` writes to, a decimal
      string (`sys.int_info.default_max_str_digits`); past it both raise
      `ValueError`. */
  const MaxStrDigits := 4300

  /** The number of digits of `s`, underscores not counted. */
  function DigitCount(s: string): nat
    decreases |s|
  {
    if |s| == 0 then 0
    else
      var n := |s| - 1;
      DigitCount(s[..n]) + (if IsDigit(s[n]) then 1 else 0)
  }

  /** A well-formed digit string the conversion limit lets through. */
  predicate Convertible(digits: string)
  {
    WellFormedDigits(digits) && DigitCount(digits) <= MaxStrDigits
  }

  /** `int(token)` for a token without whitespace. */
  function ParseInt(token: string): Option<int>
  {
    if |token| > 0 && (token[0] == '+' || token[0] == '-') then
      var digits := token[1..];
      if Convertible(digits) then
        var v: int := DigitsValue(digits);
        Some(if token[0] == '-' then -v else v)
      else None
    else if Convertible(token) then Some(DigitsValue(token))
    else None
  }

  /** `int(text.split()[0])`. */
  function ParseLabel(text: string): (r: Result<int, ParseError>)
    ensures r == Failure(MissingToken) <==> FirstToken(text).None?
    ensures r.Success? ==> StrConvertible(r.value)
  {
    match FirstToken(text)
    case None => Failure(MissingToken)
    case Some(t) =>
      match ParseInt(t)
      case None => Failure(NotAnInteger)
      case Some(n) =>
        ParseIntConvertible(t);
        Success(n)
  }

  function DigitChar(d: nat): char
    requires d < 10
  {
    ('0' as int + d) as char
  }

  /** `str(n)` for a natural number. */
  function NatToString(n: nat): string
    decreases n
  {
    if n < 10 then [DigitChar(n)] else NatToString(n / 10) + [DigitChar(n % 10)]
  }

  /** `str(n)`, as in the f-string `f"{years}"`. */
  function IntToString(n: int): string
  {
    if n < 0 then "-" + NatToString(-n) else NatToString(n)
  }

  /** `str(n)` does not raise: its digits are within the conversion limit. */
  predicate StrConvertible(n: int)
  {
    |NatToString(if n < 0 then -n else n)| <= MaxStrDigits
  }

  /** The normalised label `f"{years} Years"`. */
  function FormatLabel(years: int): string
  {
    IntToString(years) + " Years"
  }

  lemma {:induction false} NatToStringDigits(n: nat)
    ensures |NatToString(n)| > 0
    ensures forall i :: 0 <= i < |NatToString(n)| ==> IsDigit(NatToString(n)[i])
    ensures DigitsValue(NatToString(n)) == n
    decreases n
  {
    if n >= 10 {
      NatToStringDigits(n / 10);
      var s := NatToString(n);
      assert s[..|s| - 1] == NatToString(n / 10);
    }
  }

  lemma NatToStringWellFormed(n: nat)
    ensures WellFormedDigits(NatToString(n)) && NoSpace(NatToString(n))
    ensures DigitsValue(NatToString(n)) == n
  {
    NatToStringDigits(n);
  }

  lemma {:induction false} DigitCountAllDigits(s: string)
    requires forall i :: 0 <= i < |s| ==> IsDigit(s[i])
    ensures DigitCount(s) == |s|
    decreases |s|
  {
    if |s| > 0 {
      DigitCountAllDigits(s[..|s| - 1]);
    }
  }

  lemma ParseIntOfNatString(n: nat)
    requires |NatToString(n)| <= MaxStrDigits
    ensures ParseInt(NatToString(n)) == Some(n)
  {
    var s := NatToString(n);
    NatToStringWellFormed(n);
    NatToStringDigits(n);
    DigitCountAllDigits(s);
    assert IsDigit(s[0]);
    assert s[0] != '+' && s[0] != '-';
  }

  lemma ParseIntOfNegated(t: string)
    requires Convertible(t)
    ensures ParseInt("-" + t) == Some(-(DigitsValue(t) as int))
  {
    var s := "-" + t;
    assert s[0] == '-' && s[1..] == t;
  }

  /** `int(str(n)) == n` for every integer `str` can convert. */
  lemma ParseIntOfString(n: int)
    requires StrConvertible(n)
    ensures ParseInt(IntToString(n)) == Some(n)
  {
    if n < 0 {
      NatToStringWellFormed(-n);
      NatToStringDigits(-n);
      DigitCountAllDigits(NatToString(-n));
      ParseIntOfNegated(NatToString(-n));
    } else {
      ParseIntOfNatString(n);
    }
  }

  function Pow10(k: nat): (r: nat)
    ensures r >= 1
  {
    if k == 0 then 1 else 10 * Pow10(k - 1)
  }

  /** A digit string's value has at most as many digits as the string. */
  lemma {:induction false} DigitsValueBound(s: string)
    ensures DigitsValue(s) < Pow10(DigitCount(s))
    decreases |s|
  {
    if |s| > 0 {
      var n := |s| - 1;
      DigitsValueBound(s[..n]);
      if IsDigit(s[n]) {
        var v, p := DigitsValue(s[..n]), Pow10(DigitCount(s[..n]));
        assert v * 10 <= (p - 1) * 10;
      }
    }
  }

  lemma {:induction false} NatToStringLength(n: nat, k: nat)
    requires k >= 1 && n < Pow10(k)
    ensures |NatToString(n)| <= k
    decreases n
  {
    if n >= 10 {
      assert k >= 2;
      assert n / 10 < Pow10(k - 1);
      NatToStringLength(n / 10, k - 1);
    }
  }

  lemma {:induction false} WellFormedDigitCount(s: string)
    requires WellFormedDigits(s)
    ensures DigitCount(s) >= 1
    decreases |s|
  {
    if |s| > 1 {
      WellFormedDigitCount(s[..1]);
      DigitCountPrefix(s, 1);
    }
  }

  lemma {:induction false} DigitCountPrefix(s: string, k: nat)
    requires k <= |s|
    ensures DigitCount(s[..k]) <= DigitCount(s)
    decreases |s|
  {
    if k < |s| {
      var n := |s| - 1;
      assert s[..n][..k] == s[..k];
      DigitCountPrefix(s[..n], k);
    } else {
      assert s[..k] == s;
    }
  }

  /** Every integer `int()` accepts can be written back by `str()`. */
  lemma ParseIntConvertible(token: string)
    requires ParseInt(token).Some?
    ensures StrConvertible(ParseInt(token).value)
  {
    var digits := if |token| > 0 && (token[0] == '+' || token[0] == '-') then token[1..] else token;
    WellFormedDigitCount(digits);
    DigitsValueBound(digits);
    NatToStringLength(DigitsValue(digits), DigitCount(digits));
  }

  /** A token of 4301 digits is past the conversion limit. */
  lemma LongTokenRejected()
    ensures ParseInt(seq(MaxStrDigits + 1, _ => '1')) == None
  {
    DigitCountAllDigits(seq(MaxStrDigits + 1, _ => '1'));
  }

  lemma IntToStringNoSpace(n: int)
    ensures |IntToString(n)| > 0 && NoSpace(IntToString(n))
    ensures !IsSpace(IntToString(n)[0])
  {
    NatToStringWellFormed(if n < 0 then -n else n);
    if n < 0 {
      var t := NatToString(-n);
      assert IntToString(n) == "-" + t;
      assert forall i :: 0 < i < |IntToString(n)| ==> IntToString(n)[i] == t[i - 1];
    }
  }

  lemma {:induction false} TakeTokenOfPrefix(a: string, b: string)
    requires NoSpace(a)
    requires |b| > 0 && IsSpace(b[0])
    ensures TakeToken(a + b) == a
    decreases |a|
  {
    if |a| > 0 {
      assert (a + b)[1..] == a[1..] + b;
      TakeTokenOfPrefix(a[1..], b);
    }
  }

  /** A normalised label reads back as the number it was made from, so every
      type the catalog adds parses to its own number of years. */
  lemma FormatLabelRoundTrip(years: int)
    requires StrConvertible(years)
    ensures FirstToken(FormatLabel(years)) == Some(IntToString(years))
    ensures ParseLabel(FormatLabel(years)) == Success(years)
  {
    ParseIntOfString(years);
    IntToStringNoSpace(years);
    var s := IntToString(years);
    TakeTokenOfPrefix(s, " Years");
    assert SkipSpace(FormatLabel(years)) == FormatLabel(years);
  }

  /** Distinct numbers of years give distinct normalised labels. */
  lemma FormatLabelInjective(a: int, b: int)
    requires FormatLabel(a) == FormatLabel(b)
    ensures a == b
  {
    var sa, sb := IntToString(a), IntToString(b);
    assert sa == FormatLabel(a)[..|sa|];
    assert sb == FormatLabel(b)[..|sb|];
    assert sa == sb;
    var na, nb := if a < 0 then -a else a, if b < 0 then -b else b;
    NatToStringDigits(na);
    NatToStringDigits(nb);
    if a < 0 {
      assert sa[1..] == NatToString(na);
    }
    if b < 0 {
      assert sb[1..] == NatToString(nb);
    }
    assert (a < 0) == (sa[0] == '-');
    assert (b < 0) == (sb[0] == '-');
    assert NatToString(na) == NatToString(nb);
  }
}

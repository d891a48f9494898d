/**
 * Python's `int(s)` on a string and `str(n)` on an integer, restricted to
 * base-ten ASCII digits: what the viewer uses to read an address and to
 * print one back into a message.
 */
module PyInt {
  import opened Wrappers
  import opened Text

  predicate IsDigit(c: char) {
    '0' <= c <= '9'
  }

  predicate AllDigits(s: string) {
    forall i :: 0 <= i < |s| ==> IsDigit(s[i])
  }

  predicate IsSign(c: char) {
    c == '+' || c == '-'
  }

  /** The shape `int()` accepts once white space is skipped: at least one
      character, ending in a digit, with every character a digit except that
      the first may be a sign. */
  predicate IntLiteral(t: string) {
    && |t| > 0 && IsDigit(t[|t| - 1])
    && forall i :: 0 <= i < |t| ==> IsDigit(t[i]) || (i == 0 && IsSign(t[i]))
  }

  /** The most decimal digits `int()` converts: CPython's default
      `sys.get_int_max_str_digits()`. Leading zeros count; the sign does not. */
  const MaxStrDigits := 4300

  /** The number of digits of a literal: its length without a leading sign. */
  function DigitCount(t: string): nat {
    if |t| > 0 && IsSign(t[0]) then |t| - 1 else |t|
  }

  /** The value of a string of decimal digits, most significant first. */
  function DigitsValue(s: string): nat
    requires AllDigits(s)
    decreases |s|
  {
    if |s| == 0 then 0
    else DigitsValue(s[..|s| - 1]) * 10 + (s[|s| - 1] as int - '0' as int)
  }

  /** The white space `int()` skips around a number: the `str.isspace`
      characters except U+001C to U+001F. CPython's parser skips only ASCII
      space, tab, line feed, vertical tab, form feed and carriage return, after
      turning every non-ASCII white space character into an ASCII space; the four
      separator characters are kept as they are and then rejected. */
  predicate IsIntSpace(c: char) {
    IsSpace(c) && !('\U{1C}' <= c <= '\U{1F}')
  }

  /** `s` without its leading `int()` white space. */
  function SkipLeft(s: string): string
    decreases |s|
  {
    if |s| > 0 && IsIntSpace(s[0]) then SkipLeft(s[1..]) else s
  }

  /** `s` without its trailing `int()` white space. */
  function SkipRight(s: string): string
    decreases |s|
  {
    if |s| > 0 && IsIntSpace(s[|s| - 1]) then SkipRight(s[..|s| - 1]) else s
  }

  /** The text `int()` parses once the white space it skips is removed. */
  function IntTrim(s: string): string {
    SkipRight(SkipLeft(s))
  }

  /** `int(s)`, with `None` standing for the `ValueError` it raises: surrounding
      `int()` white space is ignored, then an optional `+` or `-` sign must be
      followed by one to `MaxStrDigits` decimal digits and nothing else. Leading
      zeros are accepted. A string that `str.strip` empties never parses. */
  function ParseInt(s: string): (r: Option<int>)
    ensures r.Some? <==> IntLiteral(IntTrim(s)) && DigitCount(IntTrim(s)) <= MaxStrDigits
    ensures IntTrim(s) == "" ==> r == None
    ensures Strip(s) == "" ==> r == None
  {
    BlankNeverParses(s);
    ParseStripped(IntTrim(s))
  }

  /** What `int()` sees of a blank string is empty or starts with white space. */
  lemma BlankNeverParses(s: string)
    ensures Strip(s) == "" ==> ParseStripped(IntTrim(s)) == None
  {
    if Strip(s) == "" && IntTrim(s) != "" {
      StripSpec(s);
      IntTrimWithin(s);
      assert IntTrim(s)[0] in s;
    }
  }

  /** `int()` on text whose surrounding white space has already been skipped. */
  function ParseStripped(t: string): (r: Option<int>)
    ensures r.Some? <==> IntLiteral(t) && DigitCount(t) <= MaxStrDigits
    ensures t == "" ==> r == None
    ensures |t| > 0 && IsSpace(t[0]) ==> r == None
  {
    var signed := |t| > 0 && (t[0] == '-' || t[0] == '+');
    var digits := if signed then t[1..] else t;
    LiteralDigits(t);
    if |digits| > 0 && |digits| <= MaxStrDigits && AllDigits(digits) then
      var v: int := DigitsValue(digits);
      Some(if signed && t[0] == '-' then -v else v)
    else
      None
  }

  /** A literal is a sign and a non-empty digit run, or a non-empty digit run alone. */
  lemma LiteralDigits(t: string)
    ensures var signed := |t| > 0 && IsSign(t[0]);
      var digits := if signed then t[1..] else t;
      IntLiteral(t) <==> |digits| > 0 && AllDigits(digits)
  {
    var signed := |t| > 0 && IsSign(t[0]);
    var digits := if signed then t[1..] else t;
    if |digits| > 0 && AllDigits(digits) {
      assert t[|t| - 1] == digits[|digits| - 1];
      forall i | 0 <= i < |t|
        ensures IsDigit(t[i]) || (i == 0 && IsSign(t[i]))
      {
        if signed && i > 0 {
          assert t[i] == digits[i - 1];
        }
      }
    }
    if IntLiteral(t) {
      forall j | 0 <= j < |digits|
        ensures IsDigit(digits[j])
      {
        if signed {
          assert digits[j] == t[j + 1];
        }
      }
    }
  }

  /** Every character left by `SkipLeft` comes from `s`. */
  lemma {:induction false} SkipLeftWithin(s: string)
    ensures forall c :: c in SkipLeft(s) ==> c in s
    ensures |SkipLeft(s)| > 0 ==> !IsIntSpace(SkipLeft(s)[0])
    decreases |s|
  {
    if |s| > 0 && IsIntSpace(s[0]) {
      SkipLeftWithin(s[1..]);
    }
  }

  /** `SkipRight` keeps a prefix of `s`, ending in a character `int()` does not skip. */
  lemma {:induction false} SkipRightWithin(s: string)
    ensures |SkipRight(s)| <= |s| && SkipRight(s) == s[..|SkipRight(s)|]
    ensures |SkipRight(s)| > 0 ==> !IsIntSpace(SkipRight(s)[|SkipRight(s)| - 1])
    decreases |s|
  {
    if |s| > 0 && IsIntSpace(s[|s| - 1]) {
      SkipRightWithin(s[..|s| - 1]);
    }
  }

  /** Once white space is skipped, an optional sign and a run of at most
      `MaxStrDigits` digits read as the run's decimal value, negated after `-`:
      leading zeros and a `+` are accepted, so `int("007")` is 7 and `int("+5")`
      is 5. A longer run raises. */
  lemma ParseIntValue(s: string, sign: string, ds: string)
    requires sign == "" || sign == "+" || sign == "-"
    requires |ds| > 0 && AllDigits(ds) && IntTrim(s) == sign + ds
    ensures ParseInt(s) ==
      if |ds| <= MaxStrDigits then Some(if sign == "-" then -(DigitsValue(ds) as int) else DigitsValue(ds))
      else None
  {
    var t := IntTrim(s);
    assert ParseInt(s) == ParseStripped(t);
    if sign != "" {
      assert t[0] == sign[0] && t[1..] == ds;
    } else {
      assert t == ds && !IsSign(t[0]);
    }
  }

  /** A character other than a digit, except a sign in front, makes `int()`
      fail: `"12a"`, `"1.5"`, `"0x10"` and `"--1"` are not integers. */
  lemma ParseIntRejects(s: string, i: int)
    requires 0 <= i < |IntTrim(s)| && !IsDigit(IntTrim(s)[i])
    requires i > 0 || !IsSign(IntTrim(s)[0])
    ensures ParseInt(s) == None
  {
  }

  /** Leading zeros are accepted: `int("007")` is 7. */
  lemma ParseLeadingZeros()
    ensures ParseInt("007") == Some(7)
  {
    IntTrimNoEdges("007");
    assert DigitsValue("007") == 7 by {
      assert "007"[..2] == "00" && "00"[..1] == "0" && "0"[..0] == "";
    }
    assert "007" == "" + "007";
    ParseIntValue("007", "", "007");
  }

  /** A `+` sign is accepted: `int("+5")` is 5. */
  lemma ParsePlusSign()
    ensures ParseInt("+5") == Some(5)
  {
    IntTrimNoEdges("+5");
    assert "5"[..0] == "";
    assert "+5" == "+" + "5";
    ParseIntValue("+5", "+", "5");
  }

  /** A negative number between spaces: `int(" -12 ")` is -12. */
  lemma ParsePaddedNegative()
    ensures ParseInt(" -12 ") == Some(-12)
  {
    SkipLeftPadded(" ", "-12 ");
    SkipRightPadded("-12", " ");
    assert " " + "-12 " == " -12 " && "-12" + " " == "-12 ";
    assert "12"[..1] == "1" && "1"[..0] == "";
    assert "-12" == "-" + "12";
    ParseIntValue(" -12 ", "-", "12");
  }

  /** A letter, a decimal point, a hexadecimal prefix or a sign alone is not an integer. */
  lemma ParseIntRejectsExamples()
    ensures ParseInt("12a") == None && ParseInt("1.5") == None && ParseInt("0x10") == None
    ensures ParseInt("-") == None
  {
    IntTrimNoEdges("12a");
    IntTrimNoEdges("1.5");
    IntTrimNoEdges("0x10");
    IntTrimNoEdges("-");
    ParseIntRejects("12a", 2);
    ParseIntRejects("1.5", 1);
    ParseIntRejects("0x10", 1);
  }

  /** `IntTrim` keeps characters of `s` only, and neither starts nor ends with
      white space `int()` skips. */
  lemma IntTrimWithin(s: string)
    ensures forall c :: c in IntTrim(s) ==> c in s
    ensures |IntTrim(s)| > 0 ==> !IsIntSpace(IntTrim(s)[0]) && !IsIntSpace(IntTrim(s)[|IntTrim(s)| - 1])
  {
    var l := SkipLeft(s);
    SkipLeftWithin(s);
    SkipRightWithin(l);
    var r := SkipRight(l);
    forall c | c in r
      ensures c in s
    {
      var i :| 0 <= i < |r| && r[i] == c;
      assert l[i] == c;
    }
  }

  /** Trimming a text with no skippable white space at either end changes nothing. */
  lemma IntTrimNoEdges(s: string)
    requires s != [] ==> !IsIntSpace(s[0]) && !IsIntSpace(s[|s| - 1])
    ensures IntTrim(s) == s
  {
    assert SkipLeft(s) == s;
  }

  /** Skipped white space in front of a text that starts with another character is dropped. */
  lemma {:induction false} SkipLeftPadded(w: string, t: string)
    requires forall i :: 0 <= i < |w| ==> IsIntSpace(w[i])
    requires |t| > 0 && !IsIntSpace(t[0])
    ensures SkipLeft(w + t) == t
    decreases |w|
  {
    if |w| > 0 {
      assert (w + t)[1..] == w[1..] + t;
      SkipLeftPadded(w[1..], t);
    }
  }

  /** Skipped white space after a text that ends with another character is dropped. */
  lemma {:induction false} SkipRightPadded(t: string, w: string)
    requires forall i :: 0 <= i < |w| ==> IsIntSpace(w[i])
    requires |t| > 0 && !IsIntSpace(t[|t| - 1])
    ensures SkipRight(t + w) == t
    decreases |w|
  {
    if |w| > 0 {
      assert (t + w)[..|t + w| - 1] == t + w[..|w| - 1];
      SkipRightPadded(t, w[..|w| - 1]);
    } else {
      assert t + w == t;
    }
  }

  /** White space that `int()` skips around an address does not change how it
      parses, and trimming it first changes nothing. */
  lemma ParseIntTrimmed(s: string)
    ensures ParseInt(IntTrim(s)) == ParseInt(s)
  {
    IntTrimWithin(s);
    IntTrimNoEdges(IntTrim(s));
  }

  /** U+001C counts as white space to `str.strip`, yet `int()` does not skip it:
      `int("\x1c5")` raises although `"\x1c5".strip()` is `"5"`. */
  lemma SeparatorNotSkipped()
    ensures Strip("\U{1C}5") == "5"
    ensures ParseInt("\U{1C}5") == None
    ensures ParseInt("5") == Some(5)
  {
    var s := "\U{1C}5";
    assert s[1..] == "5";
    assert TrimLeft(s) == "5";
    assert SkipLeft(s) == s;
    assert SkipRight(s) == s;
  }

  function DigitChar(d: int): (c: char)
    requires 0 <= d < 10
    ensures IsDigit(c) && c as int - '0' as int == d
  {
    ('0' as int + d) as char
  }

  /** `str(n)` for a natural number: its decimal digits, without leading zeros. */
  function NatToString(n: nat): (r: string)
    ensures |r| > 0 && AllDigits(r)
    ensures DigitsValue(r) == n
    ensures |r| > 1 ==> r[0] != '0'
    decreases n
  {
    if n < 10 then [DigitChar(n)]
    else
      var prefix := NatToString(n / 10);
      var r := prefix + [DigitChar(n % 10)];
      assert r[..|r| - 1] == prefix;
      r
  }

  /** The printed digits of a natural number read back as that number, as
      long as there are no more than `MaxStrDigits` of them. */
  lemma ParseNatString(n: nat)
    ensures ParseStripped(NatToString(n)) == if FitsDigitLimit(n) then Some(n) else None
    ensures n > 0 ==> ParseStripped("-" + NatToString(n)) == if FitsDigitLimit(n) then Some(-(n as int)) else None
  {
    var d := NatToString(n);
    assert IsDigit(d[0]);
    assert ("-" + d)[1..] == d;
  }

  /** Neither a sign nor a digit is white space. */
  lemma SignOrDigitNotSpace(c: char)
    requires c == '-' || IsDigit(c)
    ensures !IsSpace(c)
  {
  }

  /** `str(n)` for any integer: a `-` sign for negative values, then the digits. */
  function IntToString(n: int): string {
    var m: nat := if n < 0 then -n else n;
    if n < 0 then "-" + NatToString(m) else NatToString(m)
  }

  /** `n` has at most `MaxStrDigits` decimal digits, so `int()` accepts its spelling. */
  predicate FitsDigitLimit(n: int) {
    |NatToString(if n < 0 then -n else n)| <= MaxStrDigits
  }

  /** `str(n)` is non-empty and has no white space; `int()` reads it back as
      `n` when it has at most `MaxStrDigits` digits, and raises otherwise. */
  lemma IntToStringRoundTrip(n: int)
    ensures ParseInt(IntToString(n)) == if FitsDigitLimit(n) then Some(n) else None
    ensures |IntToString(n)| > 0 && forall i :: 0 <= i < |IntToString(n)| ==> !IsSpace(IntToString(n)[i])
  {
    var m: nat := if n < 0 then -n else n;
    var r := IntToString(n);
    forall i | 0 <= i < |r|
      ensures !IsSpace(r[i])
    {
      SignOrDigitNotSpace(r[i]);
    }
    IntTrimNoEdges(r);
    ParseNatString(m);
  }

  /** `str(n)` with any white space `int()` skips on either side reads back
      as `n`, unless it has more than `MaxStrDigits` digits. */
  lemma ParsePaddedInt(w: string, n: int, w': string)
    requires forall i :: 0 <= i < |w| ==> IsIntSpace(w[i])
    requires forall i :: 0 <= i < |w'| ==> IsIntSpace(w'[i])
    ensures ParseInt(w + IntToString(n) + w') == if FitsDigitLimit(n) then Some(n) else None
  {
    var t := IntToString(n);
    IntToStringRoundTrip(n);
    assert !IsIntSpace(t[0]) && !IsIntSpace(t[|t| - 1]);
    assert w + t + w' == w + (t + w');
    SkipLeftPadded(w, t + w');
    SkipRightPadded(t, w');
    IntTrimNoEdges(t);
  }

  function Pow10(k: nat): (p: nat)
    ensures p > 0
  {
    if k == 0 then 1 else 10 * Pow10(k - 1)
  }

  /** A run of `k` digits denotes less than `10^k`. */
  lemma {:induction false} DigitsValueBound(ds: string)
    requires AllDigits(ds)
    ensures DigitsValue(ds) < Pow10(|ds|)
    decreases |ds|
  {
    if |ds| > 0 {
      var prefix := ds[..|ds| - 1];
      DigitsValueBound(prefix);
      assert DigitsValue(prefix) + 1 <= Pow10(|prefix|);
    }
  }

  /** A number below `10^k` prints with at most `k` digits. */
  lemma {:induction false} NatToStringLength(n: nat, k: nat)
    requires k > 0 && n < Pow10(k)
    ensures |NatToString(n)| <= k
    decreases k
  {
    if n >= 10 {
      assert k > 1;
      assert n / 10 < Pow10(k - 1);
      NatToStringLength(n / 10, k - 1);
    }
  }

  /** Every integer `int()` returns prints back within the digit limit, so
      `str()` of an address in a message never raises. */
  lemma ParsedFitsLimit(s: string)
    ensures ParseInt(s).Some? ==> FitsDigitLimit(ParseInt(s).value)
  {
    var t := IntTrim(s);
    if ParseInt(s).Some? {
      var signed := IsSign(t[0]);
      var ds := if signed then t[1..] else t;
      LiteralDigits(t);
      DigitsValueBound(ds);
      NatToStringLength(DigitsValue(ds), |ds|);
    }
  }

  /** 4300 digits are accepted and 4301 are not. */
  lemma DigitLimitExample()
    ensures ParseInt(seq(MaxStrDigits, _ => '1')).Some?
    ensures ParseInt(seq(MaxStrDigits + 1, _ => '1')) == None
  {
    IntTrimNoEdges(seq(MaxStrDigits, _ => '1'));
    IntTrimNoEdges(seq(MaxStrDigits + 1, _ => '1'));
  }
}

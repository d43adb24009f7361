/**
 How the command turns its `--params`, `--delay` and `--priority` options
 into values: the PHP truthiness test on `--params`, and the `(int)` cast of
 an option string with a fallback default.
 */
module CommandOptions {
  import opened JobRecords

  /** The options as the console framework reports them: `None` is PHP null.
      With the command signature `{--params=} {--delay=0} {--priority=1}`,
      an omitted `--delay` or `--priority` arrives as "0" or "1" and an
      omitted `--params` arrives as null. */
  datatype Options = Options(params: Option<string>, delay: Option<string>, priority: Option<string>)

  /** PHP truthiness of a string: only "" and "0" are false. */
  predicate Truthy(s: string)
  {
    s != "" && s != "0"
  }

  /** `getParams`: the decoded `--params` when the option is truthy, else the
      empty list. JSON decoding itself is the parameter `jsonDecode`. */
  function GetParams(option: Option<string>, jsonDecode: string -> seq<Param>): (ps: seq<Param>)
    ensures option.None? || option == Some("") || option == Some("0") ==> ps == []
    ensures option.Some? && Truthy(option.value) ==> ps == jsonDecode(option.value)
  {
    if option.Some? && Truthy(option.value) then jsonDecode(option.value) else []
  }

  predicate IsDigit(c: char)
  {
    '0' <= c <= '9'
  }

  /** The whitespace PHP skips before a numeric string: space, \t, \n, \r, \v, \f. */
  predicate IsWhitespace(c: char)
  {
    c == ' ' || c == '\t' || c == '\n' || c == '\r' || c == 11 as char || c == 12 as char
  }

  /** `s` without its leading whitespace. */
  function SkipWhitespace(s: string): (t: string)
    ensures |t| <= |s| && t == s[|s| - |t|..]
    ensures forall i :: 0 <= i < |s| - |t| ==> IsWhitespace(s[i])
    ensures t == [] || !IsWhitespace(t[0])
  {
    if s != [] && IsWhitespace(s[0]) then SkipWhitespace(s[1..]) else s
  }

  /** The longest prefix of `s` made of decimal digits. */
  function DigitPrefix(s: string): (ds: string)
    ensures |ds| <= |s| && ds == s[..|ds|]
    ensures forall i :: 0 <= i < |ds| ==> IsDigit(ds[i])
    ensures |ds| == |s| || !IsDigit(s[|ds|])
  {
    if s != [] && IsDigit(s[0]) then [s[0]] + DigitPrefix(s[1..]) else []
  }

  function DigitValue(c: char): nat
    requires IsDigit(c)
  {
    (c as int) - ('0' as int)
  }

  /** The number a string of decimal digits denotes (the empty string denotes 0). */
  function DecimalValue(ds: string): nat
    requires forall i :: 0 <= i < |ds| ==> IsDigit(ds[i])
  {
    if ds == [] then 0
    else 10 * DecimalValue(ds[..|ds| - 1]) + DigitValue(ds[|ds| - 1])
  }

  /** PHP's `(int)` cast of a string: skip leading whitespace, read an optional
      sign and the decimal digits that follow; anything else ends the number,
      and a string with no digits there gives 0. */
  function IntCast(s: string): int
  {
    var t := SkipWhitespace(s);
    if t != [] && t[0] == '-' then -(DecimalValue(DigitPrefix(t[1..])) as int)
    else if t != [] && t[0] == '+' then DecimalValue(DigitPrefix(t[1..]))
    else DecimalValue(DigitPrefix(t))
  }

  /** `getOptionValue`: the option cast to int when it is not null, else the
      default. */
  function GetOptionValue(option: Option<string>, default: int): (v: int)
    ensures option.None? ==> v == default
  {
    if option.Some? then IntCast(option.value) else default
  }

  /** The decimal text of `n`, without sign or leading zeros: the reference
      against which the cast is checked. */
  function DecimalText(n: nat): (s: string)
    ensures s != [] && IsDigit(s[0])
    ensures forall i :: 0 <= i < |s| ==> IsDigit(s[i])
  {
    if n < 10 then [('0' as int + n) as char]
    else DecimalText(n / 10) + [('0' as int + n % 10) as char]
  }

  lemma {:induction false} DecimalValueOfText(n: nat)
    ensures DecimalValue(DecimalText(n)) == n
  {
    if n >= 10 {
      var t := DecimalText(n / 10);
      var s := DecimalText(n);
      assert s == t + [('0' as int + n % 10) as char];
      assert s[..|s| - 1] == t;
      DecimalValueOfText(n / 10);
    }
  }

  lemma {:induction false} DigitPrefixStopsAtNonDigit(ds: string, rest: string)
    requires forall i :: 0 <= i < |ds| ==> IsDigit(ds[i])
    requires rest == [] || !IsDigit(rest[0])
    ensures DigitPrefix(ds + rest) == ds
  {
    if ds != [] {
      assert (ds + rest)[1..] == ds[1..] + rest;
      DigitPrefixStopsAtNonDigit(ds[1..], rest);
    } else {
      assert ds + rest == rest;
    }
  }

  lemma CastOfDigitLed(u: string)
    requires u != [] && IsDigit(u[0])
    ensures IntCast(u) == DecimalValue(DigitPrefix(u))
  {
    assert !IsWhitespace(u[0]) && u[0] != '-' && u[0] != '+';
    assert SkipWhitespace(u) == u;
  }

  lemma CastOfSigned(sign: char, u: string)
    requires sign == '+' || sign == '-'
    ensures IntCast([sign] + u) == if sign == '-' then -(DecimalValue(DigitPrefix(u)) as int) else DecimalValue(DigitPrefix(u))
  {
    assert SkipWhitespace([sign] + u) == [sign] + u;
    assert ([sign] + u)[1..] == u;
  }

  /** The digits read from a decimal text followed by a non-digit denote the
      number the text was made from. */
  lemma DigitsOfDecimalText(n: nat, rest: string)
    requires rest == [] || !IsDigit(rest[0])
    ensures DigitPrefix(DecimalText(n) + rest) == DecimalText(n)
    ensures DecimalValue(DigitPrefix(DecimalText(n) + rest)) == n
  {
    DigitPrefixStopsAtNonDigit(DecimalText(n), rest);
    DecimalValueOfText(n);
  }

  /** Only a leading minus sign gives a negative value, and a string whose
      first non-blank character is neither a digit nor a sign casts to 0. */
  lemma IntCastSignAndZero(s: string)
    ensures var t := SkipWhitespace(s); t != [] && t[0] == '-' ==> IntCast(s) <= 0
    ensures var t := SkipWhitespace(s); !(t != [] && t[0] == '-') ==> IntCast(s) >= 0
    ensures var t := SkipWhitespace(s); (t == [] || (!IsDigit(t[0]) && t[0] != '-' && t[0] != '+')) ==> IntCast(s) == 0
  {
  }

  /** The cast reads back any decimal integer, and ignores whatever
      non-digit text follows it ("12abc" gives 12). */
  lemma IntCastReadsDecimal(n: nat, rest: string)
    requires rest == [] || !IsDigit(rest[0])
    ensures IntCast(DecimalText(n) + rest) == n
  {
    DigitsOfDecimalText(n, rest);
    CastOfDigitLed(DecimalText(n) + rest);
  }

  /** The same with a leading sign: "+5" gives 5 and "-5" gives -5. */
  lemma IntCastReadsSignedDecimal(sign: char, n: nat, rest: string)
    requires sign == '+' || sign == '-'
    requires rest == [] || !IsDigit(rest[0])
    ensures IntCast([sign] + DecimalText(n) + rest) == if sign == '-' then -(n as int) else n
  {
    var u := DecimalText(n) + rest;
    DigitsOfDecimalText(n, rest);
    assert [sign] + DecimalText(n) + rest == [sign] + u;
    CastOfSigned(sign, u);
  }

  /** Leading whitespace does not change the value. */
  lemma IntCastSkipsWhitespace(w: string, s: string)
    requires forall i :: 0 <= i < |w| ==> IsWhitespace(w[i])
    ensures IntCast(w + s) == IntCast(s)
  {
    SkipBlankPrefix(w, s);
  }

  lemma {:induction false} SkipBlankPrefix(w: string, s: string)
    requires forall i :: 0 <= i < |w| ==> IsWhitespace(w[i])
    ensures SkipWhitespace(w + s) == SkipWhitespace(s)
  {
    if w != [] {
      assert (w + s)[1..] == w[1..] + s;
      SkipBlankPrefix(w[1..], s);
    } else {
      assert w + s == s;
    }
  }
}

/**
 * The few pieces of java.lang text handling the core relies on, restricted to
 * ASCII: String.toLowerCase, String.equalsIgnoreCase, String.lastIndexOf,
 * Long.toString (what `"..." + id` produces) and Long.parseLong.
 */
module JavaText {
  import opened Errors

  const LONG_MAX: int := 0x7fff_ffff_ffff_ffff
  const LONG_MIN: int := -0x8000_0000_0000_0000

  predicate IsLong(n: int) { LONG_MIN <= n <= LONG_MAX }

  predicate IsUpper(c: char) { 'A' <= c <= 'Z' }

  predicate IsDigit(c: char) { '0' <= c <= '9' }

  /** Character.toLowerCase on ASCII; every other character is left alone. */
  function ToLowerChar(c: char): (r: char)
    ensures !IsUpper(r)
    ensures IsUpper(c) ==> r as int == c as int + 32
    ensures !IsUpper(c) ==> r == c
  {
    if IsUpper(c) then (c as int + 32) as char else c
  }

  function ToLower(s: string): (r: string)
    ensures |r| == |s|
    ensures forall i :: 0 <= i < |s| ==> r[i] == ToLowerChar(s[i])
  {
    seq(|s|, i requires 0 <= i < |s| => ToLowerChar(s[i]))
  }

  /** String.equalsIgnoreCase, ASCII case folding. */
  predicate EqualsIgnoreCase(a: string, b: string) {
    ToLower(a) == ToLower(b)
  }

  /** String.lastIndexOf(char): the last position of `c`, or -1. */
  function LastIndexOf(s: string, c: char): (r: int)
    ensures -1 <= r < |s|
    ensures r >= 0 ==> s[r] == c
    ensures forall j :: r < j < |s| ==> s[j] != c
  {
    if s == [] then -1
    else if s[|s| - 1] == c then |s| - 1
    else LastIndexOf(s[..|s| - 1], c)
  }

  predicate AllDigits(s: string) {
    forall i :: 0 <= i < |s| ==> IsDigit(s[i])
  }

  function DigitChar(d: nat): (c: char)
    requires d < 10
    ensures IsDigit(c)
  {
    ('0' as int + d) as char
  }

  /** The decimal digits of a non-negative number, without leading zeros. */
  function Digits(n: nat): (s: string)
    ensures |s| > 0 && AllDigits(s)
    ensures '-' !in s
  {
    if n < 10 then [DigitChar(n)] else Digits(n / 10) + [DigitChar(n % 10)]
  }

  /** Long.toString: an optional minus sign followed by the digits. */
  function LongToString(n: int): string {
    if n >= 0 then Digits(n) else "-" + Digits(-n)
  }

  /** The value of a non-empty string of decimal digits. */
  function DigitsValue(s: string): nat
    requires AllDigits(s)
  {
    if s == [] then 0
    else DigitsValue(s[..|s| - 1]) * 10 + (s[|s| - 1] as int - '0' as int)
  }

  /** Long.parseLong: an optional sign, at least one digit, and a value that
      fits in 64 bits; None where Java throws NumberFormatException. */
  function ParseLong(s: string): (r: Option<int>)
    ensures r.Some? ==> IsLong(r.value)
  {
    if |s| > 0 && (s[0] == '-' || s[0] == '+') then
      var ds := s[1..];
      if |ds| > 0 && AllDigits(ds) then
        var v: int := if s[0] == '-' then 0 - DigitsValue(ds) as int else DigitsValue(ds) as int;
        if IsLong(v) then Some(v) else None
      else None
    else if |s| > 0 && AllDigits(s) && DigitsValue(s) <= LONG_MAX then Some(DigitsValue(s))
    else None
  }

  lemma {:induction false} DigitsValueOfDigits(n: nat)
    ensures DigitsValue(Digits(n)) == n
  {
    if n >= 10 {
      var s := Digits(n);
      assert s[..|s| - 1] == Digits(n / 10);
      DigitsValueOfDigits(n / 10);
    }
  }

  /** Printing a non-negative long and parsing it back gives the number. */
  lemma ParseLongOfDigits(n: nat)
    requires n <= LONG_MAX
    ensures ParseLong(Digits(n)) == Some(n)
  {
    DigitsValueOfDigits(n);
  }

  /** The last '-' of `x + "-" + tail` is the one before `tail` when `tail` has none. */
  lemma LastDashBeforeTail(x: string, tail: string)
    requires '-' !in tail
    ensures LastIndexOf(x + "-" + tail, '-') == |x|
    ensures (x + "-" + tail)[|x| + 1..] == tail
  {
    var s := x + "-" + tail;
    assert s[|x|] == '-';
    assert forall j :: |x| < j < |s| ==> s[j] == tail[j - |x| - 1];
  }
}

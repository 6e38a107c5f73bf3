/** The two integer conversions of Go's `strconv` package that the decoder calls, for base 10. */
module Strconv {
  import opened Results
  import opened Bytes

  /** Go's `uint8`, the width of a pattern strength. */
  type uint8 = x: int | 0 <= x < 256

  const MinInt64: int := -0x8000_0000_0000_0000
  const MaxInt64: int := 0x7FFF_FFFF_FFFF_FFFF

  predicate IsDigit(c: byte)
  {
    '0' <= c <= '9'
  }

  predicate AllDigits(s: seq<byte>)
  {
    forall i :: 0 <= i < |s| ==> IsDigit(s[i])
  }

  /** The value of a string of decimal digits, most significant first (leading zeros allowed). */
  function DecimalValue(s: seq<byte>): nat
    requires AllDigits(s)
    decreases |s|
  {
    if s == [] then 0 else DecimalValue(s[..|s| - 1]) * 10 + (s[|s| - 1] as int - '0' as int)
  }

  /** `strconv.ParseUint(s, 10, 8)`: a non-empty run of decimal digits whose value fits in a byte;
      no sign, no spaces, no underscores. Anything else is a syntax or range error. */
  function ParseUint8(s: seq<byte>): (r: Option<uint8>)
    ensures r.Some? <==> s != [] && AllDigits(s) && DecimalValue(s) < 256
  {
    if s != [] && AllDigits(s) && DecimalValue(s) < 256 then Some(DecimalValue(s)) else None
  }

  /** `strconv.Atoi`: an optional `+` or `-` followed by at least one decimal digit, with a value
      in the range of Go's 64-bit `int`. */
  function Atoi(s: seq<byte>): (r: Option<int>)
    ensures r.Some? ==> MinInt64 <= r.value <= MaxInt64
  {
    if s == [] then None
    else
      var digits := if s[0] == '+' || s[0] == '-' then s[1..] else s;
      if digits == [] || !AllDigits(digits) then None
      else
        var v: int := if s[0] == '-' then -(DecimalValue(digits) as int) else DecimalValue(digits);
        if MinInt64 <= v <= MaxInt64 then Some(v) else None
  }

  /** The canonical decimal spelling of `n`: no sign, no leading zero. */
  function FormatDecimal(n: nat): (r: seq<byte>)
    decreases n
  {
    if n < 10 then [('0' as int + n) as char]
    else FormatDecimal(n / 10) + [('0' as int + n % 10) as char]
  }

  /** The decimal spelling of a signed integer, as `strconv.Itoa` writes it. */
  function FormatInt(n: int): seq<byte>
  {
    if n < 0 then ['-'] + FormatDecimal(-n) else FormatDecimal(n)
  }

  /** A digit string has no leading zero, unless it is the single digit 0. */
  predicate Canonical(s: seq<byte>)
  {
    s != [] && AllDigits(s) && (s[0] != '0' || |s| == 1)
  }

  lemma {:induction false} FormatDecimalCanonical(n: nat)
    ensures Canonical(FormatDecimal(n)) && DecimalValue(FormatDecimal(n)) == n
    decreases n
  {
    if n >= 10 {
      FormatDecimalCanonical(n / 10);
      var s := FormatDecimal(n);
      assert s[..|s| - 1] == FormatDecimal(n / 10);
    }
  }

  lemma {:induction false} CanonicalPositive(s: seq<byte>)
    requires Canonical(s) && s[0] != '0'
    ensures DecimalValue(s) >= 1
    decreases |s|
  {
    if |s| > 1 {
      CanonicalPositive(s[..|s| - 1]);
    }
  }

  lemma {:induction false} CanonicalFormat(s: seq<byte>)
    requires Canonical(s)
    ensures FormatDecimal(DecimalValue(s)) == s
    decreases |s|
  {
    if |s| > 1 {
      var init := s[..|s| - 1];
      CanonicalPositive(init);
      CanonicalFormat(init);
      var d := s[|s| - 1] as int - '0' as int;
      var v := DecimalValue(s);
      assert v == DecimalValue(init) * 10 + d;
      assert v / 10 == DecimalValue(init) && v % 10 == d;
    }
  }

  /** `ParseUint8` accepts a canonical spelling exactly when it is the spelling of a byte value:
      formatting and parsing are inverse on 0..255. */
  lemma ParseUint8Canonical(s: seq<byte>, v: uint8)
    ensures ParseUint8(s) == Some(v) && Canonical(s) <==> s == FormatDecimal(v)
  {
    FormatDecimalCanonical(v);
    if ParseUint8(s) == Some(v) && Canonical(s) {
      CanonicalFormat(s);
    }
  }

  /** `Atoi` reads back every 64-bit integer from its decimal spelling. */
  lemma AtoiFormat(n: int)
    requires MinInt64 <= n <= MaxInt64
    ensures Atoi(FormatInt(n)) == Some(n)
  {
    var s := FormatInt(n);
    if n < 0 {
      FormatDecimalCanonical(-n);
      assert s[1..] == FormatDecimal(-n);
    } else {
      FormatDecimalCanonical(n);
    }
  }
}

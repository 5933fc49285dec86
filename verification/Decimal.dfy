/** Decimal printing (`{}` and `{:0w}`) and integer parsing (`str::parse`, `from_str_radix`). */
module Decimal {
  import opened Strings

  function DigitChar(d: nat): (c: char)
    requires d < 10
  {
    ('0' as int + d) as char
  }

  /** Value of a digit in the given radix, if it is one. */
  function DigitValue(c: char, radix: nat): (r: Option<nat>)
    requires 2 <= radix <= 16
    ensures r.Some? ==> r.value < radix
  {
    var v :=
      if '0' <= c <= '9' then c as int - '0' as int
      else if 'a' <= c <= 'f' then c as int - 'a' as int + 10
      else if 'A' <= c <= 'F' then c as int - 'A' as int + 10
      else 16;
    if v < radix then Some(v) else None
  }

  function Print(n: nat): (s: string)
    ensures |s| >= 1
    ensures forall i | 0 <= i < |s| :: IsDigit(s[i])
  {
    if n < 10 then [DigitChar(n)] else Print(n / 10) + [DigitChar(n % 10)]
  }

  /** `{:0w}`: padded with zeros on the left to at least `w` characters. */
  function Pad(n: nat, w: nat): (s: string)
    ensures |s| >= w
    ensures |s| >= 1
    ensures forall i | 0 <= i < |s| :: IsDigit(s[i])
  {
    var p := Print(n);
    if |p| < w then seq(w - |p|, _ => '0') + p else p
  }

  /** Value of a digit string, most significant digit first; None if some character is no digit. */
  function Digits(s: string, radix: nat): (r: Option<nat>)
    requires 2 <= radix <= 16
  {
    if s == "" then Some(0)
    else
      match (Digits(s[..|s| - 1], radix), DigitValue(s[|s| - 1], radix))
      case (Some(hi), Some(lo)) => Some(hi * radix + lo)
      case _ => None
  }

  /** `parse` of an unsigned integer up to `max`: an optional `+`, then at least one digit. */
  function ParseUnsigned(s: string, radix: nat, max: nat): (r: Option<nat>)
    requires 2 <= radix <= 16
    ensures r.Some? ==> r.value <= max
  {
    var body := if s != "" && s[0] == '+' then s[1..] else s;
    if body == "" then None
    else
      match Digits(body, radix)
      case Some(v) => if v <= max then Some(v) else None
      case None => None
  }

  const I64_MAX: int := 0x7FFF_FFFF_FFFF_FFFF

  /** `str::parse::<i64>`: an optional sign, then at least one digit, in range. */
  function ParseI64(s: string): (r: Option<int>)
    ensures r.Some? ==> -I64_MAX - 1 <= r.value <= I64_MAX
  {
    if s != "" && s[0] == '-' then
      var v := Digits(s[1..], 10);
      if |s| > 1 && v.Some? && v.value <= I64_MAX + 1 then Some(0 - v.value) else None
    else
      var v := ParseUnsigned(s, 10, I64_MAX);
      if v.Some? then Some(v.value) else None
  }

  lemma {:induction false} DigitsPrint(n: nat)
    ensures Digits(Print(n), 10) == Some(n)
  {
    if n < 10 {
      assert Print(n)[..0] == "";
    } else {
      DigitsPrint(n / 10);
      assert Print(n)[..|Print(n)| - 1] == Print(n / 10);
    }
  }

  /** Leading zeros do not change the value. */
  lemma {:induction false} DigitsZeros(z: nat, s: string)
    ensures Digits(seq(z, _ => '0') + s, 10) == Digits(s, 10)
    decreases |s| + z
  {
    var t := seq(z, _ => '0') + s;
    if s != "" {
      assert t[..|t| - 1] == seq(z, _ => '0') + s[..|s| - 1];
      DigitsZeros(z, s[..|s| - 1]);
    } else if z > 0 {
      assert t[..|t| - 1] == seq(z - 1, _ => '0') + "";
      DigitsZeros(z - 1, "");
    }
  }

  /** Parsing what was printed gives the number back, with and without padding. */
  lemma ParsePad(n: nat, w: nat)
    requires n <= I64_MAX
    ensures ParseI64(Pad(n, w)) == Some(n)
  {
    DigitsPrint(n);
    var p := Print(n);
    if |p| < w {
      DigitsZeros(w - |p|, p);
    }
    assert IsDigit(Pad(n, w)[0]);
  }

  /** One sign in front is read as that sign. */
  lemma ParseSigned(n: nat, w: nat)
    requires n <= I64_MAX
    ensures ParseI64("-" + Pad(n, w)) == Some(-(n as int)) && ParseI64("+" + Pad(n, w)) == Some(n)
    ensures ParseUnsigned("+" + Pad(n, w), 10, I64_MAX) == Some(n)
  {
    hide Digits, Pad;
    ParsePad(n, w);
    var d := Pad(n, w);
    assert IsDigit(d[0]) && ("-" + d)[1..] == d && ("+" + d)[1..] == d;
  }

  /** Distinct numbers print differently. */
  lemma PrintInjective(m: nat, n: nat)
    requires Print(m) == Print(n)
    ensures m == n
  {
    DigitsPrint(m);
    DigitsPrint(n);
  }

  function Pow10(w: nat): (p: nat)
    ensures p >= 1
  {
    if w == 0 then 1 else 10 * Pow10(w - 1)
  }

  lemma {:induction false} PrintLength(n: nat, w: nat)
    requires w >= 1
    ensures |Print(n)| <= w <==> n < Pow10(w)
  {
    if n >= 10 {
      if w == 1 {
        assert Pow10(1) == 10 * Pow10(0);
      } else {
        PrintLength(n / 10, w - 1);
        assert n / 10 < Pow10(w - 1) <==> n < 10 * Pow10(w - 1);
      }
    } else {
      assert Pow10(w) == 10 * Pow10(w - 1);
    }
  }
}

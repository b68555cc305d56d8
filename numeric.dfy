/**
 * Unsigned decimal numbers as they travel in `Content-Length`: `str::parse::<usize>()`
 * on a 64-bit target when reading, and `format!("{}", n)` when writing.
 */
module Numeric {

  import opened Wrappers
  import opened Text

  const MINUS: byte := 45
  const ZERO: byte := 48

  /** `usize::MAX` on a 64-bit target; other pointer widths are not modelled. */
  const USIZE_MAX: nat := 0xFFFF_FFFF_FFFF_FFFF

  predicate IsDigit(b: byte)
  {
    ZERO <= b <= ZERO + 9
  }

  predicate AllDigits(s: Str)
  {
    forall i :: 0 <= i < |s| ==> IsDigit(s[i])
  }

  /** The value of a string of decimal digits, most significant first. */
  function DigitsValue(s: Str): nat
    requires AllDigits(s)
  {
    if s == [] then 0 else 10 * DigitsValue(s[..|s| - 1]) + (s[|s| - 1] - ZERO)
  }

  /**
   * `str::parse::<usize>()`: an optional leading `+`, then at least one decimal
   * digit and nothing else, and a value no larger than `usize::MAX`.
   */
  function ParseUsize(s: Str): Option<nat>
  {
    var digits := if s != [] && s[0] == PLUS then s[1..] else s;
    if digits == [] || !AllDigits(digits) then None
    else
      var v := DigitsValue(digits);
      if v <= USIZE_MAX then Some(v) else None
  }

  /** `format!("{}", n)`: the shortest decimal representation of `n`. */
  function Decimal(n: nat): (d: Str)
    ensures d != [] && AllDigits(d) && IsText(d)
    ensures n > 0 ==> d[0] != ZERO
  {
    if n < 10 then [ZERO + n] else Decimal(n / 10) + [ZERO + n % 10]
  }

  lemma {:induction false} DigitsValueOfDecimal(n: nat)
    ensures DigitsValue(Decimal(n)) == n
  {
    if n >= 10 {
      var d := Decimal(n);
      assert d[..|d| - 1] == Decimal(n / 10);
      DigitsValueOfDecimal(n / 10);
    }
  }

  /** Reading back what the response builder writes gives the number written, and a leading `+` is accepted. */
  lemma ParseDecimal(n: nat)
    requires n <= USIZE_MAX
    ensures ParseUsize(Decimal(n)) == Some(n)
    ensures ParseUsize([PLUS] + Decimal(n)) == Some(n)
  {
    DigitsValueOfDecimal(n);
    assert ([PLUS] + Decimal(n))[1..] == Decimal(n);
  }

  /** Values past `usize::MAX` do not parse. */
  lemma ParseOverflow(n: nat)
    requires n > USIZE_MAX
    ensures ParseUsize(Decimal(n)) == None
  {
    DigitsValueOfDecimal(n);
  }

  /** Every parsed value fits in a `usize`, and a sign `-`, an empty string or a lone `+` never parse. */
  lemma ParseUsizeRejects(s: Str)
    ensures ParseUsize(s).Some? ==> ParseUsize(s).value <= USIZE_MAX
    ensures s == [] || s == [PLUS] ==> ParseUsize(s) == None
    ensures s != [] && s[0] == MINUS ==> ParseUsize(s) == None
  {
  }
}

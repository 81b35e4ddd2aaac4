/** Decimal text of 64-bit integers, as the store writes and reads it. */
module Decimal {
  import opened Ratelimit

  const INT64_MIN := -0x8000_0000_0000_0000
  const INT64_MAX := 0x7fff_ffff_ffff_ffff

  predicate IsInt64(v: int) {
    INT64_MIN <= v <= INT64_MAX
  }

  function Digits(n: nat): (s: string)
    ensures s != []
    ensures forall i | 0 <= i < |s| :: '0' <= s[i] <= '9'
  {
    if n < 10 then [(n + '0' as int) as char]
    else Digits(n / 10) + [(n % 10 + '0' as int) as char]
  }

  /** Base-10 text with a leading '-' for negative values. */
  function FormatInt(v: int): string {
    if v < 0 then "-" + Digits(-v) else Digits(v)
  }

  /** The value of a string of digits; `None` if some character is not one. */
  function Value(s: string): Option<nat> {
    if s == [] then Some(0)
    else
      var c := s[|s| - 1];
      var high := Value(s[..|s| - 1]);
      if high.Some? && '0' <= c <= '9' then Some(10 * high.value + (c as int - '0' as int)) else None
  }

  /** Accepts an optional sign and at least one digit, within 64 bits. */
  function ParseInt(s: string): Option<int> {
    if s == [] then None
    else
      var signed := s[0] == '-' || s[0] == '+';
      var digits := if signed then s[1..] else s;
      var v := Value(digits);
      if digits == [] || v.None? then None
      else
        var magnitude: int := v.value;
        var r := if s[0] == '-' then -magnitude else magnitude;
        if IsInt64(r) then Some(r) else None
  }

  lemma {:induction false} ValueOfDigits(n: nat)
    ensures Value(Digits(n)) == Some(n)
  {
    if n >= 10 {
      ValueOfDigits(n / 10);
      var s := Digits(n);
      assert s[..|s| - 1] == Digits(n / 10);
    } else {
      var s := Digits(n);
      assert s[..|s| - 1] == [];
      assert Value([]) == Some(0);
    }
  }

  /** Reading back what was written: the number if it has 64 bits, and otherwise none. */
  lemma ParseFormat(v: int)
    ensures ParseInt(FormatInt(v)) == if -0x8000_0000_0000_0000 <= v < 0x8000_0000_0000_0000 then Some(v) else None
  {
    hide Value, Digits;
    ValueOfDigits(if v < 0 then -v else v);
    if v < 0 {
      assert FormatInt(v)[1..] == Digits(-v);
    }
  }

  /** Written numbers contain only digits and '-', and start with '-' only if
      negative. */
  lemma FormatAlphabet(v: int)
    ensures FormatInt(v) != []
    ensures forall i | 0 <= i < |FormatInt(v)| :: FormatInt(v)[i] == '-' || '0' <= FormatInt(v)[i] <= '9'
    ensures v >= 0 ==> forall i | 0 <= i < |FormatInt(v)| :: FormatInt(v)[i] != '-'
  {
  }
}

/** Decimal text of non-negative integers, as i64 values are printed and parsed. */
module Decimal {
  import opened Prelude

  const I64_MAX: int := 0x7FFF_FFFF_FFFF_FFFF

  predicate Digit(c: char) {
    '0' <= c <= '9'
  }

  predicate Digits(s: string) {
    forall i :: 0 <= i < |s| ==> Digit(s[i])
  }

  function ToText(n: nat): (s: string)
    ensures |s| >= 1 && Digits(s)
  {
    var last := ('0' as int + n % 10) as char;
    if n < 10 then [last] else ToText(n / 10) + [last]
  }

  /** Value of a text of digits. */
  function Value(s: string): nat
    requires Digits(s)
  {
    if s == "" then 0 else Value(s[..|s| - 1]) * 10 + (s[|s| - 1] as int - '0' as int)
  }

  /** `str::parse::<i64>` on a text that was already checked to be digits only. */
  function ParseI64(s: string): Option<int>
    requires Digits(s)
  {
    if s == "" || Value(s) > I64_MAX then None else Some(Value(s))
  }

  lemma {:induction false} ValueOfText(n: nat)
    ensures Value(ToText(n)) == n
    ensures n > 0 ==> ToText(n)[0] != '0'
  {
    if n >= 10 {
      ValueOfText(n / 10);
      assert ToText(n)[..|ToText(n)| - 1] == ToText(n / 10);
    }
  }

  function PowerOfTen(k: nat): (p: int)
    ensures p >= 1
  {
    if k == 0 then 1 else 10 * PowerOfTen(k - 1)
  }

  lemma {:induction false} TextLength(n: nat, k: nat)
    requires k >= 1 && n < PowerOfTen(k)
    ensures |ToText(n)| <= k
  {
    if n >= 10 {
      TextLength(n / 10, k - 1);
    }
  }

  lemma I64Length(n: nat)
    requires n <= I64_MAX + 1
    ensures |ToText(n)| <= 19
  {
    assert PowerOfTen(9) == 1_000_000_000;
    assert PowerOfTen(19) == 10 * PowerOfTen(18) && PowerOfTen(18) == 10 * PowerOfTen(17);
    assert PowerOfTen(17) == 10 * PowerOfTen(16);
    assert PowerOfTen(16) == 10 * PowerOfTen(15) && PowerOfTen(15) == 10 * PowerOfTen(14);
    assert PowerOfTen(14) == 10 * PowerOfTen(13);
    assert PowerOfTen(13) == 10 * PowerOfTen(12) && PowerOfTen(12) == 10 * PowerOfTen(11);
    assert PowerOfTen(11) == 10 * PowerOfTen(10);
    TextLength(n, 19);
  }

  /** Each digit counts ten times the one after it. */
  lemma {:induction false} PlaceValue(d: char, rest: string)
    requires Digit(d) && Digits(rest)
    ensures Digits([d] + rest) && Value([d] + rest) == (d as int - '0' as int) * PowerOfTen(|rest|) + Value(rest)
  {
    var s := [d] + rest;
    if rest == "" {
      assert s == [d] && s[..0] == "";
    } else {
      var front, last := rest[..|rest| - 1], rest[|rest| - 1];
      PlaceValue(d, front);
      assert s[..|s| - 1] == [d] + front && s[|s| - 1] == last;
      LongerPlace(d as int - '0' as int, |front|);
      hide PowerOfTen;
    }
  }

  lemma LongerPlace(d: int, k: nat)
    ensures d * PowerOfTen(k + 1) == d * PowerOfTen(k) * 10
  {
    var p := PowerOfTen(k);
    assert PowerOfTen(k + 1) == 10 * p;
    hide PowerOfTen;
  }

  /** A text of digits without a leading zero is the text of its value. */
  lemma {:induction false} TextOfValue(s: string)
    requires s != "" && Digits(s) && (|s| > 1 ==> s[0] != '0')
    ensures ToText(Value(s)) == s && (s[0] != '0' ==> Value(s) > 0)
  {
    var init, last := s[..|s| - 1], s[|s| - 1];
    assert s == init + [last];
    if init != "" {
      TextOfValue(init);
    }
  }
}

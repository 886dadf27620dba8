/** Non-negative integers as decimal text. */
module Decimal {
  import opened Prelude

  predicate IsDigit(c: char) {
    '0' <= c <= '9'
  }

  predicate AllDigits(s: string) {
    forall i :: 0 <= i < |s| ==> IsDigit(s[i])
  }

  function Digit(d: nat): (c: char)
    requires d < 10
    ensures IsDigit(c)
  {
    '0' + d as char
  }

  /** The usual decimal form, without leading zeros. */
  function Show(n: nat): (s: string)
    ensures s != "" && AllDigits(s)
  {
    if n < 10 then [Digit(n)] else Show(n / 10) + [Digit(n % 10)]
  }

  function Value(s: string): nat
    requires AllDigits(s)
  {
    if s == "" then 0
    else 10 * Value(s[..|s| - 1]) + ((s[|s| - 1] as int) - ('0' as int))
  }

  lemma {:induction false} ShowValue(n: nat)
    ensures Value(Show(n)) == n
  {
    if n >= 10 {
      ShowValue(n / 10);
      assert Show(n)[..|Show(n)| - 1] == Show(n / 10);
    } else {
      assert Show(n)[..0] == "";
    }
  }

  /** How many characters at the front of `s` are digits. */
  function DigitRun(s: string): (k: nat)
    ensures k <= |s| && AllDigits(s[..k]) && (k < |s| ==> !IsDigit(s[k]))
  {
    if s == "" || !IsDigit(s[0]) then 0
    else
      var k := DigitRun(s[1..]);
      assert s[..k + 1] == [s[0]] + s[1..][..k];
      k + 1
  }

  lemma {:induction false} DigitRunOf(a: string, b: string)
    requires AllDigits(a) && (b == "" || !IsDigit(b[0]))
    ensures DigitRun(a + b) == |a|
  {
    if a == "" {
      assert a + b == b;
    } else {
      DigitRunOf(a[1..], b);
      assert (a + b)[1..] == a[1..] + b;
    }
  }

  lemma {:induction false} DigitRunAll(s: string)
    ensures DigitRun(s) == |s| <==> AllDigits(s)
  {
    assert s[..|s|] == s;
  }

  /** `parseInt(s, 10)` on text that does not start with a sign or a space. */
  function ParseInt(s: string): Option<nat> {
    var k := DigitRun(s);
    if k == 0 then None else Some(Value(s[..k]))
  }

  lemma ParseShown(n: nat)
    ensures ParseInt(Show(n)) == Some(n)
  {
    DigitRunOf(Show(n), "");
    assert Show(n) + "" == Show(n);
    assert Show(n)[..|Show(n)|] == Show(n);
    ShowValue(n);
  }

  /** Most significant digit first. */
  lemma ShownDigits()
    ensures Show(0) == "0" && Show(7) == "7" && Show(1024) == "1024"
  {
    assert Show(1) == "1" && Show(10) == "10" && Show(102) == "102";
  }
}

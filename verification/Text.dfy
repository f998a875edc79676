/** Decimal numbers as text, the way template strings print them and Number reads them back. */
module Text {
  import opened Wrappers

  predicate IsDigit(c: char) {
    '0' <= c <= '9'
  }

  function Digit(n: nat): (c: char)
    requires n < 10
    ensures IsDigit(c)
  {
    ('0' as int + n) as char
  }

  function Value(c: char): (n: nat)
    requires IsDigit(c)
    ensures n < 10 && Digit(n) == c
  {
    c as int - '0' as int
  }

  function Dec(n: nat): string {
    if n < 10 then [Digit(n)] else Dec(n / 10) + [Digit(n % 10)]
  }

  predicate AllDigits(s: string) {
    forall i :: 0 <= i < |s| ==> IsDigit(s[i])
  }

  /** The number a run of digits denotes. */
  function Number(s: string): nat
    requires AllDigits(s)
  {
    if s == "" then 0 else 10 * Number(s[..|s| - 1]) + Value(s[|s| - 1])
  }

  function ParseDec(s: string): Option<nat> {
    if s != "" && AllDigits(s) then Some(Number(s)) else None
  }

  lemma {:induction false} DecRoundTrip(n: nat)
    ensures Dec(n) != "" && AllDigits(Dec(n)) && Number(Dec(n)) == n
    ensures ParseDec(Dec(n)) == Some(n)
  {
    if n < 10 {
      assert Dec(n)[..0] == "";
      assert Number(Dec(n)[..0]) == 0;
    } else {
      DecRoundTrip(n / 10);
      assert Dec(n)[..|Dec(n)| - 1] == Dec(n / 10);
    }
  }

  lemma {:induction false} DecInjective(m: nat, n: nat)
    requires Dec(m) == Dec(n)
    ensures m == n
  {
    DecRoundTrip(m);
    DecRoundTrip(n);
  }

  /** Two digits, zero-padded. */
  function Pad(n: nat): string {
    if n < 10 then "0" + Dec(n) else Dec(n)
  }

  lemma {:induction false} PadRoundTrip(n: nat)
    requires n < 100
    ensures |Pad(n)| == 2 && AllDigits(Pad(n)) && Number(Pad(n)) == n && ParseDec(Pad(n)) == Some(n)
  {
    DecRoundTrip(n);
    if n < 10 {
      var s := Pad(n);
      assert s[..1] == "0" && s[..1][..0] == "";
      assert Number(s[..1]) == 0;
    } else {
      assert Dec(n) == [Digit(n / 10)] + [Digit(n % 10)];
    }
  }

  lemma {:induction false} DecOfFour(n: nat)
    requires 1000 <= n <= 9999
    ensures |Dec(n)| == 4
  {
    assert Dec(n / 1000) == [Digit(n / 1000)];
    assert |Dec(n / 100)| == 2;
    assert |Dec(n / 10)| == 3;
  }
}

/** Numbers in decimal, as strconv.Itoa and fmt's %d write them. */
module Decimal {

  predicate IsDigit(ch: char) {
    '0' <= ch <= '9'
  }

  function Digit(d: nat): (ch: char)
    requires d < 10
    ensures IsDigit(ch) && ch as int - '0' as int == d
  {
    ('0' as int + d) as char
  }

  function Itoa(n: nat): (s: string)
    ensures s != [] && forall k :: 0 <= k < |s| ==> IsDigit(s[k])
  {
    if n < 10 then [Digit(n)] else Itoa(n / 10) + [Digit(n % 10)]
  }

  /** %d of a number that may be negative. */
  function Signed(n: int): (s: string)
    ensures s != [] && forall k :: 0 <= k < |s| ==> IsDigit(s[k]) || s[k] == '-'
  {
    if n < 0 then "-" + Itoa(-n) else Itoa(n)
  }

  lemma {:induction false} OneNumber(m: nat, n: nat)
    requires Itoa(m) == Itoa(n)
    ensures m == n
  {
    var s, l := Itoa(m), |Itoa(m)| - 1;
    assert s[l] == Digit(m % 10) == Digit(n % 10);
    assert |s| == 1 <==> m < 10;
    assert |s| == 1 <==> n < 10;
    if m >= 10 {
      assert s[..l] == Itoa(m / 10) == Itoa(n / 10);
      OneNumber(m / 10, n / 10);
    }
  }

  lemma Minus(n: int)
    ensures Signed(n)[0] == '-' <==> n < 0
  {
    if n >= 0 {
      assert IsDigit(Itoa(n)[0]);
    }
  }

  lemma OneSigned(m: int, n: int)
    requires Signed(m) == Signed(n)
    ensures m == n
  {
    Minus(m);
    Minus(n);
    if m < 0 {
      assert Signed(m)[1..] == Itoa(-m) && Signed(n)[1..] == Itoa(-n);
      OneNumber(-m, -n);
    } else {
      OneNumber(m, n);
    }
  }
}

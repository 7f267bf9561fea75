/** Decimal rendering of integers as Python's format mini-language does it for the
    `02d` specification (zero-filled, width 2, sign first), together with a reader
    that turns such text back into the integer it shows. */
module PyFormat {

  predicate IsDigit(c: char) { '0' <= c <= '9' }

  predicate AllDigits(s: string) { forall i :: 0 <= i < |s| ==> IsDigit(s[i]) }

  function DigitValue(c: char): int { c as int - '0' as int }

  function DigitChar(d: nat): (c: char)
    requires d < 10
    ensures IsDigit(c) && DigitValue(c) == d
  {
    "0123456789"[d]
  }

  /** The value of a string of decimal digits, most significant first. */
  function NatValue(s: string): int
  {
    if s == [] then 0 else NatValue(s[..|s| - 1]) * 10 + DigitValue(s[|s| - 1])
  }

  /** The value of a decimal numeral with an optional leading minus sign. */
  function ValueOf(s: string): int
  {
    if |s| > 0 && s[0] == '-' then -NatValue(s[1..]) else NatValue(s)
  }

  /** Decimal digits of `n` without leading zeros, as Python's `str(n)` gives them. */
  function Digits(n: nat): (r: string)
    ensures 1 <= |r| && AllDigits(r)
    ensures 1 < |r| ==> r[0] != '0'
    ensures (|r| == 1) == (n < 10) && (|r| == 2) == (10 <= n < 100)
    ensures NatValue(r) == n
    decreases n
  {
    if n < 10 then [DigitChar(n)]
    else
      var r := Digits(n / 10) + [DigitChar(n % 10)];
      assert r[..|r| - 1] == Digits(n / 10);
      r
  }

  /** `f"{n:02d}"`: a non-negative value is zero-filled to two digits; a negative
      value is a minus sign followed by its digits, already two characters wide. */
  function Pad2(n: int): (r: string)
    ensures ValueOf(r) == n
    ensures 2 <= |r|
    ensures 0 <= n < 100 ==> |r| == 2
    ensures 0 <= n ==> AllDigits(r)
    ensures n < 0 ==> r[0] == '-' && AllDigits(r[1..])
    ensures 10 <= n ==> r[0] != '0'
    ensures n < 0 ==> r[1] != '0'
  {
    if n < 0 then
      var r := "-" + Digits(-n);
      assert r[1..] == Digits(-n);
      assert r[1] == Digits(-n)[0];
      r
    else if n < 10 then
      var r := "0" + Digits(n);
      assert r[..1] == "0";
      assert NatValue(r[..1]) == 0 by { assert r[..1][..0] == []; }
      r
    else Digits(n)
  }

  /** `02d` on a few values: zero-filled below 10, exact from 100 on, sign first. */
  lemma Pad2Examples()
    ensures Pad2(0) == "00" && Pad2(7) == "07" && Pad2(59) == "59" && Pad2(99) == "99"
    ensures Pad2(100) == "100" && Pad2(-7) == "-7" && Pad2(-10) == "-10"
  {
    assert DigitChar(0) == '0' && DigitChar(1) == '1' && DigitChar(5) == '5';
    assert DigitChar(7) == '7' && DigitChar(9) == '9';
    assert Digits(10) == "10";
    assert Digits(100) == Digits(10) + "0";
    assert Digits(59) == Digits(5) + "9";
    assert Digits(99) == Digits(9) + "9";
  }

  /** The two-digit rendering of 0..99: tens digit, then units digit. */
  lemma Pad2TwoDigits(n: int)
    requires 0 <= n < 100
    ensures Pad2(n) == [DigitChar(n / 10), DigitChar(n % 10)]
  {
    if n < 10 {
      assert DigitChar(0) == '0';
    } else {
      assert Digits(n / 10) == [DigitChar(n / 10)];
    }
  }

  /** Python's `<` on strings: code-point order, and a proper prefix sorts first. */
  predicate LexLess(x: string, y: string)
  {
    y != [] && (x == [] || x[0] < y[0] || (x[0] == y[0] && LexLess(x[1..], y[1..])))
  }

  /** Comparing two texts made of equally long heads: the heads decide, and the tails
      decide only when the heads are equal. */
  lemma {:induction false} LexLessConcat(p: string, q: string, p': string, q': string)
    requires |p| == |p'|
    ensures LexLess(p + q, p' + q') <==> LexLess(p, p') || (p == p' && LexLess(q, q'))
    decreases |p|
  {
    if p == [] {
      assert p + q == q && p' + q' == q';
    } else {
      assert (p + q)[0] == p[0] && (p' + q')[0] == p'[0];
      assert (p + q)[1..] == p[1..] + q && (p' + q')[1..] == p'[1..] + q';
      LexLessConcat(p[1..], q, p'[1..], q');
      assert p == [p[0]] + p[1..] && p' == [p'[0]] + p'[1..];
    }
  }

  /** Two-character texts compare on the first character, then on the second. */
  lemma LexLessPair(a0: char, a1: char, b0: char, b1: char)
    ensures LexLess([a0, a1], [b0, b1]) <==> a0 < b0 || (a0 == b0 && a1 < b1)
  {
    assert [a0, a1][1..] == [a1] && [b0, b1][1..] == [b1];
    assert [a1][1..] == [] && [b1][1..] == [];
    assert !LexLess([], []);
  }

  /** Zero-filled two-digit numerals compare as strings exactly as the numbers do. */
  lemma Pad2Order(x: int, y: int)
    requires 0 <= x < 100 && 0 <= y < 100
    ensures LexLess(Pad2(x), Pad2(y)) <==> x < y
    ensures Pad2(x) == Pad2(y) <==> x == y
  {
    var tx, ux, ty, uy := x / 10, x % 10, y / 10, y % 10;
    assert x == 10 * tx + ux && y == 10 * ty + uy;
    assert x < y <==> tx < ty || (tx == ty && ux < uy);
    Pad2TwoDigits(x);
    Pad2TwoDigits(y);
    LexLessPair(DigitChar(tx), DigitChar(ux), DigitChar(ty), DigitChar(uy));
  }
}

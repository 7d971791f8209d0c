/** Decimal numerals as Go's `strconv.Itoa`, `strconv.Atoi` and `time.Format` write and read them. */
module Decimals {
  import opened Wrappers
  import opened Lex

  predicate IsDigit(c: char) {
    '0' <= c <= '9'
  }

  function DigitOf(d: nat): (c: char)
    requires d < 10
    ensures IsDigit(c) && DigitValue(c) == d
  {
    '0' + d as char
  }

  function DigitValue(c: char): (d: nat)
    requires IsDigit(c)
    ensures d < 10
  {
    c as int - '0' as int
  }

  predicate AllDigits(s: string) {
    forall i :: 0 <= i < |s| ==> IsDigit(s[i])
  }

  function Number(s: string): nat
    requires AllDigits(s)
  {
    if s == "" then 0 else 10 * Number(s[..|s| - 1]) + DigitValue(s[|s| - 1])
  }

  /** `strconv.Itoa` for numbers that are not negative. */
  function Itoa(n: nat): (s: string)
    ensures s != "" && AllDigits(s) && Number(s) == n
    ensures s[0] == '0' ==> n == 0 && s == "0"
  {
    if n < 10 then [DigitOf(n)]
    else
      var front := Itoa(n / 10);
      assert (front + [DigitOf(n % 10)])[..|front|] == front;
      front + [DigitOf(n % 10)]
  }

  /** Without a leading zero, a numeral is the only one of its number. */
  lemma {:induction false} ItoaOfNumber(s: string)
    requires s != "" && AllDigits(s) && s[0] != '0'
    ensures Itoa(Number(s)) == s
    ensures Number(s) > 0
  {
    if |s| == 1 {
      assert s == [s[0]] && s[..0] == "";
    } else {
      var front := s[..|s| - 1];
      ItoaOfNumber(front);
      assert Number(s) / 10 == Number(front) && Number(s) % 10 == DigitValue(s[|s| - 1]);
      assert s == front + [s[|s| - 1]];
    }
  }

  /** The last `width` digits, padded with zeros on the left. */
  function Padded(n: nat, width: nat): (s: string)
    ensures |s| == width && AllDigits(s)
  {
    if width == 0 then "" else Padded(n / 10, width - 1) + [DigitOf(n % 10)]
  }

  function Power(width: nat): (p: nat)
    ensures p > 0
  {
    if width == 0 then 1 else 10 * Power(width - 1)
  }

  lemma {:induction false} NumberOfPadded(n: nat, width: nat)
    requires n < Power(width)
    ensures Number(Padded(n, width)) == n
  {
    if width > 0 {
      var front, last := n / 10, n % 10;
      assert n == 10 * front + last && Power(width) == 10 * Power(width - 1);
      assert front < Power(width - 1);
      NumberOfPadded(front, width - 1);
      assert Padded(n, width)[..width - 1] == Padded(n / 10, width - 1);
    }
  }

  lemma {:induction false} PaddedOfNumber(s: string)
    requires AllDigits(s)
    ensures Number(s) < Power(|s|) && Padded(Number(s), |s|) == s
  {
    if s != "" {
      var front := s[..|s| - 1];
      PaddedOfNumber(front);
      assert Number(s) / 10 == Number(front) && Number(s) % 10 == DigitValue(s[|s| - 1]);
      assert s == front + [s[|s| - 1]];
    }
  }

  /** Numerals of one width compare as strings the way their numbers compare. */
  lemma {:induction false} FixedWidthOrder(a: string, b: string)
    requires |a| == |b| && AllDigits(a) && AllDigits(b)
    ensures Less(a, b) <==> Number(a) < Number(b)
    ensures a == b <==> Number(a) == Number(b)
  {
    if a != "" {
      var last := |a| - 1;
      FixedWidthOrder(a[..last], b[..last]);
      FieldByField(a[..last], b[..last], [a[last]], [b[last]]);
      assert a == a[..last] + [a[last]] && b == b[..last] + [b[last]];
      assert Less([a[last]], [b[last]]) <==> DigitValue(a[last]) < DigitValue(b[last]);
    }
  }

  lemma PaddedOrder(m: nat, n: nat, width: nat)
    requires m < Power(width) && n < Power(width)
    ensures Less(Padded(m, width), Padded(n, width)) <==> m < n
    ensures Padded(m, width) == Padded(n, width) <==> m == n
  {
    NumberOfPadded(m, width);
    NumberOfPadded(n, width);
    FixedWidthOrder(Padded(m, width), Padded(n, width));
  }

  const MAX_INT: nat := 0x7FFF_FFFF_FFFF_FFFF

  /** `strconv.Atoi` of a 64-bit platform: an optional sign, digits, and nothing else. */
  function Atoi(s: string): Option<int> {
    var digits := if s != "" && (s[0] == '-' || s[0] == '+') then s[1..] else s;
    if digits == "" || !AllDigits(digits) then None
    else if s[0] == '-' then
      var value: int := Number(digits);
      if value <= MAX_INT + 1 then Some(-value) else None
    else if Number(digits) <= MAX_INT then Some(Number(digits))
    else None
  }
}

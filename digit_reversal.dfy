/** The signed digit reversal written inline at the start of `main`: take the
    sign of `x`, print `|x|` in decimal, reverse the characters, parse them
    back as an `i32` (0 when that fails) and put the sign back. */
module DigitReversal {
  import opened Int32
  import opened Options
  import opened Sequences

  predicate IsDigit(c: char) {
    '0' <= c <= '9'
  }

  predicate AllDigits(s: string) {
    forall i :: 0 <= i < |s| ==> IsDigit(s[i])
  }

  /** What `to_string` prints for a non-negative number: at least one digit,
      and no leading zero unless the number is 0 itself. */
  predicate Canonical(s: string) {
    |s| > 0 && AllDigits(s) && (|s| > 1 ==> s[0] != '0')
  }

  function CharValue(c: char): (d: nat)
    requires IsDigit(c)
    ensures d < 10
  {
    c as int - '0' as int
  }

  function DigitChar(d: nat): (c: char)
    requires d < 10
    ensures IsDigit(c) && CharValue(c) == d
  {
    ('0' as int + d) as char
  }

  /** `n.to_string()` for `n >= 0`: the decimal digits, most significant first. */
  function ToDecimal(n: nat): (s: string)
    ensures Canonical(s)
    ensures s[|s| - 1] == DigitChar(n % 10)
    ensures s[0] != '0' <==> n > 0
  {
    if n < 10 then [DigitChar(n)] else ToDecimal(n / 10) + [DigitChar(n % 10)]
  }

  /** The digit loop of `str::parse`: starting from `acc`, each digit in turn
      gives `acc * 10 + digit`. */
  function Accumulate(acc: nat, s: string): (r: nat)
    requires AllDigits(s)
    ensures r >= acc
    ensures s != [] ==> r >= acc * 10 + CharValue(s[0])
    decreases |s|
  {
    if s == [] then acc else Accumulate(acc * 10 + CharValue(s[0]), s[1..])
  }

  /** `s.parse::<i32>()`: an optional `+` or `-`, then one or more decimal
      digits whose value must fit in `i32`. The empty string, a lone sign,
      any other character and an out-of-range value are errors; the source
      only distinguishes success from failure, so the error kind is dropped. */
  function ParseI32(s: string): (r: Option<i32>)
    ensures r.Some? ==> s != [] && s != "+" && s != "-"
    ensures r.Some? ==>
      AllDigits(s) || (|s| > 1 && (s[0] == '+' || s[0] == '-') && AllDigits(s[1..]))
    ensures AllDigits(s) && s != [] ==>
      (r.Some? <==> Accumulate(0, s) <= I32_MAX) &&
      (r.Some? ==> r.value as int == Accumulate(0, s))
    ensures |s| > 1 && s[0] == '+' && AllDigits(s[1..]) ==>
      (r.Some? <==> Accumulate(0, s[1..]) <= I32_MAX) &&
      (r.Some? ==> r.value as int == Accumulate(0, s[1..]))
    ensures |s| > 1 && s[0] == '-' && AllDigits(s[1..]) ==>
      (r.Some? <==> Accumulate(0, s[1..]) <= -I32_MIN) &&
      (r.Some? ==> r.value as int == -(Accumulate(0, s[1..]) as int))
  {
    if s == [] then None
    else if (s[0] == '+' || s[0] == '-') && |s| == 1 then None
    else
      var negative := s[0] == '-';
      var digits := if s[0] == '+' || s[0] == '-' then s[1..] else s;
      if !AllDigits(digits) then None
      else
        var v: int := if negative then -(Accumulate(0, digits) as int) else Accumulate(0, digits);
        if I32_MIN <= v <= I32_MAX then Some(v as i32) else None
  }

  function Sign(x: i32): (r: i32)
    ensures r == -1 || r == 1
    ensures r < 0 <==> x < 0
  {
    if x < 0 then -1 else 1
  }

  /** Multiplying by a sign is negation or nothing. */
  lemma TimesSign(a: int, sign: int)
    requires sign == -1 || sign == 1
    ensures a * sign == if sign == 1 then a else -a
  {
  }

  /** The reversal pipeline of `main`, with `x` as its input. `i32::MIN.abs()`
      overflows, so that one value is excluded. */
  function ReverseInt(x: i32): (r: i32)
    requires x != I32_MIN as i32
    ensures r == 0 || (r < 0 <==> x < 0)
  {
    var sign := Sign(x);
    var xstr := ToDecimal(Abs(x) as nat);
    var srev := Reverse(xstr);  // chars().rev().collect::<String>()
    ParseReversedDigits(Abs(x) as nat);
    match ParseI32(srev)
    case Some(num) => TimesSign(num as int, sign as int); num * sign
    case None => 0
  }

  // ---------------------------------------------------------------------
  // An arithmetic reference for the reversal, and the lemmas tying the
  // string pipeline to it.

  /** Moves the decimal digits of `n`, least significant first, onto `acc`. */
  function RevAcc(n: nat, acc: nat): nat
    decreases n
  {
    if n == 0 then acc else RevAcc(n / 10, acc * 10 + n % 10)
  }

  /** The number whose decimal digits are those of `n` in reverse order
      (leading zeros of the reversal dropped). */
  function ReverseNumber(n: nat): nat {
    RevAcc(n, 0)
  }

  lemma {:induction false} AccumulateSnoc(acc: nat, s: string, c: char)
    requires AllDigits(s) && IsDigit(c)
    ensures AllDigits(s + [c])
    ensures Accumulate(acc, s + [c]) == Accumulate(acc, s) * 10 + CharValue(c)
    decreases |s|
  {
    if s == [] {
      assert [] + [c] == [c];
    } else {
      assert (s + [c])[1..] == s[1..] + [c];
      AccumulateSnoc(acc * 10 + CharValue(s[0]), s[1..], c);
    }
  }

  /** Parsing the digits that `to_string` prints gives the number back. */
  lemma {:induction false} ToDecimalValue(n: nat)
    ensures Accumulate(0, ToDecimal(n)) == n
    decreases n
  {
    if n >= 10 {
      ToDecimalValue(n / 10);
      AccumulateSnoc(0, ToDecimal(n / 10), DigitChar(n % 10));
    }
  }

  /** Printing the value of a canonical digit string gives the string back. */
  lemma {:induction false} CanonicalValue(s: string)
    requires Canonical(s)
    ensures ToDecimal(Accumulate(0, s)) == s
    decreases |s|
  {
    var c := s[|s| - 1];
    if |s| == 1 {
      assert DigitChar(CharValue(c)) == c;
      assert s == [] + [c];
      AccumulateSnoc(0, [], c);
    } else {
      var t := s[..|s| - 1];
      assert s == t + [c];
      assert t[0] == s[0];
      CanonicalValue(t);
      AccumulateSnoc(0, t, c);
      var a := Accumulate(0, t);
      assert a > 0;
      var v := a * 10 + CharValue(c);
      assert v / 10 == a && v % 10 == CharValue(c);
      assert DigitChar(CharValue(c)) == c;
    }
  }

  lemma ReverseAllDigits(s: string)
    requires AllDigits(s)
    ensures AllDigits(Reverse(s))
  {
  }

  /** Parsing the reversed decimal string of `n` is the arithmetic reversal. */
  lemma {:induction false} ReversedDigitsValue(n: nat, acc: nat)
    requires n >= 1 || acc == 0
    ensures AllDigits(Reverse(ToDecimal(n)))
    ensures Accumulate(acc, Reverse(ToDecimal(n))) == RevAcc(n, acc)
    decreases n
  {
    var s := ToDecimal(n);
    var d := DigitChar(n % 10);
    ReverseAllDigits(s);
    if n < 10 {
      assert s == [d];
      assert Reverse(s) == [d] + [];
      AccumulateCons(acc, d, []);
    } else {
      var t := Reverse(ToDecimal(n / 10));
      ReverseSnoc(ToDecimal(n / 10), d);
      ReversedDigitsValue(n / 10, acc * 10 + n % 10);
      AccumulateCons(acc, d, t);
    }
  }

  lemma AccumulateCons(acc: nat, c: char, t: string)
    requires IsDigit(c) && AllDigits(t)
    ensures AllDigits([c] + t)
    ensures Accumulate(acc, [c] + t) == Accumulate(acc * 10 + CharValue(c), t)
  {
  }

  /** Parsing the reversed decimal string of `n` succeeds exactly when the
      arithmetic reversal of `n` fits in `i32`, and then yields it. */
  lemma ParseReversedDigits(n: nat)
    ensures var m := ReverseNumber(n);
      ParseI32(Reverse(ToDecimal(n))) == if m <= I32_MAX then Some(m as i32) else None
  {
    ReversedDigitsValue(n, 0);
  }

  /** Reversing the digits of a number that does not end in 0 twice gives
      the number back. */
  lemma ReverseNumberTwice(n: nat)
    requires n % 10 != 0
    ensures ReverseNumber(n) >= 1
    ensures ReverseNumber(ReverseNumber(n)) == n
  {
    var s := ToDecimal(n);
    var r := Reverse(s);
    ReversedDigitsValue(n, 0);
    var m := Accumulate(0, r);
    assert r[0] == s[|s| - 1] == DigitChar(n % 10);
    assert Canonical(r);
    assert m >= 1;
    CanonicalValue(r);
    ReverseReverse(s);
    ReversedDigitsValue(m, 0);
    ToDecimalValue(n);
  }

  /** What the pipeline computes, stated without strings: the sign of `x`
      times the digit reversal of `|x|`, or 0 whenever that reversal does not
      fit in `i32` (the parse fails). */
  lemma ReverseIntMeaning(x: i32)
    requires x != I32_MIN as i32
    ensures var m := ReverseNumber(Abs(x) as nat);
      ReverseInt(x) as int == if m <= I32_MAX then Sign(x) as int * m else 0
  {
    ParseReversedDigits(Abs(x) as nat);
    TimesSign(ReverseNumber(Abs(x) as nat), Sign(x) as int);
  }

  /** A reversed value that fits and does not lose a trailing zero is undone
      by reversing again. */
  lemma ReverseIntTwice(x: i32)
    requires x != I32_MIN as i32
    requires Abs(x) % 10 != 0 && ReverseNumber(Abs(x) as nat) <= I32_MAX
    ensures ReverseInt(x) != 0 && ReverseInt(x) != I32_MIN as i32
    ensures ReverseInt(ReverseInt(x)) == x
  {
    var n := Abs(x) as nat;
    ReverseNumberTwice(n);
    var m := ReverseNumber(n);
    TimesSign(m, Sign(x) as int);
    TimesSign(n, Sign(x) as int);
    ReverseIntMeaning(x);
    var y := ReverseInt(x);
    assert y as int == Sign(x) as int * m;
    assert Abs(y) as nat == m && Sign(y) == Sign(x);
    ReverseIntMeaning(y);
    assert ReverseInt(y) as int == Sign(x) as int * n;
  }

  /** A trailing zero of `x` becomes a leading zero of the reversed string,
      which the parse drops: `x` gives the same result as `x / 10`. */
  lemma TrailingZeroDropped(x: i32)
    requires x != I32_MIN as i32 && x % 10 == 0
    ensures ReverseInt(x) == ReverseInt(x / 10)
  {
    var n := Abs(x) as nat;
    assert Abs(x / 10) as nat == n / 10;
    assert Sign(x / 10) == Sign(x);
    assert RevAcc(n, 0) == RevAcc(n / 10, 0) by {
      if n > 0 {
        assert n % 10 == 0;
      }
    }
    ReverseIntMeaning(x);
    ReverseIntMeaning(x / 10);
  }

  /** 120 becomes 21. */
  lemma TrailingZeroLost()
    ensures ReverseInt(120) == 21
  {
    TrailingZeroDropped(120);
    ReverseIntMeaning(12);
    assert ReverseNumber(12) == 21;
  }

  /** The digit reversal of 1_000_000_009 is 9_000_000_001, which is past `i32::MAX`. */
  lemma OverflowingReversal()
    ensures ReverseNumber(1_000_000_009) == 9_000_000_001
  {
    assert RevAcc(10, 90000000) == 9000000001;
    assert RevAcc(1000000009, 0) == RevAcc(100000000, 9);
  }

  /** For 1_000_000_009 the parse of the reversed digits overflows, so the
      result is 0, for either sign. */
  lemma OverflowFallsBack()
    ensures ReverseInt(1_000_000_009) == 0 && ReverseInt(-1_000_000_009) == 0
  {
    OverflowingReversal();
    ReverseIntMeaning(1_000_000_009);
    ReverseIntMeaning(-1_000_000_009);
  }

  /** The run in `main`: x = 123 * -1 = -123, sign -1, reversed string "321",
      result -321. */
  lemma MainExample()
    ensures Sign(123 * -1) == -1
    ensures Reverse(ToDecimal(Abs(-123) as nat)) == "321"
    ensures ReverseInt(123 * -1) == -321
  {
  }

  /** `x.to_string()` for every `i32`: a `-` exactly for a negative value,
      then the digits of `|x|` with no leading zero (so never "-0"). */
  function Display(x: i32): (r: string)
    ensures |r| > 0
    ensures r[0] == '-' <==> x < 0
    ensures x >= 0 ==> Canonical(r)
    ensures x < 0 ==> Canonical(r[1..]) && r[1] != '0'
  {
    if x < 0 then "-" + ToDecimal(-(x as int)) else ToDecimal(x as nat)
  }

  /** `to_string` followed by `parse::<i32>` gives every `i32` back. */
  lemma DisplayParse(x: i32)
    ensures ParseI32(Display(x)) == Some(x)
  {
    if x < 0 {
      var t := ToDecimal(-(x as int));
      ToDecimalValue(-(x as int));
      assert Display(x)[1..] == t;
      assert Display(x)[0] == '-';
    } else {
      ToDecimalValue(x as nat);
    }
  }
}

/** The small pieces of JavaScript text and number handling the display code
    relies on: Number.prototype.toString for integers, padStart(2, '0'), the
    truncating remainder operator, and readers that invert them. */
module Text {
  import opened Schema

  predicate IsDigit(c: char) {
    '0' <= c <= '9'
  }

  predicate AllDigits(s: string) {
    forall i :: 0 <= i < |s| ==> IsDigit(s[i])
  }

  function DigitChar(d: nat): (c: char)
    requires d < 10
    ensures IsDigit(c) && c as int - '0' as int == d
  {
    ('0' as int + d) as char
  }

  /** The decimal digits of n, most significant first, without leading zeros. */
  function Digits(n: nat): (r: string)
    ensures |r| >= 1 && AllDigits(r)
    ensures r[0] == '0' <==> n == 0
    ensures |r| == 1 <==> n < 10
  {
    if n < 10 then [DigitChar(n)] else Digits(n / 10) + [DigitChar(n % 10)]
  }

  /** The number the first k digits of s denote. */
  function PrefixValue(s: string, k: nat): (v: nat)
    requires k <= |s| && AllDigits(s)
  {
    if k == 0 then 0 else PrefixValue(s, k - 1) * 10 + (s[k - 1] as int - '0' as int)
  }

  /** The number a string of decimal digits denotes (leading zeros allowed). */
  function DigitsValue(s: string): (v: nat)
    requires AllDigits(s)
  {
    PrefixValue(s, |s|)
  }

  /** The value of a prefix does not look past the prefix. */
  lemma {:induction false} PrefixValueOfPrefix(s: string, t: string, k: nat)
    requires AllDigits(s) && AllDigits(t) && k <= |s| && k <= |t|
    requires forall i :: 0 <= i < k ==> s[i] == t[i]
    ensures PrefixValue(s, k) == PrefixValue(t, k)
  {
    if k > 0 {
      PrefixValueOfPrefix(s, t, k - 1);
    }
  }

  lemma {:induction false} DigitsRoundTrip(n: nat)
    ensures DigitsValue(Digits(n)) == n
    decreases n
  {
    if n >= 10 {
      var front := Digits(n / 10);
      var r := Digits(n);
      assert r == front + [DigitChar(n % 10)];
      PrefixValueOfPrefix(r, front, |front|);
      DigitsRoundTrip(n / 10);
    }
  }

  /** A number's toString for integers: an optional minus sign, then digits. */
  function NumberText(x: int): (r: string)
    ensures |r| >= 1
    ensures x >= 0 ==> AllDigits(r) && (|r| == 1 <==> x < 10)
    ensures x < 0 ==> r[0] == '-' && |r| >= 2 && AllDigits(r[1..])
    ensures x >= 0 ==> (r[0] == '0' <==> x == 0)
    ensures x < 0 ==> r[1] != '0'
  {
    if x < 0 then "-" + Digits(-x) else Digits(x)
  }

  /** The text has no character other than '-' and the digits. */
  lemma NumberTextCharacters(x: int)
    ensures forall i :: 0 <= i < |NumberText(x)| ==> NumberText(x)[i] == '-' || IsDigit(NumberText(x)[i])
  {
    var r := NumberText(x);
    if x < 0 {
      forall i | 0 <= i < |r| ensures r[i] == '-' || IsDigit(r[i]) {
        if i > 0 {
          assert r[i] == r[1..][i - 1];
        }
      }
    }
  }

  /** Reads an optional minus sign followed by one or more digits. */
  function ReadInt(s: string): (r: Option<int>)
    ensures r.Some? <==> (AllDigits(s) && s != []) || (|s| >= 2 && s[0] == '-' && AllDigits(s[1..]))
  {
    if s != [] && s[0] == '-' then
      (if |s| >= 2 && AllDigits(s[1..]) then Some(-(DigitsValue(s[1..]) as int)) else None)
    else if s != [] && AllDigits(s) then Some(DigitsValue(s))
    else None
  }

  lemma NumberTextRoundTrip(x: int)
    ensures ReadInt(NumberText(x)) == Some(x)
  {
    var r := NumberText(x);
    if x < 0 {
      assert r[0] == '-' && r[1..] == Digits(-x);
      DigitsRoundTrip(-x);
    } else {
      assert r == Digits(x);
      assert IsDigit(r[0]);
      DigitsRoundTrip(x);
    }
  }

  /** String.prototype.padStart(2, '0'). */
  function PadStart2(s: string): (r: string)
    ensures |r| == if |s| >= 2 then |s| else 2
    ensures r[|r| - |s|..] == s
    ensures forall i :: 0 <= i < |r| - |s| ==> r[i] == '0'
  {
    if |s| >= 2 then s else if |s| == 1 then "0" + s else "00"
  }

  /** Padding a number's text does not change the number it reads as. */
  lemma PaddedNumberRoundTrip(x: int)
    ensures ReadInt(PadStart2(NumberText(x))) == Some(x)
  {
    NumberTextRoundTrip(x);
    var t := NumberText(x);
    if |t| < 2 {
      var p := PadStart2(t);
      assert p == ['0', t[0]];
      assert PrefixValue(p, 1) == 0;
      assert PrefixValue(p, 2) == PrefixValue(t, 1);
    }
  }

  /** A padded number's text still has no character other than '-' and the
      digits, and a number from 0 to 99 pads to exactly two digits. */
  lemma PaddedNumberCharacters(x: int)
    ensures var p := PadStart2(NumberText(x));
            && (forall i :: 0 <= i < |p| ==> p[i] == '-' || IsDigit(p[i]))
            && (0 <= x < 100 ==> |p| == 2 && AllDigits(p))
  {
    NumberTextCharacters(x);
    var t := NumberText(x);
    if |t| < 2 {
      assert PadStart2(t) == ['0', t[0]];
    }
    if 0 <= x < 100 {
      AtMostTwoDigits(x);
    }
  }

  lemma AtMostTwoDigits(n: nat)
    requires n < 100
    ensures |Digits(n)| <= 2
  {
    if n >= 10 {
      assert |Digits(n / 10)| == 1;
    }
  }

  /** The JavaScript `%` operator on integers: the remainder of division
      truncated toward zero, which takes the sign of the dividend. */
  function JsRem(a: int, b: int): (r: int)
    requires b > 0
    ensures -b < r < b
    ensures (if r < 0 then -r else r) == (if a < 0 then -a else a) % b
    ensures r == 0 || (r < 0 <==> a < 0)
    ensures a >= 0 ==> r == a % b
  {
    if a >= 0 then a % b else -((-a) % b)
  }

  /** Splits at the first occurrence of `c`. */
  function SplitFirst(s: string, c: char): (r: Option<(string, string)>)
    ensures r.None? <==> c !in s
    ensures r.Some? ==> s == r.value.0 + [c] + r.value.1 && c !in r.value.0
  {
    if s == [] then None
    else if s[0] == c then Some(([], s[1..]))
    else
      match SplitFirst(s[1..], c)
      case None => None
      case Some((a, b)) => Some(([s[0]] + a, b))
  }

  lemma {:induction false} SplitFirstOf(a: string, c: char, b: string)
    requires c !in a
    ensures SplitFirst(a + [c] + b, c) == Some((a, b))
    decreases |a|
  {
    if a == [] {
      assert a + [c] + b == [c] + b;
    } else {
      assert (a + [c] + b)[1..] == a[1..] + [c] + b;
      SplitFirstOf(a[1..], c, b);
      assert [a[0]] + a[1..] == a;
    }
  }
}

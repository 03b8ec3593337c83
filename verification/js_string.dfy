/**
  The pieces of the JavaScript string library that the identifier encoder
  relies on, written out over `seq<char>`: `String(n)` for an integral
  number, `String.prototype.padStart` with a one-character pad, and
  `String.prototype.slice` with a single start argument. Decimal parsing is
  the partner that lets the rest of the model state round trips.
 */
module JsString {

  predicate IsDigit(c: char) {
    '0' <= c <= '9'
  }

  predicate AllDigits(s: string) {
    forall i :: 0 <= i < |s| ==> IsDigit(s[i])
  }

  function Abs(n: int): nat {
    if n < 0 then -n else n
  }

  /** The character for a decimal digit value. */
  function DigitChar(d: int): (c: char)
    requires 0 <= d < 10
    ensures IsDigit(c)
  {
    ('0' as int + d) as char
  }

  /** The value of a decimal digit character. */
  function DigitValue(c: char): (d: int)
    requires IsDigit(c)
    ensures 0 <= d < 10
  {
    c as int - '0' as int
  }

  lemma DigitCharValue(d: int, c: char)
    requires 0 <= d < 10 && IsDigit(c)
    ensures DigitChar(d) == c <==> DigitValue(c) == d
  {
  }

  /** Reads a string of decimal digits as a natural number (leading zeros allowed). */
  function ParseDecimal(s: string): nat
    requires AllDigits(s)
  {
    if |s| == 0 then 0 else ParseDecimal(s[..|s| - 1]) * 10 + DigitValue(s[|s| - 1])
  }

  /**
    Decimal rendering of a natural number, as JavaScript's `String(n)` gives it:
    shortest form, no leading zero, and parsing it back yields `n`.
   */
  function NatToString(n: nat): (r: string)
    ensures 1 <= |r| && AllDigits(r)
    ensures |r| == 1 <==> n < 10
    ensures |r| > 1 ==> r[0] != '0'
    decreases n
  {
    if n < 10 then [DigitChar(n)] else NatToString(n / 10) + [DigitChar(n % 10)]
  }

  /**
    JavaScript's `String(n)` for an integral number: a minus sign in front of
    the magnitude's digits when `n` is negative.
   */
  function IntToString(n: int): (r: string)
    ensures 0 <= n ==> 1 <= |r| && AllDigits(r)
    ensures n < 0 ==> 2 <= |r| && r[0] == '-' && AllDigits(r[1..])
    ensures 0 <= n ==> (|r| == 1 <==> n < 10) && (|r| > 1 ==> r[0] != '0')
    ensures n < 0 ==> (|r| == 2 <==> -10 < n) && r[1] != '0'
  {
    if n < 0 then
      var digits := NatToString(-n);
      assert |digits| == 1 ==> digits == [DigitChar(-n)];
      "-" + digits
    else NatToString(n)
  }

  /** Parsing the decimal rendering of `n` gives back `n`. */
  lemma {:induction false} ParseNatToString(n: nat)
    ensures ParseDecimal(NatToString(n)) == n
    decreases n
  {
    var r := NatToString(n);
    if n < 10 {
      assert r[..0] == [];
    } else {
      ParseNatToString(n / 10);
      assert r[..|r| - 1] == NatToString(n / 10);
    }
  }

  /** `String(n)` reads back as `n`: the digits give the magnitude and a leading '-' the sign. */
  lemma IntToStringRoundTrip(n: int)
    ensures 0 <= n ==> ParseDecimal(IntToString(n)) == n
    ensures n < 0 ==> ParseDecimal(IntToString(n)[1..]) == -n
  {
    ParseNatToString(Abs(n));
    if n < 0 {
      assert IntToString(n)[1..] == NatToString(-n);
    }
  }

  /** `n` copies of `c`. */
  function Repeat(c: char, n: nat): (r: string)
    ensures |r| == n
    ensures forall i :: 0 <= i < n ==> r[i] == c
  {
    if n == 0 then [] else [c] + Repeat(c, n - 1)
  }

  /**
    `s.padStart(targetLength, fill)` for a one-character pad string: strings
    already at least `targetLength` long come back unchanged; shorter ones get
    copies of `fill` in front until they are exactly `targetLength` long.
   */
  function PadStart(s: string, targetLength: int, fill: char): (r: string)
    ensures |r| == if |s| >= targetLength then |s| else targetLength
    ensures forall i :: 0 <= i < |r| - |s| ==> r[i] == fill
    ensures forall i :: 0 <= i < |s| ==> r[|r| - |s| + i] == s[i]
  {
    if |s| >= targetLength then s else Repeat(fill, targetLength - |s|) + s
  }

  /**
    `s.slice(start)` with one argument: a negative start counts back from the
    end and is clamped at the front, a non-negative one is clamped at the end.
    The result is always a suffix of `s`.
   */
  function Slice(s: string, start: int): (r: string)
    ensures |r| <= |s|
    ensures forall i :: 0 <= i < |r| ==> r[i] == s[|s| - |r| + i]
    ensures start < 0 ==> |r| == if -start <= |s| then -start else |s|
    ensures 0 <= start ==> |r| == if start <= |s| then |s| - start else 0
  {
    var from := if start < 0 then (if |s| + start < 0 then 0 else |s| + start)
                else (if start > |s| then |s| else start);
    s[from..]
  }

  /** The two-character zero-padded decimal form of `n`, the reference rendering. */
  function TwoDigits(n: int): (r: string)
    requires 0 <= n < 100
    ensures |r| == 2 && AllDigits(r)
  {
    [DigitChar(n / 10), DigitChar(n % 10)]
  }

  /** Two-digit rendering and decimal parsing are mutually inverse. */
  lemma TwoDigitsRoundTrip(n: int, s: string)
    requires 0 <= n < 100
    requires |s| == 2 && AllDigits(s)
    ensures ParseDecimal(TwoDigits(n)) == n
    ensures ParseDecimal(s) < 100 && TwoDigits(ParseDecimal(s)) == s
    ensures TwoDigits(n) == s <==> ParseDecimal(s) == n
  {
    var t := TwoDigits(n);
    assert t[..1] == [t[0]];
    assert s[..1] == [s[0]];
    var p := ParseDecimal(s);
    assert ParseDecimal(s[..1]) == DigitValue(s[0]) by {
      assert s[..1][..0] == [];
    }
    assert p == DigitValue(s[0]) * 10 + DigitValue(s[1]);
    DigitCharValue(p / 10, s[0]);
    DigitCharValue(p % 10, s[1]);
  }

  /** Padding to width two: a one-character string gains one fill character in front; longer strings are unchanged. */
  lemma PadStartToTwo(s: string, fill: char)
    requires 1 <= |s|
    ensures |s| == 1 ==> PadStart(s, 2, fill) == [fill] + s
    ensures 2 <= |s| ==> PadStart(s, 2, fill) == s
  {
    if |s| == 1 {
      assert Repeat(fill, 1) == [fill];
    }
  }

  /** `String(n).padStart(2, "0")` is the two-digit form for every `n` in 0..99. */
  lemma {:induction false} PadTwoDigits(n: int)
    requires 0 <= n < 100
    ensures PadStart(IntToString(n), 2, '0') == TwoDigits(n)
  {
    if n < 10 {
      assert IntToString(n) == [DigitChar(n)];
      assert DigitChar(0) == '0';
    } else {
      assert NatToString(n / 10) == [DigitChar(n / 10)];
      assert IntToString(n) == [DigitChar(n / 10), DigitChar(n % 10)];
    }
  }

  /** Numbers from 10 upwards render with at least two characters, the last two being their final two digits. */
  lemma {:induction false} LastTwoDigits(n: nat)
    requires 10 <= n
    ensures Slice(NatToString(n), -2) == TwoDigits(n % 100)
  {
    var m := n / 10;
    var a := NatToString(m);
    assert NatToString(n) == a + [DigitChar(n % 10)];
    assert a[|a| - 1] == DigitChar(m % 10) by {
      if m >= 10 {
        assert a == NatToString(m / 10) + [DigitChar(m % 10)];
      }
    }
    assert (n % 100) / 10 == m % 10 && (n % 100) % 10 == n % 10 by {
      DivModHundred(n);
    }
  }

  lemma DivModHundred(n: nat)
    ensures (n % 100) / 10 == (n / 10) % 10
    ensures (n % 100) % 10 == n % 10
  {
    var q := n / 100;
    var r := n % 100;
    assert n == 100 * q + r;
    assert n / 10 == 10 * q + r / 10;
    assert n % 10 == r % 10;
  }
}

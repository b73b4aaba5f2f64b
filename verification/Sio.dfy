/** The signal-safe number printer: digits produced backwards, then reversed in place. */
module Sio {
  import opened Powers

  const LONG_MIN := -0x8000_0000_0000_0000

  predicate IsLong(v: int) {
    LONG_MIN <= v < 0x8000_0000_0000_0000
  }

  /** The character for a remainder; a negative one comes out as some character below '0'. */
  function Digit(c: int): (d: char)
    requires -36 < c < 36
    ensures d != '\0' && (c >= 0 ==> d != '-')
  {
    if c < 10 then ('0' as int + c) as char else ('a' as int + c - 10) as char
  }

  /** The value of a digit character. */
  function Value(d: char): int {
    if '0' <= d <= '9' then d as int - '0' as int else d as int - 'a' as int + 10
  }

  function Quot(v: nat, b: nat): (q: nat)
    requires b >= 2
    ensures v > 0 ==> q < v
    ensures v >= b ==> q > 0
    ensures v < b ==> q == 0
  {
    QuotFacts(v, b);
    v / b
  }

  function Rem(v: nat, b: nat): (r: nat)
    requires b >= 2
    ensures r < b
    ensures v < b ==> r == v
  {
    v % b
  }

  /** Division and remainder of long by int, truncated toward zero. */
  function LongQuot(v: int, b: nat): int
    requires b >= 2
  {
    if v >= 0 then Quot(v, b) else 0 - Quot(-v, b)
  }

  function LongRem(v: int, b: nat): (r: int)
    requires b >= 2
    ensures r < b && -r < b
  {
    if v >= 0 then Rem(v, b) else 0 - Rem(-v, b)
  }

  /** -v, in a long: the least long is its own negation. */
  function Negate(v: int): (w: int)
    requires IsLong(v)
    ensures IsLong(w)
  {
    if v == LONG_MIN then v else -v
  }

  lemma QuotFacts(v: nat, b: nat)
    requires b >= 2
    ensures 0 <= v / b && (v > 0 ==> v / b < v) && (v >= b ==> v / b > 0) && (v < b ==> v / b == 0)
  {
    var q := v / b;
    assert v == b * q + v % b;
    if v > 0 {
      DoubleAtLeast(b, q);
    }
  }

  lemma DoubleAtLeast(b: nat, q: nat)
    requires b >= 2
    ensures b * q >= 2 * q
  {
    assert b * q == 2 * q + (b - 2) * q;
  }

  lemma DivMod(v: nat, b: nat)
    requires b >= 2
    ensures v == Quot(v, b) * b + Rem(v, b) == b * Quot(v, b) + Rem(v, b)
  {
  }

  /** The numeral of v in base b, the most significant digit first. */
  function Numeral(v: nat, b: nat): (s: string)
    requires 2 <= b <= 36
    ensures |s| > 0
    decreases v
  {
    if v < b then [Digit(v)] else Numeral(Quot(v, b), b) + [Digit(Rem(v, b))]
  }

  /** What a string of digits stands for. */
  function Parse(s: string, b: nat): int {
    if s == [] then 0 else Parse(s[..|s| - 1], b) * b + Value(s[|s| - 1])
  }

  function Signed(v: int, b: nat): string
    requires 2 <= b <= 36
  {
    if v < 0 then ['-'] + Numeral(-v, b) else Numeral(v, b)
  }

  function ParseSigned(s: string, b: nat): int {
    if s != [] && s[0] == '-' then -Parse(s[1..], b) else Parse(s, b)
  }

  /** What sio_ltoa prints: the numeral, except for the least long, where one division by b ends the loop. */
  function Printed(v: int, b: nat): string
    requires IsLong(v) && 2 <= b <= 36
  {
    if v == LONG_MIN then ['-', Digit(LongRem(v, b))] else Signed(v, b)
  }

  lemma ParseOne(v: nat, b: nat)
    requires 2 <= b <= 36 && v < b
    ensures Parse([Digit(v)], b) == v
  {
    var s := [Digit(v)];
    assert s[..0] == [] && Parse([], b) * b == 0;
  }

  lemma DigitValue(c: int)
    requires 0 <= c < 36
    ensures Value(Digit(c)) == c
  {
  }

  lemma {:induction false} ParseNumeral(v: nat, b: nat)
    requires 2 <= b <= 36
    ensures Parse(Numeral(v, b), b) == v
    ensures forall i :: 0 <= i < |Numeral(v, b)| ==> Numeral(v, b)[i] != '-' && Numeral(v, b)[i] != '\0'
    decreases v
  {
    hide Quot, Rem, Digit, Value;
    if v < b {
      ParseOne(v, b);
    } else {
      var q, d := Quot(v, b), Digit(Rem(v, b));
      ParseNumeral(q, b);
      var s := Numeral(q, b);
      assert (s + [d])[..|s|] == s;
      DigitValue(Rem(v, b));
      DivMod(v, b);
    }
  }

  /** No superfluous leading zero. */
  lemma {:induction false} NoLeadingZero(v: nat, b: nat)
    requires 2 <= b <= 36
    ensures Numeral(v, b)[0] == '0' ==> v == 0 && |Numeral(v, b)| == 1
    decreases v
  {
    hide Quot, Rem;
    if v >= b {
      NoLeadingZero(Quot(v, b), b);
    }
  }

  function Power(b: nat, n: nat): nat {
    if n == 0 then 1 else b * Power(b, n - 1)
  }

  /** n digits for b^(n-1) <= v < b^n. */
  lemma {:induction false} NumeralLength(v: nat, b: nat)
    requires 2 <= b <= 36
    ensures v < Power(b, |Numeral(v, b)|)
    ensures v > 0 ==> Power(b, |Numeral(v, b)| - 1) <= v
    decreases v
  {
    hide Quot, Rem;
    if v >= b {
      var q := Quot(v, b);
      NumeralLength(q, b);
      var n := |Numeral(q, b)|;
      DivMod(v, b);
      ScaleBounds(b, q, Rem(v, b), Power(b, n - 1), Power(b, n));
    }
  }

  lemma ScaleBounds(b: nat, q: nat, r: nat, lo: nat, hi: nat)
    requires b > 0 && r < b && q < hi
    ensures b * q + r < b * hi
    ensures lo <= q ==> b * lo <= b * q + r
  {
    Scale(b, q + 1, hi);
    if lo <= q {
      Scale(b, lo, q);
    }
  }

  lemma Scale(b: nat, x: nat, y: nat)
    requires x <= y
    ensures b * x <= b * y
  {
    assert b * y == b * (y - x) + b * x;
  }

  lemma {:induction false} PowerAbovePow2(b: nat, n: nat)
    requires b >= 2
    ensures Power(b, n) >= Pow2(n)
  {
    if n > 0 {
      PowerAbovePow2(b, n - 1);
      DoubleAtLeast(b, Power(b, n - 1));
    }
  }

  /** A long has at most 63 digits. */
  lemma FewDigits(v: nat, b: nat)
    requires 2 <= b <= 36 && v < 0x8000_0000_0000_0000
    ensures |Numeral(v, b)| <= 63
  {
    hide Numeral, Power, Pow2;
    NumeralLength(v, b);
    ZeroNumeral(b);
    var n := |Numeral(v, b)|;
    if n > 63 && v > 0 {
      PowerAbovePow2(b, n - 1);
      Pow2Monotone(63, n - 1);
      Pow2Long();
    }
  }

  lemma ZeroNumeral(b: nat)
    requires 2 <= b <= 36
    ensures |Numeral(0, b)| == 1
  {
  }

  lemma Pow2Long()
    ensures Pow2(63) == 0x8000_0000_0000_0000
  {
    assert Pow2(7) == 128;
    Pow2Sum(7, 7);
    Pow2Sum(14, 7);
    Pow2Sum(21, 21);
    Pow2Sum(42, 21);
  }

  function Reverse(s: string): string {
    if s == [] then [] else Reverse(s[1..]) + [s[0]]
  }

  lemma {:induction false} ReverseAt(s: string, k: nat)
    requires k < |s|
    ensures |Reverse(s)| == |s| && Reverse(s)[k] == s[|s| - 1 - k]
  {
    if |s| > 1 {
      ReverseAt(s[1..], if k < |s| - 1 then k else 0);
    }
  }

  lemma {:induction false} ReverseAppend(s: string, c: char)
    ensures Reverse(s + [c]) == [c] + Reverse(s)
  {
    if s == [] {
    } else {
      assert (s + [c])[1..] == s[1..] + [c];
      ReverseAppend(s[1..], c);
    }
  }

  /** The length of a zero-terminated string. */
  method Strlen(s: array<char>, ghost n: nat) returns (i: nat)
    requires n < s.Length && s[n] == '\0' && NoZero(s[..n])
    ensures i == n
  {
    i := 0;
    while s[i] != '\0'
      invariant i <= n
      decreases n - i
    {
      i := i + 1;
    }
  }

  /** sio_reverse */
  method ReverseInPlace(s: array<char>, ghost n: nat)
    requires n < s.Length && s[n] == '\0' && NoZero(s[..n])
    modifies s
    ensures s[..n] == Reverse(old(s[..n])) && s[n] == '\0'
  {
    var len := Strlen(s, n);
    var last: int := len;
    var i, j := 0, last - 1;
    while i < j
      invariant 0 <= i && i + j == n - 1 && i <= j + 1 && s[n] == '\0'
      invariant forall k :: 0 <= k < i ==> s[k] == old(s[n - 1 - k]) && s[n - 1 - k] == old(s[k])
      invariant forall k :: i <= k <= j ==> s[k] == old(s[k])
      decreases j - i
    {
      var c := s[i];
      s[i] := s[j];
      s[j] := c;
      i, j := i + 1, j - 1;
    }
    assert s[..n] == Reverse(old(s[..n])) by {
      ReverseIs(old(s[..n]), s[..n]);
    }
  }

  lemma ReverseIs(was: string, now: string)
    requires |now| == |was| && forall k :: 0 <= k < |was| ==> now[k] == was[|was| - 1 - k]
    ensures now == Reverse(was)
  {
    forall k | 0 <= k < |was| ensures |Reverse(was)| == |was| && now[k] == Reverse(was)[k] {
      ReverseAt(was, k);
    }
    if was == [] {
      assert now == [];
    }
  }

  /** One digit more: w is v without its last digits, and those are in ds, the last one first. */
  lemma DigitStep(v: nat, w: nat, ds: string, b: nat)
    requires 2 <= b <= 36 && Numeral(v, b) == Numeral(w, b) + Reverse(ds)
    ensures w >= b ==> Numeral(v, b) == Numeral(Quot(w, b), b) + Reverse(ds + [Digit(Rem(w, b))])
                       && |Numeral(w, b)| == |Numeral(Quot(w, b), b)| + 1
    ensures w < b ==> Numeral(v, b) == Reverse(ds + [Digit(Rem(w, b))]) && |Numeral(w, b)| == 1
  {
    hide Quot, Rem, Digit, Reverse, Numeral;
    var d := Digit(Rem(w, b));
    ReverseAppend(ds, d);
    NumeralStep(w, b);
    if w >= b {
      Assoc(Numeral(Quot(w, b), b), [d], Reverse(ds));
    }
  }

  lemma NumeralStep(w: nat, b: nat)
    requires 2 <= b <= 36
    ensures Numeral(w, b) == if w < b then [Digit(Rem(w, b))] else Numeral(Quot(w, b), b) + [Digit(Rem(w, b))]
  {
  }

  lemma Assoc(a: string, b: string, c: string)
    ensures (a + b) + c == a + (b + c)
  {
  }

  /** sio_ltoa, in a buffer just large enough. */
  method Ltoa(v: int, s: array<char>, b: nat) returns (ghost n: nat)
    requires IsLong(v) && 2 <= b <= 36 && |Printed(v, b)| < s.Length
    modifies s
    ensures n == |Printed(v, b)| && s[n] == '\0' && s[..n] == Printed(v, b)
  {
    hide Numeral, Reverse, Quot, Rem, Digit;
    var i := 0;
    var neg := v < 0;
    var w := if neg then Negate(v) else v;
    ghost var v0, ds := if w < 0 then 0 else w, "";
    ReverseNone(Numeral(v0, b));
    assert v != LONG_MIN ==> Printed(v, b) == (if neg then ['-'] else []) + Numeral(v0, b);
    while true
      invariant 0 <= i < s.Length && s[..i] == ds && NoZero(ds)
      invariant w < 0 <==> v == LONG_MIN
      invariant w < 0 ==> i == 0 && w == LONG_MIN
      invariant w >= 0 ==> |Numeral(w, b)| + i == |Numeral(v0, b)| && Numeral(v0, b) == Numeral(w, b) + Reverse(ds)
      decreases if w < 0 then 0 else w
    {
      var c := LongRem(w, b);
      if w >= 0 {
        DigitStep(v0, w, ds, b);
      }
      s[i] := Digit(c);
      ds := ds + [Digit(c)];
      i := i + 1;
      w := LongQuot(w, b);
      if !(w > 0) {
        break;
      }
    }
    ReverseOne(Digit(LongRem(v, b)));
    assert if v == LONG_MIN then ds == [Digit(LongRem(v, b))] else Numeral(v0, b) == Reverse(ds);
    if neg {
      ReverseAppend(ds, '-');
      s[i] := '-';
      ds := ds + ['-'];
      i := i + 1;
    }
    s[i] := '\0';
    assert s[..i] == ds;
    n := i;
    ReverseInPlace(s, n);
  }

  lemma ReverseOne(c: char)
    ensures Reverse([c]) == [c]
  {
  }

  ghost predicate NoZero(s: string) {
    forall k :: 0 <= k < |s| ==> s[k] != '\0'
  }

  lemma ReverseNone(s: string)
    ensures s == s + Reverse([])
  {
  }

  /**
    In every base from 2 to 36, reading back what was printed gives the number exactly when the number
    is not the least long; then the numeral has no superfluous leading zero.
    */
  lemma PrintedRoundTrip(v: int, b: nat)
    requires IsLong(v) && 2 <= b <= 36
    ensures ParseSigned(Printed(v, b), b) == v <==> v != LONG_MIN
    ensures v > LONG_MIN && v != 0 ==>
              var digits := if v < 0 then Printed(v, b)[1..] else Printed(v, b); |digits| > 0 && digits[0] != '0'
    ensures Printed(0, b) == "0"
  {
    hide Quot, Rem, LongRem, Power;
    if v != LONG_MIN {
      var w := if v < 0 then -v else v;
      ParseNumeral(w, b);
      NoLeadingZero(w, b);
    } else {
      LeastMisprinted(Digit(LongRem(v, b)), b);
    }
  }

  lemma LeastMisprinted(d: char, b: nat)
    requires d as int < 0x1_0000
    ensures ParseSigned(['-', d], b) > LONG_MIN
  {
    assert ['-', d][1..] == [d] && [d][..0] == [];
    assert Parse([d][..0], b) * b == 0;
  }

  /** A number needs at most 64 characters, sign included. */
  lemma PrintedLength(v: int, b: nat)
    requires IsLong(v) && 2 <= b <= 36
    ensures |Printed(v, b)| <= 64
  {
    if v != LONG_MIN {
      FewDigits(if v < 0 then -v else v, b);
    }
  }
}

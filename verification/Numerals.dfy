// Positional numerals: what value2str (src/lib/vsprintf.c) writes and taste_decimal reads.
module Numerals {

  const WORD: nat := 0x1_0000_0000    // values of a u32

  function Pow(b: nat, e: nat): nat {
    if e == 0 then 1 else b * Pow(b, e - 1)
  }

  lemma {:induction false} PowAdd(b: nat, x: nat, y: nat)
    ensures Pow(b, x + y) == Pow(b, x) * Pow(b, y)
  {
    if x > 0 {
      PowAdd(b, x - 1, y);
      MulAssoc(b, Pow(b, x - 1), Pow(b, y));
    }
  }

  lemma MulAssoc(a: nat, b: nat, c: nat)
    ensures a * (b * c) == a * b * c
  {}

  function DigitChar(d: nat): char
    requires d < 16
  {
    if d <= 9 then (d + 48) as char else (d + 87) as char
  }

  predicate IsDigit(c: char) {
    48 <= c as nat <= 57
  }

  predicate AllDigits(s: string) {
    forall i :: 0 <= i < |s| ==> IsDigit(s[i])
  }

  // The numeral of v.
  function Digits(v: nat, base: nat): (s: string)
    requires base == 10 || base == 16
    ensures s != []
  {
    if v < base then [DigitChar(v)]
    else DivSmaller(v, base); Digits(v / base, base) + [DigitChar(v % base)]
  }

  lemma DivSmaller(v: nat, base: nat)
    requires (base == 10 || base == 16) && base <= v
    ensures v / base < v
  {
    if base == 10 {} else {}
  }

  // The value of a decimal numeral.
  function Val(s: string): nat
    requires AllDigits(s)
  {
    if s == [] then 0 else Val(s[..|s| - 1]) * 10 + (s[|s| - 1] as nat - 48)
  }

  // Printing and reading back.
  lemma {:induction false} ValOfDigits(v: nat)
    ensures AllDigits(Digits(v, 10))
    ensures Val(Digits(v, 10)) == v
  {
    if v >= 10 {
      ValOfDigits(v / 10);
      assert Digits(v, 10)[..|Digits(v, 10)| - 1] == Digits(v / 10, 10);
    }
  }

  lemma {:induction false} NoLeadingZero(v: nat)
    ensures Digits(v, 10)[0] == '0' ==> v == 0
  {
    if v >= 10 { NoLeadingZero(v / 10); }
  }

  // The value of a hexadecimal numeral.
  predicate IsHexDigit(c: char) {
    '0' <= c <= '9' || 'a' <= c <= 'f'
  }

  predicate AllHexDigits(s: string) {
    forall i :: 0 <= i < |s| ==> IsHexDigit(s[i])
  }

  function HexVal(s: string): nat
    requires AllHexDigits(s)
  {
    if s == [] then 0
    else
      var c := s[|s| - 1];
      HexVal(s[..|s| - 1]) * 16 + (if c <= '9' then c as nat - '0' as nat else 10 + (c as nat - 'a' as nat))
  }

  // The hexadecimal numeral reads as its value, and no zero leads it.
  lemma {:induction false} HexValOfDigits(v: nat)
    ensures AllHexDigits(Digits(v, 16)) && HexVal(Digits(v, 16)) == v
    ensures Digits(v, 16)[0] == '0' ==> v == 0
  {
    if v >= 16 {
      HexValOfDigits(v / 16);
      assert Digits(v, 16)[..|Digits(v, 16)| - 1] == Digits(v / 16, 16);
    }
  }

  // The numeral of the value is the same just when there was no leading zero.
  lemma {:induction false} DigitsOfWholeVal(s: string)
    requires s != [] && AllDigits(s)
    ensures Digits(Val(s), 10) == s <==> s[0] != '0' || |s| == 1
  {
    NoLeadingZero(Val(s));
    var t, c := s[..|s| - 1], s[|s| - 1];
    assert s == t + [c] && IsDigit(c) && DigitChar(c as nat - 48) == c;
    if t != [] && s[0] != '0' {
      DigitsOfWholeVal(t);
      NotZero(t);
      LastDigit(Val(t), c as nat - 48);
    }
  }

  // Reading a numeral, modulo 2^32, and printing it again gives the same numeral just when it
  // has no leading zero and its value is below 2^32.
  lemma DigitsOfVal(s: string)
    requires s != [] && AllDigits(s)
    ensures Digits(Val(s) % WORD, 10) == s <==> (s[0] != '0' || |s| == 1) && Val(s) < WORD
  {
    hide Digits, Val, AllDigits;
    DigitsOfWholeVal(s);
    ValOfDigits(Val(s) % WORD);
  }

  // The numeral of 2^32 is read as 0.
  lemma WordReadsAsZero()
    ensures AllDigits(Digits(WORD, 10)) && Digits(Val(Digits(WORD, 10)) % WORD, 10) == "0"
  {
    ValOfDigits(WORD);
  }

  lemma LastDigit(v: nat, d: nat)
    requires d < 10
    ensures (v * 10 + d) / 10 == v && (v * 10 + d) % 10 == d
  {}

  lemma {:induction false} NotZero(s: string)
    requires s != [] && AllDigits(s) && s[0] != '0'
    ensures Val(s) > 0
  {
    if |s| > 1 { NotZero(s[..|s| - 1]); }
  }

  // A value below base^k takes at most k digits.
  lemma {:induction false} DigitsFit(v: nat, base: nat, k: nat)
    requires (base == 10 || base == 16) && k > 0 && v < Pow(base, k)
    ensures |Digits(v, base)| <= k
  {
    if v >= base {
      assert Pow(base, k) == base * Pow(base, k - 1);
      QuotientBelow(v, base, Pow(base, k - 1));
      DigitsFit(v / base, base, k - 1);
    }
  }

  lemma QuotientBelow(v: nat, base: nat, p: nat)
    requires (base == 10 || base == 16) && v < base * p && v >= base
    ensures 1 <= v / base < p
  {
    if base == 10 {} else {}
  }

  // A digit more in front.
  lemma {:induction false} ValFront(c: char, t: string)
    requires IsDigit(c) && AllDigits(t)
    ensures Val([c] + t) == (c as nat - 48) * Pow(10, |t|) + Val(t)
  {
    var s := [c] + t;
    if t == [] {
      assert s[..0] == [];
    } else {
      var u := t[..|t| - 1];
      assert s[..|s| - 1] == [c] + u;
      ValFront(c, u);
      TenTimes(c as nat - 48, Pow(10, |u|));
    }
  }

  lemma TenTimes(d: nat, p: nat)
    ensures d * (10 * p) == 10 * (d * p)
  {}

  lemma ModShift(x: int, k: int)
    ensures (x + WORD * k) % WORD == x % WORD
  {}

  // Wrapping a factor or a summand early does not change the wrapped result.
  lemma WrapTerm(sum: nat, d: nat, p: nat)
    ensures (sum % WORD + d * (p % WORD)) % WORD == (sum + d * p) % WORD
  {
    var q, r := p / WORD, p % WORD;
    assert d * p == d * r + WORD * (d * q) by {
      assert p == WORD * q + r;
      MulSplit(d, WORD * q, r);
      WordOut(d, q);
    }
    ModShift(sum % WORD + d * r, sum / WORD + d * q);
  }

  lemma MulSplit(d: nat, a: nat, b: nat)
    ensures d * (a + b) == d * a + d * b
  {}

  lemma WordOut(d: nat, q: nat)
    ensures d * (WORD * q) == WORD * (d * q)
  {}

  // pow_int (src/ku_utils.c), whose products wrap at 32 bits.
  method PowInt(base: nat, exp: nat) returns (result: nat)
    ensures result == Pow(base, exp) % WORD
  {
    if exp == 0 { return 1; }
    result := 1;
    for i := 0 to exp
      invariant result == Pow(base, i) % WORD
    {
      WrapTerm(0, base, Pow(base, i));
      result := (base * result) % WORD;
    }
  }

  // How far the digits go.
  predicate DigitRun(s: string, n: nat) {
    n <= |s| && (forall i :: 0 <= i < n ==> IsDigit(s[i])) && (n < |s| ==> !IsDigit(s[n]))
  }

  // taste_decimal on the string s: the value of its leading digits, modulo 2^32.
  method TasteDecimal(s: string) returns (sum: nat, n: nat)
    ensures DigitRun(s, n) && sum == Val(s[..n]) % WORD
  {
    n := 0;
    while n < |s| && IsDigit(s[n])
      invariant n <= |s| && forall i :: 0 <= i < n ==> IsDigit(s[i])
    {
      n := n + 1;
    }
    sum := 0;
    for i := 1 to n + 1
      invariant sum == Val(s[n - (i - 1)..n]) % WORD
    {
      var d := s[n - i] as nat - 48;
      var p := PowInt(10, i - 1);
      ghost var t := s[n - (i - 1)..n];
      assert s[n - i..n] == [s[n - i]] + t;
      ValFront(s[n - i], t);
      WrapTerm(Val(t), d, Pow(10, i - 1));
      sum := (sum + d * p) % WORD;
    }
    assert s[n - n..n] == s[..n];
  }

  // The numeral of any u32, followed by no further digit, is read back as that value.
  lemma ReadBack(v: nat, rest: string, n: nat)
    requires v < WORD && (rest != [] ==> !IsDigit(rest[0]))
    requires DigitRun(Digits(v, 10) + rest, n)
    ensures n == |Digits(v, 10)|
    ensures Val((Digits(v, 10) + rest)[..n]) % WORD == v
  {
    ValOfDigits(v);
    var s := Digits(v, 10) + rest;
    var k := |Digits(v, 10)|;
    assert forall i :: 0 <= i < k ==> s[i] == Digits(v, 10)[i] && IsDigit(s[i]);
    assert rest != [] ==> s[k] == rest[0];
    assert s[..n] == Digits(v, 10);
  }
}

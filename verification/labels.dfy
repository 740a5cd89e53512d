/**
 Review identifiers and fastText labels. Both scripts number the rows of
 the input table with a counter that also counts the header row, write the
 counter zero-padded to at least five digits after "rVpch__", and wrap that
 identifier as "__label__<ID> ".
 */
module Labels {
  import opened Wrappers
  import opened Text

  function Pow10(k: nat): (p: nat)
    ensures p >= 1
  {
    if k == 0 then 1 else 10 * Pow10(k - 1)
  }

  function DigitChar(d: nat): (c: char)
    requires d < 10
    ensures '0' <= c <= '9' && c as int - '0' as int == d
  {
    ('0' as int + d) as char
  }

  predicate IsDigit(c: char) {
    '0' <= c <= '9'
  }

  predicate AllDigits(s: string) {
    forall i :: 0 <= i < |s| ==> IsDigit(s[i])
  }

  /** The last `w` decimal digits of `n`, most significant first, with leading zeros. */
  function Digits(n: nat, w: nat): (r: string)
    ensures |r| == w && AllDigits(r)
  {
    if w == 0 then [] else Digits(n / 10, w - 1) + [DigitChar(n % 10)]
  }

  /** How many decimal digits `n` has when written without padding (0 has one). */
  function NumDigits(n: nat): (k: nat)
    ensures k >= 1
  {
    if n < 10 then 1 else 1 + NumDigits(n / 10)
  }

  /** `n` fits in `k` digits exactly when it is below 10^k. */
  lemma {:induction false} NumDigitsBound(n: nat, k: nat)
    requires k >= 1
    ensures NumDigits(n) <= k <==> n < Pow10(k)
  {
    if n < 10 {
      Pow10Monotone(1, k);
    } else if k == 1 {
    } else {
      NumDigitsBound(n / 10, k - 1);
      DivTenBelow(n, Pow10(k - 1));
    }
  }

  lemma DivTenBelow(n: nat, p: nat)
    ensures n / 10 < p <==> n < 10 * p
  {
  }

  /** Reads a string of decimal digits, most significant first. */
  function ParseDecimal(s: string): (n: nat)
    requires AllDigits(s)
    ensures n < Pow10(|s|)
  {
    if s == [] then 0
    else ParseDecimal(s[..|s| - 1]) * 10 + (s[|s| - 1] as int - '0' as int)
  }

  /** Reading back `w` digits of a number below 10^w gives the number. */
  lemma {:induction false} ParseDigits(n: nat, w: nat)
    requires n < Pow10(w)
    ensures ParseDecimal(Digits(n, w)) == n
  {
    if w > 0 {
      var s := Digits(n, w);
      assert s[..|s| - 1] == Digits(n / 10, w - 1);
      DivTenBelow(n, Pow10(w - 1));
      ParseDigits(n / 10, w - 1);
    }
  }

  /** Zero padding as in `"{:05}".format(n)`, with the width 5 as a parameter: short numbers get leading zeros, long ones are kept whole. */
  function ZeroPad(n: nat, width: nat): (r: string)
    ensures |r| == if width < NumDigits(n) then NumDigits(n) else width
    ensures AllDigits(r)
  {
    Digits(n, if width < NumDigits(n) then NumDigits(n) else width)
  }

  /** Zero padding loses nothing: the digits read back as the counter. */
  lemma ZeroPadRoundTrip(n: nat, width: nat)
    ensures ParseDecimal(ZeroPad(n, width)) == n
  {
    var w := if width < NumDigits(n) then NumDigits(n) else width;
    NumDigitsBound(n, NumDigits(n));
    Pow10Monotone(NumDigits(n), w);
    ParseDigits(n, w);
  }

  lemma {:induction false} Pow10Monotone(a: nat, b: nat)
    requires a <= b
    ensures Pow10(a) <= Pow10(b)
    decreases b
  {
    if a < b {
      Pow10Monotone(a, b - 1);
    }
  }

  const IdPrefix: string := "rVpch__"
  const LabelPrefix: string := "__label__"

  /** `ID_write`: the fixed prefix, then the counter padded to at least five digits. */
  function IdWrite(counter: nat): (r: string)
    ensures IsPrefix(IdPrefix, r) && AllDigits(r[|IdPrefix|..])
    ensures |r| >= 12 && (|r| == 12 <==> counter < 100000)
  {
    NumDigitsBound(counter, 5);
    assert Pow10(5) == 100000;
    IdPrefix + ZeroPad(counter, 5)
  }

  /** Reads an identifier back: the prefix and at least five digits, or nothing. */
  function ParseId(s: string): Option<nat> {
    if |s| >= 12 && s[..7] == IdPrefix && AllDigits(s[7..]) then Some(ParseDecimal(s[7..]))
    else None
  }

  lemma IdRoundTrip(counter: nat)
    ensures ParseId(IdWrite(counter)) == Some(counter)
  {
    var r := IdWrite(counter);
    assert r[7..] == ZeroPad(counter, 5);
    ZeroPadRoundTrip(counter, 5);
  }

  /** Different counters never share an identifier. */
  lemma IdInjective(a: nat, b: nat)
    ensures IdWrite(a) == IdWrite(b) <==> a == b
  {
    IdRoundTrip(a);
    IdRoundTrip(b);
  }

  /** `label`: the fastText label marker, the identifier, and one trailing space. */
  function Label(counter: nat): (r: string)
    ensures IsPrefix(LabelPrefix + IdPrefix, r)
    ensures |r| == |IdWrite(counter)| + 10 && r[|r| - 1] == ' '
    ensures r[9..|r| - 1] == IdWrite(counter)
  {
    var id := IdWrite(counter);
    var r := LabelPrefix + id + " ";
    assert r[..16] == LabelPrefix + IdPrefix by {
      assert r[..16] == LabelPrefix + id[..7];
    }
    r
  }

  /** Equal-width digit strings are equal exactly when the numbers are. */
  lemma DigitsInjective(a: nat, b: nat, w: nat)
    requires a < Pow10(w) && b < Pow10(w)
    ensures Digits(a, w) == Digits(b, w) <==> a == b
  {
    ParseDigits(a, w);
    ParseDigits(b, w);
  }

  /** The last digit, and the number that the other digits write. */
  lemma DigitsSnoc(n: nat, w: nat)
    requires 0 < w && n < Pow10(w)
    ensures Digits(n, w) == Digits(n / 10, w - 1) + [DigitChar(n % 10)]
    ensures n / 10 < Pow10(w - 1)
  {
    DivTenBelow(n, Pow10(w - 1));
  }

  /** Equal-width digit strings compare as the numbers they write. */
  lemma {:induction false} DigitsOrder(a: nat, b: nat, w: nat)
    requires a < Pow10(w) && b < Pow10(w)
    ensures LexLess(Digits(a, w), Digits(b, w)) <==> a < b
  {
    if w > 0 {
      var qa, qb, ra, rb := a / 10, b / 10, a % 10, b % 10;
      DigitsSnoc(a, w);
      DigitsSnoc(b, w);
      LexLessSnoc(Digits(qa, w - 1), DigitChar(ra), Digits(qb, w - 1), DigitChar(rb));
      DigitsOrder(qa, qb, w - 1);
      DigitsInjective(qa, qb, w - 1);
      assert DigitChar(ra) < DigitChar(rb) <==> ra < rb;
      DivModOrder(a, b);
    }
  }

  lemma DivModOrder(a: nat, b: nat)
    ensures a < b <==> a / 10 < b / 10 || (a / 10 == b / 10 && a % 10 < b % 10)
  {
  }

  /**
   Below 100000 every identifier has twelve characters, and sorting the
   identifiers as strings sorts them by counter.
   */
  lemma IdOrder(a: nat, b: nat)
    requires a < 100000 && b < 100000
    ensures |IdWrite(a)| == 12 && |IdWrite(b)| == 12
    ensures LexLess(IdWrite(a), IdWrite(b)) <==> a < b
  {
    assert Pow10(5) == 100000;
    NumDigitsBound(a, 5);
    NumDigitsBound(b, 5);
    LexLessCommonPrefix(IdPrefix, ZeroPad(a, 5), ZeroPad(b, 5));
    DigitsOrder(a, b, 5);
  }

  /** Six digits once the counter passes 99999: the fixed width is only a minimum. */
  lemma IdGrows()
    ensures IdWrite(2) == "rVpch__00002"
    ensures |IdWrite(100000)| == 13
  {
    assert ZeroPad(2, 5) == "00002";
    assert Pow10(5) == 100000;
    NumDigitsBound(100000, 5);
  }
}

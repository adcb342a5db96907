/** Digit strings in base 8, 10 and 16, their values, and the numbers _itoa_s prints. */
module Numbers {
  import opened Bytes

  datatype Base = Oct | Dec | Hex {
    /** BaseForType. */
    function Radix(): nat {
      match this
      case Oct => 8
      case Dec => 10
      case Hex => 16
    }

    predicate IsDigit(c: byte) {
      match this
      case Oct => IsOctChar(c)
      case Dec => Bytes.IsDigit(c)
      case Hex => IsHexChar(c)
    }
  }

  predicate AllDigits(d: bytes, base: Base) { forall k :: 0 <= k < |d| ==> base.IsDigit(d[k]) }

  function Value(d: bytes, base: Base): nat
    requires AllDigits(d, base)
  {
    if |d| == 0 then 0
    else Value(d[..|d| - 1], base) * base.Radix() + HexCharToValue(d[|d| - 1])
  }

  function Pow(b: nat, n: nat): nat { if n == 0 then 1 else b * Pow(b, n - 1) }

  lemma {:induction false} ValueBound(d: bytes, base: Base)
    requires AllDigits(d, base)
    ensures Value(d, base) < Pow(base.Radix(), |d|)
  {
    if |d| > 0 {
      ValueBound(d[..|d| - 1], base);
      var v, p, r := Value(d[..|d| - 1], base), Pow(base.Radix(), |d| - 1), base.Radix();
      assert HexCharToValue(d[|d| - 1]) < r;
      assert v * r + r <= p * r by { assert (v + 1) * r <= p * r; }
    }
  }

  /** Without a leading zero, n digits make at least the smallest number of n digits. */
  lemma {:induction false} ValueAtLeast(d: bytes, base: Base)
    requires AllDigits(d, base) && |d| > 0 && d[0] != ZERO
    ensures Value(d, base) >= Pow(base.Radix(), |d| - 1)
  {
    var init := d[..|d| - 1];
    if |d| == 1 {
      assert HexCharToValue(d[0]) >= 1;
      assert Value(init, base) == 0;
    } else {
      ValueAtLeast(init, base);
      var v, p, r := Value(init, base), Pow(base.Radix(), |d| - 2), base.Radix();
      assert v * r >= p * r;
    }
  }

  /** More digits never make a smaller number. */
  lemma {:induction false} ValueOfPrefix(d: bytes, n: nat, base: Base)
    requires AllDigits(d, base) && n <= |d|
    ensures Value(d[..n], base) <= Value(d, base)
    decreases |d|
  {
    if n == |d| {
      assert d[..n] == d;
    } else {
      var init := d[..|d| - 1];
      assert init[..n] == d[..n];
      ValueOfPrefix(init, n, base);
      assert Value(init, base) <= Value(init, base) * base.Radix();
    }
  }

  lemma {:induction false} LeadingZeros(d: bytes, n: nat, base: Base)
    requires AllDigits(d, base) && n <= |d| && forall k :: 0 <= k < n ==> d[k] == ZERO
    ensures Value(d[n..], base) == Value(d, base)
    decreases |d|
  {
    if |d| > n {
      var init := d[..|d| - 1];
      LeadingZeros(init, n, base);
      assert d[n..][..|d| - n - 1] == init[n..];
    } else {
      AllZeros(d, base);
    }
  }

  lemma {:induction false} AllZeros(d: bytes, base: Base)
    requires forall k :: 0 <= k < |d| ==> d[k] == ZERO
    ensures AllDigits(d, base) && Value(d, base) == 0
  {
    if |d| > 0 { AllZeros(d[..|d| - 1], base); }
  }

  // ---- Printing ------------------------------------------------------------

  function DecDigit(v: nat): (c: byte)
    requires v < 10
    ensures Bytes.IsDigit(c) && HexCharToValue(c) == v
  {
    0x30 + v
  }

  function OctDigit(v: nat): (c: byte)
    requires v < 8
    ensures IsOctChar(c) && HexCharToValue(c) == v
  {
    0x30 + v
  }

  function HexDigit(v: nat): (c: byte)
    requires v < 16
    ensures IsHexChar(c) && HexCharToValue(c) == v && !IsUpper(c)
  {
    if v < 10 then 0x30 + v else 0x61 + v - 10
  }

  /** "%d" */
  function Decimal(n: nat): (d: bytes)
    ensures |d| > 0
  {
    if n < 10 then [DecDigit(n)] else Decimal(n / 10) + [DecDigit(n % 10)]
  }

  /** "%o" */
  function Octal(n: nat): (d: bytes)
    ensures |d| > 0
  {
    if n < 8 then [OctDigit(n)] else Octal(n / 8) + [OctDigit(n % 8)]
  }

  /** "%x" */
  function Hexadecimal(n: nat): (d: bytes)
    ensures |d| > 0
  {
    if n < 16 then [HexDigit(n)] else Hexadecimal(n / 16) + [HexDigit(n % 16)]
  }

  /** What is printed reads back, and has no leading zero but for zero itself. */
  lemma {:induction false} DecimalValue(n: nat)
    ensures AllDigits(Decimal(n), Dec) && Value(Decimal(n), Dec) == n
    ensures Decimal(n)[0] == ZERO ==> n == 0 && |Decimal(n)| == 1
  {
    if n < 10 {
      assert Decimal(n)[..0] == [];
    } else {
      DecimalValue(n / 10);
      assert Decimal(n)[..|Decimal(n)| - 1] == Decimal(n / 10);
    }
  }

  lemma {:induction false} OctalValue(n: nat)
    ensures AllDigits(Octal(n), Oct) && Value(Octal(n), Oct) == n
  {
    if n < 8 {
      assert Octal(n)[..0] == [];
    } else {
      OctalValue(n / 8);
      assert Octal(n)[..|Octal(n)| - 1] == Octal(n / 8);
    }
  }

  lemma {:induction false} HexadecimalValue(n: nat)
    ensures AllDigits(Hexadecimal(n), Hex) && Value(Hexadecimal(n), Hex) == n
    ensures forall k :: 0 <= k < |Hexadecimal(n)| ==> !IsUpper(Hexadecimal(n)[k])
    ensures Hexadecimal(n)[0] == ZERO ==> n == 0 && |Hexadecimal(n)| == 1
  {
    if n < 16 {
      assert Hexadecimal(n)[..0] == [];
    } else {
      HexadecimalValue(n / 16);
      assert Hexadecimal(n)[..|Hexadecimal(n)| - 1] == Hexadecimal(n / 16);
    }
  }

  lemma {:induction false} DecimalLength(n: nat, k: nat)
    requires k > 0 && n < Pow(10, k)
    ensures |Decimal(n)| <= k
  {
    if n >= 10 {
      assert k > 1 && n / 10 < Pow(10, k - 1);
      DecimalLength(n / 10, k - 1);
    }
  }

  lemma {:induction false} HexadecimalLength(n: nat, k: nat)
    requires k > 0 && n < Pow(16, k)
    ensures |Hexadecimal(n)| <= k
  {
    if n >= 16 {
      assert k > 1 && n / 16 < Pow(16, k - 1);
      HexadecimalLength(n / 16, k - 1);
    }
  }

  lemma SmallPowers()
    ensures Pow(10, 3) == 1000 && Pow(10, 5) == 100000 && Pow(16, 4) == 0x1_0000
  {
    assert Pow(10, 1) == 10 && Pow(10, 2) == 100 && Pow(10, 3) == 1000 && Pow(10, 4) == 10000;
    assert Pow(16, 1) == 16 && Pow(16, 2) == 256 && Pow(16, 3) == 4096;
  }
}

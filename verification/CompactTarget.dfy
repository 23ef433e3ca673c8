/** `Compact`: 256-bit targets as a byte count and a 23-bit mantissa. */
module CompactTarget {
  import opened Common
  import opened Limbs
  import opened Bitwise
  import opened UintShift

  const U256: nat := 0x1_0000000000000000_0000000000000000_0000000000000000_0000000000000000

  lemma Widths()
    ensures Pow(2, 256) == U256
    ensures Pow(2, 0) == 1 && Pow(2, 8) == 256 && Pow(2, 15) == 0x8000 && Pow(2, 16) == 0x1_0000
    ensures Pow(2, 23) == 0x80_0000 && Pow(2, 24) == 0x100_0000
  {
    hide Pow;
    PowersOfTwo();
    PowAdd(2, 64, 64);
    PowAdd(2, 128, 128);
    SmallWidths();
  }

  lemma SmallWidths()
    ensures Pow(2, 0) == 1 && Pow(2, 8) == 256 && Pow(2, 15) == 0x8000 && Pow(2, 16) == 0x1_0000
    ensures Pow(2, 23) == 0x80_0000 && Pow(2, 24) == 0x100_0000
  {
    assert Pow(2, 4) == 2 * Pow(2, 3) == 4 * Pow(2, 2) == 8 * Pow(2, 1);
    PowAdd(2, 4, 4);
    PowAdd(2, 8, 8);
    PowAdd(2, 16, 8);
    assert Pow(2, 16) == 2 * Pow(2, 15) && Pow(2, 24) == 2 * Pow(2, 23);
  }

  /** `to_u256`: the error carries the value too. */
  function ToU256(c: nat): Result<nat, nat>
    requires c < U32
  {
    var size, mantissa := c / 0x100_0000, c % 0x80_0000;
    var word := if size <= 3 then mantissa / P(8 * (3 - size)) else mantissa;
    var result := if size <= 3 then word else (mantissa * P(8 * (size - 3))) % U256;
    var isNegative := word != 0 && (c / 0x80_0000) % 2 == 1;
    var isOverflow := (word != 0 && size > 34) || (word > 0xff && size > 33) || (word > 0xffff && size > 32);
    if isNegative || isOverflow then Err(result) else Ok(result)
  }

  /** The three leading bytes of a number of `n` bytes. */
  function Leading(v: nat, n: nat): nat {
    if n <= 3 then v * P(8 * (3 - n)) else v / P(8 * (n - 3))
  }

  /** The leading bytes as the code takes them, through a 64-bit or a 32-bit word. */
  function FirstBytes(v: nat, size: nat): nat {
    if size <= 3 then ((v % B) * P(8 * (3 - size))) % B % U32 else (v / P(8 * (size - 3))) % U32
  }

  /** Gives up the lowest byte when the sign bit is taken, and joins the parts; `None` where the
      original asserts that they fit. */
  function Pack(compact: nat, size: nat): Option<nat> {
    var signed := (compact / 0x80_0000) % 2 == 1;
    var compact', size' := if signed then compact / 256 else compact, if signed then size + 1 else size;
    if compact' < 0x80_0000 && size' < 256 then Some(Or(compact', (size' * 0x100_0000) % U32)) else None
  }

  /** `from_u256` */
  function FromU256(v: nat): Option<nat>
    requires v < U256
  {
    var size := (BitLength(v) + 7) / 8;
    Pack(FirstBytes(v, size), size)
  }

  // ---------------------------------------------------------------- leading bytes

  lemma LeadingBelow(v: nat, n: nat, k: nat)
    requires v < Pow(2, k) && 8 * n <= k + 24
    ensures Leading(v, n) < Pow(2, k + 24 - 8 * n)
  {
    hide Pow;
    if n <= 3 {
      var d := 8 * (3 - n);
      PowAdd(2, k, d);
      MulStrict(v, Pow(2, k), P(d));
    } else {
      var d, r := 8 * (n - 3), k + 24 - 8 * n;
      PowAdd(2, r, d);
      QuotientBelow(v, P(d), Pow(2, r));
    }
  }

  lemma QuotientBelow(v: nat, d: nat, m: nat)
    requires 0 < d && v < m * d
    ensures v / d < m
  {
    var q := v / d;
    assert q * d <= v;
    if m <= q { MulMono(m, q, d); }
  }

  lemma LeadingAbove(v: nat, n: nat, k: nat)
    requires Pow(2, k) <= v && 8 * n <= k + 24
    ensures Pow(2, k + 24 - 8 * n) <= Leading(v, n)
  {
    hide Pow;
    if n <= 3 {
      var d := 8 * (3 - n);
      PowAdd(2, k, d);
      MulMono(Pow(2, k), v, P(d));
    } else {
      var d, r := 8 * (n - 3), k + 24 - 8 * n;
      PowAdd(2, r, d);
      DivMono(Pow(2, r) * P(d), v, P(d));
      DivUnique(Pow(2, r) * P(d), P(d), Pow(2, r), 0);
    }
  }

  lemma LeadingNext(v: nat, n: nat)
    ensures Leading(v, n) / 256 == Leading(v, n + 1)
  {
    hide Pow;
    Widths();
    if n < 3 {
      PowAdd(2, 8 * (2 - n), 8);
      var w := v * P(8 * (2 - n));
      Assoc(v, P(8 * (2 - n)), 256);
      DivUnique(w * 256, 256, w, 0);
    } else if n == 3 {
      assert v * P(0) == v;
    } else {
      PowAdd(2, 8 * (n - 3), 8);
      DivDiv(v, P(8 * (n - 3)), 256);
    }
  }

  // ---------------------------------------------------------------- what from_u256 writes

  /** The byte count of a positive number with room for the sign bit. */
  function Bytes(v: nat): nat {
    BitLength(v) / 8 + 1
  }

  lemma BytesBound(v: nat)
    requires 0 < v < U256
    ensures 0 < BitLength(v) <= 256 && Pow(2, BitLength(v) - 1) <= v < Pow(2, BitLength(v)) && Bytes(v) <= 33
  {
    hide Pow, BitLength;
    BitLengthBounds(v);
    Widths();
    if 256 < BitLength(v) {
      PowMono(2, 256, BitLength(v) - 1);
    }
  }

  lemma MantissaFits(v: nat)
    requires 0 < v < U256
    ensures Leading(v, Bytes(v)) < 0x80_0000 && 0x8000 <= Leading(v, Bytes(v))
    ensures Bytes(v) == 33 ==> Leading(v, Bytes(v)) < 0x1_0000
  {
    hide Pow, BitLength, Leading;
    BytesBound(v);
    Widths();
    var b, z := BitLength(v), Bytes(v);
    LeadingBelow(v, z, b);
    LeadingAbove(v, z, b - 1);
    PowMono(2, b + 24 - 8 * z, 23);
    PowMono(2, 15, b + 23 - 8 * z);
    if z == 33 {
      PowMono(2, b + 24 - 8 * z, 16);
    }
  }

  lemma FirstMantissa(v: nat)
    requires 0 < v < U256
    ensures var b, n := BitLength(v), (BitLength(v) + 7) / 8;
      && Leading(v, n) < 0x100_0000
      && (b % 8 == 0 <==> 0x80_0000 <= Leading(v, n))
  {
    hide Pow, BitLength, Leading;
    BytesBound(v);
    Widths();
    var b, n := BitLength(v), (BitLength(v) + 7) / 8;
    LeadingBelow(v, n, b);
    LeadingAbove(v, n, b - 1);
    PowMono(2, b + 24 - 8 * n, 24);
    if b % 8 != 0 {
      PowMono(2, b + 24 - 8 * n, 23);
    }
  }

  lemma PackIs(compact: nat, size: nat)
    requires compact < 0x100_0000 && size < 255
    ensures Pack(compact, size) ==
      if compact < 0x80_0000 then Some(compact + size * 0x100_0000) else Some(compact / 256 + (size + 1) * 0x100_0000)
  {
    hide Pow, Or;
    Widths();
    if compact < 0x80_0000 {
      OrDisjoint(compact, size, 24);
    } else {
      OrDisjoint(compact / 256, size + 1, 24);
    }
  }

  /** The byte count with room for the sign bit, over the leading bytes. */
  lemma FromParts(v: nat)
    requires 0 < v < U256
    ensures FromU256(v) == Some(Leading(v, Bytes(v)) + Bytes(v) * 0x100_0000)
  {
    hide Pow, BitLength, Or, Pack, Leading, FirstBytes;
    BytesBound(v);
    FirstMantissa(v);
    var size := (BitLength(v) + 7) / 8;
    FirstCompact(v, size);
    LeadingNext(v, size);
    PackIs(Leading(v, size), size);
  }

  lemma FirstCompact(v: nat, size: nat)
    requires size == (BitLength(v) + 7) / 8 && Leading(v, size) < 0x100_0000
    ensures Leading(v, size) == FirstBytes(v, size)
  {
    hide Pow, BitLength;
    if size <= 3 {
      BitLengthBounds(v);
      Widths();
      PowMono(2, BitLength(v), 24);
    }
  }

  // ---------------------------------------------------------------- the round trip

  /** The value that comes back: exact up to three bytes, then cut to the leading bytes. */
  function Rounded(v: nat): nat {
    if v == 0 || Bytes(v) <= 3 then v else (v / P(8 * (Bytes(v) - 3))) * P(8 * (Bytes(v) - 3))
  }

  lemma ToParts(mantissa: nat, size: nat)
    requires mantissa < 0x80_0000 && size < 256
    requires size <= 32 || (size == 33 && mantissa < 0x1_0000)
    ensures var c := mantissa + size * 0x100_0000;
      && c < U32
      && ToU256(c) == Ok(if size <= 3 then mantissa / P(8 * (3 - size)) else (mantissa * P(8 * (size - 3))) % U256)
  {
    hide Pow;
    var c := mantissa + size * 0x100_0000;
    assert c / 0x100_0000 == size && c % 0x80_0000 == mantissa && (c / 0x80_0000) % 2 == 0;
  }

  lemma QuotientTimes(v: nat, d: nat)
    requires 0 < d
    ensures (v / d) * d <= v < (v / d) * d + d
  {
  }

  /** Every 256-bit number is written, and read back as `Rounded`. */
  lemma DecodedIsRounded(v: nat)
    requires v < U256
    ensures FromU256(v).Some? && FromU256(v).value < U32
    ensures ToU256(FromU256(v).value) == Ok(Rounded(v)) && Rounded(v) <= v
  {
    hide Pow, BitLength, Pack, FirstBytes, ToU256;
    if v == 0 {
      BitLengthBounds(0);
      ZeroPacked();
    } else {
      FromParts(v);
      MantissaFits(v);
      BytesBound(v);
      var z, m := Bytes(v), Leading(v, Bytes(v));
      ToParts(m, z);
      if z <= 3 {
        DivUnique(v * P(8 * (3 - z)), P(8 * (3 - z)), v, 0);
      } else {
        QuotientTimes(v, P(8 * (z - 3)));
        DivZero(m * P(8 * (z - 3)), U256);
      }
    }
  }

  lemma ZeroPacked()
    ensures Pack(FirstBytes(0, 0), 0) == Some(0) && ToU256(0) == Ok(0)
  {
    hide Pow, Pack, ToU256;
    PackIs(0, 0);
    ToParts(0, 0);
    DivZero(0, P(24));
  }

  /** What is cut off is at most one part in 2^15. */
  lemma RoundingError(v: nat)
    requires v < U256
    ensures (v - Rounded(v)) * 0x8000 <= v
  {
    hide Pow, BitLength;
    if v > 0 && Bytes(v) > 3 {
      var p := P(8 * (Bytes(v) - 3));
      MantissaFits(v);
      QuotientTimes(v, p);
      MulMono(0x8000, v / p, p);
    }
  }

  /** Cutting keeps the highest bit, so it keeps the byte count. */
  lemma RoundedBits(v: nat)
    requires 0 < v < U256
    ensures Pow(2, BitLength(v) - 1) <= Rounded(v) && BitLength(Rounded(v)) == BitLength(v)
  {
    hide Pow, BitLength;
    BytesBound(v);
    var b, z := BitLength(v), Bytes(v);
    if z > 3 {
      var d := 8 * (z - 3);
      PowAdd(2, b - 1 - d, d);
      DivMono(Pow(2, b - 1 - d) * P(d), v, P(d));
      DivUnique(Pow(2, b - 1 - d) * P(d), P(d), Pow(2, b - 1 - d), 0);
      MulMono(Pow(2, b - 1 - d), v / P(d), P(d));
      QuotientTimes(v, P(d));
    }
    BitLengthUnique(Rounded(v), b);
  }

  /** Writing what came back writes the same compact form. */
  lemma ReencodesTheSame(v: nat)
    requires v < U256
    ensures Rounded(v) < U256 && FromU256(Rounded(v)) == FromU256(v)
  {
    hide Pow, BitLength, Pack, FirstBytes;
    if v > 0 && Bytes(v) > 3 {
      var p := P(8 * (Bytes(v) - 3));
      QuotientTimes(v, p);
      RoundedBits(v);
      PowPositive(2, BitLength(v) - 1);
      DivUnique(Rounded(v), p, v / p, 0);
      FromParts(v);
      FromParts(Rounded(v));
    }
  }

  lemma RoundedBelow(v: nat)
    ensures Rounded(v) <= v
  {
    hide Pow, BitLength;
    if v > 0 && Bytes(v) > 3 {
      QuotientTimes(v, P(8 * (Bytes(v) - 3)));
    }
  }

  lemma SameBytes(v: nat, w: nat)
    requires 0 < v <= w && Bytes(v) == Bytes(w)
    ensures Rounded(v) <= Rounded(w)
  {
    hide Pow, BitLength;
    if Bytes(v) > 3 {
      var p := P(8 * (Bytes(v) - 3));
      DivMono(v, w, p);
      MulMono(v / p, w / p, p);
    }
  }

  /** Larger numbers never come back smaller. */
  lemma RoundingIsMonotone(v: nat, w: nat)
    requires v <= w < U256
    ensures Rounded(v) <= Rounded(w)
  {
    hide Pow, BitLength, Rounded;
    RoundedBelow(v);
    if v > 0 {
      BitLengthMono(v, w);
      BytesBound(v);
      if BitLength(v) < BitLength(w) {
        RoundedBits(w);
        PowMono(2, BitLength(v), BitLength(w) - 1);
      } else {
        SameBytes(v, w);
      }
    }
  }

  // ---------------------------------------------------------------- what is refused

  /** The number that a compact form stands for, of any size, without its sign. */
  function Stands(c: nat): nat {
    var size, mantissa := c / 0x100_0000, c % 0x80_0000;
    if size <= 3 then mantissa / P(8 * (3 - size)) else mantissa * P(8 * (size - 3))
  }

  lemma OverflowIff(mantissa: nat, size: nat)
    requires 3 < size && mantissa < 0x80_0000
    ensures (mantissa != 0 && size > 34) || (mantissa > 0xff && size > 33) || (mantissa > 0xffff && size > 32)
      <==> U256 <= mantissa * P(8 * (size - 3))
  {
    hide Pow;
    Widths();
    var p := P(8 * (size - 3));
    PowPositive(2, 8 * (size - 3));
    PowAdd(2, 232, 24);
    PowAdd(2, 240, 16);
    PowAdd(2, 248, 8);
    if size <= 32 {
      PowMono(2, 8 * (size - 3), 232);
      MulMono(mantissa, 0x80_0000, p);
    } else if size >= 35 {
      PowMono(2, 256, 8 * (size - 3));
      if mantissa > 0 {
        MulMono(1, mantissa, p);
      }
    }
  }

  /** `to_u256` fails if and only if the form stands for a negative number, or for one of 2^256 or more;
      otherwise it gives that number. */
  lemma RefusedIff(c: nat)
    requires c < U32
    ensures ToU256(c).Err? <==> (Stands(c) != 0 && (c / 0x80_0000) % 2 == 1) || U256 <= Stands(c)
    ensures ToU256(c).Ok? ==> ToU256(c).value == Stands(c)
  {
    hide Pow;
    var size, mantissa := c / 0x100_0000, c % 0x80_0000;
    if size <= 3 {
      PowPositive(2, 8 * (3 - size));
      QuotientTimes(mantissa, P(8 * (3 - size)));
      MulMono(1, P(8 * (3 - size)), mantissa / P(8 * (3 - size)));
    } else {
      PowPositive(2, 8 * (size - 3));
      OverflowIff(mantissa, size);
      NonZeroTimes(mantissa, P(8 * (size - 3)));
      if mantissa * P(8 * (size - 3)) < U256 {
        DivZero(mantissa * P(8 * (size - 3)), U256);
      }
    }
  }

  lemma NonZeroTimes(m: nat, p: nat)
    ensures 0 < p ==> (m * p == 0 <==> m == 0)
  {
  }
}

/**
 * The cells and rows of an IES table (IesRow) and their typed accessors.
 *
 * A row is a dictionary from column name to cell, filled with Add in catalog
 * order. A numeric field of the file is four bytes holding an IEEE-754 single.
 * The decoder tests whether the float is a whole number, but the value it
 * stores is a float either way: the float read, with -0.0 turned into +0.0
 * (NumericCell). Floats are kept as their raw bits.
 */
module Rows {
  import opened Primitives

  type int32 = x: int | -0x8000_0000 <= x < 0x8000_0000

  datatype Cell = UIntCell(u: uint32) | FloatCell(bits: uint32) | TextCell(text: seq<byte>)

  datatype Entry = Entry(key: seq<byte>, cell: Cell)

  /** IesRow: the entries in the order they were added. */
  datatype Row = Row(entries: seq<Entry>)

  function Keys(row: Row): (r: seq<seq<byte>>)
    ensures |r| == |row.entries| && forall i :: 0 <= i < |r| ==> r[i] == row.entries[i].key
  {
    seq(|row.entries|, i requires 0 <= i < |row.entries| => row.entries[i].key)
  }

  /** Dictionary.ContainsKey */
  predicate ContainsKey(row: Row, name: seq<byte>) {
    name in Keys(row)
  }

  /** The dictionary indexer: the cell stored under `name`, looked up from the latest entry back. */
  function Find(entries: seq<Entry>, name: seq<byte>): (r: Option<Cell>)
    ensures r.Some? <==> exists i :: 0 <= i < |entries| && entries[i].key == name
    ensures r.Some? ==> exists i :: 0 <= i < |entries| && entries[i] == Entry(name, r.value)
    decreases |entries|
  {
    if entries == [] then None
    else
      var last := entries[|entries| - 1];
      var r := Find(entries[..|entries| - 1], name);
      if last.key == name then Some(last.cell) else r
  }

  function Lookup(row: Row, name: seq<byte>): (r: Option<Cell>)
    ensures r.Some? <==> ContainsKey(row, name)
  {
    var r := Find(row.entries, name);
    assert r.Some? ==> name in Keys(row) by {
      if r.Some? {
        var i :| 0 <= i < |row.entries| && row.entries[i].key == name;
        assert Keys(row)[i] == name;
      }
    }
    r
  }

  /** Dictionary.Add: appends the entry, or fails with an ArgumentException when the key is present. */
  function Add(row: Row, key: seq<byte>, cell: Cell): (r: Result<Row, DecodeError>)
    ensures r.Ok? <==> !ContainsKey(row, key)
    ensures r.Err? ==> r.error == DuplicateKey(key)
    ensures r.Ok? ==> Keys(r.value) == Keys(row) + [key]
  {
    if ContainsKey(row, key) then Err(DuplicateKey(key))
    else Ok(Row(row.entries + [Entry(key, cell)]))
  }

  /** After Add the new key maps to the new cell and every other key to what it mapped to before. */
  lemma AddThenLookup(row: Row, key: seq<byte>, cell: Cell, other: seq<byte>)
    requires Add(row, key, cell).Ok?
    ensures Lookup(Add(row, key, cell).value, key) == Some(cell)
    ensures other != key ==> Lookup(Add(row, key, cell).value, other) == Lookup(row, other)
  {
    var e := row.entries + [Entry(key, cell)];
    assert e[..|e| - 1] == row.entries;
  }

  /** 2^n */
  function Pow2(n: nat): (r: nat)
    ensures 1 <= r
  {
    if n == 0 then 1 else 2 * Pow2(n - 1)
  }

  lemma {:induction false} Pow2AtMost(n: nat, m: nat)
    requires n <= m
    ensures Pow2(n) <= Pow2(m)
    decreases m
  {
    if n < m {
      Pow2AtMost(n, m - 1);
    }
  }

  /** m / 2^k when 2^k divides m, found by halving k times; None when a halving leaves a remainder. */
  function HalvedExactly(m: nat, k: nat): (r: Option<nat>)
    ensures r.Some? ==> r.value <= m
    decreases k
  {
    if k == 0 then Some(m)
    else if m % 2 == 0 then HalvedExactly(m / 2, k - 1)
    else None
  }

  /** m * 2^k, by doubling k times. */
  function Doubled(m: nat, k: nat): nat
    decreases k
  {
    if k == 0 then m else 2 * Doubled(m, k - 1)
  }

  lemma {:induction false} HalvedExactlyDivides(m: nat, k: nat)
    ensures HalvedExactly(m, k).Some? <==> m % Pow2(k) == 0
    ensures HalvedExactly(m, k).Some? ==> HalvedExactly(m, k).value * Pow2(k) == m
    decreases k
  {
    if k > 0 {
      HalvedExactlyDivides(m / 2, k - 1);
      var p := Pow2(k - 1);
      assert Pow2(k) == 2 * p;
      // m = 2 * (m / 2) + m % 2, and (m / 2) = p * q + m / 2 % p
      var q := (m / 2) / p;
      var rest := (m / 2) % p;
      assert m / 2 == p * q + rest;
      assert m == 2 * p * q + 2 * rest + m % 2;
      assert 0 <= 2 * rest + m % 2 < 2 * p;
      assert m % (2 * p) == 2 * rest + m % 2 by {
        DivModUnique(m, 2 * p, q, 2 * rest + m % 2);
      }
    }
  }

  lemma SmallMultiple(t: int, d: int)
    requires 0 < d && -d < t * d < d
    ensures t == 0
  {
  }

  lemma DivModUnique(m: int, d: int, q: int, r: int)
    requires 0 < d && m == d * q + r && 0 <= r < d
    ensures m % d == r && m / d == q
  {
    var q0, r0 := m / d, m % d;
    assert m == d * q0 + r0;
    assert (q - q0) * d == r0 - r;
    SmallMultiple(q - q0, d);
  }

  lemma {:induction false} DoubledIsProduct(m: nat, k: nat)
    ensures Doubled(m, k) == m * Pow2(k)
    decreases k
  {
    if k > 0 {
      DoubledIsProduct(m, k - 1);
      assert m * Pow2(k) == 2 * (m * Pow2(k - 1));
    }
  }

  /** A significand shifted left by at most 8 places still fits in 32 bits. */
  lemma DoubledBelow(m: nat, k: nat)
    requires m < 0x100_0000 && k < 9
    ensures Doubled(m, k) < 0x1_0000_0000
  {
    DoubledIsProduct(m, k);
    Pow2AtMost(k, 8);
    assert m * Pow2(k) <= m * 0x100;
  }

  /**
   * The numeric test of ReadRows on the float f with these bits: f converted
   * to uint, the difference between f and that whole number taken back to
   * float, and the test |difference| < float.Epsilon. float.Epsilon is the
   * smallest subnormal, so the test holds exactly when f equals the converted
   * whole number: for +0.0 and -0.0 (both give 0) and for every whole f with
   * 1 <= f < 2^32. NaN, infinities, negative values, fractions and values of
   * at least 2^32 fail it.
   *
   * A normal single with biased exponent e and significand m (the 23 stored
   * bits with the implicit leading 1) is m * 2^(e - 150).
   */
  function WholeValue(bits: uint32): (r: Option<uint32>)
    ensures r.Some? ==> bits <= 0x8000_0000
    ensures bits % 0x8000_0000 == 0 ==> r == Some(0)
  {
    var negative := 0x8000_0000 <= bits;
    var exponent := (bits / 0x80_0000) % 0x100;
    var significand := 0x80_0000 + bits % 0x80_0000;
    if bits % 0x8000_0000 == 0 then Some(0)
    else if negative || exponent < 127 || 159 <= exponent then None
    else if 150 <= exponent then
      DoubledBelow(significand, exponent - 150);
      Some(Doubled(significand, exponent - 150))
    else
      match HalvedExactly(significand, 150 - exponent)
      case Some(u) => Some(u)
      case None => None
  }

  /**
   * In terms of the exponent e and significand m of a positive single: below
   * 2^23 the test passes exactly when 2^(150 - e) divides m, and the whole
   * number is m / 2^(150 - e); from 2^23 up to 2^32 it always passes, with
   * m * 2^(e - 150).
   */
  lemma WholeValueIsTheFloat(bits: uint32)
    requires bits < 0x8000_0000
    ensures var e := (bits / 0x80_0000) % 0x100;
            var m := 0x80_0000 + bits % 0x80_0000;
            && (127 <= e < 150 ==>
                  && (WholeValue(bits).Some? <==> m % Pow2(150 - e) == 0)
                  && (WholeValue(bits).Some? ==> WholeValue(bits).value * Pow2(150 - e) == m))
            && (150 <= e < 159 ==> WholeValue(bits) == Some(m * Pow2(e - 150)))
  {
    var e := (bits / 0x80_0000) % 0x100;
    var m := 0x80_0000 + bits % 0x80_0000;
    if 127 <= e < 150 {
      HalvedExactlyDivides(m, 150 - e);
    } else if 150 <= e < 159 {
      DoubledIsProduct(m, e - 150);
    }
  }

  /** The biased exponent of a single; 255 marks NaN and the infinities. */
  function Exponent(bits: uint32): nat {
    (bits / 0x80_0000) % 0x100
  }

  /**
   * |f| for a finite single f: a subnormal (exponent 0) is its fraction
   * times 2^-149, a normal one its significand times 2^(e - 150).
   */
  function Magnitude(bits: uint32): real
    requires Exponent(bits) < 255
  {
    var e := Exponent(bits);
    var fraction := bits % 0x80_0000;
    if e == 0 then fraction as real / Pow2(149) as real
    else if 150 <= e then ((0x80_0000 + fraction) * Pow2(e - 150)) as real
    else (0x80_0000 + fraction) as real / Pow2(150 - e) as real
  }

  /** The value of a finite single. */
  function SingleValue(bits: uint32): real
    requires Exponent(bits) < 255
  {
    if 0x8000_0000 <= bits then -Magnitude(bits) else Magnitude(bits)
  }

  lemma Pow2Values()
    ensures Pow2(9) == 0x200 && Pow2(22) == 0x40_0000 && Pow2(23) == 0x80_0000 && Pow2(24) == 0x100_0000
  {
    assert Pow2(6) == 0x40;
    assert Pow2(9) == 0x200;
    assert Pow2(12) == 0x1000;
    assert Pow2(18) == 0x4_0000;
  }

  lemma RealQuotient(a: nat, p: nat, n: int)
    requires 0 < p
    ensures a as real / p as real == n as real <==> a == n * p
  {
    if a as real / p as real == n as real {
      assert a as real == n as real * p as real;
      assert (n * p) as real == n as real * p as real;
    }
  }

  lemma QuotientBelowOne(a: nat, p: nat)
    requires a < p
    ensures 0.0 <= a as real / p as real < 1.0
    ensures 0 < a ==> 0.0 < a as real / p as real
  {
  }

  lemma QuotientBetween(a: nat, p: nat, k: nat)
    requires 0 < p && k * p <= a < (k + 1) * p
    ensures k as real <= a as real / p as real < (k + 1) as real
  {
    assert (k * p) as real == k as real * p as real;
    assert ((k + 1) * p) as real == (k + 1) as real * p as real;
  }

  /** A finite single with exponent below 127 is less than 1 in magnitude, and 0 only for +0.0 and -0.0. */
  lemma MagnitudeBelowOne(bits: uint32)
    requires Exponent(bits) < 127
    ensures 0.0 <= Magnitude(bits) < 1.0
    ensures bits % 0x8000_0000 != 0 ==> 0.0 < Magnitude(bits)
  {
    if Exponent(bits) == 0 {
      SubnormalBelowOne(bits);
    } else {
      NormalBelowOne(bits);
    }
  }

  /** MagnitudeBelowOne for a subnormal single. */
  lemma SubnormalBelowOne(bits: uint32)
    requires Exponent(bits) == 0
    ensures 0.0 <= Magnitude(bits) < 1.0
    ensures bits % 0x8000_0000 != 0 ==> 0.0 < Magnitude(bits)
  {
    var fraction := bits % 0x80_0000;
    Pow2Values();
    assert bits % 0x8000_0000 == fraction;
    assert Magnitude(bits) == fraction as real / Pow2(149) as real;
    Pow2AtMost(24, 149);
    QuotientBelowOne(fraction, Pow2(149));
  }

  /** MagnitudeBelowOne for a normal single with exponent from 1 to 126. */
  lemma NormalBelowOne(bits: uint32)
    requires 0 < Exponent(bits) < 127
    ensures 0.0 < Magnitude(bits) < 1.0
  {
    var e := Exponent(bits);
    var m := 0x80_0000 + bits % 0x80_0000;
    Pow2Values();
    assert Magnitude(bits) == m as real / Pow2(150 - e) as real;
    Pow2AtMost(24, 150 - e);
    QuotientBelowOne(m, Pow2(150 - e));
  }

  lemma QuotientAtLeastOne(a: nat, p: nat)
    requires 0 < p <= a
    ensures 1.0 <= a as real / p as real
  {
  }

  lemma ProductAtLeast(a: nat, b: nat, x: nat, y: nat)
    requires x <= a && y <= b
    ensures x * y <= a * b
  {
    assert x * y <= a * y;
  }

  /** Every single with exponent from 127 up is at least 1 in magnitude. */
  lemma MagnitudeAtLeastOne(bits: uint32)
    requires 127 <= Exponent(bits) < 255
    ensures 1.0 <= Magnitude(bits)
  {
    var e := Exponent(bits);
    var m := 0x80_0000 + bits % 0x80_0000;
    if e < 150 {
      Pow2Values();
      Pow2AtMost(150 - e, 23);
      assert Magnitude(bits) == m as real / Pow2(150 - e) as real;
      QuotientAtLeastOne(m, Pow2(150 - e));
    } else {
      assert Magnitude(bits) == (m * Pow2(e - 150)) as real;
      ProductAtLeast(m, Pow2(e - 150), 1, 1);
    }
  }

  /** From exponent 159 up a finite single is at least 2^32 in magnitude. */
  lemma MagnitudeAtLeast2To32(bits: uint32)
    requires 159 <= Exponent(bits) < 255
    ensures 0x1_0000_0000 as real <= Magnitude(bits)
  {
    var e := Exponent(bits);
    var m := 0x80_0000 + bits % 0x80_0000;
    Pow2Values();
    Pow2AtMost(9, e - 150);
    ProductAtLeast(m, Pow2(e - 150), 0x80_0000, 0x200);
    assert Magnitude(bits) == (m * Pow2(e - 150)) as real;
  }

  /** A whole number the test accepts is the value of the float read. */
  lemma WholeValueIsTheValue(bits: uint32)
    requires WholeValue(bits).Some?
    ensures Exponent(bits) < 255
    ensures SingleValue(bits) == WholeValue(bits).value as real
  {
    var u := WholeValue(bits).value;
    if bits % 0x8000_0000 == 0 {
      ZeroMagnitude(bits);
    } else {
      WholeValueShape(bits);
      var e := Exponent(bits);
      var m := 0x80_0000 + bits % 0x80_0000;
      WholeValueIsTheFloat(bits);
      if e < 150 {
        var p := Pow2(150 - e);
        assert Magnitude(bits) == m as real / p as real;
        RealQuotient(m, p, u);
      } else {
        assert Magnitude(bits) == (m * Pow2(e - 150)) as real;
      }
    }
  }

  /** A non-zero float that passes the test is positive, with an exponent from 127 to 158. */
  lemma WholeValueShape(bits: uint32)
    requires WholeValue(bits).Some? && bits % 0x8000_0000 != 0
    ensures bits < 0x8000_0000 && 127 <= Exponent(bits) < 159
  {
  }

  /** +0.0 and -0.0 have magnitude 0. */
  lemma ZeroMagnitude(bits: uint32)
    requires bits % 0x8000_0000 == 0
    ensures Exponent(bits) == 0 && Magnitude(bits) == 0.0
  {
    if bits == 0 {
      assert Exponent(0) == 0;
    } else {
      assert bits == 0x8000_0000;
      assert Exponent(0x8000_0000) == 0;
    }
  }

  /** Conversely, a float whose value is a whole number below 2^32 passes the test with that number. */
  lemma WholeNumbersPass(bits: uint32, n: nat)
    requires Exponent(bits) < 255 && n < 0x1_0000_0000
    requires SingleValue(bits) == n as real
    ensures WholeValue(bits) == Some(n)
  {
    var e := Exponent(bits);
    if bits % 0x8000_0000 == 0 {
      ZeroMagnitude(bits);
      assert n == 0;
    } else {
      if e < 127 {
        MagnitudeBelowOne(bits);
        assert false;
      }
      MagnitudeAtLeastOne(bits);
      assert bits < 0x8000_0000;
      if 159 <= e {
        MagnitudeAtLeast2To32(bits);
        assert false;
      }
      WholeNumbersPassNormal(bits, n);
    }
  }

  /** WholeNumbersPass for a positive single with exponent from 127 to 158. */
  lemma WholeNumbersPassNormal(bits: uint32, n: nat)
    requires bits < 0x8000_0000 && 127 <= Exponent(bits) < 159 && n < 0x1_0000_0000
    requires SingleValue(bits) == n as real
    ensures WholeValue(bits) == Some(n)
  {
    if Exponent(bits) < 150 {
      WholeNumbersPassBelow2To23(bits, n);
    } else {
      var e := Exponent(bits);
      var m := 0x80_0000 + bits % 0x80_0000;
      WholeValueIsTheFloat(bits);
      assert SingleValue(bits) == (m * Pow2(e - 150)) as real;
    }
  }

  /** WholeNumbersPass for a positive single with exponent from 127 to 149. */
  lemma WholeNumbersPassBelow2To23(bits: uint32, n: nat)
    requires bits < 0x8000_0000 && 127 <= Exponent(bits) < 150
    requires SingleValue(bits) == n as real
    ensures WholeValue(bits) == Some(n)
  {
    var e := Exponent(bits);
    var m := 0x80_0000 + bits % 0x80_0000;
    var p := Pow2(150 - e);
    WholeValueIsTheFloat(bits);
    assert SingleValue(bits) == m as real / p as real;
    RealQuotient(m, p, n);
    DivModUnique(m, p, n, 0);
    var u := WholeValue(bits).value;
    assert m == p * u;
    DivModUnique(m, p, u, 0);
  }

  /**
   * The whole part of the single with these bits, rounded toward zero as the
   * (int) and (uint) conversions do; None for NaN and the infinities.
   */
  function Truncated(bits: uint32): (r: Option<int>)
    ensures r.Some? <==> Exponent(bits) < 255
  {
    var e := Exponent(bits);
    var m := 0x80_0000 + bits % 0x80_0000;
    if e == 255 then None
    else if e < 127 then Some(0)
    else
      var k := if 150 <= e then Doubled(m, e - 150) else m / Pow2(150 - e);
      Some(if 0x8000_0000 <= bits then -k else k)
  }

  /** Truncated gives the sign of f and the largest whole number k with k <= |f|. */
  lemma TruncatedIsTheWholePart(bits: uint32)
    requires Exponent(bits) < 255
    ensures var t := Truncated(bits).value;
            var k := if 0x8000_0000 <= bits then -t else t;
            0 <= k && k as real <= Magnitude(bits) < (k + 1) as real
  {
    var e := Exponent(bits);
    var m := 0x80_0000 + bits % 0x80_0000;
    if e < 127 {
      MagnitudeBelowOne(bits);
    } else if e < 150 {
      var p := Pow2(150 - e);
      assert Magnitude(bits) == m as real / p as real;
      assert Truncated(bits) == Some(if 0x8000_0000 <= bits then -(m / p) else m / p);
      FloorQuotient(m, p);
    } else {
      assert Magnitude(bits) == (m * Pow2(e - 150)) as real;
      DoubledIsProduct(m, e - 150);
    }
  }

  /** a / p, rounded down, is the whole part of the real quotient. */
  lemma FloorQuotient(a: nat, p: nat)
    requires 0 < p
    ensures 0 <= a / p
    ensures (a / p) as real <= a as real / p as real < (a / p + 1) as real
  {
    var k := a / p;
    assert a == k * p + a % p;
    QuotientBetween(a, p, k);
  }

  /** A float the test accepts truncates to its own whole value, once its sign bit is cleared. */
  lemma TruncatedOfWhole(bits: uint32)
    requires WholeValue(bits).Some?
    ensures Truncated(bits % 0x8000_0000) == Some(WholeValue(bits).value)
  {
    var u := WholeValue(bits).value;
    if bits % 0x8000_0000 == 0 {
      ZeroMagnitude(bits);
      assert bits % 0x8000_0000 == 0;
    } else {
      WholeValueShape(bits);
      assert bits % 0x8000_0000 == bits;
      var e := Exponent(bits);
      var m := 0x80_0000 + bits % 0x80_0000;
      if e < 150 {
        WholeValueIsTheFloat(bits);
        var p := Pow2(150 - e);
        assert Truncated(bits) == Some(m / p);
        assert m == p * u;
        DivModUnique(m, p, u, 0);
      } else {
        assert WholeValue(bits) == Some(Doubled(m, e - 150));
        assert Truncated(bits) == Some(Doubled(m, e - 150));
      }
    }
  }

  /** -2.5 truncates to -2, 0.5 to 0, and NaN has no whole part. */
  lemma TruncatedExamples()
    ensures Truncated(0xC020_0000) == Some(-2)
    ensures Truncated(0x3F00_0000) == Some(0)
    ensures Truncated(0x7FC0_0000) == None
  {
    assert Exponent(0xC020_0000) == 128 && 0xC020_0000 % 0x80_0000 == 0x20_0000;
    Pow2Values();
    assert Exponent(0x3F00_0000) == 126;
    assert Exponent(0x7FC0_0000) == 255;
  }

  /** 5000000.0 (exponent 149, one fraction bit) passes the test with 5000000. */
  lemma WholeValueOfFiveMillion()
    ensures WholeValue(0x4A98_9680) == Some(5_000_000)
    ensures NumericCell(0x4A98_9680) == FloatCell(0x4A98_9680)
  {
    assert 0x4A98_9680 / 0x80_0000 == 149 && 0x4A98_9680 % 0x80_0000 == 0x18_9680;
  }

  /** 4194304.5 has a fraction: it fails the test and is stored as read. */
  lemma WholeValueOfAFraction()
    ensures WholeValue(0x4A80_0001) == None
    ensures NumericCell(0x4A80_0001) == FloatCell(0x4A80_0001)
  {
    assert 0x4A80_0001 / 0x80_0000 == 149 && 0x4A80_0001 % 0x80_0000 == 1;
  }

  /** 16777218.0 (exponent 151, past the significand's precision) passes the test with 16777218. */
  lemma WholeValueOfALargeNumber()
    ensures WholeValue(0x4B80_0001) == Some(16_777_218)
    ensures NumericCell(0x4B80_0001) == FloatCell(0x4B80_0001)
  {
    assert 0x4B80_0001 / 0x80_0000 == 151 && 0x4B80_0001 % 0x80_0000 == 1;
  }

  /** NaN and 2^32 fail the test; -0.0 passes it with 0 and is stored as +0.0. */
  lemma WholeValueOfSpecials()
    ensures WholeValue(0x7FC0_0000) == None
    ensures WholeValue(0x4F80_0000) == None
    ensures WholeValue(0x8000_0000) == Some(0)
    ensures NumericCell(0x8000_0000) == FloatCell(0)
  {
    assert 0x7FC0_0000 / 0x80_0000 == 255;
    assert 0x4F80_0000 / 0x80_0000 == 159;
  }

  /**
   * The cell ReadRows stores for a numeric field. The conditional that picks
   * the value has a uint and a float operand, so its type is float: the cell
   * is (float)maxValue when the test passes and the float read otherwise.
   * (float)maxValue is the non-negative float whose value is the accepted
   * whole number, that is the float read with its sign bit cleared.
   */
  function NumericCell(bits: uint32): (c: Cell)
    ensures c.FloatCell?
  {
    match WholeValue(bits)
    case Some(_) => FloatCell(bits % 0x8000_0000)
    case None => FloatCell(bits)
  }

  /**
   * Whatever the test decides, the cell holds the float read, except that
   * -0.0 comes back as +0.0.
   */
  lemma NumericCellKeepsTheFloat(bits: uint32)
    ensures NumericCell(bits) == FloatCell(if bits == 0x8000_0000 then 0 else bits)
  {
  }

  /** When the test passes the stored float is non-negative and its value is exactly the accepted whole number. */
  lemma NumericCellIsTheWholeNumber(bits: uint32)
    requires WholeValue(bits).Some?
    ensures var stored := NumericCell(bits).bits;
            && stored < 0x8000_0000 && Exponent(stored) < 255
            && SingleValue(stored) == WholeValue(bits).value as real
  {
    var stored := bits % 0x8000_0000;
    assert NumericCell(bits) == FloatCell(stored);
    if bits % 0x8000_0000 == 0 {
      ZeroMagnitude(stored);
    } else {
      WholeValueShape(bits);
      assert stored == bits;
      WholeValueIsTheValue(bits);
    }
  }

  datatype AccessError = UnknownField(name: seq<byte>) | NotNumeric(name: seq<byte>) | NotAString(name: seq<byte>)

  /**
   * A float returned by GetFloat: a stored float, or (float)u for a uint put
   * into the dictionary by other code (rounding not modelled).
   */
  datatype Single = SingleBits(bits: uint32) | SingleOfUInt(u: uint32)

  /**
   * An integer returned by GetInt or GetUInt. A float whose whole part fits
   * in an int converts to it exactly. For NaN, the infinities and a whole
   * part outside the int range the unchecked (int) conversion gives a value
   * the C# specification leaves open; it is kept symbolic, as the int itself
   * (UnspecifiedInt) and as that int cast to uint (UnspecifiedUInt).
   */
  datatype Whole = Exact(value: int) | UnspecifiedInt(bits: uint32) | UnspecifiedUInt(bits: uint32)

  /** Unchecked (int) of a uint: the same 32 bits read as two's complement. */
  function AsInt32(u: uint32): (i: int32)
    ensures i % 0x1_0000_0000 == u
  {
    if u < 0x8000_0000 then u else u - 0x1_0000_0000
  }

  /** Unchecked (uint) of an int: the value modulo 2^32. */
  function AsUInt32(i: int32): (u: uint32)
    ensures (u - i) % 0x1_0000_0000 == 0
  {
    i % 0x1_0000_0000
  }

  /** Unchecked (int) of a float: its whole part when that fits in an int. */
  function IntOfSingle(bits: uint32): (w: Whole)
    ensures w.Exact? || w == UnspecifiedInt(bits)
    ensures w.Exact? <==> Truncated(bits).Some? && -0x8000_0000 <= Truncated(bits).value < 0x8000_0000
    ensures w.Exact? ==> Truncated(bits) == Some(w.value)
  {
    match Truncated(bits)
    case Some(t) => if -0x8000_0000 <= t < 0x8000_0000 then Exact(t) else UnspecifiedInt(bits)
    case None => UnspecifiedInt(bits)
  }

  /** IesRow.GetFloat */
  function GetFloat(row: Row, name: seq<byte>): (r: Result<Single, AccessError>)
    ensures !ContainsKey(row, name) ==> r == Err(UnknownField(name))
    ensures r.Ok? <==> ContainsKey(row, name) && !Lookup(row, name).value.TextCell?
    ensures ContainsKey(row, name) && Lookup(row, name).value.TextCell? ==> r == Err(NotNumeric(name))
  {
    if !ContainsKey(row, name) then Err(UnknownField(name))
    else match Lookup(row, name).value
      case FloatCell(bits) => Ok(SingleBits(bits))
      case UIntCell(u) => Ok(SingleOfUInt(u))
      case TextCell(_) => Err(NotNumeric(name))
  }

  /** IesRow.GetInt */
  function GetInt(row: Row, name: seq<byte>): (r: Result<Whole, AccessError>)
    ensures !ContainsKey(row, name) ==> r == Err(UnknownField(name))
    ensures r.Ok? <==> ContainsKey(row, name) && !Lookup(row, name).value.TextCell?
    ensures ContainsKey(row, name) && Lookup(row, name).value.TextCell? ==> r == Err(NotNumeric(name))
    ensures r.Ok? ==> !r.value.UnspecifiedUInt?
    ensures r.Ok? && r.value.Exact? ==> -0x8000_0000 <= r.value.value < 0x8000_0000
  {
    if !ContainsKey(row, name) then Err(UnknownField(name))
    else match Lookup(row, name).value
      case FloatCell(bits) => Ok(IntOfSingle(bits))
      case UIntCell(u) => Ok(Exact(AsInt32(u)))
      case TextCell(_) => Err(NotNumeric(name))
  }

  /** IesRow.GetUInt: GetInt, then an unchecked cast to uint. */
  function GetUInt(row: Row, name: seq<byte>): (r: Result<Whole, AccessError>)
    ensures r.Err? <==> GetInt(row, name).Err?
    ensures r.Err? ==> r.error == GetInt(row, name).error
    ensures r.Ok? ==> !r.value.UnspecifiedInt?
    ensures r.Ok? && r.value.Exact? ==>
              && 0 <= r.value.value < 0x1_0000_0000
              && GetInt(row, name).value.Exact?
              && (r.value.value - GetInt(row, name).value.value) % 0x1_0000_0000 == 0
  {
    match GetInt(row, name)
    case Err(e) => Err(e)
    case Ok(Exact(i)) => Ok(Exact(AsUInt32(i)))
    case Ok(UnspecifiedInt(bits)) => Ok(UnspecifiedUInt(bits))
    case Ok(UnspecifiedUInt(bits)) => Ok(UnspecifiedUInt(bits))
  }

  /** GetUInt gives back a uint stored by other code unchanged: (uint)(int)u == u. */
  lemma GetUIntOfWhole(row: Row, name: seq<byte>, u: uint32)
    requires Lookup(row, name) == Some(UIntCell(u))
    ensures GetUInt(row, name) == Ok(Exact(u))
    ensures GetInt(row, name) == Ok(Exact(if u < 0x8000_0000 then u else u - 0x1_0000_0000))
  {
  }

  /** GetFloat of a decoded numeric cell is the float read (+0.0 for -0.0). */
  lemma GetFloatOfDecoded(row: Row, name: seq<byte>, bits: uint32)
    requires Lookup(row, name) == Some(NumericCell(bits))
    ensures GetFloat(row, name) == Ok(SingleBits(if bits == 0x8000_0000 then 0 else bits))
  {
    NumericCellKeepsTheFloat(bits);
  }

  /**
   * A decoded cell that passed the test with u: GetInt and GetUInt give u
   * when u fits in an int; from 2^31 on, (int) of the float is out of range
   * and both results are unspecified.
   */
  lemma GetIntOfDecodedWhole(row: Row, name: seq<byte>, bits: uint32)
    requires Lookup(row, name) == Some(NumericCell(bits)) && WholeValue(bits).Some?
    ensures var u := WholeValue(bits).value;
            var stored := NumericCell(bits).bits;
            && (u < 0x8000_0000 ==> GetInt(row, name) == Ok(Exact(u)) && GetUInt(row, name) == Ok(Exact(u)))
            && (0x8000_0000 <= u ==>
                  GetInt(row, name) == Ok(UnspecifiedInt(stored)) && GetUInt(row, name) == Ok(UnspecifiedUInt(stored)))
  {
    var u := WholeValue(bits).value;
    var stored := bits % 0x8000_0000;
    assert NumericCell(bits) == FloatCell(stored);
    TruncatedOfWhole(bits);
    assert GetInt(row, name) == Ok(IntOfSingle(stored));
    if u < 0x8000_0000 {
      assert IntOfSingle(stored) == Exact(u);
      assert AsUInt32(u) == u;
      assert GetUInt(row, name) == Ok(Exact(AsUInt32(u)));
    } else {
      assert IntOfSingle(stored) == UnspecifiedInt(stored);
    }
  }

  /** A stored -2.5: GetInt truncates it to -2, and GetUInt casts that to 2^32 - 2. */
  lemma GetIntOfANegativeFloat(row: Row, name: seq<byte>)
    requires Lookup(row, name) == Some(FloatCell(0xC020_0000))
    ensures GetInt(row, name) == Ok(Exact(-2))
    ensures GetUInt(row, name) == Ok(Exact(0xFFFF_FFFE))
  {
    TruncatedExamples();
  }
  /** IesRow.GetString */
  function GetString(row: Row, name: seq<byte>): (r: Result<seq<byte>, AccessError>)
    ensures !ContainsKey(row, name) ==> r == Err(UnknownField(name))
    ensures r.Ok? <==> ContainsKey(row, name) && Lookup(row, name).value.TextCell?
    ensures r.Ok? ==> Lookup(row, name) == Some(TextCell(r.value))
    ensures ContainsKey(row, name) && !Lookup(row, name).value.TextCell? ==> r == Err(NotAString(name))
  {
    if !ContainsKey(row, name) then Err(UnknownField(name))
    else match Lookup(row, name).value
      case TextCell(text) => Ok(text)
      case _ => Err(NotAString(name))
  }
}

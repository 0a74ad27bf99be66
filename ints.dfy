/** Fixed-width integer types of the original (C++ u8, i8, u16, i16, i32, u32)
    and the wrap-around conversions its assignments perform. */
module Ints {

  type u8 = x: int | 0 <= x < 0x100
  type i8 = x: int | -0x80 <= x < 0x80
  type u16 = x: int | 0 <= x < 0x1_0000
  type i16 = x: int | -0x8000 <= x < 0x8000
  type i32 = x: int | -0x8000_0000 <= x < 0x8000_0000
  type u32 = x: int | 0 <= x < 0x1_0000_0000

  /** Conversion to u8: the unique value in [0, 256) congruent to x. */
  function ToU8(x: int): (r: u8)
    ensures 0 <= x < 0x100 ==> r == x
  {
    x % 0x100
  }

  /** Conversion to i16 (two's complement wrap): the unique value in
      [-32768, 32768) congruent to x modulo 2^16. */
  function ToI16(x: int): (r: i16)
    ensures -0x8000 <= x < 0x8000 ==> r == x
  {
    var m := x % 0x1_0000;
    if m < 0x8000 then m else m - 0x1_0000
  }

  /** The two's-complement bit pattern of x as an unsigned 32-bit value
      (what `x & mask` operates on). */
  function ToU32(x: int): (r: u32)
    ensures 0 <= x < 0x1_0000_0000 ==> r == x
  {
    x % 0x1_0000_0000
  }

  /** Each conversion keeps x's residue: it differs from x by a multiple of
      its modulus. */
  lemma ConversionsCongruent(x: int)
    ensures (x - ToU8(x)) % 0x100 == 0
    ensures (x - ToI16(x)) % 0x1_0000 == 0
    ensures (x - ToU32(x)) % 0x1_0000_0000 == 0
  {
    MultipleMod(x, 0x100);
    MultipleMod(x, 0x1_0000_0000);
    var q := x / 0x1_0000;
    MultipleMod(x, 0x1_0000);
    if x % 0x1_0000 >= 0x8000 {
      assert x - ToI16(x) == (q + 1) * 0x1_0000;
      DivModUnique(x - ToI16(x), 0x1_0000, q + 1, 0);
    }
  }

  /** x minus its residue is a multiple of m. */
  lemma MultipleMod(x: int, m: int)
    requires m > 0
    ensures x - x % m == (x / m) * m && (x - x % m) % m == 0
  {
    DivModUnique(x - x % m, m, x / m, 0);
  }

  function Max(a: int, b: int): (m: int)
    ensures m >= a && m >= b
    ensures m == a || m == b
  {
    if a >= b then a else b
  }

  /** C/C++ integer division, which truncates toward zero (Dafny's `/` is
      Euclidean). */
  function TruncDiv(a: int, b: int): (q: int)
    requires b > 0
    ensures a >= 0 ==> 0 <= a - q * b < b
    ensures a < 0 ==> -b < a - q * b <= 0
  {
    if a >= 0 then a / b else -((-a) / b)
  }

  /** Cell (row, col) of a grid of rows rows of rowLen cells, numbered row
      by row, lies inside the grid. */
  lemma GridIndex(row: int, rows: int, rowLen: int, col: int)
    requires 0 <= row < rows && 0 <= col < rowLen
    ensures 0 <= row * rowLen + col < rowLen * rows
  {
    MulMonotone(row, rows - 1, rowLen);
    assert (rows - 1) * rowLen + rowLen == rowLen * rows;
    if row > 0 {
      MulAtLeast(row, rowLen);
    }
  }

  /** Record i of n records of a bytes each ends no later than the last one. */
  lemma RecordFits(a: nat, i: nat, n: nat)
    requires i < n
    ensures a * i + a <= a * n
  {
    assert a * n == a * i + a * (n - i);
    assert a * (n - i) == a + a * (n - i - 1);
  }

  /** A positive multiple of w is at least w. */
  lemma {:induction false} MulAtLeast(d: int, w: int)
    requires d >= 1 && w > 0
    ensures d * w >= w
  {
    if d > 1 {
      MulAtLeast(d - 1, w);
      assert d * w == (d - 1) * w + w;
    }
  }

  lemma MulMonotone(a: int, c: int, w: int)
    requires a <= c && w > 0
    ensures a * w <= c * w
  {
    if a < c {
      MulAtLeast(c - a, w);
      assert c * w - a * w == (c - a) * w;
    }
  }

  /** A product with a positive factor that is not negative has a factor
      that is not negative. */
  lemma MulNonNegative(a: int, w: int)
    requires w > 0 && a * w >= 0
    ensures a >= 0
  {
    if a < 0 {
      MulMonotone(a, -1, w);
    }
  }

  /** Euclidean division is unique: k = q w + m with 0 <= m < w fixes both. */
  lemma DivModUnique(k: int, w: int, q: int, m: int)
    requires w > 0 && 0 <= m < w && k == q * w + m
    ensures k / w == q && k % w == m
  {
    var q', m' := k / w, k % w;
    assert k == q' * w + m';
    assert (q - q') * w == m' - m;
    if q > q' {
      MulAtLeast(q - q', w);
    } else if q < q' {
      MulAtLeast(q' - q, w);
    }
  }

  /** Truncating to i16 and then to u8 is truncating to u8: the low byte
      survives both. */
  lemma ToU8OfToI16(x: int)
    ensures ToU8(ToI16(x)) == ToU8(x)
  {
    var q, m := x / 0x1_0000, x % 0x1_0000;
    assert m == (m / 0x100) * 0x100 + m % 0x100;
    DivModUnique(x, 0x100, q * 0x100 + m / 0x100, m % 0x100);
    if m < 0x8000 {
      DivModUnique(ToI16(x), 0x100, m / 0x100, m % 0x100);
    } else {
      DivModUnique(ToI16(x), 0x100, m / 0x100 - 0x100, m % 0x100);
    }
  }
}

/** Packing of 8-bit colour channels into one integer, as passed to the
    display surface (src/colors.cpp). */
module Colors {

  /** A colour record with one integer per channel. */
  datatype Color = Color(r: int, g: int, b: int)

  predicate IsByte(n: int) {
    0 <= n < 256
  }

  /** `x << n` on an integer, without the machine word's wrap-around. */
  function ShiftLeft(x: int, n: nat): int {
    if n == 0 then x else 2 * ShiftLeft(x, n - 1)
  }

  lemma {:induction false} ShiftLeftIsMultiply(x: int, n: nat)
    ensures ShiftLeft(x, n) == x * Pow2(n)
  {
    if n > 0 {
      ShiftLeftIsMultiply(x, n - 1);
    }
  }

  function Pow2(n: nat): (p: nat)
    ensures p > 0
  {
    if n == 0 then 1 else 2 * Pow2(n - 1)
  }

  /** The channels of a packed colour. */
  function RedOf(hex: int): int { hex / 65536 }
  function GreenOf(hex: int): int { (hex / 256) % 256 }
  function BlueOf(hex: int): int { hex % 256 }

  /** `(r << 16) + (g << 8) + b`.  For three bytes the result is a 24-bit
      value from which every channel can be read back. */
  function RGB2Hex(r: int, g: int, b: int): (hex: int)
    ensures hex == r * 65536 + g * 256 + b
    ensures IsByte(r) && IsByte(g) && IsByte(b) ==>
              0 <= hex < 0x100_0000
              && RedOf(hex) == r && GreenOf(hex) == g && BlueOf(hex) == b
  {
    ShiftLeftIsMultiply(r, 16);
    ShiftLeftIsMultiply(g, 8);
    assert Pow2(8) == 256;
    assert Pow2(16) == 65536 by {
      assert Pow2(16) == 256 * Pow2(8) by { Pow2Add(8, 8); }
    }
    UnpackBytes(r, g, b);
    ShiftLeft(r, 16) + ShiftLeft(g, 8) + b
  }

  lemma {:induction false} Pow2Add(m: nat, n: nat)
    ensures Pow2(m + n) == Pow2(m) * Pow2(n)
  {
    if m > 0 {
      Pow2Add(m - 1, n);
    }
  }

  /** Reading the channels back out of `r * 65536 + g * 256 + b`. */
  lemma UnpackBytes(r: int, g: int, b: int)
    ensures var hex := r * 65536 + g * 256 + b;
            IsByte(r) && IsByte(g) && IsByte(b) ==>
            0 <= hex < 0x100_0000
            && RedOf(hex) == r && GreenOf(hex) == g && BlueOf(hex) == b
  {
    if IsByte(r) && IsByte(g) && IsByte(b) {
      var low := g * 256 + b;
      assert 0 <= low < 65536;
      var hex := r * 65536 + low;
      assert hex / 65536 == r;
      assert hex / 256 == r * 256 + g;
      assert (r * 256 + g) % 256 == g;
      assert hex % 256 == b;
    }
  }

  /** The same packing applied to a `Color` record. */
  function Color2Hex(color: Color): (hex: int)
    ensures hex == RGB2Hex(color.r, color.g, color.b)
  {
    ShiftLeftIsMultiply(color.r, 16);
    ShiftLeftIsMultiply(color.g, 8);
    Pow2Add(8, 8);
    ShiftLeft(color.r, 16) + ShiftLeft(color.g, 8) + color.b
  }

  /** Distinct byte triples pack to distinct colours. */
  lemma RGB2HexInjective(r1: int, g1: int, b1: int, r2: int, g2: int, b2: int)
    requires IsByte(r1) && IsByte(g1) && IsByte(b1)
    requires IsByte(r2) && IsByte(g2) && IsByte(b2)
    requires RGB2Hex(r1, g1, b1) == RGB2Hex(r2, g2, b2)
    ensures r1 == r2 && g1 == g2 && b1 == b2
  {
  }
}

// 256-bit unsigned words: the wrapping operators of `alloy::primitives::U256`,
// and the bitwise operators by recursion on the binary digits.
module Words {
  import opened Arith

  const WORD: int := 0x1_0000000000000000_0000000000000000_0000000000000000_0000000000000000
  const MAX_WORD: int := WORD - 1

  type U256 = x: int | 0 <= x < WORD
  type U128 = x: int | 0 <= x < 0x1_0000000000000000_0000000000000000
  type U160 = x: int | 0 <= x < 0x1_00000000_0000000000000000_0000000000000000

  const Q96: U256 := 0x1_000000000000000000000000
  const Q128: U256 := 0x1_0000000000000000_0000000000000000
  const Q160: U256 := 0x1_00000000_0000000000000000_0000000000000000
  const Q255: U256 := 0x8000000000000000_0000000000000000_0000000000000000_0000000000000000

  function Wrap(x: int): U256 {
    x % WORD
  }

  lemma SmallWord(x: int)
    requires 0 <= x < WORD
    ensures Wrap(x) == x
  {
  }

  function SaturatingMul(a: U256, b: U256): U256 {
    MulNonneg(a, b);
    Min(a * b, MAX_WORD)
  }

  /** A 256-bit word read as two's complement. */
  function Signed(x: U256): int {
    if x < Q255 then x else x - WORD
  }

  function And(x: nat, y: nat): nat {
    if x == 0 || y == 0 then 0 else 2 * And(x / 2, y / 2) + (x % 2) * (y % 2)
  }

  function Or(x: nat, y: nat): nat
    decreases x + y
  {
    if x == 0 then y
    else if y == 0 then x
    else 2 * Or(x / 2, y / 2) + (if x % 2 == 1 || y % 2 == 1 then 1 else 0)
  }

  function Xor(x: nat, y: nat): nat
    decreases x + y
  {
    if x == 0 then y
    else if y == 0 then x
    else 2 * Xor(x / 2, y / 2) + (x % 2 + y % 2) % 2
  }

  /** Or of two numbers with no binary digit in common is their sum. */
  lemma {:induction false} OrDisjoint(x: nat, k: nat, n: nat)
    requires x < Pow2(n)
    ensures Or(x, k * Pow2(n)) == x + k * Pow2(n)
    decreases n
  {
    if n == 0 || x == 0 || k == 0 {
      assert x == 0 || k * Pow2(n) == 0;
    } else {
      var m := Pow2(n - 1);
      var y := k * Pow2(n);
      assert y == 2 * (k * m);
      assert y / 2 == k * m && y % 2 == 0;
      assert 0 < y;
      OrDisjoint(x / 2, k, n - 1);
    }
  }

  /** A number and its complement in `n` digits share no digit. */
  lemma {:induction false} AndComplement(x: nat, n: nat)
    requires x < Pow2(n)
    ensures And(Pow2(n) - 1 - x, x) == 0
  {
    if x != 0 && Pow2(n) - 1 - x != 0 {
      var m := Pow2(n - 1);
      assert (Pow2(n) - 1 - x) / 2 == m - 1 - x / 2;
      AndComplement(x / 2, n - 1);
    }
  }

  lemma DoubledBit(d: nat, h: nat)
    requires d % 2 == 0 && (d / 2) % Pow2(h) == 0 && (d / 2 / Pow2(h)) % 2 == 1
    ensures d % Pow2(h + 1) == 0 && (d / Pow2(h + 1)) % 2 == 1
  {
    var p := Pow2(h);
    var q := d / 2 / p;
    assert d / 2 == q * p;
    assert d == q * (2 * p);
    ModUnique(d, 2 * p, q, 0);
  }

  lemma AndOfEven(x: nat, y: nat)
    requires x % 2 == 0 || y % 2 == 0
    ensures And(x, y) == 2 * And(x / 2, y / 2)
  {
    if x == 0 || y == 0 {
      assert x / 2 == 0 || y / 2 == 0;
    } else if x % 2 == 0 {
      assert (x % 2) * (y % 2) == 0;
    } else {
      assert (x % 2) * (y % 2) == 0;
    }
  }

  /** `(-d) & d` isolates the lowest set digit: the largest power of two dividing `d`. */
  lemma {:induction false} LowestBit(d: nat, n: nat) returns (i: nat)
    requires 0 < d < Pow2(n)
    ensures i < n && And(Pow2(n) - d, d) == Pow2(i)
    ensures d % Pow2(i) == 0 && (d / Pow2(i)) % 2 == 1
    decreases n
  {
    var m := Pow2(n - 1);
    if d % 2 == 1 {
      i := 0;
      assert (Pow2(n) - d) / 2 == m - 1 - d / 2 && (Pow2(n) - d) % 2 == 1;
      AndComplement(d / 2, n - 1);
      assert And(Pow2(n) - d, d) == 2 * And(m - 1 - d / 2, d / 2) + 1;
    } else {
      var h := LowestBit(d / 2, n - 1);
      i := h + 1;
      assert (Pow2(n) - d) / 2 == m - d / 2 && (Pow2(n) - d) % 2 == 0;
      AndOfEven(Pow2(n) - d, d);
      DoubledBit(d, h);
    }
  }

  function FlipSecond(x: int): int {
    x + 2 - 4 * ((x / 2) % 2)
  }

  /** Xor with 2 flips the second digit and nothing else. */
  lemma XorTwo(x: nat)
    ensures Xor(x, 2) == FlipSecond(x)
  {
    if x != 0 {
      if x / 2 != 0 {
        assert Xor(x / 2, 1) == 2 * Xor(x / 2 / 2, 0) + (x / 2 % 2 + 1) % 2;
        assert Xor(x / 2 / 2, 0) == x / 2 / 2;
      }
    }
  }

  lemma Pow2Square(n: nat, v: int)
    requires Pow2(n) == v
    ensures Pow2(2 * n) == v * v
  {
    Pow2Add(n, n);
  }

  lemma WordIsPow2()
    ensures Pow2(256) == WORD
    ensures Pow2(128) == Q128 && Pow2(160) == Q160
  {
    Pow2Square(1, 2);
    Pow2Square(2, 4);
    Pow2Square(4, 0x10);
    Pow2Square(8, 0x100);
    Pow2Square(16, 0x10000);
    Pow2Square(32, 0x1_00000000);
    Pow2Square(64, 0x1_0000000000000000);
    Pow2Square(128, 0x1_0000000000000000_0000000000000000);
    Pow2Add(128, 32);
  }
}

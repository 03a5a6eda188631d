/** 32-bit words as their bits, lowest bit first, with the bitwise operations of the code,
    and the passage between numbers and bits. */
module BitWords {
  import opened Arithmetic

  type Word = w: seq<bool> | |w| == 32 witness seq(32, _ => false)

  const ZERO: Word := seq(32, _ => false)

  // ----- Bitwise operations -----

  function Xor(x: Word, y: Word): (r: Word)
    ensures forall i | 0 <= i < 32 :: r[i] == (x[i] != y[i])
  {
    seq(32, i requires 0 <= i < 32 => x[i] != y[i])
  }

  function And(x: Word, y: Word): (r: Word)
    ensures forall i | 0 <= i < 32 :: r[i] == (x[i] && y[i])
  {
    seq(32, i requires 0 <= i < 32 => x[i] && y[i])
  }

  function Or(x: Word, y: Word): (r: Word)
    ensures forall i | 0 <= i < 32 :: r[i] == (x[i] || y[i])
  {
    seq(32, i requires 0 <= i < 32 => x[i] || y[i])
  }

  function Not(x: Word): (r: Word)
    ensures forall i | 0 <= i < 32 :: r[i] == !x[i]
  {
    seq(32, i requires 0 <= i < 32 => !x[i])
  }

  /** Rotation towards the high end. */
  function Rol(x: Word, n: nat): Word
    requires n <= 32
  {
    x[32 - n..] + x[..32 - n]
  }

  function Ror(x: Word, n: nat): Word
    requires n <= 32
  {
    x[n..] + x[..n]
  }

  function Shl(x: Word, n: nat): Word
    requires n <= 32
  {
    seq(n, _ => false) + x[..32 - n]
  }

  lemma XorTwice(x: Word, y: Word)
    ensures Xor(Xor(x, y), y) == x
  {
  }

  lemma XorSwap(x: Word, y: Word, z: Word)
    ensures Xor(Xor(x, y), z) == Xor(Xor(x, z), y)
  {
  }

  lemma RotateBack(x: Word, n: nat)
    requires n <= 32
    ensures Ror(Rol(x, n), n) == x && Rol(Ror(x, n), n) == x
  {
  }

  // ----- Numbers -----

  function Value(b: seq<bool>): nat {
    if b == [] then 0 else (if b[0] then 1 else 0) + 2 * Value(b[1..])
  }

  /** The low `n` bits of `v`. */
  function Bits(v: nat, n: nat): (b: seq<bool>)
    ensures |b| == n
  {
    if n == 0 then [] else [v % 2 == 1] + Bits(v / 2, n - 1)
  }

  lemma {:induction false} ValueBound(b: seq<bool>)
    ensures Value(b) < Power2(|b|)
  {
    if b != [] {
      ValueBound(b[1..]);
    }
  }

  lemma {:induction false} BitsOfValue(b: seq<bool>)
    ensures Bits(Value(b), |b|) == b
  {
    if b != [] {
      BitsOfValue(b[1..]);
      assert b == [b[0]] + b[1..];
    }
  }

  lemma {:induction false} ValueOfBits(v: nat, n: nat)
    requires v < Power2(n)
    ensures Value(Bits(v, n)) == v
  {
    if n > 0 {
      ValueOfBits(v / 2, n - 1);
    }
  }
}

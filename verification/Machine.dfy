/** Bytes and 32-bit words as numbers, with the operations of the code. */
module Machine {
  import opened Arithmetic
  import opened Basics
  import opened BitWords

  /** The bits of a byte, lowest first. */
  function OfByte(x: byte): (p: seq<bool>)
    ensures |p| == 8
  {
    Bits(x as nat, 8)
  }

  // ----- Exclusive or -----

  function XorBits(x: seq<bool>, y: seq<bool>): (r: seq<bool>)
    requires |x| == |y|
    ensures |r| == |x|
  {
    seq(|x|, i requires 0 <= i < |x| => x[i] != y[i])
  }

  function XorNumbers(x: nat, y: nat, n: nat): (r: nat)
    ensures r < Power2(n)
  {
    var b := XorBits(Bits(x, n), Bits(y, n));
    ValueBound(b);
    Value(b)
  }

  lemma XorNumbersTwice(x: nat, y: nat, n: nat)
    requires x < Power2(n)
    ensures XorNumbers(XorNumbers(x, y, n), y, n) == x
  {
    var b := XorBits(Bits(x, n), Bits(y, n));
    BitsOfValue(b);
    assert XorBits(b, Bits(y, n)) == Bits(x, n);
    ValueOfBits(x, n);
  }

  function XorByte(x: byte, y: byte): byte {
    XorNumbers(x as nat, y as nat, 8) as byte
  }

  lemma XorByteTwice(x: byte, y: byte)
    ensures XorByte(XorByte(x, y), y) == x
  {
    XorNumbersTwice(x as nat, y as nat, 8);
  }

  function Xor(x: uint32, y: uint32): uint32 {
    Power32();
    XorNumbers(x as nat, y as nat, 32) as uint32
  }

  lemma Power32()
    ensures Power2(32) == 0x1_0000_0000
  {
    assert Power2(8) == 0x100;
    PowerSum(8, 8);
    PowerSum(16, 16);
  }

  // ----- Addition, subtraction and rotation modulo 2^32 -----

  function Add(x: uint32, y: uint32): uint32 {
    ((x as int + y as int) % 0x1_0000_0000) as uint32
  }

  function Subtract(x: uint32, y: uint32): uint32 {
    ((x as int + 0x1_0000_0000 - y as int) % 0x1_0000_0000) as uint32
  }

  function Rol(x: uint32, k: nat): uint32
    requires 0 < k < 32
  {
    Power32();
    ValueBound(Bits(x as nat, 32)[32 - k..] + Bits(x as nat, 32)[..32 - k]);
    Value(Bits(x as nat, 32)[32 - k..] + Bits(x as nat, 32)[..32 - k]) as uint32
  }

  lemma AddSubtract(x: uint32, y: uint32)
    ensures Subtract(Add(x, y), y) == x && Add(Subtract(x, y), y) == x
  {
    hide Add, Subtract;
    AddIs(x, y);
    AddIs(Add(x, y), y);
    AddIs(Subtract(x, y), y);
  }

  lemma AddIs(x: uint32, y: uint32)
    ensures Add(x, y) as int == if x as int + y as int < 0x1_0000_0000 then x as int + y as int
                                else x as int + y as int - 0x1_0000_0000
    ensures Subtract(x, y) as int == if x >= y then x as int - y as int else x as int + 0x1_0000_0000 - y as int
  {
  }

  // ----- Little-endian words -----

  function Load(p: seq<byte>): uint32
    requires |p| == 4
  {
    (p[0] as int + 0x100 * (p[1] as int + 0x100 * (p[2] as int + 0x100 * p[3] as int))) as uint32
  }

  function Store(w: uint32): (p: seq<byte>)
    ensures |p| == 4
  {
    var v := w as int;
    [(v % 0x100) as byte, (v / 0x100 % 0x100) as byte, (v / 0x100 / 0x100 % 0x100) as byte,
     (v / 0x100 / 0x100 / 0x100) as byte]
  }

  lemma LoadStore(w: uint32)
    ensures Load(Store(w)) == w
  {
  }

  lemma Digit(a: nat, r: nat)
    requires a < 0x100
    ensures (a + 0x100 * r) % 0x100 == a && (a + 0x100 * r) / 0x100 == r
  {
  }

  lemma StoreLoad(p: seq<byte>)
    requires |p| == 4
    ensures Store(Load(p)) == p
  {
    var a, b, c, d := p[0] as int, p[1] as int, p[2] as int, p[3] as int;
    Digit(a, b + 0x100 * (c + 0x100 * d));
    Digit(b, c + 0x100 * d);
    Digit(c, d);
  }

  /** The byte with the given bits. */
  function FromBits(p: seq<bool>): byte
    requires |p| == 8
  {
    ValueBound(p);
    Value(p) as byte
  }

  lemma ByteRoundTrip(x: byte, p: seq<bool>)
    ensures FromBits(OfByte(x)) == x
    ensures |p| == 8 ==> OfByte(FromBits(p)) == p
  {
    ValueOfBits(x as nat, 8);
    BitsOfValue(p);
  }

  /** The first `n` bytes of a number, lowest first. */
  function LittleEndian(v: nat, n: nat): (p: seq<byte>)
    ensures |p| == n
  {
    if n == 0 then [] else [(v % 0x100) as byte] + LittleEndian(v / 0x100, n - 1)
  }

  // ----- Sixteen-byte blocks -----

  type Block = b: seq<byte> | |b| == 16 witness seq(16, _ => 0)

  /** A 64-bit number as a sixteen-byte little-endian block. */
  function Tweak(v: nat): Block {
    LittleEndian(v, 8) + seq(8, _ => 0)
  }

  function XorBlock(x: Block, y: Block): Block {
    seq(16, i requires 0 <= i < 16 => XorByte(x[i], y[i]))
  }

  lemma XorBlockTwice(x: Block, y: Block)
    ensures XorBlock(XorBlock(x, y), y) == x
  {
    hide XorByte;
    forall i | 0 <= i < 16
      ensures XorBlock(XorBlock(x, y), y)[i] == x[i]
    {
      XorByteTwice(x[i], y[i]);
    }
  }

  // ----- Regions of a buffer -----

  method Put(buf: array<byte>, base: nat, t: seq<byte>)
    requires base + |t| <= buf.Length
    modifies buf
    ensures buf[..] == Patched(old(buf[..]), base, t)
  {
    hide *;
    ghost var s := buf[..];
    PatchedEnds(s, base, t);
    for i := 0 to |t|
      invariant buf[..] == Patched(s, base, t[..i])
    {
      PatchedGrows(s, base, t, i);
      buf[base + i] := t[i];
    }
  }
}

/** The XTS mode of operation over any block cipher, in place, with the tweak doubled in
    the field of 2^128 elements between blocks. */
module Xts {
  import opened Arithmetic
  import opened Basics
  import opened BitWords
  import opened Machine

  // ----- Doubling the tweak -----

  /** The bits of some bytes, byte 0 and bit 0 first. */
  function ByteBits(s: seq<byte>): (p: seq<bool>)
    ensures |p| == 8 * |s|
  {
    seq(8 * |s|, i requires 0 <= i < 8 * |s| => OfByte(s[i / 8])[i % 8])
  }

  /** The coefficients of x^128 + x^7 + x^2 + x + 1. */
  function Modulus(): (m: seq<bool>)
    ensures |m| == 129
  {
    seq(129, i requires 0 <= i < 129 => i == 0 || i == 1 || i == 2 || i == 7 || i == 128)
  }

  /** The polynomial `p` of degree below 128, times x, modulo `Modulus()`. */
  function TimesX(p: seq<bool>): (r: seq<bool>)
    requires |p| == 128
    ensures |r| == 128
  {
    var q := [false] + p;
    (if q[128] then XorBits(q, Modulus()) else q)[..128]
  }

  function Doubled(t: Block): Block {
    seq(16, i requires 0 <= i < 16 => DoubledByte(t, i))
  }

  /** Byte `i` of the doubled tweak: shifted up, with the bit carried out of the byte below,
      or with the reduction of the bit carried out of the top. */
  function DoubledByte(t: Block, i: nat): byte
    requires i < 16
  {
    if i > 0 then Shifted(t[i], t[i - 1] >= 0x80)
    else if t[15] >= 0x80 then XorByte(Shifted(t[0], false), 0x87)
    else Shifted(t[0], false)
  }

  function Shifted(x: byte, carry: bool): byte {
    ((2 * x as int) % 0x100 + if carry then 1 else 0) as byte
  }

  lemma ShiftedBits(x: byte, carry: bool)
    ensures OfByte(Shifted(x, carry)) == [carry] + OfByte(x)[..7]
    ensures (x >= 0x80) == OfByte(x)[7]
  {
    hide Bits, Power2;
    var w := Shifted(x, carry) as nat;
    ShiftedValue(x, carry);
    BitsFirst(w, 7);
    HighBit(x as nat, 7);
    Power7();
  }

  lemma Power7()
    ensures Power2(7) == 0x80
  {
  }

  lemma ShiftedValue(x: byte, carry: bool)
    ensures var w := Shifted(x, carry) as nat; w / 2 == x as nat % 0x80 && (w % 2 == 1) == carry
  {
    assert (2 * x as int) % 0x100 == 2 * (x as int % 0x80);
  }

  lemma BitsFirst(v: nat, n: nat)
    ensures Bits(v, n + 1) == [v % 2 == 1] + Bits(v / 2, n)
  {
  }

  /** The low `n` bits and the bit above them. */
  lemma {:induction false} HighBit(v: nat, n: nat)
    ensures Bits(v, n + 1)[..n] == Bits(v % Power2(n), n)
    ensures v < 2 * Power2(n) ==> Bits(v, n + 1)[n] == (v >= Power2(n))
  {
    if n > 0 {
      HighBit(v / 2, n - 1);
      var p := Power2(n - 1);
      HalfRemainder(v, p);
    }
  }

  lemma HalfRemainder(v: nat, p: nat)
    requires p > 0
    ensures v % (2 * p) % 2 == v % 2 && v % (2 * p) / 2 == v / 2 % p
  {
    var q, r := v / 2 / p, v / 2 % p;
    assert v == 2 * (q * p + r) + v % 2;
    assert v == q * (2 * p) + (2 * r + v % 2);
    QuotientUnique(2 * p, v / (2 * p), q, v % (2 * p), 2 * r + v % 2);
  }

  lemma XorByteBits(x: byte, y: byte)
    ensures OfByte(XorByte(x, y)) == XorBits(OfByte(x), OfByte(y))
  {
    BitsOfValue(XorBits(OfByte(x), OfByte(y)));
  }

  lemma ReductionBits()
    ensures OfByte(0x87) == [true, true, true, false, false, false, false, true]
  {
  }

  lemma TimesXAt(p: seq<bool>, i: nat)
    requires |p| == 128 && i < 128
    ensures TimesX(p)[i] == ((i > 0 && p[i - 1]) != (p[127] && (i == 0 || i == 1 || i == 2 || i == 7)))
  {
  }

  lemma ByteBitsAt(s: seq<byte>, k: nat, j: nat)
    requires k < |s| && j < 8
    ensures ByteBits(s)[8 * k + j] == OfByte(s[k])[j]
  {
  }

  lemma DoubledLow(t: Block, j: nat)
    requires j < 8
    ensures OfByte(DoubledByte(t, 0))[j] == TimesX(ByteBits(t))[j]
  {
    hide OfByte, XorByte, Shifted, TimesX, ByteBits;
    TimesXAt(ByteBits(t), j);
    ByteBitsAt(t, 15, 7);
    if j > 0 {
      ByteBitsAt(t, 0, j - 1);
    }
    ShiftedBits(t[0], false);
    ShiftedBits(t[15], false);
    XorByteBits(Shifted(t[0], false), 0x87);
    ReductionBits();
  }

  lemma DoubledHigh(t: Block, i: nat)
    requires 8 <= i < 128
    ensures OfByte(DoubledByte(t, i / 8))[i % 8] == TimesX(ByteBits(t))[i]
  {
    hide OfByte, XorByte, Shifted, TimesX, ByteBits;
    var k, j := i / 8, i % 8;
    assert i == 8 * k + j && 0 < k < 16;
    TimesXAt(ByteBits(t), i);
    if j > 0 {
      ByteBitsAt(t, k, j - 1);
    } else {
      ByteBitsAt(t, k - 1, 7);
    }
    ShiftedBits(t[k], t[k - 1] >= 0x80);
    ShiftedBits(t[k - 1], false);
  }

  /** The byte-wise shift with carry is multiplication by x in the field. */
  lemma DoubledIsTimesX(t: Block)
    ensures ByteBits(Doubled(t)) == TimesX(ByteBits(t))
  {
    hide OfByte, DoubledByte, TimesX;
    forall i | 0 <= i < 128
      ensures ByteBits(Doubled(t))[i] == TimesX(ByteBits(t))[i]
    {
      if i < 8 {
        DoubledLow(t, i);
      } else {
        DoubledHigh(t, i);
      }
    }
  }

  method MulByAlpha(t: array<byte>)
    requires t.Length == 16
    modifies t
    ensures t[..] == Doubled(old(t[..]))
    ensures ByteBits(t[..]) == TimesX(ByteBits(old(t[..])))
  {
    hide XorByte, Shifted, ByteBits, TimesX;
    var carry := false;
    for i := 0 to 16
      invariant carry == (i > 0 && old(t[i - 1]) >= 0x80)
      invariant forall k | 0 <= k < i :: t[k] == Shifted(old(t[k]), k > 0 && old(t[k - 1]) >= 0x80)
      invariant forall k | i <= k < 16 :: t[k] == old(t[k])
    {
      var out := t[i] >= 0x80;
      t[i] := Shifted(t[i], carry);
      carry := out;
    }
    if carry {
      t[0] := XorByte(t[0], 0x87);
    }
    DoubledIsTimesX(old(t[..]));
  }

  // ----- The mode -----

  type Cipher = Block -> Block

  ghost predicate Undoes(f: Cipher, g: Cipher) {
    forall b: Block :: f(g(b)) == b
  }

  /** The tweak of block `j`. */
  function TweakAt(t: Block, j: nat): Block {
    if j == 0 then t else Doubled(TweakAt(t, j - 1))
  }

  function Whitened(f: Cipher, t: Block, b: Block): Block {
    XorBlock(f(XorBlock(b, t)), t)
  }

  /** Blocks in turn, the tweak doubling between them. */
  function Crypted(f: Cipher, t: Block, s: seq<byte>): (r: seq<byte>)
    requires |s| % 16 == 0
    ensures |r| == |s|
    decreases |s|
  {
    if s == [] then [] else Whitened(f, t, s[..16]) + Crypted(f, Doubled(t), s[16..])
  }

  lemma {:induction false} TweakShift(t: Block, j: nat)
    ensures TweakAt(Doubled(t), j) == TweakAt(t, j + 1)
  {
    hide Doubled;
    if j > 0 {
      TweakShift(t, j - 1);
    }
  }

  /** Every block is whitened with its own power of the tweak. */
  lemma {:induction false} CryptedAt(f: Cipher, t: Block, s: seq<byte>, j: nat)
    requires |s| % 16 == 0 && 16 * j + 16 <= |s|
    ensures Crypted(f, t, s)[16 * j..16 * j + 16] == Whitened(f, TweakAt(t, j), s[16 * j..16 * j + 16])
    decreases j
  {
    hide Doubled, Whitened;
    if j > 0 {
      CryptedAt(f, Doubled(t), s[16..], j - 1);
      TweakShift(t, j - 1);
      assert Crypted(f, t, s)[16..] == Crypted(f, Doubled(t), s[16..]);
      assert s[16..][16 * (j - 1)..16 * (j - 1) + 16] == s[16 * j..16 * j + 16];
    }
  }

  lemma WhitenedInverts(f: Cipher, g: Cipher, t: Block, b: Block)
    requires Undoes(g, f)
    ensures Whitened(g, t, Whitened(f, t, b)) == b
  {
    hide XorBlock;
    XorBlockTwice(f(XorBlock(b, t)), t);
    XorBlockTwice(b, t);
  }

  lemma {:induction false} CryptedInverts(f: Cipher, g: Cipher, t: Block, s: seq<byte>)
    requires Undoes(g, f) && |s| % 16 == 0
    ensures Crypted(g, t, Crypted(f, t, s)) == s
    decreases |s|
  {
    hide Doubled, Whitened, Undoes;
    if s != [] {
      WhitenedInverts(f, g, t, s[..16]);
      CryptedInverts(f, g, Doubled(t), s[16..]);
      var r := Crypted(f, t, s);
      assert r[..16] == Whitened(f, t, s[..16]) && r[16..] == Crypted(f, Doubled(t), s[16..]);
    }
  }

  /** One more block at the end. */
  lemma {:induction false} CryptedNext(f: Cipher, t: Block, s: seq<byte>, b: Block)
    requires |s| % 16 == 0
    ensures Crypted(f, t, s + b) == Crypted(f, t, s) + Whitened(f, TweakAt(t, |s| / 16), b)
    decreases |s|
  {
    hide Doubled, Whitened;
    if s == [] {
      assert s + b == b && b[..16] == b && Crypted(f, Doubled(t), b[16..]) == [];
    } else {
      CryptedNext(f, Doubled(t), s[16..], b);
      TweakShift(t, |s| / 16 - 1);
      assert (s + b)[..16] == s[..16] && (s + b)[16..] == s[16..] + b;
    }
  }

  lemma XorBlockAt(x: Block, y: Block, i: nat)
    requires i < 16
    ensures XorBlock(x, y)[i] == XorByte(x[i], y[i])
  {
  }

  method XorInto(x: Block, tweak: array<byte>, buf: array<byte>, offset: nat)
    requires tweak.Length == 16 && tweak != buf && offset + 16 <= buf.Length
    modifies buf
    ensures buf[..] == Patched(old(buf[..]), offset, XorBlock(x, tweak[..]))
  {
    hide *;
    ghost var s, t := buf[..], XorBlock(x, tweak[..]);
    PatchedEnds(s, offset, t);
    for i := 0 to 16
      invariant buf[..] == Patched(s, offset, t[..i])
    {
      PatchedGrows(s, offset, t, i);
      XorBlockAt(x, tweak[..], i);
      buf[offset + i] := XorByte(x[i], tweak[i]);
    }
  }

  method CryptBlock(f: Cipher, tweak: array<byte>, buf: array<byte>, offset: nat)
    requires tweak.Length == 16 && tweak != buf && offset + 16 <= buf.Length
    modifies buf
    ensures buf[..] == Patched(old(buf[..]), offset, Whitened(f, tweak[..], old(buf[offset..offset + 16])))
  {
    hide XorBlock, Patched;
    ghost var s := buf[offset..offset + 16];
    var block := new byte[16];
    ghost var blank := block[..];
    XorInto(buf[offset..offset + 16], tweak, block, 0);
    PatchedAll(blank, XorBlock(s, tweak[..]));
    XorInto(f(block[..]), tweak, buf, offset);
  }

  lemma PatchedAll<T>(s: seq<T>, t: seq<T>)
    requires |s| == |t|
    ensures Patched(s, 0, t) == t
  {
  }

  /** The buffer when the blocks before `offset` are done. */
  ghost function Through(f: Cipher, t: Block, s: seq<byte>, offset: nat): (r: seq<byte>)
    requires offset <= |s| && offset % 16 == 0
    ensures |r| == |s|
  {
    Crypted(f, t, s[..offset]) + s[offset..]
  }

  lemma ThroughNext(f: Cipher, t: Block, s: seq<byte>, offset: nat)
    requires offset + 16 <= |s| && offset % 16 == 0
    ensures Through(f, t, s, offset)[offset..offset + 16] == s[offset..offset + 16]
    ensures Patched(Through(f, t, s, offset), offset, Whitened(f, TweakAt(t, offset / 16), s[offset..offset + 16]))
            == Through(f, t, s, offset + 16)
  {
    hide Crypted, Whitened, TweakAt;
    CryptedNext(f, t, s[..offset], s[offset..offset + 16]);
    assert s[..offset] + s[offset..offset + 16] == s[..offset + 16];
  }

  lemma ThroughNone(f: Cipher, t: Block, s: seq<byte>)
    ensures Through(f, t, s, 0) == s
  {
  }

  lemma TweakNone(t: Block)
    ensures TweakAt(t, 0) == t
  {
  }

  lemma NextOffset(t: Block, offset: nat, length: nat)
    requires offset < length && offset % 16 == 0 && length % 16 == 0
    ensures offset + 16 <= length && (offset + 16) % 16 == 0
    ensures TweakAt(t, (offset + 16) / 16) == Doubled(TweakAt(t, offset / 16))
  {
  }

  method Crypt(data: Cipher, tweakCipher: Cipher, unit: Block, buf: array<byte>, length: nat)
    requires length <= buf.Length && length % 16 == 0
    modifies buf
    ensures buf[..] == Crypted(data, tweakCipher(unit), old(buf[..length])) + old(buf[length..])
  {
    hide *;
    var tweak := new byte[16];
    ghost var blank := tweak[..];
    Put(tweak, 0, tweakCipher(unit));
    PatchedAll(blank, tweakCipher(unit));
    ghost var s, t := buf[..], tweakCipher(unit);
    ThroughNone(data, t, s);
    TweakNone(t);
    var offset := 0;
    while offset < length
      invariant offset <= length && offset % 16 == 0
      invariant tweak[..] == TweakAt(t, offset / 16)
      invariant buf[..] == Through(data, t, s, offset)
    {
      NextOffset(t, offset, length);
      CryptBlock(data, tweak, buf, offset);
      ThroughNext(data, t, s, offset);
      MulByAlpha(tweak);
      offset := offset + 16;
    }
    ThroughIs(data, t, s, length);
  }

  lemma ThroughIs(f: Cipher, t: Block, s: seq<byte>, offset: nat)
    requires offset <= |s| && offset % 16 == 0
    ensures Through(f, t, s, offset) == Crypted(f, t, s[..offset]) + s[offset..]
  {
  }
}

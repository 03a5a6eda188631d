/** Base64 without padding, as Argon2 strings use it: the bit-accumulating loops, the groups
    of three bytes they encode, and the proof that only canonical text decodes. */
module ArgonBase64 {
  import opened Arithmetic
  import opened Basics

  // ----- The alphabet -----

  function ToChar(x: nat): char
    requires x < 64
  {
    if x < 26 then (x + 'A' as int) as char
    else if x < 52 then (x - 26 + 'a' as int) as char
    else if x < 62 then (x - 52 + '0' as int) as char
    else if x == 62 then '+'
    else '/'
  }

  function ToValue(c: char): (v: Option<nat>)
    ensures v.Some? ==> v.value < 64
  {
    if 'A' <= c <= 'Z' then Some(c as int - 'A' as int)
    else if 'a' <= c <= 'z' then Some(c as int - 'a' as int + 26)
    else if '0' <= c <= '9' then Some(c as int - '0' as int + 52)
    else if c == '+' then Some(62)
    else if c == '/' then Some(63)
    else None
  }

  lemma CharOfValue(x: nat, c: char)
    ensures x < 64 ==> ToValue(ToChar(x)) == Some(x)
    ensures ToValue(c).Some? ==> ToChar(ToValue(c).value) == c
  {
  }

  predicate IsText(t: string) {
    forall i | 0 <= i < |t| :: ToValue(t[i]).Some?
  }

  function Six(c: char): (v: nat)
    requires ToValue(c).Some?
    ensures v < 64
  {
    ToValue(c).value
  }

  // ----- Groups of three bytes and four characters -----

  function First(a: byte): char {
    ToChar(a as nat / 4)
  }

  function Second(a: byte, b: nat): char
    requires b < 0x100
  {
    ToChar(a as nat % 4 * 16 + b / 16)
  }

  function Third(b: byte, c: nat): char
    requires c < 0x100
  {
    ToChar(b as nat % 16 * 4 + c / 64)
  }

  function Fourth(c: byte): char {
    ToChar(c as nat % 64)
  }

  function Encoded(s: seq<byte>): string {
    if s == [] then []
    else if |s| == 1 then [First(s[0]), Second(s[0], 0)]
    else if |s| == 2 then [First(s[0]), Second(s[0], s[1] as nat), Third(s[1], 0)]
    else [First(s[0]), Second(s[0], s[1] as nat), Third(s[1], s[2] as nat), Fourth(s[2])] + Encoded(s[3..])
  }

  function Byte1(w: char, x: char): byte
    requires ToValue(w).Some? && ToValue(x).Some?
  {
    (Six(w) * 4 + Six(x) / 16) as byte
  }

  function Byte2(x: char, y: char): byte
    requires ToValue(x).Some? && ToValue(y).Some?
  {
    (Six(x) % 16 * 16 + Six(y) / 4) as byte
  }

  function Byte3(y: char, z: char): byte
    requires ToValue(y).Some? && ToValue(z).Some?
  {
    (Six(y) % 4 * 64 + Six(z)) as byte
  }

  /** The bytes of a text, unless its length or its unused bits are wrong. */
  function Decoded(t: string): Option<seq<byte>>
    requires IsText(t)
  {
    if t == [] then Some([])
    else if |t| == 1 then None
    else if |t| == 2 then (if Six(t[1]) % 16 == 0 then Some([Byte1(t[0], t[1])]) else None)
    else if |t| == 3 then (if Six(t[2]) % 4 == 0 then Some([Byte1(t[0], t[1]), Byte2(t[1], t[2])]) else None)
    else
      match Decoded(t[4..])
      case None => None
      case Some(rest) => Some([Byte1(t[0], t[1]), Byte2(t[1], t[2]), Byte3(t[2], t[3])] + rest)
  }

  lemma {:induction false} EncodedIsText(s: seq<byte>)
    ensures IsText(Encoded(s))
  {
    hide ToChar, ToValue;
    forall x: nat | x < 64
      ensures ToValue(ToChar(x)) == Some(x)
    {
      CharOfValue(x, 'A');
    }
    if |s| >= 3 {
      EncodedIsText(s[3..]);
    }
  }

  lemma GroupRoundTrip(a: byte, b: byte, c: byte)
    ensures ToValue(First(a)).Some? && ToValue(Second(a, b as nat)).Some?
    ensures ToValue(Third(b, c as nat)).Some? && ToValue(Fourth(c)).Some?
    ensures Byte1(First(a), Second(a, b as nat)) == a
    ensures Byte2(Second(a, b as nat), Third(b, c as nat)) == b
    ensures Byte3(Third(b, c as nat), Fourth(c)) == c
    ensures Six(Second(a, 0)) % 16 == 0 && Six(Third(b, 0)) % 4 == 0
  {
    hide ToChar, ToValue;
    forall x: nat | x < 64
      ensures ToValue(ToChar(x)) == Some(x)
    {
      CharOfValue(x, 'A');
    }
  }

  lemma TextRoundTrip(w: char, x: char, y: char, z: char)
    requires ToValue(w).Some? && ToValue(x).Some? && ToValue(y).Some? && ToValue(z).Some?
    ensures First(Byte1(w, x)) == w && Second(Byte1(w, x), Byte2(x, y) as nat) == x
    ensures Third(Byte2(x, y), Byte3(y, z) as nat) == y && Fourth(Byte3(y, z)) == z
    ensures Six(x) % 16 == 0 ==> Second(Byte1(w, x), 0) == x
    ensures Six(y) % 4 == 0 ==> Third(Byte2(x, y), 0) == y
  {
    hide ToChar, ToValue;
    CharOfValue(0, w);
    CharOfValue(0, x);
    CharOfValue(0, y);
    CharOfValue(0, z);
    Remainder(Six(w) * 4 + Six(x) / 16, Six(w), 4, Six(x) / 16);
    Remainder(Six(x) % 16 * 16 + Six(y) / 4, Six(x) % 16, 16, Six(y) / 4);
    Remainder(Six(y) % 4 * 64 + Six(z), Six(y) % 4, 64, Six(z));
  }

  /** Encoded bytes decode to themselves. */
  lemma {:induction false} DecodedEncoded(s: seq<byte>)
    ensures IsText(Encoded(s)) && Decoded(Encoded(s)) == Some(s)
  {
    hide ToChar, ToValue, First, Second, Third, Fourth, Byte1, Byte2, Byte3, Six;
    EncodedIsText(s);
    if |s| == 1 {
      GroupRoundTrip(s[0], 0, 0);
      assert s == [s[0]];
    } else if |s| == 2 {
      GroupRoundTrip(s[0], s[1], 0);
      assert s == [s[0], s[1]];
    } else if |s| >= 3 {
      DecodedEncoded(s[3..]);
      GroupDecodes(s);
    }
  }

  lemma EncodedChars(s: seq<byte>)
    requires |s| >= 3
    ensures var t := Encoded(s);
            && |t| >= 4 && t[4..] == Encoded(s[3..]) && t[0] == First(s[0]) && t[1] == Second(s[0], s[1] as nat)
            && t[2] == Third(s[1], s[2] as nat) && t[3] == Fourth(s[2])
  {
    hide First, Second, Third, Fourth;
    CutSecond([First(s[0]), Second(s[0], s[1] as nat), Third(s[1], s[2] as nat), Fourth(s[2])], Encoded(s[3..]), 0);
  }

  lemma DecodedFirst(t: string)
    requires |t| >= 4 && IsText(t) && IsText(t[4..]) && Decoded(t[4..]).Some?
    ensures Decoded(t) == Some([Byte1(t[0], t[1]), Byte2(t[1], t[2]), Byte3(t[2], t[3])] + Decoded(t[4..]).value)
  {
    hide ToValue, Byte1, Byte2, Byte3;
  }

  lemma GroupDecodes(s: seq<byte>)
    requires |s| >= 3 && IsText(Encoded(s)) && IsText(Encoded(s[3..])) && Decoded(Encoded(s[3..])) == Some(s[3..])
    ensures Decoded(Encoded(s)) == Some(s)
  {
    hide *;
    GroupRoundTrip(s[0], s[1], s[2]);
    EncodedChars(s);
    DecodedFirst(Encoded(s));
    assert s == [s[0], s[1], s[2]] + s[3..];
  }

  /** Only the encoding of its bytes decodes to them. */
  lemma {:induction false} EncodedDecoded(t: string)
    requires IsText(t) && Decoded(t).Some?
    ensures Encoded(Decoded(t).value) == t
  {
    hide ToChar, ToValue, First, Second, Third, Fourth, Byte1, Byte2, Byte3;
    if |t| == 2 {
      TextRoundTrip(t[0], t[1], t[0], t[0]);
    } else if |t| == 3 {
      TextRoundTrip(t[0], t[1], t[2], t[0]);
    } else if |t| >= 4 {
      TextRoundTrip(t[0], t[1], t[2], t[3]);
      EncodedDecoded(t[4..]);
      assert t == t[..4] + t[4..];
      var s := Decoded(t).value;
      assert s[3..] == Decoded(t[4..]).value;
    }
  }

  /** Characters for `n` bytes. */
  function Length(n: nat): nat {
    n / 3 * 4 + if n % 3 == 2 then 3 else if n % 3 == 1 then 2 else 0
  }

  lemma {:induction false} EncodedLength(s: seq<byte>)
    ensures |Encoded(s)| == Length(|s|)
  {
    if |s| >= 3 {
      EncodedLength(s[3..]);
    }
  }

  // ----- The encoding loop -----

  lemma NothingEncoded()
    ensures Encoded([]) == ""
  {
  }

  lemma EncodedFirst(s: seq<byte>)
    requires |s| >= 3
    ensures Encoded(s) == Encoded(s[..3]) + Encoded(s[3..])
  {
    hide First, Second, Third, Fourth;
    assert s[..3] == [s[0], s[1], s[2]];
    ThreeBytes(s[0], s[1], s[2]);
  }

  /** Whole groups first. */
  lemma {:induction false} EncodedAppends(s: seq<byte>, t: seq<byte>)
    requires |s| % 3 == 0
    ensures Encoded(s + t) == Encoded(s) + Encoded(t)
  {
    hide Encoded;
    if s == [] {
      assert s + t == t;
      NothingEncoded();
    } else {
      EncodedAppends(s[3..], t);
      CutFirst(s, t, 3);
      EncodedFirst(s);
      EncodedFirst(s + t);
      ConcatAssociates(Encoded(s[..3]), Encoded(s[3..]), Encoded(t));
    }
  }

  /** The characters written for the bytes of an unfinished group. */
  function Partial(s: seq<byte>): string
    requires |s| < 3
  {
    if s == [] then [] else if |s| == 1 then [First(s[0])] else [First(s[0]), Second(s[0], s[1] as nat)]
  }

  /** The bits of an unfinished group that are not yet written. */
  function Pending(s: seq<byte>): nat
    requires |s| < 3
  {
    if s == [] then 0 else if |s| == 1 then s[0] as nat % 4 else s[1] as nat % 16
  }

  /** Start of the unfinished group after `i` bytes. */
  function Group(i: nat): nat {
    i - i % 3
  }

  /** After `i` bytes: what has been written, and the pending bits in the accumulator. */
  ghost predicate Written(s: seq<byte>, i: nat, dst: string, acc: nat, accLen: nat)
    requires i <= |s|
  {
    && dst == Encoded(s[..Group(i)]) + Partial(s[Group(i)..i])
    && accLen == i % 3 * 2
    && acc % Power2(accLen) == Pending(s[Group(i)..i])
  }

  /** The accumulator with one more byte, as 32 bits. */
  function Shifted(acc: nat, b: byte): nat {
    (acc * 0x100 + b as nat) % 0x1_0000_0000
  }

  /** The characters for `n` bits of the accumulator, highest first. */
  function Emitted(acc: nat, n: nat): string {
    if n < 6 then [] else [ToChar(acc / Power2(n - 6) % 64)] + Emitted(acc, n - 6)
  }

  lemma SmallPowers()
    ensures Power2(0) == 1 && Power2(2) == 4 && Power2(4) == 16 && Power2(6) == 64
  {
  }

  /** The low bits of the accumulator: those that were pending, then the byte. */
  lemma ShiftedLow(acc: nat, b: byte)
    ensures Shifted(acc, b) % 0x100 == b as nat
    ensures Shifted(acc, b) % 0x400 == acc % 4 * 0x100 + b as nat
    ensures Shifted(acc, b) % 0x1000 == acc % 16 * 0x100 + b as nat
  {
    var v, r := acc * 0x100 + b as nat, Shifted(acc, b);
    var q := v / 0x1_0000_0000;
    assert v == q * 0x1_0000_0000 + r;
    SameRemainder(v, 0x100_0000 * q, 0x100, r);
    SameRemainder(v, 0x40_0000 * q, 0x400, r);
    SameRemainder(v, 0x10_0000 * q, 0x1000, r);
    Remainder(v, acc, 0x100, b as nat);
    Remainder(v, acc / 4, 0x400, acc % 4 * 0x100 + b as nat);
    Remainder(v, acc / 16, 0x1000, acc % 16 * 0x100 + b as nat);
  }

  lemma HighBits(v: nat)
    ensures v / 4 % 64 == v % 0x100 / 4 && v / 16 % 64 == v % 0x400 / 16 && v / 64 % 64 == v % 0x1000 / 64
    ensures v % 4 == v % 0x100 % 4 && v % 16 == v % 0x400 % 16 && v % 64 == v % 0x1000 % 64
  {
    HighBitsAt(v, 4);
    HighBitsAt(v, 16);
    HighBitsAt(v, 64);
    SameRemainder(v, 64 * (v / 0x100), 4, v % 0x100);
    SameRemainder(v, 64 * (v / 0x400), 16, v % 0x400);
    SameRemainder(v, 64 * (v / 0x1000), 64, v % 0x1000);
  }

  lemma HighBitsAt(v: nat, a: nat)
    requires a == 4 || a == 16 || a == 64
    ensures v / a % 64 == v % (64 * a) / a
  {
    var s, r := v / (64 * a), v % (64 * a);
    Remainder(v, s * 64 + r / a, a, r % a);
    Remainder(s * 64 + r / a, s, 64, r / a);
  }

  /** What one byte adds to the text, by its place in its group. */
  lemma OneByte(acc: nat, b: byte, place: nat)
    requires place < 3
    ensures var v := Shifted(acc, b);
            var pending := acc % Power2(place * 2);
            && (place == 0 ==> Emitted(v, 8) == [ToChar(b as nat / 4)] && v % Power2(2) == b as nat % 4)
            && (place == 1 ==> Emitted(v, 10) == [ToChar(pending * 16 + b as nat / 16)]
                               && v % Power2(4) == b as nat % 16)
            && (place == 2 ==> Emitted(v, 12) == [ToChar(pending * 4 + b as nat / 64), ToChar(b as nat % 64)])
  {
    hide Shifted, ToChar, Power2, Emitted;
    SmallPowers();
    var v := Shifted(acc, b);
    ShiftedLow(acc, b);
    HighBits(v);
    EmittedIs(v);
    var p := b as nat;
    Remainder(acc % 4 * 0x100 + p, acc % 4 * 16 + p / 16, 16, p % 16);
    Remainder(acc % 16 * 0x100 + p, acc % 16 * 4 + p / 64, 64, p % 64);
  }

  lemma EmittedIs(v: nat)
    ensures Emitted(v, 8) == [ToChar(v / 4 % 64)] && Emitted(v, 10) == [ToChar(v / 16 % 64)]
    ensures Emitted(v, 12) == [ToChar(v / 64 % 64), ToChar(v % 64)]
  {
    hide ToChar;
    SmallPowers();
    assert Emitted(v, 8) == [ToChar(v / 4 % 64)] + Emitted(v, 2);
    assert Emitted(v, 10) == [ToChar(v / 16 % 64)] + Emitted(v, 4);
    assert Emitted(v, 12) == [ToChar(v / 64 % 64)] + Emitted(v, 6);
    assert Emitted(v, 6) == [ToChar(v / 1 % 64)] + Emitted(v, 0);
  }

  /** The inner loop: characters are written while six bits are there. */
  method Emit(dst: string, acc: nat, accLen: nat) returns (out: string, left: nat)
    ensures out == dst + Emitted(acc, accLen) && left == accLen % 6
  {
    hide ToChar, Power2;
    out, left := dst, accLen;
    while left >= 6
      invariant left % 6 == accLen % 6 && left <= accLen
      invariant out + Emitted(acc, left) == dst + Emitted(acc, accLen)
    {
      left := left - 6;
      out := out + [ToChar(acc / Power2(left) % 64)];
    }
  }

  lemma GroupIs(i: nat)
    ensures (i + 1) % 3 == (if i % 3 == 2 then 0 else i % 3 + 1)
    ensures i % 3 < 2 ==> Group(i + 1) == Group(i)
    ensures i % 3 == 2 ==> Group(i + 1) == i + 1 && Group(i) == i - 2
    ensures Group(i) <= i && Group(i) % 3 == 0 && i - Group(i) == i % 3
  {
    var q, r := i / 3, i % 3;
    Remainder(i - r, q, 3, 0);
    if r < 2 {
      Remainder(i + 1, q, 3, r + 1);
    } else {
      Remainder(i + 1, q + 1, 3, 0);
    }
  }

  /** One more byte keeps the text and the pending bits in step. */
  lemma WrittenNext(s: seq<byte>, i: nat, dst: string, acc: nat, accLen: nat)
    requires i < |s| && Written(s, i, dst, acc, accLen)
    ensures Written(s, i + 1, dst + Emitted(Shifted(acc, s[i]), accLen + 8), Shifted(acc, s[i]), (accLen + 8) % 6)
  {
    hide *;
    Below3(i);
    if i % 3 == 0 {
      FirstOfGroup(s, i, dst, acc, accLen);
    } else if i % 3 == 1 {
      SecondOfGroup(s, i, dst, acc, accLen);
    } else {
      ThirdOfGroup(s, i, dst, acc, accLen);
    }
  }

  lemma Below3(i: nat)
    ensures 0 <= i % 3 < 3
  {
  }

  lemma FirstOfGroup(s: seq<byte>, i: nat, dst: string, acc: nat, accLen: nat)
    requires i < |s| && i % 3 == 0 && Written(s, i, dst, acc, accLen)
    ensures Written(s, i + 1, dst + Emitted(Shifted(acc, s[i]), accLen + 8), Shifted(acc, s[i]), (accLen + 8) % 6)
  {
    hide Encoded, Shifted, Emitted, ToChar, Power2, Group;
    GroupIs(i);
    OneByte(acc, s[i], 0);
    var g := Group(i);
    assert s[g..i] == [] && s[g..i + 1] == [s[i]];
  }

  lemma SecondOfGroup(s: seq<byte>, i: nat, dst: string, acc: nat, accLen: nat)
    requires i < |s| && i % 3 == 1 && Written(s, i, dst, acc, accLen)
    ensures Written(s, i + 1, dst + Emitted(Shifted(acc, s[i]), accLen + 8), Shifted(acc, s[i]), (accLen + 8) % 6)
  {
    hide Encoded, Shifted, Emitted, ToChar, Power2, Group;
    GroupIs(i);
    OneByte(acc, s[i], 1);
    var g := Group(i);
    assert s[g..i] == [s[g]] && s[g..i + 1] == [s[g], s[i]];
  }

  lemma ThirdOfGroup(s: seq<byte>, i: nat, dst: string, acc: nat, accLen: nat)
    requires i < |s| && i % 3 == 2 && Written(s, i, dst, acc, accLen)
    ensures Written(s, i + 1, dst + Emitted(Shifted(acc, s[i]), accLen + 8), Shifted(acc, s[i]), (accLen + 8) % 6)
  {
    hide Encoded, Shifted, Emitted, ToChar, Power2, Group;
    GroupIs(i);
    OneByte(acc, s[i], 2);
    SmallPowers();
    var g := Group(i);
    assert s[g..i] == [s[g], s[g + 1]] && s[i + 1..i + 1] == [];
    WholeGroup(s, g);
  }

  /** Three more bytes add their four characters. */
  lemma WholeGroup(s: seq<byte>, g: nat)
    requires g % 3 == 0 && g + 2 < |s|
    ensures Encoded(s[..g + 3]) ==
            Encoded(s[..g]) + [First(s[g]), Second(s[g], s[g + 1] as nat), Third(s[g + 1], s[g + 2] as nat),
                               Fourth(s[g + 2])]
  {
    hide Encoded, First, Second, Third, Fourth;
    assert s[..g + 3] == s[..g] + [s[g], s[g + 1], s[g + 2]];
    EncodedAppends(s[..g], [s[g], s[g + 1], s[g + 2]]);
    ThreeBytes(s[g], s[g + 1], s[g + 2]);
  }

  lemma ThreeBytes(a: byte, b: byte, c: byte)
    ensures Encoded([a, b, c]) == [First(a), Second(a, b as nat), Third(b, c as nat), Fourth(c)]
  {
    hide First, Second, Third, Fourth;
    assert [a, b, c][3..] == [];
  }

  /** The bits left over at the end fill one more character. */
  lemma WrittenLast(s: seq<byte>, dst: string, acc: nat, accLen: nat)
    requires Written(s, |s|, dst, acc, accLen)
    ensures accLen == 0 || accLen == 2 || accLen == 4
    ensures Encoded(s) == if accLen == 0 then dst else dst + [ToChar(acc * Power2(6 - accLen) % 64)]
  {
    hide Encoded, ToChar, Power2, Group;
    GroupIs(|s|);
    SmallPowers();
    var g := Group(|s|);
    assert s == s[..g] + s[g..];
    EncodedAppends(s[..g], s[g..]);
    ShortGroup(s[g..]);
    assert s[g..|s|] == s[g..];
    if accLen == 2 {
      Remainder(acc * 16, acc / 4, 64, acc % 4 * 16);
    } else if accLen == 4 {
      Remainder(acc * 4, acc / 16, 64, acc % 16 * 4);
    }
  }

  lemma ShortGroup(s: seq<byte>)
    requires |s| < 3
    ensures Encoded(s) == Partial(s) + if s == [] then [] else if |s| == 1 then [Second(s[0], 0)] else [Third(s[1], 0)]
  {
  }

  method ToBase64(dstLen: nat, src: seq<byte>) returns (r: Option<string>)
    ensures r.Some? <==> |Encoded(src)| < dstLen
    ensures r.Some? ==> r.value == Encoded(src)
  {
    hide Encoded, Written, Power2, ToChar, Emitted;
    EncodedLength(src);
    var olen := Length(|src|);
    if dstLen <= olen {
      return None;
    }
    var dst: string, acc: nat, accLen: nat := [], 0, 0;
    NothingWritten(src);
    for i := 0 to |src|
      invariant Written(src, i, dst, acc, accLen)
    {
      WrittenNext(src, i, dst, acc, accLen);
      acc := Shifted(acc, src[i]);
      dst, accLen := Emit(dst, acc, accLen + 8);
    }
    WrittenLast(src, dst, acc, accLen);
    if accLen > 0 {
      dst := dst + [ToChar(acc * Power2(6 - accLen) % 64)];
    }
    return Some(dst);
  }

  lemma NothingWritten(s: seq<byte>)
    ensures Written(s, 0, [], 0, 0)
  {
  }

  // ----- The decoding loop -----

  /** How many characters from the start are in the alphabet. */
  function TextLength(src: string): (n: nat)
    ensures n <= |src| && IsText(src[..n]) && (n < |src| ==> ToValue(src[n]).None?)
  {
    if src == [] || ToValue(src[0]).None? then 0
    else
      var n := 1 + TextLength(src[1..]);
      assert src[..n] == [src[0]] + src[1..][..n - 1];
      n
  }

  lemma DecodedStep(t: string)
    requires IsText(t) && |t| >= 4
    ensures Decoded(t).Some? <==> Decoded(t[4..]).Some?
    ensures Decoded(t).Some? ==>
              Decoded(t).value == [Byte1(t[0], t[1]), Byte2(t[1], t[2]), Byte3(t[2], t[3])] + Decoded(t[4..]).value
  {
  }

  lemma {:induction false} DecodedAppends(s: string, t: string)
    requires IsText(s) && IsText(t) && |s| % 4 == 0
    ensures IsText(s + t) && Decoded(s).Some? && (Decoded(s + t).Some? <==> Decoded(t).Some?)
    ensures Decoded(t).Some? ==> Decoded(s + t).value == Decoded(s).value + Decoded(t).value
    decreases |s|, 1
  {
    if s == [] {
      assert s + t == t && Decoded(s) == Some([]);
    } else {
      DecodedMoves(s, t);
    }
  }

  lemma {:induction false} DecodedMoves(s: string, t: string)
    requires IsText(s) && IsText(t) && |s| % 4 == 0 && s != []
    ensures IsText(s + t) && Decoded(s).Some? && (Decoded(s + t).Some? <==> Decoded(t).Some?)
    ensures Decoded(t).Some? ==> Decoded(s + t).value == Decoded(s).value + Decoded(t).value
    decreases |s|, 0
  {
    hide Decoded, Byte1, Byte2, Byte3, ToValue;
    DecodedAppends(s[4..], t);
    DecodedStep(s);
    DecodedStep(s + t);
    assert (s + t)[4..] == s[4..] + t;
  }

  function PartialBytes(t: string): seq<byte>
    requires |t| < 4 && IsText(t)
  {
    if |t| < 2 then [] else if |t| == 2 then [Byte1(t[0], t[1])] else [Byte1(t[0], t[1]), Byte2(t[1], t[2])]
  }

  function PendingBits(t: string): nat
    requires |t| < 4 && IsText(t)
  {
    if t == [] then 0 else if |t| == 1 then Six(t[0]) else if |t| == 2 then Six(t[1]) % 16 else Six(t[2]) % 4
  }

  function Quad(n: nat): nat {
    n - n % 4
  }

  ghost predicate ReadTo(t: string, n: nat, dst: seq<byte>, acc: nat, accLen: nat)
    requires n <= |t| && IsText(t)
  {
    && Decoded(t[..Quad(n)]).Some?
    && dst == Decoded(t[..Quad(n)]).value + PartialBytes(t[Quad(n)..n])
    && accLen == (if n % 4 == 0 then 0 else 8 - n % 4 * 2)
    && acc % Power2(accLen) == PendingBits(t[Quad(n)..n])
  }

  function Shifted6(acc: nat, d: nat): nat {
    (acc * 64 + d) % 0x1_0000_0000
  }

  lemma Shifted6Low(acc: nat, d: nat)
    requires d < 64
    ensures Shifted6(acc, d) % 64 == d && Shifted6(acc, d) % 0x1000 == acc % 64 * 64 + d
    ensures Shifted6(acc, d) % 0x400 == acc % 16 * 64 + d && Shifted6(acc, d) % 0x100 == acc % 4 * 64 + d
  {
    var v, r := acc * 64 + d, Shifted6(acc, d);
    var q := v / 0x1_0000_0000;
    assert v == q * 0x1_0000_0000 + r;
    SameRemainder(v, 0x400_0000 * q, 64, r);
    SameRemainder(v, 0x10_0000 * q, 0x1000, r);
    SameRemainder(v, 0x40_0000 * q, 0x400, r);
    SameRemainder(v, 0x100_0000 * q, 0x100, r);
    Remainder(v, acc, 64, d);
    Remainder(v, acc / 64, 0x1000, acc % 64 * 64 + d);
    Remainder(v, acc / 16, 0x400, acc % 16 * 64 + d);
    Remainder(v, acc / 4, 0x100, acc % 4 * 64 + d);
  }

  lemma LowByte(v: nat, a: nat)
    requires a == 4 || a == 16
    ensures v / a % 0x100 == v % (0x100 * a) / a && v % a == v % (0x100 * a) % a
  {
    var s, r := v / (0x100 * a), v % (0x100 * a);
    Remainder(v, s * 0x100 + r / a, a, r % a);
    Remainder(s * 0x100 + r / a, s, 0x100, r / a);
  }

  /** What one character adds, by its place in its group. */
  lemma OneChar(acc: nat, d: nat, place: nat)
    requires place < 4 && d < 64
    ensures var v := Shifted6(acc, d);
            && (place == 0 ==> v % Power2(6) == d)
            && (place == 1 ==> v / Power2(4) % 0x100 == acc % Power2(6) * 4 + d / 16 && v % Power2(4) == d % 16)
            && (place == 2 ==> v / Power2(2) % 0x100 == acc % Power2(4) * 16 + d / 4 && v % Power2(2) == d % 4)
            && (place == 3 ==> v / Power2(0) % 0x100 == acc % Power2(2) * 64 + d)
  {
    hide Shifted6, Power2;
    SmallPowers();
    var v := Shifted6(acc, d);
    Shifted6Low(acc, d);
    LowByte(v, 16);
    LowByte(v, 4);
    Remainder(acc % 64 * 64 + d, acc % 64 * 4 + d / 16, 16, d % 16);
    Remainder(acc % 16 * 64 + d, acc % 16 * 16 + d / 4, 4, d % 4);
  }

  lemma QuadIs(n: nat)
    ensures (n + 1) % 4 == (if n % 4 == 3 then 0 else n % 4 + 1)
    ensures n % 4 < 3 ==> Quad(n + 1) == Quad(n)
    ensures n % 4 == 3 ==> Quad(n + 1) == n + 1 && Quad(n) == n - 3
    ensures Quad(n) <= n && Quad(n) % 4 == 0 && n - Quad(n) == n % 4
  {
    var q, r := n / 4, n % 4;
    Remainder(n - r, q, 4, 0);
    if r < 3 {
      Remainder(n + 1, q, 4, r + 1);
    } else {
      Remainder(n + 1, q + 1, 4, 0);
    }
  }

  /** One more character keeps the bytes and the pending bits in step. */
  lemma ReadNext(t: string, n: nat, dst: seq<byte>, acc: nat, accLen: nat)
    requires n < |t| && IsText(t) && ReadTo(t, n, dst, acc, accLen)
    ensures var v := Shifted6(acc, Six(t[n]));
            && (n % 4 == 0 ==> accLen == 0 && ReadTo(t, n + 1, dst, v, 6))
            && (n % 4 > 0 ==> accLen >= 2 &&
                                 ReadTo(t, n + 1, dst + [(v / Power2(accLen - 2) % 0x100) as byte], v, accLen - 2))
  {
    hide Decoded, Shifted6, ToValue, Power2, Quad;
    QuadIs(n);
    SmallPowers();
    OneChar(acc, Six(t[n]), n % 4);
    var g := Quad(n);
    if n % 4 == 0 {
      assert t[g..n] == [] && t[g..n + 1] == [t[n]];
    } else if n % 4 == 1 {
      assert t[g..n] == [t[g]] && t[g..n + 1] == [t[g], t[n]];
    } else if n % 4 == 2 {
      assert t[g..n] == [t[g], t[g + 1]] && t[g..n + 1] == [t[g], t[g + 1], t[n]];
    } else {
      assert t[g..n] == [t[g], t[g + 1], t[g + 2]] && t[n + 1..n + 1] == [];
      assert t[..n + 1] == t[..g] + [t[g], t[g + 1], t[g + 2], t[n]];
      DecodedAppends(t[..g], [t[g], t[g + 1], t[g + 2], t[n]]);
      FourChars(t[g], t[g + 1], t[g + 2], t[n]);
      assert Power2(0) == 1;
    }
  }

  lemma FourChars(w: char, x: char, y: char, z: char)
    requires IsText([w, x, y, z])
    ensures ToValue(w).Some? && ToValue(x).Some? && ToValue(y).Some? && ToValue(z).Some?
    ensures Decoded([w, x, y, z]) == Some([Byte1(w, x), Byte2(x, y), Byte3(y, z)])
  {
    hide ToValue, Byte1, Byte2, Byte3;
    var t := [w, x, y, z];
    assert ToValue(t[0]).Some? && ToValue(t[1]).Some? && ToValue(t[2]).Some? && ToValue(t[3]).Some?;
    assert t[4..] == [] && Decoded([]) == Some([]);
    var r := [Byte1(w, x), Byte2(x, y), Byte3(y, z)];
    assert r + [] == r;
  }

  /** At the end, what is left pending must be too short for a byte, and zero. */
  lemma ReadEnds(t: string, dst: seq<byte>, acc: nat, accLen: nat)
    requires IsText(t) && ReadTo(t, |t|, dst, acc, accLen)
    ensures Decoded(t).Some? <==> accLen <= 4 && acc % Power2(accLen) == 0
    ensures Decoded(t).Some? ==> Decoded(t).value == dst
  {
    hide Decoded, ToValue, Power2, Quad, Byte1, Byte2;
    QuadIs(|t|);
    SmallPowers();
    var g := Quad(|t|);
    assert t == t[..g] + t[g..] && t[g..|t|] == t[g..];
    DecodedAppends(t[..g], t[g..]);
    ShortText(t[g..]);
  }

  lemma ShortText(t: string)
    requires IsText(t) && |t| < 4
    ensures Decoded(t).Some? <==> |t| != 1 && PendingBits(t) == 0
    ensures Decoded(t).Some? ==> Decoded(t).value == PartialBytes(t)
  {
    hide ToValue, Byte1, Byte2, Six;
  }

  /** The decoded bytes never outgrow what is still to come. */
  lemma {:induction false} ReadNeverMore(t: string, n: nat, dst: seq<byte>, acc: nat, accLen: nat)
    requires IsText(t) && n <= |t| && ReadTo(t, n, dst, acc, accLen) && Decoded(t).Some?
    ensures |dst| <= |Decoded(t).value|
    decreases |t| - n
  {
    hide Decoded, ReadTo, Shifted6, Power2, ToValue;
    if n < |t| {
      ReadNext(t, n, dst, acc, accLen);
      var v := Shifted6(acc, Six(t[n]));
      if n % 4 == 0 {
        ReadNeverMore(t, n + 1, dst, v, 6);
      } else {
        ReadNeverMore(t, n + 1, dst + [(v / Power2(accLen - 2) % 0x100) as byte], v, accLen - 2);
      }
    } else {
      ReadEnds(t, dst, acc, accLen);
    }
  }

  /** Decodes the leading text; gives the bytes and how many characters they took. */
  method FromBase64(cap: nat, src: string) returns (r: Option<(seq<byte>, nat)>)
    ensures var t := src[..TextLength(src)];
            && (r.Some? <==> Decoded(t).Some? && |Decoded(t).value| <= cap)
            && (r.Some? ==> r.value == (Decoded(t).value, |t|))
  {
    hide Decoded, ReadTo, Shifted6, Power2, ToValue, TextLength;
    ghost var t := src[..TextLength(src)];
    var dst: seq<byte>, acc: nat, accLen: nat, n: nat := [], 0, 0, 0;
    NothingRead(t);
    while n < |src| && ToValue(src[n]).Some?
      invariant n <= |t| && ReadTo(t, n, dst, acc, accLen) && |dst| <= cap
      invariant accLen == if n % 4 == 0 then 0 else 8 - n % 4 * 2
    {
      ReadNext(t, n, dst, acc, accLen);
      QuadIs(n);
      acc := Shifted6(acc, Six(src[n]));
      accLen := accLen + 6;
      n := n + 1;
      if accLen >= 8 {
        accLen := accLen - 8;
        var b := (acc / Power2(accLen) % 0x100) as byte;
        if |dst| >= cap {
          if Decoded(t).Some? {
            ReadNeverMore(t, n, dst + [b], acc, accLen);
          }
          return None;
        }
        dst := dst + [b];
      }
    }
    ReadEnds(t, dst, acc, accLen);
    if accLen > 4 || acc % Power2(accLen) != 0 {
      return None;
    }
    return Some((dst, n));
  }

  lemma NothingRead(t: string)
    requires IsText(t)
    ensures ReadTo(t, 0, [], 0, 0)
  {
    assert t[..0] == [];
  }
}

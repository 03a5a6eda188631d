/** The Serpent block cipher on 32-bit words, bit by bit: the macro steps of the code, the
    cipher they implement (published S-box tables, linear transformation, 32 rounds), and
    the proof that decryption inverts encryption for every key schedule. */
module Serpent {
  import opened BitWords

  /** Four words: a block, or the four live registers. */
  datatype Quad = Quad(a: Word, b: Word, c: Word, d: Word)

  /** A key schedule of 33 round keys of four words. */
  type Schedule = k: seq<Word> | |k| == 132 witness seq(132, _ => ZERO)

  // ----- The cipher -----

  type Table = t: seq<nat> | |t| == 16 && (forall v | 0 <= v < 16 :: t[v] < 16) witness seq(16, _ => 0)

  const BOX0: Table := [3, 8, 15, 1, 10, 6, 5, 11, 14, 13, 4, 2, 7, 0, 9, 12]
  const BOX1: Table := [15, 12, 2, 7, 9, 0, 5, 10, 1, 11, 14, 8, 6, 13, 3, 4]
  const BOX2: Table := [8, 6, 7, 9, 3, 12, 10, 15, 13, 1, 14, 4, 0, 11, 5, 2]
  const BOX3: Table := [0, 15, 11, 8, 12, 9, 6, 3, 13, 1, 2, 4, 10, 7, 5, 14]
  const BOX4: Table := [1, 15, 8, 3, 12, 0, 11, 6, 2, 5, 4, 10, 9, 14, 7, 13]
  const BOX5: Table := [15, 5, 2, 11, 4, 10, 9, 12, 0, 3, 14, 8, 13, 6, 7, 1]
  const BOX6: Table := [7, 2, 12, 5, 8, 4, 6, 11, 14, 9, 1, 15, 13, 3, 10, 0]
  const BOX7: Table := [1, 13, 15, 0, 14, 8, 2, 11, 7, 4, 12, 10, 9, 3, 5, 6]

  const UNBOX0: Table := [13, 3, 11, 0, 10, 6, 5, 12, 1, 14, 4, 7, 15, 9, 8, 2]
  const UNBOX1: Table := [5, 8, 2, 14, 15, 6, 12, 3, 11, 4, 7, 9, 1, 13, 10, 0]
  const UNBOX2: Table := [12, 9, 15, 4, 11, 14, 1, 2, 0, 3, 6, 13, 5, 8, 10, 7]
  const UNBOX3: Table := [0, 9, 10, 7, 11, 14, 6, 13, 3, 5, 12, 2, 4, 8, 15, 1]
  const UNBOX4: Table := [5, 0, 8, 3, 10, 9, 7, 14, 2, 12, 11, 6, 4, 15, 13, 1]
  const UNBOX5: Table := [8, 15, 2, 9, 4, 1, 13, 14, 11, 6, 5, 3, 7, 12, 10, 0]
  const UNBOX6: Table := [15, 10, 1, 13, 5, 3, 6, 0, 4, 9, 14, 7, 2, 12, 8, 11]
  const UNBOX7: Table := [3, 0, 6, 13, 9, 14, 15, 8, 5, 12, 11, 7, 10, 1, 4, 2]

  function Box(i: nat): Table
    requires i < 8
  {
    match i
    case 0 => BOX0
    case 1 => BOX1
    case 2 => BOX2
    case 3 => BOX3
    case 4 => BOX4
    case 5 => BOX5
    case 6 => BOX6
    case 7 => BOX7
  }

  function Unbox(i: nat): Table
    requires i < 8
  {
    match i
    case 0 => UNBOX0
    case 1 => UNBOX1
    case 2 => UNBOX2
    case 3 => UNBOX3
    case 4 => UNBOX4
    case 5 => UNBOX5
    case 6 => UNBOX6
    case 7 => UNBOX7
  }

  /** The four bits at one position of a block, the first word's bit lowest. */
  function Nibble(b0: bool, b1: bool, b2: bool, b3: bool): (n: nat)
    ensures n < 16
  {
    (if b0 then 1 else 0) + (if b1 then 2 else 0) + (if b2 then 4 else 0) + (if b3 then 8 else 0)
  }

  function NibbleAt(q: Quad, i: nat): (n: nat)
    requires i < 32
    ensures n < 16
  {
    Nibble(q.a[i], q.b[i], q.c[i], q.d[i])
  }

  /** One S-box applied at every bit position. */
  function Substitute(t: Table, q: Quad): Quad {
    Quad(seq(32, i requires 0 <= i < 32 => t[NibbleAt(q, i)] % 2 == 1),
         seq(32, i requires 0 <= i < 32 => t[NibbleAt(q, i)] / 2 % 2 == 1),
         seq(32, i requires 0 <= i < 32 => t[NibbleAt(q, i)] / 4 % 2 == 1),
         seq(32, i requires 0 <= i < 32 => t[NibbleAt(q, i)] / 8 % 2 == 1))
  }

  function Mix(k: Schedule, i: nat, q: Quad): Quad
    requires i < 33
  {
    Quad(Xor(q.a, k[4 * i]), Xor(q.b, k[4 * i + 1]), Xor(q.c, k[4 * i + 2]), Xor(q.d, k[4 * i + 3]))
  }

  /** The linear transformation. */
  function Linear(q: Quad): Quad {
    var a := Rol(q.a, 13);
    var c := Rol(q.c, 3);
    var b := Rol(Xor(Xor(q.b, a), c), 1);
    var d := Rol(Xor(Xor(q.d, c), Shl(a, 3)), 7);
    Quad(Rol(Xor(Xor(a, b), d), 5), b, Rol(Xor(Xor(c, d), Shl(b, 7)), 22), d)
  }

  function Unlinear(q: Quad): Quad {
    var a := Xor(Xor(Ror(q.a, 5), q.d), q.b);
    var c := Xor(Xor(Ror(q.c, 22), Shl(q.b, 7)), q.d);
    var d := Xor(Xor(Ror(q.d, 7), Shl(a, 3)), c);
    var b := Xor(Xor(Ror(q.b, 1), c), a);
    Quad(Ror(a, 13), b, Ror(c, 3), d)
  }

  /** The state before S-box `i`. */
  function Before(k: Schedule, i: nat, q: Quad): Quad
    requires i < 32
  {
    if i == 0 then Mix(k, 0, q) else Mix(k, i, Linear(Substitute(Box((i - 1) % 8), Before(k, i - 1, q))))
  }

  function Encrypted(k: Schedule, q: Quad): Quad {
    Mix(k, 32, Substitute(Box(7), Before(k, 31, q)))
  }

  /** The state before S-box `i`, worked out backwards from the ciphertext. */
  function Back(k: Schedule, i: nat, q: Quad): Quad
    requires i < 32
    decreases 31 - i
  {
    if i == 31 then Substitute(Unbox(7), Mix(k, 32, q))
    else Substitute(Unbox(i % 8), Unlinear(Mix(k, i + 1, Back(k, i + 1, q))))
  }

  function Decrypted(k: Schedule, q: Quad): Quad {
    Mix(k, 0, Back(k, 0, q))
  }

  // ----- Decryption inverts encryption, and the other way round -----

  ghost predicate Inverse(t: Table, u: Table) {
    forall v | 0 <= v < 16 :: u[t[v]] == v
  }

  /** `Inverse` written out, for tables that are literals. */
  ghost predicate Undone(t: Table, u: Table) {
    && u[t[0]] == 0 && u[t[1]] == 1 && u[t[2]] == 2 && u[t[3]] == 3
    && u[t[4]] == 4 && u[t[5]] == 5 && u[t[6]] == 6 && u[t[7]] == 7
    && u[t[8]] == 8 && u[t[9]] == 9 && u[t[10]] == 10 && u[t[11]] == 11
    && u[t[12]] == 12 && u[t[13]] == 13 && u[t[14]] == 14 && u[t[15]] == 15
  }

  lemma UndoneIsInverse(t: Table, u: Table)
    requires Undone(t, u)
    ensures Inverse(t, u)
  {
  }

  lemma BoxesInvert(i: nat)
    requires i < 8
    ensures Inverse(Box(i), Unbox(i)) && Inverse(Unbox(i), Box(i))
  {
    hide Inverse;
    LiteralBoxesUndone();
    LiteralUnboxesUndone();
    UndoneIsInverse(Box(i), Unbox(i));
    UndoneIsInverse(Unbox(i), Box(i));
  }

  lemma LiteralBoxesUndone()
    ensures Undone(BOX0, UNBOX0)
    ensures Undone(BOX1, UNBOX1)
    ensures Undone(BOX2, UNBOX2)
    ensures Undone(BOX3, UNBOX3)
    ensures Undone(BOX4, UNBOX4)
    ensures Undone(BOX5, UNBOX5)
    ensures Undone(BOX6, UNBOX6)
    ensures Undone(BOX7, UNBOX7)
  {
  }

  lemma LiteralUnboxesUndone()
    ensures Undone(UNBOX0, BOX0)
    ensures Undone(UNBOX1, BOX1)
    ensures Undone(UNBOX2, BOX2)
    ensures Undone(UNBOX3, BOX3)
    ensures Undone(UNBOX4, BOX4)
    ensures Undone(UNBOX5, BOX5)
    ensures Undone(UNBOX6, BOX6)
    ensures Undone(UNBOX7, BOX7)
  {
  }

  lemma NibbleBits(b0: bool, b1: bool, b2: bool, b3: bool)
    ensures var n := Nibble(b0, b1, b2, b3);
            (n % 2 == 1) == b0 && (n / 2 % 2 == 1) == b1 && (n / 4 % 2 == 1) == b2 && (n / 8 % 2 == 1) == b3
  {
  }

  lemma BitsNibble(n: nat)
    requires n < 16
    ensures Nibble(n % 2 == 1, n / 2 % 2 == 1, n / 4 % 2 == 1, n / 8 % 2 == 1) == n
  {
  }

  /** A block with the right four bits at every position is the substituted block. */
  lemma SubstituteIs(t: Table, x: Quad, y: Quad)
    requires forall i | 0 <= i < 32 :: NibbleAt(y, i) == t[NibbleAt(x, i)]
    ensures y == Substitute(t, x)
  {
    var z := Substitute(t, x);
    forall i | 0 <= i < 32
      ensures y.a[i] == z.a[i] && y.b[i] == z.b[i] && y.c[i] == z.c[i] && y.d[i] == z.d[i]
    {
      NibbleBits(y.a[i], y.b[i], y.c[i], y.d[i]);
    }
  }

  lemma SubstituteInverts(t: Table, u: Table, q: Quad)
    requires Inverse(t, u)
    ensures Substitute(u, Substitute(t, q)) == q
  {
    var z := Substitute(t, q);
    forall i | 0 <= i < 32
      ensures NibbleAt(q, i) == u[NibbleAt(z, i)]
    {
      BitsNibble(t[NibbleAt(q, i)]);
    }
    SubstituteIs(u, z, q);
  }

  lemma MixTwice(k: Schedule, i: nat, q: Quad)
    requires i < 33
    ensures Mix(k, i, Mix(k, i, q)) == q
  {
    XorTwice(q.a, k[4 * i]);
    XorTwice(q.b, k[4 * i + 1]);
    XorTwice(q.c, k[4 * i + 2]);
    XorTwice(q.d, k[4 * i + 3]);
  }

  lemma LinearInverts(q: Quad)
    ensures Unlinear(Linear(q)) == q
  {
    hide Xor, Rol, Ror, Shl;
    var a := Rol(q.a, 13);
    var c := Rol(q.c, 3);
    var b := Rol(Xor(Xor(q.b, a), c), 1);
    var d := Rol(Xor(Xor(q.d, c), Shl(a, 3)), 7);
    RotateBack(Xor(Xor(a, b), d), 5);
    XorTwice(Xor(a, b), d);
    XorTwice(a, b);
    RotateBack(q.a, 13);
    RotateBack(Xor(Xor(c, d), Shl(b, 7)), 22);
    XorTwice(Xor(c, d), Shl(b, 7));
    XorTwice(c, d);
    RotateBack(q.c, 3);
    RotateBack(Xor(Xor(q.b, a), c), 1);
    XorTwice(Xor(q.b, a), c);
    XorTwice(q.b, a);
    RotateBack(Xor(Xor(q.d, c), Shl(a, 3)), 7);
    XorTwice(Xor(q.d, c), Shl(a, 3));
    XorTwice(q.d, c);
  }

  lemma UnlinearInverts(q: Quad)
    ensures Linear(Unlinear(q)) == q
  {
    hide Xor, Rol, Ror, Shl;
    var a := Xor(Xor(Ror(q.a, 5), q.d), q.b);
    var c := Xor(Xor(Ror(q.c, 22), Shl(q.b, 7)), q.d);
    var d := Xor(Xor(Ror(q.d, 7), Shl(a, 3)), c);
    var b := Xor(Xor(Ror(q.b, 1), c), a);
    RotateBack(a, 13);
    RotateBack(c, 3);
    XorTwice(Xor(Ror(q.b, 1), c), a);
    XorTwice(Ror(q.b, 1), c);
    RotateBack(q.b, 1);
    XorTwice(Xor(Ror(q.d, 7), Shl(a, 3)), c);
    XorTwice(Ror(q.d, 7), Shl(a, 3));
    RotateBack(q.d, 7);
    XorTwice(Xor(Ror(q.a, 5), q.d), q.b);
    XorTwice(Ror(q.a, 5), q.d);
    RotateBack(q.a, 5);
    XorTwice(Xor(Ror(q.c, 22), Shl(q.b, 7)), q.d);
    XorTwice(Ror(q.c, 22), Shl(q.b, 7));
    RotateBack(q.c, 22);
  }

  /** Going back from the ciphertext meets every state of the encryption. */
  lemma {:induction false} BackRetraces(k: Schedule, i: nat, q: Quad)
    requires i < 32
    ensures Back(k, i, Encrypted(k, q)) == Before(k, i, q)
    decreases 31 - i
  {
    hide Mix, Linear, Unlinear, Substitute, Box, Unbox;
    BoxesInvert(i % 8);
    SubstituteInverts(Box(i % 8), Unbox(i % 8), Before(k, i, q));
    var s := Substitute(Box(i % 8), Before(k, i, q));
    if i == 31 {
      MixTwice(k, 32, s);
    } else {
      BackRetraces(k, i + 1, q);
      MixTwice(k, i + 1, Linear(s));
      LinearInverts(s);
    }
  }

  /** Encrypting what was worked out backwards meets the same states. */
  lemma {:induction false} BeforeRetraces(k: Schedule, i: nat, q: Quad)
    requires i < 32
    ensures Before(k, i, Decrypted(k, q)) == Back(k, i, q)
  {
    hide Mix, Linear, Unlinear, Substitute, Box, Unbox;
    if i == 0 {
      MixTwice(k, 0, Back(k, 0, q));
    } else {
      BeforeRetraces(k, i - 1, q);
      BoxesInvert((i - 1) % 8);
      var m := Mix(k, i, Back(k, i, q));
      SubstituteInverts(Unbox((i - 1) % 8), Box((i - 1) % 8), Unlinear(m));
      UnlinearInverts(m);
      MixTwice(k, i, Back(k, i, q));
    }
  }

  lemma DecryptedEncrypted(k: Schedule, q: Quad)
    ensures Decrypted(k, Encrypted(k, q)) == q
  {
    hide Mix;
    BackRetraces(k, 0, q);
    MixTwice(k, 0, q);
  }

  lemma EncryptedDecrypted(k: Schedule, q: Quad)
    ensures Encrypted(k, Decrypted(k, q)) == q
  {
    hide Mix, Substitute, Box, Unbox;
    BeforeRetraces(k, 31, q);
    BoxesInvert(7);
    SubstituteInverts(Unbox(7), Box(7), Mix(k, 32, q));
    MixTwice(k, 32, q);
  }

  // ----- The code: macros that update five registers in place -----

  method S0(x0: Word, x1: Word, x2: Word, x3: Word, x4: Word) returns (y0: Word, y1: Word, y2: Word, y3: Word, y4: Word)
    ensures Quad(y2, y1, y3, y0) == Substitute(Box(0), Quad(x0, x1, x2, x3))
  {
    hide Substitute;
    y0, y1, y2, y3, y4 := x0, x1, x2, x3, x4;
    y4 := y3; y3 := Or(y3, y0); y0 := Xor(y0, y4);
    y4 := Xor(y4, y2); y4 := Not(y4); y3 := Xor(y3, y1);
    y1 := And(y1, y0); y1 := Xor(y1, y4); y2 := Xor(y2, y0);
    y0 := Xor(y0, y3); y4 := Or(y4, y0); y0 := Xor(y0, y2);
    y2 := And(y2, y1); y3 := Xor(y3, y2); y1 := Not(y1);
    y2 := Xor(y2, y4); y1 := Xor(y1, y2);
    SubstituteIs(Box(0), Quad(x0, x1, x2, x3), Quad(y2, y1, y3, y0));
  }

  method S1(x0: Word, x1: Word, x2: Word, x3: Word, x4: Word) returns (y0: Word, y1: Word, y2: Word, y3: Word, y4: Word)
    ensures Quad(y4, y2, y3, y0) == Substitute(Box(1), Quad(x0, x1, x2, x3))
  {
    hide Substitute;
    y0, y1, y2, y3, y4 := x0, x1, x2, x3, x4;
    y4 := y1; y1 := Xor(y1, y0); y0 := Xor(y0, y3);
    y3 := Not(y3); y4 := And(y4, y1); y0 := Or(y0, y1);
    y3 := Xor(y3, y2); y0 := Xor(y0, y3); y1 := Xor(y1, y3);
    y3 := Xor(y3, y4); y1 := Or(y1, y4); y4 := Xor(y4, y2);
    y2 := And(y2, y0); y2 := Xor(y2, y1); y1 := Or(y1, y0);
    y0 := Not(y0); y0 := Xor(y0, y2); y4 := Xor(y4, y1);
    SubstituteIs(Box(1), Quad(x0, x1, x2, x3), Quad(y4, y2, y3, y0));
  }

  method S2(x0: Word, x1: Word, x2: Word, x3: Word, x4: Word) returns (y0: Word, y1: Word, y2: Word, y3: Word, y4: Word)
    ensures Quad(y4, y1, y0, y3) == Substitute(Box(2), Quad(x0, x1, x2, x3))
  {
    hide Substitute;
    y0, y1, y2, y3, y4 := x0, x1, x2, x3, x4;
    y3 := Not(y3); y1 := Xor(y1, y0); y4 := y0;
    y0 := And(y0, y2); y0 := Xor(y0, y3); y3 := Or(y3, y4);
    y2 := Xor(y2, y1); y3 := Xor(y3, y1); y1 := And(y1, y0);
    y0 := Xor(y0, y2); y2 := And(y2, y3); y3 := Or(y3, y1);
    y0 := Not(y0); y3 := Xor(y3, y0); y4 := Xor(y4, y0);
    y0 := Xor(y0, y2); y1 := Or(y1, y2);
    SubstituteIs(Box(2), Quad(x0, x1, x2, x3), Quad(y4, y1, y0, y3));
  }

  method S3(x0: Word, x1: Word, x2: Word, x3: Word, x4: Word) returns (y0: Word, y1: Word, y2: Word, y3: Word, y4: Word)
    ensures Quad(y3, y4, y1, y0) == Substitute(Box(3), Quad(x0, x1, x2, x3))
  {
    hide Substitute;
    y0, y1, y2, y3, y4 := x0, x1, x2, x3, x4;
    y4 := y1; y1 := Xor(y1, y3); y3 := Or(y3, y0);
    y4 := And(y4, y0); y0 := Xor(y0, y2); y2 := Xor(y2, y1);
    y1 := And(y1, y3); y2 := Xor(y2, y3); y0 := Or(y0, y4);
    y4 := Xor(y4, y3); y1 := Xor(y1, y0); y0 := And(y0, y3);
    y3 := And(y3, y4); y3 := Xor(y3, y2); y4 := Or(y4, y1);
    y2 := And(y2, y1); y4 := Xor(y4, y3); y0 := Xor(y0, y3);
    y3 := Xor(y3, y2);
    SubstituteIs(Box(3), Quad(x0, x1, x2, x3), Quad(y3, y4, y1, y0));
  }

  method S4(x0: Word, x1: Word, x2: Word, x3: Word, x4: Word) returns (y0: Word, y1: Word, y2: Word, y3: Word, y4: Word)
    ensures Quad(y1, y2, y3, y4) == Substitute(Box(4), Quad(x0, x1, x2, x3))
  {
    hide Substitute;
    y0, y1, y2, y3, y4 := x0, x1, x2, x3, x4;
    y4 := y3; y3 := And(y3, y0); y0 := Xor(y0, y4);
    y3 := Xor(y3, y2); y2 := Or(y2, y4); y0 := Xor(y0, y1);
    y4 := Xor(y4, y3); y2 := Or(y2, y0); y2 := Xor(y2, y1);
    y1 := And(y1, y0); y1 := Xor(y1, y4); y4 := And(y4, y2);
    y2 := Xor(y2, y3); y4 := Xor(y4, y0); y3 := Or(y3, y1);
    y1 := Not(y1); y3 := Xor(y3, y0);
    SubstituteIs(Box(4), Quad(x0, x1, x2, x3), Quad(y1, y2, y3, y4));
  }

  method S5(x0: Word, x1: Word, x2: Word, x3: Word, x4: Word) returns (y0: Word, y1: Word, y2: Word, y3: Word, y4: Word)
    ensures Quad(y4, y0, y1, y3) == Substitute(Box(5), Quad(x0, x1, x2, x3))
  {
    hide Substitute;
    y0, y1, y2, y3, y4 := x0, x1, x2, x3, x4;
    y4 := y1; y1 := Or(y1, y0); y2 := Xor(y2, y1);
    y3 := Not(y3); y4 := Xor(y4, y0); y0 := Xor(y0, y2);
    y1 := And(y1, y4); y4 := Or(y4, y3); y4 := Xor(y4, y0);
    y0 := And(y0, y3); y1 := Xor(y1, y3); y3 := Xor(y3, y2);
    y0 := Xor(y0, y1); y2 := And(y2, y4); y1 := Xor(y1, y2);
    y2 := And(y2, y0); y3 := Xor(y3, y2);
    SubstituteIs(Box(5), Quad(x0, x1, x2, x3), Quad(y4, y0, y1, y3));
  }

  method S6(x0: Word, x1: Word, x2: Word, x3: Word, x4: Word) returns (y0: Word, y1: Word, y2: Word, y3: Word, y4: Word)
    ensures Quad(y2, y4, y1, y3) == Substitute(Box(6), Quad(x0, x1, x2, x3))
  {
    hide Substitute;
    y0, y1, y2, y3, y4 := x0, x1, x2, x3, x4;
    y4 := y1; y3 := Xor(y3, y0); y1 := Xor(y1, y2);
    y2 := Xor(y2, y0); y0 := And(y0, y3); y1 := Or(y1, y3);
    y4 := Not(y4); y0 := Xor(y0, y1); y1 := Xor(y1, y2);
    y3 := Xor(y3, y4); y4 := Xor(y4, y0); y2 := And(y2, y0);
    y4 := Xor(y4, y1); y2 := Xor(y2, y3); y3 := And(y3, y1);
    y3 := Xor(y3, y0); y1 := Xor(y1, y2);
    SubstituteIs(Box(6), Quad(x0, x1, x2, x3), Quad(y2, y4, y1, y3));
  }

  method S7(x0: Word, x1: Word, x2: Word, x3: Word, x4: Word) returns (y0: Word, y1: Word, y2: Word, y3: Word, y4: Word)
    ensures Quad(y4, y2, y3, y0) == Substitute(Box(7), Quad(x0, x1, x2, x3))
  {
    hide Substitute;
    y0, y1, y2, y3, y4 := x0, x1, x2, x3, x4;
    y1 := Not(y1); y4 := y1; y0 := Not(y0);
    y1 := And(y1, y2); y1 := Xor(y1, y3); y3 := Or(y3, y4);
    y4 := Xor(y4, y2); y2 := Xor(y2, y3); y3 := Xor(y3, y0);
    y0 := Or(y0, y1); y2 := And(y2, y0); y0 := Xor(y0, y4);
    y4 := Xor(y4, y3); y3 := And(y3, y0); y4 := Xor(y4, y1);
    y2 := Xor(y2, y4); y3 := Xor(y3, y1); y4 := Or(y4, y0);
    y4 := Xor(y4, y1);
    SubstituteIs(Box(7), Quad(x0, x1, x2, x3), Quad(y4, y2, y3, y0));
  }

  method SI0(x0: Word, x1: Word, x2: Word, x3: Word, x4: Word)
      returns (y0: Word, y1: Word, y2: Word, y3: Word, y4: Word)
    ensures Quad(y2, y4, y1, y0) == Substitute(Unbox(0), Quad(x0, x1, x2, x3))
  {
    hide Substitute;
    y0, y1, y2, y3, y4 := x0, x1, x2, x3, x4;
    y4 := y3; y1 := Xor(y1, y0); y3 := Or(y3, y1);
    y4 := Xor(y4, y1); y0 := Not(y0); y2 := Xor(y2, y3);
    y3 := Xor(y3, y0); y0 := And(y0, y1); y0 := Xor(y0, y2);
    y2 := And(y2, y3); y3 := Xor(y3, y4); y2 := Xor(y2, y3);
    y1 := Xor(y1, y3); y3 := And(y3, y0); y1 := Xor(y1, y0);
    y0 := Xor(y0, y2); y4 := Xor(y4, y3);
    SubstituteIs(Unbox(0), Quad(x0, x1, x2, x3), Quad(y2, y4, y1, y0));
  }

  method SI1(x0: Word, x1: Word, x2: Word, x3: Word, x4: Word)
      returns (y0: Word, y1: Word, y2: Word, y3: Word, y4: Word)
    ensures Quad(y4, y1, y2, y3) == Substitute(Unbox(1), Quad(x0, x1, x2, x3))
  {
    hide Substitute;
    y0, y1, y2, y3, y4 := x0, x1, x2, x3, x4;
    y1 := Xor(y1, y3); y4 := y0; y0 := Xor(y0, y2);
    y2 := Not(y2); y4 := Or(y4, y1); y4 := Xor(y4, y3);
    y3 := And(y3, y1); y1 := Xor(y1, y2); y2 := And(y2, y4);
    y4 := Xor(y4, y1); y1 := Or(y1, y3); y3 := Xor(y3, y0);
    y2 := Xor(y2, y0); y0 := Or(y0, y4); y2 := Xor(y2, y4);
    y1 := Xor(y1, y0); y4 := Xor(y4, y1);
    SubstituteIs(Unbox(1), Quad(x0, x1, x2, x3), Quad(y4, y1, y2, y3));
  }

  method SI2(x0: Word, x1: Word, x2: Word, x3: Word, x4: Word)
      returns (y0: Word, y1: Word, y2: Word, y3: Word, y4: Word)
    ensures Quad(y1, y4, y3, y2) == Substitute(Unbox(2), Quad(x0, x1, x2, x3))
  {
    hide Substitute;
    y0, y1, y2, y3, y4 := x0, x1, x2, x3, x4;
    y2 := Xor(y2, y1); y4 := y3; y3 := Not(y3);
    y3 := Or(y3, y2); y2 := Xor(y2, y4); y4 := Xor(y4, y0);
    y3 := Xor(y3, y1); y1 := Or(y1, y2); y2 := Xor(y2, y0);
    y1 := Xor(y1, y4); y4 := Or(y4, y3); y2 := Xor(y2, y3);
    y4 := Xor(y4, y2); y2 := And(y2, y1); y2 := Xor(y2, y3);
    y3 := Xor(y3, y4); y4 := Xor(y4, y0);
    SubstituteIs(Unbox(2), Quad(x0, x1, x2, x3), Quad(y1, y4, y3, y2));
  }

  method SI3(x0: Word, x1: Word, x2: Word, x3: Word, x4: Word)
      returns (y0: Word, y1: Word, y2: Word, y3: Word, y4: Word)
    ensures Quad(y2, y0, y4, y3) == Substitute(Unbox(3), Quad(x0, x1, x2, x3))
  {
    hide Substitute;
    y0, y1, y2, y3, y4 := x0, x1, x2, x3, x4;
    y2 := Xor(y2, y1); y4 := y1; y1 := And(y1, y2);
    y1 := Xor(y1, y0); y0 := Or(y0, y4); y4 := Xor(y4, y3);
    y0 := Xor(y0, y3); y3 := Or(y3, y1); y1 := Xor(y1, y2);
    y1 := Xor(y1, y3); y0 := Xor(y0, y2); y2 := Xor(y2, y3);
    y3 := And(y3, y1); y1 := Xor(y1, y0); y0 := And(y0, y2);
    y4 := Xor(y4, y3); y3 := Xor(y3, y0); y0 := Xor(y0, y1);
    SubstituteIs(Unbox(3), Quad(x0, x1, x2, x3), Quad(y2, y0, y4, y3));
  }

  method SI4(x0: Word, x1: Word, x2: Word, x3: Word, x4: Word)
      returns (y0: Word, y1: Word, y2: Word, y3: Word, y4: Word)
    ensures Quad(y0, y2, y4, y3) == Substitute(Unbox(4), Quad(x0, x1, x2, x3))
  {
    hide Substitute;
    y0, y1, y2, y3, y4 := x0, x1, x2, x3, x4;
    y2 := Xor(y2, y3); y4 := y0; y0 := And(y0, y1);
    y0 := Xor(y0, y2); y2 := Or(y2, y3); y4 := Not(y4);
    y1 := Xor(y1, y0); y0 := Xor(y0, y2); y2 := And(y2, y4);
    y2 := Xor(y2, y0); y0 := Or(y0, y4); y0 := Xor(y0, y3);
    y3 := And(y3, y2); y4 := Xor(y4, y3); y3 := Xor(y3, y1);
    y1 := And(y1, y0); y4 := Xor(y4, y1); y0 := Xor(y0, y3);
    SubstituteIs(Unbox(4), Quad(x0, x1, x2, x3), Quad(y0, y2, y4, y3));
  }

  method SI5(x0: Word, x1: Word, x2: Word, x3: Word, x4: Word)
      returns (y0: Word, y1: Word, y2: Word, y3: Word, y4: Word)
    ensures Quad(y1, y4, y0, y2) == Substitute(Unbox(5), Quad(x0, x1, x2, x3))
  {
    hide Substitute;
    y0, y1, y2, y3, y4 := x0, x1, x2, x3, x4;
    y4 := y1; y1 := Or(y1, y2); y2 := Xor(y2, y4);
    y1 := Xor(y1, y3); y3 := And(y3, y4); y2 := Xor(y2, y3);
    y3 := Or(y3, y0); y0 := Not(y0); y3 := Xor(y3, y2);
    y2 := Or(y2, y0); y4 := Xor(y4, y1); y2 := Xor(y2, y4);
    y4 := And(y4, y0); y0 := Xor(y0, y1); y1 := Xor(y1, y3);
    y0 := And(y0, y2); y2 := Xor(y2, y3); y0 := Xor(y0, y2);
    y2 := Xor(y2, y4); y4 := Xor(y4, y3);
    SubstituteIs(Unbox(5), Quad(x0, x1, x2, x3), Quad(y1, y4, y0, y2));
  }

  method SI6(x0: Word, x1: Word, x2: Word, x3: Word, x4: Word)
      returns (y0: Word, y1: Word, y2: Word, y3: Word, y4: Word)
    ensures Quad(y2, y4, y3, y0) == Substitute(Unbox(6), Quad(x0, x1, x2, x3))
  {
    hide Substitute;
    y0, y1, y2, y3, y4 := x0, x1, x2, x3, x4;
    y0 := Xor(y0, y2); y4 := y0; y0 := And(y0, y3);
    y2 := Xor(y2, y3); y0 := Xor(y0, y2); y3 := Xor(y3, y1);
    y2 := Or(y2, y4); y2 := Xor(y2, y3); y3 := And(y3, y0);
    y0 := Not(y0); y3 := Xor(y3, y1); y1 := And(y1, y2);
    y4 := Xor(y4, y0); y3 := Xor(y3, y4); y4 := Xor(y4, y2);
    y0 := Xor(y0, y1); y2 := Xor(y2, y0);
    SubstituteIs(Unbox(6), Quad(x0, x1, x2, x3), Quad(y2, y4, y3, y0));
  }

  method SI7(x0: Word, x1: Word, x2: Word, x3: Word, x4: Word)
      returns (y0: Word, y1: Word, y2: Word, y3: Word, y4: Word)
    ensures Quad(y1, y3, y0, y4) == Substitute(Unbox(7), Quad(x0, x1, x2, x3))
  {
    hide Substitute;
    y0, y1, y2, y3, y4 := x0, x1, x2, x3, x4;
    y4 := y3; y3 := And(y3, y0); y0 := Xor(y0, y2);
    y2 := Or(y2, y4); y4 := Xor(y4, y1); y0 := Not(y0);
    y1 := Or(y1, y3); y4 := Xor(y4, y0); y0 := And(y0, y2);
    y0 := Xor(y0, y1); y1 := And(y1, y2); y3 := Xor(y3, y2);
    y4 := Xor(y4, y3); y2 := And(y2, y3); y3 := Or(y3, y0);
    y1 := Xor(y1, y4); y3 := Xor(y3, y4); y4 := And(y4, y0);
    y4 := Xor(y4, y2);
    SubstituteIs(Unbox(7), Quad(x0, x1, x2, x3), Quad(y1, y3, y0, y4));
  }

  method K(x0: Word, x1: Word, x2: Word, x3: Word, k: Schedule, i: nat)
      returns (y0: Word, y1: Word, y2: Word, y3: Word)
    requires i < 33
    ensures Quad(y0, y1, y2, y3) == Mix(k, i, Quad(x0, x1, x2, x3))
  {
    y3 := Xor(x3, k[4 * i + 3]); y2 := Xor(x2, k[4 * i + 2]);
    y1 := Xor(x1, k[4 * i + 1]); y0 := Xor(x0, k[4 * i]);
  }

  method LK(x0: Word, x1: Word, x2: Word, x3: Word, x4: Word, k: Schedule, i: nat)
      returns (y0: Word, y1: Word, y2: Word, y3: Word, y4: Word)
    requires i < 33
    ensures Quad(y0, y1, y2, y3) == Mix(k, i, Linear(Quad(x0, x1, x2, x3)))
  {
    hide Xor, Rol, Shl;
    y0, y1, y2, y3, y4 := x0, x1, x2, x3, x4;
    y0 := Rol(y0, 13);
    y2 := Rol(y2, 3); y1 := Xor(y1, y0); y4 := Shl(y0, 3);
    y3 := Xor(y3, y2); y1 := Xor(y1, y2);
    y1 := Rol(y1, 1); y3 := Xor(y3, y4);
    y3 := Rol(y3, 7); y4 := y1;
    y0 := Xor(y0, y1); y4 := Shl(y4, 7); y2 := Xor(y2, y3);
    y0 := Xor(y0, y3); y2 := Xor(y2, y4); y3 := Xor(y3, k[4 * i + 3]);
    y1 := Xor(y1, k[4 * i + 1]); y0 := Rol(y0, 5); y2 := Rol(y2, 22);
    y0 := Xor(y0, k[4 * i]); y2 := Xor(y2, k[4 * i + 2]);
  }

  method KL(x0: Word, x1: Word, x2: Word, x3: Word, x4: Word, k: Schedule, i: nat)
      returns (y0: Word, y1: Word, y2: Word, y3: Word, y4: Word)
    requires i < 33
    ensures Quad(y0, y1, y2, y3) == Unlinear(Mix(k, i, Quad(x0, x1, x2, x3)))
  {
    hide Xor, Ror, Shl;
    y0, y1, y2, y3, y4 := x0, x1, x2, x3, x4;
    y0 := Xor(y0, k[4 * i]); y1 := Xor(y1, k[4 * i + 1]); y2 := Xor(y2, k[4 * i + 2]);
    y3 := Xor(y3, k[4 * i + 3]); y0 := Ror(y0, 5); y2 := Ror(y2, 22);
    XorSwap(y2, y3, Shl(y1, 7));
    y4 := y1; y2 := Xor(y2, y3); y0 := Xor(y0, y3);
    y4 := Shl(y4, 7); y0 := Xor(y0, y1); y1 := Ror(y1, 1);
    y2 := Xor(y2, y4); y3 := Ror(y3, 7); y4 := Shl(y0, 3);
    XorSwap(y1, y0, y2);
    y1 := Xor(y1, y0); y3 := Xor(y3, y4); y0 := Ror(y0, 13);
    y1 := Xor(y1, y2); y3 := Xor(y3, y2); y2 := Ror(y2, 3);
  }

  lemma BeforeNext(k: Schedule, i: nat, q: Quad)
    requires i < 31
    ensures Before(k, i + 1, q) == Mix(k, i + 1, Linear(Substitute(Box(i % 8), Before(k, i, q))))
  {
  }

  lemma BackNext(k: Schedule, i: nat, q: Quad)
    requires i < 31
    ensures Back(k, i, q) == Substitute(Unbox(i % 8), Unlinear(Mix(k, i + 1, Back(k, i + 1, q))))
  {
  }

  lemma BackLast(k: Schedule, q: Quad)
    ensures Back(k, 31, q) == Substitute(Unbox(7), Mix(k, 32, q))
  {
  }

  // The rounds, eight at a time. Each line names the registers as the code does.

  method Forward0(x0: Word, x1: Word, x2: Word, x3: Word, x4: Word, k: Schedule, ghost q: Quad)
      returns (r0: Word, r1: Word, r2: Word, r3: Word, r4: Word)
    requires Quad(x0, x1, x2, x3) == Before(k, 0, q)
    ensures Quad(r2, r0, r4, r3) == Before(k, 8, q)
  {
    hide *;
    r0, r1, r2, r3, r4 := x0, x1, x2, x3, x4;
    r0, r1, r2, r3, r4 := S0(r0, r1, r2, r3, r4);
    r2, r1, r3, r0, r4 := LK(r2, r1, r3, r0, r4, k, 1); BeforeNext(k, 0, q);
    r2, r1, r3, r0, r4 := S1(r2, r1, r3, r0, r4);
    r4, r3, r0, r2, r1 := LK(r4, r3, r0, r2, r1, k, 2); BeforeNext(k, 1, q);
    r4, r3, r0, r2, r1 := S2(r4, r3, r0, r2, r1);
    r1, r3, r4, r2, r0 := LK(r1, r3, r4, r2, r0, k, 3); BeforeNext(k, 2, q);
    r1, r3, r4, r2, r0 := S3(r1, r3, r4, r2, r0);
    r2, r0, r3, r1, r4 := LK(r2, r0, r3, r1, r4, k, 4); BeforeNext(k, 3, q);
    r2, r0, r3, r1, r4 := S4(r2, r0, r3, r1, r4);
    r0, r3, r1, r4, r2 := LK(r0, r3, r1, r4, r2, k, 5); BeforeNext(k, 4, q);
    r0, r3, r1, r4, r2 := S5(r0, r3, r1, r4, r2);
    r2, r0, r3, r4, r1 := LK(r2, r0, r3, r4, r1, k, 6); BeforeNext(k, 5, q);
    r2, r0, r3, r4, r1 := S6(r2, r0, r3, r4, r1);
    r3, r1, r0, r4, r2 := LK(r3, r1, r0, r4, r2, k, 7); BeforeNext(k, 6, q);
    r3, r1, r0, r4, r2 := S7(r3, r1, r0, r4, r2);
    r2, r0, r4, r3, r1 := LK(r2, r0, r4, r3, r1, k, 8); BeforeNext(k, 7, q);
  }

  method Forward1(x0: Word, x1: Word, x2: Word, x3: Word, x4: Word, k: Schedule, ghost q: Quad)
      returns (r0: Word, r1: Word, r2: Word, r3: Word, r4: Word)
    requires Quad(x2, x0, x4, x3) == Before(k, 8, q)
    ensures Quad(r4, r2, r1, r3) == Before(k, 16, q)
  {
    hide *;
    r0, r1, r2, r3, r4 := x0, x1, x2, x3, x4;
    r2, r0, r4, r3, r1 := S0(r2, r0, r4, r3, r1);
    r4, r0, r3, r2, r1 := LK(r4, r0, r3, r2, r1, k, 9); BeforeNext(k, 8, q);
    r4, r0, r3, r2, r1 := S1(r4, r0, r3, r2, r1);
    r1, r3, r2, r4, r0 := LK(r1, r3, r2, r4, r0, k, 10); BeforeNext(k, 9, q);
    r1, r3, r2, r4, r0 := S2(r1, r3, r2, r4, r0);
    r0, r3, r1, r4, r2 := LK(r0, r3, r1, r4, r2, k, 11); BeforeNext(k, 10, q);
    r0, r3, r1, r4, r2 := S3(r0, r3, r1, r4, r2);
    r4, r2, r3, r0, r1 := LK(r4, r2, r3, r0, r1, k, 12); BeforeNext(k, 11, q);
    r4, r2, r3, r0, r1 := S4(r4, r2, r3, r0, r1);
    r2, r3, r0, r1, r4 := LK(r2, r3, r0, r1, r4, k, 13); BeforeNext(k, 12, q);
    r2, r3, r0, r1, r4 := S5(r2, r3, r0, r1, r4);
    r4, r2, r3, r1, r0 := LK(r4, r2, r3, r1, r0, k, 14); BeforeNext(k, 13, q);
    r4, r2, r3, r1, r0 := S6(r4, r2, r3, r1, r0);
    r3, r0, r2, r1, r4 := LK(r3, r0, r2, r1, r4, k, 15); BeforeNext(k, 14, q);
    r3, r0, r2, r1, r4 := S7(r3, r0, r2, r1, r4);
    r4, r2, r1, r3, r0 := LK(r4, r2, r1, r3, r0, k, 16); BeforeNext(k, 15, q);
  }

  method Forward2(x0: Word, x1: Word, x2: Word, x3: Word, x4: Word, k: Schedule, ghost q: Quad)
      returns (r0: Word, r1: Word, r2: Word, r3: Word, r4: Word)
    requires Quad(x4, x2, x1, x3) == Before(k, 16, q)
    ensures Quad(r1, r4, r0, r3) == Before(k, 24, q)
  {
    hide *;
    r0, r1, r2, r3, r4 := x0, x1, x2, x3, x4;
    r4, r2, r1, r3, r0 := S0(r4, r2, r1, r3, r0);
    r1, r2, r3, r4, r0 := LK(r1, r2, r3, r4, r0, k, 17); BeforeNext(k, 16, q);
    r1, r2, r3, r4, r0 := S1(r1, r2, r3, r4, r0);
    r0, r3, r4, r1, r2 := LK(r0, r3, r4, r1, r2, k, 18); BeforeNext(k, 17, q);
    r0, r3, r4, r1, r2 := S2(r0, r3, r4, r1, r2);
    r2, r3, r0, r1, r4 := LK(r2, r3, r0, r1, r4, k, 19); BeforeNext(k, 18, q);
    r2, r3, r0, r1, r4 := S3(r2, r3, r0, r1, r4);
    r1, r4, r3, r2, r0 := LK(r1, r4, r3, r2, r0, k, 20); BeforeNext(k, 19, q);
    r1, r4, r3, r2, r0 := S4(r1, r4, r3, r2, r0);
    r4, r3, r2, r0, r1 := LK(r4, r3, r2, r0, r1, k, 21); BeforeNext(k, 20, q);
    r4, r3, r2, r0, r1 := S5(r4, r3, r2, r0, r1);
    r1, r4, r3, r0, r2 := LK(r1, r4, r3, r0, r2, k, 22); BeforeNext(k, 21, q);
    r1, r4, r3, r0, r2 := S6(r1, r4, r3, r0, r2);
    r3, r2, r4, r0, r1 := LK(r3, r2, r4, r0, r1, k, 23); BeforeNext(k, 22, q);
    r3, r2, r4, r0, r1 := S7(r3, r2, r4, r0, r1);
    r1, r4, r0, r3, r2 := LK(r1, r4, r0, r3, r2, k, 24); BeforeNext(k, 23, q);
  }

  method Forward3(x0: Word, x1: Word, x2: Word, x3: Word, x4: Word, k: Schedule, ghost q: Quad)
      returns (r0: Word, r1: Word, r2: Word, r3: Word, r4: Word)
    requires Quad(x1, x4, x0, x3) == Before(k, 24, q)
    ensures Quad(r3, r4, r1, r2) == Before(k, 31, q)
  {
    hide *;
    r0, r1, r2, r3, r4 := x0, x1, x2, x3, x4;
    r1, r4, r0, r3, r2 := S0(r1, r4, r0, r3, r2);
    r0, r4, r3, r1, r2 := LK(r0, r4, r3, r1, r2, k, 25); BeforeNext(k, 24, q);
    r0, r4, r3, r1, r2 := S1(r0, r4, r3, r1, r2);
    r2, r3, r1, r0, r4 := LK(r2, r3, r1, r0, r4, k, 26); BeforeNext(k, 25, q);
    r2, r3, r1, r0, r4 := S2(r2, r3, r1, r0, r4);
    r4, r3, r2, r0, r1 := LK(r4, r3, r2, r0, r1, k, 27); BeforeNext(k, 26, q);
    r4, r3, r2, r0, r1 := S3(r4, r3, r2, r0, r1);
    r0, r1, r3, r4, r2 := LK(r0, r1, r3, r4, r2, k, 28); BeforeNext(k, 27, q);
    r0, r1, r3, r4, r2 := S4(r0, r1, r3, r4, r2);
    r1, r3, r4, r2, r0 := LK(r1, r3, r4, r2, r0, k, 29); BeforeNext(k, 28, q);
    r1, r3, r4, r2, r0 := S5(r1, r3, r4, r2, r0);
    r0, r1, r3, r2, r4 := LK(r0, r1, r3, r2, r4, k, 30); BeforeNext(k, 29, q);
    r0, r1, r3, r2, r4 := S6(r0, r1, r3, r2, r4);
    r3, r4, r1, r2, r0 := LK(r3, r4, r1, r2, r0, k, 31); BeforeNext(k, 30, q);
  }

  method Backward0(x0: Word, x1: Word, x2: Word, x3: Word, x4: Word, k: Schedule, ghost q: Quad)
      returns (r0: Word, r1: Word, r2: Word, r3: Word, r4: Word)
    requires Quad(x0, x1, x2, x3) == Mix(k, 32, q)
    ensures Quad(r4, r2, r0, r1) == Unlinear(Mix(k, 24, Back(k, 24, q)))
  {
    hide *;
    r0, r1, r2, r3, r4 := x0, x1, x2, x3, x4;
    r0, r1, r2, r3, r4 := SI7(r0, r1, r2, r3, r4); BackLast(k, q); r1, r3, r0, r4, r2 := KL(r1, r3, r0, r4, r2, k, 31);
    r1, r3, r0, r4, r2 := SI6(r1, r3, r0, r4, r2);
    BackNext(k, 30, q); r0, r2, r4, r1, r3 := KL(r0, r2, r4, r1, r3, k, 30);
    r0, r2, r4, r1, r3 := SI5(r0, r2, r4, r1, r3);
    BackNext(k, 29, q); r2, r3, r0, r4, r1 := KL(r2, r3, r0, r4, r1, k, 29);
    r2, r3, r0, r4, r1 := SI4(r2, r3, r0, r4, r1);
    BackNext(k, 28, q); r2, r0, r1, r4, r3 := KL(r2, r0, r1, r4, r3, k, 28);
    r2, r0, r1, r4, r3 := SI3(r2, r0, r1, r4, r3);
    BackNext(k, 27, q); r1, r2, r3, r4, r0 := KL(r1, r2, r3, r4, r0, k, 27);
    r1, r2, r3, r4, r0 := SI2(r1, r2, r3, r4, r0);
    BackNext(k, 26, q); r2, r0, r4, r3, r1 := KL(r2, r0, r4, r3, r1, k, 26);
    r2, r0, r4, r3, r1 := SI1(r2, r0, r4, r3, r1);
    BackNext(k, 25, q); r1, r0, r4, r3, r2 := KL(r1, r0, r4, r3, r2, k, 25);
    r1, r0, r4, r3, r2 := SI0(r1, r0, r4, r3, r2);
    BackNext(k, 24, q); r4, r2, r0, r1, r3 := KL(r4, r2, r0, r1, r3, k, 24);
  }

  method Backward1(x0: Word, x1: Word, x2: Word, x3: Word, x4: Word, k: Schedule, ghost q: Quad)
      returns (r0: Word, r1: Word, r2: Word, r3: Word, r4: Word)
    requires Quad(x4, x2, x0, x1) == Unlinear(Mix(k, 24, Back(k, 24, q)))
    ensures Quad(r3, r0, r4, r2) == Unlinear(Mix(k, 16, Back(k, 16, q)))
  {
    hide *;
    r0, r1, r2, r3, r4 := x0, x1, x2, x3, x4;
    r4, r2, r0, r1, r3 := SI7(r4, r2, r0, r1, r3);
    BackNext(k, 23, q); r2, r1, r4, r3, r0 := KL(r2, r1, r4, r3, r0, k, 23);
    r2, r1, r4, r3, r0 := SI6(r2, r1, r4, r3, r0);
    BackNext(k, 22, q); r4, r0, r3, r2, r1 := KL(r4, r0, r3, r2, r1, k, 22);
    r4, r0, r3, r2, r1 := SI5(r4, r0, r3, r2, r1);
    BackNext(k, 21, q); r0, r1, r4, r3, r2 := KL(r0, r1, r4, r3, r2, k, 21);
    r0, r1, r4, r3, r2 := SI4(r0, r1, r4, r3, r2);
    BackNext(k, 20, q); r0, r4, r2, r3, r1 := KL(r0, r4, r2, r3, r1, k, 20);
    r0, r4, r2, r3, r1 := SI3(r0, r4, r2, r3, r1);
    BackNext(k, 19, q); r2, r0, r1, r3, r4 := KL(r2, r0, r1, r3, r4, k, 19);
    r2, r0, r1, r3, r4 := SI2(r2, r0, r1, r3, r4);
    BackNext(k, 18, q); r0, r4, r3, r1, r2 := KL(r0, r4, r3, r1, r2, k, 18);
    r0, r4, r3, r1, r2 := SI1(r0, r4, r3, r1, r2);
    BackNext(k, 17, q); r2, r4, r3, r1, r0 := KL(r2, r4, r3, r1, r0, k, 17);
    r2, r4, r3, r1, r0 := SI0(r2, r4, r3, r1, r0);
    BackNext(k, 16, q); r3, r0, r4, r2, r1 := KL(r3, r0, r4, r2, r1, k, 16);
  }

  method Backward2(x0: Word, x1: Word, x2: Word, x3: Word, x4: Word, k: Schedule, ghost q: Quad)
      returns (r0: Word, r1: Word, r2: Word, r3: Word, r4: Word)
    requires Quad(x3, x0, x4, x2) == Unlinear(Mix(k, 16, Back(k, 16, q)))
    ensures Quad(r1, r4, r3, r0) == Unlinear(Mix(k, 8, Back(k, 8, q)))
  {
    hide *;
    r0, r1, r2, r3, r4 := x0, x1, x2, x3, x4;
    r3, r0, r4, r2, r1 := SI7(r3, r0, r4, r2, r1);
    BackNext(k, 15, q); r0, r2, r3, r1, r4 := KL(r0, r2, r3, r1, r4, k, 15);
    r0, r2, r3, r1, r4 := SI6(r0, r2, r3, r1, r4);
    BackNext(k, 14, q); r3, r4, r1, r0, r2 := KL(r3, r4, r1, r0, r2, k, 14);
    r3, r4, r1, r0, r2 := SI5(r3, r4, r1, r0, r2);
    BackNext(k, 13, q); r4, r2, r3, r1, r0 := KL(r4, r2, r3, r1, r0, k, 13);
    r4, r2, r3, r1, r0 := SI4(r4, r2, r3, r1, r0);
    BackNext(k, 12, q); r4, r3, r0, r1, r2 := KL(r4, r3, r0, r1, r2, k, 12);
    r4, r3, r0, r1, r2 := SI3(r4, r3, r0, r1, r2);
    BackNext(k, 11, q); r0, r4, r2, r1, r3 := KL(r0, r4, r2, r1, r3, k, 11);
    r0, r4, r2, r1, r3 := SI2(r0, r4, r2, r1, r3);
    BackNext(k, 10, q); r4, r3, r1, r2, r0 := KL(r4, r3, r1, r2, r0, k, 10);
    r4, r3, r1, r2, r0 := SI1(r4, r3, r1, r2, r0);
    BackNext(k, 9, q); r0, r3, r1, r2, r4 := KL(r0, r3, r1, r2, r4, k, 9);
    r0, r3, r1, r2, r4 := SI0(r0, r3, r1, r2, r4);
    BackNext(k, 8, q); r1, r4, r3, r0, r2 := KL(r1, r4, r3, r0, r2, k, 8);
  }

  method Backward3(x0: Word, x1: Word, x2: Word, x3: Word, x4: Word, k: Schedule, ghost q: Quad)
      returns (r0: Word, r1: Word, r2: Word, r3: Word, r4: Word)
    requires Quad(x1, x4, x3, x0) == Unlinear(Mix(k, 8, Back(k, 8, q)))
    ensures Quad(r2, r3, r1, r4) == Back(k, 0, q)
  {
    hide *;
    r0, r1, r2, r3, r4 := x0, x1, x2, x3, x4;
    r1, r4, r3, r0, r2 := SI7(r1, r4, r3, r0, r2);
    BackNext(k, 7, q); r4, r0, r1, r2, r3 := KL(r4, r0, r1, r2, r3, k, 7);
    r4, r0, r1, r2, r3 := SI6(r4, r0, r1, r2, r3);
    BackNext(k, 6, q); r1, r3, r2, r4, r0 := KL(r1, r3, r2, r4, r0, k, 6);
    r1, r3, r2, r4, r0 := SI5(r1, r3, r2, r4, r0);
    BackNext(k, 5, q); r3, r0, r1, r2, r4 := KL(r3, r0, r1, r2, r4, k, 5);
    r3, r0, r1, r2, r4 := SI4(r3, r0, r1, r2, r4);
    BackNext(k, 4, q); r3, r1, r4, r2, r0 := KL(r3, r1, r4, r2, r0, k, 4);
    r3, r1, r4, r2, r0 := SI3(r3, r1, r4, r2, r0);
    BackNext(k, 3, q); r4, r3, r0, r2, r1 := KL(r4, r3, r0, r2, r1, k, 3);
    r4, r3, r0, r2, r1 := SI2(r4, r3, r0, r2, r1);
    BackNext(k, 2, q); r3, r1, r2, r0, r4 := KL(r3, r1, r2, r0, r4, k, 2);
    r3, r1, r2, r0, r4 := SI1(r3, r1, r2, r0, r4);
    BackNext(k, 1, q); r4, r1, r2, r0, r3 := KL(r4, r1, r2, r0, r3, k, 1);
    r4, r1, r2, r0, r3 := SI0(r4, r1, r2, r0, r3); BackNext(k, 0, q);
  }

  method Encrypt(k: Schedule, q: Quad) returns (c: Quad)
    ensures c == Encrypted(k, q)
  {
    hide Substitute, Linear, Mix, Box;
    var r0, r1, r2, r3 := q.a, q.b, q.c, q.d;
    var r4: Word := *;
    r0, r1, r2, r3 := K(r0, r1, r2, r3, k, 0);
    r0, r1, r2, r3, r4 := Forward0(r0, r1, r2, r3, r4, k, q);
    r0, r1, r2, r3, r4 := Forward1(r0, r1, r2, r3, r4, k, q);
    r0, r1, r2, r3, r4 := Forward2(r0, r1, r2, r3, r4, k, q);
    r0, r1, r2, r3, r4 := Forward3(r0, r1, r2, r3, r4, k, q);
    r3, r4, r1, r2, r0 := S7(r3, r4, r1, r2, r0); r0, r1, r2, r3 := K(r0, r1, r2, r3, k, 32);
    c := Quad(r0, r1, r2, r3);
  }

  method Decrypt(k: Schedule, q: Quad) returns (p: Quad)
    ensures p == Decrypted(k, q)
  {
    hide Substitute, Unlinear, Mix, Unbox;
    var r0, r1, r2, r3 := q.a, q.b, q.c, q.d;
    var r4: Word := *;
    r0, r1, r2, r3 := K(r0, r1, r2, r3, k, 32);
    r0, r1, r2, r3, r4 := Backward0(r0, r1, r2, r3, r4, k, q);
    r0, r1, r2, r3, r4 := Backward1(r0, r1, r2, r3, r4, k, q);
    r0, r1, r2, r3, r4 := Backward2(r0, r1, r2, r3, r4, k, q);
    r0, r1, r2, r3, r4 := Backward3(r0, r1, r2, r3, r4, k, q);
    r2, r3, r1, r4 := K(r2, r3, r1, r4, k, 0);
    p := Quad(r2, r3, r1, r4);
  }
}

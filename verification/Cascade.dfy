/** VeraCrypt cascades: one to three XTS stages run in place over one data unit, forward to
    encrypt and backward to decrypt, and the slicing of the volume key into stage keys.
    AES in XTS mode and the Twofish block are supplied as inverse pairs. */
module Cascades {
  import opened Basics
  import opened Machine
  import opened Serpent
  import opened SerpentBlocks
  import Xts

  type Pass = (Block, seq<byte>) -> seq<byte>

  /** On every whole number of blocks, `g` keeps the length and `f` takes back what it did. */
  ghost predicate PassUndoes(f: Pass, g: Pass) {
    forall iv: Block, s: seq<byte> | |s| % 16 == 0 :: |g(iv, s)| == |s| && f(iv, g(iv, s)) == s
  }

  datatype Stage =
    | Aes(encrypt: Pass, decrypt: Pass)
    | SerpentXts(data: Schedule, tweak: Schedule)
    | TwofishXts(forward: Xts.Cipher, backward: Xts.Cipher, tweakForward: Xts.Cipher)
  {
    ghost predicate Valid() {
      match this
      case Aes(e, d) => PassUndoes(d, e) && PassUndoes(e, d)
      case SerpentXts(_, _) => true
      case TwofishXts(f, b, _) => Xts.Undoes(b, f) && Xts.Undoes(f, b)
    }
  }

  // ----- One stage -----

  /** The block cipher and the encrypted tweak of a stage that uses the generic mode. */
  function DataCipher(st: Stage, encrypt: bool): Xts.Cipher
    requires !st.Aes?
  {
    match st
    case SerpentXts(k, _) => if encrypt then b => EncryptBlock(k, b) else b => DecryptBlock(k, b)
    case TwofishXts(f, g, _) => if encrypt then f else g
  }

  function TweakCipher(st: Stage): Xts.Cipher
    requires !st.Aes?
  {
    match st
    case SerpentXts(_, k) => b => EncryptBlock(k, b)
    case TwofishXts(_, _, f) => f
  }

  ghost function Staged(st: Stage, encrypt: bool, t: Block, s: seq<byte>): (r: seq<byte>)
    requires st.Valid() && |s| % 16 == 0
    ensures |r| == |s|
  {
    if st.Aes? then (if encrypt then st.encrypt(t, s) else st.decrypt(t, s))
    else Xts.Crypted(DataCipher(st, encrypt), TweakCipher(st)(t), s)
  }

  lemma DataCiphersInvert(st: Stage, encrypt: bool)
    requires st.Valid() && !st.Aes?
    ensures Xts.Undoes(DataCipher(st, !encrypt), DataCipher(st, encrypt))
  {
    if st.SerpentXts? {
      hide EncryptBlock, DecryptBlock;
      forall b: Block
        ensures DecryptBlock(st.data, EncryptBlock(st.data, b)) == b
        ensures EncryptBlock(st.data, DecryptBlock(st.data, b)) == b
      {
        BlocksInvert(st.data, b);
      }
    }
  }

  lemma StagedInverts(st: Stage, encrypt: bool, t: Block, s: seq<byte>)
    requires st.Valid() && |s| % 16 == 0
    ensures Staged(st, !encrypt, t, Staged(st, encrypt, t, s)) == s
  {
    if !st.Aes? {
      hide DataCipher, TweakCipher, Xts.Undoes;
      DataCiphersInvert(st, encrypt);
      Xts.CryptedInverts(DataCipher(st, encrypt), DataCipher(st, !encrypt), TweakCipher(st)(t), s);
    }
  }

  // ----- All stages -----

  ghost predicate Valid(stages: seq<Stage>) {
    forall i | 0 <= i < |stages| :: stages[i].Valid()
  }

  ghost function Forward(stages: seq<Stage>, t: Block, s: seq<byte>): (r: seq<byte>)
    requires Valid(stages) && |s| % 16 == 0
    ensures |r| == |s|
  {
    if stages == [] then s else Forward(stages[1..], t, Staged(stages[0], true, t, s))
  }

  ghost function Backward(stages: seq<Stage>, t: Block, s: seq<byte>): (r: seq<byte>)
    requires Valid(stages) && |s| % 16 == 0
    ensures |r| == |s|
  {
    if stages == [] then s else Staged(stages[0], false, t, Backward(stages[1..], t, s))
  }

  /** Decrypting a unit restores what was encrypted, whatever the cascade. */
  lemma {:induction false} BackwardForward(stages: seq<Stage>, t: Block, s: seq<byte>)
    requires Valid(stages) && |s| % 16 == 0
    ensures Backward(stages, t, Forward(stages, t, s)) == s
  {
    hide Staged;
    if stages != [] {
      BackwardForward(stages[1..], t, Staged(stages[0], true, t, s));
      StagedInverts(stages[0], true, t, s);
    }
  }

  lemma {:induction false} ForwardBackward(stages: seq<Stage>, t: Block, s: seq<byte>)
    requires Valid(stages) && |s| % 16 == 0
    ensures Forward(stages, t, Backward(stages, t, s)) == s
  {
    hide Staged;
    if stages != [] {
      StagedInverts(stages[0], false, t, Backward(stages[1..], t, s));
      ForwardBackward(stages[1..], t, s);
    }
  }

  // ----- The code, in place on the caller's buffer -----

  lemma PatchedFront<T>(s: seq<T>, t: seq<T>)
    requires |t| <= |s|
    ensures Patched(s, 0, t)[..|t|] == t && Patched(s, 0, t)[|t|..] == s[|t|..]
  {
  }

  method StageCrypt(st: Stage, encrypt: bool, t: Block, buf: array<byte>, length: nat)
    requires st.Valid() && length <= buf.Length && length % 16 == 0
    modifies buf
    ensures buf[..length] == Staged(st, encrypt, t, old(buf[..length]))
    ensures buf[length..] == old(buf[length..])
  {
    hide DataCipher, TweakCipher, Xts.Crypted, PassUndoes, Patched;
    ghost var s, r := buf[..], Staged(st, encrypt, t, buf[..length]);
    if st.Aes? {
      var out := if encrypt then st.encrypt(t, buf[..length]) else st.decrypt(t, buf[..length]);
      assert out == r;
      Put(buf, 0, out);
      PatchedFront(s, out);
    } else {
      Xts.Crypt(DataCipher(st, encrypt), TweakCipher(st), t, buf, length);
    }
  }

  method EncryptUnit(stages: seq<Stage>, unit: nat, buf: array<byte>, length: nat)
    requires Valid(stages) && length <= buf.Length && length % 16 == 0
    modifies buf
    ensures buf[..length] == Forward(stages, Tweak(unit), old(buf[..length]))
    ensures buf[length..] == old(buf[length..])
  {
    hide Staged, Tweak;
    var t := Tweak(unit);
    ghost var s := buf[..length];
    for i := 0 to |stages|
      invariant buf[length..] == old(buf[length..])
      invariant Forward(stages[i..], t, buf[..length]) == Forward(stages, t, s)
    {
      StageCrypt(stages[i], true, t, buf, length);
      assert stages[i..][1..] == stages[i + 1..];
    }
  }

  method DecryptUnit(stages: seq<Stage>, unit: nat, buf: array<byte>, length: nat)
    requires Valid(stages) && length <= buf.Length && length % 16 == 0
    modifies buf
    ensures buf[..length] == Backward(stages, Tweak(unit), old(buf[..length]))
    ensures buf[length..] == old(buf[length..])
  {
    hide Staged, Tweak;
    var t := Tweak(unit);
    ghost var s := buf[..length];
    for i := |stages| downto 0
      invariant buf[length..] == old(buf[length..])
      invariant buf[..length] == Backward(stages[i..], t, s)
    {
      assert stages[i..][1..] == stages[i + 1..];
      StageCrypt(stages[i], false, t, buf, length);
    }
  }

  // ----- Keys -----

  /** The key schedules of the three ciphers. */
  datatype Library = Library(
    aes: seq<byte> -> Option<(Pass, Pass)>,
    serpent: seq<byte> -> Schedule,
    twofish: seq<byte> -> Option<(Xts.Cipher, Xts.Cipher)>
  ) {
    ghost predicate Valid() {
      && (forall k | aes(k).Some? :: var (e, d) := aes(k).value; PassUndoes(d, e) && PassUndoes(e, d))
      && (forall k | twofish(k).Some? :: var (f, b) := twofish(k).value; Xts.Undoes(b, f) && Xts.Undoes(f, b))
    }
  }

  const MAX_CASCADE := 3
  const CIPHER_AES := 0
  const CIPHER_SERPENT := 1
  const CIPHER_TWOFISH := 2

  function StageInit(lib: Library, id: int, primary: seq<byte>, secondary: seq<byte>): Option<Stage> {
    if id == CIPHER_AES then
      match lib.aes(primary + secondary)
      case Some(p) => Some(Aes(p.0, p.1))
      case None => None
    else if id == CIPHER_SERPENT then
      Some(SerpentXts(lib.serpent(primary), lib.serpent(secondary)))
    else if id == CIPHER_TWOFISH then
      match (lib.twofish(primary), lib.twofish(secondary))
      case (Some(p), Some(q)) => Some(TwofishXts(p.0, p.1, q.0))
      case _ => None
    else
      None
  }

  function Slice(key: seq<byte>, i: nat): seq<byte>
    requires 32 * i + 32 <= |key|
  {
    key[32 * i..32 * i + 32]
  }

  /** Stage `i` of `n` gets primary key `i` and secondary key `n + i`. */
  function KeyedStage(lib: Library, ids: seq<int>, n: nat, key: seq<byte>, i: nat): Option<Stage>
    requires i < n <= |ids| && 64 * n <= |key|
  {
    StageInit(lib, ids[i], Slice(key, i), Slice(key, n + i))
  }

  function Joined(key: seq<byte>, m: nat): seq<byte>
    requires 32 * m <= |key|
  {
    if m == 0 then [] else Joined(key, m - 1) + Slice(key, m - 1)
  }

  /** The slices of a cascade are the key, in order and without overlap. */
  lemma {:induction false} SlicesCover(key: seq<byte>, m: nat)
    requires 32 * m <= |key|
    ensures Joined(key, m) == key[..32 * m]
  {
    if m > 0 {
      SlicesCover(key, m - 1);
    }
  }

  method NewCascade(lib: Library, ids: seq<int>, n: int, key: seq<byte>) returns (c: Option<seq<Stage>>)
    requires lib.Valid() && n <= |ids|
    ensures c.Some? <==> 1 <= n <= MAX_CASCADE && 64 * n <= |key| &&
                         forall i | 0 <= i < n :: KeyedStage(lib, ids, n, key, i).Some?
    ensures c.Some? ==> |c.value| == n && Valid(c.value) &&
                        forall i | 0 <= i < n :: KeyedStage(lib, ids, n, key, i) == Some(c.value[i])
  {
    if n < 1 || n > MAX_CASCADE || |key| < 64 * n {
      return None;
    }
    var stages := [];
    for i := 0 to n
      invariant |stages| == i
      invariant forall k | 0 <= k < i :: KeyedStage(lib, ids, n, key, k) == Some(stages[k])
    {
      var st := StageInit(lib, ids[i], key[32 * i..32 * i + 32], key[32 * (n + i)..32 * (n + i) + 32]);
      assert st == KeyedStage(lib, ids, n, key, i);
      if st.None? {
        return None;
      }
      stages := stages + [st.value];
    }
    return Some(stages);
  }
}

/** Serpent on sixteen-byte blocks: the words are read and written little-endian. */
module SerpentBlocks {
  import opened Basics
  import opened BitWords
  import opened Machine
  import opened Serpent

  function WordAt(b: Block, i: nat): Word
    requires i < 4
  {
    OfByte(b[4 * i]) + OfByte(b[4 * i + 1]) + OfByte(b[4 * i + 2]) + OfByte(b[4 * i + 3])
  }

  function ToQuad(b: Block): Quad {
    Quad(WordAt(b, 0), WordAt(b, 1), WordAt(b, 2), WordAt(b, 3))
  }

  function WordBytes(w: Word): (s: seq<byte>)
    ensures |s| == 4
  {
    [FromBits(w[..8]), FromBits(w[8..16]), FromBits(w[16..24]), FromBits(w[24..])]
  }

  function ToBlock(q: Quad): Block {
    WordBytes(q.a) + WordBytes(q.b) + WordBytes(q.c) + WordBytes(q.d)
  }

  lemma WordRoundTrip(b: Block, i: nat)
    requires i < 4
    ensures WordBytes(WordAt(b, i)) == b[4 * i..4 * i + 4]
  {
    hide OfByte, FromBits;
    var w := WordAt(b, i);
    assert w[..8] == OfByte(b[4 * i]) && w[8..16] == OfByte(b[4 * i + 1]);
    assert w[16..24] == OfByte(b[4 * i + 2]) && w[24..] == OfByte(b[4 * i + 3]);
    forall j | 0 <= j < 4
      ensures WordBytes(w)[j] == b[4 * i + j]
    {
      ByteRoundTrip(b[4 * i + j], []);
    }
  }

  lemma BytesRoundTrip(w: Word)
    ensures var s := WordBytes(w); OfByte(s[0]) + OfByte(s[1]) + OfByte(s[2]) + OfByte(s[3]) == w
  {
    hide OfByte, FromBits;
    ByteRoundTrip(0, w[..8]);
    ByteRoundTrip(0, w[8..16]);
    ByteRoundTrip(0, w[16..24]);
    ByteRoundTrip(0, w[24..]);
  }

  lemma BlockRoundTrip(b: Block, q: Quad)
    ensures ToBlock(ToQuad(b)) == b && ToQuad(ToBlock(q)) == q
  {
    hide WordAt, WordBytes;
    WordRoundTrip(b, 0);
    WordRoundTrip(b, 1);
    WordRoundTrip(b, 2);
    WordRoundTrip(b, 3);
    WordOfBlock(q, 0, q.a);
    WordOfBlock(q, 1, q.b);
    WordOfBlock(q, 2, q.c);
    WordOfBlock(q, 3, q.d);
  }

  lemma WordOfBlock(q: Quad, i: nat, w: Word)
    requires i < 4 && w == [q.a, q.b, q.c, q.d][i]
    ensures WordAt(ToBlock(q), i) == w
  {
    hide OfByte, WordBytes;
    BytesRoundTrip(w);
    assert ToBlock(q)[4 * i..4 * i + 4] == WordBytes(w);
  }

  function EncryptBlock(k: Schedule, b: Block): Block {
    ToBlock(Encrypted(k, ToQuad(b)))
  }

  function DecryptBlock(k: Schedule, b: Block): Block {
    ToBlock(Decrypted(k, ToQuad(b)))
  }

  lemma BlocksInvert(k: Schedule, b: Block)
    ensures DecryptBlock(k, EncryptBlock(k, b)) == b && EncryptBlock(k, DecryptBlock(k, b)) == b
  {
    hide Encrypted, Decrypted, ToBlock, ToQuad;
    var q := ToQuad(b);
    BlockRoundTrip(b, Encrypted(k, q));
    BlockRoundTrip(b, Decrypted(k, q));
    DecryptedEncrypted(k, q);
    EncryptedDecrypted(k, q);
  }

  method CryptBlock(k: Schedule, encrypt: bool, src: Block) returns (dst: Block)
    ensures dst == if encrypt then EncryptBlock(k, src) else DecryptBlock(k, src)
    ensures src == if encrypt then DecryptBlock(k, dst) else EncryptBlock(k, dst)
  {
    hide Encrypted, Decrypted, ToBlock, ToQuad;
    BlocksInvert(k, src);
    if encrypt {
      var q := Encrypt(k, ToQuad(src));
      dst := ToBlock(q);
    } else {
      var q := Decrypt(k, ToQuad(src));
      dst := ToBlock(q);
    }
  }
}

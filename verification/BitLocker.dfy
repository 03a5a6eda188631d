/** BitLocker sector encryption in place: the Elephant sector transform and the sector loop
    for the three modes. The AES modes are inverse pairs supplied by the context. */
module BitLocker {
  import opened Arithmetic
  import opened Basics
  import opened Diffusers
  import opened Machine

  datatype Mode = CBC | CBCElephant | XTS

  /** A pass of an AES mode over one sector, from a 16-byte IV or tweak. */
  type Pass = (Block, seq<byte>) -> seq<byte>

  /** The volume's key schedules, as the functions they compute. */
  datatype Context = Context(
    mode: Mode,
    size: nat,
    ecb: Block -> Block,
    elephant: Block -> Block,
    cbcEncrypt: Pass,
    cbcDecrypt: Pass,
    xtsEncrypt: Pass,
    xtsDecrypt: Pass
  ) {
    ghost predicate Valid() {
      && size in {512, 1024, 2048, 4096}
      && Undoes(cbcDecrypt, cbcEncrypt, size) && Undoes(cbcEncrypt, cbcDecrypt, size)
      && Undoes(xtsDecrypt, xtsEncrypt, size) && Undoes(xtsEncrypt, xtsDecrypt, size)
    }
  }

  /** On `size` bytes, `g` keeps the length and `f` takes back what `g` did. */
  ghost predicate Undoes(f: Pass, g: Pass, size: nat) {
    forall iv: Block, s: seq<byte> | |s| == size :: |g(iv, s)| == size && f(iv, g(iv, s)) == s
  }

  // ----- The Elephant transform -----

  const TWO64: nat := 0x1_0000_0000_0000_0000

  function SectorKey(c: Context, offset: nat): (ks: seq<byte>)
    ensures |ks| == 32
  {
    c.elephant(Tweak(offset)) + c.elephant(Tweak(offset)[15 := 0x80])
  }

  function Words(s: seq<byte>): (w: seq<uint32>)
    requires |s| % 4 == 0
    ensures |w| == |s| / 4
  {
    seq(|s| / 4, i requires 0 <= i < |s| / 4 => Load(s[4 * i..4 * i + 4]))
  }

  function Bytes(w: seq<uint32>): (s: seq<byte>)
    ensures |s| == 4 * |w|
  {
    seq(4 * |w|, j requires 0 <= j < 4 * |w| => Store(w[j / 4])[j % 4])
  }

  function Masked(s: seq<byte>, ks: seq<byte>): (t: seq<byte>)
    requires |ks| == 32
    ensures |t| == |s|
  {
    seq(|s|, i requires 0 <= i < |s| => XorByte(s[i], ks[i % 32]))
  }

  /** Un-diffused, then masked: what reading a sector does. */
  function Unscrambled(s: seq<byte>, ks: seq<byte>): (t: seq<byte>)
    requires |ks| == 32 && |s| % 4 == 0 && Fit(|s| / 4)
    ensures |t| == |s|
  {
    Masked(Bytes(Passes(A, Passes(B, Words(s), 3), 5)), ks)
  }

  /** Masked, then diffused: what writing a sector does. */
  function Scrambled(s: seq<byte>, ks: seq<byte>): (t: seq<byte>)
    requires |ks| == 32 && |s| % 4 == 0 && Fit(|s| / 4)
    ensures |t| == |s|
  {
    Bytes(Unpasses(B, Unpasses(A, Words(Masked(s, ks)), 5), 3))
  }

  lemma WordsOfBytes(w: seq<uint32>)
    ensures Words(Bytes(w)) == w
  {
    hide Load, Store;
    var s := Bytes(w);
    forall i | 0 <= i < |w|
      ensures Words(s)[i] == w[i]
    {
      assert s[4 * i..4 * i + 4] == Store(w[i]);
      LoadStore(w[i]);
    }
  }

  lemma BytesOfWords(s: seq<byte>)
    requires |s| % 4 == 0
    ensures Bytes(Words(s)) == s
  {
    hide Load, Store;
    var w := Words(s);
    forall j | 0 <= j < |s|
      ensures Bytes(w)[j] == s[j]
    {
      StoreLoad(s[4 * (j / 4)..4 * (j / 4) + 4]);
      assert j == 4 * (j / 4) + j % 4;
    }
  }

  lemma MaskedTwice(s: seq<byte>, ks: seq<byte>)
    requires |ks| == 32
    ensures Masked(Masked(s, ks), ks) == s
  {
    hide XorByte;
    forall i | 0 <= i < |s|
      ensures Masked(Masked(s, ks), ks)[i] == s[i]
    {
      XorByteTwice(s[i], ks[i % 32]);
    }
  }

  lemma UnscrambledScrambled(s: seq<byte>, ks: seq<byte>)
    requires |ks| == 32 && |s| % 4 == 0 && Fit(|s| / 4)
    ensures Unscrambled(Scrambled(s, ks), ks) == s
  {
    hide Fit, Passes, Unpasses, Words, Bytes, Masked;
    var w := Words(Masked(s, ks));
    var a := Unpasses(A, w, 5);
    WordsOfBytes(Unpasses(B, a, 3));
    PassesInvert(B, a, 3);
    PassesInvert(A, w, 5);
    BytesOfWords(Masked(s, ks));
    MaskedTwice(s, ks);
  }

  lemma ScrambledUnscrambled(s: seq<byte>, ks: seq<byte>)
    requires |ks| == 32 && |s| % 4 == 0 && Fit(|s| / 4)
    ensures Scrambled(Unscrambled(s, ks), ks) == s
  {
    hide Fit, Passes, Unpasses, Words, Bytes, Masked;
    var b := Passes(B, Words(s), 3);
    var a := Passes(A, b, 5);
    MaskedTwice(Bytes(a), ks);
    WordsOfBytes(a);
    UnpassesInvert(A, b, 5);
    UnpassesInvert(B, Words(s), 3);
    BytesOfWords(s);
  }

  // ----- One sector, and a run of sectors -----

  function Sector(c: Context, encrypt: bool, sector: nat, s: seq<byte>): seq<byte>
    requires |s| == c.size && c.size % 4 == 0 && Fit(c.size / 4)
  {
    var offset := sector * c.size % TWO64;
    var iv := c.ecb(Tweak(offset));
    match c.mode
    case XTS => if encrypt then c.xtsEncrypt(Tweak(sector), s) else c.xtsDecrypt(Tweak(sector), s)
    case CBC => if encrypt then c.cbcEncrypt(iv, s) else c.cbcDecrypt(iv, s)
    case CBCElephant =>
      if encrypt then c.cbcEncrypt(iv, Scrambled(s, SectorKey(c, offset)))
      else
        var t := c.cbcDecrypt(iv, s);
        if |t| == c.size then Unscrambled(t, SectorKey(c, offset)) else t
  }

  lemma SectorInverts(c: Context, encrypt: bool, sector: nat, s: seq<byte>)
    requires c.Valid() && |s| == c.size
    ensures |Sector(c, encrypt, sector, s)| == c.size
    ensures Sector(c, !encrypt, sector, Sector(c, encrypt, sector, s)) == s
  {
    hide Scrambled, Unscrambled, SectorKey, Tweak;
    var ks := SectorKey(c, sector * c.size % TWO64);
    var iv := c.ecb(Tweak(sector * c.size % TWO64));
    if c.mode == CBCElephant {
      if encrypt {
        UnscrambledScrambled(s, ks);
      } else {
        ScrambledUnscrambled(c.cbcDecrypt(iv, s), ks);
      }
    }
  }

  ghost predicate Whole(c: Context, s: seq<byte>) {
    c.Valid() && |s| % c.size == 0
  }

  lemma RestWhole(c: Context, s: seq<byte>)
    requires Whole(c, s) && s != []
    ensures 0 < c.size <= |s| && Whole(c, s[c.size..]) && |s| / c.size == |s[c.size..]| / c.size + 1
  {
    AddModulus(|s| - c.size, c.size);
  }

  lemma SumWhole(c: Context, s: seq<byte>, t: seq<byte>)
    requires Whole(c, s) && Whole(c, t)
    ensures Whole(c, s + t) && c.size > 0
    decreases |s|
  {
    hide Undoes;
    if s != [] {
      RestWhole(c, s);
      SumWhole(c, s[c.size..], t);
      AddModulus(|s + t| - c.size, c.size);
    }
  }

  /** Whole sectors in turn, numbered from `first` modulo 2^64. */
  ghost function Run(c: Context, encrypt: bool, first: nat, s: seq<byte>): (t: seq<byte>)
    requires Whole(c, s)
    ensures |t| == |s|
    decreases |s|
  {
    if s == [] then [] else
      RestWhole(c, s);
      SectorInverts(c, encrypt, first % TWO64, s[..c.size]);
      Sector(c, encrypt, first % TWO64, s[..c.size]) + Run(c, encrypt, first + 1, s[c.size..])
  }

  lemma RunFirst(c: Context, encrypt: bool, first: nat, s: seq<byte>)
    requires Whole(c, s) && s != []
    ensures 0 < c.size <= |s| && Whole(c, s[c.size..]) && c.size % 4 == 0 && Fit(c.size / 4)
    ensures Run(c, encrypt, first, s) ==
            Sector(c, encrypt, first % TWO64, s[..c.size]) + Run(c, encrypt, first + 1, s[c.size..])
    ensures Run(c, encrypt, first, s)[..c.size] == Sector(c, encrypt, first % TWO64, s[..c.size])
    ensures Run(c, encrypt, first, s)[c.size..] == Run(c, encrypt, first + 1, s[c.size..])
  {
    RestWhole(c, s);
    hide Sector;
    SectorInverts(c, encrypt, first % TWO64, s[..c.size]);
    CutSecond(Sector(c, encrypt, first % TWO64, s[..c.size]), Run(c, encrypt, first + 1, s[c.size..]), 0);
  }

  lemma RunWhole(c: Context, encrypt: bool, first: nat, s: seq<byte>)
    requires Whole(c, s)
    ensures Whole(c, Run(c, encrypt, first, s))
  {
  }

  /** Crypting the other way round restores every byte, in every mode. */
  lemma {:induction false} RunInverts(c: Context, encrypt: bool, first: nat, s: seq<byte>)
    requires Whole(c, s)
    ensures Whole(c, Run(c, encrypt, first, s))
    ensures Run(c, !encrypt, first, Run(c, encrypt, first, s)) == s
    decreases |s|
  {
    hide Sector, Run, Undoes, Fit;
    RunWhole(c, encrypt, first, s);
    if s != [] {
      RunFirst(c, encrypt, first, s);
      SectorInverts(c, encrypt, first % TWO64, s[..c.size]);
      RunInverts(c, encrypt, first + 1, s[c.size..]);
      var t := Run(c, encrypt, first, s);
      RunFirst(c, !encrypt, first, t);
      var u := Run(c, !encrypt, first, t);
      assert u == u[..c.size] + u[c.size..];
    }
  }

  /** A run is its parts, split at any sector boundary. */
  lemma {:induction false} RunSplits(c: Context, encrypt: bool, first: nat, s: seq<byte>, t: seq<byte>)
    requires Whole(c, s) && Whole(c, t)
    ensures Whole(c, s + t) && c.size > 0
    ensures Run(c, encrypt, first, s + t) == Run(c, encrypt, first, s) + Run(c, encrypt, first + |s| / c.size, t)
    decreases |s|
  {
    hide Sector, Run, Undoes, Fit, Whole;
    SumWhole(c, s, t);
    if s == [] {
      assert s + t == t;
    } else {
      RestWhole(c, s);
      CutFirst(s, t, c.size);
      RunFirst(c, encrypt, first, s);
      RunFirst(c, encrypt, first, s + t);
      RunSplits(c, encrypt, first + 1, s[c.size..], t);
      ConcatAssociates(Sector(c, encrypt, first % TWO64, s[..c.size]), Run(c, encrypt, first + 1, s[c.size..]),
                       Run(c, encrypt, first + |s| / c.size, t));
    }
  }

  // ----- The code, in place on the caller's buffer -----

  method ReadWords(buf: array<byte>, base: nat, n: nat) returns (w: array<uint32>)
    requires base + 4 * n <= buf.Length
    ensures fresh(w) && w.Length == n && w[..] == Words(buf[base..base + 4 * n])
  {
    hide Load;
    w := new uint32[n];
    ghost var all := buf[..];
    ghost var s := all[base..base + 4 * n];
    for i := 0 to n
      invariant forall k | 0 <= k < i :: w[k] == Words(s)[k]
    {
      SliceOfSlice(all, base, base + 4 * n, 4 * i, 4 * i + 4);
      w[i] := Load(buf[base + 4 * i..base + 4 * i + 4]);
    }
  }

  method WriteWords(buf: array<byte>, base: nat, w: array<uint32>)
    requires base + 4 * w.Length <= buf.Length
    modifies buf
    ensures buf[..] == Patched(old(buf[..]), base, Bytes(w[..]))
  {
    hide Store, Patched;
    ghost var was := buf[..];
    PatchedEnds(was, base, []);
    for i := 0 to w.Length
      invariant buf[..] == Patched(was, base, Bytes(w[..i]))
    {
      PatchedOn(was, base, Bytes(w[..i]), Store(w[i]));
      Put(buf, base + 4 * i, Store(w[i]));
      assert Bytes(w[..i + 1]) == Bytes(w[..i]) + Store(w[i]);
    }
    assert w[..w.Length] == w[..];
  }

  lemma MaskedAt(s: seq<byte>, ks: seq<byte>, i: nat)
    requires i < |s| && |ks| == 32
    ensures Masked(s, ks)[i] == XorByte(s[i], ks[i % 32])
  {
  }

  method Mask(buf: array<byte>, base: nat, size: nat, ks: seq<byte>)
    requires base + size <= buf.Length && |ks| == 32
    modifies buf
    ensures buf[..] == Patched(old(buf[..]), base, Masked(old(buf[base..base + size]), ks))
  {
    hide *;
    ghost var was, s := buf[..], buf[base..base + size];
    ghost var t := Masked(s, ks);
    PatchedEnds(was, base, t);
    for i := 0 to size
      invariant buf[..] == Patched(was, base, t[..i])
      invariant forall k | i <= k < size :: buf[base + k] == s[k]
    {
      PatchedGrows(was, base, t, i);
      MaskedAt(s, ks, i);
      buf[base + i] := XorByte(buf[base + i], ks[i % 32]);
    }
  }

  method Elephant(c: Context, offset: nat, buf: array<byte>, base: nat, encrypt: bool)
    requires c.Valid() && base + c.size <= buf.Length
    modifies buf
    ensures buf[..] == Patched(old(buf[..]), base,
              var s, ks := old(buf[base..base + c.size]), SectorKey(c, offset);
              if encrypt then Scrambled(s, ks) else Unscrambled(s, ks))
  {
    hide Words, Bytes, Masked, Passes, Unpasses, Patched, SectorKey, Undoes;
    ghost var was, s := buf[..], buf[base..base + c.size];
    var ks := SectorKey(c, offset);
    var n := c.size / 4;
    if !encrypt {
      var w := ReadWords(buf, base, n);
      BDecrypt(w);
      ADecrypt(w);
      WriteWords(buf, base, w);
      PatchedTwice(was, base, Bytes(w[..]), s);
      PatchedTwice(was, base, Bytes(w[..]), Unscrambled(s, ks));
    }
    Mask(buf, base, c.size, ks);
    if encrypt {
      PatchedTwice(was, base, Masked(s, ks), Scrambled(s, ks));
      var w := ReadWords(buf, base, n);
      AEncrypt(w);
      BEncrypt(w);
      WriteWords(buf, base, w);
    }
  }

  method CryptSector(c: Context, encrypt: bool, sector: nat, buf: array<byte>, base: nat)
    requires c.Valid() && base + c.size <= buf.Length
    modifies buf
    ensures |Sector(c, encrypt, sector, old(buf[base..base + c.size]))| == c.size
    ensures buf[..] == Patched(old(buf[..]), base, Sector(c, encrypt, sector, old(buf[base..base + c.size])))
  {
    hide Patched, Scrambled, Unscrambled, SectorKey, Tweak;
    ghost var was, s := buf[..], buf[base..base + c.size];
    SectorInverts(c, encrypt, sector, s);
    if c.mode == XTS {
      var out := if encrypt then c.xtsEncrypt(Tweak(sector), buf[base..base + c.size])
                 else c.xtsDecrypt(Tweak(sector), buf[base..base + c.size]);
      Put(buf, base, out);
    } else {
      var offset := sector * c.size % TWO64;
      var iv := c.ecb(Tweak(offset));
      if encrypt && c.mode == CBCElephant {
        Elephant(c, offset, buf, base, true);
        PatchedTwice(was, base, Scrambled(s, SectorKey(c, offset)), Sector(c, encrypt, sector, s));
      }
      var out := if encrypt then c.cbcEncrypt(iv, buf[base..base + c.size])
                 else c.cbcDecrypt(iv, buf[base..base + c.size]);
      Put(buf, base, out);
      if !encrypt && c.mode == CBCElephant {
        PatchedTwice(was, base, out, Sector(c, encrypt, sector, s));
        Elephant(c, offset, buf, base, false);
      }
    }
  }

  /** One more sector at the end of a run. */
  lemma RunNext(c: Context, encrypt: bool, first: nat, s: seq<byte>, t: seq<byte>)
    requires Whole(c, s) && |t| == c.size
    ensures c.size > 0 && c.size % 4 == 0 && Fit(c.size / 4) && Whole(c, s + t)
    ensures Run(c, encrypt, first, s + t) ==
            Run(c, encrypt, first, s) + Sector(c, encrypt, (first + |s| / c.size) % TWO64, t)
  {
    hide Run, Sector, Undoes;
    assert Whole(c, t);
    RunSplits(c, encrypt, first, s, t);
    RunFirst(c, encrypt, first + |s| / c.size, t);
    var u := Run(c, encrypt, first + |s| / c.size, t);
    assert u == u[..c.size] && t == t[..c.size];
  }

  lemma Multiple(k: nat, size: nat)
    requires size > 0
    ensures k * size % size == 0 && k * size / size == k
  {
    QuotientUnique(size, k * size / size, k, k * size % size, 0);
  }

  /** The buffer when the first `k` sectors of `s` are done. */
  ghost function Through(c: Context, encrypt: bool, first: nat, s: seq<byte>, k: nat): (t: seq<byte>)
    requires c.Valid() && k * c.size <= |s|
    ensures |t| == |s|
  {
    Multiple(k, c.size);
    Run(c, encrypt, first, s[..k * c.size]) + s[k * c.size..]
  }

  lemma ThroughEnds(c: Context, encrypt: bool, first: nat, s: seq<byte>, count: nat)
    requires c.Valid() && count * c.size == |s|
    ensures Through(c, encrypt, first, s, 0) == s
    ensures Whole(c, s) && Through(c, encrypt, first, s, count) == Run(c, encrypt, first, s)
  {
    Multiple(count, c.size);
    assert s[..0 * c.size] == [] && s[0 * c.size..] == s;
    assert s[..count * c.size] == s;
  }

  lemma ThroughNext(c: Context, encrypt: bool, first: nat, s: seq<byte>, k: nat)
    requires c.Valid() && k * c.size <= (k + 1) * c.size <= |s|
    ensures k * c.size + c.size == (k + 1) * c.size
    ensures var now := s[k * c.size..(k + 1) * c.size];
            && Through(c, encrypt, first, s, k)[k * c.size..(k + 1) * c.size] == now
            && |Sector(c, encrypt, (first + k) % TWO64, now)| == c.size
            && Patched(Through(c, encrypt, first, s, k), k * c.size, Sector(c, encrypt, (first + k) % TWO64, now))
               == Through(c, encrypt, first, s, k + 1)
  {
    hide Run, Sector, Undoes;
    var a, b := k * c.size, (k + 1) * c.size;
    assert a + c.size == b;
    Multiple(k, c.size);
    SectorInverts(c, encrypt, (first + k) % TWO64, s[a..b]);
    RunNext(c, encrypt, first, s[..a], s[a..b]);
    CutTwice(s, a, b);
    ReplaceNext(Run(c, encrypt, first, s[..a]), s, b, Sector(c, encrypt, (first + k) % TWO64, s[a..b]));
  }

  /** The part of `s` after `done`, up to `b`, is read and replaced by `next`. */
  lemma ReplaceNext(done: seq<byte>, s: seq<byte>, b: nat, next: seq<byte>)
    requires |done| + |next| == b <= |s|
    ensures (done + s[|done|..])[|done|..b] == s[|done|..b]
    ensures Patched(done + s[|done|..], |done|, next) == done + next + s[b..]
  {
    CutTwice(s, |done|, b);
    CutSecond(done, s[|done|..], |next|);
  }

  method CryptSectors(c: Context, encrypt: bool, first: nat, buf: array<byte>) returns (rc: int)
    requires c.Valid() && first < TWO64
    modifies buf
    ensures !Whole(c, old(buf[..])) ==> rc == -1 && buf[..] == old(buf[..])
    ensures Whole(c, old(buf[..])) ==> rc == 0 && buf[..] == Run(c, encrypt, first, old(buf[..]))
  {
    if buf.Length % c.size != 0 {
      return -1;
    }
    ghost var was := buf[..];
    var count := buf.Length / c.size;
    assert count * c.size == buf.Length;
    hide Run, Sector, Undoes, Through, Patched;
    ThroughEnds(c, encrypt, first, was, count);
    for s := 0 to count
      invariant s * c.size <= buf.Length
      invariant buf[..] == Through(c, encrypt, first, was, s)
    {
      MulMonotone(s, s + 1, c.size);
      MulMonotone(s + 1, count, c.size);
      ThroughNext(c, encrypt, first, was, s);
      var sector := (first + s) % TWO64;
      CryptSector(c, encrypt, sector, buf, s * c.size);
    }
    return 0;
  }
}

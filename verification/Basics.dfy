/** Types shared by the whole model. */
module Basics {

  newtype byte = x: int | 0 <= x < 0x100

  newtype uint32 = x: int | 0 <= x < 0x1_0000_0000

  datatype Option<T> = None | Some(value: T)

  // ----- Sequences -----

  lemma ConcatAssociates<T>(a: seq<T>, b: seq<T>, c: seq<T>)
    ensures (a + b) + c == a + (b + c)
  {
  }

  /** Cutting a concatenation inside its first part. */
  lemma CutFirst<T>(a: seq<T>, b: seq<T>, k: nat)
    requires k <= |a|
    ensures (a + b)[..k] == a[..k] && (a + b)[k..] == a[k..] + b
  {
  }

  /** A slice that starts where the second part does. */
  lemma CutSecond<T>(a: seq<T>, b: seq<T>, k: nat)
    requires k <= |b|
    ensures (a + b)[..|a|] == a && (a + b)[|a|..|a| + k] == b[..k] && (a + b)[|a| + k..] == b[k..]
  {
  }

  lemma CutTwice<T>(s: seq<T>, a: nat, b: nat)
    requires a <= b <= |s|
    ensures s[..a] + s[a..b] == s[..b] && s[a..][..b - a] == s[a..b] && s[a..][b - a..] == s[b..]
  {
  }

  lemma SliceOfSlice<T>(s: seq<T>, lo: nat, hi: nat, x: nat, y: nat)
    requires lo <= hi <= |s| && x <= y && lo + y <= hi
    ensures s[lo..hi][x..y] == s[lo + x..lo + y]
  {
    var t := s[lo..hi];
    forall k | 0 <= k < y - x
      ensures t[x..y][k] == s[lo + x..lo + y][k]
    {
      assert t[x + k] == s[lo + x + k];
    }
  }

  /** `s` with the elements from `base` replaced by `t`. */
  function Patched<T>(s: seq<T>, base: nat, t: seq<T>): (r: seq<T>)
    requires base + |t| <= |s|
    ensures |r| == |s|
  {
    s[..base] + t + s[base + |t|..]
  }

  lemma PatchedTwice<T>(s: seq<T>, base: nat, t: seq<T>, u: seq<T>)
    requires base + |t| <= |s| && |t| == |u|
    ensures Patched(Patched(s, base, t), base, u) == Patched(s, base, u)
    ensures Patched(s, base, t)[base..base + |t|] == t
  {
  }

  lemma PatchedGrows<T>(s: seq<T>, base: nat, t: seq<T>, i: nat)
    requires base + |t| <= |s| && i < |t|
    ensures Patched(s, base, t[..i])[base + i := t[i]] == Patched(s, base, t[..i + 1])
  {
  }

  lemma PatchedEnds<T>(s: seq<T>, base: nat, t: seq<T>)
    requires base + |t| <= |s|
    ensures Patched(s, base, t[..0]) == s && t[..|t|] == t
  {
  }

  lemma PatchedOn<T>(s: seq<T>, base: nat, t: seq<T>, u: seq<T>)
    requires base + |t| + |u| <= |s|
    ensures Patched(Patched(s, base, t), base + |t|, u) == Patched(s, base, t + u)
  {
    var a, b := Patched(Patched(s, base, t), base + |t|, u), Patched(s, base, t + u);
    forall k | 0 <= k < |s|
      ensures a[k] == b[k]
    {
      PatchedAt(s, base, t, k);
      PatchedAt(s, base, t + u, k);
      PatchedAt(Patched(s, base, t), base + |t|, u, k);
    }
  }

  lemma PatchedAt<T>(s: seq<T>, base: nat, t: seq<T>, k: nat)
    requires base + |t| <= |s| && k < |s|
    ensures Patched(s, base, t)[k] == if base <= k < base + |t| then t[k - base] else s[k]
  {
  }
}

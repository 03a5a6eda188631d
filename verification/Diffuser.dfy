/** The two Elephant diffusers on 32-bit words: the loops with three moving indices, the
    pass they make over the words, and the proof that each direction undoes the other. */
module Diffusers {
  import opened Basics

  import opened Machine

  datatype Diffuser = A | B

  /** A word count the loops can run on. */
  predicate Fit(n: int) {
    n >= 8 && n % 4 == 0
  }

  // ----- One pass: every word in turn takes a mix of two others, cyclically -----

  /** The word two before (A) or two after (B). */
  function Near(f: Diffuser, n: nat, i: nat): (j: nat)
    requires Fit(n) && i < n
    ensures j < n && j != i
  {
    match f
    case A => if i < 2 then i - 2 + n else i - 2
    case B => if i + 2 >= n then i + 2 - n else i + 2
  }

  /** The word five before (A) or five after (B). */
  function Far(f: Diffuser, n: nat, i: nat): (j: nat)
    requires Fit(n) && i < n
    ensures j < n && j != i
  {
    match f
    case A => if i < 5 then i - 5 + n else i - 5
    case B => if i + 5 >= n then i + 5 - n else i + 5
  }

  /** How far the far word is rotated; every second position not at all. */
  function Rotation(f: Diffuser, i: nat): (k: nat)
    ensures k < 32
  {
    match f
    case A => if i % 4 == 0 then 9 else if i % 4 == 2 then 13 else 0
    case B => if i % 4 == 1 then 10 else if i % 4 == 3 then 25 else 0
  }

  function Turned(x: uint32, k: nat): uint32
    requires k < 32
  {
    if k == 0 then x else Rol(x, k)
  }

  function Term(f: Diffuser, d: seq<uint32>, i: nat): uint32
    requires Fit(|d|) && i < |d|
  {
    Xor(d[Near(f, |d|, i)], Turned(d[Far(f, |d|, i)], Rotation(f, i)))
  }

  function Step(f: Diffuser, d: seq<uint32>, i: nat): (e: seq<uint32>)
    requires Fit(|d|) && i < |d|
    ensures |e| == |d|
  {
    d[i := Add(d[i], Term(f, d, i))]
  }

  function Unstep(f: Diffuser, d: seq<uint32>, i: nat): (e: seq<uint32>)
    requires Fit(|d|) && i < |d|
    ensures |e| == |d|
  {
    d[i := Subtract(d[i], Term(f, d, i))]
  }

  /** The first `i` steps, in rising order. */
  function Pass(f: Diffuser, d: seq<uint32>, i: nat): (e: seq<uint32>)
    requires Fit(|d|) && i <= |d|
    ensures |e| == |d|
  {
    if i == 0 then d else Step(f, Pass(f, d, i - 1), i - 1)
  }

  /** The steps from the last down to `i`, undone in falling order. */
  function Unpass(f: Diffuser, d: seq<uint32>, i: nat): (e: seq<uint32>)
    requires Fit(|d|) && i <= |d|
    ensures |e| == |d|
    decreases |d| - i
  {
    if i == |d| then d else Unstep(f, Unpass(f, d, i + 1), i)
  }

  function Passes(f: Diffuser, d: seq<uint32>, r: nat): (e: seq<uint32>)
    requires Fit(|d|)
    ensures |e| == |d|
  {
    if r == 0 then d else var p := Passes(f, d, r - 1); Pass(f, p, |p|)
  }

  function Unpasses(f: Diffuser, d: seq<uint32>, r: nat): (e: seq<uint32>)
    requires Fit(|d|)
    ensures |e| == |d|
  {
    if r == 0 then d else Unpass(f, Unpasses(f, d, r - 1), 0)
  }

  lemma StepsInvert(f: Diffuser, d: seq<uint32>, i: nat)
    requires Fit(|d|) && i < |d|
    ensures Unstep(f, Step(f, d, i), i) == d && Step(f, Unstep(f, d, i), i) == d
  {
    hide Add, Subtract, Xor, Turned, Rotation;
    AddSubtract(d[i], Term(f, d, i));
    assert Term(f, Step(f, d, i), i) == Term(f, d, i) == Term(f, Unstep(f, d, i), i);
  }

  /** Undoing the steps of a full pass from the last down meets every state of the pass. */
  lemma {:induction false} UnpassRetraces(f: Diffuser, d: seq<uint32>, i: nat)
    requires Fit(|d|) && i <= |d|
    ensures Unpass(f, Pass(f, d, |d|), i) == Pass(f, d, i)
    decreases |d| - i
  {
    hide Fit, Step, Unstep;
    if i < |d| {
      UnpassRetraces(f, d, i + 1);
      StepsInvert(f, Pass(f, d, i), i);
    }
  }

  lemma {:induction false} PassRetraces(f: Diffuser, d: seq<uint32>, i: nat)
    requires Fit(|d|) && i <= |d|
    ensures Pass(f, Unpass(f, d, 0), i) == Unpass(f, d, i)
  {
    hide Fit, Step, Unstep;
    if i > 0 {
      PassRetraces(f, d, i - 1);
      StepsInvert(f, Unpass(f, d, i), i - 1);
    }
  }

  lemma PassNone(f: Diffuser, d: seq<uint32>)
    requires Fit(|d|)
    ensures Pass(f, d, 0) == d
  {
  }

  lemma UnpassNone(f: Diffuser, d: seq<uint32>)
    requires Fit(|d|)
    ensures Unpass(f, d, |d|) == d
  {
  }

  lemma {:induction false} UnpassesFirst(f: Diffuser, d: seq<uint32>, r: nat)
    requires Fit(|d|)
    ensures Unpasses(f, d, r + 1) == Unpasses(f, Unpass(f, d, 0), r)
  {
    if r > 0 {
      UnpassesFirst(f, d, r - 1);
    }
  }

  lemma {:induction false} PassesFirst(f: Diffuser, d: seq<uint32>, r: nat)
    requires Fit(|d|)
    ensures Passes(f, d, r + 1) == Passes(f, Pass(f, d, |d|), r)
  {
    if r > 0 {
      PassesFirst(f, d, r - 1);
    }
  }

  lemma {:induction false} UnpassesInvert(f: Diffuser, d: seq<uint32>, r: nat)
    requires Fit(|d|)
    ensures Unpasses(f, Passes(f, d, r), r) == d
  {
    hide Fit, Pass, Unpass;
    if r > 0 {
      var p := Passes(f, d, r - 1);
      PassNone(f, p);
      UnpassesFirst(f, Passes(f, d, r), r - 1);
      UnpassRetraces(f, p, 0);
      UnpassesInvert(f, d, r - 1);
    }
  }

  lemma {:induction false} PassesInvert(f: Diffuser, d: seq<uint32>, r: nat)
    requires Fit(|d|)
    ensures Passes(f, Unpasses(f, d, r), r) == d
  {
    hide Fit, Pass, Unpass;
    if r > 0 {
      var u := Unpasses(f, d, r - 1);
      UnpassNone(f, u);
      PassesFirst(f, Unpasses(f, d, r), r - 1);
      PassRetraces(f, u, |u|);
      PassesInvert(f, d, r - 1);
    }
  }

  // ----- The loops -----

  lemma Starts(n: nat)
    requires Fit(n)
    ensures n >= 8 && n % 4 == 0
    ensures Near(A, n, 0) == n - 2 && Far(A, n, 0) == n - 5
    ensures Near(B, n, 0) == 2 && Far(B, n, 0) == 5
    ensures Near(A, n, n - 1) == n - 3 && Far(A, n, n - 1) == n - 6
    ensures Near(B, n, n - 1) == 1 && Far(B, n, n - 1) == 4
  {
  }

  /** How the two indices move over four steps, and where they wrap. */
  lemma AIndices(n: nat, i: nat)
    requires Fit(n) && i < n && i % 4 == 0
    ensures i + 4 <= n && (i + 4) % 4 == 0
    ensures Rotation(A, i) == 9 && Rotation(A, i + 1) == 0 && Rotation(A, i + 2) == 13 && Rotation(A, i + 3) == 0
    ensures Near(A, n, i + 1) == Near(A, n, i) + 1
    ensures Near(A, n, i + 2) == (if Near(A, n, i) + 2 >= n then Near(A, n, i) + 2 - n else Near(A, n, i) + 2)
    ensures Near(A, n, i + 3) == Near(A, n, i + 2) + 1
    ensures Far(A, n, i + 1) == (if Far(A, n, i) + 1 >= n then Far(A, n, i) + 1 - n else Far(A, n, i) + 1)
    ensures Far(A, n, i + 2) == Far(A, n, i + 1) + 1
    ensures Far(A, n, i + 3) == Far(A, n, i + 1) + 2
    ensures i + 4 < n ==> Near(A, n, i + 4) == Near(A, n, i + 2) + 2 && Far(A, n, i + 4) == Far(A, n, i + 1) + 3
  {
  }

  lemma BIndices(n: nat, i: nat)
    requires Fit(n) && i < n && i % 4 == 0
    ensures i + 4 <= n && (i + 4) % 4 == 0
    ensures Rotation(B, i) == 0 && Rotation(B, i + 1) == 10 && Rotation(B, i + 2) == 0 && Rotation(B, i + 3) == 25
    ensures Near(B, n, i + 1) == Near(B, n, i) + 1
    ensures Near(B, n, i + 2) == (if Near(B, n, i) + 2 >= n then Near(B, n, i) + 2 - n else Near(B, n, i) + 2)
    ensures Near(B, n, i + 3) == Near(B, n, i + 2) + 1
    ensures Far(B, n, i + 1) == Far(B, n, i) + 1
    ensures Far(B, n, i + 2) == Far(B, n, i) + 2
    ensures Far(B, n, i + 3) == (if Far(B, n, i) + 3 >= n then Far(B, n, i) + 3 - n else Far(B, n, i) + 3)
    ensures i + 4 < n ==> Near(B, n, i + 4) == Near(B, n, i + 2) + 2 && Far(B, n, i + 4) == Far(B, n, i + 3) + 1
  {
  }

  /** The statement of the loops: word `i1` takes in words `i2` and `i3`. */
  method AddTo(f: Diffuser, d: array<uint32>, i1: int, i2: int, i3: int, k: nat, ghost s: seq<uint32>)
    requires Fit(d.Length) && |s| == d.Length && 0 <= i1 < d.Length
    requires i2 == Near(f, d.Length, i1) && i3 == Far(f, d.Length, i1) && k == Rotation(f, i1)
    requires d[..] == Pass(f, s, i1)
    modifies d
    ensures d[..] == Pass(f, s, i1 + 1)
  {
    hide Fit, Near, Far, Add, Xor, Turned, Rotation;
    d[i1] := Add(d[i1], Xor(d[i2], Turned(d[i3], k)));
    assert d[..] == Step(f, old(d[..]), i1);
  }

  method SubtractFrom(f: Diffuser, d: array<uint32>, i1: int, i2: int, i3: int, k: nat, ghost s: seq<uint32>)
    requires Fit(d.Length) && |s| == d.Length && 0 <= i1 < d.Length
    requires i2 == Near(f, d.Length, i1) && i3 == Far(f, d.Length, i1) && k == Rotation(f, i1)
    requires d[..] == Unpass(f, s, i1 + 1)
    modifies d
    ensures d[..] == Unpass(f, s, i1)
  {
    hide Fit, Near, Far, Subtract, Xor, Turned, Rotation;
    d[i1] := Subtract(d[i1], Xor(d[i2], Turned(d[i3], k)));
    assert d[..] == Unstep(f, old(d[..]), i1);
  }

  lemma AIndicesDown(n: nat, i: nat)
    requires Fit(n) && i < n && (i + 1) % 4 == 0
    ensures i >= 3 && (i - 3) % 4 == 0
    ensures Rotation(A, i) == 0 && Rotation(A, i - 1) == 13 && Rotation(A, i - 2) == 0 && Rotation(A, i - 3) == 9
    ensures Near(A, n, i - 1) == Near(A, n, i) - 1
    ensures Near(A, n, i - 2) == (if Near(A, n, i - 1) == 0 then n - 1 else Near(A, n, i - 1) - 1)
    ensures Near(A, n, i - 3) == Near(A, n, i - 2) - 1
    ensures i > 3 ==> Near(A, n, i - 4) == Near(A, n, i - 3) - 1
    ensures Far(A, n, i - 1) == Far(A, n, i) - 1
    ensures Far(A, n, i - 2) == Far(A, n, i - 1) - 1
    ensures Far(A, n, i - 3) == (if Far(A, n, i - 2) == 0 then n - 1 else Far(A, n, i - 2) - 1)
    ensures i > 3 ==> Far(A, n, i - 4) == Far(A, n, i - 3) - 1
  {
  }

  lemma BIndicesDown(n: nat, i: nat)
    requires Fit(n) && i < n && (i + 1) % 4 == 0
    ensures i >= 3 && (i - 3) % 4 == 0
    ensures Rotation(B, i) == 25 && Rotation(B, i - 1) == 0 && Rotation(B, i - 2) == 10 && Rotation(B, i - 3) == 0
    ensures Near(B, n, i - 1) == Near(B, n, i) - 1
    ensures Near(B, n, i - 2) == (if Near(B, n, i - 1) == 0 then n - 1 else Near(B, n, i - 1) - 1)
    ensures Near(B, n, i - 3) == Near(B, n, i - 2) - 1
    ensures i > 3 ==> Near(B, n, i - 4) == Near(B, n, i - 3) - 1
    ensures Far(B, n, i - 1) == (if Far(B, n, i) == 0 then n - 1 else Far(B, n, i) - 1)
    ensures Far(B, n, i - 2) == Far(B, n, i - 1) - 1
    ensures Far(B, n, i - 3) == Far(B, n, i - 2) - 1
    ensures i > 3 ==> Far(B, n, i - 4) == Far(B, n, i - 3) - 1
  {
  }

  method ADecryptPass(d: array<uint32>)
    requires Fit(d.Length)
    modifies d
    ensures d[..] == Pass(A, old(d[..]), d.Length)
  {
    hide *;
    var n := d.Length;
    Starts(n);
    var i1, i2, i3 := 0, n - 2, n - 5;
    ghost var s := d[..];
    PassNone(A, s);
    while i1 < n - 1
      invariant 0 <= i1 <= n && i1 % 4 == 0
      invariant i1 < n ==> i2 == Near(A, n, i1) && i3 == Far(A, n, i1)
      invariant d[..] == Pass(A, s, i1)
    {
      AIndices(n, i1);
      AddTo(A, d, i1, i2, i3, 9, s);
      i1, i2, i3 := i1 + 1, i2 + 1, i3 + 1;
      if i3 >= n { i3 := i3 - n; }
      AddTo(A, d, i1, i2, i3, 0, s);
      i1, i2, i3 := i1 + 1, i2 + 1, i3 + 1;
      if i2 >= n { i2 := i2 - n; }
      AddTo(A, d, i1, i2, i3, 13, s);
      i1, i2, i3 := i1 + 1, i2 + 1, i3 + 1;
      AddTo(A, d, i1, i2, i3, 0, s);
      i1, i2, i3 := i1 + 1, i2 + 1, i3 + 1;
    }
  }

  method ADecrypt(d: array<uint32>)
    requires Fit(d.Length)
    modifies d
    ensures d[..] == Passes(A, old(d[..]), 5)
  {
    hide Fit, Pass;
    for r := 0 to 5
      invariant d[..] == Passes(A, old(d[..]), r)
    {
      ADecryptPass(d);
    }
  }

  method AEncryptPass(d: array<uint32>)
    requires Fit(d.Length)
    modifies d
    ensures d[..] == Unpass(A, old(d[..]), 0)
  {
    hide *;
    var n := d.Length;
    Starts(n);
    var i1, i2, i3 := n - 1, n - 2 - 1, n - 5 - 1;
    ghost var s := d[..];
    UnpassNone(A, s);
    while i1 > 0
      invariant -1 <= i1 < n && (i1 + 1) % 4 == 0
      invariant i1 >= 0 ==> i2 == Near(A, n, i1) && i3 == Far(A, n, i1)
      invariant d[..] == Unpass(A, s, i1 + 1)
    {
      AIndicesDown(n, i1);
      SubtractFrom(A, d, i1, i2, i3, 0, s);
      i1, i2, i3 := i1 - 1, i2 - 1, i3 - 1;
      SubtractFrom(A, d, i1, i2, i3, 13, s);
      i1, i2, i3 := i1 - 1, i2 - 1, i3 - 1;
      if i2 < 0 { i2 := i2 + n; }
      SubtractFrom(A, d, i1, i2, i3, 0, s);
      i1, i2, i3 := i1 - 1, i2 - 1, i3 - 1;
      if i3 < 0 { i3 := i3 + n; }
      SubtractFrom(A, d, i1, i2, i3, 9, s);
      i1, i2, i3 := i1 - 1, i2 - 1, i3 - 1;
    }
  }

  method AEncrypt(d: array<uint32>)
    requires Fit(d.Length)
    modifies d
    ensures d[..] == Unpasses(A, old(d[..]), 5)
  {
    hide Fit, Unpass;
    for r := 0 to 5
      invariant d[..] == Unpasses(A, old(d[..]), r)
    {
      AEncryptPass(d);
    }
  }

  method BDecryptPass(d: array<uint32>)
    requires Fit(d.Length)
    modifies d
    ensures d[..] == Pass(B, old(d[..]), d.Length)
  {
    hide *;
    var n := d.Length;
    Starts(n);
    var i1, i2, i3 := 0, 2, 5;
    ghost var s := d[..];
    PassNone(B, s);
    while i1 < n - 1
      invariant 0 <= i1 <= n && i1 % 4 == 0
      invariant i1 < n ==> i2 == Near(B, n, i1) && i3 == Far(B, n, i1)
      invariant d[..] == Pass(B, s, i1)
    {
      BIndices(n, i1);
      AddTo(B, d, i1, i2, i3, 0, s);
      i1, i2, i3 := i1 + 1, i2 + 1, i3 + 1;
      AddTo(B, d, i1, i2, i3, 10, s);
      i1, i2, i3 := i1 + 1, i2 + 1, i3 + 1;
      if i2 >= n { i2 := i2 - n; }
      AddTo(B, d, i1, i2, i3, 0, s);
      i1, i2, i3 := i1 + 1, i2 + 1, i3 + 1;
      if i3 >= n { i3 := i3 - n; }
      AddTo(B, d, i1, i2, i3, 25, s);
      i1, i2, i3 := i1 + 1, i2 + 1, i3 + 1;
    }
  }

  method BDecrypt(d: array<uint32>)
    requires Fit(d.Length)
    modifies d
    ensures d[..] == Passes(B, old(d[..]), 3)
  {
    hide Fit, Pass;
    for r := 0 to 3
      invariant d[..] == Passes(B, old(d[..]), r)
    {
      BDecryptPass(d);
    }
  }

  method BEncryptPass(d: array<uint32>)
    requires Fit(d.Length)
    modifies d
    ensures d[..] == Unpass(B, old(d[..]), 0)
  {
    hide *;
    var n := d.Length;
    Starts(n);
    var i1, i2, i3 := n - 1, 2 - 1, 5 - 1;
    ghost var s := d[..];
    UnpassNone(B, s);
    while i1 > 0
      invariant -1 <= i1 < n && (i1 + 1) % 4 == 0
      invariant i1 >= 0 ==> i2 == Near(B, n, i1) && i3 == Far(B, n, i1)
      invariant d[..] == Unpass(B, s, i1 + 1)
    {
      BIndicesDown(n, i1);
      SubtractFrom(B, d, i1, i2, i3, 25, s);
      i1, i2, i3 := i1 - 1, i2 - 1, i3 - 1;
      if i3 < 0 { i3 := i3 + n; }
      SubtractFrom(B, d, i1, i2, i3, 0, s);
      i1, i2, i3 := i1 - 1, i2 - 1, i3 - 1;
      if i2 < 0 { i2 := i2 + n; }
      SubtractFrom(B, d, i1, i2, i3, 10, s);
      i1, i2, i3 := i1 - 1, i2 - 1, i3 - 1;
      SubtractFrom(B, d, i1, i2, i3, 0, s);
      i1, i2, i3 := i1 - 1, i2 - 1, i3 - 1;
    }
  }

  method BEncrypt(d: array<uint32>)
    requires Fit(d.Length)
    modifies d
    ensures d[..] == Unpasses(B, old(d[..]), 3)
  {
    hide Fit, Unpass;
    for r := 0 to 3
      invariant d[..] == Unpasses(B, old(d[..]), r)
    {
      BEncryptPass(d);
    }
  }
}

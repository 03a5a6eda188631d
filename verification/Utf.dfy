/** File names between UTF-16 and UTF-8: the conversion loops with their bounded output, and
    the proof that a name survives the way there and back. */
module Utf {
  import opened Basics

  /** One character and the number of units it was read from. */
  datatype Char = Char(code: nat, length: nat)

  // ----- One character in UTF-8 -----

  /** The part of `wc` above its lowest `k` groups of six bits. */
  function High(wc: nat, k: nat): nat {
    if k == 0 then wc else High(wc / 64, k - 1)
  }

  /** The lowest `k` groups of six bits, as continuation bytes. */
  function Trail(wc: nat, k: nat): (t: seq<byte>)
    ensures |t| == k
  {
    if k == 0 then [] else Trail(wc / 64, k - 1) + [(0x80 + wc % 64) as byte]
  }

  /** How many continuation bytes a character needs. */
  function Continuations(wc: nat): (k: nat)
    requires wc <= 0x7fff_ffff
    ensures k <= 5
  {
    if wc <= 0x7f then 0
    else if wc <= 0x7ff then 1
    else if wc <= 0xffff then 2
    else if wc <= 0x1f_ffff then 3
    else if wc <= 0x3ff_ffff then 4
    else 5
  }

  function Lead(k: nat): nat
    requires k <= 5
  {
    match k
    case 0 => 0
    case 1 => 0xc0
    case 2 => 0xe0
    case 3 => 0xf0
    case 4 => 0xf8
    case 5 => 0xfc
  }

  lemma HighFits(wc: nat)
    requires wc <= 0x7fff_ffff
    ensures var k := Continuations(wc);
            High(wc, k) < if k == 0 then 0x80 else if k == 1 then 0x20 else if k == 2 then 0x10 else if k == 3 then 8
                          else if k == 4 then 4 else 2
  {
    var k := Continuations(wc);
    if k >= 1 { assert High(wc, k) == High(wc / 64, k - 1); }
    if k >= 2 { assert High(wc / 64, k - 1) == High(wc / 64 / 64, k - 2); }
    if k >= 3 { assert High(wc / 64 / 64, k - 2) == High(wc / 64 / 64 / 64, k - 3); }
    if k >= 4 { assert High(wc / 64 / 64 / 64, k - 3) == High(wc / 64 / 64 / 64 / 64, k - 4); }
    if k == 5 { assert High(wc / 64 / 64 / 64 / 64, 1) == wc / 64 / 64 / 64 / 64 / 64; }
  }

  function Encode8(wc: nat): (s: Option<seq<byte>>)
    ensures s.Some? <==> wc <= 0x7fff_ffff
    ensures s.Some? ==> s.value != []
  {
    if wc > 0x7fff_ffff then None
    else
      var k := Continuations(wc);
      HighFits(wc);
      Some([(Lead(k) + High(wc, k)) as byte] + Trail(wc, k))
  }

  /** The lead byte's continuation count and its own bits. */
  function Leading(x: byte): Option<(nat, nat)> {
    var v := x as nat;
    if v < 0x80 then Some((0, v))
    else if v / 32 == 6 then Some((1, v % 32))
    else if v / 16 == 14 then Some((2, v % 16))
    else if v / 8 == 30 then Some((3, v % 8))
    else if v / 4 == 62 then Some((4, v % 4))
    else if v / 2 == 126 then Some((5, v % 2))
    else None
  }

  /** `k` continuation bytes, added below `acc`. */
  function Continued(s: seq<byte>, k: nat, acc: nat): Option<nat>
    requires k <= |s|
  {
    if k == 0 then Some(acc)
    else if s[0] as nat / 64 != 2 then None
    else Continued(s[1..], k - 1, acc * 64 + s[0] as nat % 64)
  }

  function Decode8(s: seq<byte>): Option<Char>
    requires s != []
  {
    match Leading(s[0])
    case None => None
    case Some((k, base)) =>
      if |s| < 1 + k then None
      else
        match Continued(s[1..], k, base)
        case None => None
        case Some(code) => Some(Char(code, 1 + k))
  }

  lemma LeadingOf(k: nat, v: nat)
    requires k <= 5
    requires v < if k == 0 then 0x80 else if k == 1 then 0x20 else if k == 2 then 0x10 else if k == 3 then 8
                 else if k == 4 then 4 else 2
    ensures Lead(k) + v < 0x100 && Leading((Lead(k) + v) as byte) == Some((k, v))
  {
  }

  lemma {:induction false} ContinuedTrail(wc: nat, k: nat, rest: seq<byte>)
    ensures Continued(Trail(wc, k) + rest, k, High(wc, k)) == Some(wc)
  {
    if k > 0 {
      var last := [(0x80 + wc % 64) as byte];
      ContinuedSplits(Trail(wc / 64, k - 1), last + rest, k - 1, High(wc, k));
      ContinuedTrail(wc / 64, k - 1, last + rest);
      assert Trail(wc, k) + rest == Trail(wc / 64, k - 1) + (last + rest);
      assert Continued(last + rest, 1, wc / 64) == Some(wc) by {
        assert (last + rest)[0] == last[0] && wc == wc / 64 * 64 + wc % 64;
      }
    }
  }

  /** Reading one more byte after `k` good ones. */
  lemma {:induction false} ContinuedSplits(s: seq<byte>, t: seq<byte>, k: nat, acc: nat)
    requires |s| == k && t != []
    ensures Continued(s + t, k, acc).Some? ==>
              Continued(s + t, k + 1, acc) == Continued(t, 1, Continued(s + t, k, acc).value)
    decreases k
  {
    if k == 0 {
      assert s + t == t;
    } else if s[0] as nat / 64 == 2 {
      ContinuedSplits(s[1..], t, k - 1, acc * 64 + s[0] as nat % 64);
      assert (s + t)[1..] == s[1..] + t;
    }
  }

  /** What is written for a character is read back as it, whatever follows. */
  lemma Decode8Encode8(wc: nat, rest: seq<byte>)
    requires wc <= 0x7fff_ffff
    ensures Decode8(Encode8(wc).value + rest) == Some(Char(wc, |Encode8(wc).value|))
  {
    hide Leading, Lead, Continuations, Trail, High, Continued;
    var k := Continuations(wc);
    HighFits(wc);
    LeadingOf(k, High(wc, k));
    ContinuedTrail(wc, k, rest);
    var s := Encode8(wc).value;
    assert (s + rest)[1..] == Trail(wc, k) + rest;
  }

  // ----- One character in UTF-16 -----

  predicate Units(u: seq<nat>) {
    forall i | 0 <= i < |u| :: u[i] < 0x1_0000
  }

  function Decode16(u: seq<nat>): Option<Char>
    requires u != []
  {
    if u[0] / 0x400 == 54 then
      if |u| < 2 || u[1] / 0x400 != 55 then None
      else Some(Char(u[0] % 0x400 * 0x400 + u[1] % 0x400 + 0x1_0000, 2))
    else Some(Char(u[0], 1))
  }

  function Encode16(wc: nat): (u: seq<nat>)
    ensures 1 <= |u| <= 2
  {
    if wc <= 0xffff then [wc]
    else
      var w := wc - 0x1_0000;
      [0xd800 + w / 0x400 % 0x400, 0xdc00 + w % 0x400]
  }

  /** What is read as a character is what would be written for it. */
  lemma Encode16Decode16(u: seq<nat>)
    requires u != [] && Units(u) && Decode16(u).Some?
    ensures var c := Decode16(u).value;
            c.length <= |u| && c.code <= 0x10_ffff && Encode16(c.code) == u[..c.length]
  {
    if u[0] / 0x400 == 54 {
      var a, b := u[0] % 0x400, u[1] % 0x400;
      var w := a * 0x400 + b;
      assert w / 0x400 == a && w % 0x400 == b && a % 0x400 == a;
      assert u[0] == 0xd800 + a && u[1] == 0xdc00 + b;
    }
  }

  // ----- Whole names -----

  /** The UTF-8 form of a name, up to its first zero. */
  function To8(u: seq<nat>): Option<seq<byte>>
    requires Units(u)
    decreases |u|
  {
    if u == [] then Some([])
    else
      match Decode16(u)
      case None => None
      case Some(c) =>
        Encode16Decode16(u);
        if c.code == 0 then Some([])
        else
          match To8(u[c.length..])
          case None => None
          case Some(rest) => Some(Encode8(c.code).value + rest)
  }

  /** The UTF-16 form of a name; a zero is written and ends it. */
  function To16(s: seq<byte>): Option<seq<nat>>
    decreases |s|
  {
    if s == [] then Some([])
    else
      match Decode8(s)
      case None => None
      case Some(c) =>
        if c.code == 0 then Some([0])
        else
          match To16(s[c.length..])
          case None => None
          case Some(rest) => Some(Encode16(c.code) + rest)
  }

  /** No character takes more than three bytes for each of its units. */
  lemma Encode8Bound(u: seq<nat>)
    requires u != [] && Units(u) && Decode16(u).Some?
    ensures var c := Decode16(u).value; c.code <= 0x10_ffff && |Encode8(c.code).value| <= 3 * c.length
  {
    hide Trail, High;
    Encode16Decode16(u);
  }

  lemma {:induction false} To8Bound(u: seq<nat>)
    requires Units(u) && To8(u).Some?
    ensures |To8(u).value| <= 3 * |u|
    decreases |u|
  {
    hide Encode8, Decode16, To8;
    NoName();
    if u != [] {
      To8Step(u);
      var c := Decode16(u).value;
      Encode8Bound(u);
      if c.code != 0 {
        To8Bound(u[c.length..]);
      }
    }
  }

  predicate NulFree(u: seq<nat>) {
    forall i | 0 <= i < |u| :: u[i] != 0
  }

  /** A name converted to UTF-8 and back is unchanged. */
  lemma {:induction false} NameRoundTrip(u: seq<nat>)
    requires Units(u) && NulFree(u) && To8(u).Some?
    ensures To16(To8(u).value) == Some(u)
    decreases |u|
  {
    hide Encode8, Decode8, Decode16, Encode16, To8, To16;
    NoName();
    if u != [] {
      To8Step(u);
      NotNul(u);
      var c := Decode16(u).value;
      Encode16Decode16(u);
      NameRoundTrip(u[c.length..]);
      var rest := To8(u[c.length..]).value;
      Decode8Encode8(c.code, rest);
      To16Next(Encode8(c.code).value, rest, c.code);
      assert u == u[..c.length] + u[c.length..];
    }
  }

  lemma To16Next(s: seq<byte>, rest: seq<byte>, code: nat)
    requires s != [] && Decode8(s + rest) == Some(Char(code, |s|)) && code != 0 && To16(rest).Some?
    ensures To16(s + rest) == Some(Encode16(code) + To16(rest).value)
  {
    hide Decode8, Encode16;
    assert (s + rest)[|s|..] == rest;
  }

  lemma NoName()
    ensures To8([]) == Some([]) && To16([]) == Some([])
  {
  }

  lemma NotNul(u: seq<nat>)
    requires u != [] && NulFree(u) && Decode16(u).Some?
    ensures Decode16(u).value.code != 0 && NulFree(u[Decode16(u).value.length..])
  {
  }

  /** Every unit fits 16 bits, and only no bytes at all give no units. */
  lemma {:induction false} To16Units(s: seq<byte>)
    requires To16(s).Some?
    ensures Units(To16(s).value) && (s != [] ==> To16(s).value != [])
    decreases |s|
  {
    hide Decode8;
    if s != [] {
      Decode8Length(s);
      var c := Decode8(s).value;
      if c.code != 0 {
        To16Units(s[c.length..]);
      }
    }
  }

  /** A zero can be spelled in two bytes, neither of them zero, and still ends the name. */
  lemma OverlongZero()
    ensures To16([0xc0, 0x80]) == Some([0])
  {
    assert Leading(0xc0) == Some((1, 0));
    assert Continued([0x80], 1, 0) == Some(0);
    assert [0xc0 as byte, 0x80][1..] == [0x80];
  }

  // ----- The conversion loops -----

  datatype Outcome<T> = Done(output: seq<T>) | IllegalSequence | NameTooLong

  /** `done` is written for everything before position `i`. */
  ghost predicate Converted8(input: seq<nat>, i: nat, done: seq<byte>)
    requires Units(input) && i <= |input|
  {
    && (To8(input).Some? <==> To8(input[i..]).Some?)
    && (To8(input).Some? ==> To8(input).value == done + To8(input[i..]).value)
  }

  lemma To8Step(u: seq<nat>)
    requires Units(u) && u != []
    ensures Decode16(u).None? ==> To8(u).None?
    ensures Decode16(u).Some? ==>
              var c := Decode16(u).value;
              && 1 <= c.length <= |u| && c.code <= 0x10_ffff
              && (c.code == 0 ==> To8(u) == Some([]))
              && (c.code != 0 ==> (To8(u).Some? <==> To8(u[c.length..]).Some?))
              && (c.code != 0 && To8(u).Some? ==> To8(u).value == Encode8(c.code).value + To8(u[c.length..]).value)
  {
    hide Encode8, Decode16;
    if Decode16(u).Some? {
      Encode16Decode16(u);
    }
  }

  lemma Converted8Next(input: seq<nat>, i: nat, done: seq<byte>)
    requires Units(input) && i < |input| && Converted8(input, i, done)
    ensures Units(input[i..]) && (Decode16(input[i..]).None? ==> To8(input).None?)
    ensures Decode16(input[i..]).Some? ==>
              var c := Decode16(input[i..]).value;
              && 1 <= c.length && i + c.length <= |input| && c.code <= 0x10_ffff
              && (c.code == 0 ==> To8(input) == Some(done))
              && (c.code != 0 ==> Converted8(input, i + c.length, done + Encode8(c.code).value))
  {
    hide Encode8, Decode16, To8;
    To8Step(input[i..]);
    if Decode16(input[i..]).Some? {
      var c := Decode16(input[i..]).value;
      assert input[i..][c.length..] == input[i + c.length..];
      var rest := To8(input[i + c.length..]);
      if rest.Some? && c.code != 0 {
        assert done + (Encode8(c.code).value + rest.value) == done + Encode8(c.code).value + rest.value;
      }
      assert done + [] == done;
    }
  }

  method Utf16ToUtf8(input: seq<nat>, outsize: nat) returns (r: Outcome<byte>)
    requires Units(input)
    ensures r.Done? <==> To8(input).Some? && |To8(input).value| + 1 <= outsize
    ensures r.Done? ==> r.output == To8(input).value + [0]
    ensures r.IllegalSequence? ==> To8(input).None?
    ensures r.NameTooLong? ==> outsize < 3 * |input| + 1
  {
    hide Encode8, Decode16, To8;
    var i, output := 0, [];
    Begin8(input);
    while i < |input|
      invariant i <= |input| && Converted8(input, i, output) && |output| <= outsize && |output| <= 3 * i
    {
      Converted8Next(input, i, output);
      var d := Decode16(input[i..]);
      if d.None? {
        return IllegalSequence;
      }
      Encode8Bound(input[i..]);
      var c := d.value;
      var s := if c.code == 0 then [0] else Encode8(c.code).value;
      if |output| + |s| > outsize {
        return NameTooLong;
      }
      output := output + s;
      if c.code == 0 {
        return Done(output);
      }
      i := i + c.length;
    }
    End8(input, output);
    if |output| >= outsize {
      return NameTooLong;
    }
    return Done(output + [0]);
  }

  lemma Begin8(input: seq<nat>)
    requires Units(input)
    ensures Converted8(input, 0, [])
  {
    assert input[0..] == input;
  }

  lemma End8(input: seq<nat>, done: seq<byte>)
    requires Units(input) && Converted8(input, |input|, done)
    ensures To8(input) == Some(done)
  {
    assert input[|input|..] == [] && done + [] == done;
  }

  ghost predicate Converted16(input: seq<byte>, i: nat, done: seq<nat>)
    requires i <= |input|
  {
    && (To16(input).Some? <==> To16(input[i..]).Some?)
    && (To16(input).Some? ==> To16(input).value == done + To16(input[i..]).value)
  }

  lemma Decode8Length(s: seq<byte>)
    requires s != [] && Decode8(s).Some?
    ensures 1 <= Decode8(s).value.length <= |s|
  {
  }

  lemma Converted16Next(input: seq<byte>, i: nat, done: seq<nat>)
    requires i < |input| && Converted16(input, i, done)
    ensures Decode8(input[i..]).None? ==> To16(input).None?
    ensures Decode8(input[i..]).Some? ==>
              var c := Decode8(input[i..]).value;
              && 1 <= c.length && i + c.length <= |input|
              && (c.code == 0 ==> To16(input) == Some(done + [0]))
              && (c.code != 0 ==> Converted16(input, i + c.length, done + Encode16(c.code)))
  {
    hide Encode16, Decode8;
    if Decode8(input[i..]).Some? {
      Decode8Length(input[i..]);
      var c := Decode8(input[i..]).value;
      assert input[i..][c.length..] == input[i + c.length..];
      var rest := To16(input[i + c.length..]);
      if rest.Some? {
        assert done + (Encode16(c.code) + rest.value) == done + Encode16(c.code) + rest.value;
      }
    }
  }

  method Utf8ToUtf16(input: seq<byte>, outsize: nat) returns (r: Outcome<nat>)
    ensures r.Done? <==> To16(input).Some? && |To16(input).value| + 1 <= outsize
    ensures r.Done? ==> r.output == To16(input).value + [0]
    ensures r.IllegalSequence? ==> To16(input).None?
  {
    hide Encode16, Decode8, To16;
    var i, output := 0, [];
    Begin16(input);
    while i < |input|
      invariant i <= |input| && |output| <= outsize
      invariant Converted16(input, i, output)
    {
      Converted16Next(input, i, output);
      var d := Decode8(input[i..]);
      if d.None? {
        return IllegalSequence;
      }
      var c := d.value;
      var u := if c.code == 0 then [0] else Encode16(c.code);
      if |output| + |u| > outsize {
        return NameTooLong;
      }
      output := output + u;
      if c.code == 0 {
        if |output| >= outsize {
          return NameTooLong;
        }
        return Done(output + [0]);
      }
      i := i + c.length;
    }
    End16(input, output);
    if |output| >= outsize {
      return NameTooLong;
    }
    return Done(output + [0]);
  }

  lemma Begin16(input: seq<byte>)
    ensures Converted16(input, 0, [])
  {
    assert input[0..] == input;
  }

  lemma End16(input: seq<byte>, done: seq<nat>)
    requires Converted16(input, |input|, done)
    ensures To16(input) == Some(done)
  {
    assert input[|input|..] == [] && done + [] == done;
  }
}

/** The text form of an Argon2 hash: decimal numbers, and the string with its parameters,
    salt and hash, written into a bounded buffer and parsed back. */
module ArgonText {
  import opened ArgonBase64
  import opened Arithmetic
  import opened Basics

  const ULONG_MAX: nat := 0xffff_ffff_ffff_ffff
  const UINT32_MAX: nat := 0xffff_ffff

  // ----- Decimal numbers -----

  function Digit(d: nat): char
    requires d < 10
  {
    ('0' as int + d) as char
  }

  predicate IsDigit(c: char) {
    '0' <= c <= '9'
  }

  function DigitValue(c: char): (d: nat)
    requires IsDigit(c)
    ensures d < 10
  {
    c as int - '0' as int
  }

  function Decimal(v: nat): string {
    if v < 10 then [Digit(v)] else Decimal(v / 10) + [Digit(v % 10)]
  }

  predicate IsNumber(t: string) {
    forall i | 0 <= i < |t| :: IsDigit(t[i])
  }

  function Value(t: string): nat
    requires IsNumber(t)
  {
    if t == [] then 0 else Value(t[..|t| - 1]) * 10 + DigitValue(t[|t| - 1])
  }

  /** At least one digit, and no zero in front of another. */
  predicate Minimal(t: string) {
    t != [] && (t[0] == '0' ==> |t| == 1)
  }

  lemma {:induction false} DecimalIsMinimal(v: nat)
    ensures IsNumber(Decimal(v)) && Minimal(Decimal(v)) && Value(Decimal(v)) == v
    ensures v > 0 ==> Decimal(v)[0] != '0'
  {
    if v >= 10 {
      DecimalIsMinimal(v / 10);
      var t := Decimal(v);
      assert t[..|t| - 1] == Decimal(v / 10);
    } else {
      assert Decimal(v)[..0] == [];
    }
  }

  /** Only its own minimal form denotes a number. */
  lemma {:induction false} MinimalIsDecimal(t: string)
    requires IsNumber(t) && Minimal(t)
    ensures Decimal(Value(t)) == t && (t[0] != '0' ==> Value(t) > 0)
  {
    var init, last := t[..|t| - 1], t[|t| - 1];
    assert t == init + [last];
    if init != [] {
      MinimalIsDecimal(init);
      Remainder(Value(t), Value(init), 10, DigitValue(last));
    }
  }

  /** How many digits come first. */
  function DigitCount(str: string): (n: nat)
    ensures n <= |str| && IsNumber(str[..n]) && (n < |str| ==> !IsDigit(str[n]))
  {
    if str == [] || !IsDigit(str[0]) then 0
    else
      var n := 1 + DigitCount(str[1..]);
      assert str[..n] == [str[0]] + str[1..][..n - 1];
      n
  }

  lemma {:induction false} ValueRises(t: string, n: nat)
    requires IsNumber(t) && n <= |t|
    ensures Value(t[..n]) <= Value(t)
    decreases |t|
  {
    if n < |t| {
      ValueRises(t[..|t| - 1], n);
      assert t[..|t| - 1][..n] == t[..n];
    } else {
      assert t[..n] == t;
    }
  }

  /** Reads a minimal decimal number that fits 64 bits; gives it and its length. */
  method DecodeDecimal(str: string) returns (r: Option<(nat, nat)>)
    ensures var t := str[..DigitCount(str)];
            && (r.Some? <==> Minimal(t) && Value(t) <= ULONG_MAX)
            && (r.Some? ==> r.value == (Value(t), |t|))
  {
    ghost var t := str[..DigitCount(str)];
    var acc, i := 0, 0;
    while i < |str| && IsDigit(str[i])
      invariant 0 <= i <= |t| && acc == Value(t[..i]) && acc <= ULONG_MAX
    {
      var c := DigitValue(str[i]);
      assert t[..i + 1][..i] == t[..i];
      ValueRises(t, i + 1);
      if acc > ULONG_MAX / 10 {
        return None;
      }
      acc := acc * 10;
      if c > ULONG_MAX - acc {
        return None;
      }
      acc := acc + c;
      i := i + 1;
    }
    assert t[..i] == t;
    if i == 0 || (str[0] == '0' && i != 1) {
      return None;
    }
    return Some((acc, i));
  }

  /** Digits of a number, counted by dividing. */
  method NumLen(v: nat) returns (n: nat)
    ensures n == |Decimal(v)|
  {
    n := 1;
    var num := v;
    while num >= 10
      invariant n + |Decimal(num)| == |Decimal(v)| + 1
    {
      n := n + 1;
      num := num / 10;
    }
  }

  // ----- The string -----

  datatype Variety = D | I | ID

  function TypeName(v: Variety): string {
    match v
    case D => "argon2d"
    case I => "argon2i"
    case ID => "argon2id"
  }

  const VERSION_10: nat := 0x10
  const VERSION_13: nat := 0x13
  const MAX_LANES: nat := 0xff_ffff

  datatype Context = Context(
    version: nat,
    mCost: nat,
    tCost: nat,
    lanes: nat,
    threads: nat,
    salt: seq<byte>,
    out: seq<byte>
  )

  /** What validation asks of the fields the string carries. */
  predicate Valid(c: Context) {
    && 4 <= |c.out| <= UINT32_MAX && 8 <= |c.salt| <= UINT32_MAX
    && 8 <= c.mCost && 8 * c.lanes <= c.mCost && 1 <= c.tCost
    && 1 <= c.lanes <= MAX_LANES && 1 <= c.threads <= MAX_LANES
  }

  /** An input that is a pointer and a 32-bit length. */
  datatype Input = Input(isNull: bool, length: nat)

  /** The fields of a context that the string does not carry. */
  datatype Extras = Extras(password: Input, secret: Input, associated: Input, allocates: bool, frees: bool)

  /** What validation asks of them: no length without data, and both callbacks or neither. */
  predicate ValidExtras(x: Extras) {
    && (x.password.isNull ==> x.password.length == 0) && x.password.length <= UINT32_MAX
    && (x.secret.isNull ==> x.secret.length == 0) && x.secret.length <= UINT32_MAX
    && (x.associated.isNull ==> x.associated.length == 0) && x.associated.length <= UINT32_MAX
    && x.allocates == x.frees
  }

  /** The 32-bit fields. */
  predicate Fits(c: Context) {
    c.version <= UINT32_MAX && c.mCost <= UINT32_MAX && c.tCost <= UINT32_MAX && c.lanes <= UINT32_MAX
  }

  function Costs(c: Context): string {
    "$m=" + (Decimal(c.mCost) + (",t=" + (Decimal(c.tCost) + (",p=" + (Decimal(c.lanes) + Binaries(c))))))
  }

  function Binaries(c: Context): string {
    "$" + (Encoded(c.salt) + ("$" + Encoded(c.out)))
  }

  function Head(v: Variety): string {
    "$" + TypeName(v)
  }

  function Text(v: Variety, c: Context): string {
    Head(v) + ("$v=" + (Decimal(c.version) + Costs(c)))
  }

  /** The older form, which leaves the version out. */
  function ShortText(v: Variety, c: Context): string {
    Head(v) + Costs(c)
  }

  // ----- Parsing, piece by piece -----

  datatype Parsed<T> = Failed | Read(value: T, rest: string)

  function Number(str: string): (r: Parsed<nat>)
    ensures r.Read? ==> |r.rest| < |str|
  {
    var t := str[..DigitCount(str)];
    if Minimal(t) && Value(t) <= UINT32_MAX then Read(Value(t), str[|t|..]) else Failed
  }

  function Binary(cap: nat, str: string): Parsed<seq<byte>> {
    var t := str[..TextLength(str)];
    match Decoded(t)
    case None => Failed
    case Some(s) => if |s| <= cap && |s| <= UINT32_MAX then Read(s, str[|t|..]) else Failed
  }

  predicate EndsNumber(rest: string) {
    rest == [] || !IsDigit(rest[0])
  }

  predicate EndsText(rest: string) {
    rest == [] || ToValue(rest[0]).None?
  }

  lemma {:induction false} DigitCountOf(t: string, rest: string)
    requires IsNumber(t) && EndsNumber(rest)
    ensures DigitCount(t + rest) == |t|
  {
    if t == [] {
      assert t + rest == rest;
    } else {
      DigitCountOf(t[1..], rest);
      assert (t + rest)[1..] == t[1..] + rest;
    }
  }

  lemma {:induction false} TextLengthOf(t: string, rest: string)
    requires IsText(t) && EndsText(rest)
    ensures TextLength(t + rest) == |t|
  {
    hide ToValue;
    if t == [] {
      assert t + rest == rest;
    } else {
      TextLengthOf(t[1..], rest);
      assert (t + rest)[1..] == t[1..] + rest;
    }
  }

  lemma NumberReads(v: nat, rest: string)
    requires v <= UINT32_MAX && EndsNumber(rest)
    ensures Number(Decimal(v) + rest) == Read(v, rest)
  {
    hide Decimal, Value;
    DecimalIsMinimal(v);
    var t := Decimal(v);
    DigitCountOf(t, rest);
    assert (t + rest)[..|t|] == t && (t + rest)[|t|..] == rest;
  }

  lemma NumberIs(str: string)
    requires Number(str).Read?
    ensures str == Decimal(Number(str).value) + Number(str).rest && EndsNumber(Number(str).rest)
    ensures Number(str).value <= UINT32_MAX
  {
    hide Decimal, Value;
    var t := str[..DigitCount(str)];
    MinimalIsDecimal(t);
    assert str == t + str[|t|..];
  }

  lemma BinaryReads(s: seq<byte>, rest: string, cap: nat)
    requires |s| <= cap && |s| <= UINT32_MAX && EndsText(rest)
    ensures Binary(cap, Encoded(s) + rest) == Read(s, rest)
  {
    hide Encoded, Decoded, ToValue;
    DecodedEncoded(s);
    var t := Encoded(s);
    TextLengthOf(t, rest);
    assert (t + rest)[..|t|] == t && (t + rest)[|t|..] == rest;
  }

  lemma BinaryIs(str: string, cap: nat)
    requires Binary(cap, str).Read?
    ensures str == Encoded(Binary(cap, str).value) + Binary(cap, str).rest && EndsText(Binary(cap, str).rest)
    ensures |Binary(cap, str).value| <= cap && |Binary(cap, str).value| <= UINT32_MAX
  {
    hide Encoded, Decoded, ToValue;
    var t := str[..TextLength(str)];
    EncodedDecoded(t);
    assert str == t + str[|t|..];
  }

  function Skip(str: string, prefix: string): (r: Parsed<()>)
    ensures r.Read? <==> prefix <= str
    ensures r.Read? ==> str == prefix + r.rest
  {
    if prefix <= str then Read((), str[|prefix|..]) else Failed
  }

  function ReadNumber(str: string, prefix: string): Parsed<nat> {
    match Skip(str, prefix)
    case Failed => Failed
    case Read(_, rest) => Number(rest)
  }

  function ReadBinary(cap: nat, str: string): Parsed<seq<byte>> {
    match Skip(str, "$")
    case Failed => Failed
    case Read(_, rest) => Binary(cap, rest)
  }

  /** A context from its version and the costs, salt and hash that follow. */
  function ParseCosts(version: nat, str: string, maxSalt: nat, maxOut: nat): Option<Context> {
    match ReadNumber(str, "$m=")
    case Failed => None
    case Read(m, str) =>
      match ReadNumber(str, ",t=")
      case Failed => None
      case Read(t, str) =>
        match ReadNumber(str, ",p=")
        case Failed => None
        case Read(p, str) =>
          match ReadBinary(maxSalt, str)
          case Failed => None
          case Read(salt, str) =>
            match ReadBinary(maxOut, str)
            case Failed => None
            case Read(out, str) =>
              var c := Context(version, m, t, p, p, salt, out);
              if Valid(c) && str == [] then Some(c) else None
  }

  function Parse(v: Variety, str: string, maxSalt: nat, maxOut: nat): Option<Context> {
    match Skip(str, Head(v))
    case Failed => None
    case Read(_, str) =>
      match Skip(str, "$v=")
      case Failed => ParseCosts(VERSION_10, str, maxSalt, maxOut)
      case Read(_, str) =>
        match Number(str)
        case Failed => None
        case Read(version, str) => ParseCosts(version, str, maxSalt, maxOut)
  }

  /** `str` is a text form of `c`, for a decoder with room for that much salt and hash. */
  ghost predicate Denotes(v: Variety, str: string, maxSalt: nat, maxOut: nat, c: Context) {
    && Valid(c) && Fits(c) && c.threads == c.lanes && |c.salt| <= maxSalt && |c.out| <= maxOut
    && (str == Text(v, c) || (c.version == VERSION_10 && str == ShortText(v, c)))
  }

  lemma SkipReads(prefix: string, rest: string)
    ensures Skip(prefix + rest, prefix) == Read((), rest)
  {
  }

  lemma ReadNumberReads(prefix: string, v: nat, rest: string)
    requires v <= UINT32_MAX && EndsNumber(rest)
    ensures ReadNumber(prefix + (Decimal(v) + rest), prefix) == Read(v, rest)
  {
    hide Number, Decimal;
    SkipReads(prefix, Decimal(v) + rest);
    NumberReads(v, rest);
  }

  lemma ReadNumberIs(str: string, prefix: string)
    requires ReadNumber(str, prefix).Read?
    ensures str == prefix + (Decimal(ReadNumber(str, prefix).value) + ReadNumber(str, prefix).rest)
    ensures ReadNumber(str, prefix).value <= UINT32_MAX
  {
    hide Number, Decimal;
    NumberIs(Skip(str, prefix).rest);
  }

  lemma ReadBinaryReads(s: seq<byte>, rest: string, cap: nat)
    requires |s| <= cap && |s| <= UINT32_MAX && EndsText(rest)
    ensures ReadBinary(cap, "$" + (Encoded(s) + rest)) == Read(s, rest)
  {
    hide Binary, Encoded, ToValue;
    SkipReads("$", Encoded(s) + rest);
    BinaryReads(s, rest, cap);
  }

  lemma ReadBinaryIs(str: string, cap: nat)
    requires ReadBinary(cap, str).Read?
    ensures str == "$" + (Encoded(ReadBinary(cap, str).value) + ReadBinary(cap, str).rest)
    ensures |ReadBinary(cap, str).value| <= cap && |ReadBinary(cap, str).value| <= UINT32_MAX
  {
    hide Binary, Encoded, ToValue;
    BinaryIs(Skip(str, "$").rest, cap);
  }

  lemma CostsParse(c: Context, maxSalt: nat, maxOut: nat)
    requires Valid(c) && Fits(c) && c.threads == c.lanes && |c.salt| <= maxSalt && |c.out| <= maxOut
    ensures ParseCosts(c.version, Costs(c), maxSalt, maxOut) == Some(c)
  {
    hide ReadNumber, ReadBinary, Decimal, Encoded;
    var s2 := "$" + Encoded(c.out);
    var s1 := Binaries(c);
    var s0 := ",p=" + (Decimal(c.lanes) + s1);
    var s := ",t=" + (Decimal(c.tCost) + s0);
    ReadNumberReads("$m=", c.mCost, s);
    ReadNumberReads(",t=", c.tCost, s0);
    ReadNumberReads(",p=", c.lanes, s1);
    ReadBinaryReads(c.salt, s2, maxSalt);
    ReadBinaryReads(c.out, [], maxOut);
    assert Encoded(c.out) + [] == Encoded(c.out);
  }

  lemma ParsedCosts(version: nat, str: string, maxSalt: nat, maxOut: nat)
    requires ParseCosts(version, str, maxSalt, maxOut).Some? && version <= UINT32_MAX
    ensures var c := ParseCosts(version, str, maxSalt, maxOut).value;
            && c.version == version && str == Costs(c)
            && Valid(c) && Fits(c) && c.threads == c.lanes && |c.salt| <= maxSalt && |c.out| <= maxOut
  {
    hide ReadNumber, ReadBinary, Decimal, Encoded;
    ReadNumberIs(str, "$m=");
    var s := ReadNumber(str, "$m=").rest;
    ReadNumberIs(s, ",t=");
    var s0 := ReadNumber(s, ",t=").rest;
    ReadNumberIs(s0, ",p=");
    var s1 := ReadNumber(s0, ",p=").rest;
    ReadBinaryIs(s1, maxSalt);
    var s2 := ReadBinary(maxSalt, s1).rest;
    ReadBinaryIs(s2, maxOut);
    var c := ParseCosts(version, str, maxSalt, maxOut).value;
    assert Encoded(c.out) + [] == Encoded(c.out);
  }

  /** A text form of a context parses to that context. */
  lemma ParseComplete(v: Variety, str: string, maxSalt: nat, maxOut: nat, c: Context)
    requires Denotes(v, str, maxSalt, maxOut, c)
    ensures Parse(v, str, maxSalt, maxOut) == Some(c)
  {
    hide Costs, Decimal, Number, ParseCosts, Head;
    CostsParse(c, maxSalt, maxOut);
    CostsStart(c);
    if str == Text(v, c) {
      SkipReads(Head(v), "$v=" + (Decimal(c.version) + Costs(c)));
      SkipReads("$v=", Decimal(c.version) + Costs(c));
      NumberReads(c.version, Costs(c));
    } else {
      SkipReads(Head(v), Costs(c));
    }
  }

  lemma CostsStart(c: Context)
    ensures |Costs(c)| >= 3 && Costs(c)[..3] == "$m=" && !("$v=" <= Costs(c)) && EndsNumber(Costs(c))
  {
    assert Costs(c)[..3] == "$m=";
    assert "$v="[1] != Costs(c)[1];
  }

  /** What parses is a text form of the result. */
  lemma ParseSound(v: Variety, str: string, maxSalt: nat, maxOut: nat)
    requires Parse(v, str, maxSalt, maxOut).Some?
    ensures Denotes(v, str, maxSalt, maxOut, Parse(v, str, maxSalt, maxOut).value)
  {
    hide Costs, Decimal, Number, ParseCosts, Head;
    var s := Skip(str, Head(v)).rest;
    var r := Skip(s, "$v=");
    if r.Read? {
      NumberIs(r.rest);
      ParsedCosts(Number(r.rest).value, Number(r.rest).rest, maxSalt, maxOut);
    } else {
      ParsedCosts(VERSION_10, s, maxSalt, maxOut);
    }
  }

  // ----- The code -----

  method DecimalU32(str: string) returns (r: Parsed<nat>)
    ensures r == Number(str)
  {
    var d := DecodeDecimal(str);
    if d.None? || d.value.0 > UINT32_MAX {
      return Failed;
    }
    return Read(d.value.0, str[d.value.1..]);
  }

  method Bin(cap: nat, str: string) returns (r: Parsed<seq<byte>>)
    ensures r == Binary(cap, str)
  {
    hide Decoded, TextLength;
    var d := FromBase64(cap, str);
    if d.None? || |d.value.0| > UINT32_MAX {
      return Failed;
    }
    return Read(d.value.0, str[d.value.1..]);
  }

  method DecodeCosts(version: nat, str: string, maxSalt: nat, maxOut: nat) returns (r: Option<Context>)
    ensures r == ParseCosts(version, str, maxSalt, maxOut)
  {
    hide Number, Binary;
    var s := Skip(str, "$m=");
    if s.Failed? { return None; }
    var m := DecimalU32(s.rest);
    if m.Failed? { return None; }
    s := Skip(m.rest, ",t=");
    if s.Failed? { return None; }
    var t := DecimalU32(s.rest);
    if t.Failed? { return None; }
    s := Skip(t.rest, ",p=");
    if s.Failed? { return None; }
    var p := DecimalU32(s.rest);
    if p.Failed? { return None; }
    s := Skip(p.rest, "$");
    if s.Failed? { return None; }
    var salt := Bin(maxSalt, s.rest);
    if salt.Failed? { return None; }
    s := Skip(salt.rest, "$");
    if s.Failed? { return None; }
    var out := Bin(maxOut, s.rest);
    if out.Failed? { return None; }
    var c := Context(version, m.value, t.value, p.value, p.value, salt.value, out.value);
    if !Valid(c) || out.rest != [] {
      return None;
    }
    return Some(c);
  }

  /** Accepts exactly the text forms of valid contexts, and gives the context back. */
  method DecodeString(v: Variety, str: string, maxSalt: nat, maxOut: nat) returns (r: Option<Context>)
    ensures r.Some? ==> Denotes(v, str, maxSalt, maxOut, r.value)
    ensures forall c :: Denotes(v, str, maxSalt, maxOut, c) ==> r == Some(c)
  {
    hide Number, ParseCosts, Denotes, Head;
    forall c | Denotes(v, str, maxSalt, maxOut, c)
      ensures Parse(v, str, maxSalt, maxOut) == Some(c)
    {
      ParseComplete(v, str, maxSalt, maxOut, c);
    }
    var s := Skip(str, Head(v));
    if s.Failed? {
      return None;
    }
    var version, rest := VERSION_10, s.rest;
    var w := Skip(s.rest, "$v=");
    if w.Read? {
      var n := DecimalU32(w.rest);
      if n.Failed? {
        return None;
      }
      version, rest := n.value, n.rest;
    }
    r := DecodeCosts(version, rest, maxSalt, maxOut);
    if r.Some? {
      ParseSound(v, str, maxSalt, maxOut);
    }
  }

  datatype Encoding = Ok(text: string) | InvalidContext | EncodingFail

  /** What is written so far: all of `want`, unless it and a closing zero do not fit. */
  ghost predicate Holds(dst: string, failed: bool, want: string, dstLen: nat) {
    (failed <==> |want| >= dstLen) && (!failed ==> dst == want)
  }

  /** Appends a piece if it and the closing zero fit. */
  method Append(dst: string, dstLen: nat, piece: string, failed: bool, ghost want: string)
      returns (out: string, fail: bool)
    requires Holds(dst, failed, want, dstLen)
    ensures Holds(out, fail, want + piece, dstLen)
  {
    fail := failed || |piece| >= dstLen - |dst|;
    out := if fail then dst else dst + piece;
  }

  method AppendBinary(dst: string, dstLen: nat, s: seq<byte>, failed: bool, ghost want: string)
      returns (out: string, fail: bool)
    requires Holds(dst, failed, want, dstLen)
    ensures Holds(out, fail, want + Encoded(s), dstLen)
  {
    hide Encoded;
    fail, out := failed, dst;
    if !failed {
      var t := ToBase64(dstLen - |dst|, s);
      if t.None? {
        fail := true;
      } else {
        out := dst + t.value;
      }
    }
  }

  method EncodeString(dstLen: nat, c: Context, x: Extras, v: Variety) returns (r: Encoding)
    ensures r.InvalidContext? <==> !Valid(c) || !ValidExtras(x)
    ensures r.Ok? <==> Valid(c) && ValidExtras(x) && |Text(v, c)| + 1 <= dstLen
    ensures r.Ok? ==> r.text == Text(v, c)
  {
    hide Decimal, Encoded, TypeName, Holds, Valid, ValidExtras;
    if !Valid(c) || !ValidExtras(x) {
      return InvalidContext;
    }
    Nothing(dstLen);
    ghost var want := "";
    var dst, fail := Append("", dstLen, "$", dstLen == 0, want);
    want := want + "$";
    dst, fail := Append(dst, dstLen, TypeName(v), fail, want);
    want := want + TypeName(v);
    dst, fail := Append(dst, dstLen, "$v=", fail, want);
    want := want + "$v=";
    dst, fail := Append(dst, dstLen, Decimal(c.version), fail, want);
    want := want + Decimal(c.version);
    dst, fail := Append(dst, dstLen, "$m=", fail, want);
    want := want + "$m=";
    dst, fail := Append(dst, dstLen, Decimal(c.mCost), fail, want);
    want := want + Decimal(c.mCost);
    dst, fail := Append(dst, dstLen, ",t=", fail, want);
    want := want + ",t=";
    dst, fail := Append(dst, dstLen, Decimal(c.tCost), fail, want);
    want := want + Decimal(c.tCost);
    dst, fail := Append(dst, dstLen, ",p=", fail, want);
    want := want + ",p=";
    dst, fail := Append(dst, dstLen, Decimal(c.lanes), fail, want);
    want := want + Decimal(c.lanes);
    dst, fail := Append(dst, dstLen, "$", fail, want);
    want := want + "$";
    dst, fail := AppendBinary(dst, dstLen, c.salt, fail, want);
    want := want + Encoded(c.salt);
    dst, fail := Append(dst, dstLen, "$", fail, want);
    want := want + "$";
    dst, fail := AppendBinary(dst, dstLen, c.out, fail, want);
    want := want + Encoded(c.out);
    TextIs(v, c, want);
    HoldsIs(dst, fail, want, dstLen);
    if fail {
      return EncodingFail;
    }
    return Ok(dst);
  }

  lemma Nothing(dstLen: nat)
    ensures Holds("", dstLen == 0, "", dstLen)
  {
  }

  lemma HoldsIs(dst: string, failed: bool, want: string, dstLen: nat)
    requires Holds(dst, failed, want, dstLen)
    ensures failed <==> |want| >= dstLen
    ensures !failed ==> dst == want
  {
  }

  lemma TextIs(v: Variety, c: Context, t: string)
    requires t == "" + "$" + TypeName(v) + "$v=" + Decimal(c.version) + "$m=" + Decimal(c.mCost)
                + ",t=" + Decimal(c.tCost)
                  + ",p=" + Decimal(c.lanes) + "$" + Encoded(c.salt) + "$" + Encoded(c.out)
    ensures t == Text(v, c)
  {
    hide Decimal, Encoded, TypeName;
    var b := Binaries(c);
    var h := Head(v);
    assert "" + "$" + TypeName(v) == h;
    var x := h + "$v=" + Decimal(c.version) + "$m=" + Decimal(c.mCost)
               + ",t=" + Decimal(c.tCost) + ",p=" + Decimal(c.lanes);
    assert t == x + b;
    var k := h + "$v=" + Decimal(c.version);
    assert x + b == k + Costs(c);
    assert k + Costs(c) == Text(v, c);
  }

  /** The buffer a context at version 0x13 needs, its closing zero included. */
  method EncodedLen(tCost: nat, mCost: nat, lanes: nat, saltLen: nat, outLen: nat, v: Variety) returns (n: nat)
    ensures forall c: Context |
              c.version == VERSION_13 && c.mCost == mCost && c.tCost == tCost && c.lanes == lanes
              && |c.salt| == saltLen && |c.out| == outLen :: n == |Text(v, c)| + 1
  {
    hide Decimal, Encoded;
    var a := NumLen(tCost);
    var b := NumLen(mCost);
    var d := NumLen(lanes);
    var e := NumLen(VERSION_13);
    n := 15 + |TypeName(v)| + a + b + d + Length(saltLen) + Length(outLen) + e + 1;
    forall c: Context |
      c.version == VERSION_13 && c.mCost == mCost && c.tCost == tCost && c.lanes == lanes
      && |c.salt| == saltLen && |c.out| == outLen
      ensures n == |Text(v, c)| + 1
    {
      EncodedLength(c.salt);
      EncodedLength(c.out);
    }
  }
}

/**
 The two encodings around an envelope: UTF-8 (RFC 3629) and base64 (section 4 of RFC 4648),
 decoded the way Python decodes them.
 */
module Encodings {
  import opened Options

  type Byte = b: int | 0 <= b < 256
  type Bytes = seq<Byte>

  // ---------------------------------------------------------------------------------------
  // UTF-8
  // ---------------------------------------------------------------------------------------

  function EncodeChar(c: char): (bytes: Bytes)
    ensures 1 <= |bytes| <= 4 && |bytes| == CharLength(bytes[0])
  {
    var x := c as int;
    if x < 0x80 then [x]
    else if x < 0x800 then [0xC0 + x / 64, 0x80 + x % 64]
    else if x < 0x1_0000 then [0xE0 + x / 4096, 0x80 + x / 64 % 64, 0x80 + x % 64]
    else [0xF0 + x / 262144, 0x80 + x / 4096 % 64, 0x80 + x / 64 % 64, 0x80 + x % 64]
  }

  /** How many bytes a character takes, from its first. */
  function CharLength(lead: Byte): nat {
    if lead < 0x80 then 1 else if lead < 0xE0 then 2 else if lead < 0xF0 then 3 else 4
  }

  function CodePoint(b: Bytes): int
    requires 1 <= |b| <= 4
  {
    var lead: int := b[0];
    if |b| == 1 then lead
    else if |b| == 2 then (lead - 0xC0) * 64 + Low(b[1])
    else if |b| == 3 then (lead - 0xE0) * 4096 + Low(b[1]) * 64 + Low(b[2])
    else (lead - 0xF0) * 262144 + Low(b[1]) * 4096 + Low(b[2]) * 64 + Low(b[3])
  }

  function Low(b: int): int {
    b - 0x80
  }

  predicate IsScalar(x: int) {
    0 <= x < 0xD800 || 0xE000 <= x < 0x11_0000
  }

  function EncodeUtf8(s: string): Bytes {
    if s == "" then [] else EncodeChar(s[0]) + EncodeUtf8(s[1..])
  }

  /** Strict: a sequence that is not the shortest encoding of a scalar value is refused. */
  function DecodeUtf8(b: Bytes): Option<string> {
    if b == [] then Some("")
    else
      var n := CharLength(b[0]);
      if |b| < n then None
      else
        var x := CodePoint(b[..n]);
        if !IsScalar(x) || EncodeChar(x as char) != b[..n] then None
        else
          match DecodeUtf8(b[n..])
          case None => None
          case Some(rest) => Some([x as char] + rest)
  }

  lemma BaseSixtyFour(x: nat)
    ensures x == x / 64 * 64 + x % 64
    ensures x / 4096 == x / 64 / 64 && x / 262144 == x / 64 / 64 / 64
    ensures x == x / 4096 * 4096 + x / 64 % 64 * 64 + x % 64
    ensures x == x / 262144 * 262144 + x / 4096 % 64 * 4096 + x / 64 % 64 * 64 + x % 64
  {
  }

  lemma CodePointOfChar(c: char)
    ensures CodePoint(EncodeChar(c)) == c as int
  {
    BaseSixtyFour(c as int);
  }

  lemma {:induction false} Utf8RoundTrip(s: string)
    ensures DecodeUtf8(EncodeUtf8(s)) == Some(s)
  {
    if s != "" {
      var head, tail := EncodeChar(s[0]), EncodeUtf8(s[1..]);
      Utf8RoundTrip(s[1..]);
      CodePointOfChar(s[0]);
      assert (head + tail)[..|head|] == head && (head + tail)[|head|..] == tail;
      assert s == [s[0]] + s[1..];
    }
  }

  lemma Utf8IsInjective(s: string, t: string)
    requires EncodeUtf8(s) == EncodeUtf8(t)
    ensures s == t
  {
    Utf8RoundTrip(s);
    Utf8RoundTrip(t);
  }

  lemma EncodeCons(c: char, rest: string)
    ensures EncodeUtf8([c] + rest) == EncodeChar(c) + EncodeUtf8(rest)
  {
    assert ([c] + rest)[1..] == rest;
  }

  lemma DecodeStep(b: Bytes)
    requires b != [] && DecodeUtf8(b).Some?
    ensures CharLength(b[0]) <= |b| && DecodeUtf8(b[CharLength(b[0])..]).Some?
    ensures exists c :: EncodeChar(c) == b[..CharLength(b[0])]
                && DecodeUtf8(b).value == [c] + DecodeUtf8(b[CharLength(b[0])..]).value
  {
    var c := CodePoint(b[..CharLength(b[0])]) as char;
  }

  /** Strictness: only a text's own encoding decodes to it. */
  lemma {:induction false} Utf8IsCanonical(b: Bytes)
    requires DecodeUtf8(b).Some?
    ensures EncodeUtf8(DecodeUtf8(b).value) == b
  {
    if b != [] {
      DecodeStep(b);
      var n := CharLength(b[0]);
      var c :| EncodeChar(c) == b[..n] && DecodeUtf8(b).value == [c] + DecodeUtf8(b[n..]).value;
      Utf8IsCanonical(b[n..]);
      EncodeCons(c, DecodeUtf8(b[n..]).value);
    }
  }

  // ---------------------------------------------------------------------------------------
  // Base64
  // ---------------------------------------------------------------------------------------

  type Sextet = v: int | 0 <= v < 64

  function Symbol(v: Sextet): char {
    if v < 26 then ('A' as int + v) as char
    else if v < 52 then ('a' as int + v - 26) as char
    else if v < 62 then ('0' as int + v - 52) as char
    else if v == 62 then '+' else '/'
  }

  function SextetOf(c: char): Option<Sextet> {
    if 'A' <= c <= 'Z' then Some(c as int - 'A' as int)
    else if 'a' <= c <= 'z' then Some(c as int - 'a' as int + 26)
    else if '0' <= c <= '9' then Some(c as int - '0' as int + 52)
    else if c == '+' then Some(62) else if c == '/' then Some(63) else None
  }

  function EncodeBase64(b: Bytes): string {
    if b == [] then ""
    else if |b| == 1 then [Symbol(b[0] / 4), Symbol(b[0] % 4 * 16), '=', '=']
    else if |b| == 2 then [Symbol(b[0] / 4), Symbol(b[0] % 4 * 16 + b[1] / 16), Symbol(b[1] % 16 * 4), '=']
    else
      [Symbol(b[0] / 4), Symbol(b[0] % 4 * 16 + b[1] / 16), Symbol(b[1] % 16 * 4 + b[2] / 64), Symbol(b[2] % 64)]
      + EncodeBase64(b[3..])
  }

  /** The bits carried from the symbols of an unfinished group of four. */
  predicate Carried(quad: nat, left: nat) {
    && quad < 4
    && (quad == 0 ==> left == 0) && (quad == 1 ==> left < 64)
    && (quad == 2 ==> left < 16) && (quad == 3 ==> left < 4)
  }

  /**
   `b64decode` without validation: symbols outside the alphabet are skipped, the padding that
   completes a group ends the input, and a group left unfinished is an error.
   */
  function DecodeGroup(s: string, quad: nat, left: nat, pads: nat): Option<Bytes>
    requires Carried(quad, left)
  {
    if s == "" then if quad == 0 then Some([]) else None
    else if s[0] == '=' then
      if quad >= 2 && quad + pads + 1 >= 4 then Some([])
      else DecodeGroup(s[1..], quad, left, if quad >= 2 then pads + 1 else pads)
    else
      match SextetOf(s[0])
      case None => DecodeGroup(s[1..], quad, left, pads)
      case Some(v) =>
        if quad == 0 then DecodeGroup(s[1..], 1, v, 0)
        else if quad == 1 then Emit(left * 4 + v / 16, DecodeGroup(s[1..], 2, v % 16, 0))
        else if quad == 2 then Emit(left * 16 + v / 4, DecodeGroup(s[1..], 3, v % 4, 0))
        else Emit(left * 64 + v, DecodeGroup(s[1..], 0, 0, 0))
  }

  function Emit(b: Byte, rest: Option<Bytes>): Option<Bytes> {
    match rest
    case None => None
    case Some(bytes) => Some([b] + bytes)
  }

  /** A character outside ASCII is refused before anything is decoded. */
  function DecodeBase64(s: string): Option<Bytes> {
    if exists i :: 0 <= i < |s| && s[i] as int >= 128 then None else DecodeGroup(s, 0, 0, 0)
  }

  lemma SymbolDecodes(v: Sextet)
    ensures SextetOf(Symbol(v)) == Some(v) && Symbol(v) != '=' && Symbol(v) as int < 128
  {
  }

  lemma GroupStep(v: Sextet, rest: string, quad: nat, left: nat, pads: nat)
    requires Carried(quad, left)
    ensures DecodeGroup([Symbol(v)] + rest, quad, left, pads) ==
              if quad == 0 then DecodeGroup(rest, 1, v, 0)
              else if quad == 1 then Emit(left * 4 + v / 16, DecodeGroup(rest, 2, v % 16, 0))
              else if quad == 2 then Emit(left * 16 + v / 4, DecodeGroup(rest, 3, v % 4, 0))
              else Emit(left * 64 + v, DecodeGroup(rest, 0, 0, 0))
  {
    SymbolDecodes(v);
    assert ([Symbol(v)] + rest)[1..] == rest;
  }

  lemma PadStep(rest: string, left: nat)
    requires Carried(2, left)
    ensures DecodeGroup("==" + rest, 2, left, 0) == Some([])
    ensures left < 4 ==> DecodeGroup("=" + rest, 3, left, 0) == Some([])
  {
    assert ("==" + rest)[1..] == "=" + rest;
  }

  /** The bits of three bytes, cut in sixes and put together again. */
  lemma Sextets(x: Byte, y: Byte, z: Byte)
    ensures (x % 4 * 16 + y / 16) / 16 == x % 4 && (x % 4 * 16 + y / 16) % 16 == y / 16
    ensures (y % 16 * 4 + z / 64) / 4 == y % 16 && (y % 16 * 4 + z / 64) % 4 == z / 64
  {
  }

  lemma ThreeBytes(x: Byte, y: Byte, z: Byte, rest: string)
    ensures DecodeGroup([Symbol(x / 4)] + ([Symbol(x % 4 * 16 + y / 16)]
                        + ([Symbol(y % 16 * 4 + z / 64)] + ([Symbol(z % 64)] + rest))), 0, 0, 0)
         == Emit(x, Emit(y, Emit(z, DecodeGroup(rest, 0, 0, 0))))
  {
    var v0, v1, v2, v3 := x / 4, x % 4 * 16 + y / 16, y % 16 * 4 + z / 64, z % 64;
    var t3 := [Symbol(v3)] + rest;
    var t2 := [Symbol(v2)] + t3;
    var t1 := [Symbol(v1)] + t2;
    Sextets(x, y, z);
    GroupStep(v0, t1, 0, 0, 0);
    GroupStep(v1, t2, 1, v0, 0);
    GroupStep(v2, t3, 2, v1 % 16, 0);
    GroupStep(v3, rest, 3, v2 % 4, 0);
  }

  lemma EmitThree(b: Bytes, o: Option<Bytes>)
    requires |b| == 3
    ensures Emit(b[0], Emit(b[1], Emit(b[2], o))) == match o case None => None case Some(bytes) => Some(b + bytes)
  {
    if o.Some? {
      assert b + o.value == [b[0]] + ([b[1]] + ([b[2]] + o.value));
    }
  }

  lemma FullGroup(b: Bytes, rest: string)
    requires |b| == 3
    ensures DecodeGroup(EncodeBase64(b) + rest, 0, 0, 0) ==
              match DecodeGroup(rest, 0, 0, 0)
              case None => None
              case Some(bytes) => Some(b + bytes)
  {
    var x, y, z := b[0], b[1], b[2];
    assert EncodeBase64(b[3..]) == "";
    assert EncodeBase64(b) + rest
        == [Symbol(x / 4)] + ([Symbol(x % 4 * 16 + y / 16)]
                              + ([Symbol(y % 16 * 4 + z / 64)] + ([Symbol(z % 64)] + rest)));
    ThreeBytes(x, y, z, rest);
    EmitThree(b, DecodeGroup(rest, 0, 0, 0));
  }

  lemma OneByte(x: Byte)
    ensures DecodeGroup([Symbol(x / 4)] + ([Symbol(x % 4 * 16)] + "=="), 0, 0, 0) == Some([x])
  {
    var v0, v1 := x / 4, x % 4 * 16;
    GroupStep(v0, [Symbol(v1)] + "==", 0, 0, 0);
    GroupStep(v1, "==", 1, v0, 0);
    PadStep("", v1 % 16);
    assert "==" + "" == "==" && [x] + [] == [x];
  }

  lemma TwoBytes(x: Byte, y: Byte)
    ensures DecodeGroup([Symbol(x / 4)] + ([Symbol(x % 4 * 16 + y / 16)] + ([Symbol(y % 16 * 4)] + "=")), 0, 0, 0)
         == Some([x] + [y])
  {
    var v0, v1, v2 := x / 4, x % 4 * 16 + y / 16, y % 16 * 4;
    var t2 := [Symbol(v2)] + "=";
    Sextets(x, y, 0);
    GroupStep(v0, [Symbol(v1)] + t2, 0, 0, 0);
    GroupStep(v1, t2, 1, v0, 0);
    GroupStep(v2, "=", 2, v1 % 16, 0);
    PadStep("", v2 % 4);
    assert "=" + "" == "=" && [y] + [] == [y];
  }

  lemma {:induction false} LastGroup(b: Bytes)
    requires 1 <= |b| <= 2
    ensures DecodeGroup(EncodeBase64(b), 0, 0, 0) == Some(b)
  {
    if |b| == 1 {
      OneByte(b[0]);
      assert EncodeBase64(b) == [Symbol(b[0] / 4)] + ([Symbol(b[0] % 4 * 16)] + "==");
      assert b == [b[0]];
    } else {
      TwoBytes(b[0], b[1]);
      assert EncodeBase64(b)
          == [Symbol(b[0] / 4)] + ([Symbol(b[0] % 4 * 16 + b[1] / 16)] + ([Symbol(b[1] % 16 * 4)] + "="));
      assert b == [b[0]] + [b[1]];
    }
  }

  lemma {:induction false} GroupsRoundTrip(b: Bytes)
    ensures DecodeGroup(EncodeBase64(b), 0, 0, 0) == Some(b)
  {
    if 1 <= |b| <= 2 {
      LastGroup(b);
    } else if |b| >= 3 {
      GroupsRoundTrip(b[3..]);
      FullGroup(b[..3], EncodeBase64(b[3..]));
      assert EncodeBase64(b[..3][3..]) == "";
      assert EncodeBase64(b) == EncodeBase64(b[..3]) + EncodeBase64(b[3..]);
      assert b == b[..3] + b[3..];
    }
  }

  lemma {:induction false} Base64IsAscii(b: Bytes)
    ensures forall i :: 0 <= i < |EncodeBase64(b)| ==> EncodeBase64(b)[i] as int < 128
  {
    if |b| >= 3 {
      Base64IsAscii(b[3..]);
    }
  }

  lemma {:induction false} Base64RoundTrip(b: Bytes)
    ensures DecodeBase64(EncodeBase64(b)) == Some(b)
  {
    Base64IsAscii(b);
    GroupsRoundTrip(b);
  }
}

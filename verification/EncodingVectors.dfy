/**
 The encodings against the standards' own tables: which character or byte stands at each place of an
 encoding, what every padded text decodes to, and the test vectors of RFC 4648 and RFC 3629.
 */
module EncodingVectors {
  import opened Options
  import opened Encodings

  // ---------------------------------------------------------------------------------------
  // Bits
  // ---------------------------------------------------------------------------------------

  /** Bit `n` of a number written in `width` bits, the most significant first. */
  function BitOf(x: nat, width: nat, n: nat): nat
    requires n < width
  {
    if n == width - 1 then x % 2 else BitOf(x / 2, width - 1, n)
  }

  /** Bit `n` of the bytes in a row, and zeros after their end. */
  function Bit(b: Bytes, n: nat): nat {
    if n / 8 < |b| then BitOf(b[n / 8], 8, n % 8) else 0
  }

  /** The number that `count` bits from bit `first` on write. */
  function Number(b: Bytes, first: nat, count: nat): nat {
    if count == 0 then 0 else 2 * Number(b, first, count - 1) + Bit(b, first + count - 1)
  }

  /** The k-th six bits, as a number. */
  function Six(b: Bytes, k: nat): nat {
    Number(b, 6 * k, 6)
  }

  function Power2(w: nat): (p: nat)
    ensures p > 0
  {
    if w == 0 then 1 else 2 * Power2(w - 1)
  }

  lemma Powers()
    ensures Power2(2) == 4 && Power2(4) == 16 && Power2(6) == 64
  {
  }

  /** A number written behind another has its bits behind the other's. */
  lemma {:induction false} Glued(p: nat, q: nat, w: nat, width: nat, n: nat)
    requires w <= width && n < width && q < Power2(w)
    ensures BitOf(p * Power2(w) + q, width, n) ==
              if n < width - w then BitOf(p, width - w, n) else BitOf(q, w, n - (width - w))
  {
    if w > 0 {
      var t := p * Power2(w - 1);
      assert p * Power2(w) + q == 2 * t + q;
      assert (2 * t + q) / 2 == t + q / 2 && (2 * t + q) % 2 == q % 2;
      if n < width - 1 {
        Glued(p, q / 2, w - 1, width - 1, n);
      }
    }
  }

  /** The upper and the lower part of a number, and so its bits. */
  lemma CutAt2(x: nat, width: nat, n: nat)
    requires 2 <= width && n < width
    ensures BitOf(x, width, n) == if n < width - 2 then BitOf(x / 4, width - 2, n) else BitOf(x % 4, 2, n - (width - 2))
  {
    Powers();
    Glued(x / 4, x % 4, 2, width, n);
  }

  lemma CutAt4(x: nat, width: nat, n: nat)
    requires 4 <= width && n < width
    ensures BitOf(x, width, n)
         == if n < width - 4 then BitOf(x / 16, width - 4, n) else BitOf(x % 16, 4, n - (width - 4))
  {
    Powers();
    Glued(x / 16, x % 16, 4, width, n);
  }

  lemma CutAt6(x: nat, width: nat, n: nat)
    requires 6 <= width && n < width
    ensures BitOf(x, width, n)
         == if n < width - 6 then BitOf(x / 64, width - 6, n) else BitOf(x % 64, 6, n - (width - 6))
  {
    Powers();
    Glued(x / 64, x % 64, 6, width, n);
  }

  function At(b: Bytes, i: nat): Byte {
    if i < |b| then b[i] else 0
  }

  lemma {:induction false} NoBits(width: nat, n: nat)
    requires n < width
    ensures BitOf(0, width, n) == 0
  {
    if n < width - 1 {
      NoBits(width - 1, n);
    }
  }

  lemma BitsOfBytes(b: Bytes, i: nat, n: nat)
    requires n < 8
    ensures Bit(b, 8 * i + n) == BitOf(At(b, i), 8, n)
  {
    NoBits(8, n);
  }

  predicate HasBitOf(b: Bytes, first: nat, v: nat, width: nat, n: nat)
    requires n < width
  {
    Bit(b, first + n) == BitOf(v, width, n)
  }

  lemma {:induction false} NumberIs(b: Bytes, first: nat, width: nat, v: nat)
    requires v < Power2(width) && forall n: nat :: n < width ==> HasBitOf(b, first, v, width, n)
    ensures Number(b, first, width) == v
  {
    if width > 0 {
      assert HasBitOf(b, first, v, width, width - 1);
      var upper, w := v / 2, width - 1;
      forall n: nat | n < w ensures HasBitOf(b, first, upper, w, n) {
        assert HasBitOf(b, first, v, width, n);
      }
      NumberIs(b, first, width - 1, v / 2);
    }
  }

  /** The first four groups of six bits, from the first three bytes. */
  lemma FirstSix(b: Bytes)
    ensures Six(b, 0) == At(b, 0) / 4
  {
    var v := At(b, 0) / 4;
    forall n: nat | n < 6 ensures HasBitOf(b, 0, v, 6, n) {
      BitsOfBytes(b, 0, n);
      CutAt2(At(b, 0), 8, n);
    }
    Powers();
    NumberIs(b, 0, 6, v);
  }

  lemma SecondSix(b: Bytes)
    ensures Six(b, 1) == At(b, 0) % 4 * 16 + At(b, 1) / 16
  {
    var p, q := At(b, 0) % 4, At(b, 1) / 16;
    var v := p * 16 + q;
    forall n: nat | n < 6 ensures HasBitOf(b, 6, v, 6, n) {
      Powers();
      Glued(p, q, 4, 6, n);
      if n < 2 {
        BitsOfBytes(b, 0, n + 6);
        CutAt2(At(b, 0), 8, n + 6);
      } else {
        BitsOfBytes(b, 1, n - 2);
        CutAt4(At(b, 1), 8, n - 2);
      }
    }
    Powers();
    NumberIs(b, 6, 6, v);
  }

  lemma ThirdSix(b: Bytes)
    ensures Six(b, 2) == At(b, 1) % 16 * 4 + At(b, 2) / 64
  {
    var p, q := At(b, 1) % 16, At(b, 2) / 64;
    var v := p * 4 + q;
    forall n: nat | n < 6 ensures HasBitOf(b, 12, v, 6, n) {
      Powers();
      Glued(p, q, 2, 6, n);
      if n < 4 {
        BitsOfBytes(b, 1, n + 4);
        CutAt4(At(b, 1), 8, n + 4);
      } else {
        BitsOfBytes(b, 2, n - 4);
        CutAt6(At(b, 2), 8, n - 4);
      }
    }
    Powers();
    NumberIs(b, 12, 6, v);
  }

  lemma FourthSix(b: Bytes)
    ensures Six(b, 3) == At(b, 2) % 64
  {
    var v := At(b, 2) % 64;
    forall n: nat | n < 6 ensures HasBitOf(b, 18, v, 6, n) {
      BitsOfBytes(b, 2, n + 2);
      CutAt6(At(b, 2), 8, n + 2);
    }
    Powers();
    NumberIs(b, 18, 6, v);
  }

  lemma LaterBits(b: Bytes, n: nat)
    requires |b| >= 3
    ensures Bit(b, n + 24) == Bit(b[3..], n)
  {
    assert (n + 24) / 8 == n / 8 + 3 && (n + 24) % 8 == n % 8;
  }

  lemma {:induction false} LaterNumbers(b: Bytes, first: nat, count: nat)
    requires |b| >= 3
    ensures Number(b, first + 24, count) == Number(b[3..], first, count)
  {
    if count > 0 {
      LaterNumbers(b, first, count - 1);
      LaterBits(b, first + count - 1);
    }
  }

  // ---------------------------------------------------------------------------------------
  // Base64
  // ---------------------------------------------------------------------------------------

  /** Table 1 of RFC 4648. */
  const ALPHABET: string := "ABCDEFGHIJKLMNOPQRSTUVWXYZ" + "abcdefghijklmnopqrstuvwxyz" + "0123456789+/"

  lemma AlphabetIsTable(v: Sextet)
    ensures |ALPHABET| == 64 && Symbol(v) == ALPHABET[v]
  {
  }

  predicate HasSymbol(b: Bytes, k: nat) {
    && k < |EncodeBase64(b)| && Six(b, k) < 64
    && EncodeBase64(b)[k] == if 6 * k < 8 * |b| then ALPHABET[Six(b, k)] else '='
  }

  /**
   The k-th symbol of an encoding is the alphabet's character at the value of the k-th six bits, and
   padding fills the last group of four.
   */
  lemma {:induction false} EncodesByAlphabet(b: Bytes)
    ensures |EncodeBase64(b)| == (|b| + 2) / 3 * 4
    ensures forall k: nat :: k < |EncodeBase64(b)| ==> HasSymbol(b, k)
  {
    if |b| > 3 {
      EncodesByAlphabet(b[3..]);
    }
    forall k: nat | k < |EncodeBase64(b)| ensures HasSymbol(b, k) {
      if k < 4 {
        FirstGroup(b, k);
      } else {
        assert HasSymbol(b[3..], k - 4);
        LaterNumbers(b, 6 * (k - 4), 6);
      }
    }
  }

  lemma FirstSymbols(b: Bytes)
    requires b != []
    ensures |EncodeBase64(b)| >= 4
    ensures EncodeBase64(b)[0] == Symbol(At(b, 0) / 4)
    ensures EncodeBase64(b)[1] == Symbol(At(b, 0) % 4 * 16 + At(b, 1) / 16)
    ensures EncodeBase64(b)[2] == if |b| == 1 then '=' else Symbol(At(b, 1) % 16 * 4 + At(b, 2) / 64)
    ensures EncodeBase64(b)[3] == if |b| <= 2 then '=' else Symbol(At(b, 2) % 64)
  {
  }

  lemma FirstGroup(b: Bytes, k: nat)
    requires b != [] && k < 4
    ensures HasSymbol(b, k)
  {
    FirstSymbols(b);
    if k == 0 {
      FirstSix(b);
    } else if k == 1 {
      SecondSix(b);
    } else if k == 2 {
      ThirdSix(b);
    } else {
      FourthSix(b);
    }
    AlphabetIsTable(Six(b, k));
  }

  /** The text is those positions of the alphabet, in order, and then padding. */
  predicate Spells(s: string, vs: seq<Sextet>, pads: nat) {
    && |s| == |vs| + pads
    && (forall k :: 0 <= k < |vs| ==> s[k] == ALPHABET[vs[k]])
    && forall k :: |vs| <= k < |s| ==> s[k] == '='
  }

  predicate IsComplete(n: nat, pads: nat) {
    n % 4 == 0 || (n % 4 == 2 && pads >= 2) || (n % 4 == 3 && pads >= 1)
  }

  /** Every bit of the bytes is the bit at its place in the row of six-bit numbers. */
  predicate HasBits(b: Bytes, vs: seq<Sextet>) {
    && |b| == |vs| * 3 / 4
    && forall n: nat :: n < 8 * |b| ==> IsBitOf(b, vs, n)
  }

  predicate IsBitOf(b: Bytes, vs: seq<Sextet>, n: nat) {
    n / 6 < |vs| && Bit(b, n) == BitOf(vs[n / 6], 6, n % 6)
  }

  /** Characters of the alphabet decode to their positions' bits, once the last group is padded. */
  lemma {:induction false} DecodesIff(s: string, vs: seq<Sextet>, pads: nat)
    requires Spells(s, vs, pads)
    ensures DecodeBase64(s).Some? <==> IsComplete(|vs|, pads)
    ensures DecodeBase64(s).Some? ==> HasBits(DecodeBase64(s).value, vs)
  {
    SpelledIsWritten(s, vs, pads);
    WrittenIsAscii(s, vs, pads);
    GroupsDecodeIff(s, vs, pads);
  }

  /** As in `Spells`, by the encoder's own symbols. */
  predicate Written(s: string, vs: seq<Sextet>, pads: nat) {
    && |s| == |vs| + pads
    && (forall k :: 0 <= k < |vs| ==> s[k] == Symbol(vs[k]))
    && forall k :: |vs| <= k < |s| ==> s[k] == '='
  }

  lemma SpelledIsWritten(s: string, vs: seq<Sextet>, pads: nat)
    requires Spells(s, vs, pads)
    ensures Written(s, vs, pads)
  {
    forall k | 0 <= k < |vs| ensures s[k] == Symbol(vs[k]) {
      AlphabetIsTable(vs[k]);
    }
  }

  lemma WrittenIsAscii(s: string, vs: seq<Sextet>, pads: nat)
    requires Written(s, vs, pads)
    ensures forall k :: 0 <= k < |s| ==> s[k] as int < 128
  {
    forall k | 0 <= k < |s| ensures s[k] as int < 128 {
      if k < |vs| {
        SymbolDecodes(vs[k]);
      }
    }
  }

  predicate DecodesTo(o: Option<Bytes>, vs: seq<Sextet>, pads: nat) {
    && (o.Some? <==> IsComplete(|vs|, pads))
    && (o.Some? ==> HasBits(o.value, vs))
  }

  lemma {:induction false} GroupsDecodeIff(s: string, vs: seq<Sextet>, pads: nat)
    requires Written(s, vs, pads)
    ensures DecodesTo(DecodeGroup(s, 0, 0, 0), vs, pads)
  {
    if |vs| < 4 {
      LastSymbols(s, vs, pads);
    } else {
      FourSymbols(s, vs, pads);
      GroupsDecodeIff(s[4..], vs[4..], pads);
      FourDecode(DecodeGroup(s[4..], 0, 0, 0), vs, pads);
    }
  }

  /** Three bytes before what the rest comes to. */
  function After(first: Bytes, o: Option<Bytes>): Option<Bytes> {
    match o
    case None => None
    case Some(rest) => Some(first + rest)
  }

  lemma FourDecode(o: Option<Bytes>, vs: seq<Sextet>, pads: nat)
    requires |vs| >= 4 && DecodesTo(o, vs[4..], pads)
    ensures DecodesTo(After(Three(vs[0], vs[1], vs[2], vs[3]), o), vs, pads)
  {
    if o.Some? {
      FourThenMore(vs, o.value);
    }
  }

  function Three(v0: Sextet, v1: Sextet, v2: Sextet, v3: Sextet): Bytes {
    [v0 * 4 + v1 / 16, v1 % 16 * 16 + v2 / 4, v2 % 4 * 64 + v3]
  }

  lemma FourSymbols(s: string, vs: seq<Sextet>, pads: nat)
    requires Written(s, vs, pads) && |vs| >= 4
    ensures Written(s[4..], vs[4..], pads)
    ensures DecodeGroup(s, 0, 0, 0) == After(Three(vs[0], vs[1], vs[2], vs[3]), DecodeGroup(s[4..], 0, 0, 0))
  {
    FirstOf(s, vs, pads, 0, 0);
    FirstOf(s[1..], vs[1..], pads, 1, vs[0]);
    FirstOf(s[1..][1..], vs[1..][1..], pads, 2, vs[1] % 16);
    FirstOf(s[1..][1..][1..], vs[1..][1..][1..], pads, 3, vs[2] % 4);
    assert s[1..][1..][1..][1..] == s[4..] && vs[1..][1..][1..][1..] == vs[4..];
    EmitThree(Three(vs[0], vs[1], vs[2], vs[3]), DecodeGroup(s[4..], 0, 0, 0));
  }

  lemma FourThenMore(vs: seq<Sextet>, rest: Bytes)
    requires |vs| >= 4 && HasBits(rest, vs[4..])
    ensures HasBits(Three(vs[0], vs[1], vs[2], vs[3]) + rest, vs)
  {
    var first := Three(vs[0], vs[1], vs[2], vs[3]);
    var b := first + rest;
    assert b[3..] == rest;
    forall n: nat | n < 8 * |b| ensures IsBitOf(b, vs, n) {
      if n < 24 {
        assert At(b, n / 8) == first[n / 8];
        BitsOfThree(vs[0], vs[1], vs[2], vs[3], n);
      } else {
        assert IsBitOf(rest, vs[4..], n - 24);
        LaterBits(b, n - 24);
        assert n / 6 == (n - 24) / 6 + 4 && n % 6 == (n - 24) % 6;
      }
    }
  }

  function FourOf(v0: Sextet, v1: Sextet, v2: Sextet, v3: Sextet, k: nat): Sextet {
    if k == 0 then v0 else if k == 1 then v1 else if k == 2 then v2 else v3
  }

  lemma FirstByte(v0: Sextet, v1: Sextet, n: nat)
    requires n < 8
    ensures BitOf(v0 * 4 + v1 / 16, 8, n) == if n < 6 then BitOf(v0, 6, n) else BitOf(v1, 6, n - 6)
  {
    Powers();
    Glued(v0, v1 / 16, 2, 8, n);
    if n >= 6 {
      CutAt4(v1, 6, n - 6);
    }
  }

  lemma SecondByte(v1: Sextet, v2: Sextet, n: nat)
    requires n < 8
    ensures BitOf(v1 % 16 * 16 + v2 / 4, 8, n) == if n < 4 then BitOf(v1, 6, n + 2) else BitOf(v2, 6, n - 4)
  {
    Powers();
    Glued(v1 % 16, v2 / 4, 4, 8, n);
    if n < 4 {
      CutAt4(v1, 6, n + 2);
    } else {
      CutAt2(v2, 6, n - 4);
    }
  }

  lemma ThirdByte(v2: Sextet, v3: Sextet, n: nat)
    requires n < 8
    ensures BitOf(v2 % 4 * 64 + v3, 8, n) == if n < 2 then BitOf(v2, 6, n + 4) else BitOf(v3, 6, n - 2)
  {
    Powers();
    Glued(v2 % 4, v3, 6, 8, n);
    if n < 2 {
      CutAt2(v2, 6, n + 4);
    }
  }

  lemma BitsOfThree(v0: Sextet, v1: Sextet, v2: Sextet, v3: Sextet, n: nat)
    requires n < 24
    ensures BitOf(Three(v0, v1, v2, v3)[n / 8], 8, n % 8) == BitOf(FourOf(v0, v1, v2, v3, n / 6), 6, n % 6)
  {
    if n < 8 {
      FirstByte(v0, v1, n);
    } else if n < 16 {
      SecondByte(v1, v2, n - 8);
    } else {
      ThirdByte(v2, v3, n - 16);
    }
  }

  lemma {:induction false} OnlyPads(s: string, quad: nat, left: nat, pads: nat)
    requires Carried(quad, left) && quad + pads < 4 && forall k :: 0 <= k < |s| ==> s[k] == '='
    ensures DecodeGroup(s, quad, left, pads) ==
              if quad == 0 || (quad >= 2 && quad + pads + |s| >= 4) then Some([]) else None
  {
    if s != "" && !(quad >= 2 && quad + pads + 1 >= 4) {
      OnlyPads(s[1..], quad, left, if quad >= 2 then pads + 1 else pads);
    }
  }

  /** What an unfinished group comes to: the bytes it completes, if the padding is there. */
  lemma LastDecodes(s: string, vs: seq<Sextet>, pads: nat)
    requires Written(s, vs, pads) && |vs| < 4
    ensures DecodeGroup(s, 0, 0, 0) ==
              if !IsComplete(|vs|, pads) then None
              else if vs == [] then Some([])
              else if |vs| == 2 then Some(Three(vs[0], vs[1], 0, 0)[..1])
              else Some(Three(vs[0], vs[1], vs[2], 0)[..2])
  {
    if vs == [] {
      OnlyPads(s, 0, 0, 0);
    } else {
      FirstOf(s, vs, pads, 0, 0);
      if |vs| == 1 {
        OnlyPads(s[1..], 1, vs[0], 0);
      } else {
        FirstOf(s[1..], vs[1..], pads, 1, vs[0]);
        if |vs| == 2 {
          OnlyPads(s[1..][1..], 2, vs[1] % 16, 0);
          var b := Three(vs[0], vs[1], 0, 0);
          assert [b[0]] + [] == b[..1];
        } else {
          FirstOf(s[1..][1..], vs[1..][1..], pads, 2, vs[1] % 16);
          OnlyPads(s[1..][1..][1..], 3, vs[2] % 4, 0);
          var b := Three(vs[0], vs[1], vs[2], 0);
          assert [b[0]] + ([b[1]] + []) == b[..2];
        }
      }
    }
  }

  lemma FirstOf(s: string, vs: seq<Sextet>, pads: nat, quad: nat, left: nat)
    requires Written(s, vs, pads) && vs != [] && Carried(quad, left)
    ensures Written(s[1..], vs[1..], pads)
    ensures DecodeGroup(s, quad, left, 0) ==
              if quad == 0 then DecodeGroup(s[1..], 1, vs[0], 0)
              else if quad == 1 then Emit(left * 4 + vs[0] / 16, DecodeGroup(s[1..], 2, vs[0] % 16, 0))
              else if quad == 2 then Emit(left * 16 + vs[0] / 4, DecodeGroup(s[1..], 3, vs[0] % 4, 0))
              else Emit(left * 64 + vs[0], DecodeGroup(s[1..], 0, 0, 0))
  {
    GroupStep(vs[0], s[1..], quad, left, 0);
    assert s == [s[0]] + s[1..];
  }

  lemma LastSymbols(s: string, vs: seq<Sextet>, pads: nat)
    requires Written(s, vs, pads) && |vs| < 4
    ensures DecodesTo(DecodeGroup(s, 0, 0, 0), vs, pads)
  {
    LastDecodes(s, vs, pads);
    if |vs| == 2 {
      LastByte(vs);
    } else if |vs| == 3 {
      LastTwoBytes(vs);
    }
  }

  lemma LastByte(vs: seq<Sextet>)
    requires |vs| == 2
    ensures HasBits(Three(vs[0], vs[1], 0, 0)[..1], vs)
  {
    var b := Three(vs[0], vs[1], 0, 0)[..1];
    forall n: nat | n < 8 ensures IsBitOf(b, vs, n) {
      FirstByte(vs[0], vs[1], n);
    }
  }

  lemma LastTwoBytes(vs: seq<Sextet>)
    requires |vs| == 3
    ensures HasBits(Three(vs[0], vs[1], vs[2], 0)[..2], vs)
  {
    var b := Three(vs[0], vs[1], vs[2], 0)[..2];
    forall n: nat | n < 16 ensures IsBitOf(b, vs, n) {
      if n < 8 {
        FirstByte(vs[0], vs[1], n);
      } else {
        SecondByte(vs[1], vs[2], n - 8);
      }
    }
  }

  // ---------------------------------------------------------------------------------------
  // Lenient decoding
  // ---------------------------------------------------------------------------------------

  predicate InAlphabet(c: char) {
    exists v :: 0 <= v < 64 && ALPHABET[v] == c
  }

  predicate IsAscii(s: string) {
    forall i :: 0 <= i < |s| ==> s[i] as int < 128
  }

  lemma OnlyTheAlphabetDecodes(c: char)
    ensures SextetOf(c).Some? <==> InAlphabet(c)
  {
    if SextetOf(c).Some? {
      AlphabetIsTable(SextetOf(c).value);
    }
    if v :| 0 <= v < 64 && ALPHABET[v] == c {
      AlphabetIsTable(v);
      SymbolDecodes(v);
    }
  }

  /** A character that is neither in the alphabet nor padding may stand anywhere. */
  lemma {:induction false} JunkIsSkipped(s: string, c: char, t: string)
    requires c as int < 128 && c != '=' && !InAlphabet(c)
    ensures DecodeBase64(s + [c] + t) == DecodeBase64(s + t)
  {
    OnlyTheAlphabetDecodes(c);
    GroupSkips(s, c, t, 0, 0, 0);
    AsciiTogether(s, [c], t);
  }

  lemma AsciiTogether(s: string, m: string, t: string)
    ensures IsAscii(s + m + t) <==> IsAscii(s) && IsAscii(m) && IsAscii(t)
    ensures IsAscii(s + t) <==> IsAscii(s) && IsAscii(t)
  {
    forall i | 0 <= i < |t| ensures t[i] == (s + m + t)[|s| + |m| + i] && t[i] == (s + t)[|s| + i] {}
    forall i | 0 <= i < |m| ensures m[i] == (s + m + t)[|s| + i] {}
    forall i | 0 <= i < |s| ensures s[i] == (s + m + t)[i] && s[i] == (s + t)[i] {}
  }

  lemma {:induction false} GroupSkips(s: string, c: char, t: string, quad: nat, left: nat, pads: nat)
    requires Carried(quad, left) && c != '=' && SextetOf(c).None?
    ensures DecodeGroup(s + [c] + t, quad, left, pads) == DecodeGroup(s + t, quad, left, pads)
  {
    if s == "" {
      assert (s + [c] + t)[1..] == t == s + t;
    } else {
      assert (s + [c] + t)[1..] == s[1..] + [c] + t && (s + t)[1..] == s[1..] + t;
      if s[0] == '=' {
        if !(quad >= 2 && quad + pads + 1 >= 4) {
          GroupSkips(s[1..], c, t, quad, left, if quad >= 2 then pads + 1 else pads);
        }
      } else if SextetOf(s[0]).None? {
        GroupSkips(s[1..], c, t, quad, left, pads);
      } else {
        var v := SextetOf(s[0]).value;
        GroupSkips(s[1..], c, t, (quad + 1) % 4, LeftAfter(v, quad), 0);
      }
    }
  }

  function LeftAfter(v: Sextet, quad: nat): nat
    requires quad < 4
  {
    if quad == 0 then v else if quad == 1 then v % 16 else if quad == 2 then v % 4 else 0
  }

  ghost predicate SameEnd(t: string, t': string, quad: nat) {
    forall left :: Carried(quad, left) ==> DecodeGroup(t, quad, left, 0) == DecodeGroup(t', quad, left, 0)
  }

  lemma {:induction false} SameAfter(vs: seq<Sextet>, s: string, t: string, t': string, quad: nat, left: nat)
    requires Written(s, vs, 0) && Carried(quad, left) && SameEnd(t, t', (quad + |vs|) % 4)
    ensures DecodeGroup(s + t, quad, left, 0) == DecodeGroup(s + t', quad, left, 0)
  {
    if s == "" {
      assert s + t == t && s + t' == t';
    } else {
      SameAfter(vs[1..], s[1..], t, t', (quad + 1) % 4, LeftAfter(vs[0], quad));
      StepsAlike(vs[0], s[1..] + t, s[1..] + t', quad, left);
      assert [Symbol(vs[0])] + (s[1..] + t) == s + t && [Symbol(vs[0])] + (s[1..] + t') == s + t';
    }
  }

  lemma StepsAlike(v: Sextet, t: string, t': string, quad: nat, left: nat)
    requires Carried(quad, left)
    requires var next, rest := (quad + 1) % 4, LeftAfter(v, quad);
             DecodeGroup(t, next, rest, 0) == DecodeGroup(t', next, rest, 0)
    ensures DecodeGroup([Symbol(v)] + t, quad, left, 0) == DecodeGroup([Symbol(v)] + t', quad, left, 0)
  {
    GroupStep(v, t, quad, left, 0);
    GroupStep(v, t', quad, left, 0);
  }

  /**
   After characters of the alphabet, padding is skipped while fewer than two of a group are there, ends
   the text when it completes the group, and is skipped otherwise if the group goes on.
   */
  lemma PaddingEndsAGroup(s: string, vs: seq<Sextet>, t: string)
    requires Spells(s, vs, 0) && IsAscii(t)
    ensures |vs| % 4 < 2 ==> DecodeBase64(s + "=" + t) == DecodeBase64(s + t)
    ensures |vs| % 4 == 2 ==> DecodeBase64(s + "==" + t) == DecodeBase64(s + "==")
    ensures |vs| % 4 == 2 && t != "" && InAlphabet(t[0]) ==> DecodeBase64(s + "=" + t) == DecodeBase64(s + t)
    ensures |vs| % 4 == 3 ==> DecodeBase64(s + "=" + t) == DecodeBase64(s + "=")
  {
    EndsAlike(t);
    assert s + "=" + t == s + ("=" + t) && s + "==" + t == s + ("==" + t);
    if |vs| % 4 < 2 || (|vs| % 4 == 2 && t != "" && InAlphabet(t[0])) {
      SameDecoding(s, vs, "=" + t, t);
    }
    if |vs| % 4 == 2 {
      SameDecoding(s, vs, "==" + t, "==");
    }
    if |vs| % 4 == 3 {
      SameDecoding(s, vs, "=" + t, "=");
    }
  }

  lemma SameDecoding(s: string, vs: seq<Sextet>, t: string, t': string)
    requires Spells(s, vs, 0) && IsAscii(t) && IsAscii(t') && SameEnd(t, t', |vs| % 4)
    ensures DecodeBase64(s + t) == DecodeBase64(s + t')
  {
    SpelledIsWritten(s, vs, 0);
    WrittenIsAscii(s, vs, 0);
    SameAfter(vs, s, t, t', 0, 0);
  }

  lemma EndsAlike(t: string)
    ensures SameEnd("=" + t, t, 0) && SameEnd("=" + t, t, 1)
    ensures SameEnd("==" + t, "==", 2) && SameEnd("=" + t, "=", 3)
    ensures t != "" && InAlphabet(t[0]) ==> SameEnd("=" + t, t, 2)
  {
    assert ("=" + t)[1..] == t && ("==" + t)[1..] == "=" + t && "=" + "" == "=" && "==" + "" == "==";
    forall left | Carried(2, left) ensures DecodeGroup("==" + t, 2, left, 0) == DecodeGroup("==", 2, left, 0) {
      PadStep(t, left);
      PadStep("", left);
    }
    forall left | Carried(3, left) ensures DecodeGroup("=" + t, 3, left, 0) == DecodeGroup("=", 3, left, 0) {
      PadStep(t, left);
      PadStep("", left);
    }
    if t != "" {
      OnlyTheAlphabetDecodes(t[0]);
    }
  }

  // ---------------------------------------------------------------------------------------
  // UTF-8
  // ---------------------------------------------------------------------------------------

  /** The table in section 3 of RFC 3629: how many octets, in which ranges, and the number they write. */
  predicate IsByTable(b: Bytes, x: int) {
    && (x <= 0x7F ==> |b| == 1 && b[0] as int == x)
    && (0x80 <= x <= 0x7FF ==>
          && |b| == 2 && 0xC0 <= b[0] <= 0xDF && b[0] as int - 0xC0 == x / 64 && IsTail(b[1], x % 64))
    && (0x800 <= x <= 0xFFFF ==>
          && |b| == 3 && 0xE0 <= b[0] <= 0xEF && b[0] as int - 0xE0 == x / 4096
          && IsTail(b[1], x / 64 % 64) && IsTail(b[2], x % 64))
    && (0x1_0000 <= x ==>
          && |b| == 4 && 0xF0 <= b[0] <= 0xF7 && b[0] as int - 0xF0 == x / 262144
          && IsTail(b[1], x / 4096 % 64) && IsTail(b[2], x / 64 % 64) && IsTail(b[3], x % 64))
  }

  lemma OctetsByTable(c: char)
    ensures IsByTable(EncodeUtf8([c]), c as int)
  {
    EncodeCons(c, "");
    assert [c] + "" == [c] && EncodeChar(c) + EncodeUtf8("") == EncodeChar(c);
  }

  /** Six bits of the number, in an octet that continues a character. */
  predicate IsTail(octet: int, six: int) {
    0x80 <= octet <= 0xBF && six == octet - 0x80
  }

  /** Characters are encoded one after the other. */
  lemma {:induction false} Utf8IsInOrder(s: string, t: string)
    ensures EncodeUtf8(s + t) == EncodeUtf8(s) + EncodeUtf8(t)
  {
    if s == "" {
      assert s + t == t;
    } else {
      Utf8IsInOrder(s[1..], t);
      assert (s + t)[0] == s[0] && (s + t)[1..] == s[1..] + t;
    }
  }

  /** Bytes are decodable exactly if they are some text's encoding. */
  lemma Utf8DecodesIff(b: Bytes)
    ensures DecodeUtf8(b).Some? <==> exists s :: EncodeUtf8(s) == b
  {
    if DecodeUtf8(b).Some? {
      Utf8IsCanonical(b);
    }
    if s :| EncodeUtf8(s) == b {
      Utf8RoundTrip(s);
    }
  }

  // ---------------------------------------------------------------------------------------
  // Test vectors
  // ---------------------------------------------------------------------------------------

  /** Section 10 of RFC 4648. */
  lemma Base64Vectors()
    ensures EncodeBase64([]) == "" && DecodeBase64("") == Some([])
    ensures EncodeBase64([0x66]) == "Zg==" && DecodeBase64("Zg==") == Some([0x66])
    ensures EncodeBase64([0x66, 0x6F]) == "Zm8=" && DecodeBase64("Zm8=") == Some([0x66, 0x6F])
  {
    Base64RoundTrip([]);
    Base64RoundTrip([0x66]);
    Base64RoundTrip([0x66, 0x6F]);
  }

  lemma Base64ThreeBytes()
    ensures EncodeBase64([0x66, 0x6F, 0x6F]) == "Zm9v" && DecodeBase64("Zm9v") == Some([0x66, 0x6F, 0x6F])
    ensures EncodeBase64([0x62, 0x61, 0x72]) == "YmFy"
  {
    Base64RoundTrip([0x66, 0x6F, 0x6F]);
  }

  lemma Base64FourBytes()
    ensures EncodeBase64([0x66, 0x6F, 0x6F, 0x62]) == "Zm9vYg=="
    ensures DecodeBase64("Zm9vYg==") == Some([0x66, 0x6F, 0x6F, 0x62])
  {
    var b: Bytes := [0x66, 0x6F, 0x6F, 0x62];
    assert b[3..] == [0x62];
    assert EncodeBase64(b) == "Zm9v" + EncodeBase64(b[3..]);
    Base64RoundTrip(b);
  }

  lemma Base64FiveBytes()
    ensures EncodeBase64([0x66, 0x6F, 0x6F, 0x62, 0x61]) == "Zm9vYmE="
    ensures DecodeBase64("Zm9vYmE=") == Some([0x66, 0x6F, 0x6F, 0x62, 0x61])
  {
    var b: Bytes := [0x66, 0x6F, 0x6F, 0x62, 0x61];
    assert b[3..] == [0x62, 0x61];
    assert EncodeBase64(b) == "Zm9v" + EncodeBase64(b[3..]);
    Base64RoundTrip(b);
  }

  lemma Base64SixBytes()
    ensures EncodeBase64([0x66, 0x6F, 0x6F, 0x62, 0x61, 0x72]) == "Zm9vYmFy"
    ensures DecodeBase64("Zm9vYmFy") == Some([0x66, 0x6F, 0x6F, 0x62, 0x61, 0x72])
  {
    var b: Bytes := [0x66, 0x6F, 0x6F, 0x62, 0x61, 0x72];
    assert b[3..] == [0x62, 0x61, 0x72];
    assert EncodeBase64(b) == "Zm9v" + EncodeBase64(b[3..]);
    Base64ThreeBytes();
    Base64RoundTrip(b);
  }

  /** Section 7 of RFC 3629. */
  lemma Utf8Vectors()
    ensures EncodeUtf8("A\U{2262}\U{391}.") == [0x41, 0xE2, 0x89, 0xA2, 0xCE, 0x91, 0x2E]
    ensures EncodeUtf8("\U{65E5}\U{672C}\U{8A9E}") == [0xE6, 0x97, 0xA5, 0xE6, 0x9C, 0xAC, 0xE8, 0xAA, 0x9E]
    ensures EncodeUtf8("\U{233B4}") == [0xF0, 0xA3, 0x8E, 0xB4]
  {
    NotIdentical();
    Japanese();
    StumpOfTree();
  }

  lemma NotIdentical()
    ensures EncodeUtf8("A\U{2262}\U{391}.") == [0x41, 0xE2, 0x89, 0xA2, 0xCE, 0x91, 0x2E]
  {
    assert EncodeChar('A') == [0x41] && EncodeChar('\U{2262}') == [0xE2, 0x89, 0xA2];
    assert EncodeChar('\U{391}') == [0xCE, 0x91] && EncodeChar('.') == [0x2E];
    EncodeCons('A', "\U{2262}\U{391}.");
    EncodeCons('\U{2262}', "\U{391}.");
    EncodeCons('\U{391}', ".");
    EncodeCons('.', "");
    assert "A\U{2262}\U{391}." == ['A'] + "\U{2262}\U{391}." && "\U{2262}\U{391}." == ['\U{2262}'] + "\U{391}.";
    assert "\U{391}." == ['\U{391}'] + "." && "." == ['.'] + "";
  }

  lemma Japanese()
    ensures EncodeUtf8("\U{65E5}\U{672C}\U{8A9E}") == [0xE6, 0x97, 0xA5, 0xE6, 0x9C, 0xAC, 0xE8, 0xAA, 0x9E]
  {
    assert EncodeChar('\U{65E5}') == [0xE6, 0x97, 0xA5] && EncodeChar('\U{672C}') == [0xE6, 0x9C, 0xAC];
    assert EncodeChar('\U{8A9E}') == [0xE8, 0xAA, 0x9E];
    EncodeCons('\U{65E5}', "\U{672C}\U{8A9E}");
    EncodeCons('\U{672C}', "\U{8A9E}");
    EncodeCons('\U{8A9E}', "");
    assert "\U{65E5}\U{672C}\U{8A9E}" == ['\U{65E5}'] + "\U{672C}\U{8A9E}";
    assert "\U{672C}\U{8A9E}" == ['\U{672C}'] + "\U{8A9E}" && "\U{8A9E}" == ['\U{8A9E}'] + "";
  }

  lemma StumpOfTree()
    ensures EncodeUtf8("\U{233B4}") == [0xF0, 0xA3, 0x8E, 0xB4]
  {
    assert EncodeChar('\U{233B4}') == [0xF0, 0xA3, 0x8E, 0xB4];
    EncodeCons('\U{233B4}', "");
    assert "\U{233B4}" == ['\U{233B4}'] + "";
  }
}

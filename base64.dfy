/**
 * Base 64 encoding as defined in section 4 of RFC 4648: the 64-character
 * alphabet `A-Z a-z 0-9 + /`, each 3-byte group becomes 4 characters, and a
 * final group of 1 or 2 bytes is padded with `=` to 4 characters.
 *
 * `ImageData` stores its payload as this text (`Base64.encode`) and decodes it
 * back in `getBytesArray` (`Base64.decode`).  The decoder is the strict one:
 * it refuses a length that is not a multiple of 4, any character outside the
 * alphabet, padding anywhere but at the end, and non-zero bits in the unused
 * part of the last character (section 3.5 of RFC 4648); a refused text
 * decodes to `None` (Java's `null`).
 */
module Base64 {
  import opened Wrappers
  import opened Bytes

  const Pad: char := '='

  /** A 6-bit value: one character of the encoding. */
  type sextet = v: int | 0 <= v < 64

  /** The character for a 6-bit value (Table 1 of RFC 4648). */
  function Alphabet(v: sextet): (c: char)
    ensures c != Pad
  {
    if v < 26 then (v + 'A' as int) as char
    else if v < 52 then (v - 26 + 'a' as int) as char
    else if v < 62 then (v - 52 + '0' as int) as char
    else if v == 62 then '+'
    else '/'
  }

  /** No two 6-bit values share a character. */
  lemma AlphabetInjective()
    ensures forall v: sextet, w: sextet :: Alphabet(v) == Alphabet(w) ==> v == w
  {
  }

  /** The decoding table: each alphabet character mapped back to its 6-bit value. */
  function Decoding(): map<char, sextet>
  {
    AlphabetInjective();
    map v: sextet :: Alphabet(v) := v
  }

  /** The 6-bit value of an alphabet character, or `None` for any other character. */
  function SextetOf(c: char): Option<sextet>
  {
    if c in Decoding() then Some(Decoding()[c]) else None
  }

  /** Only alphabet characters decode, and each to the value it encodes; `=` is not one of them. */
  lemma SextetOfSome(c: char)
    ensures SextetOf(c).Some? ==> Alphabet(SextetOf(c).value) == c
    ensures SextetOf(Pad) == None
  {
  }

  lemma SextetOfAlphabet(v: sextet)
    ensures SextetOf(Alphabet(v)) == Some(v)
  {
  }

  // How three bytes b0 b1 b2 split into four sextets (8 + 8 + 8 bits = 6 + 6 + 6 + 6 bits), and back.
  function Sextet0(b0: byte): sextet { b0 / 4 }
  function Sextet1(b0: byte, b1: byte): sextet { (b0 % 4) * 16 + b1 / 16 }
  function Sextet2(b1: byte, b2: byte): sextet { (b1 % 16) * 4 + b2 / 64 }
  function Sextet3(b2: byte): sextet { b2 % 64 }

  function Byte0(s0: sextet, s1: sextet): byte { s0 * 4 + s1 / 16 }
  function Byte1(s1: sextet, s2: sextet): byte { (s1 % 16) * 16 + s2 / 4 }
  function Byte2(s2: sextet, s3: sextet): byte { (s2 % 4) * 64 + s3 }

  /** The four characters of the 3-byte group b0 b1 b2. */
  function EncodeGroup(b0: byte, b1: byte, b2: byte): (q: seq<char>)
    ensures |q| == 4 && Pad !in q
  {
    [Alphabet(Sextet0(b0)), Alphabet(Sextet1(b0, b1)), Alphabet(Sextet2(b1, b2)), Alphabet(Sextet3(b2))]
  }

  /**
   * Encodes `b`: full groups first; a final group of one or two bytes is
   * filled with zero bits, and the characters that carry no data become `=`.
   */
  function Encode(b: seq<byte>): (s: seq<char>)
    ensures |b| > 0 ==> |s| >= 4
    ensures |s| % 4 == 0
    ensures forall i :: 0 <= i < |s| - 2 ==> s[i] != Pad
    decreases |b|
  {
    if |b| == 0 then []
    else if |b| == 1 then [Alphabet(Sextet0(b[0])), Alphabet(Sextet1(b[0], 0)), Pad, Pad]
    else if |b| == 2 then [Alphabet(Sextet0(b[0])), Alphabet(Sextet1(b[0], b[1])), Alphabet(Sextet2(b[1], 0)), Pad]
    else EncodeGroup(b[0], b[1], b[2]) + Encode(b[3..])
  }

  /** True of the characters of the alphabet, false of `=` and of every other character. */
  predicate IsData(c: char) { SextetOf(c).Some? }

  /** Decodes a quadruple that carries three bytes (no padding). */
  function DecodeFull(c0: char, c1: char, c2: char, c3: char): (r: Option<seq<byte>>)
    ensures r.Some? ==> |r.value| == 3
  {
    if IsData(c0) && IsData(c1) && IsData(c2) && IsData(c3) then
      var s0, s1, s2, s3 := SextetOf(c0).value, SextetOf(c1).value, SextetOf(c2).value, SextetOf(c3).value;
      Some([Byte0(s0, s1), Byte1(s1, s2), Byte2(s2, s3)])
    else None
  }

  /** Decodes the last quadruple, which may end in one or two `=`. */
  function DecodeLast(c0: char, c1: char, c2: char, c3: char): (r: Option<seq<byte>>)
    ensures r.Some? ==> 1 <= |r.value| <= 3
  {
    if !IsData(c0) || !IsData(c1) then None
    else if IsData(c2) && IsData(c3) then DecodeFull(c0, c1, c2, c3)
    else
      var s0, s1 := SextetOf(c0).value, SextetOf(c1).value;
      if c2 == Pad && c3 == Pad then
        if s1 % 16 != 0 then None else Some([Byte0(s0, s1)])
      else if IsData(c2) && c3 == Pad then
        var s2 := SextetOf(c2).value;
        if s2 % 4 != 0 then None else Some([Byte0(s0, s1), Byte1(s1, s2)])
      else None
  }

  /**
   * Decodes `s`, or `None` when `s` is not the encoding of any byte sequence.
   * Quadruples are taken from the front; a length that is not a multiple of 4
   * leaves 1 to 3 characters over, which are refused.
   */
  function Decode(s: seq<char>): (r: Option<seq<byte>>)
    ensures r.Some? ==> |s| % 4 == 0 && |r.value| <= 3 * (|s| / 4)
    ensures r.Some? && |s| > 0 ==> 3 * (|s| / 4) - 2 <= |r.value|
    decreases |s|
  {
    if |s| == 0 then Some([])
    else if |s| < 4 then None
    else if |s| == 4 then DecodeLast(s[0], s[1], s[2], s[3])
    else
      match (DecodeFull(s[0], s[1], s[2], s[3]), Decode(s[4..]))
      case (Some(head), Some(tail)) => Some(head + tail)
      case _ => None
  }

  /** Every started group of three bytes takes four characters. */
  lemma {:induction false} EncodedLength(b: seq<byte>)
    ensures |Encode(b)| == 4 * ((|b| + 2) / 3)
    decreases |b|
  {
    if |b| == 3 {
      assert |Encode(b)| == 4 + |Encode(b[3..])|;
    } else if |b| > 3 {
      EncodedLength(b[3..]);
      assert |Encode(b)| == 4 + |Encode(b[3..])|;
      assert (|b| + 2) / 3 == (|b[3..]| + 2) / 3 + 1;
    }
  }

  // How the bits of a group move between bytes and sextets, one boundary at a time.

  lemma SplitFirst(b0: byte, b1: byte)
    ensures Sextet1(b0, b1) / 16 == b0 % 4 && Sextet1(b0, b1) % 16 == b1 / 16
  {
  }

  lemma SplitSecond(b1: byte, b2: byte)
    ensures Sextet2(b1, b2) / 4 == b1 % 16 && Sextet2(b1, b2) % 4 == b2 / 64
  {
  }

  lemma JoinFirst(s0: sextet, s1: sextet)
    ensures Byte0(s0, s1) / 4 == s0 && Byte0(s0, s1) % 4 == s1 / 16
  {
  }

  lemma JoinSecond(s1: sextet, s2: sextet)
    ensures Byte1(s1, s2) / 16 == s1 % 16 && Byte1(s1, s2) % 16 == s2 / 4
  {
  }

  lemma JoinThird(s2: sextet, s3: sextet)
    ensures Byte2(s2, s3) / 64 == s2 % 4 && Byte2(s2, s3) % 64 == s3
  {
  }

  /** Three bytes survive the split into sextets. */
  lemma GroupRoundTrip(b0: byte, b1: byte, b2: byte)
    ensures Byte0(Sextet0(b0), Sextet1(b0, b1)) == b0
    ensures Byte1(Sextet1(b0, b1), Sextet2(b1, b2)) == b1
    ensures Byte2(Sextet2(b1, b2), Sextet3(b2)) == b2
    ensures Sextet1(b0, 0) % 16 == 0 && Sextet2(b1, 0) % 4 == 0
  {
    SplitFirst(b0, b1);
    SplitSecond(b1, b2);
    SplitFirst(b0, 0);
    SplitSecond(b1, 0);
  }

  /** Four sextets (with zero unused bits where padding follows) survive the join into bytes. */
  lemma SextetsRoundTrip(s0: sextet, s1: sextet, s2: sextet, s3: sextet)
    ensures Sextet0(Byte0(s0, s1)) == s0
    ensures Sextet1(Byte0(s0, s1), Byte1(s1, s2)) == s1
    ensures Sextet2(Byte1(s1, s2), Byte2(s2, s3)) == s2
    ensures Sextet3(Byte2(s2, s3)) == s3
    ensures s1 % 16 == 0 ==> Sextet1(Byte0(s0, s1), 0) == s1
    ensures s2 % 4 == 0 ==> Sextet2(Byte1(s1, s2), 0) == s2
  {
    JoinFirst(s0, s1);
    JoinSecond(s1, s2);
    JoinThird(s2, s3);
  }

  // Decoding the characters of given sextets, one shape of quadruple at a time.

  lemma DecodeFullSextets(s0: sextet, s1: sextet, s2: sextet, s3: sextet)
    ensures DecodeFull(Alphabet(s0), Alphabet(s1), Alphabet(s2), Alphabet(s3))
         == Some([Byte0(s0, s1), Byte1(s1, s2), Byte2(s2, s3)])
    ensures DecodeLast(Alphabet(s0), Alphabet(s1), Alphabet(s2), Alphabet(s3))
         == Some([Byte0(s0, s1), Byte1(s1, s2), Byte2(s2, s3)])
  {
    SextetOfAlphabet(s0);
    SextetOfAlphabet(s1);
    SextetOfAlphabet(s2);
    SextetOfAlphabet(s3);
  }

  lemma DecodeOneSextets(s0: sextet, s1: sextet)
    requires s1 % 16 == 0
    ensures DecodeLast(Alphabet(s0), Alphabet(s1), Pad, Pad) == Some([Byte0(s0, s1)])
  {
    SextetOfAlphabet(s0);
    SextetOfAlphabet(s1);
  }

  lemma DecodeTwoSextets(s0: sextet, s1: sextet, s2: sextet)
    requires s2 % 4 == 0
    ensures DecodeLast(Alphabet(s0), Alphabet(s1), Alphabet(s2), Pad) == Some([Byte0(s0, s1), Byte1(s1, s2)])
  {
    SextetOfAlphabet(s0);
    SextetOfAlphabet(s1);
    SextetOfAlphabet(s2);
  }

  lemma DecodeGroup(b0: byte, b1: byte, b2: byte)
    ensures var q := EncodeGroup(b0, b1, b2); DecodeFull(q[0], q[1], q[2], q[3]) == Some([b0, b1, b2])
    ensures var q := EncodeGroup(b0, b1, b2); DecodeLast(q[0], q[1], q[2], q[3]) == Some([b0, b1, b2])
  {
    GroupRoundTrip(b0, b1, b2);
    DecodeFullSextets(Sextet0(b0), Sextet1(b0, b1), Sextet2(b1, b2), Sextet3(b2));
  }

  lemma DecodeOneByte(b0: byte)
    ensures DecodeLast(Alphabet(Sextet0(b0)), Alphabet(Sextet1(b0, 0)), Pad, Pad) == Some([b0])
  {
    GroupRoundTrip(b0, 0, 0);
    DecodeOneSextets(Sextet0(b0), Sextet1(b0, 0));
  }

  lemma DecodeTwoBytes(b0: byte, b1: byte)
    ensures DecodeLast(Alphabet(Sextet0(b0)), Alphabet(Sextet1(b0, b1)), Alphabet(Sextet2(b1, 0)), Pad)
         == Some([b0, b1])
  {
    GroupRoundTrip(b0, b1, 0);
    DecodeTwoSextets(Sextet0(b0), Sextet1(b0, b1), Sextet2(b1, 0));
  }

  lemma DecodeLastGroup(b: seq<byte>)
    requires 1 <= |b| <= 3
    ensures var q := Encode(b); DecodeLast(q[0], q[1], q[2], q[3]) == Some(b)
  {
    if |b| == 1 {
      DecodeLastOne(b);
    } else if |b| == 2 {
      DecodeLastTwo(b);
    } else {
      DecodeLastThree(b);
    }
  }

  lemma DecodeLastOne(b: seq<byte>)
    requires |b| == 1
    ensures var q := Encode(b); DecodeLast(q[0], q[1], q[2], q[3]) == Some(b)
  {
    assert b == [b[0]];
    DecodeOneByte(b[0]);
  }

  lemma DecodeLastTwo(b: seq<byte>)
    requires |b| == 2
    ensures var q := Encode(b); DecodeLast(q[0], q[1], q[2], q[3]) == Some(b)
  {
    assert b == [b[0], b[1]];
    DecodeTwoBytes(b[0], b[1]);
  }

  lemma DecodeLastThree(b: seq<byte>)
    requires |b| == 3
    ensures var q := Encode(b); DecodeLast(q[0], q[1], q[2], q[3]) == Some(b)
  {
    assert b == [b[0], b[1], b[2]];
    assert Encode(b) == EncodeGroup(b[0], b[1], b[2]) + Encode(b[3..]);
    assert Encode(b[3..]) == [];
    DecodeGroup(b[0], b[1], b[2]);
  }

  lemma DecodeAppend(q: seq<char>, r: seq<char>, head: seq<byte>, tail: seq<byte>)
    requires |q| == 4 && DecodeFull(q[0], q[1], q[2], q[3]) == Some(head)
    requires |r| > 0 && Decode(r) == Some(tail)
    ensures Decode(q + r) == Some(head + tail)
  {
    var s := q + r;
    assert s[4..] == r;
    assert s[0] == q[0] && s[1] == q[1] && s[2] == q[2] && s[3] == q[3];
  }

  /** Decoding undoes encoding, for every byte sequence. */
  lemma {:induction false} DecodeEncode(b: seq<byte>)
    ensures Decode(Encode(b)) == Some(b)
    decreases |b|
  {
    if |b| == 0 {
    } else if |b| <= 3 {
      DecodeLastGroup(b);
    } else {
      var head, tail := [b[0], b[1], b[2]], b[3..];
      assert b == head + tail;
      DecodeEncode(tail);
      DecodeEncodeFront(b[0], b[1], b[2], tail);
    }
  }

  /** One step of `DecodeEncode`: a first group of three bytes, given the claim for the rest. */
  lemma DecodeEncodeFront(b0: byte, b1: byte, b2: byte, tail: seq<byte>)
    requires |tail| > 0 && Decode(Encode(tail)) == Some(tail)
    ensures Decode(Encode([b0, b1, b2] + tail)) == Some([b0, b1, b2] + tail)
  {
    EncodeAppend([b0, b1, b2], tail);
    DecodeGroup(b0, b1, b2);
    DecodeAppend(EncodeGroup(b0, b1, b2), Encode(tail), [b0, b1, b2], tail);
  }

  // Encoding the bytes that given sextets join into, one shape of quadruple at a time.

  lemma EncodeSextets(s0: sextet, s1: sextet, s2: sextet, s3: sextet)
    ensures EncodeGroup(Byte0(s0, s1), Byte1(s1, s2), Byte2(s2, s3))
         == [Alphabet(s0), Alphabet(s1), Alphabet(s2), Alphabet(s3)]
  {
    SextetsRoundTrip(s0, s1, s2, s3);
  }

  lemma EncodeOneSextets(s0: sextet, s1: sextet)
    requires s1 % 16 == 0
    ensures Encode([Byte0(s0, s1)]) == [Alphabet(s0), Alphabet(s1), Pad, Pad]
  {
    SextetsRoundTrip(s0, s1, 0, 0);
  }

  lemma EncodeTwoSextets(s0: sextet, s1: sextet, s2: sextet)
    requires s2 % 4 == 0
    ensures Encode([Byte0(s0, s1), Byte1(s1, s2)]) == [Alphabet(s0), Alphabet(s1), Alphabet(s2), Pad]
  {
    SextetsRoundTrip(s0, s1, s2, 0);
  }

  lemma EncodeFullGroup(c0: char, c1: char, c2: char, c3: char, x: seq<byte>)
    requires DecodeFull(c0, c1, c2, c3) == Some(x)
    ensures EncodeGroup(x[0], x[1], x[2]) == [c0, c1, c2, c3]
  {
    EncodeSextets(SextetOf(c0).value, SextetOf(c1).value, SextetOf(c2).value, SextetOf(c3).value);
  }

  lemma EncodeLastGroup(c0: char, c1: char, c2: char, c3: char, x: seq<byte>)
    requires DecodeLast(c0, c1, c2, c3) == Some(x)
    ensures Encode(x) == [c0, c1, c2, c3]
  {
    if IsData(c2) && IsData(c3) {
      EncodeFullGroup(c0, c1, c2, c3, x);
      assert Encode(x) == EncodeGroup(x[0], x[1], x[2]) + Encode(x[3..]);
    } else if IsData(c2) {
      EncodeTwoSextets(SextetOf(c0).value, SextetOf(c1).value, SextetOf(c2).value);
    } else {
      EncodeOneSextets(SextetOf(c0).value, SextetOf(c1).value);
    }
  }

  lemma EncodeAppend(head: seq<byte>, tail: seq<byte>)
    requires |head| == 3 && |tail| > 0
    ensures Encode(head + tail) == EncodeGroup(head[0], head[1], head[2]) + Encode(tail)
  {
    var b := head + tail;
    assert b[3..] == tail;
  }

  lemma DecodeSplit(s: seq<char>)
    requires |s| > 4 && Decode(s).Some?
    ensures DecodeFull(s[0], s[1], s[2], s[3]).Some? && Decode(s[4..]).Some?
    ensures Decode(s).value == DecodeFull(s[0], s[1], s[2], s[3]).value + Decode(s[4..]).value
    ensures Decode(s[4..]).value != []
  {
    var t := s[4..];
    if |t| == 4 {
    } else {
      assert DecodeFull(t[0], t[1], t[2], t[3]).Some?;
    }
  }

  /** One step of `EncodeDecode`: a first full quadruple, given the claim for the rest. */
  lemma EncodeDecodeFront(c0: char, c1: char, c2: char, c3: char, head: seq<byte>, rest: seq<char>, tail: seq<byte>)
    requires DecodeFull(c0, c1, c2, c3) == Some(head)
    requires |tail| > 0 && Encode(tail) == rest
    ensures Encode(head + tail) == [c0, c1, c2, c3] + rest
  {
    EncodeFullGroup(c0, c1, c2, c3, head);
    EncodeAppend(head, tail);
  }

  /** The decoder accepts nothing but encodings: a text that decodes is the encoding of what it decodes to. */
  lemma {:induction false} EncodeDecode(s: seq<char>, b: seq<byte>)
    requires Decode(s) == Some(b)
    ensures Encode(b) == s
    decreases |s|, 1
  {
    if |s| == 0 {
    } else if |s| == 4 {
      EncodeLastGroup(s[0], s[1], s[2], s[3], b);
      assert s == [s[0], s[1], s[2], s[3]];
    } else {
      EncodeDecodeLong(s, b);
    }
  }

  /** `EncodeDecode` for a text of more than one quadruple: the first one, then the rest. */
  lemma {:induction false} EncodeDecodeLong(s: seq<char>, b: seq<byte>)
    requires |s| > 4 && Decode(s) == Some(b)
    ensures Encode(b) == s
    decreases |s|, 0
  {
    DecodeSplit(s);
    var head := DecodeFull(s[0], s[1], s[2], s[3]).value;
    var rest := s[4..];
    var tail := Decode(rest).value;
    EncodeDecode(rest, tail);
    EncodeDecodeFront(s[0], s[1], s[2], s[3], head, rest, tail);
    SplitFour(s);
  }

  lemma SplitFour(s: seq<char>)
    requires |s| > 4
    ensures s == [s[0], s[1], s[2], s[3]] + s[4..]
  {
    assert s[..4] == [s[0], s[1], s[2], s[3]];
    assert s == s[..4] + s[4..];
  }
}

/**
  Base 64 encoding as section 4 of RFC 4648 defines it and Python's
  `base64.b64encode` implements it: the standard alphabet
  `A-Z a-z 0-9 + /`, each group of three bytes becomes four characters, a
  final group of one or two bytes is completed with `=` padding, and no line
  breaks are inserted.

  `Decode` is the strict inverse: it accepts exactly the canonical
  encodings (section 3.5 of RFC 4648: the unused bits before the padding
  are zero), so that decoding and encoding are proved to be mutually
  inverse.
*/
module Base64 {
  import opened Wrappers

  newtype byte = x: int | 0 <= x < 256

  /** Characters of the alphabet of section 4 of RFC 4648 (padding
      excluded). */
  predicate IsAlphabetChar(c: char) {
    ('A' <= c <= 'Z') || ('a' <= c <= 'z') || ('0' <= c <= '9') || c == '+' || c == '/'
  }

  /** The alphabet of Table 1 in section 4 of RFC 4648. */
  function IndexToChar(i: int): (c: char)
    requires 0 <= i < 64
    ensures IsAlphabetChar(c)
  {
    if i < 26 then ('A' as int + i) as char
    else if i < 52 then ('a' as int + i - 26) as char
    else if i < 62 then ('0' as int + i - 52) as char
    else if i == 62 then '+'
    else '/'
  }

  /** The value a character of the alphabet stands for. */
  function CharToIndex(c: char): (i: int)
    requires IsAlphabetChar(c)
    ensures 0 <= i < 64 && IndexToChar(i) == c
  {
    if 'A' <= c <= 'Z' then c as int - 'A' as int
    else if 'a' <= c <= 'z' then c as int - 'a' as int + 26
    else if '0' <= c <= '9' then c as int - '0' as int + 52
    else if c == '+' then 62
    else 63
  }

  /** Distinct values have distinct characters. */
  lemma IndexRoundTrip(i: int)
    requires 0 <= i < 64
    ensures CharToIndex(IndexToChar(i)) == i
  {
  }

  /** Three bytes, 24 bits, as four 6-bit characters. */
  function EncodeTriple(b0: byte, b1: byte, b2: byte): string {
    var x0, x1, x2 := b0 as int, b1 as int, b2 as int;
    [IndexToChar(x0 / 4), IndexToChar((x0 % 4) * 16 + x1 / 16),
     IndexToChar((x1 % 16) * 4 + x2 / 64), IndexToChar(x2 % 64)]
  }

  /** Two final bytes: three characters and one `=`. */
  function EncodePair(b0: byte, b1: byte): string {
    var x0, x1 := b0 as int, b1 as int;
    [IndexToChar(x0 / 4), IndexToChar((x0 % 4) * 16 + x1 / 16), IndexToChar((x1 % 16) * 4), '=']
  }

  /** One final byte: two characters and `==`. */
  function EncodeSingle(b0: byte): string {
    var x0 := b0 as int;
    [IndexToChar(x0 / 4), IndexToChar((x0 % 4) * 16), '=', '=']
  }

  /** `base64.b64encode(data)`, as a string. */
  function Encode(data: seq<byte>): string
    decreases |data|
  {
    if |data| == 0 then ""
    else if |data| == 1 then EncodeSingle(data[0])
    else if |data| == 2 then EncodePair(data[0], data[1])
    else EncodeTriple(data[0], data[1], data[2]) + Encode(data[3..])
  }

  /** The encoding of `n` bytes has `4 * ceil(n / 3)` characters. */
  lemma {:induction false} EncodeLength(data: seq<byte>)
    ensures |Encode(data)| == 4 * ((|data| + 2) / 3)
    decreases |data|
  {
    if |data| > 2 {
      EncodeLength(data[3..]);
      assert (|data| + 2) / 3 == (|data[3..]| + 2) / 3 + 1;
    }
  }

  /** How many `=` end the encoding of `n` bytes. */
  function PaddingLength(n: nat): nat {
    (3 - n % 3) % 3
  }

  /** `s` consists of alphabet characters followed by `pad` characters
      `=`, with at most two of them. */
  predicate PaddedLayout(s: string, pad: nat) {
    && pad <= 2 && pad <= |s|
    && (forall i :: 0 <= i < |s| - pad ==> IsAlphabetChar(s[i]))
    && (forall i :: |s| - pad <= i < |s| ==> s[i] == '=')
  }

  /** Three more bytes need the same padding. */
  lemma PaddingStep(n: nat)
    ensures PaddingLength(n + 3) == PaddingLength(n)
  {
    assert (n + 3) % 3 == n % 3;
  }

  /** Every character of an encoding is in the alphabet except the final
      0, 1 or 2 padding characters, which are `=`. */
  lemma {:induction false} EncodeAlphabet(data: seq<byte>)
    ensures PaddedLayout(Encode(data), PaddingLength(|data|))
    decreases |data|
  {
    if |data| == 1 {
      assert PaddingLength(1) == 2 && Encode(data) == EncodeSingle(data[0]);
      SingleLayout(data[0]);
    } else if |data| == 2 {
      assert PaddingLength(2) == 1 && Encode(data) == EncodePair(data[0], data[1]);
      PairLayout(data[0], data[1]);
    } else if |data| > 2 {
      var head, tail := EncodeTriple(data[0], data[1], data[2]), data[3..];
      EncodeAlphabet(tail);
      PaddingStep(|tail|);
      assert Encode(data) == head + Encode(tail);
      assert IsAlphabetChar(head[0]) && IsAlphabetChar(head[1]) && IsAlphabetChar(head[2]) && IsAlphabetChar(head[3]);
      GroupLayout(head, Encode(tail), PaddingLength(|tail|));
    }
  }

  /** The encoding of one byte ends with two `=`. */
  lemma SingleLayout(b0: byte)
    ensures PaddedLayout(EncodeSingle(b0), 2)
  {
    var s := EncodeSingle(b0);
    assert IsAlphabetChar(s[0]) && IsAlphabetChar(s[1]) && s[2] == '=' && s[3] == '=';
  }

  /** The encoding of two bytes ends with one `=`. */
  lemma PairLayout(b0: byte, b1: byte)
    ensures PaddedLayout(EncodePair(b0, b1), 1)
  {
    var s := EncodePair(b0, b1);
    assert IsAlphabetChar(s[0]) && IsAlphabetChar(s[1]) && IsAlphabetChar(s[2]) && s[3] == '=';
  }

  /** A group of four alphabet characters in front of a laid-out text keeps
      the layout. */
  lemma GroupLayout(head: string, tail: string, pad: nat)
    requires |head| == 4 && forall i :: 0 <= i < 4 ==> IsAlphabetChar(head[i])
    requires PaddedLayout(tail, pad)
    ensures PaddedLayout(head + tail, pad)
  {
    var s := head + tail;
    forall i | 4 <= i < |s| ensures s[i] == tail[i - 4] {
    }
  }

  /** The three bytes four characters stand for; no character is `=`. */
  function DecodeQuad(c0: int, c1: int, c2: int, c3: int): seq<byte>
    requires 0 <= c0 < 64 && 0 <= c1 < 64 && 0 <= c2 < 64 && 0 <= c3 < 64
  {
    [(c0 * 4 + c1 / 16) as byte, ((c1 % 16) * 16 + c2 / 4) as byte, ((c2 % 4) * 64 + c3) as byte]
  }

  /** The final group of four characters: a full group, `xxx=` or `xx==`.
      Padding is accepted only when the bits it leaves unused are zero. */
  function DecodeLast(q: string): Option<seq<byte>>
    requires |q| == 4
  {
    if !IsAlphabetChar(q[0]) || !IsAlphabetChar(q[1]) then None
    else
      var c0, c1 := CharToIndex(q[0]), CharToIndex(q[1]);
      if IsAlphabetChar(q[2]) && IsAlphabetChar(q[3]) then
        Some(DecodeQuad(c0, c1, CharToIndex(q[2]), CharToIndex(q[3])))
      else if IsAlphabetChar(q[2]) && q[3] == '=' && CharToIndex(q[2]) % 4 == 0 then
        Some(DecodeQuad(c0, c1, CharToIndex(q[2]), 0)[..2])
      else if q[2] == '=' && q[3] == '=' && c1 % 16 == 0 then
        Some(DecodeQuad(c0, c1, 0, 0)[..1])
      else None
  }

  /** Strict decoding: `None` for anything `Encode` cannot produce. */
  function Decode(s: string): Option<seq<byte>>
    decreases |s|
  {
    if s == [] then Some([])
    else if |s| < 4 then None
    else if |s| == 4 then DecodeLast(s)
    else if IsAlphabetChar(s[0]) && IsAlphabetChar(s[1])
         && IsAlphabetChar(s[2]) && IsAlphabetChar(s[3]) then
      match Decode(s[4..])
      case None => None
      case Some(rest) =>
        Some(DecodeQuad(CharToIndex(s[0]), CharToIndex(s[1]), CharToIndex(s[2]), CharToIndex(s[3])) + rest)
    else None
  }

  /** Splitting three bytes into sextets and joining them back is the
      identity. */
  lemma TripleRoundTrip(x0: int, x1: int, x2: int)
    requires 0 <= x0 < 256 && 0 <= x1 < 256 && 0 <= x2 < 256
    ensures var c0, c1, c2, c3 := x0 / 4, (x0 % 4) * 16 + x1 / 16, (x1 % 16) * 4 + x2 / 64, x2 % 64;
      && 0 <= c1 < 64 && 0 <= c2 < 64
      && c0 * 4 + c1 / 16 == x0
      && (c1 % 16) * 16 + c2 / 4 == x1
      && (c2 % 4) * 64 + c3 == x2
  {
    var c1, c2 := (x0 % 4) * 16 + x1 / 16, (x1 % 16) * 4 + x2 / 64;
    assert c1 / 16 == x0 % 4 && c1 % 16 == x1 / 16;
    assert c2 / 4 == x1 % 16 && c2 % 4 == x2 / 64;
  }

  /** Joining four sextets into bytes and splitting them back is the
      identity. */
  lemma QuadRoundTrip(c0: int, c1: int, c2: int, c3: int)
    requires 0 <= c0 < 64 && 0 <= c1 < 64 && 0 <= c2 < 64 && 0 <= c3 < 64
    ensures var x0, x1, x2 := c0 * 4 + c1 / 16, (c1 % 16) * 16 + c2 / 4, (c2 % 4) * 64 + c3;
      && 0 <= x0 < 256 && 0 <= x1 < 256 && 0 <= x2 < 256
      && x0 / 4 == c0
      && (x0 % 4) * 16 + x1 / 16 == c1
      && (x1 % 16) * 4 + x2 / 64 == c2
      && x2 % 64 == c3
  {
    var x0, x1, x2 := c0 * 4 + c1 / 16, (c1 % 16) * 16 + c2 / 4, (c2 % 4) * 64 + c3;
    assert x0 / 4 == c0 && x0 % 4 == c1 / 16;
    assert x1 / 16 == c1 % 16 && x1 % 16 == c2 / 4;
    assert x2 / 64 == c2 % 4 && x2 % 64 == c3;
  }

  /** Splitting one byte into sextets and joining them back is the
      identity. */
  lemma DecodeSingle(b0: byte)
    ensures DecodeLast(EncodeSingle(b0)) == Some([b0])
  {
    var x0 := b0 as int;
    TripleRoundTrip(x0, 0, 0);
    IndexRoundTrip(x0 / 4);
    IndexRoundTrip((x0 % 4) * 16);
    assert DecodeQuad(x0 / 4, (x0 % 4) * 16, 0, 0)[..1] == [b0];
  }

  /** Splitting two bytes into sextets and joining them back is the
      identity. */
  lemma DecodePair(b0: byte, b1: byte)
    ensures DecodeLast(EncodePair(b0, b1)) == Some([b0, b1])
  {
    var x0, x1 := b0 as int, b1 as int;
    var c0, c1, c2 := x0 / 4, (x0 % 4) * 16 + x1 / 16, (x1 % 16) * 4;
    TripleRoundTrip(x0, x1, 0);
    assert c2 % 4 == 0 by { MultipleOfFour(x1 % 16); }
    IndexRoundTrip(c0);
    IndexRoundTrip(c1);
    IndexRoundTrip(c2);
    var q := EncodePair(b0, b1);
    assert q[0] == IndexToChar(c0) && q[1] == IndexToChar(c1) && q[2] == IndexToChar(c2) && q[3] == '=';
    assert DecodeLast(q) == Some(DecodeQuad(c0, c1, c2, 0)[..2]);
    assert DecodeQuad(c0, c1, c2, 0)[..2] == [b0, b1];
  }

  /** Four times a number leaves no remainder modulo 4. */
  lemma MultipleOfFour(k: int)
    ensures (k * 4) % 4 == 0
  {
  }

  /** The four characters of a full group are in the alphabet and stand
      for the three bytes encoded. */
  lemma DecodeTriple(b0: byte, b1: byte, b2: byte)
    ensures var q := EncodeTriple(b0, b1, b2);
      && IsAlphabetChar(q[0]) && IsAlphabetChar(q[1]) && IsAlphabetChar(q[2]) && IsAlphabetChar(q[3])
      && DecodeQuad(CharToIndex(q[0]), CharToIndex(q[1]), CharToIndex(q[2]), CharToIndex(q[3])) == [b0, b1, b2]
  {
    var x0, x1, x2 := b0 as int, b1 as int, b2 as int;
    TripleRoundTrip(x0, x1, x2);
    IndexRoundTrip(x0 / 4);
    IndexRoundTrip((x0 % 4) * 16 + x1 / 16);
    IndexRoundTrip((x1 % 16) * 4 + x2 / 64);
    IndexRoundTrip(x2 % 64);
  }

  /** The round trip for one, two or three bytes. */
  lemma DecodeEncodeOne(b0: byte)
    ensures Decode(Encode([b0])) == Some([b0])
  {
    assert Encode([b0]) == EncodeSingle(b0);
    DecodeSingle(b0);
  }

  lemma DecodeEncodeTwo(b0: byte, b1: byte)
    ensures Decode(Encode([b0, b1])) == Some([b0, b1])
  {
    assert Encode([b0, b1]) == EncodePair(b0, b1);
    DecodePair(b0, b1);
  }

  lemma DecodeEncodeThree(b0: byte, b1: byte, b2: byte)
    ensures Decode(Encode([b0, b1, b2])) == Some([b0, b1, b2])
  {
    var q := EncodeTriple(b0, b1, b2);
    assert Encode([b0, b1, b2]) == q + Encode([]);
    assert q + "" == q;
    DecodeTriple(b0, b1, b2);
  }

  /** A full group followed by more text decodes to its three bytes
      followed by the decoding of the rest. */
  lemma DecodeFullGroup(q: string, t: string)
    requires |q| == 4 && t != []
    requires IsAlphabetChar(q[0]) && IsAlphabetChar(q[1]) && IsAlphabetChar(q[2]) && IsAlphabetChar(q[3])
    ensures Decode(q + t) == match Decode(t)
      case None => None
      case Some(rest) =>
        Some(DecodeQuad(CharToIndex(q[0]), CharToIndex(q[1]), CharToIndex(q[2]), CharToIndex(q[3])) + rest)
  {
    var s := q + t;
    assert s[..4] == q && s[4..] == t;
    assert s[0] == q[0] && s[1] == q[1] && s[2] == q[2] && s[3] == q[3];
  }

  /** The round trip for a full group in front of a tail whose round trip
      holds. */
  lemma DecodeEncodeStep(b0: byte, b1: byte, b2: byte, rest: seq<byte>)
    requires rest != [] && Decode(Encode(rest)) == Some(rest)
    ensures Decode(Encode([b0, b1, b2] + rest)) == Some([b0, b1, b2] + rest)
  {
    var data := [b0, b1, b2] + rest;
    assert data[0] == b0 && data[1] == b1 && data[2] == b2 && data[3..] == rest;
    var head, tail := EncodeTriple(b0, b1, b2), Encode(rest);
    assert Encode(data) == head + tail;
    DecodeTriple(b0, b1, b2);
    DecodeFullGroup(head, tail);
  }

  /** Decoding an encoding gives back the original bytes. */
  lemma {:induction false} DecodeEncode(data: seq<byte>)
    ensures Decode(Encode(data)) == Some(data)
    decreases |data|
  {
    if |data| == 1 {
      assert data == [data[0]];
      DecodeEncodeOne(data[0]);
    } else if |data| == 2 {
      assert data == [data[0], data[1]];
      DecodeEncodeTwo(data[0], data[1]);
    } else if |data| == 3 {
      assert data == [data[0], data[1], data[2]];
      DecodeEncodeThree(data[0], data[1], data[2]);
    } else if |data| > 3 {
      assert data == [data[0], data[1], data[2]] + data[3..];
      DecodeEncode(data[3..]);
      DecodeEncodeStep(data[0], data[1], data[2], data[3..]);
    }
  }

  /** Re-encoding the bytes of a full group gives its four characters. */
  lemma EncodeQuad(c0: int, c1: int, c2: int, c3: int)
    requires 0 <= c0 < 64 && 0 <= c1 < 64 && 0 <= c2 < 64 && 0 <= c3 < 64
    ensures var d := DecodeQuad(c0, c1, c2, c3);
      EncodeTriple(d[0], d[1], d[2]) == [IndexToChar(c0), IndexToChar(c1), IndexToChar(c2), IndexToChar(c3)]
  {
    QuadRoundTrip(c0, c1, c2, c3);
    var d := DecodeQuad(c0, c1, c2, c3);
    var x0, x1, x2 := d[0] as int, d[1] as int, d[2] as int;
    assert x0 == c0 * 4 + c1 / 16 && x1 == (c1 % 16) * 16 + c2 / 4 && x2 == (c2 % 4) * 64 + c3;
    assert x0 / 4 == c0 && (x0 % 4) * 16 + x1 / 16 == c1;
    assert (x1 % 16) * 4 + x2 / 64 == c2 && x2 % 64 == c3;
  }

  /** Re-encoding the bytes of a group `xxx=` gives it back. */
  lemma EncodeQuadPair(c0: int, c1: int, c2: int)
    requires 0 <= c0 < 64 && 0 <= c1 < 64 && 0 <= c2 < 64 && c2 % 4 == 0
    ensures var d := DecodeQuad(c0, c1, c2, 0);
      EncodePair(d[0], d[1]) == [IndexToChar(c0), IndexToChar(c1), IndexToChar(c2), '=']
  {
    QuadRoundTrip(c0, c1, c2, 0);
    var d := DecodeQuad(c0, c1, c2, 0);
    var x0, x1 := d[0] as int, d[1] as int;
    assert x0 == c0 * 4 + c1 / 16 && x1 == (c1 % 16) * 16 + c2 / 4;
    assert x0 / 4 == c0 && (x0 % 4) * 16 + x1 / 16 == c1;
    assert (x1 % 16) * 4 == c2;
  }

  /** Re-encoding the byte of a group `xx==` gives it back. */
  lemma EncodeQuadSingle(c0: int, c1: int)
    requires 0 <= c0 < 64 && 0 <= c1 < 64 && c1 % 16 == 0
    ensures Encode(DecodeQuad(c0, c1, 0, 0)[..1]) == [IndexToChar(c0), IndexToChar(c1), '=', '=']
  {
    QuadRoundTrip(c0, c1, 0, 0);
    var b0 := DecodeQuad(c0, c1, 0, 0)[0];
    var x0 := b0 as int;
    assert x0 == c0 * 4 + c1 / 16;
    assert x0 / 4 == c0 && (x0 % 4) * 16 == c1;
    assert DecodeQuad(c0, c1, 0, 0)[..1] == [b0];
    assert Encode([b0]) == EncodeSingle(b0);
  }

  /** Whatever a final group decodes to re-encodes to that group. */
  lemma EncodeDecodeLast(q: string, data: seq<byte>)
    requires |q| == 4 && DecodeLast(q) == Some(data)
    ensures Encode(data) == q
  {
    if IsAlphabetChar(q[2]) && IsAlphabetChar(q[3]) {
      EncodeDecodeFull(q, data);
    } else if IsAlphabetChar(q[2]) && q[3] == '=' {
      EncodeDecodePadded(q, data);
    } else {
      var c0, c1 := CharToIndex(q[0]), CharToIndex(q[1]);
      EncodeQuadSingle(c0, c1);
      assert q == [IndexToChar(c0), IndexToChar(c1), '=', '='];
    }
  }

  /** A final group without padding. */
  lemma EncodeDecodeFull(q: string, data: seq<byte>)
    requires |q| == 4 && IsAlphabetChar(q[0]) && IsAlphabetChar(q[1]) && IsAlphabetChar(q[2]) && IsAlphabetChar(q[3])
    requires data == DecodeQuad(CharToIndex(q[0]), CharToIndex(q[1]), CharToIndex(q[2]), CharToIndex(q[3]))
    ensures Encode(data) == q
  {
    var c0, c1, c2, c3 := CharToIndex(q[0]), CharToIndex(q[1]), CharToIndex(q[2]), CharToIndex(q[3]);
    var r := [IndexToChar(c0), IndexToChar(c1), IndexToChar(c2), IndexToChar(c3)];
    assert r == q by {
      assert r[0] == q[0] && r[1] == q[1] && r[2] == q[2] && r[3] == q[3];
    }
    EncodeQuad(c0, c1, c2, c3);
    assert data == [data[0], data[1], data[2]];
    assert Encode(data) == EncodeTriple(data[0], data[1], data[2]) + "";
  }

  /** A final group `xxx=`. */
  lemma EncodeDecodePadded(q: string, data: seq<byte>)
    requires |q| == 4 && IsAlphabetChar(q[0]) && IsAlphabetChar(q[1]) && IsAlphabetChar(q[2]) && q[3] == '='
    requires CharToIndex(q[2]) % 4 == 0
    requires data == DecodeQuad(CharToIndex(q[0]), CharToIndex(q[1]), CharToIndex(q[2]), 0)[..2]
    ensures Encode(data) == q
  {
    EncodeQuadPair(CharToIndex(q[0]), CharToIndex(q[1]), CharToIndex(q[2]));
    assert data == [data[0], data[1]];
    assert q == [q[0], q[1], q[2], q[3]];
  }

  /** Re-encoding a full group in front of a tail that re-encodes. */
  lemma EncodeDecodeStep(q: string, t: string, rest: seq<byte>)
    requires |q| == 4 && rest != [] && Encode(rest) == t
    requires IsAlphabetChar(q[0]) && IsAlphabetChar(q[1]) && IsAlphabetChar(q[2]) && IsAlphabetChar(q[3])
    ensures Encode(DecodeQuad(CharToIndex(q[0]), CharToIndex(q[1]), CharToIndex(q[2]), CharToIndex(q[3])) + rest)
      == q + t
  {
    var c0, c1, c2, c3 := CharToIndex(q[0]), CharToIndex(q[1]), CharToIndex(q[2]), CharToIndex(q[3]);
    var r := [IndexToChar(c0), IndexToChar(c1), IndexToChar(c2), IndexToChar(c3)];
    assert r == q by {
      assert r[0] == q[0] && r[1] == q[1] && r[2] == q[2] && r[3] == q[3];
    }
    EncodeGroupStep(c0, c1, c2, c3, rest);
  }

  /** The bytes of four sextets in front of more bytes encode to the four
      characters in front of the encoding of the rest. */
  lemma EncodeGroupStep(c0: int, c1: int, c2: int, c3: int, rest: seq<byte>)
    requires 0 <= c0 < 64 && 0 <= c1 < 64 && 0 <= c2 < 64 && 0 <= c3 < 64 && rest != []
    ensures Encode(DecodeQuad(c0, c1, c2, c3) + rest)
      == [IndexToChar(c0), IndexToChar(c1), IndexToChar(c2), IndexToChar(c3)] + Encode(rest)
  {
    var d := DecodeQuad(c0, c1, c2, c3);
    EncodeQuad(c0, c1, c2, c3);
    var data := d + rest;
    assert data[0] == d[0] && data[1] == d[1] && data[2] == d[2] && data[3..] == rest;
  }

  /** Whatever decodes re-encodes to exactly the same text: `Decode`
      accepts the canonical encodings and nothing else. */
  lemma {:induction false} EncodeDecode(s: string, data: seq<byte>)
    requires Decode(s) == Some(data)
    ensures Encode(data) == s
    decreases |s|
  {
    if |s| == 4 {
      EncodeDecodeLast(s, data);
    } else if |s| > 4 {
      var q, t := s[..4], s[4..];
      assert q[0] == s[0] && q[1] == s[1] && q[2] == s[2] && q[3] == s[3];
      var rest := Decode(t).value;
      EncodeDecode(t, rest);
      DecodeNonEmpty(t);
      EncodeDecodeStep(q, t, rest);
      assert s == q + t;
    }
  }

  /** A successful decoding has three bytes per four characters, less the
      padding. */
  lemma DecodedLength(s: string, data: seq<byte>)
    requires Decode(s) == Some(data)
    ensures |s| % 4 == 0
    ensures |s| == 4 * ((|data| + 2) / 3)
  {
    EncodeDecode(s, data);
    EncodeLength(data);
    var groups := (|data| + 2) / 3;
    assert |s| == groups * 4;
    MultipleOfFour(groups);
  }

  /** A non-empty text decodes, if at all, to at least one byte. */
  lemma DecodeNonEmpty(s: string)
    requires s != [] && Decode(s).Some?
    ensures Decode(s).value != []
  {
    if |s| == 4 {
      DecodeLastLength(s);
    }
  }

  /** A final group decodes to one, two or three bytes. */
  lemma DecodeLastLength(q: string)
    requires |q| == 4 && DecodeLast(q).Some?
    ensures 1 <= |DecodeLast(q).value| <= 3
  {
  }

  /** The encoding determines the bytes. */
  lemma EncodeInjective(a: seq<byte>, b: seq<byte>)
    requires Encode(a) == Encode(b)
    ensures a == b
  {
    DecodeEncode(a);
    DecodeEncode(b);
  }

  /** The test vectors of section 10 of RFC 4648. */
  lemma RfcVectors()
    ensures Encode([102]) == "Zg=="
    ensures Encode([102, 111]) == "Zm8="
    ensures Encode([102, 111, 111]) == "Zm9v"
    ensures Encode([102, 111, 111, 98, 97, 114]) == "Zm9vYmFy"
  {
    VectorF();
    VectorFo();
    VectorFoo();
    VectorFoobar();
  }

  lemma VectorF()
    ensures Encode([102]) == "Zg=="
  {
    assert IndexToChar(25) == 'Z' && IndexToChar(32) == 'g';
    assert EncodeSingle(102) == ['Z', 'g', '=', '='];
  }

  lemma VectorFo()
    ensures Encode([102, 111]) == "Zm8="
  {
    assert IndexToChar(25) == 'Z' && IndexToChar(38) == 'm' && IndexToChar(60) == '8';
    assert EncodePair(102, 111) == ['Z', 'm', '8', '='];
  }

  lemma VectorFoo()
    ensures Encode([102, 111, 111]) == "Zm9v"
  {
    assert 102 / 4 == 25 && (102 % 4) * 16 + 111 / 16 == 38 && (111 % 16) * 4 + 111 / 64 == 61 && 111 % 64 == 47;
    assert IndexToChar(25) == 'Z' && IndexToChar(38) == 'm' && IndexToChar(61) == '9' && IndexToChar(47) == 'v';
    OneGroup(102, 111, 111);
  }

  lemma VectorBar()
    ensures Encode([98, 97, 114]) == "YmFy"
  {
    assert 98 / 4 == 24 && (98 % 4) * 16 + 97 / 16 == 38 && (97 % 16) * 4 + 114 / 64 == 5 && 114 % 64 == 50;
    assert IndexToChar(24) == 'Y' && IndexToChar(38) == 'm' && IndexToChar(5) == 'F' && IndexToChar(50) == 'y';
    OneGroup(98, 97, 114);
  }

  /** Three bytes are one group without padding. */
  lemma OneGroup(b0: byte, b1: byte, b2: byte)
    ensures Encode([b0, b1, b2]) == EncodeTriple(b0, b1, b2)
  {
    assert Encode([b0, b1, b2]) == EncodeTriple(b0, b1, b2) + Encode([]);
  }

  lemma VectorFoobar()
    ensures Encode([102, 111, 111, 98, 97, 114]) == "Zm9vYmFy"
  {
    VectorFoo();
    VectorBar();
    var foobar: seq<byte> := [102, 111, 111, 98, 97, 114];
    assert foobar[..3] == [102, 111, 111] && foobar[3..] == [98, 97, 114];
    OneGroup(102, 111, 111);
    assert Encode(foobar) == EncodeTriple(102, 111, 111) + Encode([98, 97, 114]);
  }
}

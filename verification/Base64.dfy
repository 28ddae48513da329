/** Base64 with the standard alphabet (RFC 4648 section 4), with and without padding. */
module Base64 {
  import opened Bytes

  const PAD: byte := 61

  /** The alphabet of RFC 4648 table 1. */
  function Char(v: int): byte
    requires 0 <= v < 64
  {
    if v < 26 then 65 + v else if v < 52 then 71 + v else if v < 62 then v - 4 else if v == 62 then 43 else 47
  }

  /** The value of a character of the alphabet; -1 for every other byte. */
  function Value(c: byte): (v: int)
    ensures -1 <= v < 64
  {
    if 65 <= c <= 90 then c - 65
    else if 97 <= c <= 122 then c - 71
    else if 48 <= c <= 57 then c + 4
    else if c == 43 then 62
    else if c == 47 then 63
    else -1
  }

  lemma CharValue(v: int, c: byte)
    requires 0 <= v < 64
    ensures Char(v) == c <==> Value(c) == v
  {
  }

  /** A to Z, a to z, 0 to 9, plus and slash. */
  lemma AlphabetIs(v: int)
    requires 0 <= v < 64
    ensures v < 26 ==> Char(v) as int == 'A' as int + v
    ensures 26 <= v < 52 ==> Char(v) as int == 'a' as int + (v - 26)
    ensures 52 <= v < 62 ==> Char(v) as int == '0' as int + (v - 52)
    ensures v == 62 ==> Char(v) as char == '+'
    ensures v == 63 ==> Char(v) as char == '/'
  {
  }

  /** Encodes 24-bit groups; `padded` says whether a short last group is filled up with `=`. */
  function Encode(b: seq<byte>, padded: bool): seq<byte>
  {
    if |b| == 0 then []
    else if |b| == 1 then
      [Char(b[0] / 4), Char(b[0] % 4 * 16)] + if padded then [PAD, PAD] else []
    else if |b| == 2 then
      [Char(b[0] / 4), Char(b[0] % 4 * 16 + b[1] / 16), Char(b[1] % 16 * 4)] + if padded then [PAD] else []
    else
      EncodeGroup(b[..3]) + Encode(b[3..], padded)
  }

  /** The four characters for three bytes. */
  function EncodeGroup(b: seq<byte>): (t: seq<byte>)
    requires |b| == 3
    ensures |t| == 4
  {
    [Char(b[0] / 4), Char(b[0] % 4 * 16 + b[1] / 16), Char(b[1] % 16 * 4 + b[2] / 64), Char(b[2] % 64)]
  }

  /** The 24 bits of a group, most significant first, are those of its four characters. */
  lemma GroupIsNumber(b: seq<byte>)
    requires |b| == 3
    ensures var t := EncodeGroup(b);
            && (forall k | 0 <= k < 4 :: Value(t[k]) >= 0)
            && ((Value(t[0]) * 64 + Value(t[1])) * 64 + Value(t[2])) * 64 + Value(t[3])
               == (b[0] as int * 256 + b[1]) * 256 + b[2]
  {
    hide Char, Value;
    CharValue(b[0] / 4, EncodeGroup(b)[0]);
    CharValue(b[0] % 4 * 16 + b[1] / 16, EncodeGroup(b)[1]);
    CharValue(b[1] % 16 * 4 + b[2] / 64, EncodeGroup(b)[2]);
    CharValue(b[2] % 64, EncodeGroup(b)[3]);
  }

  /** A short last group is a whole one filled up with zero bits, cut after the characters it needs. */
  lemma TailIsGroup(x: byte, y: byte)
    ensures Encode([x], false) == EncodeGroup([x, 0, 0])[..2]
    ensures Encode([x], true) == EncodeGroup([x, 0, 0])[..2] + Ascii("==")
    ensures Encode([x, y], false) == EncodeGroup([x, y, 0])[..3]
    ensures Encode([x, y], true) == EncodeGroup([x, y, 0])[..3] + Ascii("=")
  {
  }

  lemma {:induction false} EncodedLength(b: seq<byte>)
    ensures |Encode(b, true)| == (|b| + 2) / 3 * 4
    ensures |Encode(b, false)| == |b| / 3 * 4 + if |b| % 3 == 0 then 0 else |b| % 3 + 1
  {
    hide Char, EncodeGroup;
    if |b| >= 3 {
      EncodedLength(b[3..]);
    }
  }

  /** No NUL and no control byte in an encoding. */
  lemma {:induction false} EncodingIsPlain(b: seq<byte>, padded: bool)
    ensures forall k | 0 <= k < |Encode(b, padded)| :: Encode(b, padded)[k] >= 43
  {
    if |b| >= 3 {
      EncodingIsPlain(b[3..], padded);
    }
  }

  /** The bytes of a short last group of two or three characters, whose spare bits must be zero. */
  function DecodeTail(t: seq<byte>): Option<seq<byte>>
    requires |t| < 4
  {
    if |t| == 0 then Some([])
    else if |t| == 1 then None
    else
      var v0, v1 := Value(t[0]), Value(t[1]);
      if v0 < 0 || v1 < 0 then None
      else if |t| == 2 then if v1 % 16 == 0 then Some([v0 * 4 + v1 / 16]) else None
      else
        var v2 := Value(t[2]);
        if v2 < 0 || v2 % 4 != 0 then None else Some([v0 * 4 + v1 / 16, v1 % 16 * 16 + v2 / 4])
  }

  function DecodeGroup(t: seq<byte>): (r: Option<seq<byte>>)
    requires |t| == 4
    ensures r.Some? ==> |r.value| == 3
  {
    var v0, v1, v2, v3 := Value(t[0]), Value(t[1]), Value(t[2]), Value(t[3]);
    if v0 < 0 || v1 < 0 || v2 < 0 || v3 < 0 then None
    else Some([v0 * 4 + v1 / 16, v1 % 16 * 16 + v2 / 4, v2 % 4 * 64 + v3])
  }

  /** A strict decoder: no whitespace, no spare bits, and padding exactly where the variant has it. */
  function Decode(t: seq<byte>, padded: bool): Option<seq<byte>>
  {
    if |t| < 4 then if padded && t != [] then None else DecodeTail(t)
    else if padded && |t| == 4 && t[3] == PAD then
      DecodeTail(if t[2] == PAD then t[..2] else t[..3])
    else
      match DecodeGroup(t[..4])
      case None => None
      case Some(group) =>
        match Decode(t[4..], padded)
        case None => None
        case Some(rest) => Some(group + rest)
  }

  /** Quotient and remainder of a number are the only ones. */
  lemma Parts(n: int, q: int, r: int, m: int)
    requires m == 4 || m == 16 || m == 64
    requires 0 <= r < m
    ensures n == q * m + r <==> q == n / m && r == n % m
  {
    if m == 4 {
      assert n == q * 4 + r <==> q == n / 4 && r == n % 4;
    } else if m == 16 {
      assert n == q * 16 + r <==> q == n / 16 && r == n % 16;
    }
  }

  /** Three numbers of eight bits, and four of six, made of the same bits. */
  lemma SameBits(a: int, b: int, c: int, v0: int, v1: int, v2: int, v3: int)
    requires 0 <= a < 256 && 0 <= b < 256 && 0 <= c < 256
    requires 0 <= v0 < 64 && 0 <= v1 < 64 && 0 <= v2 < 64 && 0 <= v3 < 64
    ensures v0 * 4 + v1 / 16 == a && v1 % 16 * 16 + v2 / 4 == b && v2 % 4 * 64 + v3 == c
       <==> v0 == a / 4 && v1 == a % 4 * 16 + b / 16 && v2 == b % 16 * 4 + c / 64 && v3 == c % 64
  {
    Parts(a, v0, v1 / 16, 4);
    Parts(b, v1 % 16, v2 / 4, 16);
    Parts(c, v2 % 4, v3, 64);
    Parts(v1, a % 4, b / 16, 16);
    Parts(v2, b % 16, c / 64, 4);
  }

  /** Three bytes and four characters determine each other. */
  lemma GroupExact(b: seq<byte>, t: seq<byte>)
    requires |b| == 3 && |t| == 4
    ensures DecodeGroup(t) == Some(b) <==> t == EncodeGroup(b)
  {
    hide Char, Value;
    assert b == [b[0], b[1], b[2]] && t == [t[0], t[1], t[2], t[3]];
    var v0, v1, v2, v3 := Value(t[0]), Value(t[1]), Value(t[2]), Value(t[3]);
    CharValue(b[0] / 4, t[0]);
    CharValue(b[0] % 4 * 16 + b[1] / 16, t[1]);
    CharValue(b[1] % 16 * 4 + b[2] / 64, t[2]);
    CharValue(b[2] % 64, t[3]);
    if v0 >= 0 && v1 >= 0 && v2 >= 0 && v3 >= 0 {
      SameBits(b[0], b[1], b[2], v0, v1, v2, v3);
    }
  }

  lemma TailOfTwo(x: byte, t: seq<byte>)
    requires |t| == 2
    ensures DecodeTail(t) == Some([x]) <==> t == Encode([x], false)
  {
    CharValue(x / 4, t[0]);
    CharValue(x % 4 * 16, t[1]);
    assert t == [t[0], t[1]] && Encode([x], false) == [Char(x / 4), Char(x % 4 * 16)];
  }

  lemma TailOfThree(x: byte, y: byte, t: seq<byte>)
    requires |t| == 3
    ensures DecodeTail(t) == Some([x, y]) <==> t == Encode([x, y], false)
  {
    hide Char, Value;
    var v0, v1, v2 := Value(t[0]), Value(t[1]), Value(t[2]);
    CharValue(x / 4, t[0]);
    CharValue(x % 4 * 16 + y / 16, t[1]);
    CharValue(y % 16 * 4, t[2]);
    assert t == [t[0], t[1], t[2]];
    assert Encode([x, y], false) == [Char(x / 4), Char(x % 4 * 16 + y / 16), Char(y % 16 * 4)];
    if v0 >= 0 && v1 >= 0 && v2 >= 0 {
      Parts(x, v0, v1 / 16, 4);
      Parts(y, v1 % 16, v2 / 4, 16);
      Parts(v1, x % 4, y / 16, 16);
      Parts(v2, y % 16, 0, 4);
    }
  }

  lemma TailLength(t: seq<byte>)
    requires |t| < 4
    ensures DecodeTail(t).Some? ==> |DecodeTail(t).value| == if |t| == 0 then 0 else |t| - 1
    ensures |t| == 1 ==> DecodeTail(t) == None
    ensures DecodeTail([]) == Some([]) && Encode([], false) == []
  {
  }

  lemma TailExact(b: seq<byte>, t: seq<byte>)
    requires |t| < 4
    ensures DecodeTail(t) == Some(b) <==> |b| < 3 && t == Encode(b, false)
  {
    hide DecodeTail, Encode;
    TailLength(t);
    EncodedLength(b);
    if |b| == 1 && |t| == 2 {
      assert b == [b[0]];
      TailOfTwo(b[0], t);
    } else if |b| == 2 && |t| == 3 {
      assert b == [b[0], b[1]];
      TailOfThree(b[0], b[1], t);
    } else if |b| == 0 {
      assert b == [] && (|t| == 0 ==> t == []);
    }
  }

  /** Padding follows a short last group, and no character of the alphabet is the padding. */
  lemma PaddedEncoding(b: seq<byte>)
    ensures |b| == 1 ==> Encode(b, true) == Encode(b, false) + [PAD, PAD]
    ensures |b| == 2 ==> Encode(b, true) == Encode(b, false) + [PAD] && Encode(b, false)[2] != PAD
    ensures |b| >= 3 ==> |Encode(b, true)| >= 4 && Encode(b, true)[3] != PAD
  {
    if |b| == 2 {
      CharValue(b[1] % 16 * 4, PAD);
    } else if |b| >= 3 {
      CharValue(b[2] % 64, PAD);
      assert EncodeGroup(b[..3])[3] == Char(b[2] % 64);
    }
  }

  /** A padded last group. */
  lemma PaddedTail(b: seq<byte>, t: seq<byte>)
    requires |t| == 4 && t[3] == PAD
    ensures Decode(t, true) == Some(b) <==> t == Encode(b, true)
  {
    hide Encode, DecodeTail;
    EncodedLength(b);
    PaddedEncoding(b);
    if t[2] == PAD {
      TailExact(b, t[..2]);
      assert t == t[..2] + [PAD, PAD];
    } else {
      TailExact(b, t[..3]);
      assert t == t[..3] + [PAD];
    }
  }

  lemma EncodeSplit(t: seq<byte>, b: seq<byte>, padded: bool)
    requires |t| >= 4 && |b| >= 3
    ensures t == Encode(b, padded) <==> t[..4] == EncodeGroup(b[..3]) && t[4..] == Encode(b[3..], padded)
  {
    hide EncodeGroup, Char;
    assert Encode(b, padded) == EncodeGroup(b[..3]) + Encode(b[3..], padded);
    assert t == t[..4] + t[4..];
  }

  lemma DecodeSplit(t: seq<byte>, b: seq<byte>, padded: bool)
    requires |t| >= 4 && |b| >= 3 && !(padded && |t| == 4 && t[3] == PAD)
    ensures Decode(t, padded) == Some(b)
       <==> t[..4] == EncodeGroup(b[..3]) && Decode(t[4..], padded) == Some(b[3..])
  {
    hide DecodeGroup, EncodeGroup;
    GroupExact(b[..3], t[..4]);
    assert b == b[..3] + b[3..];
  }

  lemma DecodeShort(t: seq<byte>, b: seq<byte>, padded: bool)
    requires |t| >= 4 && |b| < 3 && !(padded && |t| == 4 && t[3] == PAD)
    ensures Decode(t, padded) != Some(b) && t != Encode(b, padded)
  {
    EncodedLength(b);
    assert padded && |b| > 0 ==> Encode(b, padded)[3] == PAD;
  }

  /** Decoding is exactly the inverse of encoding, in each variant. */
  lemma {:induction false} DecodeExact(t: seq<byte>, b: seq<byte>, padded: bool)
    ensures Decode(t, padded) == Some(b) <==> t == Encode(b, padded)
    decreases |t|
  {
    if |t| < 4 {
      EncodedLength(b);
      TailExact(b, t);
    } else if padded && |t| == 4 && t[3] == PAD {
      PaddedTail(b, t);
    } else if |b| < 3 {
      DecodeShort(t, b, padded);
    } else {
      hide Decode, Encode, EncodeGroup;
      EncodeSplit(t, b, padded);
      DecodeSplit(t, b, padded);
      DecodeExact(t[4..], b[3..], padded);
    }
  }
}

/** The UTF-8 acceptor of the output module, against the encoding of RFC 3629 section 3. */
module Utf8 {
  import opened Bytes

  // ----- RFC 3629: the encoding of Unicode scalar values

  type Scalar = c: int | 0 <= c < 0xD800 || 0xE000 <= c <= 0x10FFFF

  function Encode(c: Scalar): (r: seq<byte>)
    ensures 1 <= |r| <= 4
  {
    if c < 0x80 then [c]
    else if c < 0x800 then [0xC0 + c / 0x40, 0x80 + c % 0x40]
    else if c < 0x10000 then [0xE0 + c / 0x1000, 0x80 + c / 0x40 % 0x40, 0x80 + c % 0x40]
    else [0xF0 + c / 0x40000, 0x80 + c / 0x1000 % 0x40, 0x80 + c / 0x40 % 0x40, 0x80 + c % 0x40]
  }

  /** The examples of RFC 3629 section 7. */
  lemma Examples()
    ensures Encode(0x41) == [0x41] && Encode(0x2262) == [0xE2, 0x89, 0xA2] && Encode(0x391) == [0xCE, 0x91]
    ensures Encode(0xD55C) == [0xED, 0x95, 0x9C] && Encode(0x65E5) == [0xE6, 0x97, 0xA5]
    ensures Encode(0x233B4) == [0xF0, 0xA3, 0x8E, 0xB4]
  {
  }

  function EncodeAll(cs: seq<Scalar>): seq<byte>
  {
    if cs == [] then [] else Encode(cs[0]) + EncodeAll(cs[1..])
  }

  // ----- The acceptor

  predicate IsContinuation(b: byte) { 0x80 <= b <= 0xBF }

  /** The length of the sequence at the front of `s`, or 0 where the code answers false. */
  function SequenceLength(s: seq<byte>): (n: nat)
    ensures n <= |s| && n <= 4
  {
    if s == [] then 0
    else
      var b := s[0];
      if b <= 0x7F then 1
      else if 0xC2 <= b <= 0xDF then
        if |s| < 2 then 0 else if !IsContinuation(s[1]) then 0 else 2
      else if 0xE0 <= b <= 0xEF then
        if |s| < 3 then 0
        else if || !IsContinuation(s[1]) || !IsContinuation(s[2])
                || (b == 0xE0 && (s[1] < 0xA0 || s[1] > 0xBF))
                || (b == 0xED && (s[1] < 0x80 || s[1] > 0x9F))
                || (b != 0xE0 && b != 0xED && (s[1] < 0x80 || s[1] > 0xBF)) then 0
        else 3
      else if 0xF0 <= b <= 0xF4 then
        if |s| < 4 then 0
        else if || !IsContinuation(s[1]) || !IsContinuation(s[2]) || !IsContinuation(s[3])
                || (b == 0xF0 && (s[1] < 0x90 || s[1] > 0xBF))
                || (b == 0xF4 && (s[1] < 0x80 || s[1] > 0x8F))
                || (0xF1 <= b <= 0xF3 && (s[1] < 0x80 || s[1] > 0xBF)) then 0
        else 4
      else 0
  }

  /** The scalar value whose encoding starts an accepted string. */
  function Decode(s: seq<byte>): int
    requires SequenceLength(s) > 0
  {
    var n := SequenceLength(s);
    if n == 1 then s[0]
    else if n == 2 then (s[0] as int - 0xC0) * 0x40 + (s[1] as int - 0x80)
    else if n == 3 then
      (s[0] as int - 0xE0) * 0x1000 + (s[1] as int - 0x80) * 0x40 + (s[2] as int - 0x80)
    else
      (s[0] as int - 0xF0) * 0x40000 + (s[1] as int - 0x80) * 0x1000
      + (s[2] as int - 0x80) * 0x40 + (s[3] as int - 0x80)
  }

  lemma LastDigit(q: int, r: int)
    requires 0 <= r < 0x40
    ensures (q * 0x40 + r) / 0x40 == q && (q * 0x40 + r) % 0x40 == r
  {
  }

  lemma ShiftTwice(c: int)
    requires 0 <= c
    ensures c / 0x1000 == c / 0x40 / 0x40 && c / 0x40000 == c / 0x1000 / 0x40
  {
  }

  lemma SixBitDigits(x: int, y: int, z: int, w: int)
    requires 0 <= x && 0 <= y < 0x40 && 0 <= z < 0x40 && 0 <= w < 0x40
    ensures var c := x * 0x40000 + y * 0x1000 + z * 0x40 + w;
            c / 0x40000 == x && c / 0x1000 % 0x40 == y && c / 0x40 % 0x40 == z && c % 0x40 == w
  {
    var xy := x * 0x40 + y;
    var xyz := xy * 0x40 + z;
    LastDigit(x, y);
    LastDigit(xy, z);
    LastDigit(xyz, w);
    ShiftTwice(xyz * 0x40 + w);
  }

  /** What the acceptor takes is the shortest-form encoding of a scalar value... */
  lemma AcceptedIsEncoded(s: seq<byte>)
    requires SequenceLength(s) > 0
    ensures var c := Decode(s);
            (0 <= c < 0xD800 || 0xE000 <= c <= 0x10FFFF) && s[..SequenceLength(s)] == Encode(c)
  {
    match SequenceLength(s)
    case 1 =>
    case 2 => Accepted2(s);
    case 3 => Accepted3(s);
    case 4 => Accepted4(s);
  }

  lemma Accepted2(s: seq<byte>)
    requires SequenceLength(s) == 2
    ensures var c := Decode(s); 0x80 <= c < 0x800 && s[..2] == Encode(c)
  {
    SixBitDigits(0, 0, s[0] - 0xC0, s[1] - 0x80);
  }

  lemma Accepted3(s: seq<byte>)
    requires SequenceLength(s) == 3
    ensures var c := Decode(s); 0x800 <= c < 0x10000 && !(0xD800 <= c < 0xE000) && s[..3] == Encode(c)
  {
    SixBitDigits(0, s[0] - 0xE0, s[1] - 0x80, s[2] - 0x80);
    assert Decode(s) / 0x1000 == s[0] as int - 0xE0;
  }

  lemma Accepted4(s: seq<byte>)
    requires SequenceLength(s) == 4
    ensures var c := Decode(s); 0x10000 <= c <= 0x10FFFF && s[..4] == Encode(c)
  {
    SixBitDigits(s[0] - 0xF0, s[1] - 0x80, s[2] - 0x80, s[3] - 0x80);
  }

  /** ...and it takes every such encoding, whatever follows, and gets its length and value right. */
  lemma EncodedIsAccepted(c: Scalar, t: seq<byte>)
    ensures SequenceLength(Encode(c) + t) == |Encode(c)|
    ensures Decode(Encode(c) + t) == c
  {
    var e := Encode(c);
    var s := e + t;
    assert s[0] == e[0] && (|e| > 1 ==> s[1] == e[1]) && (|e| > 2 ==> s[2] == e[2]) && (|e| > 3 ==> s[3] == e[3]);
    LeadByte(c);
    ShiftTwice(c);
  }

  /** The second byte of a long encoding stays inside the range its lead byte allows. */
  lemma LeadByte(c: Scalar)
    ensures 0x80 <= c < 0x800 ==> 2 <= c / 0x40 < 0x20
    ensures 0x800 <= c < 0x10000 ==>
              && c / 0x1000 < 0x10
              && (c / 0x1000 == 0 ==> c / 0x40 % 0x40 >= 0x20)
              && (c / 0x1000 == 0xD ==> c / 0x40 % 0x40 < 0x20)
    ensures 0x10000 <= c ==>
              && c / 0x40000 <= 4
              && (c / 0x40000 == 0 ==> c / 0x1000 % 0x40 >= 0x10)
              && (c / 0x40000 == 4 ==> c / 0x1000 % 0x40 < 0x10)
  {
    ShiftTwice(c);
  }

  /** The acceptance of a whole string, one sequence at a time. */
  predicate Accepts(s: seq<byte>)
    decreases |s|
  {
    s == [] || (SequenceLength(s) > 0 && Accepts(s[SequenceLength(s)..]))
  }

  lemma {:induction false} EncodeAllAccepted(cs: seq<Scalar>)
    ensures Accepts(EncodeAll(cs))
  {
    if cs != [] {
      EncodedIsAccepted(cs[0], EncodeAll(cs[1..]));
      EncodeAllAccepted(cs[1..]);
      assert EncodeAll(cs)[|Encode(cs[0])|..] == EncodeAll(cs[1..]);
    }
  }

  lemma AcceptsStep(s: seq<byte>)
    requires Accepts(s) && s != []
    ensures var n := SequenceLength(s);
            && 0 < n && Accepts(s[n..])
            && var c := Decode(s);
            (0 <= c < 0xD800 || 0xE000 <= c <= 0x10FFFF) && s == Encode(c) + s[n..]
  {
    hide Encode, SequenceLength, Decode;
    AcceptedIsEncoded(s);
    assert s == s[..SequenceLength(s)] + s[SequenceLength(s)..];
  }

  lemma {:induction false} AcceptedHasScalars(s: seq<byte>) returns (cs: seq<Scalar>)
    requires Accepts(s)
    ensures EncodeAll(cs) == s
    decreases |s|
  {
    if s == [] {
      cs := [];
    } else {
      AcceptsStep(s);
      hide Encode, SequenceLength, Decode, Accepts;
      var c: Scalar := Decode(s);
      var rest := AcceptedHasScalars(s[SequenceLength(s)..]);
      cs := [c] + rest;
      EncodeCons(c, rest);
    }
  }

  lemma EncodeCons(c: Scalar, rest: seq<Scalar>)
    ensures EncodeAll([c] + rest) == Encode(c) + EncodeAll(rest)
  {
    assert ([c] + rest)[1..] == rest;
  }

  /** The acceptor is exact: it accepts the encodings of sequences of scalar values, and nothing else. */
  lemma AcceptorIsExact(s: seq<byte>)
    ensures Accepts(s) <==> exists cs: seq<Scalar> :: EncodeAll(cs) == s
  {
    if Accepts(s) {
      var cs := AcceptedHasScalars(s);
    }
    forall cs: seq<Scalar> | EncodeAll(cs) == s
      ensures Accepts(s)
    {
      EncodeAllAccepted(cs);
    }
  }

  /** An accepted string encodes only one sequence of scalar values. */
  lemma {:induction false} EncodingIsUnique(cs: seq<Scalar>, ds: seq<Scalar>)
    requires EncodeAll(cs) == EncodeAll(ds)
    ensures cs == ds
  {
    if cs != [] && ds != [] {
      EncodedIsAccepted(cs[0], EncodeAll(cs[1..]));
      EncodedIsAccepted(ds[0], EncodeAll(ds[1..]));
      assert EncodeAll(cs)[|Encode(cs[0])|..] == EncodeAll(cs[1..]);
      assert EncodeAll(ds)[|Encode(ds[0])|..] == EncodeAll(ds[1..]);
      EncodingIsUnique(cs[1..], ds[1..]);
    }
  }

  /** The validation loop: it consumes one sequence at a time up to the end of the string. */
  method IsValidUtf8(str: CString) returns (valid: bool)
    ensures valid <==> exists cs: seq<Scalar> :: EncodeAll(cs) == str
  {
    AcceptorIsExact(str);
    hide SequenceLength, EncodeAll;
    var i := 0;
    while i < |str|
      invariant 0 <= i <= |str|
      invariant Accepts(str) == Accepts(str[i..])
    {
      var n := SequenceLength(str[i..]);
      if n == 0 {
        return false;
      }
      assert str[i..][n..] == str[i + n..];
      i := i + n;
    }
    return true;
  }
}

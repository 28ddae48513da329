/** How the JSON writer and the strict parser undo each other, and what a full JSON reader makes of the output. */
module JsonRoundTrip {
  import opened Bytes
  import opened JsonGrammar
  import opened JsonOutput
  import Utf8

  // ----- The strict parser reads what the writer wrote, on an exact domain

  /** Written as a six-character escape, which the strict parser does not know. */
  predicate IsOtherControl(b: byte)
  {
    b < 0x20 && b != LF && b != CR && b != TAB
  }

  predicate HasOtherControl(s: seq<byte>)
  {
    exists k | 0 <= k < |s| :: IsOtherControl(s[k])
  }

  /** How the writer spells a byte, in the parser's terms. */
  function EscapePiece(b: byte): Piece
  {
    if b == QUOTE || b == BACKSLASH then Escaped(b)
    else if b == LF then Escaped(LOWER_N)
    else if b == CR then Escaped(LOWER_R)
    else if b == TAB then Escaped(LOWER_T)
    else Raw(b)
  }

  function EscapePieces(s: seq<byte>): (ps: seq<Piece>)
    ensures |ps| == |s|
  {
    if s == [] then [] else [EscapePiece(s[0])] + EscapePieces(s[1..])
  }

  lemma {:induction false} EscapeIsText(s: seq<byte>)
    requires !HasOtherControl(s)
    ensures PiecesOk(EscapePieces(s)) && Values(EscapePieces(s)) == s && Text(EscapePieces(s)) == Escape(s)
  {
    if s != [] {
      assert !IsOtherControl(s[0]);
      assert !HasOtherControl(s[1..]) by {
        assert forall k | 0 <= k < |s[1..]| :: s[1..][k] == s[k + 1];
      }
      EscapeIsText(s[1..]);
      assert EscapePieces(s)[1..] == EscapePieces(s[1..]);
      TextCons(EscapePiece(s[0]), EscapePieces(s[1..]));
    }
  }

  /** The parser steps over one byte the writer wrote, or stops there. */
  lemma EscapedByteParsed(b: byte, u: seq<byte>)
    ensures var s := EscapeByte(b) + u;
            LexBody(s) == if IsOtherControl(b) || LexBody(u).None? then None
                          else Some(Lexed([EscapePiece(b)] + LexBody(u).value.it, LexBody(u).value.rest))
  {
    var e := EscapeByte(b);
    var s := e + u;
    assert s[0] == e[0] && (|e| > 1 ==> s[1] == e[1]);
    assert s[|e|..] == u;
  }

  lemma {:induction false} OtherControlRejected(s: seq<byte>, t: seq<byte>)
    requires HasOtherControl(s)
    ensures LexBody(Escape(s) + t) == None
  {
    hide LexBody, EscapeByte;
    var u := Escape(s[1..]) + t;
    Assoc(EscapeByte(s[0]), Escape(s[1..]), t);
    EscapedByteParsed(s[0], u);
    if !IsOtherControl(s[0]) {
      var k :| 0 <= k < |s| && IsOtherControl(s[k]);
      assert s[1..][k - 1] == s[k];
      OtherControlRejected(s[1..], t);
    }
  }

  /**
    * Feeding the writer's output for `s` to the strict parser gives back `s`, and stops just after the closing quote,
    * if and only if `s` has no control byte other than LF, CR and TAB and is shorter than the parser's buffer; every
    * other output is rejected.
    */
  lemma EscapeThenParse(s: seq<byte>, t: seq<byte>, cap: nat)
    ensures TokenAccepted(Quote(s) + t, cap) <==> !HasOtherControl(s) && |s| < cap
    ensures TokenAccepted(Quote(s) + t, cap) ==>
              var l := LexString(Quote(s) + t).value; PiecesOk(l.it) && Values(l.it) == s && l.rest == t
  {
    assert (Quote(s) + t)[1..] == Escape(s) + ([QUOTE] + t);
    if HasOtherControl(s) {
      OtherControlRejected(s, [QUOTE] + t);
    } else {
      EscapeIsText(s);
      assert Quote(s) == Literal(EscapePieces(s));
      LexStringComplete(EscapePieces(s), t);
    }
  }

  // ----- Key objects round-trip

  /** The whitespace around the tokens of one member. */
  datatype Spacing = Spacing(beforeName: seq<byte>, afterName: seq<byte>, beforeValue: seq<byte>, afterValue: seq<byte>)
  {
    predicate Ok()
    {
      AllWs(beforeName) && AllWs(afterName) && AllWs(beforeValue) && AllWs(afterValue)
    }
  }

  /** A member printed with the writer's string routine, followed by `t`. */
  function PrintMember(sp: Spacing, name: seq<byte>, value: seq<byte>, t: seq<byte>): seq<byte>
  {
    sp.beforeName + (Quote(name) + (sp.afterName
    + ([COLON] + (sp.beforeValue + (Quote(value) + (sp.afterValue + t))))))
  }

  /** A key object printed from its members; `inner` is the whitespace after the brace. */
  function PrintObject(lead: seq<byte>, inner: seq<byte>, trail: seq<byte>,
                       sp1: Spacing, name1: seq<byte>, value1: seq<byte>,
                       sp2: Spacing, name2: seq<byte>, value2: seq<byte>): seq<byte>
  {
    lead + ([OPEN_BRACE] + (inner
    + PrintMember(sp1, name1, value1, [COMMA] + PrintMember(sp2, name2, value2, [CLOSE_BRACE] + trail))))
  }

  function MemberField(sp: Spacing, name: seq<byte>, value: seq<byte>): Field
  {
    Field(Quoted(sp.beforeName, EscapePieces(name), sp.afterName),
          Quoted(sp.beforeValue, EscapePieces(value), sp.afterValue))
  }

  lemma MemberIsField(sp: Spacing, name: seq<byte>, value: seq<byte>, t: seq<byte>)
    requires sp.Ok() && !HasOtherControl(name) && !HasOtherControl(value)
    ensures var f := MemberField(sp, name, value);
            && f.Ok() && f.Then(t) == PrintMember(sp, name, value, t)
            && Name(f) == name && Values(f.value.body) == value && |f.value.body| == |value|
  {
    EscapeIsText(name);
    EscapeIsText(value);
  }

  /** What may stand in a key object, and fits. */
  predicate Suitable(k: seq<byte>, i: seq<byte>, keyCap: nat, idCap: nat)
  {
    !HasOtherControl(k) && |k| < keyCap && Trim(k) != [] && !HasOtherControl(i) && |i| < idCap
  }

  /**
    * Printing a key and a key id, with any whitespace the parser skips and in either order, and parsing the result
    * gives the trimmed key and the trimmed key id (so there is a key id exactly when that is not empty).
    */
  lemma KeyObjectRoundTrip(lead: seq<byte>, inner: seq<byte>, trail: seq<byte>, sp1: Spacing, sp2: Spacing,
                           k: seq<byte>, i: seq<byte>, idFirst: bool, keyCap: nat, idCap: nat)
    requires AllWs(lead) && AllWs(inner) && AllWs(trail) && sp1.Ok() && sp2.Ok() && sp1.beforeName == []
    requires Suitable(k, i, keyCap, idCap)
    ensures ParseObject(if idFirst then PrintObject(lead, inner, trail, sp1, KEY_ID, i, sp2, KEY, k)
                        else PrintObject(lead, inner, trail, sp1, KEY, k, sp2, KEY_ID, i), keyCap, idCap)
         == Some(ParsedKey(Trim(k), Trim(i)))
  {
    hide PrintObject, ParseObject, AllWs, Trim;
    var (name1, value1, name2, value2) := if idFirst then (KEY_ID, i, KEY, k) else (KEY, k, KEY_ID, i);
    assert !HasOtherControl(KEY) && !HasOtherControl(KEY_ID);
    var d := PrintedIsDoc(lead, inner, trail, sp1, name1, value1, sp2, name2, value2);
    TwoFieldObject(d, k, i, keyCap, idCap);
  }

  /** A printed object is the text of a document of the grammar. */
  lemma PrintedIsDoc(lead: seq<byte>, inner: seq<byte>, trail: seq<byte>,
                     sp1: Spacing, name1: seq<byte>, value1: seq<byte>,
                     sp2: Spacing, name2: seq<byte>, value2: seq<byte>) returns (d: Doc)
    requires AllWs(lead) && AllWs(inner) && AllWs(trail) && sp1.Ok() && sp2.Ok() && sp1.beforeName == []
    requires !HasOtherControl(name1) && !HasOtherControl(value1) && !HasOtherControl(name2) && !HasOtherControl(value2)
    ensures d.Ok() && |d.fields| == 2
    ensures d.Text() == PrintObject(lead, inner, trail, sp1, name1, value1, sp2, name2, value2)
    ensures Name(d.fields[0]) == name1 && Values(d.fields[0].value.body) == value1
    ensures Name(d.fields[1]) == name2 && Values(d.fields[1].value.body) == value2
  {
    hide HasOtherControl, Quote, Text, FieldsThen, PrintMember, AllWs, Values;
    var f1, f2 := MemberField(sp1, name1, value1), MemberField(sp2, name2, value2);
    var tail := [CLOSE_BRACE] + trail;
    MemberIsField(sp2, name2, value2, tail);
    MemberIsField(sp1, name1, value1, [COMMA] + PrintMember(sp2, name2, value2, tail));
    TwoFields(f1, f2, trail);
    d := Doc(lead, inner, [f1, f2], trail);
  }

  lemma TwoFieldObject(d: Doc, k: seq<byte>, i: seq<byte>, keyCap: nat, idCap: nat)
    requires d.Ok() && |d.fields| == 2 && |k| < keyCap && |i| < idCap && Trim(k) != []
    requires var (f1, f2) := (d.fields[0], d.fields[1]);
             || (Name(f1) == KEY && Values(f1.value.body) == k && Name(f2) == KEY_ID && Values(f2.value.body) == i)
             || (Name(f1) == KEY_ID && Values(f1.value.body) == i && Name(f2) == KEY && Values(f2.value.body) == k)
    ensures ParseObject(d.Text(), keyCap, idCap) == Some(ParsedKey(Trim(k), Trim(i)))
  {
    hide LexDoc, FieldsThen, Trim;
    LexDocComplete(d);
    assert d.fields == [d.fields[0], d.fields[1]];
    TwoFieldMeaning(d.fields[0], d.fields[1], k, i, keyCap, idCap);
  }

  lemma TwoFields(f1: Field, f2: Field, trail: seq<byte>)
    ensures FieldsThen([f1, f2], trail) == f1.Then([COMMA] + f2.Then([CLOSE_BRACE] + trail))
  {
    assert [f1, f2][1..] == [f2];
  }

  lemma TwoFieldMeaning(f1: Field, f2: Field, k: seq<byte>, i: seq<byte>, keyCap: nat, idCap: nat)
    requires f1.Ok() && f2.Ok() && |k| < keyCap && |i| < idCap
    requires || (Name(f1) == KEY && Values(f1.value.body) == k && Name(f2) == KEY_ID && Values(f2.value.body) == i)
             || (Name(f1) == KEY_ID && Values(f1.value.body) == i && Name(f2) == KEY && Values(f2.value.body) == k)
    ensures var fs := [f1, f2];
            && FieldsOk(fs) && AllFit(fs, keyCap, idCap) && AtMostOnce(fs, KEY) && AtMostOnce(fs, KEY_ID)
            && ValueOf(fs, KEY) == Some(k) && ValueOf(fs, KEY_ID) == Some(i)
  {
    assert [f1, f2][1..] == [f2];
  }

  // ----- What a full RFC 8259 section 7 reader makes of the output

  function HexValue(b: byte): int
  {
    if 48 <= b <= 57 then b - 48 else if 97 <= b <= 102 then b - 87 else if 65 <= b <= 70 then b - 55 else -1
  }

  /** The code unit of a `\uXXXX` escape at the front of `s`, or -1. */
  function CodeUnit(s: seq<byte>): int
  {
    if |s| < 6 || s[0] != BACKSLASH || s[1] != 117 then -1
    else
      var (a, b, c, d) := (HexValue(s[2]), HexValue(s[3]), HexValue(s[4]), HexValue(s[5]));
      if a < 0 || b < 0 || c < 0 || d < 0 then -1 else a * 0x1000 + b * 0x100 + c * 0x10 + d
  }

  /** The two-character escapes of RFC 8259 section 7. */
  function ShortEscape(c: byte): Option<byte>
  {
    if c == QUOTE || c == BACKSLASH || c == SLASH then Some(c)
    else if c == 98 then Some(8)
    else if c == 102 then Some(FF)
    else if c == 110 then Some(LF)
    else if c == 114 then Some(CR)
    else if c == 116 then Some(TAB)
    else None
  }

  /** The decoding of one character and the number of bytes it takes; a lone surrogate has none. */
  function DecodeCharacter(s: seq<byte>): (r: Option<(seq<byte>, nat)>)
    requires s != []
    ensures r.Some? ==> 0 < r.value.1 <= |s|
  {
    if s[0] != BACKSLASH then
      if s[0] < 0x20 || s[0] == QUOTE then None else Some(([s[0]], 1))
    else if |s| > 1 && ShortEscape(s[1]).Some? then Some(([ShortEscape(s[1]).value], 2))
    else
      var u := CodeUnit(s);
      if u < 0 || 0xDC00 <= u < 0xE000 then None
      else if 0xD800 <= u < 0xDC00 then
        var v := CodeUnit(s[6..]);
        if 0xDC00 <= v < 0xE000 then Some((Utf8.Encode(0x10000 + (u - 0xD800) * 0x400 + (v - 0xDC00)), 12)) else None
      else Some((Utf8.Encode(u), 6))
  }

  /** Decodes a string body up to its closing quote, to UTF-8. */
  function DecodeString(s: seq<byte>): Option<Lexed<seq<byte>>>
    decreases |s|
  {
    if s == [] then None
    else if s[0] == QUOTE then Some(Lexed([], s[1..]))
    else
      match DecodeCharacter(s)
      case None => None
      case Some((bytes, n)) =>
        match DecodeString(s[n..])
        case None => None
        case Some(l) => Some(Lexed(bytes + l.it, l.rest))
  }

  lemma EscapeDecodes(b: byte, t: seq<byte>)
    ensures var s := EscapeByte(b) + t;
            s[0] != QUOTE && DecodeCharacter(s) == Some(([b], |EscapeByte(b)|))
  {
    var s := EscapeByte(b) + t;
    var e := EscapeByte(b);
    assert forall k | 0 <= k < |e| :: s[k] == e[k];
    if |e| == 6 {
      assert HexValue(HexDigit(b / 16)) == b / 16 && HexValue(HexDigit(b % 16)) == b % 16;
    }
  }

  /** The writer is faithful: a full reader recovers every byte of every string, up to the closing quote. */
  lemma {:induction false} EscapeIsFaithful(s: seq<byte>, t: seq<byte>)
    ensures DecodeString(Escape(s) + ([QUOTE] + t)) == Some(Lexed(s, t))
  {
    if s == [] {
      assert Escape(s) + ([QUOTE] + t) == [QUOTE] + t;
      assert ([QUOTE] + t)[1..] == t;
    } else {
      var u := Escape(s[1..]) + ([QUOTE] + t);
      Assoc(EscapeByte(s[0]), Escape(s[1..]), [QUOTE] + t);
      EscapeDecodes(s[0], u);
      EscapeIsFaithful(s[1..], t);
      assert (EscapeByte(s[0]) + u)[|EscapeByte(s[0])|..] == u;
      assert [s[0]] + s[1..] == s;
    }
  }

  /** One of the escapes `\b`, `\f` and `\u` occurs before the closing quote. */
  predicate HasForeignEscape(s: seq<byte>)
    decreases |s|
  {
    s != [] && s[0] != QUOTE
    && if s[0] == BACKSLASH then |s| > 1 && (s[1] in Ascii("bfu") || HasForeignEscape(s[2..]))
       else HasForeignEscape(s[1..])
  }

  lemma ForeignIs(c: byte)
    ensures c in Ascii("bfu") <==> c == 98 || c == 102 || c == 117
  {
    assert Ascii("bfu") == [98, 102, 117];
  }

  /**
    * The strict parser reads a string exactly as a full reader does, and refuses, of all the strings a full reader
    * accepts, just those with an escape it does not know.
    */
  lemma {:induction false} StrictReadsAsFull(s: seq<byte>)
    ensures LexBody(s).Some? <==> DecodeString(s).Some? && !HasForeignEscape(s)
    ensures LexBody(s).Some? ==>
              var l := LexBody(s).value; PiecesOk(l.it) && DecodeString(s) == Some(Lexed(Values(l.it), l.rest))
    decreases |s|
  {
    if s != [] && s[0] != QUOTE {
      LexBodySoundHere(s);
      if s[0] != BACKSLASH {
        StrictReadsAsFull(s[1..]);
      } else if |s| > 1 {
        ForeignIs(s[1]);
        if Unescape(s[1]).Some? {
          StrictReadsAsFull(s[2..]);
        }
      }
    }
  }

  lemma LexBodySoundHere(s: seq<byte>)
    ensures LexBody(s).Some? ==> PiecesOk(LexBody(s).value.it)
  {
    if LexBody(s).Some? {
      LexBodySound(s);
    }
  }

  /** Reads `literal string` and returns the string and what follows. */
  function ReadAfter(s: seq<byte>, prefix: seq<byte>): Option<Lexed<seq<byte>>>
  {
    if prefix + [QUOTE] <= s then DecodeString(s[|prefix| + 1..]) else None
  }

  /** Reads back the two strings of a JSON document line. */
  function ReadDocument(s: seq<byte>): Option<(seq<byte>, seq<byte>)>
  {
    match ReadAfter(s, OPENING)
    case None => None
    case Some(value) =>
      match ReadAfter(value.rest, MIDDLE)
      case None => None
      case Some(id) => if id.rest == CLOSING then Some((value.it, id.it)) else None
  }

  lemma ReadAfterQuote(prefix: seq<byte>, s: seq<byte>, t: seq<byte>)
    ensures ReadAfter(prefix + (Quote(s) + t), prefix) == Some(Lexed(s, t))
  {
    var u := prefix + (Quote(s) + t);
    assert u[..|prefix| + 1] == prefix + [QUOTE];
    assert u[|prefix| + 1..] == Escape(s) + ([QUOTE] + t);
    EscapeIsFaithful(s, t);
  }

  /** The emitted line determines the encrypted value and the key id: they are what a JSON reader finds in it. */
  lemma EmissionIsFaithful(encryptedValue: seq<byte>, keyId: seq<byte>)
    ensures ReadDocument(JsonDocument(encryptedValue, keyId)) == Some((encryptedValue, keyId))
  {
    ReadAfterQuote(OPENING, encryptedValue, MIDDLE + (Quote(keyId) + CLOSING));
    ReadAfterQuote(MIDDLE, keyId, CLOSING);
  }

  /** No byte inside the quotes is a raw control byte. */
  lemma {:induction false} NoRawControl(s: seq<byte>)
    ensures forall k | 0 <= k < |Escape(s)| :: Escape(s)[k] >= 0x20
  {
    if s != [] {
      NoRawControl(s[1..]);
      forall k | 0 <= k < |Escape(s)|
        ensures Escape(s)[k] >= 0x20
      {
        if k >= |EscapeByte(s[0])| {
          assert Escape(s)[k] == Escape(s[1..])[k - |EscapeByte(s[0])|];
        }
      }
    }
  }

  // ----- Escaping preserves and reflects UTF-8

  predicate AllHigh(s: seq<byte>)
  {
    forall k | 0 <= k < |s| :: s[k] >= 0x80
  }

  lemma {:induction false} AsciiPrefix(a: seq<byte>, t: seq<byte>)
    requires forall k | 0 <= k < |a| :: a[k] < 0x80
    ensures Utf8.Accepts(a + t) == Utf8.Accepts(t)
  {
    if a == [] {
      assert a + t == t;
    } else {
      AsciiPrefix(a[1..], t);
      assert (a + t)[1..] == a[1..] + t;
    }
  }

  /** Bytes above 0x7F pass through unchanged. */
  lemma {:induction false} HighPassesThrough(s: seq<byte>, n: nat)
    requires n <= |s| && AllHigh(s[..n])
    ensures Escape(s) == s[..n] + Escape(s[n..])
  {
    if n == 0 {
      assert s[0..] == s;
    } else {
      var u := s[1..];
      assert s[..n][0] == s[0] && u[..n - 1] == s[..n][1..];
      HighPassesThrough(u, n - 1);
      assert u[n - 1..] == s[n..] && [s[0]] + u[..n - 1] == s[..n];
      Assoc([s[0]], u[..n - 1], Escape(u[n - 1..]));
    }
  }

  /** And only they appear above 0x7F in the output. */
  lemma {:induction false} HighComesThrough(s: seq<byte>, n: nat)
    requires n <= |Escape(s)| && AllHigh(Escape(s)[..n])
    ensures n <= |s| && s[..n] == Escape(s)[..n]
  {
    hide Escape, EscapeByte;
    if n > 0 {
      HighIsRaw(s, n);
      var u := Escape(s[1..]);
      var w := u[..n - 1];
      assert Escape(s)[..n] == [s[0]] + w;
      assert forall k | 0 <= k < |w| :: w[k] == Escape(s)[..n][k + 1];
      HighComesThrough(s[1..], n - 1);
      assert s[..n] == [s[0]] + s[1..][..n - 1];
    }
  }

  /** An escaped text that starts above 0x7F starts with the byte itself. */
  lemma HighIsRaw(s: seq<byte>, n: nat)
    requires 0 < n <= |Escape(s)| && AllHigh(Escape(s)[..n])
    ensures s != [] && Escape(s) == [s[0]] + Escape(s[1..])
  {
    assert Escape(s)[..n][0] == EscapeByte(s[0])[0];
    assert EscapeByte(s[0]) == [s[0]];
  }

  lemma SequenceIsHigh(s: seq<byte>)
    requires s != [] && s[0] >= 0x80
    ensures AllHigh(s[..Utf8.SequenceLength(s)])
  {
  }

  /** The acceptor looks at no more of the string than the sequence it accepts. */
  lemma SequenceLocal(s: seq<byte>, t: seq<byte>)
    requires var n := Utf8.SequenceLength(s); n > 0 && n <= |t| && t[..n] == s[..n]
    ensures Utf8.SequenceLength(t) == Utf8.SequenceLength(s)
  {
    var n := Utf8.SequenceLength(s);
    assert forall k | 0 <= k < n :: t[k] == t[..n][k] == s[..n][k] == s[k];
  }

  lemma {:induction false} EscapeKeepsUtf8(s: seq<byte>)
    ensures Utf8.Accepts(Escape(s)) <==> Utf8.Accepts(s)
    decreases |s|
  {
    if s == [] {
    } else if s[0] < 0x80 {
      assert forall k | 0 <= k < |EscapeByte(s[0])| :: EscapeByte(s[0])[k] < 0x80;
      AsciiPrefix(EscapeByte(s[0]), Escape(s[1..]));
      EscapeKeepsUtf8(s[1..]);
    } else {
      var n, m := Utf8.SequenceLength(s), Utf8.SequenceLength(Escape(s));
      assert Escape(s)[0] == s[0];
      SequenceIsHigh(s);
      SequenceIsHigh(Escape(s));
      if n > 0 {
        HighPassesThrough(s, n);
        assert Escape(s)[..n] == s[..n];
        SequenceLocal(s, Escape(s));
        assert Escape(s)[n..] == Escape(s[n..]);
        EscapeKeepsUtf8(s[n..]);
      } else if m > 0 {
        HighComesThrough(s, m);
        SequenceLocal(Escape(s), s);
      }
    }
  }
}

/** Output of the encrypted value: JSON string escaping and the two output documents. */
module JsonOutput {
  import opened Bytes
  import opened Sinks
  import Utf8

  /** Lower-case hexadecimal, as `%x` prints it. */
  function HexDigit(d: int): byte
    requires 0 <= d < 16
  {
    if d < 10 then 48 + d else 87 + d
  }

  function EscapeByte(b: byte): seq<byte>
  {
    if b == QUOTE || b == BACKSLASH then [BACKSLASH, b]
    else if b == LF then [BACKSLASH, 110]
    else if b == CR then [BACKSLASH, 114]
    else if b == TAB then [BACKSLASH, 116]
    else if b < 0x20 then [BACKSLASH, 117, 48, 48, HexDigit(b / 16), HexDigit(b % 16)]
    else [b]
  }

  function Escape(s: seq<byte>): seq<byte>
  {
    if s == [] then [] else EscapeByte(s[0]) + Escape(s[1..])
  }

  function Quote(s: seq<byte>): seq<byte>
  {
    [QUOTE] + Escape(s) + [QUOTE]
  }

  lemma {:induction false} EscapeConcat(s: seq<byte>, t: seq<byte>)
    ensures Escape(s + t) == Escape(s) + Escape(t)
  {
    if s == [] {
      assert s + t == t;
    } else {
      assert (s + t)[1..] == s[1..] + t;
      EscapeConcat(s[1..], t);
    }
  }

  // ----- The pieces in which the output is written

  function BytePieces(b: byte): seq<seq<byte>>
  {
    if b == QUOTE || b == BACKSLASH then [[BACKSLASH], [b]] else [EscapeByte(b)]
  }

  function StringPieces(s: seq<byte>): seq<seq<byte>>
  {
    if s == [] then [] else BytePieces(s[0]) + StringPieces(s[1..])
  }

  function QuotePieces(s: seq<byte>): seq<seq<byte>>
  {
    [[QUOTE]] + (StringPieces(s) + [[QUOTE]])
  }

  /** The pieces one after the other. */
  function Flatten(pieces: seq<seq<byte>>): seq<byte>
  {
    if pieces == [] then [] else pieces[0] + Flatten(pieces[1..])
  }

  lemma {:induction false} FlattenMore(pieces: seq<seq<byte>>, more: seq<seq<byte>>)
    ensures Flatten(pieces + more) == Flatten(pieces) + Flatten(more)
  {
    if pieces == [] {
      assert pieces + more == more;
    } else {
      assert (pieces + more)[1..] == pieces[1..] + more;
      FlattenMore(pieces[1..], more);
    }
  }

  lemma FlattenOne(piece: seq<byte>)
    ensures Flatten([piece]) == piece
  {
    assert [piece][1..] == [];
  }

  lemma FlattenByte(b: byte)
    ensures Flatten(BytePieces(b)) == EscapeByte(b)
  {
    hide Flatten;
    FlattenOne([b]);
    FlattenOne([BACKSLASH]);
    FlattenOne(EscapeByte(b));
    FlattenMore([[BACKSLASH]], [[b]]);
    assert [[BACKSLASH]] + [[b]] == [[BACKSLASH], [b]];
  }

  lemma {:induction false} FlattenString(s: seq<byte>)
    ensures Flatten(StringPieces(s)) == Escape(s)
  {
    if s != [] {
      FlattenString(s[1..]);
      FlattenByte(s[0]);
      FlattenMore(BytePieces(s[0]), StringPieces(s[1..]));
    }
  }

  /** The pieces of a literal make up the literal. */
  lemma FlattenQuote(s: seq<byte>)
    ensures Flatten(QuotePieces(s)) == Quote(s)
  {
    hide StringPieces, Escape;
    FlattenString(s);
    FlattenMore(StringPieces(s), [[QUOTE]]);
    FlattenMore([[QUOTE]], StringPieces(s) + [[QUOTE]]);
    assert Flatten([[QUOTE]]) == [QUOTE] by { assert [[QUOTE]][1..] == []; }
  }

  lemma {:induction false} StringPiecesMore(s: seq<byte>, t: seq<byte>)
    ensures StringPieces(s + t) == StringPieces(s) + StringPieces(t)
  {
    if s == [] {
      assert s + t == t;
    } else {
      assert (s + t)[1..] == s[1..] + t;
      StringPiecesMore(s[1..], t);
    }
  }

  lemma PiecesOfByte(b: byte)
    ensures StringPieces([b]) == BytePieces(b)
  {
    assert [b][1..] == [];
  }

  lemma CutBytes(value: seq<byte>, cursor: nat)
    requires cursor < |value|
    ensures value[..cursor + 1] == value[..cursor] + [value[cursor]]
    ensures value == value[..cursor + 1] + value[cursor + 1..]
  {
  }

  /** Where a string is cut, so are its pieces. */
  lemma PiecesAt(value: seq<byte>, cursor: nat)
    requires cursor < |value|
    ensures StringPieces(value[..cursor + 1]) == StringPieces(value[..cursor]) + BytePieces(value[cursor])
    ensures StringPieces(value) == StringPieces(value[..cursor + 1]) + StringPieces(value[cursor + 1..])
  {
    hide BytePieces, StringPieces;
    var s, b, t := value[..cursor], value[cursor], value[cursor + 1..];
    CutBytes(value, cursor);
    StringPiecesMore(s, [b]);
    StringPiecesMore(s + [b], t);
    PiecesOfByte(b);
  }

  /** A string whose pieces up to the cursor get through, and whose next ones do not, does not get through. */
  lemma CutShort(stream: Sink, k: nat, value: seq<byte>, cursor: nat)
    requires cursor < |value|
    ensures var before := [[QUOTE]] + StringPieces(value[..cursor]);
            && (stream.Takes(k, [[QUOTE]] + StringPieces(value[..cursor + 1])) <==>
                  stream.Takes(k, before) && stream.Takes(k + |before|, BytePieces(value[cursor])))
            && (stream.Takes(k, QuotePieces(value)) ==> stream.Takes(k, [[QUOTE]] + StringPieces(value[..cursor + 1])))
  {
    hide StringPieces, BytePieces, Sink.Takes;
    PiecesAt(value, cursor);
    var before := [[QUOTE]] + StringPieces(value[..cursor]);
    var here := [[QUOTE]] + StringPieces(value[..cursor + 1]);
    assert here == before + BytePieces(value[cursor]);
    stream.TakesMore(k, before, BytePieces(value[cursor]));
    assert QuotePieces(value) == here + (StringPieces(value[cursor + 1..]) + [[QUOTE]]);
    stream.TakesMore(k, here, StringPieces(value[cursor + 1..]) + [[QUOTE]]);
  }

  /** Writes one character of a JSON string, in one or two stream operations. */
  method WriteEscaped(stream: Sink, b: byte) returns (rc: Status)
    modifies stream
    ensures rc == SALT_OK || rc == SALT_ERR_IO
    ensures stream.failed == (old(stream.failed) || rc == SALT_ERR_IO)
    ensures rc == SALT_OK <==> stream.Takes(old(stream.ops), BytePieces(b))
    ensures rc == SALT_OK ==> stream.ops == old(stream.ops) + |BytePieces(b)|
    ensures Gained(old(stream.data), stream.data, EscapeByte(b), rc == SALT_OK)
  {
    hide Sink.Takes;
    var ok;
    stream.TakesOne(stream.ops, EscapeByte(b));
    stream.TakesFirst(stream.ops, [BACKSLASH], [[b]]);
    stream.TakesOne(stream.ops + 1, [b]);
    assert [[BACKSLASH]] + [[b]] == [[BACKSLASH], [b]];
    if b == QUOTE || b == BACKSLASH {
      ok := stream.Write([BACKSLASH]);
      if ok {
        ok := stream.Write([b]);
      }
    } else if b == LF {
      ok := stream.Write([BACKSLASH, 110]);
    } else if b == CR {
      ok := stream.Write([BACKSLASH, 114]);
    } else if b == TAB {
      ok := stream.Write([BACKSLASH, 116]);
    } else if b < 0x20 {
      ok := stream.Write([BACKSLASH, 117, 48, 48, HexDigit(b / 16), HexDigit(b % 16)]);
    } else {
      ok := stream.Write([b]);
    }
    return if ok then SALT_OK else SALT_ERR_IO;
  }

  lemma GainedThen(a: seq<byte>, b: seq<byte>, c: seq<byte>, t: seq<byte>, u: seq<byte>, complete: bool)
    requires Gained(a, b, t, true) && Gained(b, c, u, complete)
    ensures Gained(a, c, t + u, complete)
  {
    assert a + t + u == a + (t + u);
  }

  lemma GainedPart(a: seq<byte>, b: seq<byte>, t: seq<byte>, u: seq<byte>)
    requires Gained(a, b, t, false)
    ensures Gained(a, b, t + u, false)
  {
    assert a + t + u == a + (t + u);
  }

  /** Writes `value` as a JSON string. */
  method WriteJsonString(stream: Sink, value: CString) returns (rc: Status)
    modifies stream
    ensures rc == SALT_OK || rc == SALT_ERR_IO
    ensures stream.failed == (old(stream.failed) || rc == SALT_ERR_IO)
    ensures rc == SALT_OK <==> stream.Takes(old(stream.ops), QuotePieces(value))
    ensures rc == SALT_OK ==> stream.ops == old(stream.ops) + |QuotePieces(value)|
    ensures Gained(old(stream.data), stream.data, Quote(value), rc == SALT_OK)
  {
    hide Sink.Takes, BytePieces, StringPieces, EscapeByte, Escape;
    ghost var start, k := stream.data, stream.ops;
    stream.TakesFirst(k, [QUOTE], StringPieces(value) + [[QUOTE]]);
    NothingYet(stream, k);
    var ok := stream.Write([QUOTE]);
    if !ok {
      GainedPart(start, stream.data, [QUOTE], Escape(value) + [QUOTE]);
      assert [QUOTE] + (Escape(value) + [QUOTE]) == Quote(value);
      return SALT_ERR_IO;
    }
    var cursor := 0;
    while cursor < |value|
      invariant cursor <= |value|
      invariant stream.failed == old(stream.failed)
      invariant stream.Takes(k, [[QUOTE]] + StringPieces(value[..cursor]))
      invariant stream.ops == k + 1 + |StringPieces(value[..cursor])|
      invariant Gained(start, stream.data, [QUOTE] + Escape(value[..cursor]), true)
    {
      ghost var here := stream.data;
      rc := WriteEscaped(stream, value[cursor]);
      SplitAt(value, cursor);
      PiecesAt(value, cursor);
      CutShort(stream, k, value, cursor);
      GainedThen(start, here, stream.data, [QUOTE] + Escape(value[..cursor]), EscapeByte(value[cursor]), rc == SALT_OK);
      if rc != SALT_OK {
        GainedPart(start, stream.data, [QUOTE] + Escape(value[..cursor]) + EscapeByte(value[cursor]),
                   Escape(value[cursor + 1..]) + [QUOTE]);
        return;
      }
      cursor := cursor + 1;
    }
    assert value[..cursor] == value;
    ghost var here := stream.data;
    stream.TakesLast(k, [[QUOTE]] + StringPieces(value), [QUOTE]);
    assert [[QUOTE]] + StringPieces(value) + [[QUOTE]] == QuotePieces(value);
    ok := stream.Write([QUOTE]);
    GainedThen(start, here, stream.data, [QUOTE] + Escape(value), [QUOTE], ok);
    return if ok then SALT_OK else SALT_ERR_IO;
  }

  lemma NothingYet(stream: Sink, k: nat)
    ensures [QUOTE] + Escape([]) == [QUOTE] && StringPieces([]) == []
    ensures stream.Takes(k, [[QUOTE]] + []) <==> stream.quota(k) >= 1
  {
    assert [[QUOTE]] + [] == [[QUOTE]];
    stream.TakesOne(k, [QUOTE]);
  }

  lemma SplitAt(value: seq<byte>, cursor: nat)
    requires cursor < |value|
    ensures [QUOTE] + Escape(value[..cursor + 1]) == [QUOTE] + Escape(value[..cursor]) + EscapeByte(value[cursor])
    ensures [QUOTE] + Escape(value[..cursor]) + EscapeByte(value[cursor]) + (Escape(value[cursor + 1..]) + [QUOTE])
         == Quote(value)
  {
    hide Escape, EscapeByte;
    EscapeOne(value[cursor]);
    EscapeConcat(value[..cursor], [value[cursor]]);
    assert value[..cursor + 1] == value[..cursor] + [value[cursor]];
    EscapeConcat(value[..cursor + 1], value[cursor + 1..]);
    assert value == value[..cursor + 1] + value[cursor + 1..];
    InQuotes(Escape(value[..cursor]), EscapeByte(value[cursor]), Escape(value[cursor + 1..]));
  }

  lemma InQuotes(a: seq<byte>, b: seq<byte>, c: seq<byte>)
    ensures [QUOTE] + a + b == [QUOTE] + (a + b)
    ensures [QUOTE] + a + b + (c + [QUOTE]) == [QUOTE] + (a + b + c) + [QUOTE]
  {
  }

  lemma EscapeOne(b: byte)
    ensures Escape([b]) == EscapeByte(b)
  {
    assert [b][1..] == [] && EscapeByte(b) + [] == EscapeByte(b);
  }

  // ----- The output document

  datatype OutputMode = TEXT | JSON

  /** `{"encrypted_value":` and `,"key_id":` and `}` with a newline. */
  const OPENING: seq<byte> := [OPEN_BRACE] + HEADING
  const MIDDLE: seq<byte> := Ascii(",\"key_id\":")
  const CLOSING: seq<byte> := [CLOSE_BRACE, LF]

  function JsonDocument(encryptedValue: seq<byte>, keyId: seq<byte>): seq<byte>
  {
    OPENING + (Quote(encryptedValue) + (MIDDLE + (Quote(keyId) + CLOSING)))
  }

  /** The document for an encrypted value, when there is one: JSON needs a non-empty key id in UTF-8. */
  ghost function Document(mode: OutputMode, encryptedValue: seq<byte>, keyId: Option<seq<byte>>): Option<seq<byte>>
  {
    match mode
    case TEXT => Some(encryptedValue + [LF])
    case JSON =>
      if keyId.None? || keyId.value == [] || !Utf8.Accepts(keyId.value) then None
      else Some(JsonDocument(encryptedValue, keyId.value))
  }

  const HEADING: seq<byte> := Ascii("\"encrypted_value\":")

  /** What is written after the value, and with it. */
  function TailPieces(keyId: seq<byte>): seq<seq<byte>>
  {
    [MIDDLE] + (QuotePieces(keyId) + [CLOSING])
  }

  function MemberPieces(encryptedValue: seq<byte>, keyId: seq<byte>): seq<seq<byte>>
  {
    QuotePieces(encryptedValue) + TailPieces(keyId)
  }

  function JsonPieces(encryptedValue: seq<byte>, keyId: seq<byte>): seq<seq<byte>>
  {
    [[OPEN_BRACE]] + ([HEADING] + MemberPieces(encryptedValue, keyId))
  }

  /** The pieces in which a document is written. */
  function Pieces(mode: OutputMode, encryptedValue: seq<byte>, keyId: Option<seq<byte>>): seq<seq<byte>>
  {
    match mode
    case TEXT => [encryptedValue + [LF]]
    case JSON => JsonPieces(encryptedValue, keyId.GetOr([]))
  }

  /** They make up the document. */
  lemma PiecesMakeDocument(mode: OutputMode, encryptedValue: seq<byte>, keyId: Option<seq<byte>>)
    requires Document(mode, encryptedValue, keyId).Some?
    ensures Flatten(Pieces(mode, encryptedValue, keyId)) == Document(mode, encryptedValue, keyId).value
  {
    hide QuotePieces, Quote, Utf8.Accepts;
    var v, i := encryptedValue, keyId.GetOr([]);
    FlattenOne(v + [LF]);
    FlattenOne([OPEN_BRACE]);
    FlattenOne(HEADING);
    FlattenOne(MIDDLE);
    FlattenOne(CLOSING);
    FlattenQuote(v);
    FlattenQuote(i);
    FlattenMore(QuotePieces(i), [CLOSING]);
    FlattenMore([MIDDLE], QuotePieces(i) + [CLOSING]);
    FlattenMore(QuotePieces(v), TailPieces(i));
    FlattenMore([HEADING], MemberPieces(v, i));
    FlattenMore([[OPEN_BRACE]], [HEADING] + MemberPieces(v, i));
    Regrouped([OPEN_BRACE], HEADING, Quote(v) + (MIDDLE + (Quote(i) + CLOSING)));
  }

  lemma Regrouped(a: seq<byte>, b: seq<byte>, c: seq<byte>)
    ensures a + (b + c) == a + b + c
  {
  }

  /** Writes the pieces of the JSON document one after the other, stopping at the first failure. */
  method WriteJsonDocument(out: Sink, encryptedValue: CString, keyId: CString) returns (rc: Status)
    modifies out
    ensures rc == SALT_OK || rc == SALT_ERR_IO
    ensures out.failed == (old(out.failed) || rc == SALT_ERR_IO)
    ensures rc == SALT_OK <==> out.Takes(old(out.ops), JsonPieces(encryptedValue, keyId))
    ensures rc == SALT_OK ==> out.ops == old(out.ops) + |JsonPieces(encryptedValue, keyId)|
    ensures Gained(old(out.data), out.data, JsonDocument(encryptedValue, keyId), rc == SALT_OK)
  {
    hide Sink.Takes, MemberPieces, Quote;
    ghost var start, members := out.data, MemberPieces(encryptedValue, keyId);
    out.TakesFirst(out.ops, [OPEN_BRACE], [HEADING] + members);
    out.TakesFirst(out.ops + 1, HEADING, members);
    var ok := out.Write([OPEN_BRACE]);
    ghost var here := out.data;
    if ok {
      ok := out.Write(HEADING);
      GainedThen(start, here, out.data, [OPEN_BRACE], HEADING, ok);
    } else {
      GainedPart(start, out.data, [OPEN_BRACE], HEADING);
    }
    ghost var rest := Quote(encryptedValue) + (MIDDLE + (Quote(keyId) + CLOSING));
    if !ok {
      GainedPart(start, out.data, OPENING, rest);
      return SALT_ERR_IO;
    }
    here := out.data;
    rc := WriteJsonMembers(out, encryptedValue, keyId);
    GainedThen(start, here, out.data, OPENING, rest, rc == SALT_OK);
  }

  method WriteJsonMembers(out: Sink, encryptedValue: CString, keyId: CString) returns (rc: Status)
    modifies out
    ensures rc == SALT_OK || rc == SALT_ERR_IO
    ensures out.failed == (old(out.failed) || rc == SALT_ERR_IO)
    ensures rc == SALT_OK <==> out.Takes(old(out.ops), MemberPieces(encryptedValue, keyId))
    ensures rc == SALT_OK ==> out.ops == old(out.ops) + |MemberPieces(encryptedValue, keyId)|
    ensures Gained(old(out.data), out.data, Quote(encryptedValue) + (MIDDLE + (Quote(keyId) + CLOSING)), rc == SALT_OK)
  {
    hide Sink.Takes, QuotePieces, TailPieces, Quote;
    ghost var start := out.data;
    ghost var rest := MIDDLE + (Quote(keyId) + CLOSING);
    out.TakesMore(out.ops, QuotePieces(encryptedValue), TailPieces(keyId));
    rc := WriteJsonString(out, encryptedValue);
    if rc != SALT_OK {
      GainedPart(start, out.data, Quote(encryptedValue), rest);
      return;
    }
    ghost var here := out.data;
    rc := WriteJsonTail(out, keyId);
    GainedThen(start, here, out.data, Quote(encryptedValue), rest, rc == SALT_OK);
  }

  method WriteJsonTail(out: Sink, keyId: CString) returns (rc: Status)
    modifies out
    ensures rc == SALT_OK || rc == SALT_ERR_IO
    ensures out.failed == (old(out.failed) || rc == SALT_ERR_IO)
    ensures rc == SALT_OK <==> out.Takes(old(out.ops), TailPieces(keyId))
    ensures rc == SALT_OK ==> out.ops == old(out.ops) + |TailPieces(keyId)|
    ensures Gained(old(out.data), out.data, MIDDLE + (Quote(keyId) + CLOSING), rc == SALT_OK)
  {
    hide Sink.Takes, QuotePieces, Quote;
    ghost var start := out.data;
    out.TakesFirst(out.ops, MIDDLE, QuotePieces(keyId) + [CLOSING]);
    out.TakesLast(out.ops + 1, QuotePieces(keyId), CLOSING);
    var ok := out.Write(MIDDLE);
    if !ok {
      GainedPart(start, out.data, MIDDLE, Quote(keyId) + CLOSING);
      return SALT_ERR_IO;
    }
    ghost var afterMiddle := out.data;
    rc := WriteJsonString(out, keyId);
    if rc != SALT_OK {
      GainedPart(afterMiddle, out.data, Quote(keyId), CLOSING);
    } else {
      ghost var afterId := out.data;
      ok := out.Write(CLOSING);
      GainedThen(afterMiddle, afterId, out.data, Quote(keyId), CLOSING, ok);
      rc := if ok then SALT_OK else SALT_ERR_IO;
    }
    GainedThen(start, afterMiddle, out.data, MIDDLE, Quote(keyId) + CLOSING, rc == SALT_OK);
  }

  /**
    * Emits the document. Nothing is written unless there is one; it succeeds exactly if the stream was not in error,
        all
    * the pieces get through and the flush after them works.
    */
  method EmitOutput(out: Sink, mode: OutputMode, encryptedValue: CString, keyId: Option<CString>) returns (rc: Status)
    modifies out
    ensures var doc := Document(mode, encryptedValue, keyId);
            && (doc.None? ==> rc == SALT_ERR_INPUT && unchanged(out))
            && (doc.Some? ==>
                  && rc == (if !old(out.failed) && out.Delivers(old(out.ops), Pieces(mode, encryptedValue, keyId))
                            then SALT_OK else SALT_ERR_IO)
                  && out.failed == (rc != SALT_OK)
                  && Gained(old(out.data), out.data, doc.value, rc == SALT_OK))
  {
    hide Sink.Takes, JsonPieces, JsonDocument;
    if mode == TEXT {
      out.TakesOne(out.ops, encryptedValue + [LF]);
      var ok := out.Write(encryptedValue + [LF]);
      if !ok {
        return SALT_ERR_IO;
      }
      rc := FlushStream(out);
      return;
    }
    if keyId == None || keyId.value == [] {
      return SALT_ERR_INPUT;
    }
    var valid := Utf8.IsValidUtf8(keyId.value);
    Utf8.AcceptorIsExact(keyId.value);
    if !valid {
      return SALT_ERR_INPUT;
    }
    rc := WriteJsonDocument(out, encryptedValue, keyId.value);
    if rc != SALT_OK {
      return;
    }
    rc := FlushStream(out);
  }

  /** A flush succeeds only if no earlier operation on the stream failed either. */
  method FlushStream(out: Sink) returns (rc: Status)
    modifies out
    ensures rc == (if !old(out.failed) && out.quota(old(out.ops)) > 0 then SALT_OK else SALT_ERR_IO)
    ensures out.failed == (rc != SALT_OK) && out.data == old(out.data)
  {
    var ok := out.Flush();
    return if !ok || out.failed then SALT_ERR_IO else SALT_OK;
  }

  lemma FixedParts()
    ensures OPENING + [QUOTE] == Ascii("{\"encrypted_value\":\"")
    ensures [QUOTE] + MIDDLE + [QUOTE] == Ascii("\",\"key_id\":\"")
    ensures [QUOTE] + CLOSING == Ascii("\"}\n")
  {
  }

  lemma Regroup(a: seq<byte>, q: seq<byte>, v: seq<byte>, b: seq<byte>, i: seq<byte>, c: seq<byte>)
    ensures a + ((q + v + q) + (b + ((q + i + q) + c))) == (a + q) + v + (q + b + q) + i + (q + c)
  {
  }

  /** The line, character by character outside the two strings. */
  lemma LineIs(encryptedValue: seq<byte>, keyId: seq<byte>)
    ensures JsonDocument(encryptedValue, keyId)
         == Ascii("{\"encrypted_value\":\"") + Escape(encryptedValue) + Ascii("\",\"key_id\":\"") + Escape(keyId)
            + Ascii("\"}\n")
  {
    hide Ascii, Escape;
    FixedParts();
    Regroup(OPENING, [QUOTE], Escape(encryptedValue), MIDDLE, Escape(keyId), CLOSING);
  }
}

/** The strict key parser: a cursor over a C string, decoding into bounded buffers. */
module KeyParser {
  import opened Bytes
  import opened JsonGrammar

  /** Escape characters and the bytes they stand for. */
  const ESCAPE_TABLE: seq<(byte, byte)> :=
    [(LOWER_N, LF), (LOWER_R, CR), (LOWER_T, TAB), (QUOTE, QUOTE), (BACKSLASH, BACKSLASH), (SLASH, SLASH)]

  method EscapeLookup(escapeChar: byte) returns (found: bool, value: byte)
    ensures found == Unescape(escapeChar).Some?
    ensures found ==> value == Unescape(escapeChar).value
  {
    for j := 0 to |ESCAPE_TABLE|
      invariant forall k | 0 <= k < j :: ESCAPE_TABLE[k].0 != escapeChar
    {
      if ESCAPE_TABLE[j].0 == escapeChar {
        return true, ESCAPE_TABLE[j].1;
      }
    }
    assert ESCAPE_TABLE[0].0 == LOWER_N && ESCAPE_TABLE[1].0 == LOWER_R && ESCAPE_TABLE[2].0 == LOWER_T;
    assert ESCAPE_TABLE[3].0 == QUOTE && ESCAPE_TABLE[4].0 == BACKSLASH && ESCAPE_TABLE[5].0 == SLASH;
    return false, 0;
  }

  /** What the cursor points at: the NUL is there to be read, and nothing beyond it. */
  function Peek(json: CString, cursor: nat): byte
    requires cursor <= |json|
  {
    if cursor < |json| then json[cursor] else 0
  }

  method SkipWs(json: CString, cursor: nat) returns (next: nat)
    requires cursor <= |json|
    ensures cursor <= next <= |json|
    ensures json[next..] == TrimLeft(json[cursor..])
  {
    next := cursor;
    while Peek(json, next) != 0 && IsWs(Peek(json, next))
      invariant cursor <= next <= |json|
      invariant TrimLeft(json[next..]) == TrimLeft(json[cursor..])
      decreases |json| - next
    {
      assert json[next..][1..] == json[next + 1..];
      next := next + 1;
    }
  }

  // ----- String tokens

  function Prepend<T>(done: seq<T>, r: Option<Lexed<seq<T>>>): Option<Lexed<seq<T>>>
  {
    match r
    case None => None
    case Some(l) => Some(Lexed(done + l.it, l.rest))
  }

  lemma PrependNone<T>(r: Option<Lexed<seq<T>>>)
    ensures Prepend([], r) == r
  {
    if r.Some? {
      assert [] + r.value.it == r.value.it;
    }
  }

  lemma PrependOne<T>(done: seq<T>, x: T, r: Option<Lexed<seq<T>>>)
    ensures Prepend(done, Prepend([x], r)) == Prepend(done + [x], r)
  {
    if r.Some? {
      assert done + ([x] + r.value.it) == done + [x] + r.value.it;
    }
  }

  /** Reads one character of a string body, if there is room for it. */
  method ParseCharacter(json: CString, cursor: nat, room: bool)
    returns (ok: bool, value: byte, next: nat, ghost p: Piece)
    requires cursor < |json| && json[cursor] != QUOTE
    ensures cursor <= next <= |json|
    ensures ok ==> room && next > cursor && PieceOk(p) && value == PieceValue(p)
                   && LexBody(json[cursor..]) == Prepend([p], LexBody(json[next..]))
    ensures !ok && room ==> LexBody(json[cursor..]) == None
  {
    ok, value, next, p := false, 0, cursor, Raw(0);
    ghost var s := json[cursor..];
    if json[next] == BACKSLASH {
      next := next + 1;
      if Peek(json, next) == 0 {
        return;
      }
      if !room {
        return;
      }
      p := Escaped(json[next]);
      ok, value := EscapeLookup(json[next]);
      if !ok {
        return;
      }
      assert s[2..] == json[next + 1..];
    } else {
      p := Raw(json[next]);
      if json[next] < 0x20 {
        return;
      }
      if !room {
        return;
      }
      ok, value := true, json[next];
      assert s[1..] == json[next + 1..];
    }
    next := next + 1;
  }

  lemma LexBodyEnd(s: seq<byte>)
    ensures s == [] ==> LexBody(s) == None
    ensures s != [] && s[0] == QUOTE ==> LexBody(s) == Some(Lexed([], s[1..]))
  {
  }

  lemma LexBodyMore(s: seq<byte>)
    ensures s != [] && s[0] != QUOTE && LexBody(s).Some? ==> LexBody(s).value.it != []
  {
  }

  /** Decodes a string literal into `out`, with its NUL. */
  method ParseStringToken(json: CString, cursor: nat, out: array<byte>) returns (ok: bool, next: nat)
    requires cursor <= |json|
    modifies out
    ensures cursor <= next <= |json| && (ok ==> cursor < next)
    ensures ok <==> TokenAccepted(json[cursor..], out.Length)
    ensures ok ==> var l := LexString(json[cursor..]).value;
                   && json[next..] == l.rest
                   && PiecesOk(l.it) && 0 in out[..] && Values(l.it) == CStr(out[..])
  {
    hide CStr, LexBody, PieceValue;
    next := cursor;
    if out.Length == 0 || Peek(json, next) != QUOTE {
      return false, next;
    }
    next := next + 1;
    ghost var body := LexBody(json[next..]);
    assert json[cursor..][1..] == json[next..];
    ghost var done: seq<Piece> := [];
    PrependNone(body);
    var i := 0;
    while Peek(json, next) != 0 && Peek(json, next) != QUOTE
      invariant cursor < next <= |json|
      invariant PiecesOk(done) && i == |done| < out.Length && out[..i] == Values(done) && i < next - cursor
      invariant body == Prepend(done, LexBody(json[next..]))
      decreases |json| - next
    {
      var value;
      ghost var p;
      ghost var here := next;
      // in a buffer longer than the text there is always room
      assert |json| < out.Length ==> i + 1 < out.Length;
      LexBodyMore(json[next..]);
      ok, value, next, p := ParseCharacter(json, next, i + 1 < out.Length);
      if !ok {
        return false, next;
      }
      PrependOne(done, p, LexBody(json[next..]));
      done := done + [p];
      out[i] := value;
      i := i + 1;
    }
    LexBodyEnd(json[next..]);
    if Peek(json, next) != QUOTE {
      return false, next;
    }
    assert done + [] == done;
    assert json[next..][1..] == json[next + 1..];
    out[i] := 0;
    CStrIs(out[..], i);
    next := next + 1;
    return true, next;
  }

  // ----- Fields

  /** The buffers the two fields go to, and which of them have been seen. */
  class KeyFields {
    const keyB64: array<byte>
    const keyId: array?<byte>
    var keySet: bool
    var keyIdSet: bool

    constructor (keyB64: array<byte>, keyId: array?<byte>)
      ensures this.keyB64 == keyB64 && this.keyId == keyId && !keySet && !keyIdSet
    {
      this.keyB64, this.keyId, keySet, keyIdSet := keyB64, keyId, false, false;
    }

    function IdCap(): nat
    {
      if keyId == null then 0 else keyId.Length
    }

    /** The flags and buffers say exactly what the fields read so far say. */
    ghost predicate Holds(done: seq<Field>)
      reads this, keyB64, keyId
    {
      && (keySet ==> 0 in keyB64[..])
      && (keyIdSet ==> keyId != null && 0 in keyId[..])
      && Summary(done, if keySet then Some(CStr(keyB64[..])) else None,
                 if keyIdSet then Some(CStr(keyId[..])) else None, keyB64.Length, IdCap())
    }
  }

  /** The fields read so far are acceptable, and `key` and `id` are their values. */
  ghost predicate Summary(done: seq<Field>, key: Option<seq<byte>>, id: Option<seq<byte>>, keyCap: nat, idCap: nat)
  {
    && FieldsOk(done)
    && AllFit(done, keyCap, idCap)
    && AtMostOnce(done, KEY) && AtMostOnce(done, KEY_ID)
    && ValueOf(done, KEY) == key && ValueOf(done, KEY_ID) == id
  }

  /** Reads `ws name ws : ws`. The buffer for the name holds 32 bytes. */
  method ParseFieldName(json: CString, cursor: nat, field: array<byte>) returns (rc: Status, next: nat)
    requires cursor <= |json|
    modifies field
    ensures cursor <= next <= |json| && (rc == SALT_OK || rc == SALT_ERR_INPUT)
    ensures rc == SALT_OK <==> NamesField(LexQuoted(json[cursor..]), field.Length)
    ensures rc == SALT_OK ==> var q := LexQuoted(json[cursor..]).value;
                              && json[next..] == TrimLeft(q.rest[1..]) && next > cursor
                              && PiecesOk(q.it.body) && Values(q.it.body) == CStr(field[..])
  {
    hide TrimLeft, LexString, CStr;
    ghost var s := json[cursor..];
    next := SkipWs(json, cursor);
    assert json[next..] == TrimLeft(s);
    var ok;
    ok, next := ParseStringToken(json, next, field);
    if !ok {
      return SALT_ERR_INPUT, next;
    }
    assert json[next..] == LexString(TrimLeft(s)).value.rest;
    next := SkipWs(json, next);
    assert json[next..] == LexQuoted(s).value.rest;
    if Peek(json, next) != COLON {
      return SALT_ERR_INPUT, next;
    }
    assert json[next..][1..] == json[next + 1..];
    next := SkipWs(json, next + 1);
    return SALT_OK, next;
  }

  /** A name short enough for the buffer, then a colon. */
  predicate NamesField(q: Option<Lexed<Quoted>>, size: nat)
  {
    q.Some? && |q.value.it.body| < size && q.value.rest != [] && q.value.rest[0] == COLON
  }

  /** The field `name` may be read now: it is known, it has not been seen, and its value fits its buffer. */
  ghost predicate MayRead(name: seq<byte>, length: nat, fields: KeyFields)
    reads fields
  {
    || (name == KEY && !fields.keySet && length < fields.keyB64.Length)
    || (name == KEY_ID && !fields.keyIdSet && fields.keyId != null && length < fields.keyId.Length)
  }

  method ParseKnownField(name: CString, json: CString, cursor: nat, fields: KeyFields)
    returns (rc: Status, next: nat)
    requires cursor <= |json| && fields.keyB64 != fields.keyId
    modifies fields, fields.keyB64, fields.keyId
    ensures cursor <= next <= |json| && (rc == SALT_OK || rc == SALT_ERR_INPUT)
    ensures rc == SALT_OK <==> var l := LexString(json[cursor..]);
                               l.Some? && old(MayRead(name, |l.value.it|, fields))
    ensures rc == SALT_OK ==>
              var l := LexString(json[cursor..]).value;
              && json[next..] == l.rest && PiecesOk(l.it)
              && (name == KEY ==> && fields.keySet && 0 in fields.keyB64[..] && CStr(fields.keyB64[..]) == Values(l.it)
                                  && fields.keyIdSet == old(fields.keyIdSet)
                                  && (fields.keyId != null ==> fields.keyId[..] == old(fields.keyId[..])))
              && (name == KEY_ID ==> && fields.keyIdSet && 0 in fields.keyId[..]
                                     && CStr(fields.keyId[..]) == Values(l.it)
                                     && fields.keySet == old(fields.keySet)
                                     && fields.keyB64[..] == old(fields.keyB64[..]))
  {
    rc, next := SALT_ERR_INPUT, cursor;
    var ok;
    if name == KEY {
      if fields.keySet {
        return;
      }
      ok, next := ParseStringToken(json, cursor, fields.keyB64);
      if !ok {
        return;
      }
      fields.keySet := true;
      return SALT_OK, next;
    }
    if name == KEY_ID {
      if fields.keyIdSet {
        return;
      }
      if fields.keyId == null || fields.keyId.Length == 0 {
        return;
      }
      ok, next := ParseStringToken(json, cursor, fields.keyId);
      if !ok {
        return;
      }
      fields.keyIdSet := true;
      return SALT_OK, next;
    }
  }

  // ----- Key objects

  /** A field may follow `done` when it fits and its name has not been seen. */
  predicate MayFollow(done: seq<Field>, f: Field, keyCap: nat, idCap: nat)
    requires FieldsOk(done) && f.Ok()
  {
    Fits(f, keyCap, idCap) && ValueOf(done, Name(f)) == None
  }

  lemma {:induction false} ValueOfSnoc(done: seq<Field>, f: Field, name: seq<byte>)
    requires FieldsOk(done) && f.Ok()
    ensures FieldsOk(done + [f])
    ensures ValueOf(done + [f], name)
         == if ValueOf(done, name).Some? then ValueOf(done, name)
            else if Name(f) == name then Some(Values(f.value.body)) else None
  {
    if done == [] {
      assert done + [f] == [f];
    } else {
      assert (done + [f])[1..] == done[1..] + [f];
      ValueOfSnoc(done[1..], f, name);
    }
  }

  lemma SnocAcceptable(done: seq<Field>, f: Field, keyCap: nat, idCap: nat)
    requires FieldsOk(done) && f.Ok() && MayFollow(done, f, keyCap, idCap)
    requires AllFit(done, keyCap, idCap) && AtMostOnce(done, KEY) && AtMostOnce(done, KEY_ID)
    ensures FieldsOk(done + [f]) && AllFit(done + [f], keyCap, idCap)
    ensures AtMostOnce(done + [f], KEY) && AtMostOnce(done + [f], KEY_ID)
  {
    assert forall k | 0 <= k < |done| :: Name(done[k]) != Name(f);
  }

  lemma SummarySnoc(done: seq<Field>, f: Field, key: Option<seq<byte>>, id: Option<seq<byte>>, keyCap: nat, idCap: nat)
    requires Summary(done, key, id, keyCap, idCap) && f.Ok() && MayFollow(done, f, keyCap, idCap)
    ensures Summary(done + [f],
                    if Name(f) == KEY then Some(Values(f.value.body)) else key,
                    if Name(f) == KEY_ID then Some(Values(f.value.body)) else id, keyCap, idCap)
  {
    SnocAcceptable(done, f, keyCap, idCap);
    ValueOfSnoc(done, f, KEY);
    ValueOfSnoc(done, f, KEY_ID);
  }

  /** A field that may not follow the ones before it spoils every list of fields it starts. */
  lemma SpoilsAcceptable(done: seq<Field>, f: Field, more: seq<Field>, keyCap: nat, idCap: nat)
    requires FieldsOk(done + ([f] + more)) && FieldsOk(done) && f.Ok() && !MayFollow(done, f, keyCap, idCap)
    ensures var fs := done + ([f] + more);
            !(AllFit(fs, keyCap, idCap) && AtMostOnce(fs, KEY) && AtMostOnce(fs, KEY_ID))
  {
    var fs := done + ([f] + more);
    var n := |done|;
    assert fs[n] == f;
    if Fits(f, keyCap, idCap) {
      var i :| 0 <= i < n && Name(done[i]) == Name(f);
      assert fs[i] == done[i];
    }
  }

  /** `s` is what follows the brace that opens the object and the whitespace after it. */
  ghost predicate InObject(json: seq<byte>, s: seq<byte>)
  {
    var t := TrimLeft(json);
    t != [] && t[0] == OPEN_BRACE && TrimLeft(t[1..]) == s
  }

  lemma NoFields(json: seq<byte>, s: seq<byte>, keyCap: nat, idCap: nat)
    requires InObject(json, s) && LexFields(s) == None
    ensures ParseObject(json, keyCap, idCap) == None
  {
  }

  lemma BadField(json: seq<byte>, s: seq<byte>, done: seq<Field>, t: seq<byte>, keyCap: nat, idCap: nat)
    requires InObject(json, s) && LexFields(s) == Prepend(done, LexFields(t)) && FieldsOk(done)
    requires LexField(t).Some? ==> var f := LexField(t).value.it; f.Ok() ==> !MayFollow(done, f, keyCap, idCap)
    ensures ParseObject(json, keyCap, idCap) == None
  {
    if LexDoc(json).Some? {
      LexDocSound(json);
      LexFieldSound(t);
      var f := LexField(t).value.it;
      var fs := LexFields(t).value.it;
      LexFieldsFirst(t);
      hide LexFields, LexField, MayFollow, TrimLeft, Fits, AllFit, AtMostOnce;
      SpoilsAcceptable(done, f, fs[1..], keyCap, idCap);
    }
  }

  lemma LexFieldsFirst(t: seq<byte>)
    requires LexFields(t).Some?
    ensures LexField(t).Some?
    ensures var fs := LexFields(t).value.it; fs == [LexField(t).value.it] + fs[1..]
  {
  }

  lemma NextField(s: seq<byte>, done: seq<Field>, t: seq<byte>)
    requires LexFields(s) == Prepend(done, LexFields(t)) && LexField(t).Some?
    ensures var l := LexField(t).value;
            && (l.rest == [] || (l.rest[0] != COMMA && l.rest[0] != CLOSE_BRACE) ==> LexFields(s) == None)
            && (l.rest != [] && l.rest[0] == COMMA ==>
                  LexFields(s) == Prepend(done + [l.it], LexFields(l.rest[1..])))
            && (l.rest != [] && l.rest[0] == CLOSE_BRACE ==>
                  LexFields(s) == Some(Lexed(done + [l.it], l.rest[1..])))
  {
    var l := LexField(t).value;
    if l.rest != [] && l.rest[0] == COMMA {
      PrependOne(done, l.it, LexFields(l.rest[1..]));
    }
  }

  /** The last step: the fields are complete, and only whitespace may follow. */
  lemma WholeObject(json: seq<byte>, s: seq<byte>, fs: seq<Field>, rest: seq<byte>, keyCap: nat, idCap: nat)
    requires InObject(json, s) && LexFields(s) == Some(Lexed(fs, rest)) && FieldsOk(fs)
    requires AllFit(fs, keyCap, idCap) && AtMostOnce(fs, KEY) && AtMostOnce(fs, KEY_ID)
    ensures ParseObject(json, keyCap, idCap)
         == if TrimLeft(rest) != [] || ValueOf(fs, KEY) == None || Trim(ValueOf(fs, KEY).value) == [] then None
            else Some(ParsedKey(Trim(ValueOf(fs, KEY).value),
                                Trim(ValueOf(fs, KEY_ID).GetOr([]))))
  {
    hide LexFields, AllFit, AtMostOnce, ValueOf, TrimLeft, TrimRight;
    if LexDoc(json).Some? {
      LexDocSound(json);
    }
  }

  lemma FieldParts(s: seq<byte>)
    ensures LexField(s).Some? <==>
            NamesField(LexQuoted(s), |s|) && LexString(TrimLeft(LexQuoted(s).value.rest[1..])).Some?
    ensures LexField(s).Some? ==>
              var q, f := LexQuoted(s).value, LexField(s).value;
              var v := LexString(TrimLeft(q.rest[1..])).value;
              && f.it.Ok() && f.it.name == q.it && f.it.value.body == v.it && f.rest == TrimLeft(v.rest)
  {
    if LexField(s).Some? {
      LexFieldSound(s);
    }
    if LexQuoted(s).Some? {
      LexStringSound(TrimLeft(s));
      TextLength(LexQuoted(s).value.it.body);
    }
  }

  lemma {:induction false} TextLength(ps: seq<Piece>)
    ensures |ps| <= |Text(ps)|
  {
    if ps != [] {
      TextLength(ps[1..]);
    }
  }

  /** Reads one field, up to what follows it. */
  method ParseField(json: CString, cursor: nat, fields: KeyFields, ghost done: seq<Field>)
    returns (rc: Status, next: nat)
    requires cursor <= |json| && fields.keyB64 != fields.keyId && fields.Holds(done)
    modifies fields, fields.keyB64, fields.keyId
    ensures cursor <= next <= |json| && (rc == SALT_OK || rc == SALT_ERR_INPUT)
    ensures rc == SALT_OK <==>
              && LexField(json[cursor..]).Some?
              && var f := LexField(json[cursor..]).value.it;
              f.Ok() && MayFollow(done, f, fields.keyB64.Length, fields.IdCap())
    ensures rc == SALT_OK ==> var l := LexField(json[cursor..]).value;
                              json[next..] == l.rest && next > cursor && fields.Holds(done + [l.it])
    ensures rc == SALT_OK && !fields.keyIdSet ==>
              !old(fields.keyIdSet) && (fields.keyId != null ==> fields.keyId[..] == old(fields.keyId[..]))
  {
    ghost var s := json[cursor..];
    FieldParts(s);
    var name := new byte[32];
    rc, next := ParseFieldName(json, cursor, name);
    if rc != SALT_OK {
      return;
    }
    var field := CStr(name[..]);
    rc, next := ParseKnownField(field, json, next, fields);
    if rc != SALT_OK {
      return;
    }
    ghost var f := LexField(s).value.it;
    SummarySnoc(done, f, ValueOf(done, KEY), ValueOf(done, KEY_ID), fields.keyB64.Length, fields.IdCap());
    next := SkipWs(json, next);
  }

  function Capacity(buffer: array?<byte>): nat
  {
    if buffer == null then 0 else buffer.Length
  }

  /** The outcome of a parse, as the buffers and the flag give it. */
  ghost predicate Delivers(p: Option<ParsedKey>, rc: Status, keyB64: array?<byte>, keyId: array?<byte>, hasKeyId: bool)
    reads keyB64, keyId
  {
    if p.None? then rc == SALT_ERR_INPUT && !hasKeyId
    else
      && rc == SALT_OK
      && keyB64 != null && 0 in keyB64[..] && CStr(keyB64[..]) == p.value.key
      && (Capacity(keyId) > 0 ==> CStr(keyId[..]) == p.value.keyId)
      && hasKeyId == (p.value.keyId != [])
  }

  method FinishKeyFields(fields: KeyFields, ghost done: seq<Field>) returns (rc: Status, hasKeyId: bool)
    requires fields.keyB64 != fields.keyId && fields.keyB64.Length > 0 && fields.Holds(done)
    requires !fields.keyIdSet && fields.IdCap() > 0 ==> CStr(fields.keyId[..]) == []
    modifies fields.keyB64, fields.keyId
    ensures Delivers(if ValueOf(done, KEY) == None || Trim(ValueOf(done, KEY).value) == [] then None
                     else Some(ParsedKey(Trim(ValueOf(done, KEY).value),
                                         Trim(ValueOf(done, KEY_ID).GetOr([])))),
                     rc, fields.keyB64, fields.keyId, hasKeyId)
  {
    hasKeyId := false;
    if !fields.keySet {
      return SALT_ERR_INPUT, false;
    }
    TrimBuffer(fields.keyB64);
    if fields.keyB64[0] == 0 {
      return SALT_ERR_INPUT, false;
    }
    if fields.keyIdSet {
      TrimBuffer(fields.keyId);
      if fields.keyId[0] != 0 {
        hasKeyId := true;
      }
    }
    return SALT_OK, hasKeyId;
  }

  /** Trims a buffer that holds a C string. */
  method TrimBuffer(value: array<byte>)
    requires value.Length > 0 && 0 in value[..]
    modifies value
    ensures 0 in value[..]
    ensures CStr(value[..]) == Trim(CStr(old(value[..]))) && (value[0] == 0 <==> CStr(value[..]) == [])
  {
    assert value[..] == value[..value.Length];
    TrimWhitespaceInPlace(value, value.Length);
    assert value[..] == value[..value.Length];
  }

  /** The same, at a cursor: what follows the field decides. */
  lemma Separator(json: CString, s: seq<byte>, done: seq<Field>, cursor: nat, next: nat, keyCap: nat, idCap: nat)
    requires cursor <= next <= |json| && InObject(json, s)
    requires LexFields(s) == Prepend(done, LexFields(json[cursor..]))
    requires LexField(json[cursor..]).Some? && LexField(json[cursor..]).value.rest == json[next..]
    ensures var all := done + [LexField(json[cursor..]).value.it];
            if Peek(json, next) == COMMA then LexFields(s) == Prepend(all, LexFields(json[next + 1..]))
            else if Peek(json, next) == CLOSE_BRACE then LexFields(s) == Some(Lexed(all, json[next + 1..]))
            else ParseObject(json, keyCap, idCap) == None
  {
    NextField(s, done, json[cursor..]);
    if next < |json| {
      assert json[next..][1..] == json[next + 1..];
    }
    if LexFields(s) == None {
      NoFields(json, s, keyCap, idCap);
    }
  }

  /** One turn of the loop: a field, and the comma or brace after it. */
  method ParseFieldAndSeparator(json: CString, cursor: nat, fields: KeyFields, ghost s: seq<byte>,
                                ghost before: seq<Field>)
    returns (rc: Status, more: bool, next: nat, ghost done: seq<Field>)
    requires cursor <= |json| && InObject(json, s)
    requires fields.keyB64 != fields.keyId && fields.Holds(before)
    requires LexFields(s) == Prepend(before, LexFields(json[cursor..]))
    modifies fields, fields.keyB64, fields.keyId
    ensures cursor <= next <= |json| && (rc == SALT_OK || rc == SALT_ERR_INPUT)
    ensures rc != SALT_OK ==> ParseObject(json, fields.keyB64.Length, fields.IdCap()) == None
    ensures rc == SALT_OK ==> fields.Holds(done) && cursor < next
    ensures rc == SALT_OK && more ==> LexFields(s) == Prepend(done, LexFields(json[next..]))
    ensures rc == SALT_OK && !more ==> LexFields(s) == Some(Lexed(done, json[next..]))
    ensures rc == SALT_OK && !fields.keyIdSet ==>
              !old(fields.keyIdSet) && (fields.keyId != null ==> fields.keyId[..] == old(fields.keyId[..]))
  {
    hide LexFields, Prepend;
    ghost var t := json[cursor..];
    more, done := false, before;
    rc, next := ParseField(json, cursor, fields, before);
    if rc != SALT_OK {
      BadField(json, s, before, t, fields.keyB64.Length, fields.IdCap());
      return;
    }
    Separator(json, s, before, cursor, next, fields.keyB64.Length, fields.IdCap());
    done := before + [LexField(t).value.it];
    if Peek(json, next) == COMMA {
      next, more := next + 1, true;
    } else if Peek(json, next) == CLOSE_BRACE {
      next := next + 1;
    } else {
      rc := SALT_ERR_INPUT;
    }
  }

  /** The loop over the fields, up to the text after the closing brace. */
  method ParseFields(json: CString, cursor: nat, fields: KeyFields)
    returns (rc: Status, next: nat, ghost done: seq<Field>)
    requires cursor <= |json| && InObject(json, json[cursor..])
    requires fields.keyB64 != fields.keyId && fields.Holds([])
    modifies fields, fields.keyB64, fields.keyId
    ensures next <= |json|
    ensures rc != SALT_OK ==> rc == SALT_ERR_INPUT && ParseObject(json, fields.keyB64.Length, fields.IdCap()) == None
    ensures rc == SALT_OK ==> fields.Holds(done) && LexFields(json[cursor..]) == Some(Lexed(done, json[next..]))
    ensures rc == SALT_OK && !fields.keyIdSet ==>
              !old(fields.keyIdSet) && (fields.keyId != null ==> fields.keyId[..] == old(fields.keyId[..]))
  {
    ghost var s := json[cursor..];
    next, done := cursor, [];
    PrependNone(LexFields(s));
    var more := true;
    while more
      invariant cursor <= next <= |json|
      invariant fields.Holds(done)
      invariant LexFields(s) == if more then Prepend(done, LexFields(json[next..])) else Some(Lexed(done, json[next..]))
      invariant !fields.keyIdSet ==>
                  !old(fields.keyIdSet) && (fields.keyId != null ==> fields.keyId[..] == old(fields.keyId[..]))
      decreases more, |json| - next
    {
      rc, more, next, done := ParseFieldAndSeparator(json, next, fields, s, done);
      if rc != SALT_OK {
        return;
      }
    }
    rc := SALT_OK;
  }

  /** Parses a strict key object. */
  method ParseKeyJsonObjectStrict(json: CString, keyB64: array?<byte>, keyId: array?<byte>)
    returns (rc: Status, hasKeyId: bool)
    requires keyB64 == null || keyB64 != keyId
    modifies keyB64, keyId
    ensures Delivers(ParseObject(json, Capacity(keyB64), Capacity(keyId)), rc, keyB64, keyId, hasKeyId)
    ensures rc == SALT_OK <==> exists p :: IsKeyObject(json, Capacity(keyB64), Capacity(keyId), p)
    ensures forall p | IsKeyObject(json, Capacity(keyB64), Capacity(keyId), p) ::
              && keyB64 != null && CStr(keyB64[..]) == p.key
              && hasKeyId == (p.keyId != []) && (hasKeyId ==> keyId != null && CStr(keyId[..]) == p.keyId)
  {
    rc, hasKeyId := ParseStrict(json, keyB64, keyId);
    ghost var r := ParseObject(json, Capacity(keyB64), Capacity(keyId));
    forall p
      ensures r == Some(p) <==> IsKeyObject(json, Capacity(keyB64), Capacity(keyId), p)
    {
      ParseObjectExact(json, Capacity(keyB64), Capacity(keyId), p);
    }
    NoIdWithoutRoom(json, Capacity(keyB64), Capacity(keyId));
    assert r.Some? ==> IsKeyObject(json, Capacity(keyB64), Capacity(keyId), r.value);
  }

  /** Without a buffer for it no key id is delivered. */
  lemma NoIdWithoutRoom(json: seq<byte>, keyCap: nat, idCap: nat)
    ensures var p := ParseObject(json, keyCap, idCap);
            p.Some? && p.value.keyId != [] ==> |p.value.keyId| < idCap
  {
    if ParseObject(json, keyCap, idCap).Some? {
      LexDocSound(json);
      ValueFits(LexDoc(json).value.fields, keyCap, idCap);
      TrimIsTrim(ValueOf(LexDoc(json).value.fields, KEY_ID).GetOr([]));
    }
  }

  lemma {:induction false} ValueFits(fs: seq<Field>, keyCap: nat, idCap: nat)
    requires FieldsOk(fs) && AllFit(fs, keyCap, idCap)
    ensures ValueOf(fs, KEY_ID).Some? ==> |ValueOf(fs, KEY_ID).value| < idCap
    ensures ValueOf(fs, KEY).Some? ==> |ValueOf(fs, KEY).value| < keyCap
  {
    if fs != [] {
      assert Fits(fs[0], keyCap, idCap);
      ValueFits(fs[1..], keyCap, idCap);
    }
  }

  /** From just inside the opening brace to the end of the text. */
  method ParseFromBrace(json: CString, cursor: nat, fields: KeyFields) returns (rc: Status, hasKeyId: bool)
    requires cursor <= |json| && TrimLeft(json) != [] && TrimLeft(json)[0] == OPEN_BRACE
    requires TrimLeft(json)[1..] == json[cursor..]
    requires fields.keyB64 != fields.keyId && fields.keyB64.Length > 0 && !fields.keySet && !fields.keyIdSet
    requires fields.IdCap() > 0 ==> CStr(fields.keyId[..]) == []
    modifies fields, fields.keyB64, fields.keyId
    ensures Delivers(ParseObject(json, fields.keyB64.Length, fields.IdCap()), rc, fields.keyB64, fields.keyId, hasKeyId)
  {
    var next := SkipWs(json, cursor);
    ghost var s := json[next..];
    if Peek(json, next) == CLOSE_BRACE {
      assert LexQuoted(s) == None by { assert TrimLeft(s) == s; }
      NoFields(json, s, fields.keyB64.Length, fields.IdCap());
      return SALT_ERR_INPUT, false;
    }
    ghost var done;
    rc, next, done := ParseFields(json, next, fields);
    if rc != SALT_OK {
      return rc, false;
    }
    WholeObject(json, s, done, json[next..], fields.keyB64.Length, fields.IdCap());
    next := SkipWs(json, next);
    if Peek(json, next) != 0 {
      return SALT_ERR_INPUT, false;
    }
    rc, hasKeyId := FinishKeyFields(fields, done);
  }

  method ParseStrict(json: CString, keyB64: array?<byte>, keyId: array?<byte>) returns (rc: Status, hasKeyId: bool)
    requires keyB64 == null || keyB64 != keyId
    modifies keyB64, keyId
    ensures Delivers(ParseObject(json, Capacity(keyB64), Capacity(keyId)), rc, keyB64, keyId, hasKeyId)
  {
    if keyB64 == null || keyB64.Length == 0 {
      NoKeyBuffer(json, Capacity(keyId));
      return SALT_ERR_INPUT, false;
    }
    if keyId != null && keyId.Length > 0 {
      keyId[0] := 0;
      CStrIs(keyId[..], 0);
    }
    var fields := new KeyFields(keyB64, keyId);
    var cursor := SkipWs(json, 0);
    assert json[0..] == json;
    if Peek(json, cursor) != OPEN_BRACE {
      return SALT_ERR_INPUT, false;
    }
    assert json[cursor..][1..] == json[cursor + 1..];
    rc, hasKeyId := ParseFromBrace(json, cursor + 1, fields);
  }

  lemma NoKeyBuffer(json: seq<byte>, idCap: nat)
    ensures ParseObject(json, 0, idCap) == None
  {
    if LexDoc(json).Some? {
      LexDocSound(json);
      var fs := LexDoc(json).value.fields;
      assert AllFit(fs, 0, idCap) ==> ValueOf(fs, KEY) == None;
    }
  }

  // ----- Key input in any format

  datatype KeyFormat = AUTO | BASE64 | JSON

  predicate ShouldParseAsJson(format: KeyFormat, first: byte)
  {
    format == JSON || (format == AUTO && first == OPEN_BRACE)
  }

  function ParseKeyInput(input: seq<byte>, format: KeyFormat, keyCap: nat, idCap: nat): Option<ParsedKey>
  {
    var t := TrimLeft(input);
    if ShouldParseAsJson(format, if t == [] then 0 else t[0]) then ParseObject(t, keyCap, idCap)
    else if |t| >= keyCap || Trim(t) == [] then None
    else Some(ParsedKey(Trim(t), []))
  }

  /** What a bare key means. */
  function ParseBare(text: seq<byte>, keyCap: nat): Option<ParsedKey>
  {
    if |TrimLeft(text)| >= keyCap || Trim(text) == [] then None else Some(ParsedKey(Trim(text), []))
  }

  /**
    * The format decides how the key is read: `json` as an object and `base64` as it stands, whatever it looks like,
    * and `auto` as an object exactly if a brace comes first after the whitespace.
    */
  lemma FormatDecides(text: seq<byte>, w: seq<byte>, keyCap: nat, idCap: nat)
    requires AllWs(w)
    ensures ParseKeyInput(text, KeyFormat.JSON, keyCap, idCap) == ParseObject(TrimLeft(text), keyCap, idCap)
    ensures ParseKeyInput(text, BASE64, keyCap, idCap) == ParseBare(text, keyCap)
    ensures ParseKeyInput(w + Ascii("{") + text, AUTO, keyCap, idCap)
         == ParseKeyInput(w + Ascii("{") + text, KeyFormat.JSON, keyCap, idCap)
    ensures !(Ascii("{") <= TrimLeft(text)) ==>
              ParseKeyInput(text, AUTO, keyCap, idCap) == ParseKeyInput(text, BASE64, keyCap, idCap)
  {
    hide ParseObject;
    assert Ascii("{") == [OPEN_BRACE];
    SkipExact(w, [OPEN_BRACE] + text);
    assert w + [OPEN_BRACE] + text == w + ([OPEN_BRACE] + text);
    assert Trim(TrimLeft(text)) == Trim(text) by {
      TrimLeftTwice(text);
    }
    assert TrimLeft(text) != [] && TrimLeft(text)[0] == OPEN_BRACE ==> [OPEN_BRACE] <= TrimLeft(text);
  }

  lemma TrimLeftTwice(text: seq<byte>)
    ensures TrimLeft(TrimLeft(text)) == TrimLeft(text)
  {
    TrimLeftSplits(text);
  }

  /** Copies a bare key, with its NUL, and trims the copy. */
  method CopyBase64KeyInput(text: CString, keyB64: array<byte>) returns (rc: Status)
    modifies keyB64
    ensures rc == if |text| >= keyB64.Length || Trim(text) == [] then SALT_ERR_INPUT else SALT_OK
    ensures rc == SALT_OK ==> 0 in keyB64[..] && CStr(keyB64[..]) == Trim(text)
  {
    if |text| >= keyB64.Length {
      return SALT_ERR_INPUT;
    }
    var i := 0;
    while i <= |text|
      invariant i <= |text| + 1
      invariant forall k | 0 <= k < i :: keyB64[k] == if k < |text| then text[k] else 0
    {
      keyB64[i] := if i < |text| then text[i] else 0;
      i := i + 1;
    }
    assert keyB64[..][..|text|] == text;
    CStrIs(keyB64[..], |text|);
    TrimBuffer(keyB64);
    if keyB64[0] == 0 {
      return SALT_ERR_INPUT;
    }
    return SALT_OK;
  }

  method ParseKey(input: CString, format: KeyFormat, keyB64: array?<byte>, keyId: array?<byte>)
    returns (rc: Status, hasKeyId: bool)
    requires keyB64 == null || keyB64 != keyId
    modifies keyB64, keyId
    ensures Delivers(ParseKeyInput(input, format, Capacity(keyB64), Capacity(keyId)), rc, keyB64, keyId, hasKeyId)
  {
    rc, hasKeyId := SALT_ERR_INPUT, false;
    var cursor := SkipWs(input, 0);
    assert input[0..] == input;
    if keyB64 == null || keyB64.Length == 0 {
      NoKeyBuffer(input[cursor..], Capacity(keyId));
      return;
    }
    if keyId != null && keyId.Length > 0 {
      keyId[0] := 0;
      CStrIs(keyId[..], 0);
    }
    if !ShouldParseAsJson(format, Peek(input, cursor)) {
      rc := CopyBase64KeyInput(input[cursor..], keyB64);
      return;
    }
    rc, hasKeyId := ParseKeyJsonObjectStrict(input[cursor..], keyB64, keyId);
  }
}

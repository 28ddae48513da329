/** The language of key objects: a grammar, its abstract syntax, and a lexer that inverts it. */
module JsonGrammar {
  import opened Bytes

  const LOWER_N: byte := 110
  const LOWER_R: byte := 114
  const LOWER_T: byte := 116

  /** "key" and "key_id". */
  const KEY: seq<byte> := [107, 101, 121]
  const KEY_ID: seq<byte> := [107, 101, 121, 95, 105, 100]

  lemma FieldNamesAre()
    ensures KEY == Ascii("key") && KEY_ID == Ascii("key_id")
  {
  }

  // ----- Grammar

  /** One character of a string literal: written as itself, or as a backslash and an escape character. */
  datatype Piece = Raw(b: byte) | Escaped(c: byte)

  /** The byte an escape character stands for; every other escape is rejected. */
  function Unescape(c: byte): Option<byte>
  {
    if c == LOWER_N then Some(LF)
    else if c == LOWER_R then Some(CR)
    else if c == LOWER_T then Some(TAB)
    else if c == QUOTE || c == BACKSLASH || c == SLASH then Some(c)
    else None
  }

  predicate PieceOk(p: Piece)
  {
    match p
    case Raw(b) => b >= 0x20 && b != QUOTE && b != BACKSLASH
    case Escaped(c) => Unescape(c).Some?
  }

  function PieceText(p: Piece): seq<byte>
  {
    match p case Raw(b) => [b] case Escaped(c) => [BACKSLASH, c]
  }

  function PieceValue(p: Piece): byte
    requires PieceOk(p)
  {
    match p case Raw(b) => b case Escaped(c) => Unescape(c).value
  }

  predicate PiecesOk(ps: seq<Piece>)
  {
    forall k | 0 <= k < |ps| :: PieceOk(ps[k])
  }

  function Text(ps: seq<Piece>): seq<byte>
  {
    if ps == [] then [] else PieceText(ps[0]) + Text(ps[1..])
  }

  function Values(ps: seq<Piece>): (vs: seq<byte>)
    requires PiecesOk(ps)
    ensures |vs| == |ps| && 0 !in vs
    ensures forall k | 0 <= k < |ps| :: vs[k] == PieceValue(ps[k])
  {
    if ps == [] then [] else [PieceValue(ps[0])] + Values(ps[1..])
  }

  function Literal(ps: seq<Piece>): seq<byte>
  {
    [QUOTE] + Text(ps) + [QUOTE]
  }

  /** A string literal with the whitespace around it. */
  datatype Quoted = Quoted(before: seq<byte>, body: seq<Piece>, after: seq<byte>)
  {
    predicate Ok()
    {
      AllWs(before) && PiecesOk(body) && AllWs(after)
    }

    /** Its text, followed by `t`. */
    function Then(t: seq<byte>): seq<byte>
    {
      before + (Literal(body) + (after + t))
    }
  }

  /** `name : value` */
  datatype Field = Field(name: Quoted, value: Quoted)
  {
    predicate Ok()
    {
      name.Ok() && value.Ok()
    }

    function Then(t: seq<byte>): seq<byte>
    {
      name.Then([COLON] + value.Then(t))
    }
  }

  predicate FieldsOk(fs: seq<Field>)
  {
    forall k | 0 <= k < |fs| :: fs[k].Ok()
  }

  /** The fields separated by commas and closed by a brace, followed by `t`. */
  function FieldsThen(fs: seq<Field>, t: seq<byte>): seq<byte>
    requires fs != []
  {
    if |fs| == 1 then fs[0].Then([CLOSE_BRACE] + t) else fs[0].Then([COMMA] + FieldsThen(fs[1..], t))
  }

  /** `ws { ws field , ... , field } ws`, where the whitespace after the brace is not part of the first field. */
  datatype Doc = Doc(lead: seq<byte>, inner: seq<byte>, fields: seq<Field>, trail: seq<byte>)
  {
    predicate Ok()
    {
      && AllWs(lead) && AllWs(inner) && AllWs(trail)
      && fields != [] && FieldsOk(fields) && fields[0].name.before == []
    }

    function Text(): seq<byte>
      requires fields != []
    {
      lead + ([OPEN_BRACE] + (inner + FieldsThen(fields, trail)))
    }
  }

  // ----- Lexer

  datatype Lexed<+T> = Lexed(it: T, rest: seq<byte>)

  function LexBody(s: seq<byte>): (r: Option<Lexed<seq<Piece>>>)
    ensures r.Some? ==> |r.value.rest| < |s|
    decreases |s|
  {
    if s == [] then None
    else if s[0] == QUOTE then Some(Lexed([], s[1..]))
    else
      var (p, n) := if s[0] == BACKSLASH then (Escaped(if |s| > 1 then s[1] else 0), 2) else (Raw(s[0]), 1);
      if |s| < n || !PieceOk(p) then None
      else
        match LexBody(s[n..])
        case None => None
        case Some(l) => Some(Lexed([p] + l.it, l.rest))
  }

  function LexString(s: seq<byte>): (r: Option<Lexed<seq<Piece>>>)
    ensures r.Some? ==> |r.value.rest| < |s|
  {
    if s != [] && s[0] == QUOTE then LexBody(s[1..]) else None
  }

  /** A string literal starts here, and what it stands for leaves room for a NUL in a buffer of this size. */
  predicate TokenAccepted(json: seq<byte>, cap: nat)
  {
    LexString(json).Some? && |LexString(json).value.it| < cap
  }

  function LexQuoted(s: seq<byte>): (r: Option<Lexed<Quoted>>)
    ensures r.Some? ==> |r.value.rest| < |s|
  {
    match LexString(TrimLeft(s))
    case None => None
    case Some(l) => Some(Lexed(Quoted(WsPrefix(s), l.it, WsPrefix(l.rest)), TrimLeft(l.rest)))
  }

  function LexField(s: seq<byte>): (r: Option<Lexed<Field>>)
    ensures r.Some? ==> |r.value.rest| < |s|
  {
    match LexQuoted(s)
    case None => None
    case Some(name) =>
      if name.rest == [] || name.rest[0] != COLON then None
      else
        match LexQuoted(name.rest[1..])
        case None => None
        case Some(value) => Some(Lexed(Field(name.it, value.it), value.rest))
  }

  function LexFields(s: seq<byte>): (r: Option<Lexed<seq<Field>>>)
    ensures r.Some? ==> r.value.it != []
    decreases |s|
  {
    match LexField(s)
    case None => None
    case Some(f) =>
      if f.rest == [] then None
      else if f.rest[0] == CLOSE_BRACE then Some(Lexed([f.it], f.rest[1..]))
      else if f.rest[0] != COMMA then None
      else
        match LexFields(f.rest[1..])
        case None => None
        case Some(fs) => Some(Lexed([f.it] + fs.it, fs.rest))
  }

  function LexDoc(s: seq<byte>): (r: Option<Doc>)
    ensures r.Some? ==> r.value.fields != []
  {
    var t := TrimLeft(s);
    if t == [] || t[0] != OPEN_BRACE then None
    else
      match LexFields(TrimLeft(t[1..]))
      case None => None
      case Some(fs) =>
        if TrimLeft(fs.rest) == [] then Some(Doc(WsPrefix(s), WsPrefix(t[1..]), fs.it, fs.rest)) else None
  }

  // ----- The lexer inverts the grammar

  lemma LexBodyUnfolds(s: seq<byte>)
    requires LexBody(s).Some? && s[0] != QUOTE
    ensures LexBody(s).value.it != []
    ensures var p := LexBody(s).value.it[0];
            var n := |PieceText(p)|;
            && PieceOk(p) && n <= |s| && PieceText(p) == s[..n] && LexBody(s[n..]).Some?
            && var l := LexBody(s[n..]).value;
            LexBody(s) == Some(Lexed([p] + l.it, l.rest))
  {
  }

  lemma {:induction false} LexBodySound(s: seq<byte>)
    requires LexBody(s).Some?
    ensures var l := LexBody(s).value; PiecesOk(l.it) && s == Text(l.it) + ([QUOTE] + l.rest)
    decreases |s|
  {
    if s[0] == QUOTE {
      assert s == [QUOTE] + s[1..];
    } else {
      LexBodyUnfolds(s);
      hide LexBody;
      var p := LexBody(s).value.it[0];
      var n := |PieceText(p)|;
      var l := LexBody(s[n..]).value;
      LexBodySound(s[n..]);
      TextCons(p, l.it);
      assert s == s[..n] + s[n..];
      Assoc(PieceText(p), Text(l.it), [QUOTE] + l.rest);
    }
  }

  lemma Assoc(a: seq<byte>, b: seq<byte>, c: seq<byte>)
    ensures a + (b + c) == a + b + c
  {
  }

  lemma TextCons(p: Piece, ps: seq<Piece>)
    ensures Text([p] + ps) == PieceText(p) + Text(ps)
    ensures PieceOk(p) && PiecesOk(ps) ==> PiecesOk([p] + ps)
  {
    assert ([p] + ps)[1..] == ps;
  }

  lemma {:induction false} LexBodyComplete(ps: seq<Piece>, t: seq<byte>)
    requires PiecesOk(ps)
    ensures LexBody(Text(ps) + ([QUOTE] + t)) == Some(Lexed(ps, t))
  {
    var s := Text(ps) + ([QUOTE] + t);
    if ps == [] {
      assert s[1..] == t;
    } else {
      LexBodyComplete(ps[1..], t);
      var n := |PieceText(ps[0])|;
      Assoc(PieceText(ps[0]), Text(ps[1..]), [QUOTE] + t);
      assert s[n..] == Text(ps[1..]) + ([QUOTE] + t);
      assert s[0] == PieceText(ps[0])[0] && (n == 2 ==> s[1] == PieceText(ps[0])[1]);
      assert [ps[0]] + ps[1..] == ps;
    }
  }

  lemma LexStringSound(s: seq<byte>)
    requires LexString(s).Some?
    ensures var l := LexString(s).value; PiecesOk(l.it) && s == Literal(l.it) + l.rest
  {
    hide LexBody, Text, PiecesOk;
    LexBodySound(s[1..]);
    var l := LexString(s).value;
    assert s == [QUOTE] + s[1..];
    Assoc([QUOTE], Text(l.it), [QUOTE] + l.rest);
    Assoc([QUOTE] + Text(l.it), [QUOTE], l.rest);
  }

  lemma LexStringComplete(ps: seq<Piece>, t: seq<byte>)
    requires PiecesOk(ps)
    ensures LexString(Literal(ps) + t) == Some(Lexed(ps, t))
  {
    hide LexBody, PiecesOk;
    var u := Text(ps) + ([QUOTE] + t);
    LexBodyComplete(ps, t);
    assert Literal(ps) + t == [QUOTE] + u;
    assert ([QUOTE] + u)[1..] == u;
  }

  lemma SkipExact(w: seq<byte>, t: seq<byte>)
    requires AllWs(w) && (t == [] || !IsWs(t[0]))
    ensures TrimLeft(w + t) == t && WsPrefix(w + t) == w
  {
    TrimLeftSkips(w, t);
    assert (w + t)[..|w|] == w;
  }

  lemma LexQuotedSound(s: seq<byte>)
    requires LexQuoted(s).Some?
    ensures var l := LexQuoted(s).value; l.it.Ok() && s == l.it.Then(l.rest)
  {
    LexStringSound(TrimLeft(s));
    TrimLeftSplits(s);
    TrimLeftSplits(LexString(TrimLeft(s)).value.rest);
  }

  lemma LexQuotedComplete(q: Quoted, t: seq<byte>)
    requires q.Ok() && t != [] && !IsWs(t[0])
    ensures LexQuoted(q.Then(t)) == Some(Lexed(q, t))
  {
    SkipExact(q.before, Literal(q.body) + (q.after + t));
    LexStringComplete(q.body, q.after + t);
    SkipExact(q.after, t);
  }

  lemma LexFieldSound(s: seq<byte>)
    requires LexField(s).Some?
    ensures var l := LexField(s).value; l.it.Ok() && s == l.it.Then(l.rest)
  {
    hide LexQuoted;
    var name := LexQuoted(s).value;
    LexQuotedSound(s);
    LexQuotedSound(name.rest[1..]);
    assert name.rest == [COLON] + name.rest[1..];
  }

  lemma LexFieldComplete(f: Field, t: seq<byte>)
    requires f.Ok() && t != [] && !IsWs(t[0])
    ensures LexField(f.Then(t)) == Some(Lexed(f, t))
  {
    var u := f.value.Then(t);
    LexQuotedComplete(f.name, [COLON] + u);
    assert ([COLON] + u)[1..] == u;
    LexQuotedComplete(f.value, t);
  }

  lemma FieldsCons(f: Field, fs: seq<Field>, t: seq<byte>)
    requires fs != []
    ensures FieldsThen([f] + fs, t) == f.Then([COMMA] + FieldsThen(fs, t))
    ensures f.Ok() && FieldsOk(fs) ==> FieldsOk([f] + fs)
  {
    assert ([f] + fs)[1..] == fs;
  }

  lemma {:induction false} LexFieldsSound(s: seq<byte>)
    requires LexFields(s).Some?
    ensures var l := LexFields(s).value; FieldsOk(l.it) && FieldsThen(l.it, l.rest) == s
    decreases |s|
  {
    hide LexField;
    var f := LexField(s).value;
    LexFieldSound(s);
    var l := LexFields(s).value;
    var u := f.rest[1..];
    if f.rest[0] == CLOSE_BRACE {
      assert f.rest == [CLOSE_BRACE] + u;
    } else {
      assert f.rest == [COMMA] + u;
      LexFieldsSound(u);
      FieldsCons(f.it, LexFields(u).value.it, l.rest);
    }
  }

  lemma {:induction false} LexFieldsComplete(fs: seq<Field>, t: seq<byte>)
    requires fs != [] && FieldsOk(fs)
    ensures LexFields(FieldsThen(fs, t)) == Some(Lexed(fs, t))
    decreases |fs|
  {
    hide LexField;
    var u := if |fs| == 1 then [CLOSE_BRACE] + t else [COMMA] + FieldsThen(fs[1..], t);
    LexFieldComplete(fs[0], u);
    if |fs| == 1 {
      assert u[1..] == t && fs == [fs[0]];
    } else {
      assert u[1..] == FieldsThen(fs[1..], t) && fs == [fs[0]] + fs[1..];
      LexFieldsComplete(fs[1..], t);
    }
  }

  lemma LexDocText(s: seq<byte>)
    requires LexDoc(s).Some?
    ensures LexDoc(s).value.Text() == s
  {
    hide LexFields, FieldsThen, TrimLeft;
    var t := TrimLeft(s);
    var u := t[1..];
    LexFieldsSound(TrimLeft(u));
    TrimLeftSplits(u);
    TrimLeftSplits(s);
    assert t == [OPEN_BRACE] + u;
  }

  lemma LexDocSound(s: seq<byte>)
    requires LexDoc(s).Some?
    ensures LexDoc(s).value.Ok() && LexDoc(s).value.Text() == s
  {
    LexDocText(s);
    var t := TrimLeft(s);
    var u := TrimLeft(t[1..]);
    LexFieldsSound(u);
    TrimLeftSplits(s);
    TrimLeftSplits(t[1..]);
    NothingToSkip(u);
    AllBlank(LexFields(u).value.rest);
  }

  lemma NothingToSkip(u: seq<byte>)
    requires (u == [] || !IsWs(u[0])) && LexFields(u).Some?
    ensures LexFields(u).value.it[0].name.before == []
  {
    assert LexFields(u).value.it[0] == LexField(u).value.it;
  }

  lemma AllBlank(s: seq<byte>)
    requires TrimLeft(s) == []
    ensures AllWs(s)
  {
    TrimLeftSplits(s);
    assert WsPrefix(s) == s;
  }

  /** Fields start with a quote when the first has no whitespace of its own. */
  lemma FieldsStart(fs: seq<Field>, t: seq<byte>)
    requires fs != [] && fs[0].name.before == []
    ensures FieldsThen(fs, t) != [] && FieldsThen(fs, t)[0] == QUOTE
  {
  }

  lemma LexDocComplete(d: Doc)
    requires d.Ok()
    ensures LexDoc(d.Text()) == Some(d)
  {
    var u := FieldsThen(d.fields, d.trail);
    var v := d.inner + u;
    SkipExact(d.lead, [OPEN_BRACE] + v);
    assert ([OPEN_BRACE] + v)[1..] == v;
    FieldsStart(d.fields, d.trail);
    SkipExact(d.inner, u);
    LexFieldsComplete(d.fields, d.trail);
    assert d.trail + [] == d.trail;
    SkipExact(d.trail, []);
  }

  /** The lexer finds a document exactly when the text is that document's: so the document is unique. */
  lemma LexDocExact(s: seq<byte>, d: Doc)
    ensures LexDoc(s) == Some(d) <==> d.Ok() && d.Text() == s
  {
    if LexDoc(s).Some? {
      LexDocSound(s);
    }
    if d.Ok() && d.Text() == s {
      LexDocComplete(d);
    }
  }

  // ----- What a key object means

  function Name(f: Field): seq<byte>
    requires f.Ok()
  {
    Values(f.name.body)
  }

  /** The first field of the given name. */
  function ValueOf(fs: seq<Field>, name: seq<byte>): (v: Option<seq<byte>>)
    requires FieldsOk(fs)
    ensures v.Some? <==> exists k | 0 <= k < |fs| :: Name(fs[k]) == name
  {
    if fs == [] then None
    else if Name(fs[0]) == name then Some(Values(fs[0].value.body))
    else ValueOf(fs[1..], name)
  }

  predicate AtMostOnce(fs: seq<Field>, name: seq<byte>)
    requires FieldsOk(fs)
  {
    forall i, j | 0 <= i < j < |fs| :: !(Name(fs[i]) == name && Name(fs[j]) == name)
  }

  /** A known name, and a value that leaves room for the NUL in the buffer it goes to. */
  predicate Fits(f: Field, keyCap: nat, idCap: nat)
    requires f.Ok()
  {
    || (Name(f) == KEY && |f.value.body| < keyCap)
    || (Name(f) == KEY_ID && |f.value.body| < idCap)
  }

  predicate AllFit(fs: seq<Field>, keyCap: nat, idCap: nat)
    requires FieldsOk(fs)
  {
    forall k | 0 <= k < |fs| :: Fits(fs[k], keyCap, idCap)
  }

  /** Only known fields, each at most once, within the buffers, and a key that is not blank. */
  predicate Acceptable(d: Doc, keyCap: nat, idCap: nat)
    requires d.Ok()
  {
    && AllFit(d.fields, keyCap, idCap)
    && AtMostOnce(d.fields, KEY) && AtMostOnce(d.fields, KEY_ID)
    && ValueOf(d.fields, KEY).Some? && Trim(ValueOf(d.fields, KEY).value) != []
  }

  /** The result of parsing: the key, and the key id when there is one that is not blank. */
  datatype ParsedKey = ParsedKey(key: seq<byte>, keyId: seq<byte>)

  function Meaning(d: Doc): ParsedKey
    requires d.Ok() && ValueOf(d.fields, KEY).Some?
  {
    ParsedKey(Trim(ValueOf(d.fields, KEY).value),
              Trim(ValueOf(d.fields, KEY_ID).GetOr([])))
  }

  /** `json` is the text of an acceptable key object that means `p`. */
  ghost predicate IsKeyObject(json: seq<byte>, keyCap: nat, idCap: nat, p: ParsedKey)
  {
    exists d: Doc :: d.Ok() && d.Text() == json && Acceptable(d, keyCap, idCap) && Meaning(d) == p
  }

  function ParseObject(json: seq<byte>, keyCap: nat, idCap: nat): Option<ParsedKey>
  {
    match LexDoc(json)
    case None => None
    case Some(d) =>
      LexDocExact(json, d);
      if Acceptable(d, keyCap, idCap) then Some(Meaning(d)) else None
  }

  /** Sound and complete: parsing gives exactly the meaning of the text under the grammar, and there is one meaning. */
  lemma ParseObjectExact(json: seq<byte>, keyCap: nat, idCap: nat, p: ParsedKey)
    ensures ParseObject(json, keyCap, idCap) == Some(p) <==> IsKeyObject(json, keyCap, idCap, p)
  {
    forall d: Doc | d.Ok() && d.Text() == json
      ensures LexDoc(json) == Some(d)
    {
      LexDocExact(json, d);
    }
    if LexDoc(json).Some? {
      LexDocExact(json, LexDoc(json).value);
    }
  }

  /** A value no escape stands for can only be written as itself. */
  lemma OnlyRaw(p: Piece)
    requires PieceOk(p) && PieceValue(p) !in {LF, CR, TAB, QUOTE, BACKSLASH, SLASH}
    ensures p == Raw(PieceValue(p))
  {
  }

  /** A field name is recognised only in its plain spelling: no escape stands for one of its letters. */
  lemma PlainSpelling(ps: seq<Piece>)
    requires PiecesOk(ps) && (Values(ps) == KEY || Values(ps) == KEY_ID)
    ensures Text(ps) == Values(ps)
  {
    forall k | 0 <= k < |ps|
      ensures ps[k].Raw?
    {
      assert PieceValue(ps[k]) == Values(ps)[k] >= 95;
      OnlyRaw(ps[k]);
    }
    RawText(ps);
  }

  lemma {:induction false} RawText(ps: seq<Piece>)
    requires PiecesOk(ps) && forall k | 0 <= k < |ps| :: ps[k].Raw?
    ensures Text(ps) == Values(ps)
  {
    if ps != [] {
      RawText(ps[1..]);
    }
  }
}

/** Properties of whole runs: input routes agree, limits compose, and a run without faults is decided by its input. */
module CliRoutes {
  import opened Bytes
  import opened SealSize
  import opened JsonGrammar
  import opened KeyParser
  import opened JsonOutput
  import opened JsonRoundTrip
  import opened Seal
  import opened CliState
  import opened CliStream
  import opened CliArgs
  import opened CliInput
  import opened CliRun

  // ----- The key by either route

  lemma BlankKeyRejected(format: KeyFormat, keyCap: nat, idCap: nat)
    ensures ParseKeyInput([], format, keyCap, idCap) == None
  {
    assert LexDoc([]) == None;
  }

  lemma CStrOfText(text: CString)
    ensures CStr(text) == text
  {
    assert forall k | 0 <= k < |text| :: text[k] != 0;
    assert text[..|text|] == text;
  }

  /** The same text gives the same key, on the command line or on standard input. */
  lemma KeyRoutesAgree(text: CString, input: seq<byte>, argument: seq<byte>, format: KeyFormat)
    ensures IdealKey(false, text, input, format) == IdealKey(true, argument, text, format)
  {
    hide CStr, Trim, ParseKeyInput, IsTrimOf;
    CStrOfText(text);
    TrimIdempotent(text);
    TrimIsTrim(text);
    BlankKeyRejected(format, KEY_BUFFER, KEY_ID_BUFFER);
  }

  lemma {:induction false} OptionsSplit(s: Settings, a: seq<Opt>, b: seq<Opt>)
    ensures ApplyOptions(s, a + b)
         == (var (t, complaint) := ApplyOptions(s, a); if complaint.Some? then (t, complaint) else ApplyOptions(t, b))
    decreases |a|
  {
    if a == [] {
      assert a + b == b;
    } else {
      assert (a + b)[1..] == a[1..] + b;
      var r := ApplyOption(s, a[0]);
      if r.Some? {
        OptionsSplit(r.value, a[1..], b);
      }
    }
  }

  predicate NoKey(opts: seq<Opt>)
  {
    forall k | 0 <= k < |opts| :: !opts[k].OptKey?
  }

  /** Options other than the key neither look at the key nor change it. */
  lemma {:induction false} KeyCommutes(s: Settings, opts: seq<Opt>, key: seq<byte>)
    requires NoKey(opts)
    ensures ApplyOptions(s.(key := Some(key)), opts)
         == (var (t, complaint) := ApplyOptions(s, opts); (t.(key := Some(key)), complaint))
    decreases |opts|
  {
    if opts != [] {
      assert !opts[0].OptKey?;
      var r := ApplyOption(s, opts[0]);
      if r.Some? {
        KeyCommutes(r.value, opts[1..], key);
      }
    }
  }

  /** The options around the last key option, as if it were not there. */
  lemma KeyAmongOptions(pre: seq<Opt>, post: seq<Opt>, key: CString)
    requires NoKey(post)
    ensures ApplyOptions(DEFAULTS, pre + [OptKey(key)] + post)
         == (var (s, complaint) := ApplyOptions(DEFAULTS, pre);
             if complaint.Some? then (s, complaint)
             else var (t, later) := ApplyOptions(s, post); (t.(key := Some(key)), later))
  {
    var s := ApplyOptions(DEFAULTS, pre).0;
    assert pre + [OptKey(key)] + post == pre + ([OptKey(key)] + post);
    OptionsSplit(DEFAULTS, pre, [OptKey(key)] + post);
    assert ([OptKey(key)] + post)[1..] == post;
    KeyCommutes(s, post, key);
  }

  /**
    * Key given as `-k text`, or as `-k -` with `text` on standard input, whatever other options come before or after:
    * standard output is the same.
    */
  lemma KeyOnArgvOrStdin(pre: seq<Opt>, post: seq<Opt>, positionals: seq<CString>, texts: Texts, text: CString,
                         input: seq<byte>, box: (seq<byte>, seq<byte>) -> seq<byte>)
    requires NoKey(post) && text != [DASH] && positionals != [] && positionals[0] != [DASH]
    ensures IdealOutput(pre + [OptKey(text)] + post, positionals, texts, input, box)
         == IdealOutput(pre + [OptKey([DASH])] + post, positionals, texts, text, box)
  {
    hide IdealKey, ApplyOptions;
    KeyAmongOptions(pre, post, text);
    KeyAmongOptions(pre, post, [DASH]);
    var s := ApplyOptions(ApplyOptions(DEFAULTS, pre).0, post).0;
    KeyRoutesAgree(text, input, [DASH], s.keyFormat);
    if text == [] {
      EmptyStdinKey([DASH], s.keyFormat);
    }
  }

  /** An empty key is refused by either route. */
  lemma EmptyStdinKey(argument: seq<byte>, format: KeyFormat)
    ensures IdealKey(true, argument, [], format) == None
  {
  }

  /** Plaintext given as an argument, or on standard input with `-` or no argument: standard output is the same. */
  lemma PlaintextOnArgvOrStdin(opts: seq<Opt>, texts: Texts, text: CString, input: seq<byte>,
                               box: (seq<byte>, seq<byte>) -> seq<byte>)
    requires text != [DASH]
    requires ApplyOptions(DEFAULTS, opts).0.key != Some([DASH])
    ensures IdealOutput(opts, [text], texts, input, box) == IdealOutput(opts, [], texts, text, box)
    ensures IdealOutput(opts, [text], texts, input, box) == IdealOutput(opts, [[DASH]], texts, text, box)
  {
    hide IdealKey, ApplyOptions;
    var s := ApplyOptions(DEFAULTS, opts).0;
    if s.key.Some? {
      KeyIgnoresStdin(s.key.value, input, text, s.keyFormat);
    }
  }

  lemma KeyIgnoresStdin(argument: seq<byte>, input: seq<byte>, input': seq<byte>, format: KeyFormat)
    ensures IdealKey(false, argument, input, format) == IdealKey(false, argument, input', format)
  {
  }

  const NO_FAULTS: Faults := Faults(false, false, SALT_OK, false, false, false, false, false)

  /** The code of a run in which nothing fails. */
  ghost function CodeWithoutFaults(opts: seq<Opt>, positionals: seq<CString>, texts: Texts, input: seq<byte>,
                                   box: (seq<byte>, seq<byte>) -> seq<byte>): Status
  {
    RunCode(Judge(opts, positionals), WantsInformation(opts), NO_FAULTS,
            IdealOutput(opts, positionals, texts, input, box).Some?)
  }

  /** Both routes of the key lead to the same return code. */
  lemma KeyRoutesSameCode(pre: seq<Opt>, post: seq<Opt>, positionals: seq<CString>, texts: Texts, text: CString,
                          input: seq<byte>, box: (seq<byte>, seq<byte>) -> seq<byte>)
    requires NoKey(post) && text != [DASH] && positionals != [] && positionals[0] != [DASH]
    ensures CodeWithoutFaults(pre + [OptKey(text)] + post, positionals, texts, input, box)
         == CodeWithoutFaults(pre + [OptKey([DASH])] + post, positionals, texts, text, box)
  {
    KeyOnArgvOrStdin(pre, post, positionals, texts, text, input, box);
    hide ApplyOptions, IdealDocument;
    KeyAmongOptions(pre, post, text);
    KeyAmongOptions(pre, post, [DASH]);
  }

  /** So do the routes of the plaintext. */
  lemma PlaintextRoutesSameCode(opts: seq<Opt>, texts: Texts, text: CString, input: seq<byte>,
                                box: (seq<byte>, seq<byte>) -> seq<byte>)
    requires text != [DASH] && ApplyOptions(DEFAULTS, opts).0.key != Some([DASH])
    ensures CodeWithoutFaults(opts, [text], texts, input, box) == CodeWithoutFaults(opts, [], texts, text, box)
    ensures CodeWithoutFaults(opts, [text], texts, input, box) == CodeWithoutFaults(opts, [[DASH]], texts, text, box)
  {
    PlaintextOnArgvOrStdin(opts, texts, text, input, box);
    hide ApplyOptions, IdealDocument;
  }

  // ----- What a reader finds in the output

  /**
    * In the JSON output a reader finds the sealed message, and as key id the one given with `-i` unless that is empty;
    * otherwise the one from the key object, which is then not empty.
    */
  lemma KeyIdInOutput(r: Request, input: seq<byte>, box: (seq<byte>, seq<byte>) -> seq<byte>)
    requires r.outputMode == OutputMode.JSON && IdealDocument(r, input, box).Some?
    ensures var key := IdealKey(r.KeyFromStdin(), r.key, input, r.keyFormat);
            var found := ReadDocument(IdealDocument(r, input, box).value);
            && key.Some? && DecodeKey(key.value.key).Some? && found.Some?
            && found.value.0 == SealedText(box, PlaintextOf(r, input), key.value.key)
            && found.value.1 == (if r.keyId.GetOr([]) != [] then r.keyId.value else key.value.keyId)
            && found.value.1 != []
  {
    hide IdealKey, DecodeKey, SealedText, JsonDocument, ReadDocument;
    var e := IdealEnvelope(r, input, box).value;
    EmissionIsFaithful(e.text, e.keyId.value);
  }

  /** The text output is the sealed message and a line feed, whatever the key id. */
  lemma TextOutput(r: Request, input: seq<byte>, box: (seq<byte>, seq<byte>) -> seq<byte>)
    requires r.outputMode == TEXT && IdealDocument(r, input, box).Some?
    ensures var key := IdealKey(r.KeyFromStdin(), r.key, input, r.keyFormat);
            && key.Some? && DecodeKey(key.value.key).Some?
            && IdealDocument(r, input, box).value
               == SealedText(box, PlaintextOf(r, input), key.value.key) + Ascii("\n")
  {
    hide IdealKey, DecodeKey, SealedText;
    assert Ascii("\n") == [LF];
  }

  // ----- Limits

  lemma {:induction false} FieldShorterThanText(fs: seq<Field>, t: seq<byte>, k: nat)
    requires fs != [] && k < |fs|
    ensures |fs[k].value.body| < |FieldsThen(fs, t)|
    decreases |fs|
  {
    TextLength(fs[0].value.body);
    if k > 0 {
      FieldShorterThanText(fs[1..], t, k - 1);
    }
  }

  /**
    * Wherever the parser stands in a string token, malformed or not, with the pieces `done` behind it and something
    * still to read: in a text within the limit the room test at that point succeeds for the key buffer.
    */
  lemma AlwaysRoom(before: seq<byte>, done: seq<Piece>, rest: seq<byte>)
    requires rest != [] && |before + ([QUOTE] + (Text(done) + rest))| <= SALT_MAX_KEY_INPUT_LEN
    ensures |done| + 1 < KEY_BUFFER
  {
    TextLength(done);
  }

  /** A decoded value is shorter than the text it was decoded from. */
  lemma DecodedShorterThanText(json: seq<byte>, k: nat)
    requires LexDoc(json).Some? && k < |LexDoc(json).value.fields|
    ensures |LexDoc(json).value.fields[k].value.body| < |json|
  {
    LexDocSound(json);
    var d := LexDoc(json).value;
    FieldShorterThanText(d.fields, d.trail, k);
  }

  /** So a text that fits the key buffer never fails because the buffer is too small. */
  lemma KeyBufferSuffices(text: seq<byte>, format: KeyFormat, keyCap: nat, idCap: nat)
    requires |text| <= SALT_MAX_KEY_INPUT_LEN && keyCap >= KEY_BUFFER
    ensures ParseKeyInput(text, format, KEY_BUFFER, idCap) == ParseKeyInput(text, format, keyCap, idCap)
  {
    hide TrimLeft, LexDoc, CStr;
    var t := TrimLeft(text);
    if LexDoc(t).Some? {
      LexDocSound(t);
      var fs := LexDoc(t).value.fields;
      forall k | 0 <= k < |fs|
        ensures Fits(fs[k], KEY_BUFFER, idCap) <==> Fits(fs[k], keyCap, idCap)
      {
        DecodedShorterThanText(t, k);
      }
      assert AllFit(fs, KEY_BUFFER, idCap) == AllFit(fs, keyCap, idCap);
    }
  }

  /** The limits hold in every run: whatever key is loaded, no larger key buffer would have changed the outcome. */
  lemma LimitsCompose(fromStdin: bool, argument: seq<byte>, input: seq<byte>, format: KeyFormat, keyCap: nat)
    requires keyCap >= KEY_BUFFER
    ensures var text := KeyTextOf(fromStdin, argument, input);
            text.Some? && |text.value| <= SALT_MAX_KEY_INPUT_LEN ==>
              IdealKey(fromStdin, argument, input, format) == ParseKeyInput(Trim(text.value), format, keyCap,
                      KEY_ID_BUFFER)
  {
    var text := KeyTextOf(fromStdin, argument, input);
    if text.Some? && |text.value| <= SALT_MAX_KEY_INPUT_LEN {
      TrimIsTrim(text.value);
      KeyBufferSuffices(Trim(text.value), format, keyCap, KEY_ID_BUFFER);
    }
  }
}

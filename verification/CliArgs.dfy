/** Option handling over a sequence of getopt results, and the checks that follow it. */
module CliArgs {
  import opened Bytes
  import opened Sinks
  import opened SealSize
  import opened KeyParser
  import opened JsonOutput
  import opened CliState
  import opened CliStream
  import opened CliInput

  /** What getopt reports: a known option with its argument, a missing argument, or an option it does not know. */
  datatype Opt =
    | OptKey(argument: CString) | OptKeyId(argument: CString)
    | OptOutput(argument: CString) | OptKeyFormat(argument: CString)
    | OptHelp | OptVersion | OptMissingArgument | OptUnknown

  /** The options read so far. */
  datatype Settings = Settings(key: Option<seq<byte>>, keyId: Option<seq<byte>>, outputMode: OutputMode,
                               keyFormat: KeyFormat, help: bool, version: bool)

  const DEFAULTS: Settings := Settings(None, None, TEXT, AUTO, false, false)

  const TEXT_WORD: seq<byte> := [116, 101, 120, 116]
  const JSON_WORD: seq<byte> := [106, 115, 111, 110]
  const AUTO_WORD: seq<byte> := [97, 117, 116, 111]
  const BASE64_WORD: seq<byte> := [98, 97, 115, 101, 54, 52]

  /** The settings after an option, or none if it is refused. */
  function ApplyOption(s: Settings, o: Opt): Option<Settings>
  {
    match o
    case OptKey(a) => Some(s.(key := Some(a)))
    case OptKeyId(a) => Some(s.(keyId := Some(a)))
    case OptOutput(a) =>
      if a == TEXT_WORD then Some(s.(outputMode := TEXT))
      else if a == JSON_WORD then Some(s.(outputMode := OutputMode.JSON))
      else None
    case OptKeyFormat(a) =>
      if a == AUTO_WORD then Some(s.(keyFormat := AUTO))
      else if a == BASE64_WORD then Some(s.(keyFormat := BASE64))
      else if a == JSON_WORD then Some(s.(keyFormat := KeyFormat.JSON))
      else None
    case OptHelp => Some(s.(help := true))
    case OptVersion => Some(s.(version := true))
    case OptMissingArgument => None
    case OptUnknown => None
  }

  /** The words for the output format and the key format. */
  lemma WordsAre(s: Settings, word: CString)
    ensures ApplyOption(s, OptOutput(Ascii("text"))) == Some(s.(outputMode := TEXT))
    ensures ApplyOption(s, OptOutput(Ascii("json"))) == Some(s.(outputMode := OutputMode.JSON))
    ensures word != Ascii("text") && word != Ascii("json") ==> ApplyOption(s, OptOutput(word)) == None
    ensures ApplyOption(s, OptKeyFormat(Ascii("auto"))) == Some(s.(keyFormat := AUTO))
    ensures ApplyOption(s, OptKeyFormat(Ascii("base64"))) == Some(s.(keyFormat := BASE64))
    ensures ApplyOption(s, OptKeyFormat(Ascii("json"))) == Some(s.(keyFormat := KeyFormat.JSON))
    ensures word != Ascii("auto") && word != Ascii("base64") && word != Ascii("json") ==>
              ApplyOption(s, OptKeyFormat(word)) == None
  {
    assert Ascii("text") == TEXT_WORD && Ascii("json") == JSON_WORD;
    assert Ascii("auto") == AUTO_WORD && Ascii("base64") == BASE64_WORD;
    assert |AUTO_WORD| == 4 && AUTO_WORD[0] == 97 && |JSON_WORD| == 4 && JSON_WORD[0] == 106 && |BASE64_WORD| == 6;
    assert |TEXT_WORD| == 4 && TEXT_WORD[0] == 116;
  }

  /** What the report on a refused option is about. */
  function Complaint(o: Opt): Diagnostic
  {
    match o
    case OptOutput(_) => InvalidOutputFormat
    case OptKeyFormat(_) => InvalidKeyFormat
    case OptMissingArgument => MissingArgument
    case _ => InvalidOption
  }

  /** The settings when the options run out or one is refused, and the complaint about the one refused. */
  function ApplyOptions(s: Settings, opts: seq<Opt>): (Settings, Option<Diagnostic>)
    decreases |opts|
  {
    if opts == [] then (s, None)
    else
      match ApplyOption(s, opts[0])
      case None => (s, Some(Complaint(opts[0])))
      case Some(t) => ApplyOptions(t, opts[1..])
  }

  /** What a run is asked to do: key argument, key id, modes and plaintext argument. */
  datatype Request = Request(key: seq<byte>, keyId: Option<seq<byte>>, outputMode: OutputMode, keyFormat: KeyFormat,
                             plaintext: Option<seq<byte>>)
  {
    predicate KeyFromStdin() { key == [DASH] }

    predicate PlaintextFromStdin() { plaintext == None || plaintext.value == [DASH] }
  }

  datatype Verdict = Proceed(request: Request) | ShowHelp | ShowVersion | Refuse(reason: Diagnostic, alsoUsage: bool)

  /** What is said about a refusal on standard error. */
  function RefusalText(texts: Texts, v: Verdict): seq<byte>
    requires v.Refuse?
  {
    texts.wording(v.reason) + if v.alsoUsage then texts.usage else []
  }

  /** The checks after the options, in their order. */
  function Judge(opts: seq<Opt>, positionals: seq<CString>): Verdict
  {
    var (s, complaint) := ApplyOptions(DEFAULTS, opts);
    if complaint.Some? then Refuse(complaint.value, false)
    else if s.help then ShowHelp
    else if s.version then ShowVersion
    else if s.key == None then Refuse(KeyRequired, true)
    else if s.key.value == [] then Refuse(KeyEmpty, false)
    else if s.keyId.Some? && |s.keyId.value| > SALT_MAX_KEY_ID_LEN then Refuse(KeyIdTooLong, false)
    else if |positionals| > 1 then Refuse(TooManyArguments, true)
    else
      var r := Request(s.key.value, s.keyId, s.outputMode, s.keyFormat, if positionals == [] then None
                       else Some(positionals[0]));
      if r.KeyFromStdin() && r.PlaintextFromStdin() then Refuse(BothFromStdin, false) else Proceed(r)
  }

  function ReadPointer(p: Pointer): Option<seq<byte>>
  {
    if p.Argument? then Some(p.text) else None
  }

  /** The settings the state has. */
  function SettingsOf(st: State): Settings
    reads st
  {
    Settings(ReadPointer(st.keyOption), ReadPointer(st.keyIdOption), st.outputMode, st.keyFormat, st.showHelp,
             st.showVersion)
  }

  method HandleOption(st: State, err: Sink, texts: Texts, o: Opt) returns (rc: Status)
    requires texts.Valid() && !st.keyOption.Buffer? && !st.keyIdOption.Buffer?
    modifies st`keyOption, st`keyIdOption, st`outputMode, st`keyFormat, st`showHelp, st`showVersion, err
    ensures !st.keyOption.Buffer? && !st.keyIdOption.Buffer?
    ensures var next := ApplyOption(old(SettingsOf(st)), o);
            && rc == Reported(if next == None then SALT_ERR_INPUT else SALT_OK, err.faults != old(err.faults))
            && SettingsOf(st) == next.GetOr(old(SettingsOf(st)))
            && (next.Some? ==> unchanged(err))
            && (next.None? ==>
                  && Gained(old(err.data), err.data, texts.wording(Complaint(o)), err.faults == old(err.faults))
                  && (err.faults != old(err.faults) <==> err.Loses(old(err.ops), texts.wording(Complaint(o)))))
    ensures err.faults >= old(err.faults)
  {
    match o {
      case OptKey(a) =>
        st.keyOption := Argument(a);
        return SALT_OK;
      case OptKeyId(a) =>
        st.keyIdOption := Argument(a);
        return SALT_OK;
      case OptOutput(a) =>
        if a == TEXT_WORD {
          st.outputMode := TEXT;
          return SALT_OK;
        }
        if a == JSON_WORD {
          st.outputMode := OutputMode.JSON;
          return SALT_OK;
        }
        rc := Report(err, texts, InvalidOutputFormat, SALT_ERR_INPUT);
      case OptKeyFormat(a) =>
        if a == AUTO_WORD {
          st.keyFormat := AUTO;
          return SALT_OK;
        }
        if a == BASE64_WORD {
          st.keyFormat := BASE64;
          return SALT_OK;
        }
        if a == JSON_WORD {
          st.keyFormat := KeyFormat.JSON;
          return SALT_OK;
        }
        rc := Report(err, texts, InvalidKeyFormat, SALT_ERR_INPUT);
      case OptHelp =>
        st.showHelp := true;
        return SALT_OK;
      case OptVersion =>
        st.showVersion := true;
        return SALT_OK;
      case OptMissingArgument =>
        rc := Report(err, texts, MissingArgument, SALT_ERR_INPUT);
      case OptUnknown =>
        rc := Report(err, texts, InvalidOption, SALT_ERR_INPUT);
    }
  }

  /** The loop over getopt's results. */
  method HandleOptions(st: State, err: Sink, texts: Texts, opts: seq<Opt>) returns (rc: Status)
    requires texts.Valid() && SettingsOf(st) == DEFAULTS && !st.keyOption.Buffer? && !st.keyIdOption.Buffer?
    modifies st`keyOption, st`keyIdOption, st`outputMode, st`keyFormat, st`showHelp, st`showVersion, err
    ensures !st.keyOption.Buffer? && !st.keyIdOption.Buffer?
    ensures var (s, complaint) := ApplyOptions(DEFAULTS, opts);
            && rc == Reported(if complaint == None then SALT_OK else SALT_ERR_INPUT, err.faults != old(err.faults))
            && SettingsOf(st) == s
            && (complaint == None ==> unchanged(err))
            && (complaint.Some? ==>
                  && Gained(old(err.data), err.data, texts.wording(complaint.value), err.faults == old(err.faults))
                  && (err.faults != old(err.faults) <==> err.Loses(old(err.ops), texts.wording(complaint.value))))
    ensures err.faults >= old(err.faults)
  {
    hide ApplyOption;
    var i := 0;
    while i < |opts|
      invariant 0 <= i <= |opts|
      invariant !st.keyOption.Buffer? && !st.keyIdOption.Buffer?
      invariant ApplyOptions(DEFAULTS, opts) == ApplyOptions(SettingsOf(st), opts[i..])
      invariant unchanged(err)
    {
      assert opts[i..][1..] == opts[i + 1..];
      rc := HandleOption(st, err, texts, opts[i]);
      if rc != SALT_OK {
        return;
      }
      i := i + 1;
    }
    return SALT_OK;
  }

  /** Reports that the command line is refused, and why usage matters. */
  method RefuseWithUsage(err: Sink, texts: Texts, d: Diagnostic) returns (rc: Status)
    requires texts.Valid()
    modifies err
    ensures rc == Reported(SALT_ERR_INPUT, err.faults != old(err.faults)) && err.faults >= old(err.faults)
    ensures Gained(old(err.data), err.data, texts.wording(d) + texts.usage, err.faults == old(err.faults))
  {
    ghost var start := err.data;
    rc := Report(err, texts, d, SALT_ERR_INPUT);
    if rc == SALT_ERR_IO {
      GainedPart(start, err.data, texts.wording(d), texts.usage);
      return;
    }
    ghost var here, faults := err.data, err.faults;
    rc := WriteStream(err, texts.usage);
    GainedThen(start, here, err.data, texts.wording(d), texts.usage, err.faults == faults);
    return if rc == SALT_OK then SALT_ERR_INPUT else rc;
  }

  /** The state says what the request says. */
  ghost predicate Carries(st: State, r: Request)
    reads st
  {
    && ReadPointer(st.keyOption) == Some(r.key) && ReadPointer(st.keyIdOption) == r.keyId
    && st.outputMode == r.outputMode && st.keyFormat == r.keyFormat && ReadPointer(st.plaintextArg) == r.plaintext
    && !st.keyIdOption.Buffer? && !st.plaintextArg.Buffer?
    && st.keyFromStdin == r.KeyFromStdin() && st.plaintextFromStdin == r.PlaintextFromStdin()
  }

  /** The checks after the options: only a request that passes all of them goes on. */
  method CheckSettings(st: State, positionals: seq<CString>, err: Sink, texts: Texts, ghost opts: seq<Opt>)
    returns (rc: Status)
    requires texts.Valid() && !st.keyOption.Buffer? && !st.keyIdOption.Buffer? && st.plaintextArg == Null
    requires ApplyOptions(DEFAULTS, opts) == (SettingsOf(st), None) && !st.showHelp && !st.showVersion
    modifies st`plaintextArg, st`keyFromStdin, st`plaintextFromStdin, err
    ensures var v := Judge(opts, positionals);
            && (v.Proceed? || v.Refuse?)
            && rc == Reported(if v.Proceed? then SALT_OK else SALT_ERR_INPUT, err.faults != old(err.faults))
            && (v.Proceed? ==> Carries(st, v.request) && unchanged(err))
            && (v.Refuse? ==> Gained(old(err.data), err.data, RefusalText(texts, v), err.faults == old(err.faults)))
    ensures err.faults >= old(err.faults)
    ensures !st.plaintextArg.Buffer?
  {
    hide ApplyOptions;
    if st.keyOption == Null {
      rc := RefuseWithUsage(err, texts, KeyRequired);
      return;
    }
    if st.keyOption.text == [] {
      rc := Report(err, texts, KeyEmpty, SALT_ERR_INPUT);
      return;
    }
    if st.keyIdOption != Null && st.keyIdOption.text != [] {
      var keyIdLen := if |st.keyIdOption.text| < SALT_MAX_KEY_ID_LEN + 1 then |st.keyIdOption.text|
          else SALT_MAX_KEY_ID_LEN + 1;
      if keyIdLen > SALT_MAX_KEY_ID_LEN {
        rc := Report(err, texts, KeyIdTooLong, SALT_ERR_INPUT);
        return;
      }
    }
    var optind := 0;
    if optind < |positionals| {
      st.plaintextArg := Argument(positionals[optind]);
      optind := optind + 1;
    }
    if optind < |positionals| {
      rc := RefuseWithUsage(err, texts, TooManyArguments);
      return;
    }
    st.keyFromStdin := st.keyOption.text == [DASH];
    st.plaintextFromStdin := st.plaintextArg == Null || st.plaintextArg.text == [DASH];
    if st.keyFromStdin && st.plaintextFromStdin {
      rc := Report(err, texts, BothFromStdin, SALT_ERR_INPUT);
      return;
    }
    return SALT_OK;
  }

  /** Options, help and version, and the checks. */
  method ParseArguments(st: State, opts: seq<Opt>, positionals: seq<CString>, out: Sink, err: Sink, texts: Texts)
    returns (rc: Status)
    requires texts.Valid() && SettingsOf(st) == DEFAULTS && st.Blank() && out != err
    modifies st`keyOption, st`keyIdOption, st`outputMode, st`keyFormat, st`showHelp, st`showVersion
    modifies st`plaintextArg, st`keyFromStdin, st`plaintextFromStdin, out, err
    ensures !st.keyOption.Buffer? && !st.keyIdOption.Buffer? && !st.plaintextArg.Buffer?
    ensures var v := Judge(opts, positionals);
            && (st.showHelp || st.showVersion <==> var s := ApplyOptions(DEFAULTS, opts).0; s.help || s.version)
            && (v.Proceed? ==> rc == SALT_OK && Carries(st, v.request) && !st.showHelp && !st.showVersion)
            && (v.Refuse? ==> rc == Reported(SALT_ERR_INPUT, err.faults != old(err.faults)))
            && (v.ShowHelp? ==> rc == PrintCode(out.Loses(old(out.ops), texts.usage))
                                && Gained(old(out.data), out.data, texts.usage, rc == SALT_OK))
            && (v.ShowVersion? ==> rc == PrintCode(out.Loses(old(out.ops), texts.version))
                                   && Gained(old(out.data), out.data, texts.version, rc == SALT_OK))
            && (v.Proceed? || v.Refuse? ==> unchanged(out))
            && (!v.Refuse? ==> unchanged(err))
            && (v.Refuse? ==> Gained(old(err.data), err.data, RefusalText(texts, v), err.faults == old(err.faults)))
            && (v.Refuse? && (st.showHelp || st.showVersion) ==>
                  !v.alsoUsage && (err.faults != old(err.faults) <==> err.Loses(old(err.ops), texts.wording(v.reason))))
    ensures err.faults >= old(err.faults)
  {
    hide ApplyOptions;
    rc := HandleOptions(st, err, texts, opts);
    if rc != SALT_OK {
      return;
    }
    if st.showHelp {
      rc := WriteStream(out, texts.usage);
      return;
    }
    if st.showVersion {
      rc := WriteStream(out, texts.version);
      return;
    }
    rc := CheckSettings(st, positionals, err, texts, opts);
  }

  /** The code of printing help or version: only the output stream matters. */
  function PrintCode(lost: bool): Status
  {
    if lost then SALT_ERR_IO else SALT_OK
  }
}

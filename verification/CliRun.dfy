/** One invocation: its stages in order, and the single exit that restores, wipes and releases. */
module CliRun {
  import opened Bytes
  import opened Heaps
  import opened Sinks
  import opened Sources
  import opened Signals
  import opened SealSize
  import opened Seal
  import opened JsonGrammar
  import opened JsonOutput
  import opened CliState
  import opened CliStream
  import opened CliArgs
  import opened CliInput
  import opened CliPrepare
  import Base64

  // ----- What a run does when nothing fails

  /** The encrypted value and the key id that go into the output. */
  datatype Envelope = Envelope(text: seq<byte>, keyId: Option<seq<byte>>)

  /** The explicit key id wins if it is not empty; otherwise the one from the key object. */
  function EffectiveKeyId(r: Request, key: ParsedKey): Option<seq<byte>>
  {
    if r.keyId.Some? && r.keyId.value != [] then r.keyId
    else if key.keyId != [] then Some(key.keyId)
    else None
  }

  /** What is encrypted, when the key and the plaintext are acceptable. */
  function IdealEnvelope(r: Request, input: seq<byte>, box: (seq<byte>, seq<byte>) -> seq<byte>): Option<Envelope>
  {
    match IdealKey(r.KeyFromStdin(), r.key, input, r.keyFormat)
    case None => None
    case Some(key) =>
      match IdealMessage(r.PlaintextFromStdin(), r.plaintext.GetOr([]), input)
      case None => None
      case Some(message) =>
        if DecodeKey(key.key).None? then None
        else Some(Envelope(SealedText(box, message, key.key), EffectiveKeyId(r, key)))
  }

  /** The document a request leads to, if it leads to one. */
  ghost function IdealDocument(r: Request, input: seq<byte>,
                               box: (seq<byte>, seq<byte>) -> seq<byte>): Option<seq<byte>>
  {
    match IdealEnvelope(r, input, box)
    case None => None
    case Some(e) => Document(r.outputMode, e.text, e.keyId)
  }

  /** What a run writes to standard output; none if the run is refused for its input. */
  ghost function IdealOutput(opts: seq<Opt>, positionals: seq<CString>, texts: Texts, input: seq<byte>,
                             box: (seq<byte>, seq<byte>) -> seq<byte>): Option<seq<byte>>
  {
    match Judge(opts, positionals)
    case Proceed(r) => IdealDocument(r, input, box)
    case ShowHelp => Some(texts.usage)
    case ShowVersion => Some(texts.version)
    case Refuse(_, _) => None
  }

  /** The pieces in which a request's document is written. */
  function IdealPieces(r: Request, input: seq<byte>, box: (seq<byte>, seq<byte>) -> seq<byte>): seq<seq<byte>>
  {
    match IdealEnvelope(r, input, box)
    case None => []
    case Some(e) => Pieces(r.outputMode, e.text, e.keyId)
  }

  /** The pieces of what a run writes to standard output. */
  function OutputPieces(opts: seq<Opt>, positionals: seq<CString>, texts: Texts, input: seq<byte>,
                        box: (seq<byte>, seq<byte>) -> seq<byte>): seq<seq<byte>>
  {
    match Judge(opts, positionals)
    case Proceed(r) => IdealPieces(r, input, box)
    case ShowHelp => [texts.usage]
    case ShowVersion => [texts.version]
    case Refuse(_, _) => []
  }

  /** They are the pieces of the output, if there is any. */
  lemma PiecesMakeOutput(opts: seq<Opt>, positionals: seq<CString>, texts: Texts, input: seq<byte>,
                         box: (seq<byte>, seq<byte>) -> seq<byte>)
    ensures var output := IdealOutput(opts, positionals, texts, input, box);
            output.Some? ==> Flatten(OutputPieces(opts, positionals, texts, input, box)) == output.value
  {
    hide Pieces, Document, IdealEnvelope;
    FlattenOne(texts.usage);
    FlattenOne(texts.version);
    var v := Judge(opts, positionals);
    if v.Proceed? && IdealDocument(v.request, input, box).Some? {
      var e := IdealEnvelope(v.request, input, box).value;
      PiecesMakeDocument(v.request.outputMode, e.text, e.keyId);
    }
  }

  // ----- What the code of a run means

  /** What went wrong in a run, as its devices have recorded it. */
  datatype Faults = Faults(
    /** A check found that a signal had been caught. */
    noticed: bool,
    /** A request for memory was denied. */
    denied: bool,
    /** A library primitive failed; what the first failure stands for. */
    crypto: Fault,
    /** Standard input was seen to be in error. */
    read: bool,
    /** Standard output was in error before; and it does not take all there is to write, or the flush after it fails. */
    spoiled: bool, undelivered: bool,
    /** An operation on standard error failed; and the first diagnostic of a refusal did not get out. */
    lost: bool, firstLost: bool)

  /** The code of a request: that of what went wrong, or of the verdict on its input. */
  function RequestCode(f: Faults, acceptable: bool): Status
  {
    Reported(if f.noticed then SALT_ERR_SIGNAL
             else if f.denied then SALT_ERR_INTERNAL
             else if f.read then SALT_ERR_IO
             else if f.crypto != SALT_OK then f.crypto
             else if !acceptable then SALT_ERR_INPUT
             else if f.spoiled || f.undelivered then SALT_ERR_IO
             else SALT_OK, f.lost)
  }

  /**
    * The code of a run for each verdict on its arguments. With information wanted and then a bad option, losing the
    * second diagnostic goes unnoticed.
    */
  function RunCode(v: Verdict, wants: bool, f: Faults, documented: bool): Status
  {
    match v
    case Proceed(_) => RequestCode(f, documented)
    case ShowHelp => PrintCode(f.undelivered)
    case ShowVersion => PrintCode(f.undelivered)
    case Refuse(_, _) => Reported(SALT_ERR_INPUT, if wants then f.firstLost else f.lost)
  }

  /** Only a signal that was noticed gives the code of an interrupt. */
  lemma OnlySignalsInterrupt(v: Verdict, wants: bool, f: Faults, documented: bool)
    requires RunCode(v, wants, f, documented) == SALT_ERR_SIGNAL
    ensures f.noticed
  {
  }

  lemma NoticedMeansSignal(v: Verdict, wants: bool, f: Faults, documented: bool)
    requires v.Proceed? && f.noticed
    ensures RunCode(v, wants, f, documented) == Reported(SALT_ERR_SIGNAL, f.lost)
  {
  }

  /** Standard output is all or nothing by code: complete on success, a prefix on an I/O error, untouched otherwise. */
  predicate AllOrNothing(rc: Status, before: seq<byte>, after: seq<byte>, document: Option<seq<byte>>)
  {
    if rc == SALT_OK then document.Some? && after == before + document.value
    else if rc == SALT_ERR_IO then Gained(before, after, document.GetOr([]), false)
    else after == before
  }

  // ----- When a run looks

  /** The text of the plaintext, whether it is acceptable or not. */
  function PlaintextOf(r: Request, input: seq<byte>): seq<byte>
  {
    if r.PlaintextFromStdin() then input else r.plaintext.GetOr([])
  }

  /** Whether a request gets as far as reading standard input, if no memory is denied and no signal is noticed. */
  predicate Reads(r: Request, input: seq<byte>)
  {
    r.KeyFromStdin() || (r.PlaintextFromStdin() && IdealKey(false, r.key, input, r.keyFormat).Some?)
  }

  /**
    * A request that begins at moment `start` and looks at the interrupt flag for the last time at `checkedAt`: what has
    * been caught before this moment has been noticed. It is the one at which the read of standard input has returned,
    * or that of the last look if this is later and nothing else has gone wrong.
    */
  function NoticeBy(r: Request, input: seq<byte>, denied: bool, troubled: bool, start: nat, checkedAt: nat): nat
  {
    var key, text := IdealKey(r.KeyFromStdin(), r.key, input, r.keyFormat), PlaintextOf(r, input);
    var returned := if r.KeyFromStdin() then start + 4 else if Reads(r, input) then start + 6 else 0;
    if denied then if r.KeyFromStdin() then start + 1 else 0
    else if !troubled && key.Some? && |text| <= SALT_GITHUB_SECRET_MAX_VALUE_LEN
            && (text == [] || DecodeKey(key.value.key).Some?) && checkedAt > returned then checkedAt
    else returned
  }

  /** The same for a run, which only begins to look when its arguments are accepted. */
  function RunNoticesBy(v: Verdict, input: seq<byte>, f: Faults, start: nat, checkedAt: nat): nat
  {
    if v.Proceed? then NoticeBy(v.request, input, f.denied, f.crypto != SALT_OK || f.read, start, checkedAt) else 0
  }

  /** An error of standard input is seen by every run that gets as far as reading it. */
  predicate SeesErrors(v: Verdict, input: seq<byte>, f: Faults, inError: bool)
  {
    v.Proceed? && Reads(v.request, input) && inError && !f.noticed && !f.denied ==> f.read
  }

  // ----- The stages

  /** What the looks at the flag while loading have noticed. */
  lemma NoticedInTime(process: Process, r: Request, input: seq<byte>, denied: bool, troubled: bool, start: nat)
    requires process.Tracked()
    requires r.KeyFromStdin() ==> LooksTwice(process, start, denied)
    requires !r.KeyFromStdin() && Reads(r, input) && !denied && process.CaughtBefore(start + 6) ==> process.noticed
    requires process.interrupted && !denied && !troubled ==>
               var key := IdealKey(r.KeyFromStdin(), r.key, input, r.keyFormat);
               process.noticed || key == None || |PlaintextOf(r, input)| > SALT_GITHUB_SECRET_MAX_VALUE_LEN
    ensures process.CaughtBefore(NoticeBy(r, input, denied, troubled, start, process.now)) ==> process.noticed
    ensures process.interrupted <==> process.CaughtBefore(process.now)
  {
    hide IdealKey, DecodeKey;
  }

  /** And the one after sealing, when nothing had been caught by the moment everything was loaded. */
  lemma NoticedAfterSealing(process: Process, r: Request, input: seq<byte>, denied: bool, troubled: bool, start: nat,
                            loaded: nat)
    requires process.Tracked() && !process.CaughtBefore(loaded)
    requires r.KeyFromStdin() ==> loaded >= start + 4
    requires !r.KeyFromStdin() && r.PlaintextFromStdin() ==> loaded >= start + 6
    requires process.interrupted && !denied && !troubled ==>
               var key := IdealKey(r.KeyFromStdin(), r.key, input, r.keyFormat);
               process.noticed || key == None || DecodeKey(key.value.key) == None
    requires PlaintextOf(r, input) != []
    ensures process.CaughtBefore(NoticeBy(r, input, denied, troubled, start, process.now)) ==> process.noticed
  {
    hide IdealKey, DecodeKey;
  }

  lemma KeyIgnoresInput(r: Request, input: seq<byte>)
    ensures IdealKey(false, r.key, input, r.keyFormat) == IdealKey(false, r.key, [], r.keyFormat)
  {
  }

  /** Loads the key and then the plaintext. */
  method LoadInputs(st: State, ghost r: Request, src: Source, err: Sink, texts: Texts, heap: Heap, process: Process,
                    sodium: Sodium, ghost base: set<array<byte>>) returns (rc: Status)
    requires st.Sound(heap, base) && Carries(st, r) && !(r.KeyFromStdin() && r.PlaintextFromStdin())
    requires st.stdinKey == null && st.trimmedKeyInput == null && st.stdinPlaintext == null
    requires st.argvPlaintextCopy == null && st.message == null
    requires texts.Valid() && process.Tracked() && !process.noticed && !heap.denied && !src.faulted
    modifies st`stdinKey, st`keyOption, st`trimmedKeyInput, st`trimmedKeyInputCap, st`parsedHasKeyId
    modifies st`stdinPlaintext, st`argvPlaintextCopy, st`argvPlaintextCap, st`message, st`messageLen
    modifies st.parsedKeyB64, st.parsedKeyId, src, err, heap, sodium`locks
    modifies process`now, process`interrupted, process`noticed
    ensures st.Sound(heap, base) && process.Tracked()
    ensures fresh(heap.Live() - old(heap.Live()))
    ensures var key := IdealKey(r.KeyFromStdin(), r.key, old(src.pending), r.keyFormat);
            var message := IdealMessage(r.PlaintextFromStdin(), r.plaintext.GetOr([]), old(src.pending));
            && rc == RequestCode(Faults(process.noticed, heap.denied, SALT_OK, src.faulted, false, false,
                                        err.faults != old(err.faults), false), key.Some? && message.Some?)
            && (rc == SALT_OK ==>
                  && key.Some? && message.Some? && HoldsKey(st, key.value) && HoldsMessage(st, message.value)
                  && !process.noticed && !heap.denied && !src.faulted)
    ensures ToldIff(rc != SALT_OK, old(err.data), err.data, err.faults == old(err.faults))
    ensures err.faults >= old(err.faults)
    ensures process.CaughtBefore(NoticeBy(r, old(src.pending), heap.denied, src.faulted, old(process.now), process.now))
            ==> process.noticed
    ensures rc == SALT_OK ==>
              && !process.CaughtBefore(process.now)
              && (r.KeyFromStdin() ==> process.now >= old(process.now) + 4)
              && (!r.KeyFromStdin() && r.PlaintextFromStdin() ==> process.now >= old(process.now) + 6)
    ensures Reads(r, old(src.pending)) ==> LooksForErrors(src, process.noticed, heap.denied)
  {
    hide State.Sound, Process.CaughtBefore, Process.Tracked, CStr, Trim, Holdings.Sound, IdealKey, Told, HoldsKey,
         HoldsMessage, NoticeBy;
    ghost var input, start := src.pending, process.now;
    KeyIgnoresInput(r, input);
    rc := LoadKeyInput(st, src, err, texts, heap, process, sodium, base);
    if rc != SALT_OK {
      NoticedInTime(process, r, input, heap.denied, src.faulted, start);
      return;
    }
    rc := LoadPlaintext(st, src, err, texts, heap, process, sodium, base);
    NoticedInTime(process, r, input, heap.denied, src.faulted, start);
  }

  /** The state's choice of the key id is the effective one. */
  lemma KeyIdIsEffective(st: State, r: Request, key: ParsedKey)
    requires ReadPointer(st.keyIdOption) == r.keyId && !st.keyIdOption.Buffer? && HoldsKey(st, key)
    requires st.effectiveKeyId == Null
    ensures st.KeyIdChoice().Read() == EffectiveKeyId(r, key)
  {
    hide CStr;
  }

  /** Seals what has been loaded, under the effective key id. */
  method SealInputs(st: State, ghost r: Request, err: Sink, texts: Texts, heap: Heap, process: Process, sodium: Sodium,
                    ghost base: set<array<byte>>, ghost message: seq<byte>, ghost key: ParsedKey) returns (rc: Status)
    requires st.Sound(heap, base) && ReadPointer(st.keyIdOption) == r.keyId && !st.keyIdOption.Buffer?
             && st.effectiveKeyId == Null && st.output == null
    requires HoldsKey(st, key) && HoldsMessage(st, message) && 0 < |message| <= SALT_GITHUB_SECRET_MAX_VALUE_LEN
    requires texts.Valid() && sodium.Valid() && sodium.machine.sealBytes <= SALT_MAX_MESSAGE_LEN
    requires process.Tracked() && !process.noticed && !heap.denied && sodium.fault == SALT_OK
    modifies st`effectiveKeyId, st`output, st`outputCap, st`outputWritten, err, heap, sodium
    modifies process`now, process`interrupted, process`noticed
    ensures st.Sound(heap, base) && process.Tracked()
    ensures fresh(heap.Live() - old(heap.Live()))
    ensures rc == RequestCode(Faults(process.noticed, heap.denied, sodium.fault, false, false, false,
                                     err.faults != old(err.faults), false), DecodeKey(key.key).Some?)
    ensures process.interrupted && !heap.denied && sodium.fault == SALT_OK ==>
              process.noticed || DecodeKey(key.key) == None
    ensures rc == SALT_OK ==>
              && !process.noticed && !heap.denied && sodium.fault == SALT_OK && !process.interrupted
              && DecodeKey(key.key).Some? && st.output != null
              && CStr(st.output[..]) == SealedText(sodium.box, message, key.key)
              && st.effectiveKeyId.Read() == EffectiveKeyId(r, key)
    ensures ToldIff(rc != SALT_OK, old(err.data), err.data, err.faults == old(err.faults))
    ensures err.faults >= old(err.faults)
  {
    hide Process.CaughtBefore, Process.Tracked, CStr, Holdings.Sound, State.Sound, DecodeKey, SealedText, Told,
         HoldsMessage, Base64.Encode,
         Machine.TrueLen, Machine.Valid, Texts.Valid, EffectiveKeyId;
    KeyIdIsEffective(st, r, key);
    rc := PrepareOutput(st, err, texts, heap, process, sodium, base, message, key.key);
  }

  lemma CarriesKeyId(st: State, r: Request)
    requires Carries(st, r)
    ensures ReadPointer(st.keyIdOption) == r.keyId && !st.keyIdOption.Buffer? && st.outputMode == r.outputMode
  {
  }

  /** If something has gone wrong, the verdict on the input makes no difference. */
  lemma FaultDecides(f: Faults, acceptable: bool)
    requires RequestCode(f, true) != SALT_OK
    requires !f.spoiled && !f.undelivered
    ensures RequestCode(f, true) == RequestCode(f, acceptable)
  {
  }

  /** Loads the key and the plaintext, and seals. On success the state holds the envelope and no signal was caught. */
  method Encrypt(st: State, ghost r: Request, src: Source, err: Sink, texts: Texts, heap: Heap, process: Process,
                 sodium: Sodium, ghost base: set<array<byte>>) returns (rc: Status)
    requires st.Sound(heap, base) && Carries(st, r) && st.effectiveKeyId == Null
             && !(r.KeyFromStdin() && r.PlaintextFromStdin())
    requires st.stdinKey == null && st.trimmedKeyInput == null && st.stdinPlaintext == null
    requires st.argvPlaintextCopy == null && st.message == null && st.output == null
    requires texts.Valid() && sodium.Valid() && sodium.machine.sealBytes <= SALT_MAX_MESSAGE_LEN
    requires process.Tracked() && !process.noticed && !heap.denied && sodium.fault == SALT_OK && !src.faulted
    modifies st, st.parsedKeyB64, st.parsedKeyId, src, err, heap, sodium
    modifies process`now, process`interrupted, process`noticed
    ensures st.Sound(heap, base) && process.Tracked() && st.outputMode == r.outputMode
    ensures fresh(heap.Live() - old(heap.Live()))
    ensures var e := IdealEnvelope(r, old(src.pending), sodium.box);
            && rc == RequestCode(Faults(process.noticed, heap.denied, sodium.fault, src.faulted, false, false,
                                        err.faults != old(err.faults), false), e.Some?)
            && (rc == SALT_OK ==>
                  && e.Some? && !process.interrupted && !process.noticed && !heap.denied && sodium.fault == SALT_OK
                  && st.output != null && CStr(st.output[..]) == e.value.text
                  && st.effectiveKeyId.Read() == e.value.keyId)
    ensures ToldIff(rc != SALT_OK, old(err.data), err.data, err.faults == old(err.faults))
    ensures err.faults >= old(err.faults)
    ensures var troubled := sodium.fault != SALT_OK || src.faulted;
            var due := NoticeBy(r, old(src.pending), heap.denied, troubled, old(process.now), process.now);
            process.CaughtBefore(due) ==> process.noticed
    ensures Reads(r, old(src.pending)) ==> LooksForErrors(src, process.noticed, heap.denied)
  {
    hide RequestCode, Carries, Process.CaughtBefore, Process.Tracked, CStr, Trim, Holdings.Sound, IdealKey, DecodeKey,
         SealedText, Told,
         HoldsMessage, NoticeBy, State.Sound, Base64.Encode, Machine.TrueLen, Texts.Valid, EffectiveKeyId,
             Pointer.Read, Machine.Valid,
         HoldsKey, ReadPointer, Reads, Sodium.Valid;
    ghost var input := src.pending;
    CarriesKeyId(st, r);
    rc := LoadInputs(st, r, src, err, texts, heap, process, sodium, base);
    if rc != SALT_OK {
      ghost var f := Faults(process.noticed, heap.denied, SALT_OK, src.faulted, false, false,
                            err.faults != old(err.faults), false);
      if RequestCode(f, true) != SALT_OK {
        FaultDecides(f, IdealEnvelope(r, input, sodium.box).Some?);
      }
      return;
    }
    ghost var loaded := process.now;
    ghost var key := IdealKey(r.KeyFromStdin(), r.key, input, r.keyFormat).value;
    ghost var message := IdealMessage(r.PlaintextFromStdin(), r.plaintext.GetOr([]), input).value;
    rc := SealInputs(st, r, err, texts, heap, process, sodium, base, message, key);
    NoticedAfterSealing(process, r, input, heap.denied, sodium.fault != SALT_OK || src.faulted, old(process.now),
                        loaded);
  }

  /** Writes the document, or reports why there is none or why it did not get out. */
  method Emit(st: State, out: Sink, err: Sink, texts: Texts, ghost e: Envelope) returns (rc: Status)
    requires texts.Valid() && out != err && st.output != null
    requires CStr(st.output[..]) == e.text && st.effectiveKeyId.Read() == e.keyId
    modifies out, err
    ensures var doc := Document(st.outputMode, e.text, e.keyId);
            && rc == Reported(if doc.None? then SALT_ERR_INPUT
                              else if old(out.failed)
                                      || !out.Delivers(old(out.ops), Pieces(st.outputMode, e.text, e.keyId))
                                          then SALT_ERR_IO
                              else SALT_OK, err.faults != old(err.faults))
            && AllOrNothing(rc, old(out.data), out.data, doc)
    ensures ToldIff(rc != SALT_OK, old(err.data), err.data, err.faults == old(err.faults))
    ensures err.faults >= old(err.faults)
  {
    hide CStr, Pieces, Sink.Delivers;
    rc := EmitOutput(out, st.outputMode, CStr(st.output[..]), st.effectiveKeyId.Read());
    if rc != SALT_OK {
      assert texts.wording(OutputFailed(rc)) != [];
      var told := WriteStream(err, texts.wording(OutputFailed(rc)));
      if told != SALT_OK {
        rc := SALT_ERR_IO;
      }
    }
  }

  /**
    * Everything a request asks for. `checkedAt` is the moment of the check after sealing, or the end if it is not
    * reached; only one moment, that of writing the output, comes after it.
    */
  method ServeRequest(st: State, ghost r: Request, src: Source, out: Sink, err: Sink, texts: Texts, heap: Heap,
                      process: Process, sodium: Sodium, ghost base: set<array<byte>>)
    returns (rc: Status, ghost checkedAt: nat)
    requires st.Sound(heap, base) && Carries(st, r) && st.effectiveKeyId == Null
             && !(r.KeyFromStdin() && r.PlaintextFromStdin())
    requires st.stdinKey == null && st.trimmedKeyInput == null && st.stdinPlaintext == null
    requires st.argvPlaintextCopy == null && st.message == null && st.output == null
    requires texts.Valid() && sodium.Valid() && sodium.machine.sealBytes <= SALT_MAX_MESSAGE_LEN && out != err
    requires process.Tracked() && !process.noticed && !heap.denied && sodium.fault == SALT_OK && !src.faulted
    modifies st, st.parsedKeyB64, st.parsedKeyId, src, out, err, heap, sodium
    modifies process`now, process`interrupted, process`noticed
    ensures st.Sound(heap, base) && process.Tracked()
    ensures fresh(heap.Live() - old(heap.Live()))
    ensures var doc := IdealDocument(r, old(src.pending), sodium.box);
            && AllOrNothing(rc, old(out.data), out.data, doc)
            && rc == RequestCode(Faults(process.noticed, heap.denied, sodium.fault, src.faulted, old(out.failed),
                                        !out.Delivers(old(out.ops), IdealPieces(r, old(src.pending), sodium.box)),
                                        err.faults != old(err.faults), false), doc.Some?)
    ensures var troubled := sodium.fault != SALT_OK || src.faulted;
            var due := NoticeBy(r, old(src.pending), heap.denied, troubled, old(process.now), checkedAt);
            process.CaughtBefore(due) ==> process.noticed
    ensures Reads(r, old(src.pending)) ==> LooksForErrors(src, process.noticed, heap.denied)
    ensures process.epoch <= checkedAt <= process.now <= checkedAt + 1
    ensures process.CaughtBefore(checkedAt) ==> rc != SALT_OK && out.data == old(out.data)
    ensures ToldIff(rc != SALT_OK, old(err.data), err.data, err.faults == old(err.faults))
    ensures err.faults >= old(err.faults)
  {
    hide CStr, Holdings.Sound, State.Sound, Document, IdealEnvelope, Carries, Sodium.Valid, Heap.Live, NoticeBy, Reads,
         Sink.Delivers, Pieces;
    rc := Encrypt(st, r, src, err, texts, heap, process, sodium, base);
    checkedAt := process.now;
    if rc != SALT_OK {
      return;
    }
    ghost var e := IdealEnvelope(r, old(src.pending), sodium.box).value;
    assert !process.CaughtBefore(checkedAt);
    process.Deliver();
    rc := Emit(st, out, err, texts, e);
  }

  /** Help or version was asked for before the options ran out or one was refused. */
  predicate WantsInformation(opts: seq<Opt>)
  {
    var s := ApplyOptions(DEFAULTS, opts).0;
    s.help || s.version
  }

  /** What standard error gets when the arguments are refused; after a request for information, one more line. */
  function RefusalOutput(texts: Texts, v: Verdict, wants: bool): seq<byte>
    requires v.Refuse?
  {
    RefusalText(texts, v) + if wants then texts.wording(NothingToReport) else []
  }

  /** After a failure with help or version wanted, one more line; whether it gets out makes no difference. */
  method ReportInformationFailure(err: Sink, texts: Texts, rc: Status)
    requires texts.Valid() && rc != SALT_OK
    modifies err
    ensures Told(old(err.data), err.data, err.faults == old(err.faults)) && err.faults >= old(err.faults)
    ensures rc == SALT_ERR_INPUT && err.faults == old(err.faults) ==>
            err.data == old(err.data) + texts.wording(NothingToReport)
  {
    var line := if rc == SALT_ERR_INPUT then NothingToReport else OutputFailed(rc);
    assert texts.wording(line) != [];
    var ignored := WriteStream(err, texts.wording(line));
  }

  /** The arguments; then nothing more, if they ask for help or version or are refused. */
  method TakeArguments(st: State, opts: seq<Opt>, positionals: seq<CString>, out: Sink, err: Sink, texts: Texts,
                       heap: Heap, ghost base: set<array<byte>>) returns (rc: Status, proceed: bool)
    requires st.Sound(heap, base)
    requires SettingsOf(st) == DEFAULTS && st.Blank() && texts.Valid() && out != err
    modifies st`keyOption, st`keyIdOption, st`outputMode, st`keyFormat, st`showHelp, st`showVersion
    modifies st`plaintextArg, st`keyFromStdin, st`plaintextFromStdin, out, err
    ensures st.Sound(heap, base)
    ensures var v, wants := Judge(opts, positionals), WantsInformation(opts);
            && proceed == v.Proceed?
            && (v.Proceed? ==> rc == SALT_OK && Carries(st, v.request) && unchanged(err))
            && (v.ShowHelp? || v.ShowVersion? ==>
                  && rc == PrintCode(!out.Delivers(old(out.ops), [if v.ShowHelp? then texts.usage else texts.version]))
                  && Gained(old(out.data), out.data, if v.ShowHelp? then texts.usage else texts.version, rc == SALT_OK))
            && (v.Refuse? ==>
                  && rc == Reported(SALT_ERR_INPUT, if wants then err.Loses(old(err.ops), texts.wording(v.reason))
                                                    else err.faults != old(err.faults))
                  && (err.faults == old(err.faults) ==> err.data == old(err.data) + RefusalOutput(texts, v, wants)))
            && (v.Proceed? || v.Refuse? ==> unchanged(out))
            && (!v.Proceed? ==>
                  ToldIff(rc != SALT_OK, old(err.data), err.data, err.faults == old(err.faults)))
    ensures err.faults >= old(err.faults)
  {
    hide ApplyOptions, Carries, Sink.Loses, Sink.Delivers, Holdings.Sound;
    ghost var v, h := Judge(opts, positionals), st.Holds();
    out.OnePiece(out.ops, texts.usage);
    out.OnePiece(out.ops, texts.version);
    rc := ParseArguments(st, opts, positionals, out, err, texts);
    SetArguments(h, heap.Live(), base, st.keyOption, st.keyIdOption, st.plaintextArg);
    assert st.Holds() == h.(keyOption := st.keyOption, keyIdOption := st.keyIdOption, plaintextArg := st.plaintextArg);
    assert v.Refuse? ==> texts.wording(v.reason) != [];
    proceed := rc == SALT_OK && !st.showHelp && !st.showVersion;
    if (st.showHelp || st.showVersion) && rc != SALT_OK {
      ghost var here := err.data;
      ReportInformationFailure(err, texts, rc);
    }
  }

  lemma EpochIsPast(process: Process)
    requires process.Tracked()
    ensures process.epoch <= process.now
  {
  }

  /** The stages between the reset of the interrupt flag and the cleanup. */
  method Stages(st: State, opts: seq<Opt>, positionals: seq<CString>, src: Source, out: Sink, err: Sink, texts: Texts,
                heap: Heap, process: Process, sodium: Sodium, ghost base: set<array<byte>>)
    returns (rc: Status, ghost checkedAt: nat)
    requires st.Sound(heap, base) && st.Blank() && SettingsOf(st) == DEFAULTS
    requires texts.Valid() && sodium.Valid() && sodium.machine.sealBytes <= SALT_MAX_MESSAGE_LEN && out != err
    requires process.Tracked() && !process.noticed && !heap.denied && sodium.fault == SALT_OK && !src.faulted
    modifies st, st.parsedKeyB64, st.parsedKeyId, src, out, err, heap, sodium
    modifies process`now, process`interrupted, process`noticed
    ensures st.Sound(heap, base) && process.Tracked()
    ensures fresh(heap.Live() - old(heap.Live()))
    ensures var v, wants := Judge(opts, positionals), WantsInformation(opts);
            var doc := IdealOutput(opts, positionals, texts, old(src.pending), sodium.box);
            var pieces := OutputPieces(opts, positionals, texts, old(src.pending), sodium.box);
            var f := Faults(process.noticed, heap.denied, sodium.fault, src.faulted, old(out.failed),
                            !out.Delivers(old(out.ops), pieces), err.faults != old(err.faults),
                            v.Refuse? && err.Loses(old(err.ops), texts.wording(v.reason)));
            && AllOrNothing(rc, old(out.data), out.data, doc)
            && rc == RunCode(v, wants, f, doc.Some?)
            && ToldIff(rc != SALT_OK, old(err.data), err.data, !f.lost)
            && (v.Refuse? && !f.lost ==> err.data == old(err.data) + RefusalOutput(texts, v, wants))
            && ((v.Proceed? || v.Refuse?) && process.CaughtBefore(checkedAt) ==>
                  rc != SALT_OK && out.data == old(out.data))
            && SeesErrors(v, old(src.pending), f, src.failed)
            && (process.CaughtBefore(RunNoticesBy(v, old(src.pending), f, old(process.now), checkedAt)) ==>
                process.noticed)
    ensures process.epoch <= checkedAt <= process.now <= checkedAt + 1
    ensures err.faults >= old(err.faults)
  {
    hide Process.Tracked, ApplyOptions, IdealDocument, Carries, Sodium.Valid, Holdings.Sound, Sink.Loses,
         WantsInformation, State.Sound, NoticeBy, IdealPieces, Sink.Delivers;
    EpochIsPast(process);
    checkedAt := process.now;
    var proceed;
    rc, proceed := TakeArguments(st, opts, positionals, out, err, texts, heap, base);
    if !proceed {
      return;
    }
    rc, checkedAt := ServeRequest(st, Judge(opts, positionals).request, src, out, err, texts, heap, process, sodium,
                                  base);
  }

  /** `argv` has a first entry that is not empty, and no null entries. */
  predicate ValidShape(argv: seq<Option<CString>>)
  {
    argv != [] && (forall k | 0 <= k < |argv| :: argv[k].Some?) && argv[0].value != []
  }

  method HasValidArgvShape(argv: seq<Option<CString>>) returns (valid: bool)
    ensures valid == ValidShape(argv)
  {
    if |argv| == 0 || argv[0] == None || argv[0].value == [] {
      return false;
    }
    var i := 0;
    while i < |argv|
      invariant 0 <= i <= |argv| && forall k | 0 <= k < i :: argv[k].Some?
    {
      if argv[i] == None {
        return false;
      }
      i := i + 1;
    }
    return true;
  }

  /** Some signal arrives at or after `from` and before `to`. */
  ghost predicate SomeArrival(process: Process, from: nat, to: nat)
  {
    exists k | from <= k < to :: process.arrivals(k) != {}
  }

  /** While the CLI's handlers are in place, every signal that arrives is caught. */
  lemma ArrivalsAreCaught(process: Process, to: nat)
    requires process.sigint == Ours && process.sigterm == Ours
    ensures SomeArrival(process, process.epoch, to) ==> process.CaughtBefore(to)
  {
    if SomeArrival(process, process.epoch, to) {
      var k :| process.epoch <= k < to && process.arrivals(k) != {};
      var signal :| signal in process.arrivals(k);
      assert signal == SIGINT || signal == SIGTERM;
      assert Catches(process.arrivals(k), process.sigint, process.sigterm);
    }
  }

  /** Without an arrival since the reset there is nothing to notice. */
  lemma NothingToNotice(process: Process)
    requires process.Tracked()
    ensures !SomeArrival(process, process.epoch, process.now) ==> !process.noticed
  {
  }

  /** The output streams before and after. */
  datatype Streams = Streams(outBefore: seq<byte>, outAfter: seq<byte>, errBefore: seq<byte>, errAfter: seq<byte>)

  /**
    * What is true of a run that has got past the handlers. `arrival` and `due` say whether a signal arrived in it
    * before the last look at the flag, and before the look that had to notice it.
    */
  ghost predicate Completed(rc: Status, managed: bool, v: Verdict, wants: bool, texts: Texts, doc: Option<seq<byte>>,
                            io: Streams, f: Faults, arrival: bool, due: bool)
  {
    && AllOrNothing(rc, io.outBefore, io.outAfter, doc)
    && ToldIff(rc != SALT_OK, io.errBefore, io.errAfter, !f.lost)
    && rc == RunCode(v, wants, f, doc.Some?)
    && (v.Refuse? && !f.lost ==> io.errAfter == io.errBefore + RefusalOutput(texts, v, wants))
    && (managed && arrival && (v.Proceed? || v.Refuse?) ==> rc != SALT_OK && io.outAfter == io.outBefore)
    && (managed && due ==> rc == Reported(SALT_ERR_SIGNAL, f.lost))
  }

  /** What is true of a run with proper arguments, whether it came to an end early or not. */
  ghost predicate Outcome(rc: Status, w: SignalSetup, v: Verdict, wants: bool, texts: Texts, doc: Option<seq<byte>>,
                          io: Streams, f: Faults, arrival: bool, due: bool)
  {
    if w.managed && !InstallSucceeds(w) then
      && rc == Reported(SALT_ERR_INTERNAL, f.lost) && io.outAfter == io.outBefore
      && ToldIff(true, io.errBefore, io.errAfter, !f.lost)
    else Completed(rc, w.managed, v, wants, texts, doc, io, f, arrival, due)
  }

  /** Forgets earlier interrupts and goes through the stages; `from` is the moment of the reset. */
  method ResetAndGo(st: State, opts: seq<Opt>, positionals: seq<CString>, src: Source, out: Sink, err: Sink,
                    texts: Texts, heap: Heap, process: Process, sodium: Sodium, ghost managed: bool,
                    ghost base: set<array<byte>>)
    returns (rc: Status, ghost from: nat, ghost checkedAt: nat)
    requires st.Sound(heap, base) && st.Blank() && SettingsOf(st) == DEFAULTS
    requires texts.Valid() && sodium.Valid() && sodium.machine.sealBytes <= SALT_MAX_MESSAGE_LEN && out != err
    requires !process.noticed && !heap.denied && sodium.fault == SALT_OK && !src.faulted
    requires managed ==> process.sigint == Ours && process.sigterm == Ours
    modifies st, st.parsedKeyB64, st.parsedKeyId, src, out, err, heap, sodium
    modifies process`now, process`interrupted, process`noticed, process`epoch
    ensures st.Sound(heap, base) && process.Tracked()
    ensures fresh(heap.Live() - old(heap.Live()))
    ensures var v, wants := Judge(opts, positionals), WantsInformation(opts);
            var doc := IdealOutput(opts, positionals, texts, old(src.pending), sodium.box);
            var pieces := OutputPieces(opts, positionals, texts, old(src.pending), sodium.box);
            var f := Faults(process.noticed, heap.denied, sodium.fault, src.faulted, old(out.failed),
                            !out.Delivers(old(out.ops), pieces), err.faults != old(err.faults),
                            v.Refuse? && err.Loses(old(err.ops), texts.wording(v.reason)));
            && Completed(rc, managed, v, wants, texts, doc, Streams(old(out.data), out.data, old(err.data), err.data),
                         f,
                         SomeArrival(process, from, checkedAt),
                         SomeArrival(process, from, RunNoticesBy(v, old(src.pending), f, from, checkedAt)))
            && SeesErrors(v, old(src.pending), f, src.failed)
    ensures old(process.now) <= from == process.epoch <= checkedAt <= process.now <= checkedAt + 1
    ensures !SomeArrival(process, from, process.now) ==> !process.noticed
  {
    hide SomeArrival, Reported, ToldIff, Catches, Process.CaughtBefore, Process.Tracked, RunCode, AllOrNothing, Judge,
         IdealOutput,
         WantsInformation, State.Sound,
         SettingsOf, RefusalOutput, State.Blank, Sodium.Valid, Texts.Valid, Told, ApplyOptions, Sink.Loses,
             Sink.Delivers,
         OutputPieces, RunNoticesBy, SeesErrors;
    process.Deliver();
    process.ResetInterrupted();
    from := process.now;
    rc, checkedAt := Stages(st, opts, positionals, src, out, err, texts, heap, process, sodium, base);
    assert !SomeArrival(process, from, process.now) ==> !process.noticed by {
      NothingToNotice(process);
    }
    if managed {
      ghost var v, input := Judge(opts, positionals), old(src.pending);
      ghost var pieces := OutputPieces(opts, positionals, texts, input, sodium.box);
      ghost var f := Faults(process.noticed, heap.denied, sodium.fault, src.faulted, old(out.failed),
                            !out.Delivers(old(out.ops), pieces), err.faults != old(err.faults),
                            v.Refuse? && err.Loses(old(err.ops), texts.wording(v.reason)));
      ArrivalsAreCaught(process, checkedAt);
      DueIsSignal(process, v, WantsInformation(opts), input, f,
                  IdealOutput(opts, positionals, texts, input, sodium.box).Some?, checkedAt);
    }
  }

  /** How a run meets the signal machinery. */
  ghost function SetupOf(process: Process, manageSignals: bool): SignalSetup
    reads process
  {
    process.setups(process.installations).(managed := manageSignals)
  }

  /** Installs the handlers, or reports that it cannot. */
  method InstallHandlers(err: Sink, texts: Texts, process: Process) returns (rc: Status)
    requires texts.Valid()
    modifies err, process
    ensures var w := process.setups(old(process.installations));
            && rc == Reported(if InstallSucceeds(w) then SALT_OK else SALT_ERR_INTERNAL, err.faults != old(err.faults))
            && process.Now() == Installed(old(process.Now()), w)
            && (InstallSucceeds(w) ==> unchanged(err))
    ensures process.now >= old(process.now) && process.noticed == old(process.noticed)
    ensures ToldIff(rc != SALT_OK, old(err.data), err.data, err.faults == old(err.faults))
    ensures err.faults >= old(err.faults)
  {
    rc := process.EnsureSignalHandlers();
    if rc != SALT_OK {
      rc := SALT_ERR_INTERNAL;
      assert texts.wording(HandlersNotInstalled) != [];
      var told := WriteStream(err, texts.wording(HandlersNotInstalled));
      if told != SALT_OK {
        rc := SALT_ERR_IO;
      }
    }
  }

  /** Installs the handlers if asked to, resets the flag, and goes through the stages. */
  method Work(st: State, opts: seq<Opt>, positionals: seq<CString>, src: Source, out: Sink, err: Sink, texts: Texts,
              heap: Heap, process: Process, sodium: Sodium, manageSignals: bool, ghost base: set<array<byte>>)
    returns (rc: Status, ghost from: nat, ghost checkedAt: nat)
    requires st.Sound(heap, base) && st.Blank() && SettingsOf(st) == DEFAULTS
    requires texts.Valid() && sodium.Valid() && sodium.machine.sealBytes <= SALT_MAX_MESSAGE_LEN && out != err
    requires !process.noticed && !heap.denied && sodium.fault == SALT_OK && !src.faulted
    modifies st, st.parsedKeyB64, st.parsedKeyId, src, out, err, heap, process, sodium
    ensures st.Sound(heap, base) && fresh(heap.Live() - old(heap.Live()))
    ensures var w, v := old(SetupOf(process, manageSignals)), Judge(opts, positionals);
            var pieces := OutputPieces(opts, positionals, texts, old(src.pending), sodium.box);
            var f := Faults(process.noticed, heap.denied, sodium.fault, src.faulted, old(out.failed),
                            !out.Delivers(old(out.ops), pieces), err.faults != old(err.faults),
                            v.Refuse? && err.Loses(old(err.ops), texts.wording(v.reason)));
            && process.Now() == (if manageSignals then Installed(old(process.Now()), w) else old(process.Now()))
            && Outcome(rc, w, v, WantsInformation(opts), texts,
                       IdealOutput(opts, positionals, texts, old(src.pending), sodium.box),
                       Streams(old(out.data), out.data, old(err.data), err.data), f,
                       SomeArrival(process, from, checkedAt),
                       SomeArrival(process, from, RunNoticesBy(v, old(src.pending), f, from, checkedAt)))
            && ((manageSignals && !InstallSucceeds(w)) || process.epoch == from)
            && (!(manageSignals && !InstallSucceeds(w)) ==> SeesErrors(v, old(src.pending), f, src.failed))
    ensures old(process.now) <= from <= checkedAt <= process.now <= checkedAt + 1
    ensures !SomeArrival(process, from, process.now) ==> !process.noticed
  {
    hide RunNoticesBy, SeesErrors, OutputPieces, Sink.Delivers, Completed, RunCode, Judge, IdealOutput,
         WantsInformation, Holdings.Sound, SettingsOf, ApplyOptions, State.Blank,
         Sodium.Valid, ReadPointer, State.Sound, RefusalOutput, Sink.Loses;
    rc, from, checkedAt := SALT_ERR_INPUT, process.now, process.now;
    if manageSignals {
      rc := InstallHandlers(err, texts, process);
      from, checkedAt := process.now, process.now;
      if rc != SALT_OK {
        return;
      }
    }
    rc, from, checkedAt := ResetAndGo(st, opts, positionals, src, out, err, texts, heap, process, sodium,
                                      manageSignals, base);
  }

  /** What is due to be noticed and has been gives the code of an interrupt. */
  lemma DueIsSignal(process: Process, v: Verdict, wants: bool, input: seq<byte>, f: Faults, documented: bool,
                    checkedAt: nat)
    requires process.sigint == Ours && process.sigterm == Ours
    requires process.CaughtBefore(RunNoticesBy(v, input, f, process.epoch, checkedAt)) ==> f.noticed
    ensures SomeArrival(process, process.epoch, RunNoticesBy(v, input, f, process.epoch, checkedAt)) ==>
              RunCode(v, wants, f, documented) == Reported(SALT_ERR_SIGNAL, f.lost)
  {
    hide NoticeBy;
    ArrivalsAreCaught(process, RunNoticesBy(v, input, f, process.epoch, checkedAt));
    if v.Proceed? && f.noticed {
      NoticedMeansSignal(v, wants, f, documented);
    }
  }

  /** From here on the devices record what goes wrong. */
  method BeginRecords(src: Source, heap: Heap, process: Process, sodium: Sodium)
    modifies src`faulted, heap`denied, process`noticed, sodium`fault
    ensures !src.faulted && !heap.denied && !process.noticed && sodium.fault == SALT_OK
  {
    heap.BeginRecord();
    process.BeginRecord();
    sodium.BeginRecord();
    src.BeginRecord();
  }

  /** A state that owns nothing yet. */
  method NewState(heap: Heap) returns (st: State)
    ensures fresh(st) && fresh(st.parsedKeyB64) && fresh(st.parsedKeyId) && fresh(st.error)
    ensures st.Sound(heap, heap.Live()) && st.Blank() && SettingsOf(st) == DEFAULTS
  {
    st := new State();
    OwnsNothing(st.Holds(), heap.Live());
  }

  /** The one exit: the dispositions are restored, and everything obtained is wiped and released. */
  method Finish(st: State, heap: Heap, process: Process, sodium: Sodium, manageSignals: bool,
                ghost base: set<array<byte>>)
    requires st.Sound(heap, base)
    modifies st, st.parsedKeyB64, st.parsedKeyId, st.error, heap.Live() - base, sodium`locks, heap`released, process
    ensures heap.Live() == base
    ensures process.Now() == (if manageSignals then Restored(old(process.Now())) else old(process.Now()))
    ensures process.noticed == old(process.noticed) && old(process.now) <= process.now <= old(process.now) + 2
    ensures process.epoch == old(process.epoch)
    ensures old(st.fixedBuffersLocked) ==>
              AllZero(st.parsedKeyB64[..]) && AllZero(st.parsedKeyId[..]) && AllZero(st.error[..])
  {
    hide Holdings.Sound, AllZero, Restored;
    if manageSignals {
      process.RestoreSignalHandlers();
    }
    OwnsTheRest(st.Holds(), heap.Live(), base);
    Cleanup(st, sodium, heap, base);
  }

  /**
    * A run with proper arguments and streams: the records begin, the work is done, and the one exit cleans up.
    * `from` is when the interrupt flag was reset, `checkedAt` when it was looked at after sealing (or when the run gave
    * up); only writing the output and restoring the two dispositions come later.
    */
  method Perform(opts: seq<Opt>, positionals: seq<CString>, src: Source, out: Sink, err: Sink,
                 texts: Texts, heap: Heap, process: Process, sodium: Sodium, manageSignals: bool)
    returns (rc: Status, ghost from: nat, ghost checkedAt: nat)
    requires process.Now().Idle()
    requires texts.Valid() && sodium.Valid() && sodium.machine.sealBytes <= SALT_MAX_MESSAGE_LEN && out != err
    modifies src, out, err, heap, process, sodium
    ensures heap.Live() == old(heap.Live())
    ensures var w, v := old(SetupOf(process, manageSignals)), Judge(opts, positionals);
            var pieces := OutputPieces(opts, positionals, texts, old(src.pending), sodium.box);
            var f := Faults(process.noticed, heap.denied, sodium.fault, src.faulted, old(out.failed),
                            !out.Delivers(old(out.ops), pieces), err.faults != old(err.faults),
                            v.Refuse? && err.Loses(old(err.ops), texts.wording(v.reason)));
            && process.Now() == AfterRun(old(process.Now()), w)
            && Outcome(rc, w, v, WantsInformation(opts), texts,
                       IdealOutput(opts, positionals, texts, old(src.pending), sodium.box),
                       Streams(old(out.data), out.data, old(err.data), err.data), f,
                       SomeArrival(process, from, checkedAt),
                       SomeArrival(process, from, RunNoticesBy(v, old(src.pending), f, from, checkedAt)))
            && ((manageSignals && !InstallSucceeds(w)) || process.epoch == from)
            && (!(manageSignals && !InstallSucceeds(w)) ==> SeesErrors(v, old(src.pending), f, src.failed))
    ensures old(process.now) <= from <= checkedAt <= process.now <= checkedAt + 3
    ensures !SomeArrival(process, from, process.now) ==> !process.noticed
  {
    hide Outcome, Judge, IdealOutput, WantsInformation, Holdings.Sound, ApplyOptions, AllZero, Texts.Valid,
         Sodium.Valid, Installed, Restored, SettingsOf, State.Blank, State.Sound, Sink.Loses,
         OutputPieces, SeesErrors, RunNoticesBy, Sink.Delivers;
    BeginRecords(src, heap, process, sodium);
    ghost var base := heap.Live();
    var st := NewState(heap);
    rc, from, checkedAt := Work(st, opts, positionals, src, out, err, texts, heap, process, sodium, manageSignals,
                                base);
    Finish(st, heap, process, sodium, manageSignals, base);
  }

  /**
    * One run. Whatever happens in it: every buffer it obtains it also releases, wiped; the signal dispositions are
    * afterwards as they were before; standard output is all or nothing by return code; and the code says what went
    * wrong.
    *
    * `from` and `checkedAt` are as in `Perform`. A request that succeeds had no signal between the reset of the flag
    * and the check after sealing; and what arrived before the run, whatever flag it left, is not noticed in it.
    */
  method Run(argv: seq<Option<CString>>, opts: seq<Opt>, positionals: seq<CString>, src: Source?, out: Sink?,
             err: Sink?, texts: Texts, heap: Heap, process: Process, sodium: Sodium, manageSignals: bool)
    returns (rc: Status, ghost from: nat, ghost checkedAt: nat)
    requires process.Now().Idle()
    requires texts.Valid() && sodium.Valid() && sodium.machine.sealBytes <= SALT_MAX_MESSAGE_LEN
    requires out == null || out != err
    modifies src, out, err, heap, process, sodium
    ensures heap.Live() == old(heap.Live())
    ensures process.Now().Idle()
    ensures !ValidShape(argv) || src == null || out == null || err == null ==>
              && rc == SALT_ERR_INPUT && process.Now() == old(process.Now())
              && (out != null ==> out.data == old(out.data)) && (err != null ==> err.data == old(err.data))
    ensures ValidShape(argv) && src != null && out != null && err != null ==>
              var w, v := old(SetupOf(process, manageSignals)), Judge(opts, positionals);
              var pieces := OutputPieces(opts, positionals, texts, old(src.pending), sodium.box);
              var f := Faults(process.noticed, heap.denied, sodium.fault, src.faulted, old(out.failed),
                              !out.Delivers(old(out.ops), pieces), err.faults != old(err.faults),
                              v.Refuse? && err.Loses(old(err.ops), texts.wording(v.reason)));
              && process.Now() == AfterRun(old(process.Now()), w)
              && Outcome(rc, w, v, WantsInformation(opts), texts,
                         IdealOutput(opts, positionals, texts, old(src.pending), sodium.box),
                         Streams(old(out.data), out.data, old(err.data), err.data), f,
                         SomeArrival(process, from, checkedAt),
                         SomeArrival(process, from, RunNoticesBy(v, old(src.pending), f, from, checkedAt)))
              && ((manageSignals && !InstallSucceeds(w)) || process.epoch == from)
              && (!(manageSignals && !InstallSucceeds(w)) ==> SeesErrors(v, old(src.pending), f, src.failed))
              && old(process.now) <= from <= checkedAt <= process.now <= checkedAt + 3
              && (rc == SALT_OK && manageSignals && v.Proceed? ==> !SomeArrival(process, process.epoch, checkedAt))
              && (!SomeArrival(process, old(process.now), process.now) ==> !process.noticed)
              && (rc == SALT_ERR_SIGNAL ==> SomeArrival(process, from, process.now))
  {
    hide Judge, IdealOutput, WantsInformation, Texts.Valid, Sodium.Valid, AllOrNothing, RunCode, RefusalOutput, Told,
         Sink.Loses;
    rc, from, checkedAt := SALT_ERR_INPUT, process.now, process.now;
    var shape := HasValidArgvShape(argv);
    if !shape || src == null || out == null || err == null {
      return;
    }
    rc, from, checkedAt := Perform(opts, positionals, src, out, err, texts, heap, process, sodium, manageSignals);
    forall v, wants, f: Faults, documented | RunCode(v, wants, f, documented) == SALT_ERR_SIGNAL
      ensures f.noticed
    {
      OnlySignalsInterrupt(v, wants, f, documented);
    }
  }
}

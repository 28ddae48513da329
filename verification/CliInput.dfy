/** Reading the key and the plaintext, from the arguments or from standard input. */
module CliInput {
  import opened Bytes
  import opened Heaps
  import opened Sinks
  import opened Sources
  import opened Signals
  import opened SealSize
  import opened Seal
  import opened JsonGrammar
  import opened KeyParser
  import opened CliState
  import opened CliStream

  /** The return code a stage would have before its diagnostic is written. */
  function StageCode(noticed: bool, denied: bool, readFault: bool, refused: bool): Status
  {
    if noticed then SALT_ERR_SIGNAL
    else if denied then SALT_ERR_INTERNAL
    else if readFault then SALT_ERR_IO
    else if refused then SALT_ERR_INPUT
    else SALT_OK
  }

  /** When the limit has been reached, the input must end there. The byte looked at is put back. */
  method ProbeEnd(src: Source) returns (rc: Status)
    requires !src.failed && !src.faulted
    modifies src
    ensures rc == if src.faulted then SALT_ERR_IO else if old(src.pending) != [] then SALT_ERR_INPUT else SALT_OK
    ensures !src.faulted ==> src.pending == old(src.pending) && !src.failed
  {
    var next := src.Fgetc();
    if next == None {
      var failed := src.Ferror();
      return if failed then SALT_ERR_IO else SALT_OK;
    }
    var ok := src.Ungetc(next.value);
    return if ok then SALT_ERR_INPUT else SALT_ERR_IO;
  }

  /**
    * Reading a stream from moment `start` on looks at the interrupt flag before it does anything, and once more when
    * the read has returned: what has been caught by then is noticed.
    */
  ghost predicate LooksTwice(process: Process, start: nat, denied: bool)
    reads process
  {
    && (process.CaughtBefore(start + 1) ==> process.noticed)
    && (!denied && process.CaughtBefore(start + 4) ==> process.noticed)
  }

  /** It looks for an error of the stream, too, if it gets that far. */
  ghost predicate LooksForErrors(src: Source, noticed: bool, denied: bool)
    reads src
  {
    !noticed && !denied && src.failed ==> src.faulted
  }

  /** Fills the buffer and looks for the end of the input. */
  method FillBuffer(src: Source, b: array<byte>, maxLen: nat, process: Process) returns (rc: Status, len: nat)
    requires process.Tracked() && !process.noticed && !src.faulted && b.Length == maxLen + 1
    modifies src, b, process`now, process`interrupted, process`noticed
    ensures process.Tracked() && process.now >= old(process.now) + 2
    ensures process.CaughtBefore(old(process.now) + 2) ==> process.noticed
    ensures !process.noticed && src.failed ==> src.faulted
    ensures rc == StageCode(process.noticed, false, src.faulted, |old(src.pending)| > maxLen)
    ensures rc == SALT_OK ==> && len == |old(src.pending)| && b[..len] == old(src.pending) && b[len] == 0
                              && src.pending == []
  {
    hide Process.CaughtBefore, Process.Tracked;
    ghost var input := src.pending;
    process.Deliver();
    len := src.Fread(b, maxLen);
    process.Deliver();
    rc := process.CheckInterrupted();
    if rc != SALT_OK {
      return;
    }
    var failed := src.Ferror();
    if failed {
      return SALT_ERR_IO, len;
    }
    if len == maxLen {
      process.Deliver();
      rc := ProbeEnd(src);
      if rc != SALT_OK {
        return;
      }
    }
    assert len == |input| && input[..len] == input;
    b[len] := 0;
  }

  /**
    * Reads a whole stream of at most `maxLen` bytes into a new buffer, with a NUL after it.
    * The buffer is wiped and released again on every failure.
    */
  method ReadStreamLimited(src: Source, maxLen: nat, heap: Heap, process: Process, sodium: Sodium)
    returns (rc: Status, buffer: array?<byte>, len: nat)
    requires process.Tracked() && !process.noticed && !heap.denied && !src.faulted
    modifies src, heap, process`now, process`interrupted, process`noticed, sodium`locks
    ensures process.Tracked() && (rc == SALT_OK ==> process.now >= old(process.now) + 4)
    ensures LooksTwice(process, old(process.now), heap.denied) && LooksForErrors(src, process.noticed, heap.denied)
    ensures rc == StageCode(process.noticed, heap.denied, src.faulted, |old(src.pending)| > maxLen)
    ensures rc == SALT_OK ==>
              && buffer != null && fresh(buffer) && buffer.Length == maxLen + 1
                    && heap.Live() == old(heap.Live()) + {buffer}
              && len == |old(src.pending)| && buffer[..len] == old(src.pending) && buffer[len] == 0 && src.pending == []
    ensures rc != SALT_OK ==> buffer == null && heap.Live() == old(heap.Live())
    ensures process.now >= old(process.now)
  {
    hide Process.Tracked, AllZero;
    buffer, len := null, 0;
    process.Deliver();
    rc := process.CheckInterrupted();
    if rc != SALT_OK {
      return;
    }
    process.Deliver();
    var b := heap.Alloc(maxLen + 1);
    if b == null {
      return SALT_ERR_INTERNAL, null, 0;
    }
    var locked := sodium.MLock(b);
    rc, len := FillBuffer(src, b, maxLen, process);
    if rc != SALT_OK {
      SecureFreeRegion(sodium, heap, b, maxLen + 1);
      return rc, null, 0;
    }
    buffer := b;
  }

  // ----- The key

  /** The code a stage returns: a diagnostic that does not get out turns any failure into an I/O error. */
  function Reported(code: Status, lost: bool): Status
  {
    if code != SALT_OK && lost then SALT_ERR_IO else code
  }

  /** The key text: the argument, or what standard input holds before the first NUL, trimmed. */
  function KeyTextOf(fromStdin: bool, argument: seq<byte>, input: seq<byte>): Option<seq<byte>>
  {
    if !fromStdin then Some(argument)
    else if |input| > SALT_MAX_KEY_INPUT_LEN || Trim(CStr(input)) == [] then None
    else Some(Trim(CStr(input)))
  }

  /** The key that is loaded when nothing fails. */
  function IdealKey(fromStdin: bool, argument: seq<byte>, input: seq<byte>, format: KeyFormat): Option<ParsedKey>
  {
    match KeyTextOf(fromStdin, argument, input)
    case None => None
    case Some(text) =>
      if |text| > SALT_MAX_KEY_INPUT_LEN then None
      else ParseKeyInput(Trim(text), format, KEY_BUFFER, KEY_ID_BUFFER)
  }

  /** Standard error tells of every failure, and of nothing else. */
  ghost predicate ToldIff(failure: bool, before: seq<byte>, after: seq<byte>, delivered: bool)
  {
    if failure then Told(before, after, delivered) else before == after && delivered
  }

  /** Looks at the interrupt flag, and reports an interrupt. */
  method CheckAndReport(err: Sink, texts: Texts, process: Process) returns (rc: Status)
    requires texts.Valid() && process.Tracked() && !process.noticed
    modifies err, process`now, process`interrupted, process`noticed
    ensures process.Tracked() && process.noticed == process.interrupted && process.now == old(process.now) + 1
    ensures rc == Reported(if process.noticed then SALT_ERR_SIGNAL else SALT_OK, err.faults != old(err.faults))
    ensures ToldIff(rc != SALT_OK, old(err.data), err.data, err.faults == old(err.faults))
    ensures err.faults >= old(err.faults)
  {
    hide Process.CaughtBefore, Process.Tracked;
    process.Deliver();
    rc := process.CheckInterrupted();
    if rc != SALT_OK {
      rc := Report(err, texts, Interrupted, rc);
    }
  }

  /** Gets the key text into place when it comes from standard input. */
  method ReadKey(st: State, src: Source, err: Sink, texts: Texts, heap: Heap, process: Process, sodium: Sodium,
                 ghost base: set<array<byte>>) returns (rc: Status)
    requires st.Sound(heap, base) && st.keyOption.Argument? && st.stdinKey == null && texts.Valid()
    requires process.Tracked() && !process.noticed && !heap.denied && !src.faulted
    modifies st`stdinKey, st`keyOption, src, err, heap, sodium`locks
    modifies process`now, process`interrupted, process`noticed
    ensures st.Sound(heap, base) && process.Tracked()
    ensures fresh(heap.Live() - old(heap.Live()))
    ensures var text := KeyTextOf(st.keyFromStdin, old(st.keyOption.text), old(src.pending));
            && rc == Reported(StageCode(process.noticed, heap.denied, src.faulted, text == None),
                              err.faults != old(err.faults))
            && (rc == SALT_OK ==> st.keyOption.Read() == text)
    ensures st.keyFromStdin ==>
              LooksTwice(process, old(process.now), heap.denied) && LooksForErrors(src, process.noticed, heap.denied)
    ensures st.keyFromStdin && rc == SALT_OK ==> process.now >= old(process.now) + 4
    ensures !st.keyFromStdin ==> unchanged(src) && process.now == old(process.now)
    ensures rc == SALT_OK ==> src.pending == (if st.keyFromStdin then [] else old(src.pending))
    ensures ToldIff(rc != SALT_OK, old(err.data), err.data, err.faults == old(err.faults))
    ensures err.faults >= old(err.faults)
  {
    hide Process.CaughtBefore, Process.Tracked, CStr, Trim, AllZero, Holdings.Sound;
    if !st.keyFromStdin {
      return SALT_OK;
    }
    var buffer, keyLen;
    rc, buffer, keyLen := ReadStreamLimited(src, SALT_MAX_KEY_INPUT_LEN, heap, process, sodium);
    if rc != SALT_OK {
      rc := Report(err, texts, KeyReadFailed(rc), rc);
      return;
    }
    assert heap.Live() - {buffer} == old(heap.Live());
    AdoptStdinKey(st, heap, base, buffer);
    TrimInput(buffer, keyLen);
    if buffer[0] == 0 {
      rc := Report(err, texts, KeyInputEmpty, SALT_ERR_INPUT);
      return;
    }
    UseStdinKey(st, heap, base);
  }

  /** The state takes over the buffer that holds the key from standard input. */
  method AdoptStdinKey(st: State, heap: Heap, ghost base: set<array<byte>>, buffer: array<byte>)
    requires st.Holds().Sound(heap.Live() - {buffer}, base) && buffer in heap.Live() && st.stdinKey == null
    requires buffer.Length == KEY_BUFFER && st.IsOutside(buffer)
    modifies st`stdinKey
    ensures st.Sound(heap, base) && st.stdinKey == buffer
  {
    hide Holdings.Sound;
    GainStdinKey(st.Holds(), heap.Live() - {buffer}, base, buffer);
    assert heap.Live() - {buffer} + {buffer} == heap.Live();
    st.stdinKey := buffer;
  }

  method UseStdinKey(st: State, heap: Heap, ghost base: set<array<byte>>)
    requires st.Sound(heap, base) && st.stdinKey != null
    modifies st`keyOption
    ensures st.Sound(heap, base) && st.keyOption == Buffer(st.stdinKey)
  {
    hide Holdings.Sound;
    PointAtStdinKey(st.Holds(), heap.Live(), base);
    st.keyOption := Buffer(st.stdinKey);
  }

  /** Trims the input just read, which ends at the NUL after it. */
  method TrimInput(buffer: array<byte>, len: nat)
    requires len < buffer.Length && buffer[len] == 0
    modifies buffer
    ensures CStr(buffer[..]) == Trim(CStr(old(buffer[..len]))) && 0 in buffer[..]
    ensures buffer[0] == 0 <==> CStr(buffer[..]) == []
  {
    ghost var input := buffer[..len];
    assert buffer[..len + 1] == input + [0];
    CStrWithNul(input);
    TrimWhitespaceInPlace(buffer, len + 1);
    CStrPrefix(buffer[..], len + 1);
    assert buffer[..][..len + 1] == buffer[..len + 1];
  }

  /** Copies a text and its NUL into a buffer made for it. */
  method CopyText(buffer: array<byte>, text: CString)
    requires buffer.Length == |text| + 1
    modifies buffer
    ensures buffer[..] == text + [0] && CStr(buffer[..]) == text
  {
    var i := 0;
    while i < |text|
      invariant i <= |text| && forall k | 0 <= k < i :: buffer[k] == text[k]
    {
      buffer[i] := text[i];
      i := i + 1;
    }
    buffer[|text|] := 0;
    assert buffer[..][..|text|] == text;
    CStrIs(buffer[..], |text|);
  }

  /** Obtains a buffer for a text and its NUL, locks it, and copies the text there. */
  method CopyToNewBuffer(text: CString, heap: Heap, process: Process, sodium: Sodium) returns (buffer: array?<byte>)
    modifies heap, sodium`locks, process`now, process`interrupted
    ensures heap.denied == (old(heap.denied) || buffer == null)
    ensures buffer == null ==> heap.Live() == old(heap.Live())
    ensures buffer != null ==> fresh(buffer) && heap.Live() == old(heap.Live()) + {buffer}
    ensures buffer != null ==> buffer.Length == |text| + 1 && buffer[..] == text + [0] && CStr(buffer[..]) == text
    ensures old(process.Tracked()) ==> process.Tracked()
    ensures process.now == old(process.now) + 1
  {
    hide Process.CaughtBefore, Process.Tracked, CStr;
    process.Deliver();
    buffer := heap.Alloc(|text| + 1);
    if buffer != null {
      var locked := sodium.MLock(buffer);
      CopyText(buffer, text);
    }
  }

  /** Copies the key text into a buffer of its own and trims it there. */
  method CopyKey(st: State, err: Sink, texts: Texts, heap: Heap, process: Process, sodium: Sodium,
                 ghost base: set<array<byte>>) returns (rc: Status)
    requires st.Sound(heap, base) && st.keyOption.Read().Some? && st.trimmedKeyInput == null && texts.Valid()
    requires process.Tracked() && !process.noticed && !heap.denied
    modifies st`trimmedKeyInput, st`trimmedKeyInputCap, err, heap, sodium`locks, process`now, process`interrupted
    ensures st.Sound(heap, base) && process.Tracked()
    ensures fresh(heap.Live() - old(heap.Live()))
    ensures var text := old(st.keyOption.Read()).value;
            && rc == Reported(StageCode(false, heap.denied, false, |text| > SALT_MAX_KEY_INPUT_LEN),
                              err.faults != old(err.faults))
            && (rc == SALT_OK ==> st.trimmedKeyInput != null && 0 in st.trimmedKeyInput[..]
                                  && CStr(st.trimmedKeyInput[..]) == Trim(text))
    ensures ToldIff(rc != SALT_OK, old(err.data), err.data, err.faults == old(err.faults))
    ensures err.faults >= old(err.faults)
    ensures rc == SALT_OK ==> process.now == old(process.now) + 1
  {
    hide Process.CaughtBefore, Process.Tracked, CStr, Trim, AllZero, Holdings.Sound;
    var text := st.keyOption.Read().value;
    var keyCopyLen := if |text| < SALT_MAX_KEY_INPUT_LEN + 1 then |text| else SALT_MAX_KEY_INPUT_LEN + 1;
    if keyCopyLen > SALT_MAX_KEY_INPUT_LEN {
      rc := Report(err, texts, KeyInputTooLong, SALT_ERR_INPUT);
      return;
    }
    var buffer := CopyToNewBuffer(text, heap, process, sodium);
    if buffer == null {
      rc := Report(err, texts, OutOfMemory, SALT_ERR_INTERNAL);
      return;
    }
    assert heap.Live() - {buffer} == old(heap.Live());
    AdoptTrimmedKey(st, heap, base, buffer);
    assert buffer[..] == buffer[..buffer.Length] && buffer[..][|text|] == 0;
    TrimBuffer(buffer);
    return SALT_OK;
  }

  /** The state takes over the buffer for the trimmed key. */
  method AdoptTrimmedKey(st: State, heap: Heap, ghost base: set<array<byte>>, buffer: array<byte>)
    requires st.Holds().Sound(heap.Live() - {buffer}, base) && buffer in heap.Live() && st.trimmedKeyInput == null
    requires st.IsOutside(buffer)
    modifies st`trimmedKeyInput, st`trimmedKeyInputCap
    ensures st.Sound(heap, base) && st.trimmedKeyInput == buffer
  {
    hide Holdings.Sound;
    GainTrimmedKey(st.Holds(), heap.Live() - {buffer}, base, buffer);
    assert heap.Live() - {buffer} + {buffer} == heap.Live();
    st.trimmedKeyInput, st.trimmedKeyInputCap := buffer, buffer.Length;
  }

  /** Parses the trimmed key, then looks at the interrupt flag. */
  method ParseLoadedKey(st: State, err: Sink, texts: Texts, heap: Heap, process: Process, ghost base: set<array<byte>>)
    returns (rc: Status)
    requires st.Sound(heap, base) && st.trimmedKeyInput != null && texts.Valid()
    requires process.Tracked() && !process.noticed
    modifies st`parsedHasKeyId, st.parsedKeyB64, st.parsedKeyId, err
    modifies process`now, process`interrupted, process`noticed
    ensures st.Sound(heap, base) && process.Tracked()
    ensures fresh(heap.Live() - old(heap.Live()))
    ensures var key := ParseKeyInput(old(CStr(st.trimmedKeyInput[..])), st.keyFormat, KEY_BUFFER, KEY_ID_BUFFER);
            && rc == Reported(StageCode(process.noticed, false, false, key == None), err.faults != old(err.faults))
            && (rc == SALT_OK ==> HoldsKey(st, key.value))
    ensures rc == SALT_OK ==> !process.interrupted
    ensures ToldIff(rc != SALT_OK, old(err.data), err.data, err.faults == old(err.faults))
    ensures err.faults >= old(err.faults)
    ensures rc == SALT_OK ==> process.now == old(process.now) + 1
  {
    hide Process.CaughtBefore, Process.Tracked, CStr, Trim, AllZero, ParseKeyInput;
    rc, st.parsedHasKeyId := ParseKey(CStr(st.trimmedKeyInput[..]), st.keyFormat, st.parsedKeyB64, st.parsedKeyId);
    if rc != SALT_OK {
      rc := Report(err, texts, KeyInvalid, rc);
      return;
    }
    rc := CheckAndReport(err, texts, process);
  }

  /** The fixed buffers hold a parsed key. */
  ghost predicate HoldsKey(st: State, key: ParsedKey)
    reads st`parsedHasKeyId, st.parsedKeyB64, st.parsedKeyId
  {
    && 0 in st.parsedKeyB64[..] && CStr(st.parsedKeyB64[..]) == key.key && CStr(st.parsedKeyId[..]) == key.keyId
    && st.parsedHasKeyId == (key.keyId != [])
  }

  /** Loads, copies, trims and parses the key. */
  method LoadKeyInput(st: State, src: Source, err: Sink, texts: Texts, heap: Heap, process: Process, sodium: Sodium,
                      ghost base: set<array<byte>>) returns (rc: Status)
    requires st.Sound(heap, base) && st.keyOption.Argument? && st.stdinKey == null && st.trimmedKeyInput == null
    requires texts.Valid() && process.Tracked() && !process.noticed && !heap.denied && !src.faulted
    modifies st`stdinKey, st`keyOption, st`trimmedKeyInput, st`trimmedKeyInputCap, st`parsedHasKeyId
    modifies st.parsedKeyB64, st.parsedKeyId, src, err, heap, sodium`locks
    modifies process`now, process`interrupted, process`noticed
    ensures st.Sound(heap, base) && process.Tracked()
    ensures fresh(heap.Live() - old(heap.Live()))
    ensures var key := IdealKey(st.keyFromStdin, old(st.keyOption.text), old(src.pending), st.keyFormat);
            && rc == Reported(StageCode(process.noticed, heap.denied, src.faulted, key == None),
                              err.faults != old(err.faults))
            && (rc == SALT_OK ==> HoldsKey(st, key.value))
    ensures st.keyFromStdin ==>
              LooksTwice(process, old(process.now), heap.denied) && LooksForErrors(src, process.noticed, heap.denied)
    ensures st.keyFromStdin && rc == SALT_OK ==> process.now >= old(process.now) + 4
    ensures !st.keyFromStdin ==> unchanged(src) && (rc == SALT_OK ==> process.now == old(process.now) + 2)
    ensures rc == SALT_OK ==> src.pending == (if st.keyFromStdin then [] else old(src.pending))
    ensures rc == SALT_OK ==> !process.interrupted
    ensures ToldIff(rc != SALT_OK, old(err.data), err.data, err.faults == old(err.faults))
    ensures err.faults >= old(err.faults)
  {
    hide State.Sound, Process.CaughtBefore, Process.Tracked, CStr, Trim, AllZero, Holdings.Sound, ParseKeyInput,
         HoldsKey;
    rc := ReadKey(st, src, err, texts, heap, process, sodium, base);
    if rc != SALT_OK {
      return;
    }
    rc := CopyKey(st, err, texts, heap, process, sodium, base);
    if rc != SALT_OK {
      return;
    }
    rc := ParseLoadedKey(st, err, texts, heap, process, base);
  }

  // ----- The plaintext

  /** The message that is loaded when nothing fails: all of standard input, or the argument; it must not be empty. */
  function IdealMessage(fromStdin: bool, argument: seq<byte>, input: seq<byte>): Option<seq<byte>>
  {
    var text := if fromStdin then input else argument;
    if text == [] || |text| > SALT_GITHUB_SECRET_MAX_VALUE_LEN then None else Some(text)
  }

  /** The message the state points at. */
  ghost predicate HoldsMessage(st: State, text: seq<byte>)
    reads st`message, st`messageLen, st.message
  {
    st.message != null && st.messageLen == |text| <= st.message.Length && st.message[..st.messageLen] == text
  }

  method LoadPlaintextFromArgv(st: State, err: Sink, texts: Texts, heap: Heap, process: Process, sodium: Sodium,
                               ghost base: set<array<byte>>) returns (rc: Status)
    requires st.Sound(heap, base) && st.plaintextArg.Argument? && st.argvPlaintextCopy == null && st.message == null
    requires texts.Valid() && process.Tracked() && !process.noticed && !heap.denied
    modifies st`argvPlaintextCopy, st`argvPlaintextCap, st`message, st`messageLen, err, heap, sodium`locks
    modifies process`now, process`interrupted
    ensures st.Sound(heap, base) && process.Tracked()
    ensures fresh(heap.Live() - old(heap.Live()))
    ensures var text := st.plaintextArg.text;
            && rc == Reported(StageCode(false, heap.denied, false, |text| > SALT_GITHUB_SECRET_MAX_VALUE_LEN),
                              err.faults != old(err.faults))
            && (rc == SALT_OK ==> HoldsMessage(st, text) && fresh(st.message))
    ensures ToldIff(rc != SALT_OK, old(err.data), err.data, err.faults == old(err.faults))
    ensures err.faults >= old(err.faults)
    ensures process.now >= old(process.now)
  {
    hide Process.CaughtBefore, Process.Tracked, AllZero, Holdings.Sound, CStr;
    var text := st.plaintextArg.text;
    var argLen := if |text| < SALT_GITHUB_SECRET_MAX_VALUE_LEN + 1 then |text|
        else SALT_GITHUB_SECRET_MAX_VALUE_LEN + 1;
    if argLen > SALT_GITHUB_SECRET_MAX_VALUE_LEN {
      rc := Report(err, texts, PlaintextTooLong, SALT_ERR_INPUT);
      return;
    }
    CapOfNothing(st.Holds(), heap.Live(), base, argLen + 1);
    st.argvPlaintextCap := argLen + 1;
    var buffer := CopyToNewBuffer(text, heap, process, sodium);
    if buffer == null {
      rc := Report(err, texts, OutOfMemory, SALT_ERR_INTERNAL);
      return;
    }
    assert heap.Live() - {buffer} == old(heap.Live());
    AdoptArgvCopy(st, heap, base, buffer, argLen);
    assert buffer[..argLen] == buffer[..][..argLen];
    return SALT_OK;
  }

  /** The state takes over the buffer that holds the argument. */
  method AdoptArgvCopy(st: State, heap: Heap, ghost base: set<array<byte>>, buffer: array<byte>, len: nat)
    requires st.Holds().Sound(heap.Live() - {buffer}, base) && buffer in heap.Live() && st.argvPlaintextCopy == null
    requires len < buffer.Length == st.argvPlaintextCap && st.IsOutside(buffer)
    modifies st`argvPlaintextCopy, st`message, st`messageLen
    ensures st.Sound(heap, base) && st.message == st.argvPlaintextCopy == buffer && st.messageLen == len
  {
    hide Holdings.Sound;
    GainArgvCopy(st.Holds(), heap.Live() - {buffer}, base, buffer, len);
    assert heap.Live() - {buffer} + {buffer} == heap.Live();
    st.argvPlaintextCopy := buffer;
    st.message, st.messageLen := buffer, len;
  }

  lemma CapOfNothing(h: Holdings, live: set<array<byte>>, base: set<array<byte>>, cap: nat)
    requires h.Sound(live, base) && h.argvPlaintextCopy == null
    ensures h.(argvPlaintextCap := cap).Sound(live, base)
  {
  }

  /** All of standard input becomes the message, NUL bytes included. */
  method LoadPlaintextFromStdin(st: State, src: Source, err: Sink, texts: Texts, heap: Heap, process: Process,
                                sodium: Sodium, ghost base: set<array<byte>>) returns (rc: Status)
    requires st.Sound(heap, base) && st.stdinPlaintext == null && st.message == null
    requires texts.Valid() && process.Tracked() && !process.noticed && !heap.denied && !src.faulted
    modifies st`stdinPlaintext, st`message, st`messageLen, src, err, heap, sodium`locks
    modifies process`now, process`interrupted, process`noticed
    ensures st.Sound(heap, base) && process.Tracked()
    ensures fresh(heap.Live() - old(heap.Live()))
    ensures var text := old(src.pending);
            && rc == Reported(StageCode(process.noticed, heap.denied, src.faulted,
                                        |text| > SALT_GITHUB_SECRET_MAX_VALUE_LEN),
                              err.faults != old(err.faults))
            && (rc == SALT_OK ==> HoldsMessage(st, text) && fresh(st.message))
    ensures ToldIff(rc != SALT_OK, old(err.data), err.data, err.faults == old(err.faults))
    ensures err.faults >= old(err.faults)
    ensures LooksTwice(process, old(process.now), heap.denied) && LooksForErrors(src, process.noticed, heap.denied)
    ensures rc == SALT_OK ==> process.now >= old(process.now) + 4
    ensures process.now >= old(process.now)
  {
    hide Process.CaughtBefore, Process.Tracked, AllZero, Holdings.Sound, CStr;
    var buffer, len;
    rc, buffer, len := ReadStreamLimited(src, SALT_GITHUB_SECRET_MAX_VALUE_LEN, heap, process, sodium);
    if rc != SALT_OK {
      rc := Report(err, texts, PlaintextReadFailed(rc), rc);
      return;
    }
    assert heap.Live() - {buffer} == old(heap.Live());
    AdoptStdinPlaintext(st, heap, base, buffer, len);
  }

  /** The state takes over the buffer that holds all of standard input. */
  method AdoptStdinPlaintext(st: State, heap: Heap, ghost base: set<array<byte>>, buffer: array<byte>, len: nat)
    requires st.Holds().Sound(heap.Live() - {buffer}, base) && buffer in heap.Live() && st.stdinPlaintext == null
    requires buffer.Length == PLAINTEXT_BUFFER && len < buffer.Length
    requires st.IsOutside(buffer)
    modifies st`stdinPlaintext, st`message, st`messageLen
    ensures st.Sound(heap, base) && st.message == st.stdinPlaintext == buffer && st.messageLen == len
  {
    hide Holdings.Sound;
    GainStdinPlaintext(st.Holds(), heap.Live() - {buffer}, base, buffer, len);
    assert heap.Live() - {buffer} + {buffer} == heap.Live();
    st.stdinPlaintext, st.messageLen := buffer, len;
    st.message := st.stdinPlaintext;
  }

  method LoadPlaintext(st: State, src: Source, err: Sink, texts: Texts, heap: Heap, process: Process, sodium: Sodium,
                       ghost base: set<array<byte>>) returns (rc: Status)
    requires st.Sound(heap, base) && st.stdinPlaintext == null && st.argvPlaintextCopy == null && st.message == null
    requires !st.plaintextFromStdin ==> st.plaintextArg.Argument?
    requires texts.Valid() && process.Tracked() && !process.noticed && !heap.denied && !src.faulted
    modifies st`stdinPlaintext, st`argvPlaintextCopy, st`argvPlaintextCap, st`message, st`messageLen
    modifies src, err, heap, sodium`locks, process`now, process`interrupted, process`noticed
    ensures st.Sound(heap, base) && process.Tracked()
    ensures fresh(heap.Live() - old(heap.Live()))
    ensures var text := IdealMessage(st.plaintextFromStdin, st.plaintextArg.Read().GetOr([]), old(src.pending));
            && rc == Reported(StageCode(process.noticed, heap.denied, src.faulted, text == None),
                              err.faults != old(err.faults))
            && (rc == SALT_OK ==> HoldsMessage(st, text.value) && fresh(st.message))
    ensures rc == SALT_OK ==> !process.interrupted
    ensures ToldIff(rc != SALT_OK, old(err.data), err.data, err.faults == old(err.faults))
    ensures err.faults >= old(err.faults)
    ensures st.plaintextFromStdin ==>
              LooksTwice(process, old(process.now), heap.denied) && LooksForErrors(src, process.noticed, heap.denied)
    ensures st.plaintextFromStdin && rc == SALT_OK ==> process.now >= old(process.now) + 4
    ensures !st.plaintextFromStdin ==> unchanged(src)
    // an interrupt comes before the complaint that the plaintext is empty
    ensures |if st.plaintextFromStdin then old(src.pending) else st.plaintextArg.Read().GetOr([])|
              <= SALT_GITHUB_SECRET_MAX_VALUE_LEN && !heap.denied && !src.faulted && process.interrupted ==>
              process.noticed
    ensures process.now >= old(process.now)
  {
    hide State.Sound, Process.CaughtBefore, Process.Tracked, AllZero, Holdings.Sound, CStr;
    if st.plaintextFromStdin {
      rc := LoadPlaintextFromStdin(st, src, err, texts, heap, process, sodium, base);
    } else {
      rc := LoadPlaintextFromArgv(st, err, texts, heap, process, sodium, base);
    }
    if rc != SALT_OK {
      return;
    }
    rc := CheckAndReport(err, texts, process);
    if rc != SALT_OK {
      return;
    }
    if st.messageLen == 0 {
      rc := Report(err, texts, PlaintextEmpty, SALT_ERR_INPUT);
    }
  }
}

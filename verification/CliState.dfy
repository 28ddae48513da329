/** The state of one CLI invocation: options, parsed key, owned buffers, and the pointers into them. */
module CliState {
  import opened Bytes
  import opened Heaps
  import opened SealSize
  import opened Seal
  import opened KeyParser
  import opened JsonOutput

  const KEY_BUFFER: nat := SALT_MAX_KEY_INPUT_LEN + 1
  const KEY_ID_BUFFER: nat := SALT_MAX_KEY_ID_LEN + 1
  const ERROR_BUFFER: nat := 256
  const PLAINTEXT_BUFFER: nat := SALT_GITHUB_SECRET_MAX_VALUE_LEN + 1

  lemma SizesAre()
    ensures SALT_MAX_KEY_INPUT_LEN == 16384 && SALT_GITHUB_SECRET_MAX_VALUE_LEN == 49152 && SALT_MAX_KEY_ID_LEN == 256
    ensures KEY_BUFFER == 16385 && PLAINTEXT_BUFFER == 49153 && KEY_ID_BUFFER == 257
    ensures SALT_MAX_MESSAGE_LEN == 1048576 && MAX_PUBLIC_KEY_B64_LEN == 44 && PUBLICKEYBYTES == 32
  {
  }

  /** A C string pointer: null, an argument of the program, or the front of a buffer. */
  datatype Pointer = Null | Argument(text: CString) | Buffer(mem: array<byte>)
  {
    function Read(): Option<CString>
      reads if Buffer? then {mem} else {}
    {
      match this
      case Null => None
      case Argument(text) => Some(text)
      case Buffer(mem) => Some(CStr(mem[..]))
    }
  }

  class State {
    const parsedKeyB64: array<byte>
    const parsedKeyId: array<byte>
    /** The scratch buffer for messages. */
    const error: array<byte>
    var fixedBuffersLocked: bool
    var keyOption: Pointer
    var keyIdOption: Pointer
    var outputMode: OutputMode
    var keyFormat: KeyFormat
    var showHelp: bool
    var showVersion: bool
    var plaintextArg: Pointer
    var plaintextFromStdin: bool
    var keyFromStdin: bool
    var stdinKey: array?<byte>
    var stdinPlaintext: array?<byte>
    var argvPlaintextCopy: array?<byte>
    var argvPlaintextCap: nat
    var trimmedKeyInput: array?<byte>
    var trimmedKeyInputCap: nat
    var parsedHasKeyId: bool
    var effectiveKeyId: Pointer
    var message: array?<byte>
    var messageLen: nat
    var output: array?<byte>
    var outputCap: nat
    var outputWritten: nat

    constructor ()
      ensures Blank() && fixedBuffersLocked && outputMode == TEXT && keyFormat == AUTO
      ensures fresh(parsedKeyB64) && fresh(parsedKeyId) && fresh(error)
      ensures parsedKeyB64 != parsedKeyId && error != parsedKeyB64 && error != parsedKeyId
      ensures parsedKeyB64.Length == KEY_BUFFER && parsedKeyId.Length == KEY_ID_BUFFER && error.Length == ERROR_BUFFER
      ensures AllZero(parsedKeyB64[..]) && AllZero(parsedKeyId[..]) && AllZero(error[..])
    {
      parsedKeyB64 := new byte[KEY_BUFFER](_ => 0);
      parsedKeyId := new byte[KEY_ID_BUFFER](_ => 0);
      error := new byte[ERROR_BUFFER](_ => 0);
      fixedBuffersLocked := true;
      keyOption, keyIdOption, plaintextArg, effectiveKeyId := Null, Null, Null, Null;
      outputMode, keyFormat := TEXT, AUTO;
      showHelp, showVersion, plaintextFromStdin, keyFromStdin, parsedHasKeyId := false, false, false, false, false;
      stdinKey, stdinPlaintext, argvPlaintextCopy := null, null, null;
      trimmedKeyInput, message, output := null, null, null;
      argvPlaintextCap, trimmedKeyInputCap, messageLen, outputCap, outputWritten := 0, 0, 0, 0, 0;
    }

    /** Every pointer is null and every flag and length zero, apart from the lock flag and the two modes. */
    predicate Blank()
      reads this
    {
      && keyOption == Null && keyIdOption == Null && plaintextArg == Null && effectiveKeyId == Null
      && !showHelp && !showVersion && !plaintextFromStdin && !keyFromStdin && !parsedHasKeyId
      && stdinKey == null && stdinPlaintext == null && argvPlaintextCopy == null && trimmedKeyInput == null
      && message == null && output == null
      && argvPlaintextCap == trimmedKeyInputCap == messageLen == outputCap == outputWritten == 0
    }

    /** What the state holds on to. */
    function Holds(): Holdings
      reads this
    {
      Holdings(parsedKeyB64, parsedKeyId, error, output, outputCap, stdinKey, stdinPlaintext, argvPlaintextCopy,
               argvPlaintextCap, trimmedKeyInput, trimmedKeyInputCap, keyOption, keyIdOption, plaintextArg,
               effectiveKeyId, message, messageLen)
    }

    /** The buffer is none of those inside the state. */
    ghost predicate IsOutside(buffer: array<byte>)
    {
      buffer != parsedKeyB64 && buffer != parsedKeyId && buffer != error
    }

    ghost predicate Sound(heap: Heap, base: set<array<byte>>)
      reads this, heap
    {
      Holds().Sound(heap.Live(), base)
    }

    /** The explicit key id wins if it is not empty; otherwise the one from the key object, if there is one. */
    function KeyIdChoice(): Pointer
      reads this
    {
      if keyIdOption.Argument? && keyIdOption.text != [] then keyIdOption
      else if parsedHasKeyId then Buffer(parsedKeyId)
      else effectiveKeyId
    }

    method ResolveEffectiveKeyId()
      modifies this`effectiveKeyId
      ensures effectiveKeyId == old(KeyIdChoice())
    {
      if keyIdOption.Argument? && keyIdOption.text != [] {
        effectiveKeyId := keyIdOption;
      } else if parsedHasKeyId {
        effectiveKeyId := Buffer(parsedKeyId);
      }
    }
  }

  /** The buffers and pointers of a state. */
  datatype Holdings = Holdings(
    parsedKeyB64: array<byte>, parsedKeyId: array<byte>, error: array<byte>,
    output: array?<byte>, outputCap: nat, stdinKey: array?<byte>, stdinPlaintext: array?<byte>,
    argvPlaintextCopy: array?<byte>, argvPlaintextCap: nat, trimmedKeyInput: array?<byte>, trimmedKeyInputCap: nat,
    keyOption: Pointer, keyIdOption: Pointer, plaintextArg: Pointer, effectiveKeyId: Pointer,
    message: array?<byte>, messageLen: nat)
  {
    /** The buffers the state owns. */
    function Owned(): set<array<byte>>
    {
      Single(output) + Inputs()
    }

    /** Those that hold the key or the plaintext. */
    function Inputs(): set<array<byte>>
    {
      Single(stdinKey) + Single(stdinPlaintext) + Single(argvPlaintextCopy) + Single(trimmedKeyInput)
    }

    /** No two of the owned buffers are the same, and none is one of the fixed buffers. */
    ghost predicate Separate()
    {
      && parsedKeyB64 != parsedKeyId && parsedKeyB64 !in Owned() && parsedKeyId !in Owned()
      && error != parsedKeyB64 && error != parsedKeyId && error !in Owned()
      && Distinct(output, stdinKey) && Distinct(output, stdinPlaintext) && Distinct(output, argvPlaintextCopy)
      && Distinct(output, trimmedKeyInput)
      && Distinct(stdinKey, stdinPlaintext) && Distinct(stdinKey, argvPlaintextCopy)
      && Distinct(stdinKey, trimmedKeyInput) && Distinct(stdinPlaintext, argvPlaintextCopy)
      && Distinct(stdinPlaintext, trimmedKeyInput) && Distinct(argvPlaintextCopy, trimmedKeyInput)
    }

    /** The recorded capacities are the true sizes. */
    ghost predicate Sized()
    {
      && parsedKeyB64.Length == KEY_BUFFER && parsedKeyId.Length == KEY_ID_BUFFER && error.Length == ERROR_BUFFER
      && (output != null ==> outputCap == output.Length)
      && (stdinKey != null ==> stdinKey.Length == KEY_BUFFER)
      && (stdinPlaintext != null ==> stdinPlaintext.Length == PLAINTEXT_BUFFER)
      && (argvPlaintextCopy != null ==> argvPlaintextCap == argvPlaintextCopy.Length)
      && (trimmedKeyInput != null ==> trimmedKeyInputCap == trimmedKeyInput.Length)
    }

    /** No pointer dangles: each leads to an argument, to a fixed buffer, or to a buffer still owned. */
    ghost predicate Anchored()
    {
      && (keyOption.Buffer? ==> keyOption.mem == stdinKey)
      && !keyIdOption.Buffer? && !plaintextArg.Buffer?
      && (effectiveKeyId.Buffer? ==> effectiveKeyId.mem == parsedKeyId)
      && (message != null ==>
            (message == argvPlaintextCopy || message == stdinPlaintext) && messageLen < message.Length)
    }

    /** The state owns exactly what the run has obtained beyond `base` and not yet released. */
    ghost predicate Sound(live: set<array<byte>>, base: set<array<byte>>)
    {
      live == base + Owned() && base !! Owned() && Separate() && Sized() && Anchored()
    }
  }

  lemma OwnsNothing(h: Holdings, base: set<array<byte>>)
    requires h.output == null && h.stdinKey == null && h.stdinPlaintext == null && h.argvPlaintextCopy == null
    requires h.trimmedKeyInput == null && h.message == null && h.keyOption == Null && h.effectiveKeyId == Null
    requires h.keyIdOption == Null && h.plaintextArg == Null
    requires h.parsedKeyB64 != h.parsedKeyId && h.error != h.parsedKeyB64 && h.error != h.parsedKeyId
    requires h.parsedKeyB64.Length == KEY_BUFFER && h.parsedKeyId.Length == KEY_ID_BUFFER
             && h.error.Length == ERROR_BUFFER
    ensures h.Sound(base, base)
  {
  }

  lemma OwnsTheRest(h: Holdings, live: set<array<byte>>, base: set<array<byte>>)
    requires h.Sound(live, base)
    ensures h.Owned() == live - base
  {
  }

  lemma SetArguments(h: Holdings, live: set<array<byte>>, base: set<array<byte>>, key: Pointer, keyId: Pointer,
                     text: Pointer)
    requires h.Sound(live, base) && !key.Buffer? && !keyId.Buffer? && !text.Buffer?
    ensures h.(keyOption := key, keyIdOption := keyId, plaintextArg := text).Sound(live, base)
  {
  }

  lemma GainStdinKey(h: Holdings, live: set<array<byte>>, base: set<array<byte>>, b: array<byte>)
    requires h.Sound(live, base) && h.stdinKey == null && b !in live && b.Length == KEY_BUFFER
    requires b != h.parsedKeyB64 && b != h.parsedKeyId && b != h.error
    ensures h.(stdinKey := b).Sound(live + {b}, base)
  {
  }

  lemma PointAtStdinKey(h: Holdings, live: set<array<byte>>, base: set<array<byte>>)
    requires h.Sound(live, base) && h.stdinKey != null
    ensures h.(keyOption := Buffer(h.stdinKey)).Sound(live, base)
  {
  }

  lemma GainTrimmedKey(h: Holdings, live: set<array<byte>>, base: set<array<byte>>, b: array<byte>)
    requires h.Sound(live, base) && h.trimmedKeyInput == null && b !in live
    requires b != h.parsedKeyB64 && b != h.parsedKeyId && b != h.error
    ensures h.(trimmedKeyInput := b, trimmedKeyInputCap := b.Length).Sound(live + {b}, base)
  {
  }

  lemma GainStdinPlaintext(h: Holdings, live: set<array<byte>>, base: set<array<byte>>, b: array<byte>, len: nat)
    requires h.Sound(live, base) && h.stdinPlaintext == null && b !in live && b.Length == PLAINTEXT_BUFFER
    requires b != h.parsedKeyB64 && b != h.parsedKeyId && b != h.error && len < b.Length
    ensures h.(stdinPlaintext := b, message := b, messageLen := len).Sound(live + {b}, base)
  {
  }

  lemma GainArgvCopy(h: Holdings, live: set<array<byte>>, base: set<array<byte>>, b: array<byte>, len: nat)
    requires h.Sound(live, base) && h.argvPlaintextCopy == null && b !in live
    requires b != h.parsedKeyB64 && b != h.parsedKeyId && b != h.error && len < b.Length
    ensures var gained := h.(argvPlaintextCopy := b, argvPlaintextCap := b.Length, message := b, messageLen := len);
            gained.Sound(live + {b}, base)
  {
  }

  lemma Repoint(h: Holdings, live: set<array<byte>>, base: set<array<byte>>, p: Pointer)
    requires h.Sound(live, base) && (p == h.effectiveKeyId || (p.Buffer? ==> p.mem == h.parsedKeyId))
    ensures h.(effectiveKeyId := p).Sound(live, base)
  {
  }

  lemma GainOutput(h: Holdings, live: set<array<byte>>, base: set<array<byte>>, b: array<byte>)
    requires h.Sound(live, base) && h.output == null && b !in live
    requires b != h.parsedKeyB64 && b != h.parsedKeyId && b != h.error
    ensures h.(output := b, outputCap := b.Length).Sound(live + {b}, base)
  {
  }

  function Single(p: array?<byte>): set<array<byte>>
  {
    if p == null then {} else {p}
  }

  predicate Distinct(p: array?<byte>, q: array?<byte>)
  {
    p != null ==> p != q
  }

  // ----- Release

  /** Wipes a region, whether or not unlocking works. */
  method SecureUnlockRegion(sodium: Sodium, p: array?<byte>, len: nat)
    requires p != null && len > 0 ==> len == p.Length
    modifies sodium`locks, p
    ensures p != null && len > 0 ==> AllZero(p[..])
    ensures p != null && len == 0 ==> p[..] == old(p[..])
  {
    if p == null || len == 0 {
      return;
    }
    assert p[..] == p[..len];
    var status := sodium.MUnlock(p, len);
    assert p[..] == p[..len];
    if status != 0 {
      MemZero(p, len);
      assert p[..] == p[..len];
    }
  }

  method SecureFreeRegion(sodium: Sodium, heap: Heap, p: array?<byte>, len: nat)
    requires p != null ==> p in heap.Live() && len == p.Length
    modifies sodium`locks, p, heap`released
    ensures heap.released == old(heap.released) + Single(p)
    ensures Wiped(p) && (p == null ==> sodium.locks == old(sodium.locks))
  {
    if p == null {
      return;
    }
    SecureUnlockRegion(sodium, p, len);
    assert AllZero(p[..]);
    heap.Free(p);
  }

  predicate Wiped(p: array?<byte>)
    reads p
  {
    p != null ==> AllZero(p[..])
  }

  /** Releases the buffers that hold the key or the plaintext. */
  method ReleaseInputs(st: State, sodium: Sodium, heap: Heap)
    requires st.Holds().Separate() && st.Holds().Sized() && st.Holds().Inputs() <= heap.Live()
    modifies st.Holds().Inputs(), sodium`locks, heap`released
    ensures heap.released == old(heap.released) + st.Holds().Inputs()
    ensures Wiped(st.stdinKey) && Wiped(st.stdinPlaintext) && Wiped(st.argvPlaintextCopy) && Wiped(st.trimmedKeyInput)
    ensures st.Holds().Inputs() == {} ==> sodium.locks == old(sodium.locks)
  {
    hide AllZero;
    SecureFreeRegion(sodium, heap, st.stdinKey, KEY_BUFFER);
    SecureFreeRegion(sodium, heap, st.stdinPlaintext, PLAINTEXT_BUFFER);
    SecureFreeRegion(sodium, heap, st.argvPlaintextCopy, st.argvPlaintextCap);
    SecureFreeRegion(sodium, heap, st.trimmedKeyInput, st.trimmedKeyInputCap);
  }

  /** Releases every buffer the state owns, one after the other. */
  method ReleaseOwned(st: State, sodium: Sodium, heap: Heap, ghost base: set<array<byte>>)
    requires st.Sound(heap, base)
    modifies st.Holds().Owned(), sodium`locks, heap`released
    ensures heap.released == old(heap.released) + st.Holds().Owned()
    ensures Wiped(st.output) && Wiped(st.stdinKey) && Wiped(st.stdinPlaintext)
    ensures Wiped(st.argvPlaintextCopy) && Wiped(st.trimmedKeyInput)
    ensures st.Holds().Owned() == {} ==> sodium.locks == old(sodium.locks)
  {
    hide AllZero;
    SecureFreeRegion(sodium, heap, st.output, st.outputCap);
    ReleaseInputs(st, sodium, heap);
  }

  /** Wipes the buffers inside the state. */
  method WipeFixedBuffers(st: State, sodium: Sodium)
    requires st.parsedKeyB64.Length == KEY_BUFFER && st.parsedKeyId.Length == KEY_ID_BUFFER
             && st.error.Length == ERROR_BUFFER
    requires st.parsedKeyB64 != st.parsedKeyId && st.error != st.parsedKeyB64 && st.error != st.parsedKeyId
    modifies st.parsedKeyB64, st.parsedKeyId, st.error, sodium`locks
    ensures st.fixedBuffersLocked ==>
              AllZero(st.parsedKeyB64[..]) && AllZero(st.parsedKeyId[..]) && AllZero(st.error[..])
    ensures !st.fixedBuffersLocked ==>
              && sodium.locks == old(sodium.locks) && st.error[..] == old(st.error[..])
              && st.parsedKeyB64[..] == old(st.parsedKeyB64[..]) && st.parsedKeyId[..] == old(st.parsedKeyId[..])
  {
    hide AllZero;
    if st.fixedBuffersLocked {
      SecureUnlockRegion(sodium, st.parsedKeyB64, KEY_BUFFER);
      SecureUnlockRegion(sodium, st.parsedKeyId, KEY_ID_BUFFER);
      SecureUnlockRegion(sodium, st.error, ERROR_BUFFER);
    }
  }

  method ClearOptions(st: State)
    modifies st`keyOption, st`keyIdOption, st`plaintextArg, st`effectiveKeyId, st`outputMode, st`keyFormat
    modifies st`showHelp, st`showVersion, st`plaintextFromStdin, st`keyFromStdin, st`parsedHasKeyId
    ensures st.keyOption == Null && st.keyIdOption == Null && st.plaintextArg == Null && st.effectiveKeyId == Null
    ensures !st.showHelp && !st.showVersion && !st.plaintextFromStdin && !st.keyFromStdin && !st.parsedHasKeyId
    ensures st.outputMode == TEXT && st.keyFormat == AUTO
  {
    st.keyOption, st.keyIdOption, st.plaintextArg, st.effectiveKeyId := Null, Null, Null, Null;
    st.outputMode, st.keyFormat := TEXT, AUTO;
    st.showHelp, st.showVersion := false, false;
    st.plaintextFromStdin, st.keyFromStdin, st.parsedHasKeyId := false, false, false;
  }

  method ClearBuffers(st: State)
    modifies st`stdinKey, st`stdinPlaintext, st`argvPlaintextCopy, st`trimmedKeyInput, st`message, st`output
    modifies st`argvPlaintextCap, st`trimmedKeyInputCap, st`messageLen, st`outputCap, st`outputWritten
    modifies st`fixedBuffersLocked
    ensures st.stdinKey == null && st.stdinPlaintext == null && st.argvPlaintextCopy == null
    ensures st.trimmedKeyInput == null && st.message == null && st.output == null
    ensures st.argvPlaintextCap == st.trimmedKeyInputCap == st.messageLen == st.outputCap == st.outputWritten == 0
    ensures !st.fixedBuffersLocked
  {
    st.stdinKey, st.stdinPlaintext, st.argvPlaintextCopy := null, null, null;
    st.trimmedKeyInput, st.message, st.output := null, null, null;
    st.argvPlaintextCap, st.trimmedKeyInputCap := 0, 0;
    st.messageLen, st.outputCap, st.outputWritten := 0, 0, 0;
    st.fixedBuffersLocked := false;
  }

  /** Resets every field. */
  method ClearFields(st: State)
    modifies st
    ensures st.Blank() && !st.fixedBuffersLocked && st.outputMode == TEXT && st.keyFormat == AUTO
  {
    ClearOptions(st);
    ClearBuffers(st);
  }

  /** Wipes and releases everything the state owns, wipes the fixed buffers, and resets every field. */
  method Cleanup(st: State, sodium: Sodium, heap: Heap, ghost base: set<array<byte>>)
    requires st.Sound(heap, base)
    modifies st, st.parsedKeyB64, st.parsedKeyId, st.error, st.Holds().Owned(), sodium`locks, heap`released
    ensures heap.Live() == base
    ensures heap.released == old(heap.released) + old(st.Holds().Owned())
    ensures forall p | p in old(st.Holds().Owned()) :: AllZero(p[..])
    ensures old(st.fixedBuffersLocked) ==>
              AllZero(st.parsedKeyB64[..]) && AllZero(st.parsedKeyId[..]) && AllZero(st.error[..])
    ensures st.Blank() && !st.fixedBuffersLocked && st.outputMode == TEXT && st.keyFormat == AUTO
            && st.Sound(heap, base)
    // a second cleanup finds nothing to do
    ensures old(st.Blank() && !st.fixedBuffersLocked) ==>
              && heap.released == old(heap.released) && sodium.locks == old(sodium.locks)
              && st.error[..] == old(st.error[..])
              && st.parsedKeyB64[..] == old(st.parsedKeyB64[..]) && st.parsedKeyId[..] == old(st.parsedKeyId[..])
  {
    hide AllZero;
    ReleaseOwned(st, sodium, heap, base);
    WipeFixedBuffers(st, sodium);
    ClearFields(st);
  }
}

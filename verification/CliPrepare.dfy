/** Sizing, sealing and the last look at the interrupt flag before anything is written. */
module CliPrepare {
  import opened Bytes
  import opened Heaps
  import opened Sinks
  import opened Signals
  import opened SealSize
  import opened Seal
  import opened CliState
  import opened CliStream
  import opened CliInput
  import Base64

  /** The buffer size asked for is always the true one, below the sentinel and never zero. */
  lemma SizeIsTrue(m: Machine, n: nat)
    requires m.Valid() && m.sealBytes <= SALT_MAX_MESSAGE_LEN && 0 < n <= SALT_GITHUB_SECRET_MAX_VALUE_LEN
    ensures Pow2(m.bits) > 0 && m.RequiredLen(n) == m.TrueLen(n) < m.SizeMax() && m.TrueLen(n) > 1
  {
    hide Pow2, Machine.RequiredLen;
    RequiredLenExact(m, n);
  }

  /** Settles the key id. */
  method SettleKeyId(st: State, heap: Heap, ghost base: set<array<byte>>)
    requires st.Sound(heap, base)
    modifies st`effectiveKeyId
    ensures st.Sound(heap, base)
    ensures st.effectiveKeyId == old(st.KeyIdChoice())
  {
    hide Holdings.Sound;
    ghost var h := st.Holds();
    st.ResolveEffectiveKeyId();
    Repoint(h, heap.Live(), base, st.effectiveKeyId);
    assert st.Holds() == h.(effectiveKeyId := st.effectiveKeyId);
  }

  /** Obtains the output buffer, which has exactly the size the text needs. */
  method AllocateOutput(st: State, err: Sink, texts: Texts, heap: Heap, process: Process, sodium: Sodium,
                        ghost base: set<array<byte>>) returns (rc: Status)
    requires st.Sound(heap, base) && st.output == null && texts.Valid() && sodium.Valid() && !heap.denied
    requires sodium.machine.sealBytes <= SALT_MAX_MESSAGE_LEN && 0 < st.messageLen <= SALT_GITHUB_SECRET_MAX_VALUE_LEN
    requires process.Tracked()
    modifies st`output, st`outputCap, err, heap, sodium`locks, process`now, process`interrupted
    ensures st.Sound(heap, base) && process.Tracked()
    ensures fresh(heap.Live() - old(heap.Live()))
    ensures rc == Reported(if heap.denied then SALT_ERR_INTERNAL else SALT_OK, err.faults != old(err.faults))
    ensures rc == SALT_OK ==> st.output != null && fresh(st.output) && st.output.Length == st.outputCap
                              && st.outputCap == sodium.machine.TrueLen(st.messageLen) <= sodium.machine.SizeMax()
    ensures ToldIff(rc != SALT_OK, old(err.data), err.data, err.faults == old(err.faults))
    ensures err.faults >= old(err.faults)
  {
    hide Process.Tracked, Holdings.Sound, Pow2, Machine.RequiredLen, Machine.TrueLen;
    SizeIsTrue(sodium.machine, st.messageLen);
    var outputSize := sodium.machine.RequiredLen(st.messageLen);
    if outputSize == 0 {
      assert false;  // the stage tests for a size of zero, which no size is
    }
    process.Deliver();
    var buffer := heap.Alloc(outputSize);
    if buffer == null {
      rc := Report(err, texts, OutOfMemory, SALT_ERR_INTERNAL);
      return;
    }
    assert heap.Live() - {buffer} == old(heap.Live());
    AdoptOutput(st, heap, base, buffer);
    var locked := sodium.MLock(buffer);
    return SALT_OK;
  }

  /** The state takes over the output buffer. */
  method AdoptOutput(st: State, heap: Heap, ghost base: set<array<byte>>, buffer: array<byte>)
    requires st.Holds().Sound(heap.Live() - {buffer}, base) && buffer in heap.Live() && st.output == null
    requires st.IsOutside(buffer)
    modifies st`output, st`outputCap
    ensures st.Sound(heap, base) && st.output == buffer && st.outputCap == buffer.Length
  {
    hide Holdings.Sound;
    GainOutput(st.Holds(), heap.Live() - {buffer}, base, buffer);
    assert heap.Live() - {buffer} + {buffer} == heap.Live();
    st.output, st.outputCap := buffer, buffer.Length;
  }

  /** The code of the sealing stage before its diagnostic is written. */
  function PrepareCode(noticed: bool, denied: bool, crypto: Fault, keyOk: bool): Status
  {
    if noticed then SALT_ERR_SIGNAL
    else if denied then SALT_ERR_INTERNAL
    else if crypto != SALT_OK then crypto
    else if keyOk then SALT_OK
    else SALT_ERR_INPUT
  }

  /** Seals into the output buffer. */
  method SealOutput(st: State, heap: Heap, sodium: Sodium, ghost message: seq<byte>, ghost key: seq<byte>)
    returns (rc: Status)
    requires sodium.Valid() && HoldsMessage(st, message) && 0 < |message| <= SALT_GITHUB_SECRET_MAX_VALUE_LEN
    requires sodium.machine.sealBytes <= SALT_MAX_MESSAGE_LEN
    requires 0 in st.parsedKeyB64[..] && key == CStr(st.parsedKeyB64[..])
    requires st.output != null && st.output != st.message
    requires st.output.Length == st.outputCap == sodium.machine.TrueLen(st.messageLen) <= sodium.machine.SizeMax()
    requires !heap.denied && sodium.fault == SALT_OK
    modifies st`outputWritten, st.output, heap, sodium
    ensures heap.Live() == old(heap.Live())
    ensures rc == PrepareCode(false, heap.denied, sodium.fault, DecodeKey(key).Some?)
    ensures rc == SALT_OK ==> !heap.denied && sodium.fault == SALT_OK && st.outputWritten != 0 && DecodeKey(key).Some?
                              && CStr(st.output[..]) == SealedText(sodium.box, message, key)
  {
    hide NulPos, Pow2, Machine.TrueLen, DecodeKey, Base64.Encode;
    SizeIsTrue(sodium.machine, st.messageLen);
    ghost var outputSize := st.outputCap;
    assert !BadArguments(false, st.messageLen, key) || key == [];
    EmptyKey(key);
    var written;
    rc, written := SealBase64(sodium, heap, st.message, st.messageLen, Some(st.parsedKeyB64[..]), st.output,
                              st.outputCap);
    st.outputWritten := written;
    if rc == SALT_OK {
      EncodedTextLength(st.output[..], SealedText(sodium.box, message, key));
    }
  }

  lemma EmptyKey(key: seq<byte>)
    ensures key == [] ==> DecodeKey(key) == None
  {
  }

  /** Seals, then looks at the interrupt flag for the last time. */
  method SealAndCheck(st: State, err: Sink, texts: Texts, heap: Heap, process: Process, sodium: Sodium,
                      ghost message: seq<byte>, ghost key: seq<byte>) returns (rc: Status)
    requires texts.Valid() && sodium.Valid() && HoldsMessage(st, message)
             && 0 < |message| <= SALT_GITHUB_SECRET_MAX_VALUE_LEN
    requires sodium.machine.sealBytes <= SALT_MAX_MESSAGE_LEN
    requires 0 in st.parsedKeyB64[..] && key == CStr(st.parsedKeyB64[..])
    requires st.output != null && st.output != st.message
    requires st.output.Length == st.outputCap == sodium.machine.TrueLen(st.messageLen) <= sodium.machine.SizeMax()
    requires process.Tracked() && !process.noticed && !heap.denied && sodium.fault == SALT_OK
    modifies st`outputWritten, st.output, err, heap, sodium, process`now, process`interrupted, process`noticed
    ensures heap.Live() == old(heap.Live()) && process.Tracked()
    ensures rc == Reported(PrepareCode(process.noticed, heap.denied, sodium.fault, DecodeKey(key).Some?),
                           err.faults != old(err.faults))
    ensures rc == SALT_OK ==> !process.noticed && !heap.denied && sodium.fault == SALT_OK && !process.interrupted
                              && DecodeKey(key).Some?
                              && CStr(st.output[..]) == SealedText(sodium.box, message, key)
    ensures ToldIff(rc != SALT_OK, old(err.data), err.data, err.faults == old(err.faults))
    ensures err.faults >= old(err.faults)
  {
    hide Process.Tracked, CStr, Machine.TrueLen, DecodeKey, Base64.Encode, SealedText, HoldsMessage;
    process.Deliver();
    rc := SealOutput(st, heap, sodium, message, key);
    if rc != SALT_OK {
      rc := Report(err, texts, SealFailed(rc), rc);
      return;
    }
    rc := CheckAndReport(err, texts, process);
    if rc != SALT_OK {
      return;
    }
    if st.outputWritten == 0 {
      assert false;  // the stage tests for an empty output, which no output is
    }
  }

  /** The whole stage. On success the output holds the text of the sealed message, and no signal has been caught. */
  method PrepareOutput(st: State, err: Sink, texts: Texts, heap: Heap, process: Process, sodium: Sodium,
                       ghost base: set<array<byte>>, ghost message: seq<byte>, ghost key: seq<byte>)
    returns (rc: Status)
    requires st.Sound(heap, base) && st.output == null && texts.Valid() && sodium.Valid()
    requires sodium.machine.sealBytes <= SALT_MAX_MESSAGE_LEN
    requires HoldsMessage(st, message) && 0 < |message| <= SALT_GITHUB_SECRET_MAX_VALUE_LEN
    requires 0 in st.parsedKeyB64[..] && key == CStr(st.parsedKeyB64[..])
    requires process.Tracked() && !process.noticed && !heap.denied && sodium.fault == SALT_OK
    modifies st`effectiveKeyId, st`output, st`outputCap, st`outputWritten, err, heap, sodium
    modifies process`now, process`interrupted, process`noticed
    ensures st.Sound(heap, base) && process.Tracked()
    ensures fresh(heap.Live() - old(heap.Live()))
    ensures st.effectiveKeyId == old(st.KeyIdChoice())
    ensures rc == Reported(PrepareCode(process.noticed, heap.denied, sodium.fault, DecodeKey(key).Some?),
                           err.faults != old(err.faults))
    ensures rc == SALT_OK ==> !process.noticed && !heap.denied && sodium.fault == SALT_OK && !process.interrupted
                              && DecodeKey(key).Some? && st.output != null && fresh(st.output)
                              && CStr(st.output[..]) == SealedText(sodium.box, message, key)
    ensures ToldIff(rc != SALT_OK, old(err.data), err.data, err.faults == old(err.faults))
    ensures err.faults >= old(err.faults)
  {
    hide Process.Tracked, CStr, Machine.TrueLen, DecodeKey, Base64.Encode, SealedText, Holdings.Sound,
         Texts.Valid, State.KeyIdChoice, Sodium.Valid, Machine.Valid;
    SettleKeyId(st, heap, base);
    rc := AllocateOutput(st, err, texts, heap, process, sodium, base);
    if rc != SALT_OK {
      return;
    }
    rc := SealAndCheck(st, err, texts, heap, process, sodium, message, key);
  }
}

/** The sealing wrapper: validation, key decoding, and one exit that wipes and releases on every path. */
module Seal {
  import opened Bytes
  import opened Heaps
  import opened SealSize
  import Base64

  const PUBLICKEYBYTES: nat := 32

  /** The length of a padded key, and so of the longest key text there is. */
  const MAX_PUBLIC_KEY_B64_LEN: nat := 44

  /** What the failure of a library primitive stands for; SALT_OK if none has failed. */
  type Fault = s: Status | s in {SALT_OK, SALT_ERR_CRYPTO, SALT_ERR_INTERNAL} witness SALT_OK

  /** The library beneath: its primitives may fail at any call, and `box` is the sealed box of a message under a key. */
  class Sodium {
    const machine: Machine
    const box: (seq<byte>, seq<byte>) -> seq<byte>
    const initOk: bool
    const sealOk: nat -> bool
    const encodeOk: nat -> bool
    const lockOk: nat -> bool
    const unlockOk: nat -> bool
    var seals: nat
    var encodings: nat
    var locks: nat
    /** What the first primitive to fail since the record began stands for, or SALT_OK. */
    var fault: Fault

    constructor (machine: Machine, box: (seq<byte>, seq<byte>) -> seq<byte>, initOk: bool, sealOk: nat -> bool,
                 encodeOk: nat -> bool, lockOk: nat -> bool, unlockOk: nat -> bool)
      ensures this.machine == machine && this.box == box && this.initOk == initOk && this.sealOk == sealOk
      ensures this.encodeOk == encodeOk && this.lockOk == lockOk && this.unlockOk == unlockOk
      ensures seals == encodings == locks == 0 && fault == SALT_OK
    {
      this.machine, this.box, this.initOk, this.sealOk, this.encodeOk := machine, box, initOk, sealOk, encodeOk;
      this.lockOk, this.unlockOk, seals, encodings, locks, fault := lockOk, unlockOk, 0, 0, 0, SALT_OK;
    }

    ghost predicate Valid()
    {
      machine.Valid() && forall m, k :: |box(m, k)| == |m| + machine.sealBytes
    }

    /** Begins a new record of what goes wrong. */
    method BeginRecord()
      modifies this`fault
      ensures fault == SALT_OK
    {
      fault := SALT_OK;
    }

    method Init() returns (status: int)
      modifies this`fault
      ensures status < 0 <==> !initOk
      ensures fault == First(old(fault), if initOk then SALT_OK else SALT_ERR_CRYPTO)
    {
      fault := First(fault, if initOk then SALT_OK else SALT_ERR_CRYPTO);
      return if initOk then 0 else -1;
    }

    /** Locking is best effort and has no effect on the contents. */
    method MLock(buffer: array<byte>) returns (status: int)
      modifies this`locks
    {
      status := if lockOk(locks) then 0 else -1;
      locks := locks + 1;
    }

    /** Unlocking wipes the region first, and may then fail. */
    method MUnlock(buffer: array<byte>, len: nat) returns (status: int)
      requires len <= buffer.Length
      modifies this`locks, buffer
      ensures AllZero(buffer[..len]) && buffer[len..] == old(buffer[len..])
    {
      MemZero(buffer, len);
      status := if unlockOk(locks) then 0 else -1;
      locks := locks + 1;
    }

    method BoxSeal(ciphertext: array<byte>, message: array<byte>, len: nat, publicKey: array<byte>)
    returns (status: int)
      requires Valid() && len <= message.Length && ciphertext.Length == len + machine.sealBytes
      modifies this`seals, this`fault, ciphertext
      ensures seals == old(seals) + 1
      ensures status == 0 <==> sealOk(old(seals))
      ensures status == 0 ==> ciphertext[..] == box(old(message[..len]), old(publicKey[..]))
      ensures fault == First(old(fault), if status == 0 then SALT_OK else SALT_ERR_CRYPTO)
    {
      if sealOk(seals) {
        var sealed := box(message[..len], publicKey[..]);
        forall k | 0 <= k < ciphertext.Length {
          ciphertext[k] := sealed[k];
        }
        status := 0;
      } else {
        status, fault := -1, First(fault, SALT_ERR_CRYPTO);
      }
      seals := seals + 1;
    }

    /** Writes the padded encoding of `bin` and its NUL. */
    method Bin2Base64(output: array<byte>, outputSize: nat, bin: array<byte>) returns (ok: bool)
      requires |Base64.Encode(bin[..], true)| < outputSize <= output.Length && output != bin
      modifies this`encodings, this`fault, output
      ensures encodings == old(encodings) + 1
      ensures ok <==> encodeOk(old(encodings))
      ensures ok ==> Holds(output[..], old(output[..]), Base64.Encode(bin[..], true))
      ensures fault == First(old(fault), if ok then SALT_OK else SALT_ERR_INTERNAL)
    {
      ok := encodeOk(encodings);
      if ok {
        CopyWithNul(output, Base64.Encode(bin[..], true));
      } else {
        fault := First(fault, SALT_ERR_INTERNAL);
      }
      encodings := encodings + 1;
    }
  }

  /** The fault that came first. */
  function First(a: Fault, b: Fault): Fault
  {
    if a != SALT_OK then a else b
  }

  /** After success the output holds the text, its NUL, and beyond that what it held before. */
  ghost predicate Holds(after: seq<byte>, before: seq<byte>, text: seq<byte>)
  {
    |text| < |before| && after == text + [0] + before[|text| + 1..]
  }

  method CopyWithNul(output: array<byte>, text: seq<byte>)
    requires |text| < output.Length
    modifies output
    ensures Holds(output[..], old(output[..]), text)
  {
    forall k | 0 <= k <= |text| {
      output[k] := if k < |text| then text[k] else 0;
    }
    assert output[..|text|] == text;
    assert output[..] == output[..|text|] + [output[|text|]] + output[|text| + 1..];
    assert output[|text| + 1..] == old(output[..])[|text| + 1..];
  }

  method MemZero(buffer: array<byte>, len: nat)
    requires len <= buffer.Length
    modifies buffer
    ensures AllZero(buffer[..len]) && buffer[len..] == old(buffer[len..])
  {
    forall k | 0 <= k < len {
      buffer[k] := 0;
    }
  }

  // ----- Public keys

  /** `text` is one of the two accepted spellings of the key `pk`. */
  predicate IsKeyText(text: seq<byte>, pk: seq<byte>)
  {
    |pk| == PUBLICKEYBYTES && (text == Base64.Encode(pk, true) || text == Base64.Encode(pk, false))
  }

  function DecodeAs(text: seq<byte>, padded: bool): Option<seq<byte>>
  {
    var r := Base64.Decode(text, padded);
    if r.Some? && |r.value| == PUBLICKEYBYTES then r else None
  }

  function DecodeKey(text: seq<byte>): Option<seq<byte>>
  {
    if |text| == 0 || |text| > MAX_PUBLIC_KEY_B64_LEN then None
    else if DecodeAs(text, true).Some? then DecodeAs(text, true)
    else DecodeAs(text, false)
  }

  /** Decoding finds the key exactly when the text spells it; a text spells at most one key. */
  lemma DecodeKeyExact(text: seq<byte>, pk: seq<byte>)
    ensures DecodeKey(text) == Some(pk) <==> IsKeyText(text, pk)
  {
    hide Base64.Encode, Base64.Decode;
    Base64.EncodedLength(pk);
    Base64.DecodeExact(text, pk, true);
    Base64.DecodeExact(text, pk, false);
    if DecodeAs(text, true).Some? {
      var other := DecodeAs(text, true).value;
      Base64.DecodeExact(text, other, true);
      Base64.EncodedLength(other);
    }
  }

  /** The library's decoder: it stops at the first byte it cannot use, and says where. */
  method Base642Bin(bin: array<byte>, text: seq<byte>, padded: bool) returns (status: int, decodedLen: nat, end: nat)
    modifies bin
    ensures status == 0 && end == |text| <==>
              Base64.Decode(text, padded).Some? && |Base64.Decode(text, padded).value| <= bin.Length
    ensures status == 0 && end == |text| ==>
              decodedLen == |Base64.Decode(text, padded).value| <= bin.Length
              && bin[..decodedLen] == Base64.Decode(text, padded).value
  {
    var r := Base64.Decode(text, padded);
    if r.None? || |r.value| > bin.Length {
      return -1, 0, 0;
    }
    forall k | 0 <= k < |r.value| {
      bin[k] := r.value[k];
    }
    return 0, |r.value|, |text|;
  }

  method DecodePublicKey(text: seq<byte>, publicKey: array<byte>) returns (rc: Status)
    requires publicKey.Length == PUBLICKEYBYTES
    modifies publicKey
    ensures rc == if DecodeKey(text).Some? then SALT_OK else SALT_ERR_INPUT
    ensures rc == SALT_OK ==> publicKey[..] == DecodeKey(text).value
    ensures rc != SALT_OK && 1 <= |text| <= MAX_PUBLIC_KEY_B64_LEN ==> AllZero(publicKey[..])
  {
    if |text| == 0 || |text| > MAX_PUBLIC_KEY_B64_LEN {
      return SALT_ERR_INPUT;
    }
    var variants := [true, false];
    for i := 0 to 2
      invariant i > 0 ==> DecodeAs(text, true) == None
      invariant i > 1 ==> DecodeAs(text, false) == None
    {
      var status, decodedLen, end := Base642Bin(publicKey, text, variants[i]);
      if status == 0 && decodedLen == PUBLICKEYBYTES && end == |text| {
        assert publicKey[..] == publicKey[..decodedLen];
        return SALT_OK;
      }
    }
    MemZero(publicKey, PUBLICKEYBYTES);
    assert publicKey[..] == publicKey[..PUBLICKEYBYTES];
    return SALT_ERR_INPUT;
  }

  // ----- Validation

  method ValidateSealInputs(message: array?<byte>, messageLen: nat, key: Option<seq<byte>>, output: array?<byte>)
    returns (rc: Status)
    ensures rc == if BadArguments(message == null || key == None || output == null, messageLen, key.GetOr([]))
                  then SALT_ERR_INPUT else SALT_OK
  {
    if message == null || key == None || output == null {
      return SALT_ERR_INPUT;
    }
    if messageLen == 0 || messageLen > SALT_MAX_MESSAGE_LEN {
      return SALT_ERR_INPUT;
    }
    if |key.value| == 0 {
      return SALT_ERR_INPUT;
    }
    return SALT_OK;
  }

  predicate BadArguments(anyNull: bool, messageLen: nat, key: seq<byte>)
  {
    anyNull || !(1 <= messageLen <= SALT_MAX_MESSAGE_LEN) || key == []
  }

  /** How the primitives turn out in one call. */
  datatype Outcomes = Outcomes(init: bool, alloc: bool, seal: bool, encode: bool)

  function ScratchStatus(m: Machine, outcomes: Outcomes, messageLen: nat, key: seq<byte>, outputSize: nat): Status
  {
    if DecodeKey(key).None? || outputSize < m.TrueLen(messageLen) then SALT_ERR_INPUT
    else if !outcomes.alloc then SALT_ERR_INTERNAL
    else if !outcomes.seal then SALT_ERR_CRYPTO
    else if !outcomes.encode then SALT_ERR_INTERNAL
    else SALT_OK
  }

  /** The status of a call: the first of these conditions that fails decides. */
  function SealStatus(m: Machine, outcomes: Outcomes, anyNull: bool, messageLen: nat, key: seq<byte>,
                      outputSize: nat): Status
  {
    if BadArguments(anyNull, messageLen, key) then SALT_ERR_INPUT
    else if !outcomes.init then SALT_ERR_CRYPTO
    else ScratchStatus(m, outcomes, messageLen, key, outputSize)
  }

  /** What is written on success: the text of the sealed message. */
  function SealedText(box: (seq<byte>, seq<byte>) -> seq<byte>, message: seq<byte>, key: seq<byte>): seq<byte>
    requires DecodeKey(key).Some?
  {
    Base64.Encode(box(message, DecodeKey(key).value), true)
  }

  method ValidateOutputCapacity(m: Machine, messageLen: nat, outputSize: nat) returns (rc: Status)
    requires m.Valid() && messageLen <= SALT_MAX_MESSAGE_LEN && outputSize <= m.SizeMax()
    ensures rc == if outputSize < m.TrueLen(messageLen) then SALT_ERR_INPUT else SALT_OK
  {
    RequiredLenExact(m, messageLen);
    var required := m.RequiredLen(messageLen);
    return if required == m.SizeMax() || outputSize < required then SALT_ERR_INPUT else SALT_OK;
  }

  // ----- Release

  /** Wipes a buffer, and unlocks it if it was locked; the contents are gone whether or not unlocking works. */
  method SecureRelease(sodium: Sodium, buffer: array?<byte>, len: nat, locked: bool)
    requires buffer != null ==> len == buffer.Length
    modifies sodium`locks, buffer
    ensures buffer != null ==> AllZero(buffer[..])
  {
    if buffer == null {
      return;
    }
    assert buffer[..] == buffer[..len];
    if locked {
      var status := sodium.MUnlock(buffer, len);
      assert buffer[..] == buffer[..len];
      if status != 0 {
        MemZero(buffer, len);
      }
    } else {
      MemZero(buffer, len);
    }
    assert buffer[..] == buffer[..len];
  }

  // ----- Sealing

  ghost function OutcomesOf(sodium: Sodium, heap: Heap): Outcomes
    reads sodium, heap
  {
    Outcomes(sodium.initOk, heap.grants(heap.calls), sodium.sealOk(sodium.seals), sodium.encodeOk(sodium.encodings))
  }

  const ALL_SUCCEED: Outcomes := Outcomes(true, true, true, true)

  /** The part of the work that has the ciphertext buffer: encrypt, then encode. */
  method EncryptAndEncode(sodium: Sodium, ciphertext: array<byte>, message: array<byte>, messageLen: nat,
                          publicKey: array<byte>, output: array<byte>, outputSize: nat)
    returns (rc: Status, written: nat)
    requires sodium.Valid() && messageLen <= message.Length
             && ciphertext.Length == messageLen + sodium.machine.sealBytes
    requires sodium.machine.TrueLen(messageLen) <= outputSize <= output.Length
    requires ciphertext != output && publicKey != ciphertext && publicKey != output && message != output
    modifies sodium, ciphertext, output
    ensures rc == if !sodium.sealOk(old(sodium.seals)) then SALT_ERR_CRYPTO
                  else if !sodium.encodeOk(old(sodium.encodings)) then SALT_ERR_INTERNAL
                  else SALT_OK
    ensures sodium.fault == First(old(sodium.fault), rc)
    ensures rc == SALT_OK ==>
              var text := Base64.Encode(sodium.box(old(message[..messageLen]), old(publicKey[..])), true);
              && written == |text| == sodium.machine.TrueLen(messageLen) - 1
              && Holds(output[..], old(output[..]), text)
    ensures rc != SALT_OK ==> written == 0
    ensures rc == SALT_ERR_CRYPTO ==> output[..] == old(output[..])
  {
    hide Base64.Encode, NulPos;
    written := 0;
    var status := sodium.BoxSeal(ciphertext, message, messageLen, publicKey);
    if status != 0 {
      return SALT_ERR_CRYPTO, 0;
    }
    TrueLenIsTextLen(sodium.machine, ciphertext[..], messageLen);
    var encoded := sodium.Bin2Base64(output, outputSize, ciphertext);
    if !encoded {
      return SALT_ERR_INTERNAL, 0;
    }
    EncodedTextLength(output[..], Base64.Encode(ciphertext[..], true));
    written := NulPos(output[..]);
    rc := SALT_OK;
  }

  /**
    * The work behind the two scratch buffers. Every path leaves by the same exit, which wipes the key and the
    * ciphertext, and releases the ciphertext if there is one.
    */
  method SealWithScratch(sodium: Sodium, heap: Heap, message: array<byte>, messageLen: nat, key: seq<byte>,
                         output: array<byte>, outputSize: nat) returns (rc: Status, written: nat)
    requires sodium.Valid() && messageLen <= message.Length && messageLen <= SALT_MAX_MESSAGE_LEN && message != output
    requires outputSize <= output.Length && outputSize <= sodium.machine.SizeMax()
    modifies sodium, heap, output
    ensures var outcomes := old(OutcomesOf(sodium, heap));
            && rc == ScratchStatus(sodium.machine, outcomes, messageLen, key, outputSize)
            && heap.denied == (old(heap.denied) || (!outcomes.alloc && rc == SALT_ERR_INTERNAL))
            && sodium.fault == First(old(sodium.fault), if outcomes.alloc && rc != SALT_ERR_INPUT then rc else SALT_OK)
            && (rc != SALT_OK && outcomes.encode ==> output[..] == old(output[..]))
    ensures rc == SALT_OK ==>
              var text := SealedText(sodium.box, old(message[..messageLen]), key);
              && written == |text| == sodium.machine.TrueLen(messageLen) - 1
              && Holds(output[..], old(output[..]), text)
    ensures rc != SALT_OK ==> written == 0
    ensures heap.Live() == old(heap.Live())
  {
    hide Base64.Encode, Base64.Decode, DecodeKey, Pow2, Machine.RequiredLen, Holds;
    written := 0;
    var publicKey := heap.Scratch(PUBLICKEYBYTES);
    var status := sodium.MLock(publicKey);
    var publicKeyLocked := status == 0;
    var ciphertext: array?<byte> := null;
    var ciphertextLen := 0;
    var ciphertextLocked := false;
    label cleanup: {
      rc := DecodePublicKey(key, publicKey);
      if rc != SALT_OK {
        break cleanup;
      }
      ciphertextLen := messageLen + sodium.machine.sealBytes;
      rc := ValidateOutputCapacity(sodium.machine, messageLen, outputSize);
      if rc != SALT_OK {
        break cleanup;
      }
      ciphertext := heap.Alloc(ciphertextLen);
      if ciphertext == null {
        rc := SALT_ERR_INTERNAL;
        break cleanup;
      }
      status := sodium.MLock(ciphertext);
      ciphertextLocked := status == 0;
      rc, written := EncryptAndEncode(sodium, ciphertext, message, messageLen, publicKey, output, outputSize);
    }
    SecureRelease(sodium, publicKey, PUBLICKEYBYTES, publicKeyLocked);
    heap.Free(publicKey);
    if ciphertext != null {
      SecureRelease(sodium, ciphertext, ciphertextLen, ciphertextLocked);
      heap.Free(ciphertext);
    }
  }

  /** Encrypts with an explicit key length. */
  method SealBase64Keylen(sodium: Sodium, heap: Heap, message: array?<byte>, messageLen: nat, key: Option<seq<byte>>,
                          output: array?<byte>, outputSize: nat) returns (rc: Status, written: nat)
    requires sodium.Valid()
    requires message != null && messageLen <= SALT_MAX_MESSAGE_LEN ==> messageLen <= message.Length
    requires output != null ==> outputSize <= output.Length && outputSize <= sodium.machine.SizeMax()
    requires message == null || message != output
    modifies sodium, heap, output
    ensures rc == SealStatus(sodium.machine, old(OutcomesOf(sodium, heap)),
                             message == null || key == None || output == null, messageLen, key.GetOr([]), outputSize)
    ensures !heap.denied && sodium.fault == SALT_OK ==>
              rc == SealStatus(sodium.machine, ALL_SUCCEED,
                               message == null || key == None || output == null, messageLen, key.GetOr([]), outputSize)
    ensures rc == SALT_OK ==>
              var text := SealedText(sodium.box, old(message[..messageLen]), key.value);
              && written == |text| == sodium.machine.TrueLen(messageLen) - 1
              && Holds(output[..], old(output[..]), text)
    ensures rc == SALT_OK ==> heap.denied == old(heap.denied) && sodium.fault == old(sodium.fault)
    ensures heap.denied != old(heap.denied) ==> rc == SALT_ERR_INTERNAL
    ensures sodium.fault != old(sodium.fault) ==> rc == sodium.fault
    ensures rc != SALT_OK ==> written == 0
    ensures output != null && rc != SALT_OK && old(OutcomesOf(sodium, heap).encode) ==> output[..] == old(output[..])
    ensures heap.Live() == old(heap.Live())
  {
    hide SealedText, DecodeKey, Holds, Machine.TrueLen, Machine.SizeMax;
    rc := ValidateSealInputs(message, messageLen, key, output);
    if rc != SALT_OK {
      return rc, 0;
    }
    var status := sodium.Init();
    if status < 0 {
      return SALT_ERR_CRYPTO, 0;
    }
    rc, written := SealWithScratch(sodium, heap, message, messageLen, key.value, output, outputSize);
  }

  /** An encoded text holds no NUL, so its length is found at the NUL written after it. */
  lemma EncodedTextLength(buffer: seq<byte>, text: seq<byte>)
    requires |text| < |buffer| && text <= buffer && buffer[|text|] == 0
    requires exists b :: text == Base64.Encode(b, true)
    ensures NulPos(buffer) == |text| && CStr(buffer) == text
  {
    var b :| text == Base64.Encode(b, true);
    Base64.EncodingIsPlain(b, true);
    assert buffer[..|text|] == text;
    CStrIs(buffer, |text|);
  }

  // ----- The other entry points

  /** The length of a C string, looking at no more than `maxLen` bytes: a longer string counts as `maxLen`. */
  method BoundedStrlen(value: Option<seq<byte>>, maxLen: nat) returns (n: nat)
    requires value.Some? ==> 0 in value.value || |value.value| >= maxLen
    ensures value.None? ==> n == 0
    ensures value.Some? ==> n == if NulPos(value.value) < maxLen then NulPos(value.value) else maxLen
  {
    if value.None? {
      return 0;
    }
    var v := value.value;
    n := 0;
    while n < maxLen && v[n] != 0
      invariant n <= maxLen && n <= |v| && 0 !in v[..n]
    {
      n := n + 1;
    }
    if n < maxLen {
      CStrIs(v, n);
    } else {
      assert forall k | 0 <= k < n :: v[k] in v[..n];
    }
  }

  /** The key a caller of a C-string entry point means: everything before the NUL. */
  function KeyText(key: Option<seq<byte>>): Option<seq<byte>>
  {
    if key.None? then None else Some(CStr(key.value))
  }

  /** The status does not depend on how much too long a key is. */
  lemma LongKeysAlike(m: Machine, outcomes: Outcomes, anyNull: bool, messageLen: nat, k: seq<byte>, k': seq<byte>,
                      outputSize: nat)
    requires |k| > MAX_PUBLIC_KEY_B64_LEN && |k'| > MAX_PUBLIC_KEY_B64_LEN
    ensures SealStatus(m, outcomes, anyNull, messageLen, k, outputSize) == SealStatus(m, outcomes, anyNull,
            messageLen, k', outputSize)
    ensures SealStatus(m, outcomes, anyNull, messageLen, k, outputSize) != SALT_OK
  {
  }

  /** The C-string entry point: it does what the other does with the whole string, though it scans 45 bytes at most. */
  method SealBase64(sodium: Sodium, heap: Heap, message: array?<byte>, messageLen: nat, key: Option<seq<byte>>,
                    output: array?<byte>, outputSize: nat) returns (rc: Status, written: nat)
    requires sodium.Valid()
    requires message != null && messageLen <= SALT_MAX_MESSAGE_LEN ==> messageLen <= message.Length
    requires key.Some? ==> 0 in key.value || |key.value| > MAX_PUBLIC_KEY_B64_LEN
    requires output != null ==> outputSize <= output.Length && outputSize <= sodium.machine.SizeMax()
    requires message == null || message != output
    modifies sodium, heap, output
    ensures rc == SealStatus(sodium.machine, old(OutcomesOf(sodium, heap)),
                             message == null || key == None || output == null,
                             messageLen, KeyText(key).GetOr([]), outputSize)
    ensures !heap.denied && sodium.fault == SALT_OK ==>
              rc == SealStatus(sodium.machine, ALL_SUCCEED, message == null || key == None || output == null,
                               messageLen, KeyText(key).GetOr([]), outputSize)
    ensures rc == SALT_OK ==>
              var text := SealedText(sodium.box, old(message[..messageLen]), KeyText(key).value);
              && written == |text| == sodium.machine.TrueLen(messageLen) - 1
              && Holds(output[..], old(output[..]), text)
    ensures rc == SALT_OK ==> heap.denied == old(heap.denied) && sodium.fault == old(sodium.fault)
    ensures heap.denied != old(heap.denied) ==> rc == SALT_ERR_INTERNAL
    ensures sodium.fault != old(sodium.fault) ==> rc == sodium.fault
    ensures rc != SALT_OK ==> written == 0
    ensures output != null && rc != SALT_OK && old(OutcomesOf(sodium, heap).encode) ==> output[..] == old(output[..])
    ensures heap.Live() == old(heap.Live())
  {
    var keyLen := BoundedStrlen(key, MAX_PUBLIC_KEY_B64_LEN + 1);
    var scanned := if key.None? then None else Some(key.value[..keyLen]);
    hide SealedText, Machine.TrueLen;
    if keyLen > MAX_PUBLIC_KEY_B64_LEN {
      var anyNull := message == null || key == None || output == null;
      LongKeysAlike(sodium.machine, OutcomesOf(sodium, heap), anyNull, messageLen, scanned.value, CStr(key.value),
                    outputSize);
      LongKeysAlike(sodium.machine, ALL_SUCCEED, anyNull, messageLen, scanned.value, CStr(key.value), outputSize);
    }
    rc, written := SealBase64Keylen(sodium, heap, message, messageLen, scanned, output, outputSize);
  }

  /** Seals, then clears every message of acceptable length, whatever the outcome. */
  method SealWithPlaintextZeroingKeylen(sodium: Sodium, heap: Heap, message: array?<byte>, messageLen: nat,
                                        key: Option<seq<byte>>, output: array?<byte>, outputSize: nat)
    returns (rc: Status, written: nat)
    requires sodium.Valid()
    requires message != null && messageLen <= SALT_MAX_MESSAGE_LEN ==> messageLen <= message.Length
    requires output != null ==> outputSize <= output.Length && outputSize <= sodium.machine.SizeMax()
    requires message == null || message != output
    modifies sodium, heap, output, message
    ensures rc == SealStatus(sodium.machine, old(OutcomesOf(sodium, heap)),
                             message == null || key == None || output == null, messageLen, key.GetOr([]), outputSize)
    ensures rc == SALT_OK ==>
              var text := SealedText(sodium.box, old(message[..messageLen]), key.value);
              written == |text| && Holds(output[..], old(output[..]), text)
    ensures rc != SALT_OK ==> written == 0
    ensures message != null && 0 < messageLen <= SALT_MAX_MESSAGE_LEN ==>
              AllZero(message[..messageLen]) && message[messageLen..] == old(message[messageLen..])
    ensures message != null && !(0 < messageLen <= SALT_MAX_MESSAGE_LEN) ==> message[..] == old(message[..])
    ensures heap.Live() == old(heap.Live())
  {
    if message == null {
      return SALT_ERR_INPUT, 0;
    }
    rc, written := SealBase64Keylen(sodium, heap, message, messageLen, key, output, outputSize);
    if messageLen > 0 && messageLen <= SALT_MAX_MESSAGE_LEN {
      MemZero(message, messageLen);
    }
  }

  method SealWithPlaintextZeroing(sodium: Sodium, heap: Heap, message: array?<byte>, messageLen: nat,
                                  key: Option<seq<byte>>, output: array?<byte>, outputSize: nat)
    returns (rc: Status, written: nat)
    requires sodium.Valid()
    requires message != null && messageLen <= SALT_MAX_MESSAGE_LEN ==> messageLen <= message.Length
    requires key.Some? ==> 0 in key.value || |key.value| > MAX_PUBLIC_KEY_B64_LEN
    requires output != null ==> outputSize <= output.Length && outputSize <= sodium.machine.SizeMax()
    requires message == null || message != output
    modifies sodium, heap, output, message
    ensures rc == SealStatus(sodium.machine, old(OutcomesOf(sodium, heap)),
                             message == null || key == None || output == null,
                             messageLen, KeyText(key).GetOr([]), outputSize)
    ensures rc == SALT_OK ==>
              var text := SealedText(sodium.box, old(message[..messageLen]), KeyText(key).value);
              written == |text| && Holds(output[..], old(output[..]), text)
    ensures rc != SALT_OK ==> written == 0
    ensures message != null && 0 < messageLen <= SALT_MAX_MESSAGE_LEN ==>
              AllZero(message[..messageLen]) && message[messageLen..] == old(message[messageLen..])
    ensures message != null && !(0 < messageLen <= SALT_MAX_MESSAGE_LEN) ==> message[..] == old(message[..])
    ensures heap.Live() == old(heap.Live())
  {
    var keyLen := BoundedStrlen(key, MAX_PUBLIC_KEY_B64_LEN + 1);
    var scanned := if key.None? then None else Some(key.value[..keyLen]);
    if keyLen > MAX_PUBLIC_KEY_B64_LEN {
      LongKeysAlike(sodium.machine, OutcomesOf(sodium, heap), message == null || key == None || output == null,
                    messageLen, scanned.value, CStr(key.value), outputSize);
    }
    rc, written := SealWithPlaintextZeroingKeylen(sodium, heap, message, messageLen, scanned, output, outputSize);
  }
}

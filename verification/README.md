# Verification model of `salt`

`salt` is a small command-line program around libsodium's sealed boxes. The encryption is a library call; what is
written by hand is the code around it, and that is what this project models and proves properties of:

- **The JSON and UTF-8 codec** (`Bytes`, `Utf8`, `JsonGrammar`, `KeyParser`, `Sinks`, `JsonOutput`, `JsonRoundTrip`).
  A strict single-object parser that moves a cursor over a C string and decodes into bounded buffers, and a writer
  that escapes strings onto a stream that can fail at any byte. The parser is proved against a grammar of documents
  that does not mention cursors or buffers; the UTF-8 acceptor against the encoding of section 3 of RFC 3629; the
  writer against a decoder for section 7 of RFC 8259; and the two against each other, on their exact common domain.
- **One invocation of the program** (`Heaps`, `Sources`, `Signals`, `CliState`, `CliStream`, `CliArgs`, `CliInput`,
  `CliPrepare`, `CliRun`, `CliRoutes`). A staged run over one mutable state with five owned buffers and several
  aliases into them. Every allocation, read, write and library call can fail, and signals can arrive between any two
  of these operations. The theorems hold for every combination of these events.
- **The sealing wrapper and its size arithmetic** (`Base64`, `SealSize`, `Seal`). The sealed box is an uninterpreted
  function with a fixed overhead, base64 is that of section 4 of RFC 4648, and `size_t` has any number of bits.
- **The dependency closure and the merge of its result** (`StringOrder`, `DepClosure`, `SbomMerge`). A first-in first-out worklist
  over packages, proved to compute reachability, and the folds that merge its result into a CycloneDX document.

## How to read it

Code that works step by step is a method, or a class with methods, with the loops and the order of effects of the
source. Each is proved equal to a function of its inputs, or to say directly what it promises, and lemmas then relate
that function to an independent description. A C string that is only read is a sequence of bytes without NUL; a buffer
that is written is an array, with its NUL.

What the environment does is a parameter. `Heap.grants`, `Source.faulty` and `Source.reach`, `Sink.quota`, the
`...Ok` functions of `Sodium`, and `Process.arrivals` and `Process.setups` say how the k-th operation turns out, or
what arrives at the k-th moment. A theorem about all of them is a theorem about every interleaving and every failure.

The return code of a run is a function of its input and of what went wrong (`CliRun.RunCode` of a `Faults`). Whether
standard output takes the document is told from `Sink.quota` alone. The other devices keep a record (`Heap.denied`,
`Sodium.fault`, `Source.faulted`, `Process.noticed`), and the contracts say when something must have been recorded:
`CliRun.NoticeBy` for what `Process.arrivals` brings, `CliRun.SeesErrors` for an error of standard input.

`Heap.Free` demands that the buffer is still live and is zero over its whole length, so every call that verifies
releases a buffer once, and wiped. The decoded key, which the source keeps on the stack, is held to the same
(`Heap.Scratch`).

The overhead of a sealed box is `Machine.sealBytes`. The theorems about the command line ask that it is at most
`SALT_MAX_MESSAGE_LEN`, which holds for libsodium's 48.

## Where the code and its documentation differ

The model follows the code.

- The parser also skips VT and FF (src/cli/parse.c:22-24), which section 2 of RFC 8259 does not list as whitespace.
- The comments at include/salt.h:41 and include/salt.h:83 give 32 bytes as the overhead of a sealed box.
- The interrupt flag is reset after the handlers are installed (src/main.c:102-114): a signal in between is lost.
- A bad option after `-h` or `-V` prints a second, empty `error:` line, and losing that line goes unnoticed
  (src/main.c:118-122). `CliRun.RefusalOutput` and the last case of `CliRun.RunCode` say so.
- src/cli/prepare.c:28 tests the size for 0, while src/salt.c:171-199 signals overflow with the largest word. Neither
  occurs in a run (`CliPrepare.SizeIsTrue`).
- The collector writes its edge file only when it meets an edge, and then reads it in any case: a closure without edges
  makes it fail (scripts/collect-ubuntu-deps.sh:139, 153-155). `DepClosure.Collect` says so.
- Its associative arrays are keyed by two names with a bar between them. With a bar in a name an edge or a role can be
  lost (`DepClosure.BarCanHideEdge`); `DepClosure.EdgesExact` and `DepClosure.Collect` say exactly when none is.
- The whole merge step, which looks up libsodium's reference in the document itself, can have an effect when it is
  repeated (`SbomMerge.DocumentMayNotRepeat`); `SbomMerge.DocumentRepeatsExactly` says when it has none.

## Model

| member | source | states |
|---|---|---|
| Bytes.TrimUnique | src/cli/parse.c:54-87 | the trimmed value is the only text that has no whitespace at either end and gives the original back when whitespace is put around it |
| Bytes.TrimIdempotent | src/cli/parse.c:54-87 | trimming twice is trimming once |
| Bytes.WhitespaceIs | src/cli/parse.c:22-24 | which six bytes are whitespace |
| Bytes.TrimWhitespaceInPlace | src/cli/parse.c:54-87 | the overlapping in-place trim leaves the trimmed text with a NUL inside the buffer, touches nothing past the given size, and puts a NUL in the last byte of a buffer that has none |
| Bytes.ShiftDown | src/cli/parse.c:74-79 | the overlapping move copies every byte before it is overwritten |
| JsonGrammar.LexDocExact | src/cli/parse.c:323-362 | a text is recognised as a document if and only if it is the text of that document in the grammar, so no text has two readings |
| JsonGrammar.ParseObjectExact | src/cli/parse.c:300-365 | the parse succeeds with a value exactly if the text is one object whose fields are `key` and `key_id`, each at most once, `key` present and not blank, all within their capacities; the value is the trimmed decoding, and unique |
| JsonGrammar.PlainSpelling | src/cli/parse.c:245-275 | a recognised field name has no spelling with escapes |
| JsonGrammar.FieldNamesAre | src/cli/parse.c:247-260 | the two names that are recognised |
| KeyParser.EscapeLookup | src/cli/parse.c:115-141 | the table search finds an escape exactly if it is one of the six, with its value |
| KeyParser.SkipWs | src/cli/parse.c:89-93 | the cursor skips exactly the leading whitespace and never passes the NUL |
| KeyParser.ParseStringToken | src/cli/parse.c:143-206 | accepts exactly the string literals of the grammar that leave room for a NUL, leaves the decoded value in the buffer and the cursor after the closing quote |
| KeyParser.ParseFieldName | src/cli/parse.c:229-243 | succeeds exactly on a name of the grammar that fits its buffer, followed by a colon |
| KeyParser.ParseKnownField | src/cli/parse.c:208-275 | succeeds exactly if the name is known, not seen before, and its value is a literal that fits |
| KeyParser.ParseFields | src/cli/parse.c:335-357 | the unbounded loop ends, with the fields of the grammar, or with an error exactly when the text has no acceptable reading |
| KeyParser.FinishKeyFields | src/cli/parse.c:277-298 | delivers the trimmed key and key id, or an error without a key id flag if the key is missing or blank |
| KeyParser.ParseKeyJsonObjectStrict | src/cli/parse.c:300-365 | the imperative parser succeeds if and only if the text is a key object by the grammar; buffers and flag then hold its unique value, and the flag is false on every failure |
| KeyParser.CopyBase64KeyInput | src/cli/parse.c:380-402 | a bare key is delivered trimmed, and refused exactly if it does not fit or is blank |
| KeyParser.ParseKey | src/cli/parse.c:404-426 | the format decides which of the two readings applies; the delivered value is the one of that reading |
| KeyParser.FormatDecides | src/cli/parse.c:374-378 | `json` always reads an object and `base64` never, whatever the text looks like; `auto` does exactly if a brace comes first |
| Utf8.AcceptorIsExact | src/cli/output.c:141-280 | a string is accepted if and only if it is the encoding of some sequence of Unicode scalar values in the shortest form |
| Utf8.EncodingIsUnique | src/cli/output.c:141-280 | that sequence is unique |
| Utf8.AcceptedIsEncoded | src/cli/output.c:141-237 | an accepted sequence of 1 to 4 bytes is the shortest encoding of a scalar value: no surrogate, nothing above U+10FFFF |
| Utf8.EncodedIsAccepted | src/cli/output.c:141-237 | every encoding is accepted with its exact length, whatever follows it |
| Utf8.IsValidUtf8 | src/cli/output.c:255-280 | the loop answers true if and only if the string encodes scalar values |
| JsonOutput.WriteJsonString | src/cli/output.c:282-327 | the stream gains the whole literal on success and a prefix of it on a failure at any byte |
| JsonOutput.EmitOutput | src/cli/output.c:329-370 | nothing is written if there is no document; otherwise it succeeds exactly if the stream was not in error, every single write gets through and the flush after them works, and the stream gains the document or a prefix of it |
| JsonOutput.FlushStream | src/cli/output.c:117-122 | a flush succeeds exactly if it works and the stream was not in error |
| JsonOutput.PiecesMakeDocument | src/cli/output.c:357-369 | the pieces that are written make up the document |
| JsonOutput.LineIs | src/cli/output.c:357-369 | the line, character by character outside the two strings |
| JsonRoundTrip.EscapeThenParse | src/cli/output.c:282-327 | the strict parser reads a written string back, stopping after its quote, if and only if the string has no control byte but LF, CR and TAB and is shorter than the buffer (src/cli/parse.c:143-206); it rejects every other one |
| JsonRoundTrip.StrictReadsAsFull | src/cli/parse.c:115-206 | the strict parser reads every string as a full decoder does, and of those a full decoder accepts it refuses exactly the ones with an escape `\b`, `\f` or `\u` |
| JsonRoundTrip.KeyObjectRoundTrip | src/cli/parse.c:300-365 | an object printed with the writer, in either field order and with any skipped whitespace, parses to the trimmed key and the trimmed key id |
| JsonRoundTrip.EscapeIsFaithful | src/cli/output.c:282-327 | a full decoder of JSON strings recovers every string exactly |
| JsonRoundTrip.EmissionIsFaithful | src/cli/output.c:357-369 | the emitted line determines both strings in it, so emission is injective |
| JsonRoundTrip.NoRawControl | src/cli/output.c:312-317 | no raw control byte appears between the quotes |
| JsonRoundTrip.EscapeKeepsUtf8 | src/cli/output.c:282-355 | the escaped text is UTF-8 if and only if the string is |
| Base64.DecodeExact | src/salt.c:137-169 | the decoder accepts exactly the encodings, padded or not, and inverts them: one text for each value |
| Base64.EncodedLength | src/salt.c:185-198 | the length of an encoding, as the size arithmetic has it |
| Base64.AlphabetIs | src/salt.c:139-140 | the characters of the original variant |
| Base64.GroupIsNumber | src/salt.c:303-304 | four characters are the 24 bits of three bytes, most significant first |
| SealSize.RequiredLenExact | src/salt.c:171-199 | the function answers with the largest word exactly if the true size does not fit, and with the true size otherwise, no step wrapping around; the sentinel is never a true size |
| SealSize.RequiredLenMonotone | src/salt.c:171-199 | the answer never gets smaller as the message gets longer |
| SealSize.TrueLenIsTextLen | src/salt.c:198 | the size is that of the encoded sealed message with its NUL |
| Seal.DecodeKeyExact | src/salt.c:137-169 | a text is accepted as a key if and only if it is one of the two spellings of 32 bytes, and it spells one key only |
| Seal.DecodePublicKey | src/salt.c:137-169 | the loop over the two variants decodes exactly the accepted texts, and leaves a wiped buffer when both fail |
| Seal.ValidateSealInputs | src/salt.c:83-103 | the arguments that are refused, and no others |
| Seal.ValidateOutputCapacity | src/salt.c:105-119 | the capacity is refused exactly if the true size does not fit |
| Seal.SecureRelease | src/salt.c:122-134 | the buffer is zero afterwards, locked or not and whether or not unlocking works |
| Seal.SealWithScratch | src/salt.c:218-336 | the single exit: for every outcome of the primitives the status is the one of the first that fails, and neither the key nor the ciphertext stays behind: each is given back once, and wiped |
| Seal.SealBase64Keylen | src/salt.c:218-336 | on success the output is the NUL-terminated text of the sealed message and the count is the required size minus one; on every other code the count is 0; the status is determined for every outcome |
| Seal.BoundedStrlen | src/salt.c:68-81 | the scan finds the length, or the bound for a longer string, needing no more readable bytes than the bound |
| Seal.LongKeysAlike | src/salt.c:149-151 | how much too long a key is makes no difference |
| Seal.SealBase64 | src/salt.c:338-347 | the C-string entry point has the outcome of the other one on the whole string, while scanning 45 bytes at most |
| Seal.SealWithPlaintextZeroingKeylen | src/salt.c:350-392 | the same outcome, and every message of accepted length is cleared on every code |
| Seal.SealWithPlaintextZeroing | src/salt.c:394-405 | the same for the C-string entry point |
| Signals.RunsRestoreDispositions | src/cli/signal.c:40-78 | after any sequence of runs, whichever installations fail, both dispositions are what they were |
| Signals.UnmanagedRunsTouchNothing | src/main.c:102-113 | runs that do not manage signals leave everything as it was |
| Signals.Process.EnsureSignalHandlers | src/cli/signal.c:40-67 | the dispositions and saved actions after an installation that may fail at each of its three calls |
| Signals.Process.RestoreSignalHandlers | src/cli/signal.c:69-78 | what has been saved is put back and forgotten |
| Signals.Process.CheckInterrupted | src/cli/signal.c:80-85 | the check fails exactly if the flag is set, which is exactly if a signal was caught since the reset (`Tracked`) |
| Signals.Process.ResetInterrupted | src/cli/signal.c:87-89 | the flag is clear, and a new period begins |
| Signals.CaughtByItsHandler | src/cli/signal.c:35-38 | a signal is caught exactly if its own disposition is the CLI's handler |
| CliState.Cleanup | src/cli/state.c:68-101 | all owned buffers are wiped and released, the three fixed ones wiped, every field reset; a second cleanup changes nothing |
| CliState.ReleaseOwned | src/cli/state.c:79-93 | the five buffers are released once each, zero over their whole length |
| CliState.State.ResolveEffectiveKeyId | src/cli/state.c:103-109 | which key id takes effect; it is kept if neither source gives one |
| CliState.State.constructor | src/cli/state.c:34-66 | the initial state owns nothing and its fixed buffers are zero |
| CliStream.Report | src/cli/stream.c:54-79 | a diagnostic that does not get out turns the status into an I/O error |
| CliInput.ProbeEnd | src/cli/input.c:95-119 | the byte looked at to detect oversized input is put back |
| CliInput.FillBuffer | src/cli/input.c:84-121 | a signal caught before the read returns is noticed, before any error or excess of the input is; an error of the stream is seen |
| CliInput.ReadStreamLimited | src/cli/input.c:34-125 | the whole stream if it is within the limit, with its NUL, in a new buffer; on every failure the buffer is wiped and released; the flag is looked at before anything else and once more when the read has returned |
| CliInput.CopyKey | src/cli/input.c:202-238 | the key text is copied and trimmed in a buffer of its own, or refused exactly if it is too long |
| CliInput.LoadKeyInput | src/cli/input.c:185-257 | on success the fixed buffers hold the ideal key of the run and no signal has been caught so far; every code is explained; no pointer dangles and nothing is owned twice |
| CliInput.LoadPlaintextFromArgv | src/cli/input.c:132-183 | the argument is copied into a buffer of its own |
| CliInput.LoadPlaintext | src/cli/input.c:259-294 | on success the state points at the ideal message, alive and owned, and no signal has been caught so far; an interrupt comes before the complaint about an empty plaintext |
| CliPrepare.SizeIsTrue | src/cli/prepare.c:26-32 | in a run the size is always the true one, never 0 and never the sentinel |
| CliPrepare.PrepareOutput | src/cli/prepare.c:20-74 | on success the output holds the text of the sealed message and no signal has been caught; "buffer too small" and "empty output" cannot happen |
| CliArgs.HandleOption | src/cli/args.c:43-110 | one option changes the settings as specified, or is refused and standard error gets the report on it |
| CliArgs.HandleOptions | src/cli/args.c:136-141 | the loop stops at the first refused option, keeping what came before it |
| CliArgs.WordsAre | src/cli/args.c:52-78 | the words for the formats, and that no others are accepted |
| CliArgs.CheckSettings | src/cli/args.c:150-197 | a request goes on exactly if it passes every check, and the state then says what the request says |
| CliArgs.ParseArguments | src/cli/args.c:112-198 | the verdict on the arguments and its code; standard output gets help or version, standard error exactly the report on a refusal, followed by the usage text where the code prints it |
| CliRun.HasValidArgvShape | src/main.c:37-51 | the shape of the arguments that is accepted |
| CliRun.Encrypt | src/main.c:126-139 | on success the output and the key id are the ideal ones and no signal was caught up to this point; otherwise the code is that of what went wrong first; and what was caught before the flag had to be looked at has been noticed (`NoticeBy`) |
| CliRun.Emit | src/main.c:141-148 | the document, a prefix of it with an I/O error, or nothing with an input error |
| CliRun.ServeRequest | src/main.c:126-148 | standard output is all or nothing by return code, the code is a function of what went wrong and of the input, and a signal before the check that follows sealing leaves the output untouched |
| CliRun.TakeArguments | src/main.c:116-124 | what help, version and refusals print and return, with the second, empty report whose loss goes unnoticed |
| CliRun.Stages | src/main.c:116-148 | all this from the arguments on |
| CliRun.Work | src/main.c:102-148 | the same with the installation of the handlers, which may fail, and the reset of the flag: `from` is that moment, it lies in this run, and nothing that arrived before it is noticed |
| CliRun.ArrivalsAreCaught | src/cli/signal.c:35-38 | with the handlers in place every signal that arrives is caught |
| CliRun.Finish | src/main.c:150-154 | the one exit restores the dispositions and gives back every buffer, wiped |
| CliRun.Run | src/main.c:89-163 | every run: no buffer is left, the dispositions are restored, standard output is complete, a prefix or untouched according to the code, standard error is told of failures only, a signal that arrives before the read of standard input returns, or before the last look at the flag when all else is well, gives the code of an interrupt, the code is a function of what went wrong and of the input; a request that succeeds had no signal between the reset and the check after sealing, and a run in which none arrives notices none and does not return the code of an interrupt, whatever an earlier run has left |
| CliRun.PiecesMakeOutput | src/main.c:141-142 | the pieces by which standard output succeeds or fails make up the output |
| CliRoutes.KeyRoutesAgree | src/cli/input.c:185-257 | the same text gives the same key on the command line and on standard input |
| CliRoutes.KeyOnArgvOrStdin | src/cli/input.c:185-200 | and the same standard output of the whole run, with any options before and after the last key option |
| CliRoutes.PlaintextOnArgvOrStdin | src/cli/input.c:259-278 | the same for the plaintext, with `-` or with no argument |
| CliRoutes.KeyRoutesSameCode | src/main.c:126-148 | and the same return code when nothing fails |
| CliRoutes.PlaintextRoutesSameCode | src/main.c:131-148 | the same for the plaintext |
| CliRoutes.KeyIdInOutput | src/cli/state.c:103-109 | a reader finds in the JSON output the sealed message and the key id of `-i`, or else the one of the key object |
| CliRoutes.TextOutput | src/cli/output.c:332-338 | the text output is the sealed message and a line feed |
| CliRoutes.AlwaysRoom | src/cli/parse.c:164-189 | at every character of every token, malformed or not, of a text within the limit the key buffer has room |
| CliRoutes.KeyBufferSuffices | src/cli/parse.c:380-387 | for a text within the limit no larger key buffer changes the outcome of a parse: "public key buffer too small" cannot be reached |
| CliRoutes.LimitsCompose | src/cli/input.c:202-247 | so in every run, by either route |
| DepClosure.KeyInjective | scripts/collect-ubuntu-deps.sh:133-137 | two pairs with the same key are the same pair, if the first names have no bar |
| DepClosure.NormalizedIsEnd | scripts/collect-ubuntu-deps.sh:77-81 | a normalised name is what follows the last colon |
| DepClosure.SpecExact | scripts/collect-ubuntu-deps.sh:107-111 | a specification gives a package and a role exactly if it is written as the two with a colon between, and neither is empty |
| DepClosure.SpecRefused | scripts/collect-ubuntu-deps.sh:107-111 | the specifications that are refused |
| DepClosure.DefaultRootsAre | scripts/collect-ubuntu-deps.sh:53-61 | the roots and roles when none are given |
| DepClosure.ReadRoots | scripts/collect-ubuntu-deps.sh:107-122 | fails exactly on a specification that is bad; otherwise every root is queued once, in the order of its first occurrence, and of the roles the first for every key is kept, in order |
| DepClosure.NothingLostExactly | scripts/collect-ubuntu-deps.sh:133-137 | keeping the first pair of every key loses nothing if and only if the keys tell the pairs apart |
| DepClosure.BarCanHideEdge | scripts/collect-ubuntu-deps.sh:133-137 | roots and dependencies, with a bar in a name, whose keys do not tell the edges apart, so that one is lost |
| DepClosure.Expand | scripts/collect-ubuntu-deps.sh:131-145 | one package adds, in order, the edges with new keys and queues the dependencies not yet met, and nothing else |
| DepClosure.Worklist | scripts/collect-ubuntu-deps.sh:124-146 | ends, with exactly the packages reachable from the roots, each once, in the order in which first-in first-out meets them; the edges are the first of every key among those met; the guard at line 127 never skips |
| DepClosure.EdgesExact | scripts/collect-ubuntu-deps.sh:131-146 | the edges are edges of the closure, each once, and all of them if and only if their keys tell them apart |
| DepClosure.NoBarsNothingLost | scripts/collect-ubuntu-deps.sh:107-146 | which they do when no package name has a bar |
| DepClosure.ItemSplits | scripts/collect-ubuntu-deps.sh:148-151 | splitting an item gives back the package and the role it was made of |
| DepClosure.Collect | scripts/collect-ubuntu-deps.sh:53-178 | it fails exactly on a bad root or a closure without edges; otherwise the document, sorted, describes the closure: packages with version and roles, edges, and the roots with their repetitions; no edge and no role is lost if and only if the keys tell them apart |
| DepClosure.DescribedRoots | scripts/collect-ubuntu-deps.sh:107-178 | roots written as specifications come out as the roots and roles of the document |
| DepClosure.SameDocument | scripts/collect-ubuntu-deps.sh:8-178 | two documents for the same roots and the same dependencies, in whatever order, are equal if nothing is lost in them |
| StringOrder.OrderedIsUnique | scripts/collect-ubuntu-deps.sh:157-171 | a sorted list of pairs is determined by the pairs and how often each occurs |
| StringOrder.SortPairsIs | scripts/collect-ubuntu-deps.sh:157-171 | the lists of pairs are sorted and hold the same pairs, as often |
| StringOrder.CanonicalIsUnique | scripts/add-ubuntu-provenance-to-sbom.sh:93-99 | a list that is sorted and free of repetition is determined by what is in it |
| StringOrder.BeforeIs | scripts/collect-ubuntu-deps.sh:157-171 | strings are ordered by the first character in which they differ, or by being a beginning |
| StringOrder.UniqueSortIs | scripts/add-ubuntu-provenance-to-sbom.sh:93-99 | the list of dependencies is sorted, free of repetition, and has the same elements |
| SbomMerge.CdxRefTellsNamesApart | scripts/add-ubuntu-provenance-to-sbom.sh:88-92 | equal references mean equal names, if names have no at sign |
| SbomMerge.FoldSplits | scripts/add-ubuntu-provenance-to-sbom.sh:103-121 | the old components that no package replaces stay, in order, and after them comes what the packages alone give |
| SbomMerge.JoinSplits | scripts/add-ubuntu-provenance-to-sbom.sh:118 | the roles are joined by commas |
| SbomMerge.ComponentsIdempotent | scripts/add-ubuntu-provenance-to-sbom.sh:103-121 | merging the same packages twice gives the same components |
| SbomMerge.AllPackagesKept | scripts/add-ubuntu-provenance-to-sbom.sh:103-121 | packages of different names all get their component if and only if their references differ |
| SbomMerge.AtSignCanCollide | scripts/add-ubuntu-provenance-to-sbom.sh:88-92 | an input with an at sign where a package loses its component |
| SbomMerge.UpsertAddsEdges | scripts/add-ubuntu-provenance-to-sbom.sh:93-99 | one upsert adds exactly the given edges |
| SbomMerge.UpsertAllIsUnion | scripts/add-ubuntu-provenance-to-sbom.sh:122-130 | a fold of upserts adds exactly its edges |
| SbomMerge.UpsertAllKeepsEntries | scripts/add-ubuntu-provenance-to-sbom.sh:93-99 | the old entries keep their place and their other members, and all of themselves if they gain nothing |
| SbomMerge.MergeIsUnion | scripts/add-ubuntu-provenance-to-sbom.sh:101-130 | after the merge the edges are exactly the old ones and the ones the document asks for |
| SbomMerge.MergeIsIdempotent | scripts/add-ubuntu-provenance-to-sbom.sh:101-130 | merging the same input twice, with the same two references, gives the same document |
| SbomMerge.SodiumRefAfterFold | scripts/add-ubuntu-provenance-to-sbom.sh:79-121 | which component counts as libsodium after the fold: the first old one that no package replaces, else a package of that name |
| SbomMerge.SettledExactly | scripts/add-ubuntu-provenance-to-sbom.sh:93-99 | whether an edge is in its place after the upserts, told from the document before them |
| SbomMerge.DocumentRepeatsExactly | scripts/add-ubuntu-provenance-to-sbom.sh:78-130 | exactly when the whole step, which looks the references up again, can be repeated without effect, told from the input |
| SbomMerge.DocumentIsIdempotent | scripts/add-ubuntu-provenance-to-sbom.sh:78-130 | in particular whenever no package takes over libsodium's own reference |
| SbomMerge.DocumentMayNotRepeat | scripts/add-ubuntu-provenance-to-sbom.sh:78-130 | an input where repeating it does have an effect |
| SbomMerge.AddedReferencesResolve | scripts/add-ubuntu-provenance-to-sbom.sh:122-130 | on the collector's output, whatever the names, every added reference is that of a component present afterwards, apart from salt's own |
| SbomMerge.ReferenceMeansPackage | scripts/add-ubuntu-provenance-to-sbom.sh:103-121 | with no at sign in the names, the components with a package's reference are that package's component and no other |
| SbomMerge.DocumentAccepted | scripts/add-ubuntu-provenance-to-sbom.sh:78-102 | the documents that are accepted: with a reference for salt, a component list, a first component named libsodium with a reference, and a dependency list if any |
| SbomMerge.CollectedComponent | scripts/add-ubuntu-provenance-to-sbom.sh:103-121 | on the collector's output, with no at sign in the names: a reachable package has a component with its package URL, name, version and roles, `excluded` exactly if it is a build tool and `required` otherwise |
| SbomMerge.CollectedEdges | scripts/add-ubuntu-provenance-to-sbom.sh:122-130 | on the collector's output the edges added are those of the closure, from salt to its build tools, and from libsodium to its runtime and build packages |

## Left out

- libsodium itself: sealed boxes are an uninterpreted function, the base64 loops are replaced by their specification, locking memory has no effect on contents (the calls at src/cli/state.c:62-64 are not made), and releasing zeroes the region whether or not unlocking works.
- The C library: `getopt_long` is a sequence of option results, formatted messages are opaque texts that are not empty, and streams are sinks and sources without buffering, so a failing flush loses nothing that a write got through.
- The wording of diagnostics, help and version, which diagnostic a request that fails prints (for refused arguments it is told), and what is in the `error[256]` scratch buffer before it is wiped; `texts` gives each line.
- CliInput.LoadPlaintextFromArgv: does not clear the argument itself, as src/cli/input.c:177-179 does in the program, because arguments are values here.
- `main()` with its hardening, and `sodium_stackzero`.
- Null pointers for the out-parameters `has_key_id`, `output_written`, `json` and `cursor`, and for the state.
- The guards against overflow at src/cli/input.c:47-49 and 145-149, which compare constants or bounded lengths with the largest word.
- Signals arrive between the operations of a run and not inside one; a signal during a blocking read counts as arriving just before or after it.
- Restoring a disposition, and putting back SIGINT when SIGTERM cannot be installed, is taken to succeed; the code does not look at the result either.
- CliRun.Run: one stream given for both standard output and standard error, which src/main.c:165-168 would accept; the two are different streams here.
- Seal.SealBase64Keylen: does not say what the output buffer holds after a failed encoding.
- DepClosure.Worklist: asks for a finite set of names that is closed under the relation, without which it need not end.
- DepClosure.Collect: the files in between, and so names and roles that hold a tab or a line break.
- SbomMerge.MergeDocument: values are of the types the CycloneDX schema gives them, and members of a component or of an entry that the filter does not look at are one opaque value; versions are strings, as the collector writes them.
- StringOrder.CanonicalIsUnique: strings are compared by code point, as jq does for valid text.
- Shell argument parsing, path checks and file replacement in the two scripts.
- Package queries: `pkg_depends` and `pkg_version` are given functions of the name.
- The benchmarks, fuzzers, tests and test hooks, examples, packaging, and scripts/add-libsodium-to-sbom.sh.

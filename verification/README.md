# Proofs about pkcs11-go

A Dafny model of the parts of pkcs11-go that hold state, loops and arithmetic:
the boundary where Go memory, C memory and an untrusted PKCS #11 module meet,
the locking protocols around it, and the generator that turns the C header into
Go constants. `dafny verify dfyconfig.toml` checks all of it.

## How it is organised

**The native boundary.** `CHeap` is the C heap as a class: live blocks, the size
every address was allocated with, how often it was given back, and whether a
block was freed with bytes in it. The preconditions of its methods are the rules
of C, so a method that verifies never writes or reads past a block and never
frees twice. `OutOp` is the two-pass output protocol of section 5.2 of OASIS
PKCS #11 v3.2, `GetAttributes` the per-attribute protocol of section 5.7,
`Marshal`, `Mechanism`, `Gcm` and `Encapsulate` the buffers handed to the module.
The module is an arbitrary function from the number of a call and its request to
a reply, recorded call by call: what the methods promise holds for each of them.
What a module does that keeps to the standard is a predicate on the recorded
calls (`OutOpHonest`, `GetAttributesHonest`); the functional theorems are about
runs that satisfy it, and about the calls of a module whose every reaction does.
`OutOpBytes` says which bytes come back from a module that does not.
`GcmMechanism` puts a GCM parameter under a mechanism, and `Structs` says where a
native reader finds each field of a C structure.

**The protocols.** `Lifecycle` is the state machine of a `Ctx` under any number of
threads, with one step for each atomic action; `LifecycleProgress` is about
Finalize and deadlock, `LifecycleDestroy` about Destroy and the waits it waits for;
`GcmRuns` interleaves the locked bodies of `GCMParams`, which the methods of
class `Gcm.GCMParams` are proved against; `SessionTrace` interleaves methods under
the session mutex and `SessionMethods` proves that the method bodies make exactly
the calls of such a block.

**The generator.** `Text` and `TextFields` are the Go string functions it uses,
`Translation` the rewriting of a macro value, with a scanner in place of the
regular expression, and `ReplaceAll` the proof that the two are the same.
`Numbers` and `Expressions` are the numeric reading of C literals,
`strconv.ParseUint` and the generator's own evaluation of a translated value;
`GoConst` is a lexer and parser of Go constant expressions that owes nothing to
the generator. `Meaning` is the grammar of the header's values and their C
meaning, `Preserved`, `AllOnesForm` and `GoMeaning` the proof that translation
keeps it in both readings, `Idempotence` that it does nothing the second time.
`Printing` and `Characters` tie the readers of numerals and the character classes to
written-out digits and letters. `Evaluation`, `Table` and
`Header` follow the define list to the attribute name table, and `HeaderLines` is
single lines of the header.

## What the proofs found

- `outOp` may return memory the module never wrote. It allocates without zeroing
  and copies as many bytes as the module reports, so whatever the module reports
  beyond what it wrote, up to the whole allocation, is what the block held before:
  if and only if the reported length exceeds the written one
  (`OutOpBytes.ResultBytes`, `OutOpBytes.UnwrittenIff`; a call that returns two
  such bytes is `OutOpBytes.UnwrittenReturned`). `EncapsulateKey` does the same
  with its ciphertext (`Encapsulate.UnwrittenCiphertext`).
- `outOp` leaves the operation pending on the token when it gives up at its own
  limits (`OutOpHonest.RunsOperationOnce`, with a run in `OutOpBytes.LeftPending`).
- `EncapsulateKey` succeeds without a key when the sizing pass reports length
  zero: both calls carry a NULL buffer, and the caller gets handle 0.
  `Encapsulate.EncapsulateKey` gives the exact condition and
  `Encapsulate.SuccessWithoutKey` a run.
- A `Destroy` that drains never ends if and only if the library is still
  initialised and a blocking wait is parked or about to park, without a slot event
  for it (`LifecycleDestroy.DestroyEndsIff`; a run that gets there is
  `LifecycleDestroy.HeldUpReachable`). It is the only deadlock of the `Ctx`
  (`LifecycleProgress.OnlyDestroyBeforeFinalizeBlocks`).
- Attribute values of 2^31 bytes and more are cut or lost in the conversion to a
  C int, never over-read (`GetAttributesHonest.LookupIsValue`, with two such values
  in `GetAttributesHonest.LargeValuesLost`); the comment at
  cryptoki/object.go:223-227 says that a length beyond a C int is not copied,
  while the code copies as much as its low 32 bits say when they are positive.
- The translation keeps the value of every form of the header's grammar but one:
  `(~0U)` is a 32-bit value in C where a CK_ULONG is wider, and all ones in Go
  (`GoMeaning.MeaningPreserved`, `GoMeaning.UnsignedComplementDiffers`). The header
  does not use that form.
- Where `build` panics because a `GCMParams` was released, the native mechanism
  that `cMechanism` allocated before is not given back (`GcmMechanism.Build`).

## Assumptions

- Allocation succeeds, and an address is not handed out twice.
- The module writes only inside the capacity it was given. In
  `C_GetAttributeValue` it changes lengths and value bytes, not types and
  pointers; it does not change the lengths in a CK_GCM_PARAMS.
- Each cleanup is called once.
- A successful `C_Finalize` wakes every parked wait, and a wait entered later
  returns at once. In the life cycle a wait may be woken by a slot event at any
  time.
- Sizes are those of LP64: a CK_ATTRIBUTE has 24 bytes, a CK_GCM_PARAMS 48. Where
  the words of a structure are read back, addresses fit a word.

## Model

| member | source | states |
|---|---|---|
| CHeap.Heap.CBytes | cryptoki/marshal.go:36-41 | An empty slice is NULL and 0 and allocates nothing; any other is a new block holding exactly its bytes. |
| CHeap.Heap.CInput | cryptoki/marshal.go:54-59 | The address is valid even for an empty slice, which gets a block of one byte and length 0. |
| CHeap.Heap.ZFree | cryptoki/marshal.go:64-72 | The block is given back, once, and with zeros in it when the size passed is the size it was allocated with; NULL is a no-op. |
| OutOp.Output | cryptoki/marshal.go:249-312 | For every module: at most one sizing and 8 data calls, each offering the length reported before it in a fresh block and answered by the module; no block above 64 MiB; every block freed once, scrubbed at its whole size; and the result in terms of the last reply: its code, its length beyond 64 MiB, its length beyond the allocation, eight passes too small, or that many bytes. |
| OutOp.RunIsExplained | cryptoki/marshal.go:249-312 | Each error is exactly the one the last reply calls for, in numbers: a code other than 0, and in a data pass other than 0x150; a length above 67108864; a length above the last allocation; 0x150 on the ninth call. |
| OutOp.SizingRefused | cryptoki/marshal.go:251-253 | A module that refuses the sizing pass is called once, nothing is allocated, and its code comes back. |
| OutOp.DataPasses | cryptoki/marshal.go:254-311 | The loop goes on exactly as long as it is told the buffer is too small and passes are left, and gives back each block before the next. |
| OutOp.Encrypt | cryptoki/crypt.go:27-38 | The input stays live over the run of outOp, is scrubbed when it has bytes, and is given back on every path. |
| OutOpHonest.RoomEndsRun | cryptoki/marshal.go:272-309 | With a module that keeps to section 5.2, a data pass with enough room is the last one and gives what the operation gives, its output or its error, also when sizing reported zero. |
| OutOpHonest.RunsOperationOnce | cryptoki/marshal.go:249-312 | With such a module the result is the operation's if and only if one of the first 8 announced lengths suffices and none before exceeds 64 MiB, which is exactly when the operation was carried out; any success is the operation's output. |
| OutOpHonest.FailureNeverOk | cryptoki/marshal.go:259-267 | An operation that fails in its data pass is never reported as a success, and after a sizing pass of zero bytes its error is what comes back. |
| OutOpHonest.OutputOfHonest | cryptoki/marshal.go:249-312 | Called on a module whose every reaction keeps to the standard, outOp returns the operation's result if and only if enough is announced in time. |
| OutOpHonest.TwoDataPassesSuffice | cryptoki/marshal.go:254-295 | If a too small buffer is answered with a sufficient length, at most two data passes are made, and only the limit can make it fail. |
| OutOpBytes.ResultBytes | cryptoki/marshal.go:267-309 | For every module and successful run, byte by byte: what the module wrote, and beyond that what the block held; the length is the reported one and fits the allocation, and exceeds the advertised room only as one byte for a room of zero. |
| OutOpBytes.UnwrittenIff | cryptoki/marshal.go:299-309 | The result depends on what the memory held before if and only if the module reported more bytes than it wrote. |
| OutOpBytes.UnwrittenReturned | cryptoki/marshal.go:276-309 | A call that returns two bytes the module never wrote. |
| OutOpBytes.LeftPending | cryptoki/marshal.go:254-311 | A call on a module that keeps to the standard that fails and leaves the operation pending. |
| OutOpHonest.ExhaustedOnlyAtLimit | cryptoki/marshal.go:254-311 | The retry error comes only after 8 data passes that were all told the buffer is too small, with lengths within the limit. |
| ULongBytes.DecodeEncoded | cryptoki/marshal.go:93-135 | For every width, encoding refuses exactly the values that do not fit, and decoding an encoded value gives it back. |
| ULongBytes.EncodeDecoded | cryptoki/marshal.go:93-135 | Encoding what a full-width byte string decodes to gives the byte string back. |
| ULongBytes.DecodeAnyLength | cryptoki/marshal.go:127-135 | Any byte string decodes to the little-endian value of its first min(length, width) bytes, which always fits. |
| ULongBytes.LittleEndian | cryptoki/marshal.go:93-135 | The low byte comes first: 0x010203 in four bytes is 3, 2, 1, 0, and shorter and longer bytes read as that. |
| Marshal.FitsIsExact | cryptoki/marshal.go:231-236 | The guard admits n exactly when n elements are at most 64 MiB, so the product fits a 32-bit size_t. |
| Marshal.Attributes | cryptoki/marshal.go:190-225 | The native array reads back as the template, empty values as NULL and 0; the blocks recorded for the cleanup are exactly those added to the heap; an oversized template allocates nothing. |
| Marshal.ReleaseAll | cryptoki/marshal.go:219-222 | Every recorded buffer is scrubbed at its recorded size and given back once, and nothing else changes. |
| Marshal.FreeAttributes | cryptoki/marshal.go:219-224 | The heap is as it was before the template, and at most the array of descriptors is freed unscrubbed. |
| CHeap.CIntNeverExceeds | cryptoki/object.go:230-232 | The C int of a length is never more than the length, and equals it exactly below 2^31. |
| GetAttributes.AllocateBuffers | cryptoki/object.go:190-203 | Each readable non-empty entry gets a zeroed buffer of its length, every other none, and the recorded sizes account for all that was added to the heap. |
| GetAttributes.SecondPass | cryptoki/object.go:190-238 | Whatever the second call stores, what is copied out is what the two replies determine, and every buffer is scrubbed at its recorded size and given back, on success and refusal. |
| GetAttributes.GetAttributeValue | cryptoki/object.go:129-238 | For every module: no call for no types or for an array attribute, else at most two calls with the types in request order, answered by the module; result determined by these calls; the heap restored and no value freed unscrubbed on every return. |
| GetAttributes.RunIsExplained | cryptoki/object.go:133-238 | The result in terms of the request and the replies, in numbers: an array attribute is 0x62A, 0x62B or one with bit 30, and the first one is named; a refusal is the first code that is not 0, 0x11 or 0x12; otherwise every value byte by byte, and the second code. |
| GetAttributes.FirstArrayIs | cryptoki/object.go:148-152 | The attribute named by the error is the first array attribute of the request. |
| GetAttributesHonest.EqualsLookup | cryptoki/object.go:129-238 | For an object that stays the same the result is a lookup of every type in order, and the error is nil exactly when all can be read. |
| GetAttributesHonest.ReadHonest | cryptoki/object.go:129-238 | Called on a token whose every reaction keeps to section 5.7 over one object, it returns that lookup, or the error for the first array attribute. |
| GetAttributesHonest.StandardRun | cryptoki/object.go:163-176 | A token that answers 0x11 or 0x12 where an attribute is missing has its object read, with that code beside the values. |
| GetAttributesHonest.LabelOfSecretKey | cryptoki/object.go:163-237 | The label and the modulus of a key without one, from a token that answers 0x12: the label, nil, and 0x12. |
| GetAttributesHonest.LookupIsValue | cryptoki/object.go:223-234 | What a lookup gives is the stored value if and only if that is shorter than 2^31 bytes. |
| GetAttributesHonest.LargeValuesLost | cryptoki/object.go:223-234 | A value of 2^31 bytes is read as nothing, and one of 2^32 + 5 bytes as five. |
| GetAttributesHonest.NeverBeyondAllocation | cryptoki/object.go:190-237 | For every token that changes lengths between the passes: one entry per type in order, no value longer than its allocation or its reported length, and shorter than the latter only from 2^32 on. |
| Mechanism.CheckMechanismUse | cryptoki/policy.go:49-76 | A mechanism passes if and only if the policy allows it and every digest it runs on; the mechanism named by the error is one the policy rejects, and the mechanism itself when that is rejected. |
| Mechanism.PolicyDecides | cryptoki/policy.go:49-57 | Without a policy everything is accepted; with one, a mechanism that runs on no digest is accepted as the policy says. |
| Mechanism.Build | cryptoki/marshal.go:155-183 | It succeeds exactly when the policy accepts; the native mechanism then points to the raw bytes or the structure, with its length, and its blocks are exactly what was added; a rejection allocates nothing. |
| Mechanism.BuildParams | cryptoki/params.go:207-303 | The structure is in memory, 40, 24 or 40 bytes of it, with every field set, each pointer to a block of its own that holds the data and each length to that of the data. |
| Mechanism.CarriedIsRead | cryptoki/params.go:207-303 | A native reader of the mechanism and its structure finds each field in its word, in the order of the C declarations. |
| Structs.FieldAt | cryptoki/params.go:207-303 | The eight bytes of a field decode to it, wherever it stands in the structure. |
| Mechanism.FreeMechanism | cryptoki/marshal.go:155-183 | The heap is as before the mechanism, each block given back once, with the raw parameter or shared data scrubbed first. |
| Encapsulate.DataPass | cryptoki/v32.go:53-87 | The ciphertext has the reported length, never more than the allocation: byte by byte what the module wrote, and beyond that what the block held; a successful call with an overlong result destroys the key it made. |
| Encapsulate.EncapsulateKey | cryptoki/v32.go:27-88 | Every error leaves the keys as they were and every path gives back all native memory; the key set is kept, that is unchanged on error and larger by the returned key on success, if and only if the call failed or the sizing length was not zero. |
| Encapsulate.AnswersExplained | cryptoki/v32.go:41-87 | The result in terms of the two replies, in numbers: the code of the pass that was refused, a length above 67108864, a length above the allocation, or the reported number of bytes. |
| Encapsulate.WholeCiphertext | cryptoki/v32.go:41-87 | A token that reports a length from 1 to 67108864 and writes a ciphertext that fits: exactly these bytes, and one new key. |
| Encapsulate.SuccessWithoutKey | cryptoki/v32.go:41-87 | A run in which the call succeeds with handle 0 and no key exists. |
| Encapsulate.UnwrittenCiphertext | cryptoki/v32.go:53-87 | A run that returns two bytes the module never wrote as the ciphertext. |
| Lifecycle.InvStep | cryptoki/binding.go:81-106 | Every step of every thread keeps the invariant: reader count, writer exclusivity and waiter count are the numbers of threads at the matching positions, and a thread that may execute native code has a loaded library. |
| Lifecycle.OtherStep | cryptoki/slot.go:290-306 | No step of another thread, with the lock excluded and the waiter counted, makes a thread's position wrong; a successful finalize wakes it. |
| Lifecycle.NeverUnloadedUnderUser | cryptoki/binding.go:94-106 | In every reachable state of every interleaving of calls, waits, Initialize, Finalize and Destroy, a thread that holds a module pointer it may still execute in has the library loaded. |
| LifecycleProgress.CallEnters | cryptoki/binding.go:81-89 | From every state without a writer, the steps of one thread take an ordinary call of a loaded Ctx into the native function with a read lock, and out again. |
| LifecycleProgress.CallOfDestroyed | cryptoki/binding.go:81-89 | After Destroy the call takes the lock, finds no module and lets go. |
| LifecycleProgress.NativeAnswers | cryptoki/lifecycle.go:27-54 | A failed C_Initialize or C_Finalize leaves the library as it was and wakes nobody; a successful one initialises, or finalises and wakes every wait. |
| LifecycleProgress.HolderStep | cryptoki/binding.go:81-89 | A thread that holds the lock can always step and comes closer to letting it go, whatever the waits do. |
| LifecycleProgress.FinalizeNeverHeldUp | cryptoki/lifecycle.go:44-54 | From every state with no thread inside Destroy, whatever calls and waits are in progress: steps of lock holders alone, without a new operation, slot event or step of a parked wait, free the lock for a waiting Finalize, which then runs to its end alone and leaves no wait parked. |
| LifecycleProgress.OnlyDestroyBeforeFinalizeBlocks | cryptoki/binding.go:94-106 | If nothing can advance, every thread is idle or parked in a wait, or a Destroy drains while a wait is parked in an initialised library. |
| LifecycleDestroy.HeldUpStays | cryptoki/binding.go:98-105 | A Destroy that drains an initialised library with a blocking wait that is parked or about to park stays there, and the wait too, over every run that brings the wait no slot event. |
| LifecycleDestroy.DestroyEndsIff | cryptoki/binding.go:98-105 | A draining Destroy unloads in some run without slot events if and only if the library is finalised or no wait is parked or about to park. |
| LifecycleDestroy.HeldUpReachable | cryptoki/binding.go:91-106 | A run from a freshly loaded Ctx to a Destroy that never ends. |
| LifecycleDestroy.DrainStep | cryptoki/binding.go:98-105 | While Destroy drains and is not held up, no waiter registers and nothing comes to hold it up; each step of a waiter lowers the measure by one and no other step changes it. |
| LifecycleDestroy.DrainNeverStalls | cryptoki/slot.go:290-306 | Then some waiter can take a step, or Destroy can unload. |
| LifecycleDestroy.DrainIsBounded | cryptoki/binding.go:98-105 | Over every run the waiters take at most the steps the measure counts, and the unload is possible exactly when they have taken them all. |
| Gcm.GCMParams.constructor | cryptoki/params.go:76-90 | The object owns exactly the blocks it added to the heap, with the IV, the additional data and the 48 bytes of the structure in them. |
| Gcm.NewIsRead | cryptoki/params.go:83-88 | A native reader finds IV, its length, its length in bits, additional data, its length and the tag length in the six words. |
| Gcm.GCMParams.HsmIV | cryptoki/params.go:98-116 | The IV buffer is zeroed and of the requested length. |
| Gcm.GCMParams.BuildLocked | cryptoki/params.go:121-129 | A released object is refused and left alone, which is the panic; any other has one more outstanding build. |
| GcmMechanism.Build | cryptoki/marshal.go:155-174 | The policy decides over the mechanism alone; then the mechanism points to the object's block with one more build outstanding; where the object was released, the panic leaves the mechanism allocated. |
| GcmMechanism.Use | cryptoki/marshal.go:155-174 | Building and giving back leaves object and heap as they were, and releases the object's blocks exactly when a release was pending and no other build outstanding. |
| Gcm.GCMParams.Cleanup | cryptoki/params.go:131-136 | The count goes down by one, and the blocks are given back, IV and AAD scrubbed, exactly when it reaches zero with a release pending. |
| Gcm.GCMParams.Free | cryptoki/params.go:156-167 | The release happens now without outstanding builds, and is left pending with them; a released object is left alone. |
| Gcm.GCMParams.FreeLockedBlocks | cryptoki/params.go:170-183 | The three blocks leave the heap, only the parameter block unscrubbed, and the fields say released. |
| Gcm.GCMParams.IV | cryptoki/params.go:141-148 | Nothing after the release, else a prefix of the bytes now in the IV buffer, which is all of them exactly below 2^31 bytes; the panic is for lengths whose C int is negative, and only those. |
| GcmRuns.InvStep | cryptoki/params.go:121-183 | Every step of build, pointer read, cleanup, Free and IV keeps the invariant that ties the count to the outstanding builds and the blocks to the pending release. |
| GcmRuns.ReleasedExactlyWhenDue | cryptoki/params.go:121-183 | Over every interleaving each block was given back once if a release was requested and no build is outstanding, and not at all and live otherwise. |
| GcmRuns.PointerStaysValid | cryptoki/params.go:121-137 | From the unlock of a build to its own cleanup all blocks are live, and the pointer it read without the lock is the object's. |
| GcmRuns.LastCleanupReleases | cryptoki/params.go:131-167 | The last cleanup after a request releases in that step; a Free without builds does at once; no step releases anything twice. |
| SessionTrace.InvStep | p11/session.go:34-39 | Every step of every thread keeps the trace chained method by method, quiet after a close, and in the hands of the mutex owner. |
| SessionTrace.NeverSplit | p11/key.go:42-65 | In every interleaving an operation directly follows its own successful init by the same thread, and a find sequence is not split. |
| SessionTrace.AlwaysGoesOn | p11/key.go:42-65 | In every reachable trace a successful init is followed by its own operation, an opened search by a find call, a find call by the next one or the final one as it answered, each by the same thread, or that thread holds the mutex. |
| SessionTrace.NothingAfterClose | p11/session.go:105-113 | No guarded call, and no second CloseSession, follows a CloseSession. |
| SessionTrace.TraceIsBlocks | p11/key.go:42-65 | Every trace is a concatenation of whole method blocks and the calls so far of the method that holds the mutex. |
| SessionMethods.Session.InitThenOperate | p11/key.go:42-52 | On an open session exactly a failed init, or a successful init and its own operation; success means both were made and succeeded; nothing is called on a closed session. |
| SessionMethods.Session.Close | p11/session.go:105-113 | On an open session exactly one CloseSession, whose answer comes back; the session is closed afterwards even when it fails, and a second close makes no call. |
| SessionMethods.Session.FindObjects | p11/session.go:172-197 | Exactly the matches in cursor order when every call before the final one succeeded, and nothing otherwise; the final call is the last one on every path after a successful init, and there is none otherwise. |
| SessionMethods.Session.Batches | p11/session.go:179-191 | The loop ends by the measure of the handles left, with exactly the matches in order, or with nothing when a call failed; the search is still open. |
| SessionMethods.Session.Collect | p11/session.go:179-197 | Whatever the loop met, the search is closed by one final call; its own failure is reported with the handles found. |
| SessionMethods.Session.FindObject | p11/session.go:201-214 | A handle comes back exactly when one object matches, and it is that object's; otherwise the number of matches. |
| SessionMethods.Ctx.FindObjects | cryptoki/object.go:282-302 | A batch is the next handles of the search, at most the limit, and empty exactly at its end; a limit below one makes no call. |
| Text.SplitJoined | cmd/genconst/main.go:176-179 | Joining parts with padded bars and splitting again gives the parts back up to white space. |
| Text.PadBarsJoins | cmd/genconst/main.go:177 | Replacing every bar is splitting at the bars and joining with padded ones. |
| TextFields.NormalOfJoined | cmd/genconst/main.go:178 | Normalising the white space of joined parts normalises each part. |
| TextFields.FieldsSqueezed | cmd/genconst/main.go:185-188 | Joining the fields of a text is removing its white space. |
| Translation.MatchIsWholeWord | cmd/genconst/main.go:43 | Every match of the suffix expression is one whole word, and its group the word the scanner leaves. |
| Translation.ChangedWordIsMatch | cmd/genconst/main.go:43 | Every whole word the scanner changes is a match of the expression. |
| ReplaceAll.StripReplacesAll | cmd/genconst/main.go:174 | The scanner gives the replacement of every match of the expression by its group, from left to right, whichever match is taken where several start. |
| ReplaceAll.IdentifierKeptInText | cmd/genconst/main.go:41-43 | Wherever an identifier stands in a text it is kept, and the text on both sides is stripped as if it stood alone. |
| Translation.StripConcat | cmd/genconst/main.go:174 | Stripping acts separately on both sides of every character that is no word character, and keeps that character. |
| Characters.Classes | cmd/genconst/main.go:43 | The digits, hexadecimal digits and suffix letters of the expression, character by character. |
| Characters.WordClass | cmd/genconst/main.go:43 | A word character is a letter, a digit or an underscore. |
| Characters.Identifiers | cmd/genconst/main.go:344-350 | A bare macro name is a letter or underscore followed by letters, digits and underscores. |
| Characters.Prefixes | cmd/genconst/main.go:272-274 | An attribute is a name that starts with CKA_. |
| Numbers.GoReadsLiteral | cmd/genconst/main.go:330-331 | Of the texts the suffix is stripped from, ParseUint with base 0 reads exactly the C literals of 64 bits, with their C value. |
| Printing.HexPrinted | cmd/genconst/main.go:330-331 | A number printed with the digits 0 to f, in either case and with leading zeros, is read back by ParseUint, by C and by Go. |
| Printing.OctalPrinted | cmd/genconst/main.go:330-331 | The same in octal after a zero. |
| Printing.DecimalPrinted | cmd/genconst/main.go:330-331 | The same in decimal. |
| Printing.RefusedForms | cmd/genconst/main.go:330-331 | ParseUint refuses two underscores in a row and one at either end. |
| Numbers.IdentifierNeverParses | cmd/genconst/main.go:330-335 | No macro name is read as a number, underscores or not. |
| Expressions.EvalExpr | cmd/genconst/main.go:322-341 | The loop computes the or of the values of all terms, or nothing when one term has none. |
| Expressions.EvalTermsIsUnion | cmd/genconst/main.go:322-341 | There is a value exactly when every term has one, and each of its bits is set exactly when it is set in some term. |
| Expressions.EvalTermsFit | cmd/genconst/main.go:322-341 | With known values of 64 bits the result has 64 bits, so no word wraps. |
| Preserved.TidiedText | cmd/genconst/main.go:173-180 | The exact text a parenthesised or becomes: the terms without suffixes in order, one space on each side of a bar, one where white space stood at a parenthesis. |
| HeaderLines.WrapTemplate | cmd/genconst/main.go:173-180 | The line of CKA_WRAP_TEMPLATE: its text with the suffix gone and a space on each side of the bar, and its value 0x40000211. |
| Preserved.TermsPreserved | cmd/genconst/main.go:160-181 | For every way to write literals and names, one or several joined by bars, with or without parentheses and however spaced, the translation evaluates to the C value, and to nothing exactly when C knows none. |
| GoMeaning.TermsMeanTheSame | cmd/genconst/main.go:160-181 | Lexed and parsed as a Go constant expression, the translation of every such text that the generator lets through has the C value, and none exactly when C knows none. |
| GoMeaning.CaretMeans | cmd/genconst/main.go:168-172 | The all-ones word is a Go expression with all bits of a uint set. |
| GoMeaning.MeaningPreserved | cmd/genconst/main.go:160-181 | With the all-ones word included, the Go constant is the C value as a word of every width up to a Go uint, if and only if the text is not an unsigned int ~0 in a wider word. |
| GoMeaning.UnsignedComplementDiffers | cmd/genconst/main.go:168-172 | (~0U) is such a text, with 32 bits in C and 64 in Go. |
| AllOnesForm.AllOnesExactly | cmd/genconst/main.go:168-172 | A raw value is taken for the all-ones word exactly when it is a parenthesised ~0 with any suffix, whatever the white space. |
| Idempotence.TranslateTwice | cmd/genconst/main.go:160-181 | For every text and every name that is no boolean, translating twice is translating once. |
| Idempotence.FieldsStay | cmd/genconst/main.go:176-179 | Padding the bars of padded text again adds no field. |
| Evaluation.Evaluate | cmd/genconst/main.go:308-318 | It fails exactly when some CKA_ define has no value from the defines before it, and otherwise records the sequential meaning of the list. |
| HeaderLines.EncapsulateTemplate | cmd/genconst/main.go:308-318 | The line of CKA_ENCAPSULATE_TEMPLATE, 0x0000062aUL, is recorded as 0x62A. |
| Evaluation.RecordedIsLast | cmd/genconst/main.go:309-315 | A name is recorded exactly when it has a computable define, with the value of its last one. |
| Evaluation.MeaningAt | cmd/genconst/main.go:310-312 | Each define denotes what it evaluates to where the names before it are recorded. |
| Evaluation.Consistent | cmd/genconst/main.go:308-318 | With distinct names every recorded value is also what its define denotes in the final table. |
| Table.Resolve | cmd/genconst/main.go:269-283 | One entry for every attribute value, in the order of first use, named by the last among the first define and later non-aliases. |
| Table.ChosenIff | cmd/genconst/main.go:275-282 | A define names its value if and only if every later attribute with the value is an alias, and none is earlier if it is an alias itself. |
| Table.Superseded | cmd/genconst/main.go:275-282 | A later attribute that is no alias takes its value over from every earlier one. |
| HeaderLines.EcParams | cmd/genconst/main.go:269-283 | Of CKA_ECDSA_PARAMS and CKA_EC_PARAMS, in that order with one value, the table has the second. |
| Table.RenderAttributes | cmd/genconst/main.go:264-283 | The table exists exactly when every attribute is computable, and is that of the sequential meaning. |
| Table.OrderIs | cmd/genconst/main.go:270-283 | The keys are pairwise distinct and are exactly the values of attributes. |
| Table.OrderOfFirstUse | cmd/genconst/main.go:277-278 | Values stand in the order of the first defines that have them. |
| Table.ChainKeepsValue | cmd/genconst/main.go:308-318 | A chain of aliases that leads to an attribute leads to an earlier one with the same value, whatever kinds of names it passes through. |
| Table.AliasNeverChosen | cmd/genconst/main.go:264-283 | With distinct names a define from which a chain of aliases leads to any attribute never names a value. |
| Header.HeaderMeaning | cmd/genconst/main.go:107-133 | For every header in the grammar, of any length, the translated defines denote what the lines denote in C, each from those before it. |
| Header.BooleanMeaning | cmd/genconst/main.go:162-167 | A boolean constant reads in Go as the C truth of its macro if and only if that is what its name says: not zero for CK_TRUE, zero for CK_FALSE. |
| HeaderLines.BooleanLines | cmd/genconst/main.go:162-167 | The header's 1 and 0 become true and false. |
| Header.TableCoversHeader | cmd/genconst/main.go:264-283 | With distinct names the table has an entry for exactly the C values of the header's attributes. |

## Left out

- The other `Ctx` wrappers of `outOp` and the functions of shim.c: each is one dispatch, like `OutOp.Encrypt`.
- Loading the module: dlopen, symbol lookup, interface negotiation.
- The cryptography inside a token, random numbers, memory locking, and what a compiler or garbage collector does to scrubbed Go memory.
- The generated tables and the list of weak mechanisms: finite data. A policy is any predicate on mechanisms and the digest tables are any maps.
- Out-of-memory panics, and modules that report more list entries than the capacity they were given.
- The text the generator emits, its flags and files, and of `validateValue` all but its list of characters; `parse` is modelled from the raw value on, without the regular expression that finds it in a line.
- Login, PIN, random and find methods after a close, which do not check for it; raw handles, `Session.Info` and `Slot.CloseAllSessions`, which do not take the mutex.
- Writer preference of Go's RWMutex: a waiting writer does not hold up new readers in the model, so its runs include those of the real lock.
- A GCM parameter inside `EncapsulateKey`: `GcmMechanism` has the mechanism, not that call.
- Gcm.GCMParams.constructor: requires a tag length of at most 128 bits in whole bytes, where the code panics otherwise.
- Gcm.GCMParams.HsmIV: requires a positive IV length and such a tag length, where the code panics otherwise.
- GcmRuns.InvStep: a build after the release panics in the code and changes nothing here.
- Encapsulate.DataPass: does not repeat the check of the ciphertext length against the C int range, which the 64 MiB limit implies.
- Encapsulate.EncapsulateKey: the destroy call for an overlong ciphertext succeeds, as for any existing object.
- SessionTrace.InvStep: an event is one call on the Ctx, not each native call that the Ctx makes for it.
- GoConst.ConstValue: integer literals without underscores, names, or, parentheses and uint; a text with anything else has no value.
- SessionMethods.Ctx.FindObjects: the search result is finite and the batch limit is kept.
- GoMeaning.MeaningPreserved: is about values of the characters `validateValue` admits; white space inside an all-ones word stands around its parts, and a literal's suffix is any run of suffix letters, more than C allows.
- Header.HeaderMeaning: booleans and the all-ones word have no number, as the code has none for them.

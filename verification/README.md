# Verification model of qorechain-pqc

A Dafny model of the parts of the library that the library itself owns: the lock
around the process-global random number generator of liboqs, the hybrid
sign-bytes that a transaction signature covers, the rule that picks their form,
the reserved domain strings and the flat vector file. ML-DSA, ML-KEM and
SHAKE-256 are not modelled; liboqs is a parameter.

`dafny verify dfyconfig.toml` checks the project.

## What is modelled

**The generator lock** (`Liboqs`, `RngProtocol`, `RngTheorems`, `RngAnswers`,
`RngProcess`).
liboqs has one generator for the whole process. A deterministic sign installs a
zero filler, signs and switches back; everything that draws randomness takes the
same mutex. The model is a transition system with any number of threads, each
with its own list of calls, in which argument checks, locking, switching, every
single draw inside a library call, failures and unlocking are separate steps that
interleave freely. A library is any strategy that draws chunk after chunk,
depending on the arguments and everything drawn so far, with a bound per call.
One model covers both bindings: C prepares the object before it takes the lock,
Python builds it under the lock and may raise at the switch, the construction and
anywhere in the library call. Two flags add the faults under which the generator
would not be switched back: a switch-back call that reports an error (C ignores
its status, Python raises), and an asynchronous Python exception between the
installation of the filler and the `try`. `ModeSafetyExactly` shows that the
guarantee holds exactly without them, or without an accepted deterministic sign.
Everything else is proved for every configuration, faults included: the lock,
progress, the order of the sections, the answers given without the lock, the
determinism of deterministic signing, and serialisability, by a one-thread process
that makes the same faults. `ZerosReachOthersExactly` says when the faults do harm.
`RngAnswers` tells every answer by the events of the run: the library's own, unless
something went wrong during that very call.
`RngProcess` holds the operations as a class whose fields are the global mode, the
tape position and the lock, each proved against the same serial reference as the
interleaved system.

**The sign-bytes** (`SignBytes`, `CBuilders`, `GrowableBuilders`, `JsBuilders`,
`PythonBuilders`, `JavaBuilders`, `Agreement`). One specification of v1 and v2
with a parser for each, and the six builders in their own form: C offsets into a
buffer that counts the writes to each byte, Go and Rust appends into a growing
buffer, the JavaScript size-then-copy loop, the Python expression, the Java
`ByteBuffer` with wrapping `int` sizes. Length prefixes are reduced modulo their
width in the specification, so the builders that cast need no bound on lengths;
the theorems say which bounds they need, and what happens at the bound.

**The version rule** (`VersionRule`), **the reserved strings** (`ReservedTags`),
**batch verification** (`BatchVerify`) and **the flat vector file** (`FlatKat`,
`FlatKatReaders`, `FlatKatC`, `FlatKatAgreement`) complete the model. The last has
the generator, the Java reader, the C reader over its static buffers with the
widths of its scans and the pieces `fgets` cuts, and the exact condition under
which the two readers meet the same vectors.

## Where code and documentation differ

- A network's bytes are documented as identical in every binding. For a body of
  2^32 bytes or more the C, Go, Rust and JavaScript builders truncate the length
  (and there, and only there, different inputs can share one string,
  `SignBytes.V1UniqueExactly`),
  Python raises, and Java cannot hold the result. The model follows the code.
- v1 and v2 strings are meant never to meet. They do not, except when the first v1
  body is 0x716f7265 bytes long modulo 2^32; at that length they do
  (`SignBytes.SeparationExactly`).
- The list of reserved strings is said to be prefix-free. Its message family is so
  for chain-ids without `|`; `ReservedTags.MessagePrefixExactly` says when one
  message string opens another, `ReservedTags.PurposesCollideExactly` that payloads
  can then be chosen to collide, and `ReservedTags.BarInChainIdCollides` shows a pair.
- For a missing chain-id and no positive height, Java throws where C answers v2
  (`VersionRule.JavaVersionAgrees`).
- The flat file is meant for both readers alike. They part at a lone carriage return
  (`FlatKatAgreement.LoneCrParts`) and at hybrid_v2 lines that lack a field
  (`FlatKatAgreement.ShortLineParts`) or do not fit the C buffers
  (`FlatKatAgreement.ReadersAgreeExactly`).

## Model

| member | source | states |
|---|---|---|
| RngTheorems.ModeSafety | c/qorechain_pqc.c:9-16 | where every switch is undone, in every reachable state the zero filler is installed exactly while the lock owner is a deterministic sign between install and restore; so every draw of a key generation, encapsulation or hedged sign comes from the system tape, every draw of a deterministic sign is zeros, and a free lock means the system generator |
| RngTheorems.ModeSafetyExactly | c/qorechain_pqc.c:50-54 | that invariant holds in all reachable states if and only if every switch is undone or no accepted deterministic sign is asked for |
| RngTheorems.ZerosReachOthersExactly | c/qorechain_pqc.c:9-16 | some run has a key generation, encapsulation or hedged sign draw zeros if and only if a switch may not be undone and an accepted deterministic sign can come before such a call: in another thread, or earlier in the same one |
| RngTheorems.LeavesZeros | python/qorpqc/__init__.py:120-126 | with an unreliable switch-back, or an exception between install and `try`, a run reaches a free lock with the zero filler still installed, for any programs containing an accepted deterministic sign |
| RngTheorems.MutualExclusion | c/qorechain_pqc.c:16-17 | in every reachable state of every configuration, faults included, the thread in the section is the owner of the lock, and there are never two |
| RngTheorems.LockDiscipline | python/qorpqc/__init__.py:120-126 | in every configuration, also when switching back fails or raises, only the owner gives up the lock, by unlocking; it is taken only when free; early returns and idle threads never hold it |
| RngTheorems.UnlocksWithSystem | c/qorechain_pqc.c:50-54 | where every switch is undone, the system generator is back before the lock is given up |
| RngTheorems.Serialisable | c/qorechain_pqc.c:16-109 | in every configuration, every interleaving gives every locked call the outcome, and leaves the generator in the mode and at the position, of a one-thread process making the calls in lock-acquisition order with the same faults; each thread sees its own sections in order; only a deterministic sign leaves zeros where it found the system generator, and only where a switch can fail |
| RngAnswers.SerialisableExactly | c/qorechain_pqc.c:16-109 | every run is the serial run of its sections in which a call is cut short only where the run hit that very call, and every other call runs to its own end |
| RngAnswers.SectionsExactly | c/qorechain_pqc.c:24-26 | a finished section failed if the library failed in it or, in Python, something around it raised; otherwise it returned what the library computes alone from where the section starts; its thread was answered just that |
| RngAnswers.LockedExactly | c/qorechain_pqc.c:18-57 | every answer to a key generation, deterministic or hedged sign or encapsulation: turned away, it failed; else it held the lock and is its section's outcome, the library's own unless that call was hit; C ignores a switch-back that fails |
| RngAnswers.UnlockedExactly | c/qorechain_pqc.c:75-94 | every answer to a verify or decapsulate: turned away, an error (in Python an invalid signature); else the library's result, unless the library failed in that call, which is an invalid signature or an error |
| RngAnswers.CleanAnswers | c/qorechain_pqc.c:18-109 | in a run without faults every accepted call is answered with what the library says, a deterministic sign with its signature over zeros |
| RngAnswers.CleanRunCompletes | c/qorechain_pqc.c:18-109 | every configuration has such a run that answers every call of every program |
| RngTheorems.ReplayIsUndisturbed | c/qorechain_pqc.c:50-54 | where every switch is undone, that process leaves the system generator behind after every call |
| RngTheorems.AcquisitionOrder | c/qorechain_pqc.c:16-109 | in every configuration the finished sections and the pending one are in acquisition order, each thread's own in its order, and answered, current and remaining calls make up its program |
| RngTheorems.UnlockedAnswers | python/qorpqc/__init__.py:128-141 | in every reachable state, a call answered without the lock reports the library's result or a failure; a key generation, sign or encapsulation turned away early fails; the Python verify reports an invalid signature instead of failing (`RngAnswers.UnlockedExactly` says which, by the events of the run) |
| RngTheorems.SystemBytesAreTiled | c/qorechain_pqc.c:32-40 | in every configuration, finished sections read consecutive, disjoint blocks of the system tape without a gap, byte k of a section being byte k of the tape from where it starts; a deterministic sign, and a call that finds zeros left behind, takes none and saw only zeros; where every switch is undone no call finds any |
| RngTheorems.SectionIsConversation | c/qorechain_pqc.c:52-52 | each chunk of a section is as long as the library asked for having seen the chunks before it, and holds the next bytes of the tape, or zeros |
| RngTheorems.SignIsSignature | c/qorechain_pqc.c:41-57 | in every configuration, a successful deterministic sign returns what the library computes alone on zeros, whatever the other threads do and wherever switches failed |
| RngTheorems.DeterministicAcrossRuns | c/qorechain_pqc.h:30-39 | over any two runs, of either binding, with any tapes, programs, interleavings and faults, equal deterministic signs that succeed return equal bytes |
| RngTheorems.SignatureUsesZeroRnd | python/qorpqc/__init__.py:26-31 | for a library that draws one 32-byte `rnd`, that signature is the one for 32 zero bytes |
| RngTheorems.NoDeadlock | python/qorpqc/__init__.py:120-126 | in every reachable state with an unfinished call some thread can step, also when `finally` itself raises |
| RngTheorems.RunsAreBounded | c/qorechain_pqc.c:18-109 | every step lowers the measure, so a run is no longer than the measure of its first state |
| RngTheorems.StuckIsComplete | python/qorpqc/__init__.py:120-126 | in every configuration a run that cannot go on has answered every call of every program in order, with the lock free and the generator where the serial replay leaves it; where every switch is undone, that is the system's |
| RngProtocol.InvStep | python/qorpqc/__init__.py:95-126 | each step of either binding, exceptional ones included, keeps the lock, program, history and data invariants, with no assumption on the configuration |
| RngProtocol.StepsExactly | c/qorechain_pqc.c:43-57 | where a thread has to stand to take each step of a call; the lock can be taken only when free |
| RngProtocol.FaultsExactly | python/qorpqc/__init__.py:115-126 | where each fault can strike: the library anywhere in it, exceptions in Python only, failing allocations in C only |
| RngProcess.Process.CallLibrary | c/qorechain_pqc.c:41-53 | a liboqs call draws from whatever generator is installed, and moves the system position only in system mode |
| RngProcess.Process.Randomised | c/qorechain_pqc.c:24-26 | key generation, hedged signing and encapsulation return the library's run on whatever generator they find, equal the serial reference, leave the mode alone and end with the lock free on every path |
| RngProcess.Process.SignDeterministic | c/qorechain_pqc.c:43-57 | deterministic signing returns the library's run on zeros, leaves the system position alone and ends with the lock free, and with the system generator exactly if switching back worked |
| RngProcess.Process.PyRandomised | python/qorpqc/__init__.py:95-119 | raising nowhere, the library's whole run; raising inside it, its run cut there; raising before it, a failure that drew nothing; the lock is free in the end |
| RngProcess.Process.PySignDeterministic | python/qorpqc/__init__.py:115-126 | raising nowhere, the library's whole run on zeros; raising at the switch, before the `try`, at the construction, inside the library or in `finally` itself, a failure; the lock is released, and the system generator is back if `finally` ran and did not raise |
| Liboqs.LegitIsSerial | c/qorechain_pqc.c:52-52 | chunks drawn one at a time and their outcome are one uninterrupted run of the call |
| Bytes.ValOfBE | c/qorechain_pqc.c:124-126 | decoding k written digits gives the number modulo 256^k |
| Bytes.BEOfVal | c/qorechain_pqc.c:124-126 | encoding the decoded number gives the bytes back, so the written form is unique |
| Bytes.LexOrderIsNumericOrder | c/qorechain_pqc.c:124-126 | comparing the bytes is comparing the numbers |
| Bytes.WrittenInOrder | c/qorechain_pqc.c:124-126 | of two numbers written at one width the smaller has the smaller bytes |
| CBuilders.Buffer.Be32 | c/qorechain_pqc.c:124-124 | the four stores write the four digits, each byte once |
| CBuilders.Buffer.Be64 | c/qorechain_pqc.c:126-126 | the descending loop writes the eight digits, each byte once, and consumes the number to zero |
| CBuilders.HybridSignBytesV1 | c/qorechain_pqc.c:150-159 | the buffer has exactly the size of the v1 string, every byte is written once and in bounds, and the contents are that string |
| CBuilders.HybridSignBytesV2 | c/qorechain_pqc.c:161-181 | the same for v2; a NULL or empty chain-id is an error |
| CBuilders.HybridSignBytes | c/qorechain_pqc.c:183-190 | the dispatcher builds the form asked for and refuses every other version |
| GrowableBuilders.GrowV1 | go/pqc.go:267-274 | the Go (and Rust) v1 appends give the v1 string and fill the reserved capacity without growing |
| GrowableBuilders.GoV2 | go/pqc.go:283-293 | the same for v2 |
| GrowableBuilders.RustV2 | rust/src/lib.rs:134-153 | the v2 form built on top of the v1 form gives the v2 string and fills its capacity |
| GrowableBuilders.GoHybridSignBytes | go/pqc.go:300-311 | the checked entry point builds the form asked for, refusing an empty chain-id for v2 and every other version |
| GrowableBuilders.RustTryHybridSignBytes | rust/src/lib.rs:191-203 | the same for Rust |
| JsBuilders.Concat | js/src/index.js:159-163 | the sized array holds the parts one after the other |
| JsBuilders.HybridSignBytesV1 | js/src/index.js:166-168 | the v1 string |
| JsBuilders.HybridSignBytesV2 | js/src/index.js:171-177 | the v2 string, or an error for an empty chain-id |
| JsBuilders.HybridSignBytes | js/src/index.js:181-185 | the form asked for, or an error |
| PythonBuilders.PythonBuilds | python/qorpqc/__init__.py:247-283 | the same bytes when every length fits its field, and an error otherwise |
| PythonBuilders.PythonV1Injective | python/qorpqc/__init__.py:247-254 | the Python v1 form is injective with no bound on the inputs |
| JavaBuilders.HybridSignBytesV1 | java/src/main/java/network/qorechain/pqc/Pqc.java:407-414 | with wrapping int sizes, the v1 string exactly when it is shorter than 2^31 bytes, else an exception |
| JavaBuilders.HybridSignBytesV2 | java/src/main/java/network/qorechain/pqc/Pqc.java:423-437 | the same for v2, and an exception for an empty chain-id |
| JavaBuilders.HybridSignBytes | java/src/main/java/network/qorechain/pqc/Pqc.java:446-450 | the form asked for, or an exception |
| Agreement.SameBytesEverywhere | README.md:52-58 | one request of any version put to the checked entry points of all six bindings: C, Go, Rust and JavaScript answer alike whatever the lengths, version 1 the v1 string, version 2 with a chain-id the v2 string, which starts with the 23 bytes of the domain string, anything else an error; Python too, unless a body has 2^32 bytes or more and it raises; Java too, unless the result has 2^31 bytes or more; where Python answers, the inputs can be read back |
| Agreement.SameUncheckedBytes | rust/src/lib.rs:118-153 | the unchecked v2 builders of Go and Rust give one string, for an empty chain-id too |
| SignBytes.V1Written | c/qorechain_pqc.h:64-66 | a v1 string position by position: the four digits of each length, and each body behind its own |
| SignBytes.DomainWritten | c/qorechain_pqc.h:77-77 | the 23 bytes of the domain string |
| SignBytes.V2Written | c/qorechain_pqc.h:67-67 | a v2 string position by position: those 23 bytes, the eight digits of the chain-id's length, the chain-id, the v1 layout |
| SignBytes.V1RoundTrip | go/pqc.go:267-274 | v1 followed by anything parses to its bodies and leaves the rest |
| SignBytes.V1Canonical | go/pqc.go:267-274 | whatever the v1 parser accepts is an encoding of what it returns |
| SignBytes.V1ReadsBackExactly | c/qorechain_pqc.c:155-156 | v1 can be read back if and only if both bodies are below 2^32 bytes |
| SignBytes.V1Unique | c/qorechain_pqc.c:150-159 | a v1 string of bodies below 2^32 bytes belongs to no other pair of bodies, of whatever lengths |
| SignBytes.V1UniqueExactly | c/qorechain_pqc.c:155-156 | for all lengths m and n, some pair of bodies with them shares its v1 string with another pair if and only if one of them is 2^32 or more |
| SignBytes.V1PrefixFree | go/pqc.go:267-274 | among bodies below 2^32 bytes no v1 string is a proper prefix of another |
| SignBytes.EveryV1IsExtended | go/pqc.go:267-274 | beyond that range none is safe: every v1 string is a proper prefix of one with a first body 2^32 bytes longer |
| SignBytes.V2RoundTrip | rust/src/lib.rs:118-153 | v2 followed by anything parses to chain-id and bodies and leaves the rest |
| SignBytes.V2Canonical | rust/src/lib.rs:118-153 | whatever the v2 parser accepts is an encoding of what it returns |
| SignBytes.V2ReadsBackExactly | go/pqc.go:283-293 | v2 can be read back if and only if the bodies are below 2^32 and the chain-id below 2^64 bytes |
| SignBytes.V2PrefixFree | rust/src/lib.rs:118-153 | among inputs that fit their prefixes no v2 string is a proper prefix of another |
| SignBytes.V2UniqueExactly | go/pqc.go:283-293 | for all lengths, some inputs with them share their v2 string with others if and only if the chain-id has 2^64 bytes or more or a body 2^32 or more |
| SignBytes.CheckedV2UniqueExactly | go/pqc.go:300-311 | with empty chain-ids refused, a chain-id of just 2^64 bytes is safe as well |
| SignBytes.FormsSeparate | c/qorechain_pqc.h:64-77 | no v1 string, however continued, is a continued v2 string unless the first body's length modulo 2^32 is 0x716f7265 |
| SignBytes.SeparationExactly | c/qorechain_pqc.c:150-181 | a v1 and a v2 string with a first body of length n modulo 2^32 can be equal if and only if n is 0x716f7265 |
| SignBytes.DispatcherInjective | c/qorechain_pqc.c:183-190 | for lengths that fit their prefixes the dispatcher gives different bytes for different versions, bodies and, for v2, chain-ids, unless a v1 request with a first body of 0x716f7265 bytes meets a v2 one |
| VersionRule.VersionForExactly | c/qorechain_pqc.c:130-134 | v1 exactly for `qorechain-vladi` and `qorechain-diana` at no positive height; a NULL chain-id is v2 in C, and in Java an exception at no positive height |
| VersionRule.JavaVersionAgrees | java/src/main/java/network/qorechain/pqc/Pqc.java:383-386 | the Java rule answers like the C rule unless the chain-id is missing and the height is not positive |
| VersionRule.CVersionForApplied | c/qorechain_pqc.c:136-148 | over the caller's arrays: v1 exactly on one of the two legacy chains where no entry named `v3.2.0` or `v3.1.98` has a positive height, an array that is missing having no entries; decided by the maximum of 0 and the recognised heights, as by the lookup in the merged map |
| VersionRule.OnlyRecognisedPositive | c/qorechain_pqc.h:97-101 | entries with unknown or NULL names or no positive height, order and repetition do not matter |
| VersionRule.PermutationInvariant | c/qorechain_pqc.c:136-148 | permuting the entries changes nothing |
| VersionRule.LoopIsLookup | go/pqc.go:255-263 | the maximum over entries is the maximum of the lookups in the map that merges repeated names by their greatest height |
| VersionRule.MapVersionForApplied | go/pqc.go:255-263 | v1 exactly on one of the two legacy chains where neither plan name has a positive height; the loop over plan names decides by the greatest lookup and agrees with the Rust fold |
| VersionRule.RustIsGreatest | rust/src/lib.rs:110-113 | the fold over present heights is the greatest lookup |
| VersionRule.V1Exactly | README.md:60-75 | v1 exactly on `qorechain-vladi` or `qorechain-diana` where neither `v3.2.0` nor `v3.1.98` has a positive height, else v2 |
| VersionRule.SwitchesAtMostOnce | js/src/index.js:137-144 | over every history in which a recognised plan that has a positive height keeps one, whatever else changes, the form changes at most once, from v1 to v2, and never on a non-legacy chain |
| VersionRule.NeverEarly | js/src/index.js:209-218 | a client that asks about some names only is never at v2 before the network |
| VersionRule.AskingEnoughExactly | README.md:70-75 | a client reads every network right if and only if it asks about both plan names |
| ReservedTags.TagsWritten | DESIGN.md:60-68 | the reserved strings, byte by byte |
| ReservedTags.PrefixFree | DESIGN.md:54-68 | no reserved string is a prefix of another (message strings for chain-ids without a bar) |
| ReservedTags.MessagePrefixExactly | DESIGN.md:68-68 | one message string opens another exactly when the chain-ids are equal or one, with a bar behind it, opens the other |
| ReservedTags.PurposesSeparate | DESIGN.md:54-58 | what is signed for different purposes is different, for all payloads and chain-ids without a bar |
| ReservedTags.PurposesCollideExactly | DESIGN.md:54-68 | for all chain-ids, two different purposes can be made to sign the same bytes if and only if both are messages and one chain-id, with a bar behind it, opens the other |
| ReservedTags.BarInChainIdCollides | DESIGN.md:68-68 | the chain-ids `a` and `a` with a bar and `b` behind it are such a pair |
| ReservedTags.V1CarriesNoTag | go/pqc.go:267-274 | v1 sign-bytes start with a reserved string only if the first body's length modulo 2^32 is 0x716f7265 |
| ReservedTags.V1CarriesTagExactly | go/pqc.go:267-274 | for every reserved string, some v1 string with a first body of length n modulo 2^32 starts with it if and only if n is 0x716f7265 |
| ReservedTags.V1CarriesTagInRangeExactly | go/pqc.go:267-274 | with both bodies below 2^32 bytes that is so if and only if the second length, as far as the reserved string reaches it, leaves room for what follows it; a reserved string no longer than the first body is carried with an empty second body |
| ReservedTags.V2CarriesItsTagOnly | go/pqc.go:207-209 | v2 sign-bytes start with their own reserved string and no other |
| BatchVerify.Verify | js/src/index.js:222-228 | -1 exactly when all verify, else an index that fails with all before it verifying |
| BatchVerify.Append | js/src/index.js:222-228 | a concatenated batch fails where its first part does, else where its second does, shifted |
| FlatKat.HexRoundTrip | scripts/gen-signbytes-kat-flat.mjs:16-20 | printed bytes read back as themselves, and are never the empty marker |
| FlatKat.HexWritten | scripts/gen-signbytes-kat-flat.mjs:19-20 | two lower-case hex digits a byte, the high one first |
| FlatKat.PairExactly | java/src/test/java/network/qorechain/pqc/SignBytesTest.java:30-30 | a pair is two hex digits of either case, or a sign and a digit, modulo 256, and nothing else |
| FlatKat.LineWritten | scripts/gen-signbytes-kat-flat.mjs:19-20 | a line is the word `hybrid_v2` and the five fields, single spaces between, `-` for an empty body |
| FlatKat.LineReads | java/src/test/java/network/qorechain/pqc/SignBytesTest.java:46-51 | any name, chain-id, bodies and sign-bytes put so behind the literal `hybrid_v2` are read as just them |
| FlatKat.OtherKindsSkipped | java/src/test/java/network/qorechain/pqc/SignBytesTest.java:49-49 | a line with any other first word is skipped |
| FlatKat.PrintWritten | scripts/gen-signbytes-kat-flat.mjs:17-22 | the file is the header's line and a line more for every vector |
| FlatKat.FieldsBetweenBlanks | java/src/test/java/network/qorechain/pqc/SignBytesTest.java:48-48 | fields are what stands between space, tab, newline, vertical tab, form feed and carriage return |
| FlatKat.TrimExactly | java/src/test/java/network/qorechain/pqc/SignBytesTest.java:48-48 | trimming takes off both ends exactly the characters up to the space |
| FlatKat.RoundTripExactly | scripts/gen-signbytes-kat-flat.mjs:15-22 | reading the printed file gives the vectors back in order if and only if every name is non-empty and free of white space and no chain-id or sign-bytes field is empty |
| FlatKat.CommentsSkipped | java/src/test/java/network/qorechain/pqc/SignBytesTest.java:46-49 | a comment line anywhere changes nothing |
| FlatKatReaders.Generate | scripts/gen-signbytes-kat-flat.mjs:17-22 | the push-and-join loop prints the file that reads back |
| FlatKatReaders.JavaHex | java/src/test/java/network/qorechain/pqc/SignBytesTest.java:26-33 | the array loop decodes the field, signs in a pair as Integer.parseInt takes them, or throws |
| FlatKatReaders.JavaRead | java/src/test/java/network/qorechain/pqc/SignBytesTest.java:44-57 | the line loop yields the records of the trimmed lines of the file, or throws at a malformed line |
| FlatKat.TrimKeepsFields | java/src/test/java/network/qorechain/pqc/SignBytesTest.java:47-48 | trimming a line changes none of its fields, unless there are control characters at an end |
| FlatKatC.ScanIsFields | c/test_vectors.c:62-62 | width-limited scanning finds the white-space fields when each fits its width |
| FlatKatC.WidthsWritten | c/test_vectors.c:30-72 | the widths of the five conversions |
| FlatKatC.ScanByteExactly | c/test_vectors.c:13-13 | a pair is read as in Java, a digit before something else alone, and a lone `0x` sets nothing |
| FlatKatC.NulEnds | c/test_vectors.c:30-30 | the scan sees nothing behind a NUL |
| FlatKatC.Reader.Unhex | c/test_vectors.c:9-15 | for any string and buffer: decodes into a prefix of the buffer, reports a buffer that is too small, or is undefined, each exactly when |
| FlatKatC.Reader.ReadLine | c/test_vectors.c:28-80 | one loop turn on any line does to the static buffers what the specification says, leftovers of earlier lines included |
| FlatKatC.Reader.ReadFile | c/test_vectors.c:28-81 | the fgets loop on any text, long lines in pieces, meets the records of the folded turns, or is undefined where they are |
| FlatKatAgreement.HybridLeaves | c/test_vectors.c:62-62 | a hybrid_v2 line overwrites the buffers it has fields for, each with its own, and no other |
| FlatKatAgreement.OthersLeave | c/test_vectors.c:33-72 | mldsa and mlkem lines leave their third to fifth, shake lines their second to fourth field in the three buffers a hybrid_v2 line uses |
| FlatKatAgreement.UnknownLeaves | c/test_vectors.c:30-33 | any other word is remembered as the kind, as far as 15 characters go, and changes nothing else |
| FlatKatAgreement.LongLineIsCut | c/test_vectors.c:23-28 | of a longer line the loop meets 39999 characters, and the rest as another line |
| FlatKatAgreement.TurnReads | c/test_vectors.c:28-64 | on a line within the limits a turn meets what the Java reader meets, whatever the buffers held and however the line ends |
| FlatKatAgreement.TurnParts | c/test_vectors.c:58-64 | on a hybrid_v2 line beyond the limits the Java reader throws, or the turn is undefined or meets another record |
| FlatKatAgreement.ReadersAgreeExactly | c/test_vectors.c:28-64 | on every text whose lines fit `line` and whose carriage returns stand before newlines, with blank lines, comments and lines of other kinds anywhere, the C program meets just the records of the Java test if and only if every hybrid_v2 line has six fields that can be decoded and fit the C buffers |
| FlatKatAgreement.PrintedFileAgrees | scripts/gen-signbytes-kat-flat.mjs:15-22 | a printed file within the limits gives both readers the printed vectors |
| FlatKatAgreement.LoneCrParts | c/test_vectors.c:28-29 | behind a comment that ends in a lone carriage return the Java reader finds a vector that the C program skips |
| FlatKatAgreement.ShortLineParts | c/test_vectors.c:62-64 | at a line with the kind alone the Java reader throws, where the C program checks the vector before it once more |

## Left out

- ML-DSA, ML-KEM, SHAKE-256 and their backends: a library parameter with arbitrary behaviour stands for liboqs.
- Other users of liboqs in the process, and the C and Python bindings loaded together: the lock does not cover them.
- JavaScript, Go, Rust and Java signing and key generation: they share no generator.
- Python key generation for ML-KEM: the same steps as ML-DSA key generation, which `Keygen` stands for.
- Asynchronous Python exceptions at other points than the one before the `try`, and inside `finally`.
- malloc failure in the sign-bytes builders, buffer clearing and freeing; in the protocol a failed allocation is an early return.
- CBuilders.HybridSignBytesV1: requires that the total fits a 64-bit size_t, as the buffers of one address space do.
- CBuilders.HybridSignBytesV2: the same.
- JavaBuilders.HybridSignBytesV2: a null chain-id is treated as an empty one (both throw), null bodies are not modelled.
- UTF-8 encoding of chain-ids: chain-ids are bytes wherever they are signed or printed.
- Parsing applied heights from strings, and asking a network for them: heights are integers.
- FlatKatReaders.JavaHex: Integer.parseInt also takes digits outside ASCII, which count as malformed; vector files are taken to be ASCII.
- FlatKatC.Reader.ReadLine: of mldsa, mlkem and shake lines only what they leave in the static buffers is modelled, not their checks; where a hybrid_v2 line would use an unset variable or the length -1 the behaviour is undefined and the result `None`.
- FlatKatAgreement.ReadersAgreeExactly: lines longer than the C buffer, and lines outside comments with NUL characters or with control characters that only `trim` strips, are left to the specifications of the two readers.
- Level tables, length checks by level and error texts: `accepts` is an arbitrary predicate.

# Verification of the crypto tools and the chat widget

This project models six parts of the repository in Dafny and proves properties of the models.

- The chat widget of the web client: a sliding-window limiter (60 messages in 60000 ms) that
  stores a pruned list of time stamps, beside a history mirrored in local storage, a draft, and
  a warning with its time-out (`SlidingWindow.dfy`, `ChatWidget.dfy`).
- Hexadecimal text: the tolerant scanner and the printer of both C++ tools, the Python reading of
  the same text, and the printer of the web client (`HexText.dfy`, `HexScanner.dfy`,
  `PythonHex.dfy`).
- The fallback hash and the session token of the web client (`RollingHash.dfy`,
  `SessionToken.dfy`).
- Digest contexts: the class, the C interface with its opaque handles, programs over any number
  of handles, and the streaming page of the Python GUI (`DigestContexts.dfy`, `HashCApi.dfy`,
  `HandlePrograms.dfy`, `StreamingHash.dfy`), and results through caller buffers in both C
  interfaces with the two-call wrappers around them (`OutputBuffers.dfy`).
- The command lines of both tools (`OptionGrammar.dfy`, `AesOptions.dfy`, `HashOptions.dfy`).
- Algorithm names: both normalisers and tables, and the three classifications of cipher names
  (`AlgorithmNames.dfy`, `DigestNames.dfy`, `CipherNames.dfy`, `CipherDispatch.dfy`).

Loops and objects of the source are methods and classes here, each proved to compute a
specification function on values; the lemmas are about those functions, over all inputs and all
runs. `dafny verify dfyconfig.toml` checks everything.

## Where the code does not do what it says

- The limiter promises 60 messages a minute, but its time stamps live in the component: a remount
  restores the history and forgets the stamps. The promise holds for all runs with m remounts
  exactly when m is 0 (`PromiseIffNoRemount`); the exact bound is 60 * (m + 1).
- The Python digest wrappers describe a two-pass pattern (hash_gui.py, lines 211-215). The pattern
  is right for calls that keep no state and wrong for `ctx_final` and `ctx_final_xof`, which
  finalise the context before they look at the buffer: the second pass finds it consumed. The
  wrapper delivers a digest with bytes in it exactly when the library lets a context be finalised
  twice, which OpenSSL 3 does not; so the streaming page ends in an error for every input,
  whichever calls fail.
- Command line and GUI classify the spelling of a cipher by substring, the tool its canonical
  name. They never send a cipher to the wrong AEAD path or drop an IV. The GUI offers a fixed list
  of spellings, on which all three agree (`GuiListAgrees`). The command line takes any spelling
  with `--cipher`, and for a mode that takes no plain IV agrees with the tool only when the mode
  letters stand side by side.
- Python deletes characters in hexadecimal text that C++ refuses.

## Assumptions

- Digests are uninterpreted functions of algorithm and absorbed bytes; an extendable output is an
  uninterpreted stream. Whether a finalised context takes more data or a second final is a
  parameter of the library, and results that need OpenSSL's answer state it.
- An oracle says of every call in order whether OpenSSL or the allocator fails in it; a call that
  fails leaves the contexts as they were.
- Characters stand for the bytes of a C++ string and the code points of a Python one, with the
  character classes of the C locale; the fallback hash reads UTF-16 code units.
- The clock of one mount does not step back.

## Model

| member | source | states |
|---|---|---|
| SlidingWindow.GreedyIsOptimal | frontend/src/components/ChatWidget.tsx:51-62 | Among all selections of the same calls that keep at most 60 in every 60000 ms window, the calls that `handleSend` accepts are a longest one, and the i-th is never later than the i-th of any other; its own selection keeps the promise. |
| SlidingWindow.GreedyStaysAhead | frontend/src/components/ChatWidget.tsx:51-62 | The exchange argument: position by position the accepted calls are never behind a selection spaced by the window. |
| SlidingWindow.WindowSafety | frontend/src/components/ChatWidget.tsx:16-62 | Over a whole run, the accepted call 60 positions after another is at least 60000 ms later, and every half-open window holds at most 60. |
| SlidingWindow.SpanBound | frontend/src/components/ChatWidget.tsx:16-62 | Any closed span of d ms holds at most 60 * (d / 60000 + 1) accepted calls. |
| SlidingWindow.WithinLimitIffSpaced | frontend/src/components/ChatWidget.tsx:16-17 | For a sorted list, "at most 60 in every window" and "60 positions apart is a window apart" are the same promise. |
| SlidingWindow.AcceptsExactlyUnderLimit | frontend/src/components/ChatWidget.tsx:51-62 | In every reachable state the stored list has at most 60 entries, and a call is accepted exactly when fewer than 60 of all calls ever accepted lie in the last 60000 ms, although the code keeps only a pruned list. |
| SlidingWindow.FirstAcceptableTime | frontend/src/components/ChatWidget.tsx:55-59 | After a rejection the acceptable times are exactly those from the 60th-last accepted time plus 60000 on. |
| SlidingWindow.LimitKeepsPruned | frontend/src/components/ChatWidget.tsx:53-62 | One call keeps the stored list a tail of the full history whose dropped part is stale for good, also when a rejection leaves stale stamps in it. |
| SlidingWindow.RecentOfFullHistory | frontend/src/components/ChatWidget.tsx:53 | Filtering the stored list gives what filtering the full history would. |
| ChatWidget.Widget.constructor | frontend/src/components/ChatWidget.tsx:8-26 | The first mount: the history an earlier visit left, or the greeting, with an empty draft, no warning and no stamps. |
| ChatWidget.Widget.OnMount | frontend/src/components/ChatWidget.tsx:19-29 | A mount starts a new instance on the stored history or the greeting; storage and what was posted stay. |
| ChatWidget.Widget.OnSend | frontend/src/components/ChatWidget.tsx:139-155 | The send control does nothing while the warning shows, and otherwise what `handleSend` does. |
| ChatWidget.Widget.HandleSend | frontend/src/components/ChatWidget.tsx:48-73 | Blank drafts do nothing; a rejection raises the warning, arms a 5000 ms time-out and changes nothing else; an accepted draft is stamped, appended, stored, posted and cleared. |
| ChatWidget.Widget.OnChange | frontend/src/components/ChatWidget.tsx:140-147 | Typing replaces the draft, unless the warning disables the input; nothing else changes. |
| ChatWidget.Widget.OnAdminReply | frontend/src/components/ChatWidget.tsx:32-41 | An admin reply is appended as a bot message and stored, and touches neither stamps nor draft. |
| ChatWidget.Widget.OnTimer | frontend/src/components/ChatWidget.tsx:57 | A due time-out, and only a due one, hides the warning. |
| ChatWidget.RunKeepsInv | frontend/src/components/ChatWidget.tsx:19-73 | After every run storage mirrors the displayed list (the greeting alone is not stored) and the warning shows exactly while its one time-out is pending. |
| ChatWidget.RemountRestores | frontend/src/components/ChatWidget.tsx:19-26 | A remount after any run displays the same list. |
| ChatWidget.HistoryGrows | frontend/src/components/ChatWidget.tsx:35-67 | The list displayed at any moment is a prefix of every later one, across remounts too. |
| ChatWidget.Conservation | frontend/src/components/ChatWidget.tsx:48-73 | The posted texts are the accepted drafts in order, and the client part of the history grew by exactly them. |
| ChatWidget.NoDraftTwice | frontend/src/components/ChatWidget.tsx:49-66 | Never more messages than times something was typed: no draft goes out twice. |
| ChatWidget.SendGoesOut | frontend/src/components/ChatWidget.tsx:48-70 | A try to send, told from the events alone: the draft goes out exactly when no warning shows, it has a character that is not white space, and fewer than 60 messages since the mount lie in the last 60000 ms; only the last reason raises the warning. |
| ChatWidget.SentWasTyped | frontend/src/components/ChatWidget.tsx:65-143 | Everything that goes out is the text typed last while no warning showed, not sent before and with no mount since. |
| ChatWidget.HistoryIsWhatWasSaid | frontend/src/components/ChatWidget.tsx:32-67 | The displayed history is the one at the start, then the admin replies and the drafts that went out, in their order. |
| ChatWidget.RejectedDraftGoesOut | frontend/src/components/ChatWidget.tsx:51-70 | A rejected draft survives the warning (typing included) and, sent again after the time-out, goes out exactly when the 60th-last message is a window old. |
| ChatWidget.SessionRunsLimiter | frontend/src/components/ChatWidget.tsx:15-62 | From mount to mount the stored stamps and the send times are those of the limiter run on the attempts alone, whatever happens in between. |
| ChatWidget.SessionWithinLimit | frontend/src/components/ChatWidget.tsx:15-62 | Within one mount every 60000 ms window sees at most 60 messages go out. |
| ChatWidget.WindowBoundOverRemounts | frontend/src/components/ChatWidget.tsx:15-26 | With m remounts the bound is 60 * (m + 1): the history survives a remount, the stamps do not. |
| ChatWidget.RemountBoundIsReached | frontend/src/components/ChatWidget.tsx:15-26 | For every number m of remounts some run under a clock that does not step back sends 60 * (m + 1) messages in one window. |
| ChatWidget.RemountBoundIsExact | frontend/src/components/ChatWidget.tsx:15-26 | No bound over all runs with m remounts is smaller: b is one exactly when b is at least 60 * (m + 1). |
| ChatWidget.PromiseIffNoRemount | frontend/src/components/ChatWidget.tsx:15-62 | The promise of 60 per window holds for all runs with m remounts exactly when m is 0. |
| ChatWidget.WarningSpacesRejections | frontend/src/components/ChatWidget.tsx:55-59 | Two rejections of one mount are at least 5000 ms apart, since the controls stay disabled until the time-out fires. |
| HexScanner.HexToBytes | evp_aes_algorithm_specific_backend/src/evp_aes_direct_tool.cpp:743-781 | The two loops compute the scanner's digits in pairs, or throw. |
| HexScanner.CleanHex | evp_hash_algorithm_specific_backend/src/evp_hash_direct_tool.cpp:295-312 | The first loop with its lookahead for "0x" keeps exactly the digits, or throws at a character without meaning. |
| HexScanner.PairUp | evp_hash_algorithm_specific_backend/src/evp_hash_direct_tool.cpp:325-335 | The second loop gives one byte for every two digits. |
| HexScanner.AcceptsExactlyTheLanguage | evp_aes_algorithm_specific_backend/src/evp_aes_direct_tool.cpp:743-781 | Accepted are exactly the strings that split into separators, digits of either base16 alphabet and 0x/0X prefixes with an even number of digits; each byte is the number two digits stand for. |
| HexScanner.SplitIsUnique | evp_aes_algorithm_specific_backend/src/evp_aes_direct_tool.cpp:747-759 | No string splits in two ways. |
| HexScanner.DecodeConcatenates | evp_hash_algorithm_specific_backend/src/evp_hash_direct_tool.cpp:299-312 | Accepted strings may be joined, and decode to the concatenation, despite the lookahead at the seam. |
| HexScanner.ScanCuts | evp_hash_algorithm_specific_backend/src/evp_hash_direct_tool.cpp:299-312 | A joined string scans exactly when both parts do, or the cut goes through a prefix. |
| HexText.BytesToHex | evp_hash_algorithm_specific_backend/src/evp_hash_direct_tool.cpp:338-344 | Every byte is printed as two digits of the base16 alphabet (section 8 of RFC 4648) in the chosen case, the upper half first. |
| HexScanner.DecodeOfPrint | evp_hash_algorithm_specific_backend/src/evp_hash_direct_tool.cpp:295-344 | Decoding the printed form of any bytes, in either case, gives them back. |
| HexScanner.PrintOfDecode | evp_hash_algorithm_specific_backend/src/evp_hash_direct_tool.cpp:295-344 | Printing a decoded string gives its digits in lower case, with separators and prefixes gone. |
| HexText.BufferToHexPrintsTheSame | frontend/src/utils/crypto.ts:7-11 | The web client prints bytes as the C++ tools do in lower case. |
| HexText.NumberTextReadsBack | frontend/src/utils/crypto.ts:9-28 | `toString(16)` of a number reads back as the number and has lower-case hexadecimal digits only. |
| HexText.NumberTextLength | frontend/src/utils/crypto.ts:28 | It has at most k digits exactly when the number is below 16^k. |
| PythonHex.PythonAcceptsWhatCppAccepts | evp_aes_algorithm_specific_backend/aes_gui.py:69-95 | Whatever the C++ scanner accepts, the Python pipeline accepts with the same bytes. |
| PythonHex.PythonReads | evp_aes_algorithm_specific_backend/aes_gui.py:77-95 | On every string Python takes for digits exactly the characters of base16 that are not the 0 of a prefix, in order, refuses an odd number of them and pairs them otherwise. |
| PythonHex.AgreeExactly | evp_hash_algorithm_specific_backend/hash_gui.py:89-115 | The two agree on a string exactly when it splits into separators, digits and prefixes, or Python finds an odd number of digits. |
| PythonHex.PythonDeletesJunk | evp_aes_algorithm_specific_backend/aes_gui.py:77-80 | Between any two accepted strings Python deletes a character for which C++ refuses the whole, and returns the bytes of both. |
| PythonHex.StripKeepsDigits | evp_hash_algorithm_specific_backend/hash_gui.py:97-100 | Stripping first makes no difference to the digits found. |
| RollingHash.Fallback | frontend/src/utils/crypto.ts:22-28 | The shift, subtract and wrap loop returns the text of the absolute value of the base-31 polynomial modulo 2^32 (ToInt32, section 7.1.6 of ECMA-262) and the fixed suffix behind it; the two numbers each round computes before wrapping are exact in a double. |
| RollingHash.StepIsExact | frontend/src/utils/crypto.ts:25 | From any signed 32-bit hash the number before wrapping stays far below 2^53. |
| RollingHash.StepIsHorner | frontend/src/utils/crypto.ts:25-26 | One round of the loop is one step of Horner's rule, modulo 2^32. |
| RollingHash.PolyIsWeightedSum | frontend/src/utils/crypto.ts:22-27 | The polynomial is the sum of the code units weighted by powers of 31. |
| RollingHash.HashIsWrappedSum | frontend/src/utils/crypto.ts:22-27 | The hash lies in the signed 32-bit range and differs from the weighted sum by a multiple of 2^32. |
| RollingHash.HashConcatenates | frontend/src/utils/crypto.ts:22-27 | hash(a + b) is hash(a) * 31^|b| + hash(b), wrapped. |
| RollingHash.FallbackTextShape | frontend/src/utils/crypto.ts:28 | The text has 7 to 14 lower-case hexadecimal characters, for the hash -2^31 too. |
| RollingHash.FallbackTextReads | frontend/src/utils/crypto.ts:28 | The text is the hash without its sign in lower-case digits, without leading zeros, that read back as it, and then "f8a9d1". |
| RollingHash.FallbackCollisions | frontend/src/utils/crypto.ts:22-28 | Two messages get the same text exactly when their polynomials agree modulo 2^32 up to sign. |
| SessionToken.TokenSplits | frontend/src/utils/crypto.ts:40-43 | Cutting a token at its first dot gives back the user name, dots included, and a hash part that is the lower-case digest or the text of the fallback. |
| SessionToken.Sha256TextIsHashPart | frontend/src/utils/crypto.ts:18-34 | With a digest the hash text is the digest in lower-case base16, which decodes to it; without, it is the text of the fallback. |
| SessionToken.TokenDetermines | frontend/src/utils/crypto.ts:40-43 | Two tokens are equal exactly when user names and hash texts are. |
| SessionToken.BranchShowsInLength | frontend/src/utils/crypto.ts:18-34 | A 32-byte digest prints as 64 characters, the fallback as at most 14, so the branch shows in the token. |
| DigestContexts.DirectDigestContext.Update | evp_hash_algorithm_specific_backend/src/evp_hash_direct_tool.cpp:140-152 | Data is appended to what was absorbed; an empty update changes nothing and cannot fail. |
| DigestContexts.DirectDigestContext.Final | evp_hash_algorithm_specific_backend/src/evp_hash_direct_tool.cpp:154-170 | Refuses extendable digests; otherwise the digest of everything absorbed, and the context is finalised. |
| DigestContexts.DirectDigestContext.FinalXof | evp_hash_algorithm_specific_backend/src/evp_hash_direct_tool.cpp:172-188 | Refuses fixed digests; otherwise the asked number of bytes (the default size for zero), and the context is finalised. |
| DigestContexts.DirectDigestContext.Clone | evp_hash_algorithm_specific_backend/src/evp_hash_direct_tool.cpp:190-200 | A new context in the same state, sharing nothing. |
| DigestContexts.Digest | evp_hash_algorithm_specific_backend/src/evp_hash_direct_tool.cpp:258-276 | The one-shot digest; it fails exactly for an unknown name, a length given for a fixed digest, or a digest without a size where one is needed. |
| DigestContexts.ChunkingGivesOneShot | evp_hash_algorithm_specific_backend/src/evp_hash_direct_tool.cpp:140-188 | Any chunking of an input, empty chunks included, finalises to the one-shot digest of the whole. |
| HashCApi.HashDll.CtxNew | evp_hash_algorithm_specific_backend/src/evp_hash_direct_c_api.cpp:180-192 | A new handle owning a new context, or null on an unknown name or a failure. |
| HashCApi.HashDll.CtxUpdate | evp_hash_algorithm_specific_backend/src/evp_hash_direct_c_api.cpp:194-202 | Only the context of the given handle changes, by the data; a null handle, a null pointer with a length, or a failure changes none; an update without data cannot fail on a live handle. |
| HashCApi.HashDll.CtxCopy | evp_hash_algorithm_specific_backend/src/evp_hash_direct_c_api.cpp:204-218 | A new handle with a context of its own in the same state. |
| HashCApi.HashDll.CtxFinal | evp_hash_algorithm_specific_backend/src/evp_hash_direct_c_api.cpp:220-228 | The context is finalised before the room is looked at: with too little room the length is reported, the buffer is untouched, and the context is consumed. |
| HashCApi.HashDll.CtxFinalXof | evp_hash_algorithm_specific_backend/src/evp_hash_direct_c_api.cpp:230-238 | The same for extendable output. |
| HashCApi.HashDll.CtxFree | evp_hash_algorithm_specific_backend/src/evp_hash_direct_c_api.cpp:240-242 | Frees a live handle, once; null is ignored. |
| HandlePrograms.Execute | evp_hash_algorithm_specific_backend/src/evp_hash_direct_c_api.cpp:180-242 | Any program of calls on any number of handles, with any pattern of failures, ends on the heap in the state of its value semantics with the same replies; the live handles are those the client holds. |
| HandlePrograms.AbsorbedIsAncestry | evp_hash_algorithm_specific_backend/src/evp_hash_direct_c_api.cpp:180-218 | In every such program each live handle has absorbed exactly the successful updates along its copy ancestry, in order. |
| HandlePrograms.FinalConsumes | evp_hash_algorithm_specific_backend/src/evp_hash_direct_c_api.cpp:220-238 | Once a final has computed a digest, delivered or not, every later final on that handle and on every copy made of it afterwards fails. |
| HandlePrograms.FirstFinalDelivers | evp_hash_algorithm_specific_backend/src/evp_hash_direct_c_api.cpp:220-228 | A first final of either kind delivers the digest of the ancestry if the room suffices, and consumes the context if it does not. |
| HandlePrograms.CopySurvives | evp_hash_algorithm_specific_backend/src/evp_hash_direct_c_api.cpp:204-228 | Whatever is done after a copy to other handles, finals of the original included, a final of the copy delivers the digest of what the original held; only the copy and that final must not fail. |
| StreamingHash.CtxFinal | evp_hash_algorithm_specific_backend/hash_gui.py:436-462 | Probe-then-fetch never returns a digest that has any bytes, unless the library finalises twice; then it returns the digest. |
| StreamingHash.CtxFinalXof | evp_hash_algorithm_specific_backend/hash_gui.py:464-492 | The same for extendable output. |
| StreamingHash.Absorb | evp_hash_algorithm_specific_backend/hash_gui.py:953-960 | When the loop is done the main context has absorbed all chunks and the clone the first min(k + 1, n). |
| StreamingHash.Fill | evp_hash_algorithm_specific_backend/hash_gui.py:950-967 | Before finalisation the clone has, besides, absorbed the extra data. |
| StreamingHash.HashStreaming | evp_hash_algorithm_specific_backend/hash_gui.py:939-1017 | Whichever call fails, every context created is freed exactly once; without failures the report is that of the two absorbed inputs, as far as the wrappers deliver it; with a library that finalises only once the page ends in an error, whichever calls fail. |
| StreamingHash.StreamedReport | evp_hash_algorithm_specific_backend/hash_gui.py:939-994 | Where a library finalises twice and nothing fails, the report holds the digest of all chunks and, if asked for, that of the first chunks and the extra data; it fails exactly for text that does not parse, an unknown algorithm, or one without a digest. |
| StreamingHash.StreamingNeverShows | evp_hash_algorithm_specific_backend/hash_gui.py:436-492 | With a library that finalises only once and digests that have bytes, probe-then-fetch fails on every context, whichever calls fail. |
| OutputBuffers.CopyBytesToOutput | evp_aes_algorithm_specific_backend/src/evp_aes_direct_c_api.cpp:83-107 | The length is always reported; the bytes are written exactly when they fit, and then nothing behind them changes; a buffer that is too small is left as it was. |
| OutputBuffers.CopyStringToOutput | evp_hash_algorithm_specific_backend/src/evp_hash_direct_c_api.cpp:87-103 | Texts need room for one character more than the reported length; otherwise the buffer is left as it was. |
| OutputBuffers.StatelessCall | evp_aes_algorithm_specific_backend/src/evp_aes_direct_c_api.cpp:238-320 | A call that throws writes nothing; any other reports its length, writes when it fits, and leaves a buffer that is too small as it was. |
| OutputBuffers.TwoCalls | evp_aes_algorithm_specific_backend/aes_gui.py:261-327 | Probe, allocate, fetch returns exactly what the core computes and raises exactly when it throws, for empty results too. |
| OutputBuffers.AeadEncrypt | evp_aes_algorithm_specific_backend/src/evp_aes_direct_c_api.cpp:322-407 | Both lengths are reported, and unless both buffers suffice neither is written; one buffer given for both parts ends with the tag over the ciphertext. |
| OutputBuffers.AeadTwoCalls | evp_aes_algorithm_specific_backend/aes_gui.py:329-367 | The wrapper returns exactly the core's ciphertext and tag, also when one of them is empty. |
| OutputBuffers.AeadDecrypt | evp_aes_algorithm_specific_backend/src/evp_aes_direct_c_api.cpp:409-465 | A tag that does not verify reports length zero and writes nothing. |
| OutputBuffers.AeadDecryptTwoCalls | evp_aes_algorithm_specific_backend/aes_gui.py:369-409 | The wrapper returns the plaintext exactly when the tag verifies, and raises otherwise. |
| OptionGrammar.RequireValue | evp_aes_algorithm_specific_backend/src/evp_aes_direct_main.cpp:54-77 | The joined value, or the next argument with the index moved on to it, or an exception at the end of the list. |
| OptionGrammar.ParseLoop | evp_aes_algorithm_specific_backend/src/evp_aes_direct_main.cpp:296-350 | The loop, with its index advanced by `require_value`, computes the recursive reading of the arguments and ends. |
| OptionGrammar.ParseInvertsRender | evp_aes_algorithm_specific_backend/src/evp_aes_direct_main.cpp:50-77 | Reading a printed list of options, each joined or in two arguments, gives their assignments from left to right, for arbitrary values. |
| OptionGrammar.AcceptsExactlyRendered | evp_aes_algorithm_specific_backend/src/evp_aes_direct_main.cpp:296-350 | Nothing but printed lists of options whose values parse is accepted. |
| OptionGrammar.SwapNeighbours | evp_aes_algorithm_specific_backend/src/evp_aes_direct_main.cpp:296-350 | Neighbours whose assignments commute may be swapped. |
| AesOptions.ParseArgs | evp_aes_algorithm_specific_backend/src/evp_aes_direct_main.cpp:288-353 | `parse_args` of the AES tool: help without arguments, otherwise the loop over its table of names. |
| OptionGrammar.DecodedIsExact | evp_aes_algorithm_specific_backend/src/evp_aes_direct_main.cpp:50-52 | Where names can be told apart, no argument passes the tests of two branches, and a chain that never misses a test that passes takes exactly that branch, whatever its order. |
| AesOptions.GrammarIsExact | evp_aes_algorithm_specific_backend/src/evp_aes_direct_main.cpp:299-349 | No argument passes the tests of two branches of the chain, and the branch taken is exactly the one whose own test passes. |
| AesOptions.OptionNames | evp_aes_algorithm_specific_backend/src/evp_aes_direct_main.cpp:309-336 | Which name sets which member, and the defaults of the others. |
| AesOptions.FlagNames | evp_aes_algorithm_specific_backend/src/evp_aes_direct_main.cpp:299-347 | Which words set which switch. |
| AesOptions.ParseInverts | evp_aes_algorithm_specific_backend/src/evp_aes_direct_main.cpp:288-353 | Parsing the printed options gives the left-to-right assignment to the defaults; no options at all ask for help. |
| AesOptions.AcceptsExactly | evp_aes_algorithm_specific_backend/src/evp_aes_direct_main.cpp:288-353 | The accepted command lines are exactly the printed ones whose tag length parses. |
| AesOptions.LastAssignmentWins | evp_aes_algorithm_specific_backend/src/evp_aes_direct_main.cpp:309-336 | A printed command line is accepted exactly when its tag lengths parse; every text and the tag length are the last given or the default, padding is what the last `--padding` or `--nopad` says and counts as set when one was given, and a switch is set when one of its spellings was given. |
| AesOptions.SwapChangesNothing | evp_aes_algorithm_specific_backend/src/evp_aes_direct_main.cpp:296-350 | On a command line, swapping neighbouring options that set different members changes nothing. |
| HashOptions.ParseArgs | evp_hash_algorithm_specific_backend/src/evp_hash_direct_main.cpp:112-135 | `parse_args` of the hash tool: early help, a leading command in lower case, then the loop. |
| HashOptions.GrammarIsExact | evp_hash_algorithm_specific_backend/src/evp_hash_direct_main.cpp:121-132 | The same for the hash tool: the tests exclude each other, and their order does not matter. |
| HashOptions.OptionNames | evp_hash_algorithm_specific_backend/src/evp_hash_direct_main.cpp:123-131 | Which name sets which member. |
| HashOptions.FlagNames | evp_hash_algorithm_specific_backend/src/evp_hash_direct_main.cpp:121-130 | Which words set which switch, and the defaults of all members. |
| HashOptions.ParseInverts | evp_hash_algorithm_specific_backend/src/evp_hash_direct_main.cpp:112-135 | Parsing an optional command and printed options gives their assignments; without a command, a request for help in first place hides everything behind it. |
| HashOptions.AcceptsExactly | evp_hash_algorithm_specific_backend/src/evp_hash_direct_main.cpp:112-135 | A first request for help is granted whatever follows; otherwise the accepted command lines are exactly the printed ones whose output lengths parse. |
| HashOptions.LastAssignmentWins | evp_hash_algorithm_specific_backend/src/evp_hash_direct_main.cpp:119-134 | Unless it only asks for help, a printed command line is accepted exactly when its output lengths parse, and every member is the last value given, `--alg` and `--algorithm` counting as one, or the default. |
| HashOptions.SwapChangesNothing | evp_hash_algorithm_specific_backend/src/evp_hash_direct_main.cpp:115-134 | Neighbouring options that set different members may be swapped, whatever comes behind them, exactly when neither is a leading request for help without a command. |
| AlgorithmNames.SquashName | evp_hash_algorithm_specific_backend/src/evp_hash_direct_tool.cpp:53-60 | The loop keeps the letters and digits, in upper case. |
| AlgorithmNames.SquashChar | evp_hash_algorithm_specific_backend/src/evp_hash_direct_tool.cpp:56-60 | Of one character, digits and capital letters stay, small letters are made capital, anything else goes. |
| AlgorithmNames.SquashAppend | evp_hash_algorithm_specific_backend/src/evp_hash_direct_tool.cpp:56-60 | Names are treated character by character. |
| AlgorithmNames.SquashIgnoresCase | evp_aes_algorithm_specific_backend/src/evp_aes_direct_tool.cpp:82-86 | Names are read in either case. |
| DigestNames.NormalizeDigestName | evp_hash_algorithm_specific_backend/src/evp_hash_direct_tool.cpp:52-74 | The normaliser computes the canonical name. |
| DigestNames.CanonicalIsIdempotent | evp_hash_algorithm_specific_backend/src/evp_hash_direct_tool.cpp:52-74 | Normalising twice is normalising once, for every string. |
| DigestNames.SameCanonical | evp_hash_algorithm_specific_backend/src/evp_hash_direct_tool.cpp:52-74 | Two strings share a canonical name exactly when their upper-cased letters and digits agree, SHA counting as SHA1. |
| DigestNames.LookupIsNameOf | evp_hash_algorithm_specific_backend/src/evp_hash_direct_tool.cpp:215-237 | The table gives each of the fourteen digests its own name, and nothing else a digest. |
| DigestNames.NameResolves | evp_hash_algorithm_specific_backend/src/evp_hash_direct_tool.cpp:215-237 | Every digest is reached by its name in upper or lower case. |
| DigestNames.SupportedAlgorithms | evp_hash_algorithm_specific_backend/src/evp_hash_direct_tool.cpp:215-293 | The fourteen spellings that the tool lists, each with its canonical name and its digest. |
| DigestNames.XofNames | evp_hash_algorithm_specific_backend/src/evp_hash_direct_tool.cpp:76-83 | The extendable digests are the two named SHAKE. |
| DigestNames.CanonicalResolvesAlike | evp_hash_algorithm_specific_backend/src/evp_hash_direct_tool.cpp:126-131 | The canonical name resolves to the digest of the spelling. |
| CipherNames.NormalizeCipherName | evp_aes_algorithm_specific_backend/src/evp_aes_direct_tool.cpp:78-128 | The normaliser computes the canonical name or throws. |
| CipherNames.AcceptsExactly | evp_aes_algorithm_specific_backend/src/evp_aes_direct_tool.cpp:78-128 | A spelling is accepted exactly when its letters and digits are AES, one of three key sizes, and a mode; the canonical name puts dashes between them and respells five modes. |
| CipherNames.CanonicalIsIdempotent | evp_aes_algorithm_specific_backend/src/evp_aes_direct_tool.cpp:78-128 | On every accepted spelling the normaliser accepts its own output and leaves it as it is. |
| CipherNames.SameCanonical | evp_aes_algorithm_specific_backend/src/evp_aes_direct_tool.cpp:78-128 | Two accepted spellings share a canonical name exactly when their upper-cased letters and digits agree, mode CFB counting as CFB128. |
| CipherNames.CanonicalResolvesAlike | evp_aes_algorithm_specific_backend/src/evp_aes_direct_tool.cpp:638-641 | The canonical name that `encrypt` hands on selects the cipher of the spelling. |
| CipherNames.LookupIsNameOf | evp_aes_algorithm_specific_backend/src/evp_aes_direct_tool.cpp:558-605 | The table holds thirteen modes in three key sizes but for XTS with 192 bits, each under its own name. |
| CipherNames.NameResolves | evp_aes_algorithm_specific_backend/src/evp_aes_direct_tool.cpp:558-605 | Every supported cipher is reached by its name in upper or lower case. |
| CipherNames.SupportedCiphers | evp_aes_algorithm_specific_backend/src/evp_aes_direct_tool.cpp:558-605 | Each of thirteen mode names behind each key size selects its cipher; XTS with 192 bits selects none. |
| CipherDispatch.ContainsModeIsPrefix | evp_aes_algorithm_specific_backend/src/evp_aes_direct_tool.cpp:130-156 | "-MODE" is found in a canonical name exactly when MODE begins the text behind one of its dashes: the key size, the mode, or the "PAD" of the padded wrap mode. |
| CipherDispatch.ToolRouteIsByMode | evp_aes_algorithm_specific_backend/src/evp_aes_direct_tool.cpp:134-187 | The tool classifies canonical names by their mode: AEAD, no IV, IV. |
| CipherDispatch.DispatchIsSound | evp_aes_algorithm_specific_backend/src/evp_aes_direct_main.cpp:98-117 | For every spelling that resolves, what command line or GUI take for AEAD the tool takes for AEAD, and where they leave out the IV the tool wants none. |
| CipherDispatch.DispatchAgreesExactly | evp_aes_algorithm_specific_backend/aes_gui.py:114-125 | They agree exactly when the mode wants an IV anyway or its letters follow the key size side by side (the GUI's test: behind a dash). |
| CipherDispatch.GuiListAgrees | evp_aes_algorithm_specific_backend/aes_gui.py:413-432 | Each cipher has one entry in the list the GUI offers; it resolves to that cipher, and GUI, command line and tool route it alike. |
| CipherDispatch.DottedModeMisroutes | evp_aes_algorithm_specific_backend/src/evp_aes_direct_main.cpp:98-117 | A dot inside the mode letters of any cipher that takes no plain IV, as `--cipher` lets a user write it, parts the raw substring tests from the tool's. |

## Left out

- AES, GCM, CCM, OCB, XTS and SHA themselves, tag verification, and the EVP call sequences inside
  `encrypt` and `decrypt`: they are OpenSSL's, which is not part of this model.
- Error texts, `map_exception` and the last-error string: every exception is one outcome, and the
  status codes other than success, buffer too small and authentication failed are one status.
- Files, DLL loading, Qt widgets, random data, React rendering: input and output.
- The broadcast channel's delivery, several tabs on one storage, and clocks that step back;
  `JSON.stringify` followed by `JSON.parse` is the identity.
- `parse_size`: numeric parsing is a parameter that gives a number or an exception.
- AesOptions.ParseArgs: the record of options holds its boolean members as a set and its text
  members as a map over the options, not as named fields.
- HashCApi.HashDll.CtxUpdate: a call that OpenSSL fails is taken to absorb nothing.
- `default_padding_for_cipher`: the same substring tests, for a default that the tool does not
  classify itself.
- `read_input`, `read_aad`, `read_tag`: choices of one source among several, easy to read off.
- `Navbar.tsx` and the pages: display and token decoding that rests on the browser.

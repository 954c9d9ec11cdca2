# linux-id, modelled and proved in Dafny

linux-id is a software FIDO token. The host sends 64-byte CTAPHID reports through a virtual HID
device; the token reassembles them into messages and queues U2F and CTAP2 requests for a server,
which asks the user, signs with a TPM or an in-memory key and sends a reply cut into frames again.
This project models that path and the protocols around it, and proves what they guarantee over
every input, every schedule and every run.

Code that works by steps is modelled by steps: classes with the source's fields, methods with its
loops and early returns. Each method is proved against a specification function, and the lemmas
say what those functions and whole runs of them mean in terms that do not use them: the bytes a host
or a relying party reads, written out with the constants of the protocols, strict reference readers,
and conditions on the request, the user, the signer and the store. Concurrent code is a transition system in
which a critical section, a channel hand-over or a device call is one step, timers fire whenever
they like, and the clock is an integer that does not go back.

| file | models |
|---|---|
| `Bytes.dfy` | bytes, words in network byte order, slices and padding |
| `HidFraming.dfy` | `writeRespose` and the frame layouts of section 11.2.4 of CTAP 2.1 |
| `HidAssembly.dfy` | `parsePackets` and the reassembly loop, with the round trip through the frames |
| `HidHost.dfy` | a strict reference host for what the token sends |
| `HidToken.dfy` | `SoftToken.Run`: channel allocation, INIT, and the queue for the server |
| `Apdu.dfy` | the U2F request decoder, with a reference encoder |
| `Lencode.dfy`, `KeyHandle.dfy` | the record codec and the TPM key handles made with it |
| `CredStore.dfy` | the resident credential store, with failing and crashing file operations |
| `Pinentry.dfy` | the shared presence dialog as interleaved steps |
| `Fprintd.dfy`, `FprintdSharing.dfy` | one fingerprint verification, and the sharing of scans between callers |
| `UvCache.dfy` | the time-based cache in front of the verifier, with its goroutines |
| `AuthData.dfy` | authenticator data, with a reference parser for section 6.1 of WebAuthn |
| `Authenticator.dfy`, `Handlers.dfy` | the request handlers, over that cache, as functions on state and effect log, and step by step |
| `ServerInvariant.dfy`, `AuthProperties.dfy` | what every handler keeps, and what one request guarantees |
| `Requests.dfy` | requests told by their bytes: what each command byte is answered with |
| `RunProperties.dfy`, `Login.dfy` | whole runs: who approved what is signed, and what a registration means for later logins |
| `EndToEnd.dfy` | host, token and server together |

## What the proofs say about the code

Places where the code does something a reader of its documentation might not expect, each with the
exact condition:

- An approval counts for every site and for both operations until the cache is stale. The verifier
  does not look at its prompt, so a CTAP2 signature comes right after either a prompt that the user
  approved for this purpose and this RP, or a hit that rests on a success recorded less than the ttl
  before, given to whatever prompt (`RunProperties.RunsAreSafe`). The user is asked if and only if no
  success was recorded less than the ttl before the call (`RunProperties.AskedExactly`);
  `RunProperties.SecondSiteIsSignedUnasked` is a run in which a second site is signed for and nobody
  was asked about it. The prompt behind a hit may also be one whose handler had given up waiting.
- The cache window starts when the success is recorded, not when the user gave it. Whatever follows,
  hits that rest on a record come less than the ttl after the user's verdict if and only if the clock
  has not advanced between verdict and record (`UvCache.VerdictAgeExactly`).
- A message survives framing and reassembly exactly when it has 1 to 7609 bytes
  (`HidAssembly.RoundTripExactly`): the next continuation would be numbered 0x80, which marks an
  initial frame. An empty payload produces no frame at all. The same bound holds for replies to a
  host that checks channels and numbers (`HidHost.HostReceivesExactly`).
- The token itself never looks at the channel and the number of a continuation packet
  (`HidAssembly.ContinuationHeadersAreIgnored`), so messages have to arrive contiguously; a
  continuation outside any message is answered as command 0 on channel 0
  (`HidAssembly.StrayContinuation`).
- `DecodeInto` refuses a slice that is longer than the message, against its comment and its error
  text; it works exactly for a slice no longer than the message whose capacity holds it
  (`Lencode.DecodeIntoExactly`, `Lencode.LargeEnoughIsRefused`). `Decode` always passes one that fits.
- `RegisterKey` does not look at the errors of `Encode`. A part longer than 255 bytes cuts the handle
  at a record boundary, and such a handle is refused (`KeyHandle.PackedParsesBack`); a U2F
  registration answered with a handle is known to later requests if and only if the backend can open
  it and the signer is up (`Login.RegisteredIsKnownLater`).
- A U2F authenticate request with an empty handle and nothing after it is refused, because the
  decoder asks for 66 data bytes where 65 would do (`Apdu.AuthenticateRoundTrip`).
- Authenticator data parses back exactly for handles below 65536 bytes, since the length word wraps
  (`AuthData.AttestedDataParses`).
- Every CTAP2 event is answered exactly once. A U2F event is not answered when it cannot be decoded,
  when no key can be made or its handle exceeds 255 bytes, and when the attestation fails or a
  signature fails after its handle was accepted, which both end the program
  (`ServerInvariant.EventFollows`).
- The credential file outlives the process, and with the in-memory backend the keys do not. A login
  without an allow list uses the first credential stored for the RP and succeeds only if the signer
  of this process accepts it (`Login.LoginExactly`); a stale first credential turns every login down,
  also after the RP has been registered anew (`Login.StaleCredentialBlocksLogin`).
- Callers that share a fingerprint scan or a presence dialog share one result. Once it has been
  received, in every continuation, all of them are answered if and only if there is only one
  (`FprintdSharing.AllAnsweredExactly`, `Pinentry.AllAnsweredExactly`); `SecondCallerStarvesFirst` and
  `RetryStarvesFirstCall` are schedules in which one starves.
- The presence dialog has no time limit of its own. The program can release it without the pinentry
  process if and only if that process has returned (`Pinentry.DialogIsReleased`); then the goroutine
  has at most three steps left, none of which needs a caller (`Pinentry.ReleasedAfterOwnSteps`).

## Model

| member | source | states |
|---|---|---|
| HidFraming.Device.WriteEvent | fidohid/fidohid.go:497-506 | one write either appends its frame to what the host has received or fails and appends nothing |
| HidFraming.WriteResponse | fidohid/fidohid.go:463-531 | the loop sends the frames of data and status word in order and stops at the first failing write; `HidToken.ReplyReachesHost` says what the host reads of them |
| HidFraming.WriteCtap2Response | fidohid/fidohid.go:458-461 | a CTAP2 reply is the frames of status byte and body under command 0x10, without a status word |
| HidFraming.SendIsPrefix | fidohid/fidohid.go:503-525 | whatever writes fail, the host has received a prefix of the frames, all of them exactly when success is reported |
| HidFraming.ContFields | fidohid/fidohid.go:402-413 | a continuation frame is channel, number and zero-padded data at their offsets |
| HidFraming.InitFields | fidohid/fidohid.go:382-394 | an initial frame is channel, command, total and zero-padded data at their offsets |
| HidFraming.FrameAt | fidohid/fidohid.go:476-527 | closed form of the j-th continuation: number j modulo 256 and bytes 57+59j up to 59 more |
| HidFraming.FrameCount | fidohid/fidohid.go:474-528 | no frame for an empty payload, otherwise one plus the ceiling of (n-57)/59 |
| HidFraming.FrameDataConcatenates | fidohid/fidohid.go:476-528 | the data fields of all frames in order are the payload followed by zeros |
| HidFraming.SequenceNumbers | fidohid/fidohid.go:475-526 | the numbers on the wire are 0, 1, 2, ... below 0x80 if and only if the payload has at most 7609 bytes |
| HidAssembly.PacketReader.ReadFull | fidohid/fidohid.go:345-373 | a short read consumes what is left and makes every later read fail without reading |
| HidAssembly.ParsePacket | fidohid/fidohid.go:263-318 | the reads amount to fixed offsets of a report of at least 65 bytes, and shorter reports give no packet |
| HidAssembly.ParsePackets | fidohid/fidohid.go:240-328 | the packets of all output events in order up to the first device error, which is fatal |
| HidAssembly.OtherEventsAreInvisible | fidohid/fidohid.go:259-318 | an event that is no output event, or whose report is short, changes nothing about the packets of any stream around it |
| HidAssembly.ReadMessage | fidohid/fidohid.go:74-101 | the loop returns the first message completed by the packets it has taken, consuming none beyond it |
| HidAssembly.StepIsSafe | fidohid/fidohid.go:82-101 | every packet keeps "idle, or a non-empty buffer shorter than needed"; the final slice is in bounds with at most one packet's data to spare, and each other continuation comes 59 bytes closer |
| HidAssembly.FeedIsSafe | fidohid/fidohid.go:74-101 | every reachable state satisfies that invariant |
| HidAssembly.NoEndlessMessage | fidohid/fidohid.go:82-97 | at most 1110 continuations in a row complete nothing, and the measure falls by 59 with each |
| HidAssembly.Completion | fidohid/fidohid.go:82-101 | from any state an initial packet and the continuations its total calls for, at most 1111 packets, deliver exactly the first total bytes and leave the loop idle |
| HidAssembly.StrayContinuation | fidohid/fidohid.go:75-101 | a continuation outside a message becomes an empty message with command 0 on channel 0 |
| HidAssembly.ContinuationHeadersAreIgnored | fidohid/fidohid.go:83-96 | packet streams that differ only in channels and numbers of continuations reassemble alike |
| HidAssembly.ReportsAreReceived | fidohid/fidohid.go:263-318 | frames sent as reports parse to one packet each, in order |
| HidAssembly.MessageRoundTrip | fidohid/fidohid.go:463-531 | from any reassembler state the frames of a message of 1 to 7609 bytes deliver that message alone and leave it idle |
| HidAssembly.StreamRoundTrip | fidohid/fidohid.go:74-101 | any list of messages, fragmented one after the other, reassembles to the same list |
| HidAssembly.ResynchronisedStream | fidohid/fidohid.go:82-101 | after any device events at all, the reports of further messages deliver exactly those after what came before |
| HidAssembly.OversizedIsNeverDelivered | fidohid/fidohid.go:475-526 | of a payload above 7609 bytes nothing as long as itself is ever delivered |
| HidAssembly.RoundTripExactly | fidohid/fidohid.go:463-531 | a message comes back as itself if and only if it has 1 to 7609 bytes |
| HidToken.AllocateChan | fidohid/fidohid.go:60-69 | the lowest free id from 1 below 0xFFFFFFFF is taken, failing exactly when there is none |
| HidToken.SoftToken.Dispatch | fidohid/fidohid.go:103-148 | one message does to channels, queue and device what the step function says; `HidToken.InitReply` and `HidToken.OtherMessages` say what that is in bytes |
| HidToken.SoftToken.Run | fidohid/fidohid.go:58-149 | the outer loop serves exactly the reassembled messages in order, until ids run out |
| HidToken.NextId | fidohid/fidohid.go:61-67 | when the ids in use are 1..n the next one is n+1, and then they are 1..n+1 |
| HidToken.ChannelsOverRun | fidohid/fidohid.go:59-107 | over any run with n INITs the ids in use are exactly 1..n, and the program ends exactly when more than 2^32-2 are asked for |
| HidToken.InitReply | fidohid/fidohid.go:102-121 | the n-th INIT is answered in one frame; the 17 bytes a strict host reads on its channel are its own nonce byte by byte, cut off or zero-filled to eight, the fresh id n high byte first, and the version and capability bytes |
| HidHost.HostReceivesExactly | fidohid/fidohid.go:463-531 | a host that insists on its channel, on continuations numbered 0, 1, 2, ... and on their count reads what was sent if it has 1 to 7609 bytes, sees nothing of an empty payload and fails on a longer one |
| HidHost.OtherChannelsFail | fidohid/fidohid.go:488-513 | a host on another channel takes none of it |
| HidToken.ReplyReachesHost | fidohid/fidohid.go:452-531 | a strict host reads the data unchanged, followed by nothing for status 0 and otherwise by two bytes that are the status high byte first; all of it if it fits 7609 bytes and nothing otherwise |
| HidToken.OtherMessages | fidohid/fidohid.go:122-148 | commands 0x03 and 0x10 are queued on their channel, decoded and raw, with nothing sent; any other but INIT is answered with the bytes 6D 00 on its channel and changes nothing else |
| Apdu.DecodeAuthenticatorRequest | fidoauth/fidoauth.go:46-99 | the moving cursor with its early errors reads the fields at fixed offsets, for every input |
| Apdu.DecodesExactly | fidoauth/fidoauth.go:46-99 | which messages decode and to what kind: a header of seven bytes, 64 data bytes for a registration, 66, a known control byte and the whole handle for an authentication, and nothing more for any other command |
| Apdu.AuthenticateRoundTrip | fidoauth/fidoauth.go:64-93 | an encoded authenticate request decodes to itself if and only if its control byte is known and handle or trailing bytes are there |
| Apdu.RegisterRoundTrip | fidoauth/fidoauth.go:55-63 | an encoded register request with any trailing bytes decodes to itself |
| Apdu.AuthenticateIsCanonical | fidoauth/fidoauth.go:64-93 | every accepted authenticate request is an encoding of what was decoded from it |
| Lencode.Encoder.Encode | internal/lencode/lencode.go:54-73 | one call does to stream and sticky error what the step function says, writer failures included |
| Lencode.Encoder.Write | internal/lencode/lencode.go:75-86 | nothing is written after an error, a short write is the first one, and the sticky error is returned |
| Lencode.EncoderOverRun | internal/lencode/lencode.go:54-86 | after any calls the stream is the records before the first message that is too long, cut where the writer failed, and the error is the first one |
| Lencode.Decoder.ReadPrefix | internal/lencode/lencode.go:169-195 | separator and length are read once, and a mismatch or a short read is final |
| Lencode.Decoder.DecodeInto | internal/lencode/lencode.go:131-153 | the message goes to the front of the slice, the rest of it untouched, with every error and the panic on a small capacity |
| Lencode.Decoder.Decode | internal/lencode/lencode.go:114-126 | one record is read into a fresh slice or the sticky error is returned |
| Lencode.Decoder.NextLen | internal/lencode/lencode.go:156-167 | reports the pending length, reading at most the prefix |
| Lencode.CodecRoundTrip | internal/lencode/lencode.go:54-195 | any messages of at most 255 bytes under any separator, none included, decode back and end in a clean end of file |
| Lencode.CodecCanonical | internal/lencode/lencode.go:114-195 | decoding until the first error ends cleanly if and only if the stream is an encoder's output; otherwise in a mismatch or an unexpected end after the complete records |
| Lencode.CodecEndsExactly | internal/lencode/lencode.go:114-195 | how decoding ends, told by what follows the complete records: end of file if nothing does, a mismatch if it is longer than the separator and begins with something else, and an unexpected end otherwise |
| Lencode.EncodedIsInjective | internal/lencode/lencode.go:54-73 | different message lists have different streams |
| Lencode.ErrorsAreFinal | internal/lencode/lencode.go:131-195 | once an error is set every later call returns it and reads nothing |
| Lencode.NextLenIsTransparent | internal/lencode/lencode.go:156-167 | asking for the length changes nothing about what is decoded next, and the length is that message's |
| Lencode.DecodeIntoExactly | internal/lencode/lencode.go:128-153 | decoding into a slice works if and only if its length is at most, and its capacity at least, that of the message; a longer slice is an error and a smaller capacity a panic |
| Lencode.LargeEnoughIsRefused | internal/lencode/lencode.go:128-139 | a concrete message and a larger slice for which the documented use fails |
| KeyHandle.Pack | tpm/tpm.go:172-177 | three unchecked calls leave the records before the first part that is too long |
| KeyHandle.Parse | tpm/tpm.go:230-252 | four calls accept exactly the handles of three records |
| KeyHandle.AcceptedExactly | tpm/tpm.go:230-252 | a handle is accepted if and only if it is three tagged records, and its parts are unique |
| KeyHandle.PackedParsesBack | tpm/tpm.go:172-252 | a packed handle parses to its own parts if all are at most 255 bytes and is refused otherwise |
| KeyHandle.PackedLayout | tpm/tpm.go:172-177 | the bytes of a packed handle: three times "TPM", a length and a part, private part first |
| KeyHandle.PackedLength | tpm/tpm.go:175-177 | a handle is twelve bytes longer than its parts |
| KeyHandle.AcceptedIsLong | tpm/tpm.go:230-252 | no handle shorter than twelve bytes is accepted |
| CredStore.CredStore.Load | ctap2/credstore.go:35-48 | a missing file is the empty list, an unreadable or unparsable one an error |
| CredStore.CredStore.Store | ctap2/credstore.go:50-63 | whatever step fails or crashes, the visible file is the complete old or the complete new list |
| CredStore.CredStore.Save | ctap2/credstore.go:66-78 | replaces the first entry with the id or appends, all or nothing, and reports success exactly when every step worked |
| CredStore.CredStore.FindByRPID | ctap2/credstore.go:81-93 | the entries of the RP in file order, or an error |
| CredStore.RunsLeaveCompleteLists | ctap2/credstore.go:50-78 | from no file or any list, after any saves with any failures and crashes, the file is untouched if no save was effective and otherwise the list that the effective saves make of what was there |
| CredStore.AcknowledgedIsEffective | ctap2/credstore.go:66-78 | every acknowledged save is among the effective ones |
| CredStore.UnreadableStays | ctap2/credstore.go:35-78 | a file that cannot be read, or does not parse, is never replaced and no save succeeds |
| CredStore.SavesKeepInsertionOrder | ctap2/credstore.go:66-78 | from no file the stored ids are distinct and in order of first insertion |
| CredStore.LastWriteWins | ctap2/credstore.go:71-74 | each stored credential is the last one saved under its id |
| CredStore.DistinctListIsItsSaves | ctap2/credstore.go:66-78 | a list with distinct ids is what saving its entries leaves, so both refinements carry over restarts |
| CredStore.MatchingExactly | ctap2/credstore.go:86-91 | exactly the stored credentials of the RP are found |
| CredStore.MatchingAppend | ctap2/credstore.go:86-91 | the search keeps the order of the list |
| CredStore.SavedIsFound | ctap2/credstore.go:66-93 | on top of any list a saved credential is found with all its fields after any later saves under other ids |
| CredStore.EarliestStaysFirst | ctap2/credstore.go:66-93 | saves under new ids never change which credential is found first for an RP |
| Pinentry.Pinentry.ConfirmPresence | pinentry/pinentry.go:45-79 | its critical section is the step that opens, joins or refuses |
| Pinentry.Pinentry.ClearActive | pinentry/pinentry.go:91-93 | its critical section is the step that clears the field unconditionally |
| Pinentry.StepKeepsInvariant | pinentry/pinentry.go:45-143 | every step of every participant keeps the protocol's invariant |
| Pinentry.InvariantHolds | pinentry/pinentry.go:45-143 | the invariant holds after every interleaving |
| Pinentry.OneDialogAndOwnClear | pinentry/pinentry.go:68-93 | at most one prompt goroutine is alive, the field is set exactly then, and a clear only ever clears its own request |
| Pinentry.OkIsForOwnPair | pinentry/pinentry.go:51-143 | a result comes from a dialog for the caller's own pair: OK only if the user accepted there, a refusal without error only if the user refused, and nobody else received it |
| Pinentry.AllAnsweredExactly | pinentry/pinentry.go:65-86 | once a request's result has been received, in every continuation, only its receiver is ever answered: all sharing callers are if and only if there is one |
| Pinentry.RetryStarvesFirstCall | pinentry/pinentry.go:51-66 | a schedule in which a retry gets the OK and the first call never gets an answer |
| Pinentry.ExtendersStayWithTheirRequest | pinentry/pinentry.go:56-63 | a late extender reaches the active request it was made for or nobody |
| Pinentry.HeldByDialog | pinentry/pinentry.go:102-118 | before the pinentry process returns, callers, extenders and timers never change who is active |
| Pinentry.ReleasedAfterOwnSteps | pinentry/pinentry.go:82-143 | after it has returned, whatever anyone does, the goroutine has at most three steps left, can always take the next, and has released the request exactly when it has taken them |
| Pinentry.DialogIsReleased | pinentry/pinentry.go:81-143 | in every reachable state with an active request, steps without the pinentry process can release it if and only if that process has returned |
| Fprintd.DrainSignals | fprintd/fprintd.go:23-33 | every buffered signal is dropped and counted |
| Fprintd.WaitForVerifyResult | fprintd/fprintd.go:157-177 | the loop returns what the signals amount to, a timeout if none is terminal |
| Fprintd.VerifyFingerprint | fprintd/fprintd.go:70-155 | result and device calls on every exit path, deferred ones included |
| Fprintd.VerifyClaimed | fprintd/fprintd.go:108-155 | the scan started once is stopped when the attempts end |
| Fprintd.AttemptLoop | fprintd/fprintd.go:116-154 | the loop returns the verdict of the first attempt that is not a no-match, or of the third |
| Fprintd.OneAttempt | fprintd/fprintd.go:117-142 | restart, settling, draining and listening of one attempt with their early returns |
| Fprintd.HeardIsFirstTerminal | fprintd/fprintd.go:157-195 | match, no match, timeout and every other status are exactly what the first terminal signal says |
| Fprintd.VerdictExactly | fprintd/fprintd.go:117-150 | an attempt matches, or fails to, if and only if it gets to listen and its first terminal signal after draining says so |
| Fprintd.RetryExactly | fprintd/fprintd.go:116-154 | over every schedule: success if and only if some attempt matched after no-matches only, "no match" if and only if all three ended so, anything else stops at once |
| Fprintd.AttemptsExactly | fprintd/fprintd.go:116-154 | exactly one attempt decides, after no-matches only and as the third at the latest; the scan is started once for each attempt that gets so far and stopped once for each, with claim and release the only other calls; the result is what became of that attempt |
| Fprintd.RefusedExactly | fprintd/fprintd.go:70-114 | the refusals are exactly a failing connection, device list, subscription, claim or start, with no call without a device and nothing stopped that was not started |
| Fprintd.CallDiscipline | fprintd/fprintd.go:103-131 | on every exit path a claimed device is released once and last, a started scan is stopped before, and none is started twice without a stop |
| FprintdSharing.SharedScanner.VerifyPresence | fprintd/fprintd.go:49-59 | a call joins the scan in progress or starts one |
| FprintdSharing.SharedScanner.ClearActive | fprintd/fprintd.go:62-64 | the field is cleared unconditionally before the result is sent |
| FprintdSharing.RunKeepsInvariant | fprintd/fprintd.go:49-68 | the invariant of the sharing protocol is kept by every interleaving |
| FprintdSharing.OneScanAtATime | fprintd/fprintd.go:53-66 | at most one scan runs, a goroutine clears only its own, and sending never blocks |
| FprintdSharing.AnswerIsOfOwnScan | fprintd/fprintd.go:53-66 | a caller's result is that of the scan it was given, OK only after a match |
| FprintdSharing.AllAnsweredExactly | fprintd/fprintd.go:53-66 | once a scan's result has been received, in every continuation, only its receiver is ever answered: all sharing callers are if and only if there is one |
| FprintdSharing.SecondCallerStarvesFirst | fprintd/fprintd.go:53-66 | a schedule in which two callers share a scan and one is left waiting |
| FprintdSharing.DeviceIsNeverShared | fprintd/fprintd.go:49-131 | over every interleaving the device sees whole scans one after the other, in turn, with nothing left over between them |
| UvCache.CachingVerifier.VerifyUser | main.go:139-148 | its first critical section is the hit-or-miss step |
| UvCache.CachingVerifier.Receive | main.go:155-157 | a goroutine takes the inner verdict |
| UvCache.CachingVerifier.Record | main.go:158-160 | its critical section stores the time at which it runs |
| UvCache.StepKeepsInvariant | main.go:139-165 | every step keeps the invariant that ties the field to the history |
| UvCache.InvariantHolds | main.go:139-165 | after every interleaving the stored time is that of the latest recorded success, every hit and miss was decided by it, and every verdict and record belongs to a call that was a miss |
| UvCache.HitExactly | main.go:141-146 | a call is a hit if and only if a success was recorded less than ttl before it |
| UvCache.EveryHitIsCovered | main.go:141-146 | every hit at t has a success recorded at s with 0 <= t-s < ttl, backed by an inner OK no later than s to a call that was a miss no later than that |
| UvCache.HitsSpanLessThanTtl | main.go:139-165 | hits never renew the window: hits without a record between them lie within one ttl |
| UvCache.VerdictAgeExactly | main.go:155-161 | in every reachable state about to record: all hits that ever rest on the record come less than ttl after the user's verdict if and only if the clock has not advanced since it |
| AuthData.FlagsSayWhatTheyMean | main.go:634-637 | bit 0 is always set, bit 2 exactly if the verifier identifies, bit 6 exactly with attested data, and no other bit ever |
| AuthData.AssertionDataParses | main.go:764-775 | assertion data parses back to hash, flags and counter |
| AuthData.AttestedDataParses | main.go:632-647 | registration data parses back to hash, flags, counter, handle and key if and only if the handle is below 65536 bytes |
| ServerInvariant.MakeCredentialAnswers | main.go:530-681 | on every path exactly one reply, the last effect, and the server's invariant is kept |
| ServerInvariant.GetAssertionAnswers | main.go:684-811 | on every path exactly one reply, the last effect, and the server's invariant is kept |
| ServerInvariant.Ctap2Answers | main.go:484-501 | every CTAP2 request, whatever its bytes, is answered by exactly one reply and never ends the program |
| ServerInvariant.AuthenticateFollows | main.go:277-391 | exactly one reply unless the signer fails after accepting the handle, which is exactly when the program ends |
| ServerInvariant.RegisterSiteFollows | main.go:435-481 | exactly one reply unless key, handle length or attestation fail, and then none; the program ends exactly if the attestation of a key fails |
| ServerInvariant.RegisterFollows | main.go:393-433 | exactly one reply unless the user approves and the registration itself gives none; the program ends exactly if the user approves and the attestation fails |
| ServerInvariant.EventFollows | main.go:236-266 | exactly which events are answered, each once, and exactly which ones end the program, keeping the server's invariant |
| ServerInvariant.AskFollows | main.go:139-165 | a call of the verifier adds one effect, logged as the prompt or the hit that the cache made of it, and changes neither keys nor store |
| ServerInvariant.RunFollows | main.go:236-267 | over every run, from any keys and store, both change only as the effects say, new stored credentials are under registered pairs, every call of the verifier is logged as what the cache made of it, and every signature is justified |
| RunProperties.RunsAreSafe | main.go:139-267 | over every run nothing but the probe digest is signed unless the signed data says that nobody was present, or right after a U2F confirmation, a prompt the user approved for this purpose and RP, or a cache hit resting on a success recorded less than ttl before, behind an inner OK to an earlier prompt |
| RunProperties.AskedExactly | main.go:139-150 | over every run a call of the verifier asks the user if and only if no success was recorded less than ttl before it |
| RunProperties.FreshCacheServesAnySite | main.go:141-147 | while the cache is fresh an assertion for any site goes through without a prompt, exactly if signer and encoder allow |
| RunProperties.SecondSiteIsSignedUnasked | main.go:139-165 | a run of two requests in which the user is only asked about the first site and the second is signed too |
| RunProperties.RunsCompose | main.go:236-267 | events are handled in order, each in the state that the ones before it have left |
| RunProperties.Ctap2RunsAreAnswered | main.go:236-241 | a run of CTAP2 events has exactly as many replies as events |
| AuthProperties.FirstSignableExactly | main.go:715-720 | the scan stops at exactly the first id that can be signed with |
| AuthProperties.ScanLeavesProbes | main.go:715-720 | its effects are a probe for each id up to that one and none after |
| AuthProperties.EmptyIsRefused | main.go:715-725 | no backend accepts an empty handle, so an entry without an id never ends the search |
| AuthProperties.OpensExactly | tpm/tpm.go:230-252 | the TPM opens exactly three records tagged "TPM" with one-byte lengths, the in-memory backend exactly what has at least 24 bytes |
| AuthProperties.ProbeDigest | main.go:714-716 | the digest of a probe is the hash of the text "meticulously-Bacardi" |
| AuthProperties.ChoiceExactly | main.go:709-740 | the credential is the first signable entry of the allow list or the first one stored for the RP, with the status when there is none |
| AuthProperties.AssertionIsSafe | main.go:684-810 | a successful GetAssertion used the first signable allow-list entry or the first credential stored for the RP; the verifier's approval, by prompt or hit, comes right before the one signature over sha256(authData, clientDataHash), all earlier ones being probes; the signed data reads back to the RP's hash and the counter with the user present, and verified if and only if the verifier identifies; the reply names the stored credential's user |
| AuthProperties.AssertionReads | main.go:764-775 | assertion data parses to its own hash and counter, no credential, bit 0 set, and bit 2 set if and only if the verifier identifies |
| AuthProperties.AssertionStatus | main.go:684-810 | the status of every GetAssertion: 0x12 for malformed, 0x2C for verification that cannot be had, 0x27 for a store that cannot be read, 0x2E without a credential, 0x27, 0x3F or 0x2F for what the verifier did, and then 0x00 or 0x27 |
| AuthProperties.AssertionExactly | main.go:684-810 | GetAssertion succeeds if and only if the request is well-formed, allow list or store offers a credential, and verifier, signer and encoder allow |
| AuthProperties.ExclusionAfterApproval | main.go:569-604 | no exclude-list entry is tried before the verifier has let this registration through, and the user was asked about it exactly if the cache was not fresh |
| AuthProperties.EnrollOk | main.go:606-680 | behind a successful reply: one new key for the RP's hash, attested data that reads back to its own hash, flags, handle and key, and with rk the credential, all seven fields those of the request and the key, offered to the store before the reply |
| AuthProperties.RegistrationIsSound | main.go:530-681 | a successful MakeCredential: a request it can serve, the verifier's approval first, then every exclude-list entry tried in vain, then exactly the effects of one enrolment |
| AuthProperties.RegistrationExactly | main.go:530-681 | MakeCredential succeeds if and only if the request can be served, the verifier approves, no entry is excluded, and key and encodings work |
| AuthProperties.RegistrationStatus | main.go:530-681 | the status of every MakeCredential: 0x12 for malformed, 0x26 without ES256, 0x2C for verification that cannot be had, 0x27, 0x3F or 0x2F for what the verifier did, 0x19 for an excluded credential the signer knows, and then 0x00 or 0x27 |
| AuthProperties.VerifiedExactly | main.go:73-78 | a hit approves; on a miss the verdict of the call, if it is there in time, is passed on as approval or rejection with its reason, and anything else is no answer |
| AuthProperties.AuthenticateExactly | main.go:277-391 | every outcome of a U2F authentication: an unknown handle 0x6A80 without asking, check-only 0x6985 without signing, a signature with presence 0 unasked or 1 after the confirmation of this request, 0x6A80 for a rejection and 0x6985 for no answer; the signature is over application parameter, the first five reply bytes and challenge |
| AuthProperties.RegisterSiteExactly | main.go:435-481 | the reply of a U2F registration as the relying party checks it: what is attested is a zero byte, application parameter, challenge, and handle and public key as they stand in the reply |
| AuthProperties.RegisterExactly | main.go:393-433 | every outcome of a U2F registration: that reply after the user's confirmation of this very request, 0x6A80 for a rejection, 0x6985 for no answer |
| AuthProperties.RegistrationDataParses | main.go:632-647 | the relying party reads back hash, counter, handle, key and honest flags |
| Requests.RegistrationsAreServed | main.go:484-501 | an event with the bytes 0x01 and a payload is that registration, and succeeds if and only if the payload can be registered with |
| Requests.LoginsAreServed | main.go:484-501 | one with 0x02 is that assertion, and succeeds if and only if it can be served |
| Requests.InfoIsTold | main.go:505-527 | one with 0x04 is answered with both versions, a zero AAGUID, resident keys, presence, verification if and only if the verifier identifies, and a message size that can be framed |
| Requests.OtherCommandsAreRefused | main.go:484-501 | an empty request is answered 0x12 and any other command byte 0x30, with no other effect |
| Requests.U2fRegistrationIsServed | main.go:393-481 | a U2F registration from its bytes: the user is asked about the challenge and application parameter in the message, and answered for accordingly |
| Requests.U2fAuthenticationIsServed | main.go:277-391 | a U2F authentication from its bytes, with control byte and handle at their offsets, ends in exactly one of its five ways |
| Requests.OtherU2fMessages | main.go:236-275 | a version request is answered "U2F_V2" with 0x9000, another command 0x6E00, and a message that cannot be decoded not at all |
| Requests.OnlyRegisteredKeysSign | main.go:236-267 | over every run whatever was signed was signed with a key there from the start or registered in the run, under its own application parameter |
| Login.LoginExactly | main.go:726-810 | in every state an event 0x02 without an allow list is refused with 0x2E exactly if the RP has no credential, and otherwise succeeds if and only if the verifier approves, the signer accepts the first one and is up, and the reply can be encoded |
| Login.StoredStays | ctap2/credstore.go:66-93 | over any further events a stored credential stays found with all its fields until its id is saved again |
| Login.LoginUsesEarliest | main.go:726-740 | while only new ids are saved, the login keeps using the credential of the RP that was inserted first |
| Login.StoreStaysKnown | main.go:664-673 | if the signer knows every stored credential at the start, it does so ever after |
| Login.StaleCredentialBlocksLogin | main.go:726-788 | a first credential that the signer does not know turns every login event of its RP down, also after new registrations |
| Login.RegistrationStores | main.go:663-681 | an event 0x01 with rk that is answered with OK and whose save works stores the credential of the request, field by field, under a registered pair |
| Login.RegisteredIsDiscoverable | main.go:663-740 | after such an event and any further ones the credential is found with the request's names of RP and user, and a login event of its RP is never refused for want of one |
| Login.FirstRegistrationLogsIn | main.go:663-740 | for an RP without credentials, while only new ids are saved, the login uses that very credential, whose pair the signer knows |
| Login.RegisteredIsKnownLater | main.go:393-481 | from the bytes of a U2F registration: its reply checks out, and after any further events a check-only request encoded with the handle in that reply is answered 0x6985, if and only if the backend can open it and the signer is up |
| AuthProperties.RegistrationReplyLayout | main.go:468-474 | the fields of a registration reply at the offsets the format gives them |
| AuthProperties.RegistrationReplyFits | attestation/attestation.go:20-39 | with the fixed certificate every registration reply has at most 782 bytes and fits one message |
| Handlers.AuthServer.HandleCtap2 | main.go:484-501 | the dispatch on the command byte is that of the specification function, which the three lemmas of `Requests` on CTAP2 pin byte by byte |
| Handlers.AuthServer.VerifyUser | main.go:139-165 | one call of the caching verifier, with what goes on around it: the effect, the cache afterwards and the answer |
| Handlers.AuthServer.HandleGetInfo | main.go:505-527 | versions, options and message size of the reply, with uv exactly as the verifier does it |
| Handlers.AuthServer.HandleMakeCredential | main.go:530-604 | the checks with their early returns do what the specification function says |
| Handlers.AuthServer.HasES256 | main.go:547-553 | true if and only if -7 is among the algorithms |
| Handlers.AuthServer.IsExcluded | main.go:595-604 | true if and only if the scan stops before the end, with its probes |
| Handlers.AuthServer.FinishRegistration | main.go:606-681 | key, byte buffer, encoding, save and reply are those of the specification function |
| Handlers.AuthServer.HandleGetAssertion | main.go:684-740 | checks and choice of credential are those of the specification function |
| Handlers.AuthServer.FindSignable | main.go:715-720 | returns the id at which the scan stops, with its probes |
| Handlers.AuthServer.FinishAssertion | main.go:742-810 | approval, byte buffer, signature and reply are those of the specification function, whose buffer `AuthProperties.AssertionReads` reads back |
| Handlers.AuthServer.HandleAuthenticate | main.go:277-391 | the U2F authentication with its early returns is the specification function's, whose signed bytes `AuthProperties.AuthenticateExactly` writes out |
| Handlers.AuthServer.HandleRegister | main.go:393-433 | the user's answer decides between registration and the two status words |
| Handlers.AuthServer.RegisterSite | main.go:435-481 | signed data and reply buffer are those of the specification function |
| Handlers.AuthServer.Run | main.go:236-267 | the event loop handles all events in order until the program ends |
| EndToEnd.MessageIsServed | fidohid/fidohid.go:58-149 | after any device events the reports of one message are served as that message and nothing else |
| EndToEnd.Ctap2Exchange | main.go:236-241 | a CTAP2 request sent after anything at all is queued as sent and answered once on its channel, and a strict host there reads status byte and body if they fit 7609 bytes and fails otherwise |
| EndToEnd.U2fRegistrationExchange | main.go:393-481 | a U2F registration travels from encoded request to a reply that checks out for the relying party and that a strict host reads followed by 90 00 |

## Left out

- CBOR encoding and decoding (fxamacker/cbor is not part of this model): the codecs are function parameters that may fail; the proofs do not need them to be injective.
- JSON: reading a stored list back gives that list; key order and text form are not modelled.
- Cryptography, the TPM commands, `memory/memory.go` and the key templates: an ideal signer accepts a handle that its backend can open, and only under the application parameter it was registered with, and may be down at any time; of the in-memory handles only the length check is modelled; hashing is a function parameter.
- The uhid device, the D-Bus connection and the launching of a pinentry program: their answers are parameters of a schedule.
- Cancellation of the context in `Run` and `parsePackets`, which the program never cancels.
- Errors of reply writes in the handlers, which only log them; in the framing they are modelled.
- Timers: how long a timer runs and how `Stop`, drain and `Reset` behave in Go is not modelled; a timer may fire at any step.
- `ConfirmGeneric`: it is `ConfirmPresence` with a random nonce as both parameters; that two nonces differ is not modelled.
- Handlers.AuthServer.SaveCredential: saving either works or leaves the list as it was; crashes between the file operations are modelled in `CredStore` only.
- The inner verifier (dialog or scans) appears to the cache as a verdict at some time; those two protocols are proved on their own.
- `x.FillBytes` and `y.FillBytes`: coordinates are taken to be 32 bytes long, as P-256 points have.
- UvCache.CachingVerifier.VerifyUser: the zero time that marks "no success yet" is an option value, and the five seconds are the parameter `ttl`.
- Lencode.Encoder.Encode: a failing writer is one that runs out of room; one that fails and then recovers is not modelled, since the encoder does not call it again.
- Interleaved messages on several channels: the reassembler does not support them; the model says what it does instead.
- `sitesignatures`, `statuscode`, `ctap2/ctap2.go`, flags, logging and `install.sh`: tables and plumbing of which only the constants in use are taken.

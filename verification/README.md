# Mobile Fingerprint Unlock: a verified model

A phone unlocks a Windows PC. It pairs once by a six-digit PIN shown on the PC, and from then on
answers challenges with an ECDSA signature over an 88-byte message. This project models the parts
of that system whose correctness is not visible in any single function, and proves it.

| file | models |
|---|---|
| `Bytes.dfy` | octets, big-endian values, little-endian memory images, byte swaps |
| `Text.dfy` | white space as the C library skips it |
| `Protocol.dfy` | frame header and canonical signed message, the C++ and the Dart serializer |
| `DeviceIds.dfy` | device identities and their text form |
| `SasPins.dfy` | generation and validation of the pairing PIN |
| `Crypto.dfy` | SubjectPublicKeyInfo parsing, key normalization, shape of signature verification |
| `DerSignatures.dfy` | DER and fixed-width signature conversion |
| `Framing.dfy` | frame reassembly from TCP reads, with SChannel as a parameter |
| `ConnectionLimiter.dfy` | per-address connection limiter |
| `DeviceRegistry.dfy` | the registry of paired devices |
| `Authentication.dfy` | the challenge/response state machine |
| `AuthenticationLog.dfy` | its refinement of a specification on logs alone |
| `AuthenticationRuns.dfy` | no replay, one grant per challenge, bounded guessing |
| `Pairing.dfy` | the pairing state machine |
| `UnlockSystem.dfy` | pairing and authentication interleaved over one registry |
| `AccountCap.dfy` | what the limit of five devices per account guarantees |
| `PairingThrottle.dfy` | what the throttle on failed pairing confirmations guarantees |
| `PairingAnswers.dfy` | every answer of the pairing manager, read off the log |
| `LsaPackage.dfy` | the logon decision inside LSA, its heap discipline, agreement with the service |
| `Logon.dfy` | from pairing to the user name reported to Windows |
| `Discovery.dfy` | printing and parsing of discovery announcements |

State that the source updates in place is a class whose methods follow the source branch by branch
and are proved against transition functions (`Request`, `Respond`, `OnRequest`, `OnConfirm`,
`Receive`, `Decide`). Whole runs are logs: sequences of calls with their answers, legal when the
answers are the ones the transition functions give. The theorems are about all legal logs.

Clocks, random draws and the outcome of registry and heap calls are parameters; so are the SID lookup,
the signature primitive and SChannel, as functions. Every handler the source runs under a lock is one step.
Where a handler reads the clock several times, each reading is a parameter of its own.

## Model

| member | source | states |
|---|---|---|
| `Bytes.StoreSwapped` | shared/protocol/ProtocolTypes.h:114-140 | storing a byte-swapped integer on a little-endian host writes its big-endian form, for any width |
| `Bytes.LoadSwapped` | shared/protocol/ProtocolTypes.h:114-140 | loading wire octets and swapping gives their big-endian value, for any width |
| `Protocol.SerializeFrameHeader` | shared/protocol/ProtocolTypes.h:143-156 | swap-and-copy produces the big-endian header |
| `Protocol.DeserializeFrameHeader` | shared/protocol/ProtocolTypes.h:188-209 | accepts exactly headers with the magic, major version 1, a known opcode and length at most 4096, read big-endian |
| `Protocol.HeaderAcceptedExactly` | shared/protocol/ProtocolTypes.h:188-209 | octet by octet: a buffer is read as a header if and only if it opens with 4D 55 01, has a known opcode in octets 4 and 5 and a length up to 4096, and each field is the big-endian value of its own octets |
| `Protocol.HeaderReadsBack` | shared/protocol/ProtocolTypes.h:143-209 | a printed header is read back whatever follows it |
| `Protocol.HeaderReprints` | shared/protocol/ProtocolTypes.h:143-209 | printing what was read restores the 24 octets |
| `Protocol.SerializeSignedMessage` | shared/protocol/SignedMessage.h:38-53 | swap-and-copy produces the canonical 88 octets |
| `Protocol.DeserializeSignedMessage` | shared/protocol/SignedMessage.h:56-79 | swap-and-load decodes exactly the acceptable 88-octet buffers |
| `Protocol.MessageAcceptedExactly` | shared/protocol/SignedMessage.h:56-79 | octet by octet: a buffer is read as a message if and only if it has 88 octets, version 1.0 and a known opcode, and each field is its own octets |
| `Protocol.VerifiedBytesAreTransmittedBytes` | shared/protocol/SignedMessage.h:38-79 | re-serializing an accepted buffer gives the received octets; accepted buffers are exactly the canonical forms of acceptable messages, and each decodes to its message |
| `Protocol.ToCanonicalBytes` | android/flutter_app/lib/models/canonical_signed_message.dart:29-73 | the offset writer produces the canonical octets of the message with its 64-bit fields clamped by toInt() |
| `Protocol.SerializersAgree` | android/flutter_app/lib/models/canonical_signed_message.dart:29-73 | the phone's octets equal the PC's if and only if session id and timestamp are below 2^63; of any other message the PC reads 2^63 - 1 in the field that is not, and the rest unchanged |
| `DeviceIds.DeviceIdFromString` | windows/pairing/DeviceIdentity.cpp:20-39 | the strip and scan loops compute `FromText`, with what sscanf tolerates in a pair: white space, a plus sign, a lone digit |
| `DeviceIds.TextForm` | windows/pairing/DeviceIdentity.cpp:7-18 | character by character: hyphens at 8, 13, 18 and 23, and every octet as two lower-case hexadecimal digits at its place |
| `DeviceIds.TextRoundTrip` | windows/pairing/DeviceIdentity.cpp:7-39 | parsing undoes printing for every 16-octet identity |
| `DeviceIds.TextInjective` | windows/pairing/DeviceIdentity.cpp:7-18 | two devices share a key only if they are the same |
| `SasPins.GenerateSasPin` | windows/pairing/SasPin.cpp:24-42 | rejection sampling prints the residue of the first acceptable of at most 33 draws |
| `SasPins.PinOfFirstAcceptable` | windows/pairing/SasPin.cpp:24-42 | the PIN is the residue modulo 1000000 of a draw before which none is below 4294000000, and which is below it or the last of 33 |
| `SasPins.PinDecodes` | windows/pairing/SasPin.cpp:39-42 | every printed PIN is six digits and decodes to the residue of the accepted draw |
| `SasPins.PinsAreUniform` | windows/pairing/SasPin.cpp:24-42 | every well-formed PIN is printed by exactly 4294 of the draws below the limit |
| `SasPins.IsValidPinFormat` | windows/pairing/SasPin.cpp:45-51 | true exactly for six decimal digits |
| `SasPins.ValidateSasPin` | windows/pairing/SasPin.cpp:72-85 | the or-of-xor loop accepts exactly the stored PIN, at most 60 s old, with attempts left |
| `Crypto.ParseSpkiDer` | windows/crypto/CryptoManager.cpp:164-229 | the offset parser, with size_t wrap-around and its unchecked reads marked, computes `ParseSpki` |
| `Crypto.SpkiParses` | windows/crypto/CryptoManager.cpp:164-229 | for every SubjectPublicKeyInfo with definite lengths in any form and any algorithm identifier, no read is out of bounds and the result is exactly X and Y |
| `Crypto.SpkiAcceptedExactly` | windows/crypto/CryptoManager.cpp:164-229 | on any input the parser returns X and Y if and only if they are laid out in it behind the tags, lengths and the uncompressed-point marker |
| `Crypto.OutOfBoundsExactly` | windows/crypto/CryptoManager.cpp:164-229 | on any input the parser reads behind its end if and only if the algorithm tag is the last octet, or the end of the bit string wraps around 2^64 with fewer than two octets after its length |
| `Crypto.ModestLengthsStayInBounds` | windows/crypto/CryptoManager.cpp:164-229 | if the tag is not last and no length read reaches 2^64 minus the input size, every read is in bounds |
| `Crypto.BothOverrunsOccur` | windows/crypto/CryptoManager.cpp:184-213 | two inputs of 30 octets, one for each case |
| `Crypto.NormalizePublicKeyToEccBlob` | windows/crypto/CryptoManager.cpp:231-278 | the four-case code computes `NormalizeKey` |
| `Crypto.NormalizedExactly` | windows/crypto/CryptoManager.cpp:231-278 | a key normalizes to a blob if and only if it is one of the four forms of a point, and the blob is the magic, the length and that point |
| `Crypto.FourFormsAgree` | windows/crypto/CryptoManager.cpp:231-278 | blob, X and Y, uncompressed point and SubjectPublicKeyInfo of one point normalize to the same 72 octets |
| `Crypto.NormalizationIdempotent` | windows/crypto/CryptoManager.cpp:231-278 | every normalized key is 72 octets and normalizes to itself |
| `Crypto.ValidateAndAdaptSignature` | windows/crypto/CryptoManager.cpp:310-341 | accepts exactly 64 octets whose two halves are non-zero numbers |
| `Crypto.SignatureAcceptedExactly` | windows/crypto/CryptoManager.cpp:310-341 | octet by octet: 64 of them, one not zero in each half |
| `Crypto.VerifiesReceivedOctets` | windows/crypto/CryptoManager.cpp:376-393 | for every buffer that decodes, verification of the message is the primitive over the received octets themselves, under the normalized key |
| `Crypto.VerifyCanonicalSignedMessage` | windows/crypto/CryptoManager.cpp:343-393 | the answer is `Verifies`, which `VerifiesReceivedOctets` shows to be a signature over the octets received |
| `DerSignatures.NormalizeTo32Bytes` | android/flutter_app/android/app/src/main/kotlin/com/mobileunlock/DerToP1363Converter.kt:141-166 | returns the 32-octet big-endian form of the value, and fails exactly from 2^256 on |
| `DerSignatures.ParseDerInteger` | android/flutter_app/android/app/src/main/kotlin/com/mobileunlock/DerToP1363Converter.kt:109-139 | computes the INTEGER content and the offset behind it |
| `DerSignatures.DerToP1363` | android/flutter_app/android/app/src/main/kotlin/com/mobileunlock/DerToP1363Converter.kt:25-72 | the imperative converter computes `ToP1363` |
| `DerSignatures.EncodeIntegerToDer` | android/flutter_app/android/app/src/main/kotlin/com/mobileunlock/DerToP1363Converter.kt:168-188 | the strip loop and sign octet produce the encoding of the trimmed content |
| `DerSignatures.P1363ToDer` | android/flutter_app/android/app/src/main/kotlin/com/mobileunlock/DerToP1363Converter.kt:82-105 | succeeds exactly on 64 octets and computes `ToDer` |
| `DerSignatures.ContentIsMinimal` | android/flutter_app/android/app/src/main/kotlin/com/mobileunlock/DerToP1363Converter.kt:168-188 | the content written is minimal and positive (section 8.3 of ITU-T X.690) and keeps the value |
| `DerSignatures.MinimalUnique` | android/flutter_app/android/app/src/main/kotlin/com/mobileunlock/DerToP1363Converter.kt:168-188 | a value has only one minimal content |
| `DerSignatures.AcceptedExactly` | android/flutter_app/android/app/src/main/kotlin/com/mobileunlock/DerToP1363Converter.kt:25-166 | inputs are accepted exactly when they are a SEQUENCE of two INTEGERs, at most 74 octets, with unsigned values below 2^256, and the result is fixed by those values |
| `DerSignatures.HalvesKeepValues` | android/flutter_app/android/app/src/main/kotlin/com/mobileunlock/DerToP1363Converter.kt:25-166 | each half of the result has the unsigned value of its INTEGER content, minimal or not |
| `DerSignatures.Bijection` | android/flutter_app/android/app/src/main/kotlin/com/mobileunlock/DerToP1363Converter.kt:25-188 | the two conversions are inverse bijections between 64-octet strings and minimal DER of pairs below 2^256 |
| `Framing.ParseConserves` | windows/network/NetworkEngine.cpp:300-332 | frames read from a buffer, printed again, followed by the rest, are the buffer |
| `Framing.ParseExactly` | windows/network/NetworkEngine.cpp:300-332 | a parse is the right one if and only if its frames, acceptable and printed again, with its rest are the input, the rest holds no whole frame, and it drops exactly on a rest with an unacceptable header |
| `Framing.PrintedFramesReadBack` | windows/network/NetworkEngine.cpp:363-367 | any list of valid frames, printed as SendFrame does, is read back as the same list |
| `Framing.ChunkingIndependent` | windows/network/NetworkEngine.cpp:255-337 | every split of a stream starting with 0x4D delivers the frames of the one-pass parse in order and drops on the same streams, whatever SChannel does |
| `Framing.HandshakeWaits` | windows/network/NetworkEngine.cpp:257-291 | while the handshake neither completes nor fails, nothing behind a TLS record reaches the frame loop |
| `Framing.SecuredFollowsPlaintext` | windows/network/NetworkEngine.cpp:255-337 | behind a completed handshake every split delivers the frames of one parse of all the plaintext, and drops exactly when that parse does |
| `Framing.FailedHandshakeCloses` | windows/network/NetworkEngine.cpp:266-286 | a failed handshake closes the connection for good with nothing delivered |
| `Framing.DiscardedReads` | windows/network/NetworkEngine.cpp:257-264 | reads that open with neither octet leave the connection as if they had not come |
| `Framing.HandshakeDependsOnChunking` | windows/network/NetworkEngine.cpp:266-288 | each read goes to SChannel alone, so a handshake can fail or go on depending on how its first record is split |
| `Framing.OtherStreamsDependOnChunking` | windows/network/NetworkEngine.cpp:257-264 | for each other first octet, a frame behind it is lost in one split and delivered in another, whatever SChannel does |
| `Framing.IndependentExactly` | windows/network/NetworkEngine.cpp:255-337 | chunking is irrelevant whatever SChannel does if and only if the first octet is 0x4D, and for some SChannel if and only if it is 0x4D or 0x16 |
| `Framing.ReadsConserve` | windows/network/NetworkEngine.cpp:288-332 | after any reads, plain or decrypted, the delivered frames printed again, with the buffer, are the octets taken; an open connection buffers at most 4119 octets and no buffer exceeds 8215 |
| `Framing.OpenTakesEverything` | windows/network/NetworkEngine.cpp:255-298 | an open connection on a stream starting with 0x4D has taken every octet received |
| `Framing.AssembleFrame` | windows/network/NetworkEngine.cpp:363-367 | frame assembly is header followed by payload |
| `Framing.ClientSession.DeliverFrames` | windows/network/NetworkEngine.cpp:300-332 | the in-place loop delivers the one-pass parse of the buffer and leaves its rest |
| `Framing.ClientSession.AcceptHandshake` | windows/network/NetworkEngine.cpp:266-286 | the handshake branch hands the read to SChannel and goes on, becomes active and secured, or drops as `Handshake` does, which `HandshakeWaits`, `SecuredFollowsPlaintext` and `FailedHandshakeCloses` determine |
| `Framing.ClientSession.OnRead` | windows/network/NetworkEngine.cpp:255-337 | one read updates phase, buffer, deliveries, socket and TLS state as `Receive` does |
| `Framing.ClientWorkerLoop` | windows/network/NetworkEngine.cpp:228-338 | the worker loop delivers and drops as the reads prescribe that come before an error or thirty silent seconds, and reads nothing after a drop |
| `Framing.HeardExactly` | windows/network/NetworkEngine.cpp:242-254 | the reads processed are exactly those before the first call that fails, or times out more than thirty seconds after the last read |
| `ConnectionLimiter.Limiter.CheckRateLimit` | windows/network/NetworkEngine.cpp:31-71 | the table update and answer are `Decide`, with 32-bit wrap-around |
| `ConnectionLimiter.AdmittedExactly` | windows/network/NetworkEngine.cpp:31-71 | after any timely run an attempt is refused if and only if a block was set less than fifteen minutes ago, or the current window is at most a minute old and has admitted five |
| `ConnectionLimiter.CountsStayBounded` | windows/network/NetworkEngine.cpp:31-71 | attempt counts stay within 1 to 6, and 6 means blocked for 15 minutes from the sixth attempt |
| `ConnectionLimiter.WindowAdmitsFive` | windows/network/NetworkEngine.cpp:52-61 | exactly the first five attempts of the current fixed window were admitted |
| `ConnectionLimiter.MinuteBound` | windows/network/NetworkEngine.cpp:31-71 | a closed minute admits at most five connections and as many more as the window open at its start has places |
| `ConnectionLimiter.SlidingWindow` | windows/network/NetworkEngine.cpp:31-71 | any closed minute admits at most nine connections from one address |
| `ConnectionLimiter.FiveHoldsExactly` | windows/network/NetworkEngine.cpp:31-71 | the documented five holds for the minute from `lo` on, over all continuations, if and only if no window with places left is open at `lo` |
| `ConnectionLimiter.NineIsReached` | windows/network/NetworkEngine.cpp:31-71 | a run admits nine within a minute, so the bound of nine cannot be lowered |
| `ConnectionLimiter.BlockedMeansRefused` | windows/network/NetworkEngine.cpp:47-67 | after a block set at time b nothing from that address is admitted before b + 900000 |
| `ConnectionLimiter.BlocksHaveCauses` | windows/network/NetworkEngine.cpp:61-67 | every block in force was set by an attempt of the same address exactly 15 minutes before its end |
| `DeviceRegistry.Registry.WriteDeviceRecord` | windows/pairing/DeviceRegistry.cpp:88-153 | writes every value, keeps the old key when the new one is empty, changes nothing when the key cannot be created |
| `DeviceRegistry.Registry.ReadDeviceRecord` | windows/pairing/DeviceRegistry.cpp:155-219 | reads the stored values, with over-long text and keys read as empty |
| `DeviceRegistry.Registry.SetDeviceStatus` | windows/pairing/DeviceRegistry.cpp:221-231 | sets the status of an existing record only |
| `DeviceRegistry.Registry.UpdateLastSeen` | windows/pairing/DeviceRegistry.cpp:233-246 | sets the last-seen time of an existing record only |
| `DeviceRegistry.Registry.DeleteDeviceRecord` | windows/pairing/DeviceRegistry.cpp:248-251 | removes the record; absence is not an error |
| `DeviceRegistry.Registry.CountActiveDevicesForAccount` | windows/pairing/DeviceRegistry.cpp:259-271 | the loop counts exactly the active devices of the account, in any enumeration order |
| `DeviceRegistry.ReadAfterWrite` | windows/pairing/DeviceRegistry.cpp:88-219 | what a write leaves to read back in every value, with over-long keys and text lost and text cut at a NUL, and that other records are untouched |
| `Authentication.AuthenticationManager.IsRateLimited` | windows/authentication/AuthenticationManager.cpp:75-88 | tells whether the lockout is running and clears an expired one |
| `Authentication.AuthenticationManager.RecordFailure` | windows/authentication/AuthenticationManager.cpp:90-96 | counts the failure and sets the lockout at the third |
| `Authentication.AuthenticationManager.HandleAuthRequest` | windows/authentication/AuthenticationManager.cpp:102-211 | state and answer follow `Request`, whose answers `ChallengedExactly` and `IssuedExactly` determine |
| `Authentication.AuthenticationManager.CheckResponse` | windows/authentication/AuthenticationManager.cpp:283-402 | the verdict, the used-up challenge, the failure record and the registry after the checks behind the limiter |
| `Authentication.AuthenticationManager.HandleAuthResponse` | windows/authentication/AuthenticationManager.cpp:213-407 | state, answer and registry follow `Respond` |
| `Authentication.RequestIsolated` | windows/authentication/AuthenticationManager.cpp:102-211 | a request leaves every other device's challenge and lockout entry unchanged |
| `Authentication.ResponseIsolated` | windows/authentication/AuthenticationManager.cpp:213-407 | a response leaves every other device's challenge, lockout entry and record unchanged |
| `AuthenticationLog.LimitsMirrorLog` | windows/authentication/AuthenticationManager.cpp:75-100 | failedCount is at most 3, is 3 exactly while a lockout is set, and equals the failures since the last success modulo 3 |
| `AuthenticationLog.LockedOutExactly` | windows/authentication/AuthenticationManager.cpp:75-100 | a device is locked out exactly when some third failure since a success has not been seen expired, for arbitrary clocks |
| `AuthenticationLog.FailuresNeverAge` | windows/authentication/AuthenticationManager.cpp:90-96 | three failures at any three times lock the device out |
| `AuthenticationLog.ChallengesMirrorLog` | windows/authentication/AuthenticationManager.cpp:161-180 | the stored challenge is the latest one issued and is consumed exactly when some response reached it |
| `AuthenticationLog.ChallengedExactly` | windows/authentication/AuthenticationManager.cpp:102-211 | after any run a challenge is issued if and only if the device is not locked out, is active with a key and the random source delivers, with the drawn nonce and the time of the request; each refusal has its own condition |
| `AuthenticationLog.GrantedExactly` | windows/authentication/AuthenticationManager.cpp:213-407 | a response is granted if and only if the log says so: well-formed, not locked out, active with a key, latest challenge unreached and at most 30 s old, session and nonce match, signature verifies |
| `AuthenticationLog.RefusedExactly` | windows/authentication/AuthenticationManager.cpp:316-392 | each refusal behind the registry checks is given exactly when the log calls for it |
| `AuthenticationLog.TurnedAwayExactly` | windows/authentication/AuthenticationManager.cpp:231-281 | size, format and lockout refusals, each exactly when they apply |
| `AuthenticationLog.UnfitExactly` | windows/authentication/AuthenticationManager.cpp:283-316 | unknown device, revoked device and missing key, each exactly when the registry says so |
| `AuthenticationRuns.IssuedNumber` | windows/authentication/AuthenticationManager.cpp:161-166 | the n-th number taken from the session counter is n |
| `AuthenticationRuns.IssuedExactly` | windows/authentication/AuthenticationManager.cpp:161-189 | the answer is the challenge (n, x, t) if and only if the request is admissible, n is one more than the numbers drawn in the log modulo 2^64, x was drawn and t is now |
| `AuthenticationRuns.SessionsDistinct` | windows/authentication/AuthenticationManager.cpp:161-180 | issued session ids strictly increase along a run of fewer than 2^64 requests |
| `AuthenticationRuns.NoReplay` | windows/authentication/AuthenticationManager.cpp:316-374 | no two grants of a run carry the same session id, so no payload is accepted twice |
| `AuthenticationRuns.GrantsAreCovered` | windows/authentication/AuthenticationManager.cpp:161-374 | grants and live challenges together never outnumber issued challenges |
| `AuthenticationRuns.StoredSessionsDistinct` | windows/authentication/AuthenticationManager.cpp:161-180 | stored session ids are pairwise distinct and below the counter |
| `AuthenticationRuns.FailureBound` | windows/authentication/AuthenticationManager.cpp:274-402 | on a non-decreasing clock, 900000 ms with s successes hold at most 3 + 2s counted failures of a device |
| `AuthenticationRuns.FailureBoundReached` | windows/authentication/AuthenticationManager.cpp:274-402 | for every s a run of any device has exactly 3 + 2s failures at one instant |
| `Pairing.PairingManager.HandlePairRequest` | windows/pairing/PairingManager.cpp:162-252 | state and outcome follow `OnRequest`, whose outcomes `RequestAnsweredExactly` determines, and every session stays settled |
| `Pairing.PairingManager.HandlePairConfirm` | windows/pairing/PairingManager.cpp:254-355 | state, outcome and registry follow `OnConfirm`, and every session stays settled |
| `Pairing.PairingManager.HandleUnpairRequest` | windows/pairing/PairingManager.cpp:357-376 | rejects text that is not 36 characters long, else deletes exactly the record under it |
| `Pairing.PairingManager.CancelPairingSession` | windows/pairing/PairingManager.cpp:385-395 | removes exactly the session of the client |
| `Pairing.PairingManager.ExpireStaleSessions` | windows/pairing/PairingManager.cpp:397-411 | removes exactly the sessions whose PIN is expired at their own clock reading |
| `Pairing.ConfirmIsolated` | windows/pairing/PairingManager.cpp:254-355 | a confirmation changes no other session and no other device's record |
| `UnlockSystem.AuthViewLegal` | windows/authentication/AuthenticationManager.cpp:102-407 | the authentication calls of any interleaved run form a legal authentication log |
| `UnlockSystem.SessionsStaySettled` | windows/pairing/PairingManager.cpp:162-411 | between calls every session was opened by a request and waits with fewer than 3 confirmations failed since, or has failed with exactly 3 |
| `UnlockSystem.ThreeFailuresPerPin` | windows/pairing/PairingManager.cpp:254-313 | a displayed PIN is missed three times at most, whatever ends its session |
| `UnlockSystem.WritesNeedPin` | windows/pairing/PairingManager.cpp:254-355 | a record is written only for the PIN of its own session at most 60 s earlier, with the fields of the opening request |
| `UnlockSystem.OneWritePerSession` | windows/pairing/PairingManager.cpp:314-355 | two writes confirmed by the PIN of one session are the same write |
| `UnlockSystem.StoreFollowsLog` | windows/pairing/DeviceRegistry.cpp:88-251 | a record exists, and has a key, if and only if some pairing (with a key) since the last unpairing is in the log; name, account, pairing time, last-seen time, status and key are what the last entry to set them set |
| `UnlockSystem.GrantsComeFromPairings` | windows/authentication/AuthenticationManager.cpp:213-407 | in any interleaving from an empty registry a response is granted for an account if and only if the log says so: last pairing PIN-confirmed for it with no unpairing since, status last set to active, a signature over the octets received under the last non-empty key, not locked out, live challenge answered |
| `AccountCap.CapBound` | windows/pairing/PairingManager.cpp:197-207 | for a named account, with at most K of its sessions waiting, none confirmed under another account and no device reactivated, active devices plus waiting sessions never exceed 4 + K (5 if K is 0), whatever other accounts do |
| `AccountCap.CapReached` | windows/pairing/PairingManager.cpp:197-207 | for every K a run with K sessions opened before any is confirmed reaches 4 + K active devices |
| `AccountCap.SwitchExceeds` | windows/pairing/PairingManager.cpp:198-316 | a session opened for one account and confirmed under another leads to six |
| `AccountCap.UnnamedExceeds` | windows/pairing/PairingManager.cpp:198-207 | an empty account name is not tested, so one session leads to six |
| `AccountCap.ReactivationExceeds` | windows/pairing/DeviceRegistry.cpp:221-231 | a status change that activates a sixth device is not tested |
| `AccountCap.LimitHoldsExactly` | windows/pairing/PairingManager.cpp:197-207 | over all runs with several accounts, the documented limit of five holds for an account if and only if confirmations never switch accounts, no status change activates a device, and its sessions wait one at a time under a resolved name (or never wait) |
| `PairingThrottle.AttemptsMirrorLog` | windows/pairing/PairingManager.cpp:123-151 | the attempt record of a device counts its failed confirmations since the last right PIN and keeps the time of the first |
| `PairingThrottle.ThrottledExactly` | windows/pairing/PairingManager.cpp:123-147 | a request is throttled if and only if five failures lie in the last minute and the first failure since the last right PIN is one of them |
| `PairingThrottle.FailuresBounded` | windows/pairing/PairingManager.cpp:181-187 | with at most K sessions of the device waiting and no request later than a minute after the first failure, failures and attempts left are at most 4 + 3K |
| `PairingThrottle.FailuresReached` | windows/pairing/PairingManager.cpp:162-313 | for every K from 1 on such a run has exactly 4 + 3K failures, all at one instant |
| `PairingThrottle.MinuteIsUnbounded` | windows/pairing/PairingManager.cpp:123-151 | with later requests, one client with one session at a time has any number of failures in a minute |
| `PairingThrottle.FiveKeptExactly` | windows/pairing/PairingManager.cpp:123-187 | the documented five a minute is kept on all runs if and only if no session ever waits |
| `PairingAnswers.RequestAnsweredExactly` | windows/pairing/PairingManager.cpp:162-252 | after any run from an empty registry a PIN is shown if and only if the request is well-formed, not throttled on the log, no pairing of the device is active, its account is unnamed or has fewer than five active devices, and the random source answered; each refusal has its own condition on the log |
| `PairingAnswers.SessionsExactly` | windows/pairing/PairingManager.cpp:162-411 | a client has a session if and only if a request opened one that no later request, confirmation, cancellation or expiry has ended, and it is the session of that request with the failures counted |
| `PairingAnswers.ConfirmAnsweredExactly` | windows/pairing/PairingManager.cpp:254-355 | a confirmation is turned away if and only if no session of the client waits; otherwise the PIN shown, its age and the failures since decide each of the other answers |
| `PairingAnswers.OthersAnsweredExactly` | windows/pairing/DeviceRegistry.cpp:221-251 | unpairing and status changes report what the log says about the record |
| `LsaPackage.Package.Validate` | windows/lsa_authentication_package/LsaPackage.cpp:169-255 | the check sequence computes `Decide` and yields the record it decided on |
| `LsaPackage.Package.LogonUserEx2` | windows/lsa_authentication_package/LsaPackage.cpp:158-317 | on every failing path no heap block stays allocated and the outputs are null; on success the new blocks are exactly the outputs asked for, and the user is the resolved account, the device name only if none resolves, the fixed name only if there is neither |
| `LsaPackage.DecidedExactly` | windows/lsa_authentication_package/LsaPackage.cpp:169-255 | on any buffer at all, each status if and only if its condition holds: size, magic and version, device match, operation, record, status, key and signature over the buffer's own octets |
| `LsaPackage.AcceptedExactly` | windows/lsa_authentication_package/LsaPackage.cpp:190-255 | a repacked payload is accepted exactly for AUTH_RESPONSE of an active device with a key under which its last 64 octets sign its first 88 |
| `LsaPackage.VerifiersAgree` | windows/lsa_authentication_package/LsaPackage.cpp:169-255 | every payload the service grants, repacked, is accepted if and only if its operation is AUTH_RESPONSE, before and after the service updates the registry |
| `LsaPackage.AccountNamesUser` | windows/lsa_authentication_package/LsaPackage.cpp:257-285 | two records that differ only in the device name give the same user wherever the account resolves |
| `Logon.LogonNamesPairedAccount` | windows/lsa_authentication_package/LsaPackage.cpp:257-285 | in any interleaving from an empty registry, a granted AUTH_RESPONSE is accepted for logon, and the user reported is the name of the account last confirmed by PIN, whatever the phone calls itself |
| `Discovery.IntegerFound` | windows/network/MdnsResponder.cpp:61-74 | the first-occurrence search lands on the real integer key and reads its number |
| `Discovery.StringFound` | windows/network/MdnsResponder.cpp:51-59 | the first-occurrence search lands on the real string key and reads its value |
| `Discovery.PayloadAcceptedExactly` | windows/network/MdnsResponder.cpp:46-90 | text is read as an announcement if and only if it has 1 to 4096 characters and the first occurrences of the four keys hold its values |
| `Discovery.AnnouncementRoundTrip` | windows/network/MdnsResponder.cpp:33-90 | parsing a printed announcement returns it for every non-empty quote-free host and service that fits, even a host named like a key |

## Where code and documentation differ

- docs/NETWORKING.md promises five connections a minute per address. The limiter counts in fixed windows. The promise holds for the minute from a given time on exactly when no window with places left is open then (`FiveHoldsExactly`); nine is the most any minute admits (`SlidingWindow`, `NineIsReached`).
- The documentation promises at most five devices per account. The limit is tested when a session opens, not when it is confirmed, not for an empty account name and not on status changes. It holds exactly in runs without account switches between request and confirmation, without reactivation, and with one waiting session of a resolved account at a time (`LimitHoldsExactly`, for account names that fit their registry value).
- docs/phases/PHASE_3_COMPLETION.md promises five pairing attempts a minute per device. The throttle is tested when a session opens, not when a confirmation fails, and its minute starts with the first failure and is not moved on. As soon as one session may wait the promise is not kept (`FiveKeptExactly`). What holds is a bound of 4 + 3K failures with K waiting sessions while requests come within a minute of the first failure (`FailuresBounded`, tight by `FailuresReached`); after that there is none (`MinuteIsUnbounded`).
- docs/SECURITY.md speaks of three failures within 60 seconds. The code counts failures since the last success with no time window (`LockedOutExactly`, `FailuresNeverAge`).
- Only streams that open with 0x4D are read independently of how they are split. Behind a TLS record each read goes to SChannel alone and what it does not consume is dropped, so the split can decide the handshake; any other first octet is discarded with its read (`IndependentExactly`).
- The key parser leaves three reads unchecked; one of them is out of bounds exactly on the keys of `OutOfBoundsExactly`.
- The phone's serializer passes 64-bit fields through toInt(), which clamps at 2^63 - 1 (`SerializersAgree`).

## Left out

- ECDSA, SHA-256, key import and the random source: foreign code, represented by a function parameter and by inputs.
- TLS itself: SChannel is a function from the reads it has been handed to its status and plaintext; what it sends and its encryption of replies are left out.
- Sockets, threads, named pipes, timeouts, the event log, service control and the dispatch in the service: plumbing around the handlers.
- Test hooks (`Reset`, `InjectChallengeForTesting`, time and registry overrides): a reset restarts the session counter, so run theorems exclude them.
- Clock wrap-around: authentication clocks are below 2^64 - 900000 and limiter ticks below 2^32 - 900000 in the run theorems; below that range the arithmetic of the source is modelled with its wrap.
- Pairing.PairingManager.HandlePairRequest: JSON extraction, and device id texts that are not in the printed form, because requests carry a parsed identity.
- Pairing.PairingManager.HandleUnpairRequest: texts of 36 characters that name a key only through the system's own key comparison, such as upper-case ones.
- The text of JSON replies and the response frame headers: replies are represented by the verdict and the fields in it.
- Zeroing of PIN memory, registry access control, credential provider and COM objects, the SID lookup itself, and the 16-bit length fields of the LSA strings.
- DeviceRegistry.Registry.WriteDeviceRecord: failure of a single value write after the device key was created; the source ignores it, the model has it succeed.
- Crypto.NormalizePublicKeyToEccBlob: what happens after a read out of bounds is undefined in the source; the model rejects the key.
- Flutter user interface, Android Keystore and biometric prompts, scripts, configuration and diagnostics.

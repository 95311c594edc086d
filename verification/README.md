# SWM SDK: a verified model of the client protocol

The SWM client SDK enrols a device, talks to an update service whose every answer is signed, and
downloads signed updates. It exists in C++, C#, Go and Rust. This project models the parts of it that
decide what is trusted and what is kept when things fail, each from the copy named in the table, and
proves what those parts promise.

`dafny verify dfyconfig.toml` checks the whole project.

## What is modelled

- **Byte formats (C++).** The base64url codec with its unmasked 32-bit accumulator (`Base64.dfy`), the
  hex codec (`Hex.dfy`), the scanner that cuts the raw bytes of a JSON member out of a document
  (`JsonScan.dfy`, `JsonExact.dfy`), and the RIM2 release manifest: reader, safe paths, parser and checks
  (`Rim2.dfy`, `Rim2Verify.dfy`). Parsers are proved against printers, in both directions.
- **Signed texts (Go and C++).** The five signed layouts and their injectivity (`SignedMessages.dfy`), and when
  an accepted authorization or a verified key manifest can be read in two ways (`AuthzAmbiguity.dfy`).
- **Keys, sessions (Go) and time (C++).** The online key ring as a recency list (`KeyRing.dfy`), the
  checks on key manifests and authorization envelopes and what every run of them keeps
  (`TrustChain.dfy`), the signed server time (`TrustedTime.dfy`) and the clock it sets
  (`TrustedClock.dfy`), the update stream with its reconnects (`UpdateStream.dfy`) and what it
  delivers (`UpdateDelivery.dfy`).
- **Requests and downloads (Go and C++).** The retry loop with its clock (`Retry.dfy`), resumable
  downloads of both clients over arbitrary servers and disks (`Download.dfy`, `CppDownload.dfy`,
  `ContentRange.dfy`), the server-sent event reader over any cutting of the stream (`Sse.dfy`,
  `SseFields.dfy`).
- **Threads (C++).** The asynchronous task as a transition system over every interleaving of the worker
  with registrations and waits (`AsyncTask.dfy`).
- **Device state (Go).** Identity creation and key rotation with a failure or a crash at any step
  (`KeyRotation.dfy`), the offline budget across restarts (`OfflineBudget.dfy`).
- **Small codecs (Go and Rust).** Canonical queries, flat and grouped (`CanonicalQuery.dfy`), and the
  Edwards-to-Montgomery map (`EdwardsMap.dfy`).

Byte strings are `seq<Byte>`. Objects whose methods change fields are classes; each such method is proved
equal to a specification function, and the lemmas are about that function. Cryptography, JSON decoding,
the network, the disk, clocks and randomness are parameters: uninterpreted functions, or scripts of what
happens that the lemmas quantify over.

## Where the code does not do what one would expect

Each of these is stated as a lemma, with the exact condition where there is one.

- **A Retry-After can hold a call for centuries.** `canWait` adds the elapsed time, the delay and the timeout
  in 64 bits. A call whose attempts keep their timeouts is over by its deadline if and only if that sum never
  wraps, or the caller gives up by then (`Retry.WithinDeadline`); 9223372036 seconds, or a date far enough
  ahead, makes it wrap (`Retry.RetryAfterOverflows`). Every delay up to about 292 years is safe
  (`Retry.ShortDelaysAreInTime`). A number of seconds beyond 9223372036 wraps by itself and may be waited
  hardly at all (`Retry.RetryAfterExact`, `Retry.RetryAfterWraps`).
- **A partial file as long as the artifact is never finished.** It is asked for from its own end; a server
  that refuses that range, as RFC 9110 has it, leaves every later call where it was. For the Go client this
  happens exactly when the partial file has the announced size, whatever its bytes
  (`GoDownload.StuckExactlyWhenComplete`, `GoDownload.OutcomeIsDecided`); for the C++ client exactly when it is
  at least as long as the artifact and not empty (`CppDownload.OutcomeIsDecided`).
- **A resumed C++ download without any size always fails.** When a 206 answer names neither a total nor a
  length, the length expected is that of the partial file, so a complete transfer is a length fault and the
  partial file is removed (`CppDownload.OutcomeIsDecided`, `CppDownload.SizelessResumeFails`).
- **A restart can open a locked client.** Exactly when the latch locked it, or a clock that reads less than the
  last verified time did, and the recorded time is at most 24 hours old: neither the latch nor the last five
  minutes are on record (`OfflineBudget.RestartDecides`, `OfflineBudget.RestartForgetsTheLatch`,
  `OfflineBudget.RestartForgetsTheLastTime`).
- **One authorization signature may cover two sessions.** The signed text joins fields that may hold
  newlines. An accepted envelope has a different twin, accepted for the same request under the same key and signature,
  if and only if its reason or its session holds a line with a digest of some data followed by a session line
  (`AuthzAmbiguity.AmbiguousExactly`, `AuthzAmbiguity.OneSignatureTwoSessions`). These are all the twins when no
  key id in the ring ends in the text's last line for another id, as when ids hold no newline
  (`AuthzAmbiguity.AmbiguousInPlainRing`, `AuthzAmbiguity.OtherKeyNests`). Digests are taken to be 64 characters
  without a newline, as the hexadecimal ones of SHA-256 are.
- **One root signature may cover two online keys.** A verified key manifest has a twin with another id and
  another key, verified under the same signature, if and only if its id holds, after its first byte, a line that
  starts with `public_key:`, or its key holds such a line that is not empty after that
  (`ManifestAmbiguity.ManifestAmbiguousExactly`).
- **A completion callback may run although the task threw**, when no error handler is stored
  (`AsyncTask.DueCallbacksRunOnce`, `AsyncTask.CompletionAfterThrow`).
- **An event whose first data line is empty is not read back**; leading empty data lines are lost
  (`Sse.PrintedIsRead`, an if-and-only-if).
- **After an expiry message the update stream alone never opens a connection again**: the session is gone
  and the reconnect loop does not obtain one (`UpdateStream.NothingAfterExpiry`).

## Model

| member | source | states |
|---|---|---|
| Base64.Encode | Cpp/src/internal/common.cpp:44-63 | the bit loop over the wrapping accumulator writes the base-64 digits of the input read as one number |
| Base64.Decode | Cpp/src/internal/common.cpp:65-98 | the loop, with its stop at '=' and its refusals, yields the base-256 digits of the text read as one number |
| Base64.DecodeEncode | Cpp/src/internal/common.cpp:44-98 | decoding undoes encoding for every byte string |
| Base64.EncodedShape | Cpp/src/internal/common.cpp:44-63 | only URL-safe letters, no padding, length ceil(4n/3) (RFC 4648, section 5) |
| Base64.EncodeDecode | Cpp/src/internal/common.cpp:44-98 | an accepted text is the encoding of its decoding if and only if it is canonical: no padding, URL-safe letters, no stray letter, no leftover bits |
| Hex.HexLower | Cpp/src/internal/common.cpp:17-25 | two lower-case digits per byte, high half first, whose inverse is Hex.DecodedExact |
| Hex.HexDecode | Cpp/src/internal/common.cpp:27-42 | decodes or refuses exactly as the digit-pair function that Hex.DecodedExact characterizes |
| Hex.DecodedExact | Cpp/src/internal/common.cpp:17-42 | a text decodes to given bytes if and only if its lower-cased form is their text |
| Hex.GuidTextInjective | Cpp/src/internal/rim2.cpp:105-112 | the dashed text of 16 bytes determines them |
| JsonScan.ScanJsonString | Cpp/src/internal/common.cpp:198-219 | the escape flag lets the loop stop at exactly the closing quote that no escape hides, or refuse |
| JsonScan.ScanJsonValue | Cpp/src/internal/common.cpp:221-272 | the bracket stack and the escape flag end a container at its own closing bracket; a scalar ends before its trailing whitespace |
| JsonScan.ExtractJsonMemberRaw | Cpp/src/internal/common.cpp:282-340 | equal on every byte string to the member function that ExtractPrinted and ExtractIsTrimmedSlice are about, refusals included |
| JsonScan.PassValue | Cpp/src/internal/common.cpp:232-262 | inside any stack of open brackets the loop passes over every printed value, however nested, with the stack as it was |
| JsonScan.ScanValue | Cpp/src/internal/common.cpp:221-272 | a printed value followed by whitespace and a delimiter ends where it was printed to end |
| JsonScan.ExtractPrinted | Cpp/src/internal/common.cpp:282-340 | on every printed object of RFC 8259, any whitespace, nesting and tail: exactly the printed bytes of the first top-level member with the key, nothing if there is none |
| JsonScan.ExtractIsTrimmedSlice | Cpp/src/internal/common.cpp:282-340 | on every byte string whatever: a result is a slice of the document without outer whitespace |
| JsonExact.ExtractExactly | Cpp/src/internal/common.cpp:282-340 | on every byte string: a result if and only if blanks, a brace and comma-separated members up to one with the key stand there, each a string, a colon and a value with blanks around them; then exactly that value's bytes |
| JsonExact.StringExactly | Cpp/src/internal/common.cpp:198-219 | on every byte string: a string ends at its first quote that no backslash hides, and only there |
| JsonExact.ContainerExactly | Cpp/src/internal/common.cpp:221-262 | on every byte string: brackets are accepted if and only if they match, strings apart, whatever else stands inside |
| Rim2Path.IsSafePath | Cpp/src/internal/rim2.cpp:78-103 | true if and only if the path has at most 255 bytes, no control byte, and leads from every directory to exactly the place below it that its slashes spell |
| Rim2Path.SafePathDescends | Cpp/src/internal/rim2.cpp:78-103 | a walk along the bytes of a safe path, where either slash separates and a colon starts over at a drive, ends below any directory by exactly its slash-separated parts |
| Rim2Path.SafePathExactly | Cpp/src/internal/rim2.cpp:78-103 | and every short path without control bytes that descends so from every directory is safe |
| Rim2.Reader.ReadBytes | Cpp/src/internal/rim2.cpp:60-73 | bounds-checked: the next bytes and the moved offset, or a refusal |
| Rim2.Reader.ReadNumber | Cpp/src/internal/rim2.cpp:20-45 | the big-endian number of the next bytes |
| Rim2.Reader.ReadString | Cpp/src/internal/rim2.cpp:46-59 | exactly the bytes its length prefix announces, or a refusal |
| Rim2.ReadStructure | Cpp/src/internal/rim2.cpp:147-207 | the offset-moving parse, duplicates found by the growing set, equals the function that StructureExact inverts |
| Rim2.ParseStructure | Cpp/src/internal/rim2.cpp:139-207 | what is returned is the one well-formed manifest whose encoding the input is |
| Rim2.StructureExact | Cpp/src/internal/rim2.cpp:139-207 | parsing is exact both ways: accepted bytes are byte for byte the encoding of what was read, and every well-formed manifest (1 to 255 safe paths, distinct after lower-casing) is read back |
| Rim2.WellFormedExactly | Cpp/src/internal/rim2.cpp:167-207 | what is demanded of every field: counts, lengths, sizes above zero, digests that are not all zero, distinct names, paths that descend |
| Rim2.EncodedBytes | Cpp/src/internal/rim2.cpp:147-200 | the bytes of an encoding, field by field |
| Rim2Wire.NumberIsBigEndian | Cpp/src/internal/rim2.cpp:20-45 | a further byte is worth 256 times less than those before it |
| Rim2Verify.ParseRim2 | Cpp/src/internal/rim2.cpp:139-254 | acceptance and each of the four refusals, each if and only if, with both signatures over the exact bytes; every path that is returned descends from every directory |
| Rim2Verify.MatchesExactly | Cpp/src/internal/rim2.cpp:208-215 | the release that is demanded, field by field, with the names of the architectures |
| Rim2Verify.SignedExactly | Cpp/src/internal/rim2.cpp:218-241 | both signatures, over which bytes and under which keys |
| Rim2Verify.ReleaseBytesDetermined | Cpp/src/internal/rim2.cpp:208-215 | two manifests accepted for one release carry the same identifier bytes |
| SignedMessages.LayoutInjective | Go/pipeline.go:331-344 | equal signed bytes come from equal messages, over the authz, time, key, RIM2 key and RIM2 manifest layouts |
| SignedMessages.KindsDiffer | Cpp/src/internal/rim2.cpp:217-232 | no message of one kind has the bytes of another kind |
| SignedMessages.AuthzLines | Go/pipeline.go:331-344 | the lines that an authorization signature covers, in their order |
| SignedMessages.ServerTimeLines | Cpp/src/internal/request_pipeline.cpp:350-354 | the lines that a server time signature covers |
| SignedMessages.KeyManifestLines | Go/pipeline.go:583-593 | the lines that a key manifest signature covers |
| Text.JoinUnambiguous | Go/pipeline.go:507-515 | joining with newlines is undone by splitting at them if and only if no field holds one |
| AuthzAmbiguity.AmbiguousExactly | Go/pipeline.go:328-344 | in any ring an accepted envelope has another reading under the same key and signature if and only if its reason or session holds a digest line of some data and then a session line |
| AuthzAmbiguity.AmbiguousInPlainRing | Go/pipeline.go:328-344 | the same for readings under any key, in a ring where no id ends in the last line for another |
| AuthzAmbiguity.OtherKeyNests | Go/pipeline.go:328-344 | a reading under another key means that one of the two ids ends in the last line for the other |
| ManifestAmbiguity.ManifestAmbiguousExactly | Go/pipeline.go:564-594 | a verified manifest has another reading under the same root signature if and only if its id holds a line that names a key after some text, or its key holds such a line with some text after it |
| AuthzAmbiguity.OneSignatureTwoSessions | Go/pipeline.go:331-353 | two accepted envelopes over one text that store two different sessions |
| KeyRing.RunIsRecency | Go/pipeline.go:649-678 | after any attempts the ring is the five most recently installed distinct ids of the accepted history, oldest first |
| KeyRing.RingHoldsLatest | Go/pipeline.go:649-678 | every entry is the latest accepted install of its id; ids are distinct; at most five |
| KeyRing.NeverRebound | Go/pipeline.go:653-669 | no attempt changes the material of an id that stays in the ring |
| TrustChain.Client.InstallKey | Go/pipeline.go:649-678 | the check, remove, push and trim steps are one step of the recency list; a refused install changes nothing |
| TrustChain.Client.FindKey | Go/pipeline.go:633-647 | the held key of an id, searched newest first |
| TrustChain.Client.GetCurrentKey | Go/pipeline.go:620-631 | the newest key, until its refresh time |
| TrustChain.Client.VerifyAuthz | Go/pipeline.go:301-357 | over the envelope's fields: accepted if and only if decision, release, device, nonce, version, times within two minutes, a lifetime of at most 900 seconds and the data's digest are right and a key of the ring with that id signed it; otherwise the first failed check; only acceptance touches the session |
| TrustChain.Client.AcceptKeyManifest | Go/pipeline.go:558-604 | over the manifest's fields: installed if and only if identity, purpose, lifetime and times are right, the root signed it and no held id gets another key; otherwise the first failed check |
| TrustChain.Client.RefreshOnlineKeys | Go/pipeline.go:527-604 | success if and only if the request is skipped, its failure tolerated, or its manifest installed; then a current key is at hand |
| TrustChain.Client.EnsureSession | Go/client.go:247-256 | the unexpired session, or none and the fields cleared |
| TrustChain.RingIsRootSigned | Go/pipeline.go:527-678 | in every run every key of the ring was signed by the configured root for this application and release |
| TrustChain.SessionIsGranted | Go/pipeline.go:301-357 | in every run a held session came from an allow envelope for this release, device and nonce, of its time and over its data, signed by a key then in the ring, ending at most 1020 seconds after acceptance |
| TrustedTime.RefreshTrustedTime | Cpp/src/internal/request_pipeline.cpp:319-362 | over the manifest's fields: the clock is set if and only if the root signed them for this nonce and the stamp is in range and fast enough; otherwise the first failed check, and the clock is untouched |
| TrustedTime.ClockIsRootSigned | Cpp/src/internal/request_pipeline.cpp:319-362 | in every run of exchanges a shown time was root-signed for that exchange's own nonce |
| TrustedTime.SignedTimeIsNear | Cpp/src/internal/request_pipeline.cpp:319-362 | if the root is honest about every nonce, every later reading is within 2500 ms |
| TrustedClock.Clock.SetAuthoritativeTime | Cpp/src/internal/trusted_clock.cpp:54-70 | each refusal exactly, the anchor at half the round trip, and a refused stamp changes nothing |
| TrustedClock.Clock.NowUnixMs | Cpp/src/internal/trusted_clock.cpp:36-47 | the reading the run lemmas below are about; 0 when unset or before the anchor |
| TrustedClock.Clock.NowUnixSeconds | Cpp/src/internal/trusted_clock.cpp:49-52 | the seconds that bracket the reading, 0 when there is none |
| TrustedClock.ErrorOfAnchor | Cpp/src/internal/trusted_clock.cpp:54-70 | an honest stamp is off by at most half its round trip either way |
| TrustedClock.ReadingsAreClose | Cpp/src/internal/trusted_clock.cpp:36-70 | in every run with honest stamps every reading is within 2500 ms of the server's clock |
| TrustedClock.ReadingsStepBackLittle | Cpp/src/internal/trusted_clock.cpp:36-70 | across any re-anchors a later reading is at most 5000 ms below an earlier one |
| TrustedClock.SteadyBetweenAnchors | Cpp/src/internal/trusted_clock.cpp:36-70 | between re-anchors the clock advances exactly with the tick counter |
| TrustedClock.BoundsAreReached | Cpp/src/internal/trusted_clock.cpp:54-70 | both bounds are tight |
| UpdateStream.Stream.Dispatch | Go/client_stream.go:129-209 | one message: ignored, expired, gate opening, or event, with the first failure |
| UpdateStream.Stream.ReadOnce | Go/client_stream.go:109-158 | the state, log and end of the connection ConnectionIsGated is about: exactly the messages a blank line ends, from a closed gate |
| UpdateStream.Stream.Watch | Go/client_stream.go:26-65 | the visits and the end WatchIsGated is about, for any script of attempts |
| UpdateStream.ConnectionIsGated | Go/client_stream.go:109-209 | on a connection, whatever other calls receive between its messages, every event follows an authz message verified with that connection's nonce, its own carrier was verified under a ring that the connection met, and it is what the verified data decodes to |
| UpdateStream.WatchIsGated | Go/client_stream.go:19-66 | whatever other calls receive between messages and between attempts, the gate restarts closed on each reconnect and every event is verified under a ring its connection met; nothing follows a terminal end; an error is reported once, at the end |
| UpdateStream.VisitsMeetRootKeys | Go/client_stream.go:19-66 | whatever key manifests arrive between messages and connections, every ring a connection meets holds root-signed keys only |
| UpdateStream.NothingAfterExpiry | Go/client_stream.go:134-138 | while no other call receives an authorization, a connection ended by an expiry message is the last: the session is gone and the loop gets no other |
| UpdateDelivery.StreamIsDelivered | Go/client_stream.go:109-209 | a connection that prints blocks in any form and then ends: the log is exactly its gate openings and its events, in order, ids and types filled in where the sent ones are empty; the client met exactly the calls of others and those carriers |
| UpdateDelivery.StreamIsEnded | Go/client_stream.go:129-209 | a block that expires, is refused, is no event or is the last one wanted ends the connection with its own reason, after all that came before and whatever follows |
| UpdateDelivery.EveryStreamMeans | Go/client_stream.go:109-209 | every connection, whatever its lines, is of one of these two kinds |
| UpdateDelivery.WatchIsItsLegs | Go/client_stream.go:26-65 | the visits are those of every attempt that opened with a live session, in order, until one ends the watch; when it goes on, stops silently or reports |
| UpdateDelivery.EveryWatchHasLegs | Go/client_stream.go:26-65 | every watch is such a chain of attempts |
| Retry.Send | Go/pipeline.go:121-169 | the reply, its time and every start, equal to the recursion the bounds below are about, with 64-bit sums that wrap as the source's do |
| Retry.WithinDeadline | Go/pipeline.go:127-162 | with attempts within their timeout and no wait late by more than one, the call ends by the deadline if and only if no delay makes the 64-bit sum of canWait wrap, or the caller gives up by then; at most retries + 1 attempts, and none without room for its timeout while nothing wraps |
| Retry.RetryAfterOverflows | Go/pipeline.go:730-759 | the Retry-After values that hold a heartbeat past its deadline by centuries |
| Retry.ShortDelaysAreInTime | Go/pipeline.go:730-738 | delays up to about 292 years never wrap the sum, so the call is in time |
| Retry.RetryAfterExact | Go/pipeline.go:740-759 | seconds are waited as they stand if and only if there are at most 9223372036 of them |
| Retry.RetryAfterWraps | Go/pipeline.go:745-750 | a value beyond that which is waited for less than a third of a second |
| Retry.RepliesAreFaithful | Go/pipeline.go:131-147 | a reply is the last attempt's own; earlier ones were transient and the parsed Retry-After, or the backoff, was waited out, seconds as they stand up to 9223372036; a final status always reaches the caller |
| Retry.TransientIsRetried | Go/pipeline.go:131-162 | every attempt: a status other than 408, 429, 500, 502, 503, 504 is the answer at once, so is the last attempt's; anything else is followed by another attempt as soon as the wait that Retry-After or the backoff stands for is over, while the caller waits and the deadline leaves room |
| Retry.BackoffGrows | Go/pipeline.go:715-728 | the backoff starts at its base, never shrinks and keeps its cap |
| Retry.BackoffDoubles | Go/pipeline.go:715-728 | it doubles up to the sixteenth wait, within the cap |
| Retry.EveryAttemptIsMade | Go/pipeline.go:123-170 | a deadline that covers timeouts, backoffs and late waits never costs an attempt |
| Retry.DeadlineDecides | Go/pipeline.go:127-130 | under the slowest failing server all attempts are made if and only if the deadline covers them |
| Retry.TableIsAmple | Go/pipeline.go:44-75 | every policy with a deadline leaves at least three seconds to spare, heartbeat exactly three |
| Retry.NoOperationIsCutShort | Go/pipeline.go:44-170 | for every operation persistent failure without Retry-After gets its three, two or one attempts, within the deadline |
| AsyncTask.DueCallbacksRunOnce | Cpp/include/swm/async_task.hpp:182-220 | in every interleaving, at rest, each due callback ran exactly once and no other ran |
| AsyncTask.NeverEarlyNeverTwice | Cpp/include/swm/async_task.hpp:61-95 | at every point no callback ran before done or twice, and error callbacks got the task's exception |
| AsyncTask.WaitsSeeTheOutcome | Cpp/include/swm/async_task.hpp:46-59 | wait returns only after done, with the function's own value or exception |
| AsyncTask.OutcomeIsFinal | Cpp/include/swm/async_task.hpp:183-204 | the task finishes once, so waits never disagree |
| AsyncTask.SomeoneCanGo | Cpp/include/swm/async_task.hpp:182-220 | no interleaving gets stuck before rest |
| AsyncTask.CompletionAfterThrow | Cpp/include/swm/async_task.hpp:215-219 | an interleaving where a completion callback runs after a throw |
| GoDownload.Downloader.DownloadRange | Go/client_download.go:93-204 | one range request: offset, append or truncate, write loop, length check, with every disk failure |
| GoDownload.Downloader.DownloadUpdate | Go/client_download.go:46-91 | partial file, destination and fault after every script of attempts, as in the lemmas below |
| GoDownload.DestinationIsVerified | Go/client_download.go:66-90 | for every server and disk the destination is untouched, or removed by a failed rename of verified bytes, or holds bytes whose SHA-256 is the signed checksum under a valid manifest signature, after an attempt that met no failure |
| GoDownload.PrefixIsKept | Go/client_download.go:93-204 | with an honest server a partial file stays a prefix of the artifact through cuts, failed writes and retries, and success leaves the artifact |
| GoDownload.OutcomeIsDecided | Go/client_download.go:46-204 | over an ideal server and disk, for every partial file, update and artifact of a 64-bit size: stuck if and only if the offset asked for is at or past the artifact's end; otherwise the partial file continued by the rest is decided by the checksum alone |
| GoDownload.IdealIsHonest | Go/client_download.go:93-204 | the ideal server of OutcomeIsDecided is an honest one at every offset, so PrefixIsKept holds of it |
| GoDownload.RetriesFinish | Go/client_download.go:46-66 | after two attempts that failed in any way over an honest server a third sound one finishes the download, unless all of it had been written before |
| GoDownload.StuckExactlyWhenComplete | Go/client_download.go:100-139 | for an update that names the artifact's size: stuck exactly when the partial file has that size, whatever its bytes |
| ContentRange.ParsePrint | Cpp/src/client.cpp:797-821 | every range of 64-bit numbers is read back from its field value if and only if it is one (RFC 9110, section 14.4) |
| ContentRange.ParseExactly | Cpp/src/client.cpp:797-821 | which field values name a range, and which one: the unit, the first dash and slash, three numbers or a star, in order |
| ContentRange.StoullExactly | Cpp/src/client.cpp:808-812 | which texts std::stoull reads in base 10, and as which number; a minus sign negates modulo 2^64 |
| ContentRange.NoRangeInUnsatisfied | Cpp/src/client.cpp:797-821 | the unsatisfied form carries no range |
| CppDownload.Downloader.Choose | Cpp/src/client.cpp:949-1009 | at most two requests; the response read and whether it continues the file, as AppendsWhereDeclared needs it |
| CppDownload.Downloader.DownloadUpdate | Cpp/src/client.cpp:932-1051 | partial file, destination and fault, for every server and disk, as in the lemmas below |
| CppDownload.DestinationIsVerified | Cpp/src/client.cpp:1038-1050 | for every server and disk the destination is untouched, or gone after a failed rename of verified bytes, or holds bytes whose SHA-256 is the signed checksum under a valid manifest signature, read to the end of a 200 or 206 answer |
| CppDownload.AppendsWhereDeclared | Cpp/src/client.cpp:973-1019 | for every server the file is continued only from the offset the response declares, which is its own length |
| CppDownload.PrefixIsKept | Cpp/src/client.cpp:932-1051 | with a server that says truthfully where it starts, even elsewhere than asked, the partial file stays a prefix; success leaves a prefix with the signed checksum, the artifact itself when no write failed silently and named sizes are right, or when no shorter prefix has that checksum |
| CppDownload.OutcomeIsDecided | Cpp/src/client.cpp:932-1051 | over an ideal server and disk, for every partial file, update and artifact of a 64-bit size: stuck if and only if the partial file is not empty and at least as long as the artifact; a length fault if and only if a shorter one is continued from an answer without any size; otherwise decided by the checksum alone |
| CppDownload.MisplacedStartsOver | Cpp/src/client.cpp:973-1009 | a first answer that starts elsewhere leads to one whole download from a second request |
| CppDownload.FinishesExactlyWhen | Cpp/src/client.cpp:943-1050 | the exact condition for success on every partial file |
| CppDownload.SizelessResumeFails | Cpp/src/client.cpp:1010-1041 | a complete resumed transfer without any size that is thrown away |
| Sse.Reader.ReadLine | Cpp/src/client.cpp:840-866 | however the stream is cut, the next line of all that remains; when the size error can and must occur |
| Sse.LinesAreSplit | Cpp/src/client.cpp:840-866 | the lines of a text are its newline split, each terminated one without its carriage return |
| Sse.NextSse | Cpp/src/client.cpp:879-913 | however the stream is cut, the next event of all that remains; no size error when no line is over 224 KiB, and no event past a line over 256 KiB |
| Sse.PrintedIsRead | Cpp/src/client.cpp:879-913 | a printed event is read back if and only if its first data line is not empty |
| Sse.NextIsFirstBlock | Cpp/src/client.cpp:879-913 | on every text, up to its first blank line or end: the last name, the last id and the data lines joined, without leading empty ones; comments and other lines count for nothing |
| Sse.ReadLines | Cpp/src/client.cpp:840-866 | reading until the stream ends gives the lines of everything delivered, whatever its length, when no line is over 224 KiB, and not when one is over 256 KiB |
| Sse.ReadEvents | Cpp/src/client.cpp:1095-1099 | reading until no event comes gives the events of everything delivered, under the same conditions on its lines |
| Sse.ReadPrinted | Cpp/src/client.cpp:836-913 | a printed stream comes through any cutting as its own events, whatever its length, when no line is over 224 KiB, and not when one is over 256 KiB |
| Sse.UnterminatedIsDelivered | Cpp/src/client.cpp:885-890 | a stream that ends inside an event still delivers it |
| Sse.StreamIsRead | Cpp/src/client.cpp:879-913 | a stream of such events gives all of them back in order |
| Trim.TrimAscii | Cpp/src/internal/common.cpp:144-157 | the result that TrimmedPadded characterizes |
| Trim.TrimmedIsTight | Cpp/src/internal/common.cpp:144-157 | what trimming leaves has no blank at either end, and a text without such blanks is left as it is |
| Trim.TrimmedPadded | Cpp/src/internal/common.cpp:144-157 | whatever blanks surround a tight text, trimming gives it back |
| Trim.TrimmedExactly | Cpp/src/internal/common.cpp:144-157 | what trimming leaves, for every text, over the bytes that fall away |
| KeyStore.Store.WriteProtected | Go/state.go:64-79 | the file is the old one or wholly the new one at every step, and every recorded step keeps the metadata naming an existing key |
| KeyStore.RecordRoundTrip | Go/identity.go:103-117 | the identity file is read back as written |
| KeyStore.MetadataExactly | Go/identity.go:103-113 | which files are read as an identity, byte for byte, and as which one |
| KeyRotation.Client.LoadOrCreate | Go/identity.go:22-54 | an existing identity is loaded unchanged if and only if its record and key can be read; otherwise a new one is made, on disk with its key, if and only if every step succeeds, and a failure leaves at most an undeletable key |
| KeyRotation.Client.CreateIdentity | Go/identity.go:34-54 | a new identity, on disk with its key, if and only if randomness, creation, export and writing succeed on a free name; otherwise the keys and the file as they were, but for an undeletable key |
| KeyRotation.Client.CreatePending | Go/identity.go:56-73 | a pending identity if and only if randomness, creation and export succeed on a free name; a failure leaves at most an undeletable key |
| KeyRotation.Client.Negotiate | Go/client_enrollment.go:85-144 | the two-round loop sends exactly the specified requests and agrees exactly on a confirmation of this key |
| KeyRotation.Client.RotateDeviceKey | Go/client_enrollment.go:60-167 | exactly the requests that are sent, at most two; success if and only if the key can be made under its name and written and the reply to the last request is a 2xx confirmation, rotated, with a UUID, of this installation and of the id of this public key; then the new identity in memory and, byte for byte, on disk, session and budget gone; otherwise the old ones, the pending key deleted unless deletion failed; at every step the metadata names an existing key |
| KeyRotation.OnlyAChallengeIsSigned | Go/client_enrollment.go:87-133 | the first request has no proof; a second one is sent if and only if the first was answered by a live challenge with a 32-byte digest in hexadecimal and the key signs, and it signs exactly that digest |
| OfflineBudget.Budget.IsLocked | Go/offline.go:32-42 | loads the record once and locks exactly by latch, missing record, or a time outside the 24 hours |
| OfflineBudget.Budget.NoteVerifiedInteraction | Go/offline.go:44-65 | the whole new state and file, to which the run lemmas below apply |
| OfflineBudget.RecordRoundTrip | Go/offline.go:67-101 | the record is read back by its owner and by no one else |
| OfflineBudget.RecordBytes | Go/offline.go:91-101 | the record, byte for byte |
| OfflineBudget.RecordedExactly | Go/offline.go:67-89 | which files are read as a record of their owner, byte for byte, and as which time |
| OfflineBudget.RecordIsKept | Go/offline.go:44-101 | in every run with successful writes the record lags less than five minutes |
| OfflineBudget.RunIsMonotone | Go/offline.go:44-65 | in every run the last verified time never decreases and the latch never clears |
| OfflineBudget.LatchedExactly | Go/offline.go:51-57 | in every run the latch is set if and only if some interaction came more than 24 hours after the last verified time of a process that already had one |
| OfflineBudget.RestartDecides | Go/offline.go:32-101 | after every run, whatever its writes did, at every time: when a restart opens a locked client and when it locks an open one, each if and only if |
| OfflineBudget.RestartCostsLittle | Go/offline.go:61-101 | when every write succeeds a restart shortens the budget in its last five minutes only, and without the latch never extends it at or after the last verified time |
| OfflineBudget.RestartForgetsTheLatch | Go/offline.go:51-55 | two interactions after which a restart opens a latched client |
| OfflineBudget.RestartForgetsTheLastTime | Go/offline.go:61-64 | two interactions after which, with the clock three seconds back, a restart opens a locked client that is not latched |
| Escape.EscapeCanonical | Go/crypto.go:131-143 | unreserved bytes as they are, all others as upper-case percent escapes |
| Escape.EscapeRoundTrip | Go/crypto.go:131-143 | percent-decoding undoes it (RFC 3986, section 2.1) |
| Escape.EscapedExactly | Go/crypto.go:131-143 | which bytes stay as they are, and the two digits of the others |
| ByteOrder.SortedIsUnique | Go/crypto.go:118-123 | one sorted arrangement only, so neither sort nor map order matters |
| ByteOrder.AtMostExactly | Go/crypto.go:118-123 | the order: the first byte that differs decides, and a prefix comes first |
| CanonicalQuery.GoCanonicalQuery | Go/crypto.go:104-129 | for any order of the map, the canonical text of its pairs |
| CanonicalQuery.RustCanonicalQuery | Rust/src/crypto.rs:94-114 | the grouped ordered map gives the same canonical text |
| CanonicalQuery.SameTextSamePairs | Go/crypto.go:104-129 | equal text if and only if equal multisets of pairs |
| CanonicalQuery.CanonicalExactly | Go/crypto.go:104-129 | the text is the escaped pairs, joined, in the order of keys and then of values |
| EdwardsMap.Ed25519PublicKeyToX25519 | Go/crypto.go:243-272 | accepted if and only if 32 bytes with y below p and not 1; the output bytes decode to u |
| EdwardsMap.MappedSolves | Go/crypto.go:257-265 | u is below p and u(1-y) is congruent to 1+y (RFC 7748, section 4.1) |
| EdwardsMap.MapIsInjective | Go/crypto.go:257-265 | equal u if and only if equal y |
| EdwardsMap.SameImageSameKey | Go/crypto.go:243-272 | two accepted keys map alike if and only if they differ at most in the top bit |
| EdwardsMap.MapIsOnto | Go/crypto.go:257-265 | every u below p - 1 is the image of some usable y |

## Left out

- Ed25519, X25519, SHA-256, HMAC, HKDF and AES-GCM: library calls, uninterpreted functions here; the modular inverse is a function with the inverse's contract.
- WinHTTP, CNG, DPAPI and the file system: an answer, a key table or a file with a few atomic steps, each of which may fail.
- JSON decoding by the libraries and comment tolerance in `parse_json`: decoded messages are parameters; the raw scanner takes key decoding as a function.
- Concurrency of the Go client: its mutex-protected methods are modelled one call at a time. Only the C++ task is modelled over interleavings.
- Error classification in `throwIfError`, option validation, URL checks, multipart bodies, debug and firmware endpoints: single branches and field copying.
- The C#, Rust, Go and C++ copies of an algorithm modelled from another copy; of the Rust code only the grouped canonical query.
- Jitter, progress reporting, user callbacks' own effects, hardware evidence.
- UTF-8 checks and Unicode white space: texts are bytes; in the identity file only ASCII blanks count as blank.
- Retry.Send: does not model the preparation before the loop (open check, time, keys, session) nor the content of a request; a Retry-After header is given as absent, a number of seconds or a date's distance, and policies in the lemmas are those whose durations are far from the limits of 64 bits, as all of the table are.
- UpdateStream.Stream.Watch: the clock is taken as initialized; what other calls receive takes effect between two messages or between two attempts; the length of the waits is not modelled.
- AsyncTask.DueCallbacksRunOnce: a callback that throws ends the process and is not modelled; nor are cancellation and the empty task handle. The void form differs only by the value check.
- GoDownload.Downloader.DownloadRange: the redirect to storage is folded into the answer, and the total named by Content-Range is given as a number, 0 when there is none.
- CppDownload.Downloader.DownloadUpdate: the redirect loop is folded into the answers, and errors of the calls that ask for the size of a file are not modelled.
- KeyRotation.Client.RotateDeviceKey: the refreshes before the first step belong to other modules; a reply to `send` is given, and the session may expire there. The previous key is only closed by the code, so it stays in the key store, as here.
- TrustedClock.ReadingsAreClose: the server's clock and the tick counter advance alike; drift between them, and the coarse steps of the tick counter, are not modelled.

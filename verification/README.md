# Verification of response-runtime

This project models the parts of response-runtime whose correctness is not visible from one
function alone, and proves properties of the models with Dafny 4.11. `dafny verify dfyconfig.toml`
checks all of it.

- **Chunked file transfer** (`Chunking`, `Transfer`, `TransferSender`, `TransferDelivery`,
  `TransferSerial`, `TransferRuns`). The read loop on its buffer and chunk array; then the protocol
  that the first pass, the retry rounds and the acknowledgement handler implement together, as a
  state machine with any number of concurrent transfers, receivers, and a channel that loses, repeats
  and reorders. In the code the call of the retry loop (`m-download-file.go:176`) and the subscription to acknowledgements
  (`main.go:197-200`) are commented out; the model is of the protocol these functions make up.
  The retry loop publishes on the package-level `topicResponse`, which the next request overwrites;
  all requests of a process that name no `client_id` share one topic, because its prefix and session
  identifier are fixed (`main.go:121-124`, `main.go:168`, `m-download-file.go:70-74`); and an
  acknowledgement names only a path. So neither delivery nor confirmation holds in general.
  `TransferDelivery` gives the exact conditions: receivers hold, and can be sent, only chunks of their
  own files if and only if no step crosses (a retry or a request that brings two files onto one topic),
  and recorded acknowledgements are true in every state if and only if none is counted for a transfer
  whose receiver lacks the chunk. That messages stay on the topics of their transfers
  (`Transfer.IsolationExactly`) is not enough: it holds in a session whose second download, on the
  same topic, puts together the first file (`TransferRuns.SharedTopic`). `TransferSerial` says what the
  conditions come to for one transfer at a time.
- **TLS fingerprint** (`ClientHello`, `ClientHelloWire`, `ClientHelloCut`, `Ja3Text`,
  `Ja3OfHello`, `ClientHelloMalformed`). The cursor parser, the exact condition under which it indexes out of range, what it makes of a message cut
  short, the round trip with messages laid out as in section 4.1.2 of RFC 8446 (bodies as in section
  4.2.7 of RFC 8446 and section 5.1.2 of RFC 8422), the unique decoding of the printed string, and
  what two messages with the same string have in common.
- **File-hash cache** (`HashCache`, `HashCacheRuns`, `HashCacheSha`, `HashCacheSolo`). Callers, writers and a clock
  interleaved at the points where the lock is free, and the two helpers for one caller at a time.
  The cache stays true exactly when no write gives a file a stamp under which it, or a call in
  flight, holds other bytes. Even then getFileSha256 can return the hash of older content, since it
  compares no stamp.
- **Updater** (`UpdaterManifest`, `UpdaterArchive`, `UpdaterInstall`, `UpdaterRuns`). Signature gate,
  keyring, build numbers, choice of the archive entry, install by two renames with rollback, and
  sequences of runs.
- **Blocking addresses** (`PfConf`, `PfConfRuns`, `Iptables`). The text of pf.conf against an abstract
  set over whole runs; iptables chains as ordered lists. Unblocking removes every rule line that
  begins with the given address, so unblocking 10.0.0.1 also unblocks 10.0.0.10; the set kept is
  the intended one exactly when no unblock meets such a pair.
- **Memory search** (`ProcessSearch`). The budgets, and the addresses of hits: with case folding an
  address is the one in memory exactly when the characters before it fold to as many bytes.
- **Record parsers** (`RecordParsers`, `RecordLines`, `RecordRoundTrips`) and the **hosts file**
  (`HostsFile`). What each line says, the grouping, the limits, and round trips with the printed
  layouts of four commands and of the file.

`Text` has Go's string functions that these call, and their round trips. Hashes, RSA-PSS (section
8.1 of RFC 8017), base64, JSON and the contents of memory are parameters. Failures of the file
system, of renames and of commands are nondeterministic or parameters.

## Model

| member | source | states |
|---|---|---|
| Chunking.CountCovers | cmd/emergency-response/m-download-file.go:130-134 | The announced number of chunks is the least one whose chunks cover the file size. |
| Chunking.ChunksOfFile | cmd/emergency-response/m-download-file.go:136-153 | The chunks concatenate to the file; all but the last have 10240 bytes and the last has 1 to 10240. |
| Chunking.OpenFile.Read | cmd/emergency-response/m-download-file.go:141-148 | A read fills the buffer unless it reaches the end, and reports end of file or an error without data. |
| Chunking.ReadChunks | cmd/emergency-response/m-download-file.go:136-153 | The loop over buffer and chunk array yields the chunks, with empty slots left over, or fails on a read error, or runs past the slots, exactly as the file's length, the failing offset and the number of slots decide. |
| Chunking.ReadOutcomeForStatSize | cmd/emergency-response/m-download-file.go:110-153 | With slots made from an earlier size, the loop indexes out of range if and only if the file now needs more chunks; otherwise the slots concatenate to the file, and none is empty if and only if the number of chunks is unchanged. |
| Chunking.ReadOutcomeForFailure | cmd/emergency-response/m-download-file.go:141-152 | With reads that fail from an offset on, the loop fails, or runs past the slots first if and only if that offset is beyond 10240 bytes for each slot. |
| Chunking.GrownFilePanics | cmd/emergency-response/m-download-file.go:110-153 | A file of one byte whose size was taken while it was empty makes the loop index out of range. |
| Transfer.StepKeepsValid | cmd/emergency-response/m-download-file.go:213-293 | Every step of every interleaving keeps that each message in flight for index i carries chunk i of its transfer, the same total, and the hash if and only if i is last. |
| Transfer.KeysTellApart | cmd/emergency-response/m-download-file.go:104-106 | Session keys on one topic are equal only for equal paths, and on topics without a colon only for equal topics and paths; two different pairs with a colon share a key. |
| Transfer.MissingExactly | cmd/emergency-response/m-download-file.go:251-258 | The list of missing indices holds exactly those not acknowledged, in ascending order. |
| Transfer.NoneMissing | cmd/emergency-response/m-download-file.go:251-263 | The retry loop finds nothing missing if and only if every index is acknowledged. |
| Transfer.EmittedInRange | cmd/emergency-response/m-download-file.go:267-273 | The chunk a step publishes exists, and the sender stays well-formed. |
| Transfer.StepIsolation | cmd/emergency-response/m-download-file.go:247-285 | A step keeps all messages on the topics of their transfers if and only if it is not a retry published while the global topic is another one. |
| Transfer.IsolationExactly | cmd/emergency-response/m-download-file.go:62-79 | Over whole runs of concurrent requests, messages stay on their own topics if and only if no retry was published while another request had set the global topic. |
| TransferDelivery.StepFits | cmd/emergency-response/m-download-file.go:62-79 | A step keeps that every message on a receiver's topic is a chunk of that receiver's own file if and only if it does not cross: it is neither a request for a topic that carries something else than the requested file, nor a publication on a topic where a receiver waits for another file. |
| TransferDelivery.FitsExactly | cmd/emergency-response/m-download-file.go:213-293 | Over whole runs of concurrent transfers, every message on a receiver's topic is its own if and only if no step crossed. |
| TransferDelivery.CrossingTakesTopicInUse | cmd/emergency-response/m-download-file.go:70-77 | A crossing step is a request for a topic that carries messages already, or a publication on a topic that another receiver reads too. |
| TransferDelivery.DeliveryExactly | cmd/emergency-response/m-download-file.go:213-293 | After a run from the start, no receiver holds a message foreign to its file and none can be delivered to it, if and only if no step of the run crossed. |
| TransferDelivery.DeliveredExactly | cmd/emergency-response/m-download-file.go:213-293 | After any run without a crossing step, whatever was lost, repeated or reordered, each held message is the one of that index with the hash on the last only, and a receiver with all indices rebuilds the file. |
| TransferDelivery.StepKeepsAcked | cmd/emergency-response/m-download-file.go:81-102 | A step keeps that recorded acknowledgements are of chunks the transfer's receiver holds, if and only if it does not count one for a transfer whose receiver lacks the chunk. |
| TransferDelivery.AckedHeldExactly | cmd/emergency-response/m-download-file.go:81-102 | Recorded acknowledgements are true in every state of a run if and only if no acknowledgement was counted for a transfer whose receiver lacked the chunk. |
| TransferDelivery.FileDelivered | cmd/emergency-response/m-download-file.go:108-184 | Without a crossing step and without a false acknowledgement, a confirmed transfer of chunks made by the read loop has delivered the content of the file. |
| TransferSerial.SerialCrossing | cmd/emergency-response/m-download-file.go:70-77 | With one transfer at a time, no step crosses if a topic is only used again for the same content, and, unless a file is empty, only if. |
| TransferSerial.SerialAcks | cmd/emergency-response/m-download-file.go:87-101 | With one transfer at a time, each under a new path, no acknowledgement is false, whether or not they share a topic. |
| TransferSerial.SerialFileDelivered | cmd/emergency-response/m-download-file.go:108-184 | Under both conditions a confirmed transfer has delivered the content of the file, for every schedule of the channel. |
| TransferRuns.SenderStops | cmd/emergency-response/m-download-file.go:213-293 | In every run a sender takes at most 3n + 8 steps for n chunks, and until it has finished it can take a step. |
| TransferRuns.MisroutedRetry | cmd/emergency-response/m-download-file.go:70-77 | A legal run of two requests after which the second receiver holds every index and puts together the first file. |
| TransferRuns.ForeignAcknowledgement | cmd/emergency-response/m-download-file.go:81-102 | A legal run of two requests for one path, without a crossing step, after which the second transfer is confirmed although its receiver holds nothing. |
| TransferRuns.SharedTopic | cmd/emergency-response/m-download-file.go:70-74 | A legal run of two downloads on one topic, the second requested after the first has finished as confirmed, with no misrouted retry and no false acknowledgement, after which the second receiver holds every index and puts together the first file. |
| TransferSender.HandleChunkAck | cmd/emergency-response/m-download-file.go:81-102 | The acknowledgement is recorded in the session under path and global topic, if there is one, and in no other session. |
| TransferSender.SendChunksWithFlowControl | cmd/emergency-response/m-download-file.go:213-245 | The loop publishes the messages for all indices in order on the topic it is given. |
| TransferSender.MissingChunks | cmd/emergency-response/m-download-file.go:251-258 | The scan returns exactly the unacknowledged indices, in ascending order. |
| TransferSender.RetryMissingChunks | cmd/emergency-response/m-download-file.go:247-293 | Each round publishes the messages for the indices unacknowledged at the end of its sleep, on the global topic of each moment; the loop returns early if and only if every index was acknowledged by the end of the last sleep. |
| TransferSender.FirstPassIsSteps | cmd/emergency-response/m-download-file.go:216-242 | The first pass publishes what the protocol's sender publishes in the same number of steps, whatever happens to the global topic. |
| TransferSender.ResendIsSteps | cmd/emergency-response/m-download-file.go:267-285 | After the scan, k steps of the protocol's sender publish the messages for the first k missing indices, each on the global topic of the moment. |
| TransferSender.RoundIsSteps | cmd/emergency-response/m-download-file.go:248-286 | A round of the protocol publishes the messages for all missing indices and goes on to the next, or ends the loop, as confirmed if and only if nothing is missing before the rounds are used up. |
| TransferSender.RetryLoopIsSteps | cmd/emergency-response/m-download-file.go:247-293 | From the first sleep to the end, the protocol's sender publishes what the loop publishes, and ends as confirmed if and only if the loop returns early. |
| ClientHello.BuildJa3FromRaw | cmd/active-response/js.go:1641-1732 | On every byte sequence the cursor loops end and return what the closed-form parser returns, including every error and the index panic. |
| ClientHello.PanicsExactlyOnOddGroups | cmd/active-response/js.go:1697-1714 | The parser indexes out of range if and only if it visits a supported_groups body of odd length that announces more groups than it holds. |
| ClientHello.HalfGroupPanics | cmd/active-response/js.go:1708-1714 | A ClientHello of 51 bytes whose supported_groups body announces one group and holds half of it makes the parser index out of range. |
| ClientHello.NeverTruncatedVersionOrRandom | cmd/active-response/js.go:1646-1659 | A message cut before the session identifier is refused with one of two errors of their own, but the length check comes first, so that neither is ever returned. |
| ClientHelloMalformed.CutBeforeExtensions | cmd/active-response/js.go:1645-1685 | A well-formed message cut before its extensions is refused with the error of the field where it is cut, or with the first error when fewer than 42 bytes are left. |
| ClientHelloMalformed.OddCiphers | cmd/active-response/js.go:1667-1676 | With an odd length of the cipher suites, the last suite takes one byte of what follows, and the parser goes on at that byte. |
| ClientHelloMalformed.AnnouncedGroups | cmd/active-response/js.go:1707-1713 | Of a supported_groups body that announces more or fewer groups than it holds, the announced groups are read as far as they go, and half a group that is announced is the index panic. |
| ClientHelloMalformed.AnnouncedPoints | cmd/active-response/js.go:1714-1720 | The same for an ec_point_formats body. |
| ClientHelloMalformed.LooseEnd | cmd/active-response/js.go:1696-1697 | Fewer than four bytes after the last extension are ignored. |
| ClientHelloMalformed.IncompleteExtension | cmd/active-response/js.go:1698-1704 | Of an extension whose body is not all there, only the type is taken. |
| ClientHello.ReadGroups | cmd/active-response/js.go:1708-1714 | The loop appends the announced groups that fit, or panics on the odd last byte. |
| ClientHello.ReadExtensions | cmd/active-response/js.go:1692-1723 | The loop over the extensions collects types, groups and points of the extensions visited. |
| ClientHelloWire.ParseSerialized | cmd/active-response/js.go:1641-1732 | Parsing any well-formed ClientHello with an extension block, with or without a record header and with any trailing bytes, gives its version, ciphers, extension types, groups and point formats. |
| ClientHelloCut.CutCapture | cmd/active-response/js.go:1686-1704 | Cutting any message the parser accepts anywhere inside its extension block is accepted again, with the same version and ciphers and with prefixes of the extension, group and point lists. |
| Ja3Text.JoinNumbers | cmd/active-response/js.go:1618-1632 | The filled array of decimals is joined to the list's text. |
| Ja3Text.Ja3RoundTrip | cmd/active-response/js.go:1724-1731 | Splitting the string on ',' and '-' and reading decimals recovers the version and the four lists, empty or not. |
| Ja3Text.Ja3StringInjective | cmd/active-response/js.go:1724-1731 | Different fingerprints print differently. |
| Text.DecimalCanonical | cmd/active-response/js.go:1621-1621 | A printed number has no leading zero, and a digit is its distance from '0'. |
| Text.DecimalUnique | cmd/active-response/js.go:1621-1621 | The printed number is the only numeral without leading zeros that has the value. |
| Ja3OfHello.PrintedForm | cmd/active-response/js.go:1724-1730 | The string is the version and the four lists, in this order, with commas between them. |
| Ja3OfHello.ListForm | cmd/active-response/js.go:1618-1632 | A list is its decimals with hyphens between them, and nothing when empty. |
| Ja3OfHello.BuildJa3Text | cmd/active-response/js.go:1640-1732 | On every byte sequence the function returns the printed string, the error or the index panic that the closed-form parser and the printed form give. |
| Ja3OfHello.SameTextSameFingerprint | cmd/active-response/js.go:1640-1732 | Two well-formed ClientHellos, each with or without a record header and with any trailing bytes, give the same string if and only if they agree in version, ciphers, extension types, groups and point formats. |
| HashCacheRuns.StepAgrees | cmd/active-response/js.go:4229-4273 | An interleaved step keeps that entries with a file's current stamp have the hashes of its content, and that calls with a current stamp have read a true prefix, if and only if it is not a write giving a stamp under which the cache has other hashes or a call in flight other bytes. |
| HashCacheRuns.AgreesExactly | cmd/active-response/js.go:4229-4273 | That agreement holds in every state of a run of any number of callers and writers if and only if no write was of that harmful kind. |
| HashCacheRuns.NewStampsAreHarmless | cmd/active-response/js.go:4238-4242 | Writes that always give the file a stamp it has not had before are not harmful. |
| HashCacheRuns.CallAgreesWithDirectHashing | cmd/active-response/js.go:4229-4273 | In every run without a harmful write, a call with no write between its stat and its return gives the MD5 of the content. |
| HashCacheRuns.LookupServesExactly | cmd/active-response/js.go:4235-4242 | A lookup is answered from the cache if and only if there is an entry with the same modification time and size made less than 60 000 000 000 nanoseconds before. |
| HashCacheRuns.NeverOlderThanAMinute | cmd/active-response/js.go:4235-4241 | Without trusting stamps, any hash returned comes from a read begun less than 60 000 000 000 nanoseconds before the call took the time. |
| HashCacheRuns.ReusedStampGoesUnnoticed | cmd/active-response/js.go:4238-4242 | A reachable run in which a write with an old stamp makes a later call return the MD5 of the old content. |
| HashCacheSha.EntryCurrentExactly | cmd/active-response/js.go:4274-4286 | The cache entry that getFileSha256 reads without comparing stamps has the file's current stamp in every state of a run if and only if no overtaken call stored over it and no write gave the file another stamp. |
| HashCacheSha.Sha256AgreesWithDirectHashing | cmd/active-response/js.go:4274-4286 | In every run without a harmful write, when an undisturbed getFileMd5 has returned and nothing displaces the entry before the second read, getFileSha256 gives the SHA-256 of the content. |
| HashCacheSha.OvertakenStore | cmd/active-response/js.go:4270-4286 | A reachable run, all of whose writes give new stamps, in which a call gets the right MD5 and then the SHA-256 of the old content, because a slower call stored over the entry in between. |
| HashCacheSolo.SoloCall | cmd/active-response/js.go:4230-4273 | A call whose steps are not interrupted ends, from any state, with the result and the cache that are stated for the method. |
| HashCache.Cache.GetFileMd5 | cmd/active-response/js.go:4230-4273 | An entry with the file's modification time and size made less than 60 000 000 000 nanoseconds before is a hit; a hit returns the entry and leaves the cache; a miss fails exactly when the file cannot be opened or a read up to its end fails, and then leaves the cache; otherwise it returns the MD5 of the content and stores one entry; a faithful cache stays faithful and then any result is the content's MD5. |
| HashCache.Cache.GetFileSha256 | cmd/active-response/js.go:4274-4286 | For one caller at a time the missing-entry error does not occur, it fails exactly when getFileMd5 does, and on a faithful cache the result is the SHA-256 of the content. |
| UpdaterManifest.VerifySignature | cmd/active-response/internal/updatercore/updatercore.go:214-239 | Success if and only if some effective signature verifies under the key; otherwise the error of the missing signature, the key, or the last signature. |
| UpdaterManifest.AcceptedMeans | cmd/active-response/internal/updatercore/updatercore.go:214-331 | The manifest is accepted if and only if the public key accepts, for the marshalled manifest without its signatures, the decoded text of a signature in the list whose algorithm is blank or the supported one, or, when the list is empty, that of the single signature field. |
| UpdaterManifest.SignatureErrorMeans | cmd/active-response/internal/updatercore/updatercore.go:317-331 | Which of the three errors a signature gives. |
| UpdaterManifest.VerifyWithKeyring | cmd/active-response/internal/updatercore/updatercore.go:243-286 | For every iteration order of the ring: success if and only if some effective signature verifies under a key of the ring it is allowed to be checked against, with the identifier of the first such signature. |
| UpdaterManifest.AcceptedByRingMeans | cmd/active-response/internal/updatercore/updatercore.go:243-286 | The ring accepts if and only if one of its keys that the signature names or leaves open accepts its text in that sense. |
| UpdaterManifest.OneKeyRing | cmd/active-response/internal/updatercore/updatercore.go:243-286 | A ring of one key accepts only what the key alone accepts, and less exactly when every signature that verifies names another key. |
| UpdaterManifest.OtherKeyNamed | cmd/active-response/internal/updatercore/updatercore.go:258-272 | Whatever the cryptography: a manifest whose only signature verifies under the key but names another one is accepted by the key alone and refused by the ring of that key. |
| UpdaterManifest.FindTarget | cmd/active-response/internal/updatercore/updatercore.go:203-211 | The first target that matches system and architecture up to case, or none if there is none. |
| UpdaterManifest.EqualFoldMeans | cmd/active-response/internal/updatercore/updatercore.go:203-211 | Against an ASCII string: equal up to the case of letters, or U+017F for s, or U+212A for k. |
| UpdaterManifest.BuildNumberRoundTrip | cmd/active-response/internal/updatercore/updatercore.go:539-549 | The build number of any string followed by '+' and a decimal is that number. |
| UpdaterManifest.NoBuildNumber | cmd/active-response/internal/updatercore/updatercore.go:539-549 | Without a plus sign, or with a last part that is no number, the build number is 0. |
| UpdaterManifest.OutOfRange | cmd/active-response/internal/updatercore/updatercore.go:539-549 | A number above the range of 64-bit integers gives 0. |
| UpdaterManifest.NegativeNumeral | cmd/active-response/internal/updatercore/updatercore.go:539-549 | A minus sign after the plus sign counts, within the range of 64-bit integers. |
| UpdaterManifest.ZeroNumeral | cmd/active-response/internal/updatercore/updatercore.go:539-549 | A leading zero does not count. |
| UpdaterArchive.ExtractZip | cmd/active-response/internal/updatercore/updatercore.go:405-448 | The first file with the name, else the first file. |
| UpdaterArchive.ExtractTarGz | cmd/active-response/internal/updatercore/updatercore.go:450-518 | The first regular file with the name, else the first one that is not empty. |
| UpdaterArchive.ZipMeans | cmd/active-response/internal/updatercore/updatercore.go:405-448 | The zip extractor yields the bytes of the first entry that is no directory and has the name, else of the first that is no directory, and fails exactly when all are directories. |
| UpdaterArchive.TarMeans | cmd/active-response/internal/updatercore/updatercore.go:450-518 | The tar.gz extractor yields the bytes of the first regular file with the name, or the first at all when no name is given, else of the first regular file that is not empty, and fails exactly when there is none of these. |
| UpdaterArchive.BaseMeans | cmd/active-response/internal/updatercore/updatercore.go:391-391 | The last element of a path is what follows the last slash that is not at its end; it is a dot for the empty path and a slash for slashes only. |
| UpdaterArchive.ExtractorsAgree | cmd/active-response/internal/updatercore/updatercore.go:405-518 | On archives of files and directories both choose the same bytes or both fail if and only if no name is given, a file has the name, there is no file, or the first file is not empty. |
| UpdaterArchive.ExtractorsDiffer | cmd/active-response/internal/updatercore/updatercore.go:405-518 | On an archive of an empty and a non-empty file, asked for a name that is not there, one extractor yields no bytes and the other the second file. |
| UpdaterArchive.BaseNeverEmpty | cmd/active-response/internal/updatercore/updatercore.go:420-422 | No entry's base name is the empty string. |
| UpdaterInstall.ApplyBinary | cmd/active-response/internal/updatercore/updatercore.go:520-537 | For every pattern of failing renames, in every state on the way the old bytes are at the current or the backup path; on success the current path has exactly the new bytes, on an error exactly the old ones unless the rollback failed; no other file changes. |
| UpdaterInstall.Update | cmd/active-response/internal/updatercore/updatercore.go:94-177 | The lasting files change only if the run is not check-only, the signature was accepted or skipped, a target matched and the build is higher; the old binary survives in every state; the deferred removals never touch the installed file; the result record tells both builds, whether the update was made, and the staged path. |
| UpdaterInstall.Gate | cmd/active-response/internal/updatercore/updatercore.go:120-145 | The manifest is refused exactly when there is none, its signature is neither accepted nor skipped, or no target matches, with the error of the first of these; otherwise the first matching target is returned. |
| UpdaterInstall.ExtractedMeans | cmd/active-response/internal/updatercore/updatercore.go:394-403 | Names whose last extension is zip or gz, in either case of letters, are unpacked by the one or the other extractor, and no others. |
| UpdaterRuns.ChangeRaisesBuild | cmd/active-response/internal/updatercore/updatercore.go:146-176 | A run that changes the executable passed all checks and strictly raised the installed build. |
| UpdaterRuns.BuildsOnlyRise | cmd/active-response/internal/updatercore/updatercore.go:94-177 | Over any sequence of runs, each of which finds the executable the one before it left, whatever happens to other files, the installed build rises by at least the number of runs that changed the executable. |
| PfConf.PfFile.AddIpRule | cmd/active-response/block-ip.go:126-166 | Appends the two rule lines to the text, or changes nothing for a blank address or a file that cannot be opened. |
| PfConf.PfFile.RemoveIpRule | cmd/active-response/unblock-ip.go:108-160 | Rewrites the text as the scanned lines that do not begin with a rule for the address. |
| PfConf.MatchesByPrefix | cmd/active-response/unblock-ip.go:127-130 | The rule lines of an address are removed if and only if the given address is a prefix of it. |
| PfConf.KeptMeans | cmd/active-response/unblock-ip.go:125-131 | The filter goes line by line and drops exactly the lines that begin with one of the two rule texts and the address. |
| PfConf.ScannedCarriage | cmd/active-response/unblock-ip.go:124-126 | One carriage return before a newline goes. |
| PfConf.ScannedUpToLong | cmd/active-response/unblock-ip.go:124-126 | A line of 65536 bytes or more ends the scan, and shorter ones do not. |
| PfConf.UnterminatedLast | cmd/active-response/unblock-ip.go:124-126 | A last line without a newline counts. |
| PfConf.RestoredExactly | cmd/active-response/unblock-ip.go:124-146 | Unblocking right after blocking restores the file if and only if it ends in a newline or is empty, no line is over the scanner's limit or ends in a carriage return, and no line already matches. |
| PfConf.UnterminatedLineKeepsRule | cmd/active-response/block-ip.go:139-152 | On a file whose last line has no newline, blocking and unblocking leaves that line with a rule glued to it. |
| PfConfRuns.FileRefinesPrefixSet | cmd/active-response/block-ip.go:139-152 | After any run the addresses with both rule lines are exactly the abstract set in which unblocking removes all addresses with the given prefix; all other lines keep content and order. |
| PfConfRuns.IntendedExactly | cmd/active-response/unblock-ip.go:127-130 | All through a run that set is the intended one if and only if no unblock meets another blocked address beginning with the one given. |
| PfConfRuns.UnblockTakesLonger | cmd/active-response/unblock-ip.go:127-130 | After 10.0.0.1 and 10.0.0.10 are blocked, unblocking 10.0.0.1 also takes 10.0.0.10 out of the file. |
| PfConfRuns.PrefixFreeRefines | cmd/active-response/unblock-ip.go:108-146 | Over addresses none of which begins with another, the file keeps exactly the intended set. |
| Iptables.Firewall.BlockIp | cmd/active-response/block-ip.go:89-101 | Runs both commands in order, each whether or not the other failed. |
| Iptables.Firewall.UnblockIp | cmd/active-response/unblock-ip.go:79-91 | Runs both deletions in order, each whether or not the other failed. |
| Iptables.BlockPlaces | cmd/active-response/block-ip.go:89-101 | The rule goes on top of INPUT and to the end of FORWARD, as far as the commands worked. |
| Iptables.UnblockRemoves | cmd/active-response/unblock-ip.go:79-91 | The first rule for the address goes from each chain, as far as the commands worked and there is one. |
| Iptables.UnblockAfterBlock | cmd/active-response/unblock-ip.go:79-91 | Whichever of the four commands worked: INPUT is restored, and FORWARD as a multiset, if and only if both commands on the chain worked, or neither, or only the deletion and the rule was not there; FORWARD in order if and only if, besides, only copies of the rule follow its first copy in case both worked. |
| Iptables.OlderRuleReorders | cmd/active-response/unblock-ip.go:79-82 | With an older rule for the address in front of another rule, blocking and unblocking swaps the two in FORWARD. |
| Iptables.BalancedRunRestores | cmd/active-response/unblock-ip.go:79-91 | A run in which every insertion that worked on a chain is undone there later, in any interleaving of addresses and whatever else failed, restores INPUT exactly and FORWARD up to order. |
| Iptables.OtherRulesKeepOrder | cmd/active-response/block-ip.go:89-101 | In every run, whatever failed, the rules for other addresses keep their order in both chains. |
| ProcessSearch.ScanRegion | cmd/active-response/process_search_linux.go:71-98 | The body of the loop takes one step of the budgeted scan: an empty or unreadable region changes nothing, and the bytes read are counted and searched for at most one hit. |
| ProcessSearch.ProcessSearchText | cmd/active-response/process_search_linux.go:64-100 | The loop reports the hits and the byte count of the budgeted scan over the regions. |
| ProcessSearch.BudgetsKept | cmd/active-response/process_search_linux.go:67-98 | The count is the sum of the bytes scanned, within the byte budget, hits are within theirs, and each scan is a start of its region of at most one block. |
| ProcessSearch.HitsAreExact | cmd/active-response/process_search_linux.go:83-94 | A hit is the least occurrence in the bytes scanned, and a scan without a hit has none; with case folding for ASCII bytes. |
| ProcessSearch.FoldedHits | cmd/active-response/process_search_linux.go:84-87 | With case folding, for any bytes and any needle, there is a hit if and only if the needle stands, up to case, from some character on. |
| ProcessSearch.FoldedAddress | cmd/active-response/process_search_linux.go:84-90 | The address reported for the first such character is its address in memory if and only if the characters before it take as many bytes folded as in memory. |
| ProcessSearch.FoldingShiftsAddress | cmd/active-response/process_search_linux.go:84-90 | An invalid byte before the occurrence makes the reported address too high by two. |
| ProcessSearch.AllRegionsTried | cmd/active-response/process_search_linux.go:67-98 | If no budget is used up, each region was reached in its turn, and the one read made of it there, non-empty and within the region, block and budget, was scanned or failed. |
| ProcessSearch.WantedIs | cmd/active-response/process_search_linux.go:71-78 | A read asks for 4096 bytes, or for the rest of the region, or for the rest of the byte budget, whichever is least. |
| ProcessSearch.AmpleSearch | cmd/active-response/process_search_linux.go:66-98 | In memory that can be read everywhere, if no budget is used up, the scans are the first 4096 bytes of all regions in order. |
| ProcessSearch.NeedleFound | cmd/active-response/process_search_linux.go:66-98 | Then a needle that lies wholly in the first 4096 bytes of a region yields a hit in that region, at it or before it. |
| RecordParsers.ParseRecords | cmd/active-response/js.go:1195-1257 | For a positive limit the result is the first `limit` records of the unlimited result; for others the first record a later header closes. |
| RecordParsers.GroupRecords | cmd/active-response/js.go:1016-1042 | The same for the loop with any test of a line. |
| RecordParsers.RecordsCutAtHeaders | cmd/active-response/js.go:1236-1257 | The records of two parts, the second beginning with a header, are those of the first followed by those of the second. |
| RecordParsers.ParseNscdHosts | cmd/active-response/js.go:1259-1276 | The limited result is the unlimited one cut at the limit, except that its last record has no address. |
| RecordLines.ScNameLine | cmd/active-response/js.go:1021-1028 | The name of a service is the trimmed text after its label, whatever space is around. |
| RecordLines.ScStateLine | cmd/active-response/js.go:1029-1033 | The state is the third word of its line, whatever space is between the words. |
| RecordLines.ScDisplayLine | cmd/active-response/js.go:1034-1036 | The display name is the trimmed text after its label. |
| RecordLines.DnsNameLine | cmd/active-response/js.go:1200-1213 | The name of an answer is the trimmed text after the first colon. |
| RecordLines.DnsDataLine | cmd/active-response/js.go:1224-1229 | The data is the trimmed text after the first colon, and its label is recognised in any case of letters. |
| RecordLines.AddressLine | cmd/active-response/js.go:1250-1252 | The address is the trimmed text after its label. |
| RecordLines.NscdNameLine | cmd/active-response/js.go:1263-1266 | The name is the second word of its line, and the rest is not looked at. |
| RecordRoundTrips.ScQueryRoundTrip | cmd/active-response/js.go:1016-1042 | Printing any list of services in the layout of the command, with any margins, and parsing the text gives the services. |
| RecordRoundTrips.DnsCacheRoundTrip | cmd/active-response/js.go:1195-1234 | The same for answers of the Windows DNS cache. |
| RecordRoundTrips.DscacheutilRoundTrip | cmd/active-response/js.go:1236-1257 | The same for hosts from dscacheutil. |
| RecordRoundTrips.NscdRoundTrip | cmd/active-response/js.go:1259-1276 | The same for hosts from nscd. |
| HostsFile.ParseHostsContent | cmd/active-response/js.go:1413-1445 | The entries of the text, cut to the limit but never below one. |
| HostsFile.HostsRoundTrip | cmd/active-response/js.go:1413-1445 | Printing any list of valid entries and parsing it returns the list. |
| HostsFile.PaddedLine | cmd/active-response/js.go:1417-1417 | Space around a line does not count. |
| HostsFile.SemicolonLine | cmd/active-response/js.go:1425-1428 | A comment may begin with a semicolon if no number sign stands in it. |
| HostsFile.SkippedLines | cmd/active-response/js.go:1418-1432 | Blank lines, comments and lines of one word are passed over. |
| HostsFile.EntriesOfTwo | cmd/active-response/js.go:1414-1444 | The entries of two texts on lines after each other are those of the first and then those of the second. |

## Left out

- MQTT connections, JSON encoding, logging, command-line handling, process control and the Windows code.
- The insides of MD5, SHA-256, RSA-PSS, base64 and JSON, which are parameters of the models.
- Contents of release artifacts: `Update` never compares the digest in the manifest, so nothing is claimed about them beyond the stated assumption on version strings.
- Opening a file that is then replaced by a rename or deleted while it is read: in the hash cache model a write changes the file in place.
- Failing calls in `HashCacheRuns`: a call whose open or read fails is one that takes no further step; `HashCache` has the failures.
- Write errors after a file has been opened: pf.conf truncated by a failing write, temporary files left by a failing copy.
- Text that is not valid UTF-8, except in the memory search, and case folding between characters other than ASCII letters and the two that fold onto them; the memory search takes the decoding and the case table of `strings.ToLower` as a parameter that yields one character for each piece.
- Reading `/proc/<pid>/maps` into regions: the search starts from the list of readable regions.
- HashCacheRuns.CallAgreesWithDirectHashing: for runs without a harmful write, which HashCacheRuns.AgreesExactly shows to be those in which the cache stays true; HashCacheRuns.ReusedStampGoesUnnoticed is a run with one.
- TransferDelivery.AckedHeldExactly: the look-up of a session and the store of an acknowledgement are one step of the model, while the code takes two locks.
- TransferDelivery.DeliveryExactly: a message once published can reach a receiver at any later time, also one that subscribes to the topic afterwards; the subscriptions themselves belong to the clients and are not modelled.
- TransferSerial.SerialAcks: one way only; the exact condition, for all runs, is TransferDelivery.AckedHeldExactly.
- ProcessSearch.HitsAreExact: for exact case and for ASCII; ProcessSearch.FoldedHits and ProcessSearch.FoldedAddress are for all bytes.
- UpdaterRuns.BuildsOnlyRise: assumes that the version string of an installed artifact ends in '+' and the manifest's build number.
- UpdaterArchive.Base: the Unix form of filepath.Base.
- Windows branches of blocking and unblocking, reloading pf, and the result messages of both commands.
- The list of blocked addresses kept elsewhere, resynchronising the firewall, and flushing the block list.
- Parsers driven by regular expressions, entropy, GREASE filtering, the state store, feature flags, playbooks and shell sessions.

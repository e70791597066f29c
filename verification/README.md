# Siglatch, modelled and proved in Dafny

Siglatch is a knock daemon and its client, written in C. This project models the parts of it that hold
state or do arithmetic, and proves what they promise.

* **Hot reload** (`KeyStore`, `Config`, `CodecContext`, `CodecSync`, `Reload`, `Runtime`, `ReloadRuns`). A new
  configuration is staged, examined, swapped in and, if a later step fails, swapped out again. Config
  objects, keys and reference counts live in explicit heaps, so that freeing, dangling pointers and
  double frees can be stated. Every call into the outside world is free to fail. Start-up and changes of wire
  flags at run time are part of it.
* **Replay memory** (`NonceCache`, `ReplayGate`). The ring of timestamped strings in one flat buffer
  answers like a plain log; the gate in front of it lets a packet through once per window.
* **Packet formats** (`Bytes`, `Wire`, `WireV1`, `WireV2`, `WireV3`, `Transport`, `V1Codec`, `V2Codec`,
  `V3Codec`, `Detect`). Layouts, both directions of packing, authenticated data, signatures, and the
  router that recognises the formats.
* **Job queue** (`JobQueue`, `JobRuns`). A 64-slot ring whose jobs own heap buffers.
* **Text** (`Argv`, `Base64`, `Decimals`, `AliasMap`, `Sanitizer`, `Symbols`). The argument parser, the
  base64 encoder, the alias files and the output sanitizer with the table it is used with.

Cryptography appears as functions whose laws are hypotheses of the lemmas that need them; clocks,
allocators, sockets and files appear as parameters that say how each call turns out. Machine widths
are written out where they matter: `byte`, `u16`, `u32`, `SIZE_MAX`, the cast of a length to `int`.

## Where the code does not keep what it aims at

* A codec failure during a reload puts config, server and session back, and nothing else. The request to
  rebuild the old key snapshot is made with a config pointer that is already NULL, so it does nothing
  (`Runtime.Daemon.RequestPreviousSnapshot`). The snapshot goes on showing a config that has been destroyed,
  all of it after a refused policy push (`ReloadRuns.CodecFailureLeavesNewKeys`,
  `ReloadRuns.RefusedPushKnowsNewUsers`), and agrees with the config in use only when neither has anything to
  show (`ReloadRuns.CodecFailureAgreesExactly`). The socket stays on the new binding
  (`ReloadRuns.CodecFailureKeepsNewBinding`), and if it was the multiplexer that refused the new policy, that
  policy stays (`ReloadRuns.StepKeepsPolicy`). At one input all three go wrong at once
  (`ReloadRuns.RefusedPushLeavesDisagreement`). A commit puts everything together again if
  the system binds the port asked for (`ReloadRuns.CommitEstablishes`), and so it stays until the next codec
  failure (`ReloadRuns.RunIsConsistent`).
* No validator looks at user names, and a config whose enabled users share a name, or have none, passes
  every check and can never be committed (`ReloadRuns.UnindexableNeverCommits`,
  `ReloadRuns.SharedNameFailsToRebuild`).
* Loading a config in one step destroys the previous one without a look at what was lent from it
  (`Runtime.Daemon.Load`).
* The third codec reports success, and a length, when the buffer was too small and nothing was written
  (`V3Codec.Encode`, `V3Codec.ReportsWhatItDidNotWrite`); its adapter takes the code for a malformed buffer for success
  (`V3Codec.AdapterAcceptsExactly`).
* Packing the second format does not reproduce buffers with bytes behind the payload
  (`WireV2.PackInvertsUnpackIff`).
* "--k=v" and "--k" "v" differ where an earlier option takes the argument as its value, and behind "--"
  (`Argv.EqualsAnywhere`, `Argv.SwallowedEqualsDiffers`).
* An option named "--" can be stored, from "--=v", and then the normal form does not parse back
  (`Argv.NormalForm`, `Argv.DashDashNameFails`); a table offering no "--" with exactly one value never stores one
  (`Argv.DashDashNeverStored`).
* An option with more than ten values overruns a buffer of ten before their number is checked
  (`Argv.BufferHoldsExactly`), and the base64 encoder's bound wraps around for a buffer of length zero
  (`Base64.BoundHoldsExactly`).
* Setting an alias reports success for names that no entry can have: such a name resolves to nothing, and
  instead the front of a name too long, or what stands behind a line break in it, can be set
  (`AliasMap.AliasFile.Set`, `AliasMap.LineBreakSetsAnother`).
* A formatted line of up to 1755 bytes is never cut by sanitizing it; one byte more can be
  (`Symbols.ShortLinesAreWhole`, `Symbols.LongerLinesCanBeCut`).

## Model

| member | source | states |
|---|---|---|
| KeyStore.Store.Retain | src/shared/knock/codec/context.c:305-311 | taking a reference to a live key adds one to its count when granted and changes no other count |
| KeyStore.Store.Release | src/siglatch/app/config/config.c:1140-1143 | giving a reference back takes one from that key's count and from no other |
| Config.ServerByName | src/siglatch/app/config/config.c:576-587 | finds the first server of this name, or none |
| Config.LookupFindsItself | src/siglatch/app/config/config.c:333-358 | with validated names, looking a server up by its own name finds that very object |
| Config.ValidateUniqueServerNames | src/siglatch/app/config/config.c:333-358 | accepts exactly when every server has a name and no two share one |
| Config.ApplyDefaults | src/siglatch/app/config/config.c:314-325 | only a missing port is filled in |
| Config.LoadMasterKey | src/siglatch/app/keys/keys.c:66-73 | loads one key when a path is set, and fails exactly when its file holds none |
| Config.LoadUserKeys | src/siglatch/app/keys/user.c:20-61 | every enabled user gets an RSA key, or it fails; the counts grow by exactly the keys left in the users, also when it fails half way |
| Config.LoadServerKeys | src/siglatch/app/keys/server.c:19-71 | own key file: an owned key; none: the master key, not owned; the counts grow by the owned keys only |
| Config.LoadHmacKeys | src/siglatch/app/keys/hmac.c:18-61 | every enabled user gets its 32 bytes, or it fails |
| Config.LoadKeys | src/siglatch/app/keys/keys.c:66-91 | succeeds exactly when every file that is needed can be used; the references taken are those the config owns |
| Config.BuildFromPath | src/siglatch/app/config/config.c:205-241 | builds a config exactly from loadable inputs, saying what the document says, with each enabled user's HMAC bytes as read; a failed build has given every key back |
| Config.Free | src/siglatch/app/config/config.c:1138-1163 | gives back exactly the references the config owns, the aliased master key once |
| Config.PointedIsOwned | src/siglatch/app/keys/server.c:44-66 | a config never points to a key it owns no reference of, aliases included |
| CodecContext.Context.CopyEntry | src/shared/knock/codec/context.c:287-340 | a copy holds its own references and bytes; a copy refused at any step holds nothing and the counts are as before |
| CodecContext.Context.SetServerKey | src/shared/knock/codec/context.c:71-87 | replaces the key and releases the old one, or keeps the old one; nobody else's references change |
| CodecContext.Context.ClearServerKey | src/shared/knock/codec/context.c:89-97 | the slot's references are given back, nobody else's change |
| CodecContext.Context.EnsureCapacity | src/shared/knock/codec/context.c:342-373 | growth keeps the entries in order and zeroes the rest; a refusal changes nothing |
| CodecContext.Context.AddKeychain | src/shared/knock/codec/context.c:117-143 | adds a copy at the end exactly when the name is usable and free and the calls succeed; names stay unique, the books stay balanced |
| CodecContext.Context.RemoveKeychain | src/shared/knock/codec/context.c:145-182 | takes out exactly the named entry, keeps the order of the others and balances the books |
| CodecContext.Context.Destroy | src/shared/knock/codec/context.c:50-69 | afterwards the snapshot holds no reference and everybody else's are unchanged |
| CodecSync.KeychainEntryForUserId | src/shared/knock/codec/v1/v1.c:76-94 | finds the first entry of this user id, or none |
| CodecSync.LookupAgrees | src/siglatch/app/config/config.c:243-256 | keychain and config find the same user for every id, with the same key and HMAC bytes, or both nothing |
| CodecSync.LookupGives | src/siglatch/app/runtime/runtime.c:175-195 | the entry found for a user id has the name, public key and 32 HMAC bytes of the first enabled user of that id, and no private key |
| CodecSync.ClearKeychain | src/siglatch/app/runtime/runtime.c:153-160 | the loop ends with an empty keychain; no removal can fail |
| CodecSync.FillKeychain | src/siglatch/app/runtime/runtime.c:175-195 | gets exactly as far as the first enabled user whose name is empty or taken or for whom a call that is needed is refused; on every way out the keychain is the enabled users before that one, in order |
| CodecSync.CompletesExactly | src/siglatch/app/runtime/runtime.c:175-195 | the loop gets to the end exactly when enabled users have different nonempty names and each growth and copy really needed is granted |
| CodecSync.Rebuild | src/siglatch/app/runtime/runtime.c:149-195 | when it succeeds, exactly, and the whole snapshot it leaves on every way out; nobody else's references change |
| CodecSync.RebuiltShows | src/siglatch/app/runtime/runtime.c:149-195 | a rebuild that reaches its end shows config and server exactly; any other shows a front part of the users |
| Runtime.InitSession | src/siglatch/app/inbound/crypto/crypto.c:28-60 | set up exactly when the library cooperates and a secure server has its key; a secure server's session borrows exactly that key, another's none; a refusal leaves the session as it was |
| Runtime.Daemon.Detach | src/siglatch/app/config/config.c:89-94 | hands the owning pointer over and keeps none |
| Runtime.Daemon.Attach | src/siglatch/app/config/config.c:96-105 | takes the object over and destroys the one owned before; NULL changes nothing |
| Runtime.Daemon.Destroy | src/siglatch/app/config/config.c:1134-1163 | a live object is freed once, and every remaining reference still matches the counts |
| Runtime.Daemon.LoadDetached | src/siglatch/app/config/config.c:118-133 | a new object beside the old ones exactly when the inputs are loadable, otherwise nothing at all |
| Runtime.Daemon.Load | src/siglatch/app/config/config.c:107-116 | attaches a loadable config, or changes nothing; what was borrowed before still leads somewhere exactly when nothing was |
| Runtime.Daemon.InvalidateBorrows | src/siglatch/app/runtime/runtime.c:89-114 | no borrowed pointer is left in listener or session |
| Runtime.Daemon.SyncCodecContext | src/siglatch/app/runtime/runtime.c:116-210 | tells apart a failed rebuild, a refused push and success, exactly; the snapshot and the policy each of them leaves; with a NULL pointer nothing happens |
| Runtime.Daemon.Examine | src/siglatch/app/runtime/runtime.c:253-284 | which of the checks before commit fails, exactly: enabled, a working session, an admissible binding |
| Runtime.Daemon.Stage | src/siglatch/app/runtime/runtime.c:243-284 | which check fails, exactly, in the program's order; a failed one leaves every count as before and only a destroyed object behind; a staged config shares no key with the old ones |
| Runtime.Daemon.ProbeBind | src/siglatch/app/udp/udp.c:136-161 | true exactly when the live socket has the binding or a trial bind works |
| Runtime.Daemon.RebindListener | src/siglatch/app/udp/udp.c:163-208 | moves socket, port and address together, each to what was bound, or nothing |
| Runtime.Daemon.Install | src/siglatch/app/runtime/runtime.c:286-289 | the new config is attached, the old one handed to the caller, nothing freed, nothing else lent |
| Runtime.Daemon.Advance | src/siglatch/app/runtime/runtime.c:286-384 | at which step the new config stops, exactly, and the state it has then: borrows lead into it, snapshot and policy as far as the sync got |
| Runtime.Daemon.Rollback | src/siglatch/app/runtime/runtime.c:294-318 | old config attached, new one destroyed, the old server lent again or nothing lent at all; snapshot, policy and binding as they were when it began |
| Runtime.Daemon.RequestPreviousSnapshot | src/siglatch/app/runtime/runtime.c:356-373 | the rebuild asked for after a codec failure changes nothing |
| Reload.PreviousIsLent | src/siglatch/app/runtime/runtime.c:336-342 | looking the old server up by name after a rollback finds the very object the listener had |
| Runtime.Daemon.Commit | src/siglatch/app/runtime/runtime.c:286-391 | exactly one config is live afterwards and all borrowed pointers lead into it, on every way out; the exit and the state are those of the steps one after the other |
| Runtime.Daemon.ReloadConfig | src/siglatch/app/runtime/runtime.c:212-391 | the exit taken, exactly, told from the state, the document and the outcomes of the calls; the whole state it leaves, up to the keys loaded; one live config, borrows into it, balanced counts, always |
| Runtime.Daemon.SelectServer | src/siglatch/app/server/server.c:30-43 | lends the enabled server of this name, or none |
| Runtime.Daemon.StartListener | src/siglatch/app/udp/udp.c:97-134 | binds the socket for the server in use, or changes nothing |
| Runtime.Daemon.StartSession | src/siglatch/app/daemon/runner.c:181-184 | exactly when the server in use can have a session, it borrows that server's private key if it is secure, and nothing otherwise |
| Runtime.Daemon.StartUp | src/siglatch/app/startup/startup.c:398-436 | starts exactly from a loadable document with an enabled server of this name whose snapshot, socket and session can be had; then session key, policy, snapshot and binding are that server's |
| Reload.PastChecks | src/siglatch/app/runtime/runtime.c:243-284 | the running config is touched exactly for an acceptable document |
| Reload.ExitsInOrder | src/siglatch/app/runtime/runtime.c:212-349 | the exit taken before the codec sync, told in the program's order from the fields of the document, the listener and the outcomes of the calls |
| Reload.AgreementMeans | src/shared/knock/codec/v1/v1.c:76-94 | a daemon whose snapshot agrees knows every enabled user id by the key and HMAC bytes of the config in use, no other id, and the private key of a secure server in use |
| Reload.SelectedDecidesAlike | src/siglatch/app/runtime/runtime.c:286-384 | the keys loaded play no part in which exit is taken: document and loaded config decide alike |
| Reload.SettledIsAfter | src/siglatch/app/runtime/runtime.c:286-391 | swap, steps and swap back, one after the other, leave the old config and the very server object, or the new ones |
| Runtime.Daemon.SetServerFlag | src/siglatch/app/config/config.c:652-682 | changes one flag of one server of the attached config and nothing else, or nothing |
| Runtime.Daemon.SetServerWireFlag | src/siglatch/app/builtin/change_setting.c:134-201 | the reply and the whole state left, exactly; a refused push leaves the config as before, and the policy in force is the one stored for the running server |
| Reload.FlagRoundTrip | src/siglatch/app/builtin/change_setting.c:185-190 | storing a flag and then its old value restores the heap |
| Reload.FlagKeepsConfig | src/siglatch/app/config/config.c:652-682 | a flag changes no name, no key and no reference count |
| Runtime.Daemon.AssignSessionToUser | src/siglatch/app/inbound/crypto/crypto.c:62-76 | the session borrows only from the attached config |
| ReloadRuns.HandleAll | src/siglatch/app/runtime/runtime.c:212-391 | any sequence of reloads and flag changes with any failing steps keeps the invariants; the states it goes through form a run, and in each of them exactly the attached config is live |
| ReloadRuns.StartAndHandle | src/siglatch/main.c:24-39 | from start-up through any such sequence the session borrows the key of the server in use and nothing else; policy, snapshot and binding are those of that server too, key by key, as long as no codec sync fails and the system binds what is asked for |
| ReloadRuns.StepKeepsSingle | src/siglatch/app/runtime/runtime.c:286-391 | one reload keeps the single live config, and never brings a destroyed object back |
| ReloadRuns.MoveKeepsSingle | src/siglatch/app/builtin/change_setting.c:134-201 | so does a flag change, and only a commit changes which object is attached |
| ReloadRuns.RunKeepsSingle | src/siglatch/app/runtime/runtime.c:286-391 | over any run of reloads and flag changes exactly the attached config is live, and every other object ever loaded has been destroyed |
| ReloadRuns.DestroyedStaysDestroyed | src/siglatch/app/config/config.c:1138-1163 | an object is destroyed at most once and never attached afterwards |
| ReloadRuns.AttachedIsLastCommitted | src/siglatch/app/runtime/runtime.c:286-391 | the attached object is the one loaded by the last committed reload, or the first one |
| ReloadRuns.FailedRunKeepsService | src/siglatch/app/runtime/runtime.c:291-384 | however many reloads fail, the same config and the same server object stay in use while the library lets the old session be set up; flag changes in between change flags only |
| ReloadRuns.CommitEstablishes | src/siglatch/app/runtime/runtime.c:286-391 | after a commit the server of the name asked for is lent; the session borrows that server's private key if it is secure, and no other key; policy and key snapshot are its own, whatever was the case before, and the binding too if the system binds what was asked for |
| ReloadRuns.CommitTakesOver | src/siglatch/app/config/config.c:205-241 | after a commit the server in use has the fields the document gives it, and every user those of the document with the HMAC bytes of its file |
| ReloadRuns.StepSetsSession | src/siglatch/app/runtime/runtime.c:291-342 | past the checks every exit, rollbacks included, leaves a session that borrows the private key of the lent secure server and nothing else; before them session and listener are untouched |
| ReloadRuns.RunKeepsSession | src/siglatch/app/runtime/runtime.c:212-391 | so it is over any run, whatever fails |
| ReloadRuns.StepMovesSocket | src/siglatch/app/udp/udp.c:163-208 | which exits leave socket, port and address alone, and what they are otherwise |
| ReloadRuns.StepKeepsConsistent | src/siglatch/app/runtime/runtime.c:286-384 | every exit but a codec failure keeps policy, snapshot and binding in agreement with config and server |
| ReloadRuns.RunIsConsistent | src/siglatch/app/runtime/runtime.c:212-391 | from a consistent state or any commit on, they agree after every reload and flag change as long as no codec sync fails and the system binds what is asked for, whatever else fails |
| ReloadRuns.FlagKeepsConsistent | src/siglatch/app/builtin/change_setting.c:134-201 | a flag change, pushed or refused, sets the policy right and keeps snapshot and binding as they agreed |
| ReloadRuns.StepKeepsPolicy | src/siglatch/app/runtime/runtime.c:197-207 | the policy disagrees afterwards exactly when the push was refused, the old server is in use again and asks for another policy; what is in force then is the policy of the server offered |
| ReloadRuns.RunKeepsPolicy | src/siglatch/app/runtime/runtime.c:197-207 | over runs without a refused push of a reload the policy in force is always the server's own, failed rebuilds and flag changes included |
| ReloadRuns.CodecFailureLeavesNewKeys | src/siglatch/app/runtime/runtime.c:351-384 | the snapshot a codec failure leaves: the users of the destroyed config up to the one at which it stopped; all of it and its server after a refused push |
| ReloadRuns.RefusedPushKnowsNewUsers | src/shared/knock/codec/v1/v1.c:76-94 | after a refused push the codec finds exactly the user ids of the document that was not taken over |
| ReloadRuns.CodecFailureAgreesExactly | src/siglatch/app/runtime/runtime.c:351-384 | with the old server in use again the snapshot agrees exactly when neither side has a server key or a user in it: keys loaded anew are never the old ones |
| ReloadRuns.CodecFailureKeepsNewBinding | src/siglatch/app/runtime/runtime.c:351-384 | after a codec failure the socket matches the server in use exactly as before it if the new server asked for no other binding, and otherwise exactly if the two servers ask for the same one; given a system that binds what is asked for |
| ReloadRuns.UnindexableNeverCommits | src/siglatch/app/runtime/runtime.c:175-195 | a config whose enabled users have equal or empty names is never committed, whatever succeeds; acceptable and bound, it fails in the rebuild |
| ReloadRuns.CommitsExactly | src/siglatch/app/runtime/runtime.c:212-391 | a reload commits exactly for an acceptable document with usable user names when each call really made after the checks is granted |
| ReloadRuns.RefusedPushLeavesDisagreement | src/siglatch/app/runtime/runtime.c:351-384 | a daemon in service and a document after whose refused push policy, snapshot and binding all disagree with the server in use |
| ReloadRuns.SharedNameFailsToRebuild | src/siglatch/app/runtime/runtime.c:175-195 | a document with two enabled users of one name that passes every check and, everything granted, ends in a failed rebuild |
| NonceCache.NonceCache.constructor | src/stdlib/nonce.c:18-58 | settings out of range get the defaults, and the cache remembers nothing |
| NonceCache.NonceCache.Clear | src/stdlib/nonce.c:70-81 | the cache remembers nothing |
| NonceCache.NonceCache.Check | src/stdlib/nonce.c:83-109 | with times not going backwards, true exactly when one of the last `capacity` additions has this text and is young enough; true is right even otherwise; purging never changes an answer |
| NonceCache.NonceCache.Add | src/stdlib/nonce.c:111-123 | the log grows by this nonce and time |
| NonceCache.TextOfPadded | src/stdlib/nonce.c:119-120 | a stored row reads back as the text cut to fit |
| ReplayGate.PairTextInjective | src/shared/knock/codec/v1/v1.c:343 | different pairs of timestamp and challenge are remembered under different texts |
| ReplayGate.PairTextFits | src/shared/knock/codec/v1/v1.c:343 | that text has 3 to 21 characters, so it is never cut |
| ReplayGate.Ttl | src/shared/knock/codec/v1/v1.c:102-108 | the lifetime is the whole seconds of the window in milliseconds, or sixty for a window under a second or none |
| ReplayGate.SeenIsReplayed | src/shared/knock/codec/v1/v1.c:343-348 | the answer about texts is the answer about pairs |
| ReplayGate.Gate.SyncNonceCache | src/shared/knock/codec/v1/v1.c:110-139 | the memory is kept exactly while the lifetime stays the same |
| ReplayGate.Gate.PacketNonceAccept | src/shared/knock/codec/v1/v1.c:329-350 | accepts exactly a pair not among the last 128 accepted within the lifetime, and remembers it; a refusal remembers nothing |
| ReplayGate.AcceptAll | src/shared/knock/codec/v3/v3.c:198-219 | a run of packets in order of time: a packet is refused exactly when its pair was accepted within its lifetime and at most 128 acceptances ago |
| ReplayGate.RefusedIffRepeated | src/shared/knock/codec/v1/v1.c:329-350 | the same of the answers alone, of any answers given by what was accepted before |
| ReplayGate.NoDoubleAccept | src/shared/knock/codec/v2/v2.c:332-353 | a pair is accepted twice only after its lifetime or after 128 acceptances from the first on |
| Bytes.ReadWritten32 | src/shared/knock/codec/v3/v3.c:102-119 | reading big-endian bytes gives back the value written |
| Bytes.WriteRead32 | src/shared/knock/codec/v3/v3.c:102-119 | writing the value read reproduces the bytes |
| Bytes.BigEndian | src/shared/knock/codec/v3/v3.c:102-119 | the most significant byte is written first |
| Bytes.HostOrder | src/shared/knock/codec/v1/v1.c:189-217 | a host writes these bytes as they are or the other way round |
| WireV1.ImageInverts | src/shared/knock/codec/v1/v1.c:189-217 | unpacking the image of a packet gives the packet, whatever follows it, in either byte order |
| WireV1.ImageOnto | src/shared/knock/codec/v1/v1.c:189-217 | every 245-byte buffer is the image of the packet read from it |
| WireV1.Layout | src/shared/knock/codec/v1/v1.c:189-217 | which bytes of the image are which field |
| WireV1.RefusesExactly | src/shared/knock/codec/v1/v1.c:219-262 | which buffers are accepted, and the code for every other, from the bytes |
| WireV1.DeliversIffTimely | src/shared/knock/codec/v1/v1.c:264-327 | an encoded message is normalised to the same message exactly while its timestamp is within 300 seconds |
| WireV2.Pack | src/shared/knock/codec/v2/v2.c:355-390 | writes the layout and zero padding, or leaves the buffer alone; nothing behind the packet changes |
| WireV2.UnpackInvertsPack | src/shared/knock/codec/v2/v2.c:185-214 | a packed packet comes back with its unused payload bytes zero |
| WireV2.PackInvertsUnpackIff | src/shared/knock/codec/v2/v2.c:355-390 | a buffer is reproduced exactly when it is zero behind its payload |
| WireV2.FrontFields | src/shared/knock/codec/v2/v2.c:355-390 | which bytes of the packet are which field |
| WireV2.RefusesExactly | src/shared/knock/codec/v2/v2.c:216-267 | which buffers are accepted, and the code for every other, from the bytes |
| WireV2.DeliversIffTimely | src/shared/knock/codec/v2/v2.c:269-330 | an encoded message is normalised to the same message exactly while it is timely |
| WireV3.Pack | src/shared/knock/codec/v3/v3.c:623-670 | writes header, key, ciphertext and tag, or leaves the buffer alone, with the code of the reason |
| WireV3.BuildAad | src/shared/knock/codec/v3/v3.c:430-444 | the authenticated data is the packet's 27-byte header |
| WireV3.UnpackInvertsPack | src/shared/knock/codec/v3/v3.c:446-498 | every packable packet comes back on its used prefixes |
| WireV3.PackInvertsUnpack | src/shared/knock/codec/v3/v3.c:623-670 | every accepted buffer is reproduced byte for byte |
| WireV3.PackedLengthBound | src/shared/knock/codec/v3/v3_form1.h:16-29 | a packed length lies between 91 and 858 |
| WireV3.DeserializesExactly | src/shared/knock/codec/v3/v3.c:529-548 | the buffers accepted are exactly the packed forms of valid packets |
| WireV3.Layout | src/shared/knock/codec/v3/v3.c:623-670 | which bytes of the packet are which field |
| WireV3.RefusesExactly | src/shared/knock/codec/v3/v3.c:446-548 | which buffers are accepted, and the code for every other, from the bytes |
| WireV3.PlainLayout | src/shared/knock/codec/v3/v3.c:340-376 | which bytes of the sealed body are which field |
| WireV3.PackPlaintext | src/shared/knock/codec/v3/v3.c:340-376 | packs exactly units of this version that fit, and writes nothing otherwise |
| WireV3.PlaintextRoundTrip | src/shared/knock/codec/v3/v3.c:378-428 | unpacking a packed body gives message and signature back |
| Transport.Send | src/shared/knock/codec/v1/v1.c:690-716 | writes the packet or its encryption when key and buffer are large enough; in the clear a refusal writes nothing |
| Transport.SignatureExactly | src/shared/knock/codec/v1/v1.c:646-679 | a signature is the keyed hash, under the first 32 key bytes, of the digest of what is signed, and there is none without them |
| Transport.SignatureBinds | src/shared/knock/codec/v1/v1.c:739-758 | without collisions one signature is a signature of one content |
| Transport.SentExactly | src/shared/knock/codec/v1/v1.c:690-716 | what is sent, and when: in the clear what fits, else what fits one padded block |
| Transport.OpenedExactly | src/shared/knock/codec/v1/v1.c:539-576 | what is opened, and when: a secure server takes nothing in the clear |
| Transport.SentIsOpened | src/shared/knock/codec/v1/v1.c:539-576 | what is sent opens to the packed bytes at a matching receiver |
| V1Codec.Encode | src/shared/knock/codec/v1/v1.c:607-717 | success exactly when signature, key and capacity allow it, and then the bytes in the buffer, nothing behind them changed |
| V1Codec.ContentIsMessage | src/shared/knock/codec/v1/v1.c:739-748 | two messages are signed alike exactly when timestamp, user, action, challenge and payload are equal |
| V1Codec.EncodesExactly | src/shared/knock/codec/v1/v1.c:607-717 | when something is sent and with which signature: where one is asked for, the keyed hash of the digest of these five fields, else the one given |
| V1Codec.TamperedIsRefused | src/shared/knock/codec/v1/v1.c:739-758 | without collisions two authorised messages of one user under one signature are the same in every field, payload included |
| V1Codec.Authorize | src/shared/knock/codec/v1/v1.c:719-759 | true exactly when the first keychain entry of the user has a key of 32 bytes and the signature is its keyed hash of the digest of timestamp, user, action, challenge and payload |
| V1Codec.WireAuth | src/shared/knock/codec/v1/v1.c:586-605 | authentic means authorised and new; an unauthorised unit does not touch the replay memory |
| V1Codec.WireAuthAll | src/shared/knock/codec/v1/v1.c:586-605 | over any run in time order each message is let through exactly when authorised and not among the recent ones |
| V1Codec.SecondIsRefused | src/shared/knock/codec/v1/v1.c:329-350 | once a message is let through, every message with its timestamp and challenge is refused within its lifetime and at most 128 acceptances, its own included |
| V1Codec.Delivery | src/shared/knock/codec/v1/v1.c:508-584 | an encoded message decodes, every field told, exactly while timely, with the signature made for it where one is asked for and the one given otherwise |
| V1Codec.SignedDelivery | src/shared/knock/codec/v1/v1.c:508-584 | a message signed by an enabled user decodes, every field told, exactly while timely, and the keychain built from the config authorises it |
| V2Codec.Encode | src/shared/knock/codec/v2/v2.c:867-961 | success exactly when signature, key and capacity allow it, and then the bytes in the buffer |
| V2Codec.EncodesExactly | src/shared/knock/codec/v2/v2.c:867-961 | when something is sent and with which signature: the one asked for over the unit itself, else the one given |
| V2Codec.SignatureIsOfOne | src/shared/knock/codec/v2/v2.c:867-930 | without collisions one signature signs one unit |
| V2Codec.Delivery | src/shared/knock/codec/v2/v2.c:687-762 | an encoded message decodes, every field told, exactly while timely, with the signature made for it where one is asked for and the one given otherwise |
| V3Codec.Encode | src/shared/knock/codec/v3/v3.c:1092-1205 | success depends only on the steps before packing, and a unit that asks for a signature none can be made for never succeeds; the packet is in the buffer exactly when it fits |
| V3Codec.EncodesExactly | src/shared/knock/codec/v3/v3.c:1092-1190 | when there is a packet, and what is in it: the wrapped key, and, sealed under it with the first 27 bytes, the unit with the signature made by the sender where one is asked for and its own otherwise |
| V3Codec.SignatureIsOfOne | src/shared/knock/codec/v3/v3.c:1127-1142 | without collisions one signature signs one unit |
| V3Codec.ReportsWhatItDidNotWrite | src/shared/knock/codec/v3/v3.c:1092-1205 | a unit and a buffer one byte short for it: success and the length are reported, and the buffer is as before |
| V3Codec.Decode | src/shared/knock/codec/v3/v3.c:1023-1074 | the three outcomes and what each leaves in the caller's unit |
| V3Codec.DecodesExactly | src/shared/knock/codec/v3/v3.c:1023-1074 | which of the three outcomes, and every field delivered, told from the bytes of the packet and of the body it opens to |
| V3Codec.EndToEnd | src/shared/knock/codec/v3/v3.c:550-621 | decoding an encoded unit returns 1 with every field told: the signature is the sender's over the unit where one is asked for and the unit's own otherwise; both ends authenticate the first 27 bytes of the packet |
| V3Codec.AcceptedWasSealed | src/shared/knock/codec/v3/v3.c:550-621 | with sealing that cannot be imitated, an accepted buffer is the sealed form of the message it delivers |
| V3Codec.AdapterAcceptsExactly | src/shared/knock/codec/v3/v3.c:831-855 | the adapter hands on decoded units of up to 199 bytes, and an all-zero unit exactly for malformed buffers |
| V3Codec.AdapterEncode | src/shared/knock/codec/v3/v3.c:857-879 | the adapter's buffer always holds the packet |
| V3Codec.EncodedLength | src/shared/knock/codec/v3/v3.c:1199-1203 | the length reported is 90 plus wrapped key plus payload |
| Detect.RecogniseV1 | src/shared/knock/detect.c:30-77 | the router's own test accepts exactly what the first codec deserializes |
| Detect.Detect | src/shared/knock/detect.c:86-200 | the route given is the one the codecs' own acceptance determines, and nothing is filled in on failure |
| Detect.RoutesExactly | src/shared/knock/detect.c:86-200 | the route of every buffer, told from its bytes, length and clock |
| Detect.AgreesWithCodecs | src/shared/knock/codec/v2/v2.c:216-267 | routed V3 exactly when the third codec accepts; what the second accepts is routed V2; 245 bytes are routed V1 exactly when the first accepts |
| Detect.AtMostOneCodec | src/shared/knock/codec/v1/v1.c:219-262 | no buffer is accepted by two codecs |
| Detect.PackedIsRouted | src/shared/knock/detect.c:86-200 | a packed valid packet is routed to its own codec |
| JobQueue.NextBufferCap | src/siglatch/app/daemon/job.c:70-90 | terminates without wrapping with the least doubling that suffices, or zero when that exceeds a size_t |
| JobQueue.LeastDoublingIsLeast | src/siglatch/app/daemon/job.c:81-87 | no other doubling that suffices is smaller |
| JobQueue.Queue.ReserveBuffer | src/siglatch/app/daemon/job.c:92-124 | enough room with the old bytes kept and the old block freed, or nothing changed |
| JobQueue.Queue.ReserveResponse | src/siglatch/app/daemon/job.c:154-163 | room for a reply leaves message, reply bytes and every other job alone |
| JobQueue.Queue.LoadFromNormal | src/siglatch/app/daemon/job.c:165-227 | the job shows the packet field by field from buffers of its own: user request and payload, or no request and the raw bytes for wire version zero; a refusal leaves no buffer behind |
| JobQueue.Queue.Enqueue | src/siglatch/app/daemon/job.c:260-283 | appends what the packet says, field by field, exactly when there is a free slot, content and memory; handed-out jobs are untouched |
| JobQueue.LoadableExactly | src/siglatch/app/daemon/job.c:165-227 | a packet can be loaded exactly when it has raw bytes or decoded user data to show and what it shows needs no memory or gets it; content is missing exactly for a nonzero wire version without user data |
| JobQueue.Queue.Drain | src/siglatch/app/daemon/job.c:285-308 | hands out the oldest message; what was drained and what is queued is always what was accepted, in order |
| JobQueue.Queue.Dispose | src/siglatch/app/daemon/job.c:320-329 | afterwards the variable owns nothing; queue and other jobs are untouched |
| JobQueue.Queue.Reset | src/siglatch/app/daemon/job.c:238-250 | afterwards only callers own memory, and their jobs are untouched |
| JobRuns.Perform | src/siglatch/app/daemon/job.c:154-163 | one call on the queue does to jobs and buffers what it is to do to messages; all other callers' jobs stay as they are |
| JobRuns.PerformAll | src/siglatch/app/daemon/job.c:238-329 | any calls in any order with any failing allocation: queue and callers show what the calls come to without buffers, and messages leave in the order accepted |
| JobRuns.PassThrough | src/siglatch/app/daemon/job.c:260-308 | a packet through an empty queue comes out showing its own request, payload and metadata |
| JobRuns.AcceptedShow | src/siglatch/app/daemon/job.c:165-227 | over any calls the messages accepted show, one by one and field by field, the packets that were taken in |
| JobRuns.EveryMessageStems | src/siglatch/app/daemon/job.c:260-308 | every message queued or in a variable is that of a packet taken in |
| JobRuns.QueuedAreLast | src/siglatch/app/daemon/job.c:260-308 | what is queued is always the last of what was accepted, in order |
| JobRuns.NothingLeaks | src/siglatch/app/daemon/job.c:320-329 | every live block belongs to one queued job or one caller's job; with none of either nothing is allocated |
| Argv.FindSpecExact | src/stdlib/argv.c:39-54 | finds the first entry of this name, or none |
| Argv.EqualsStep | src/stdlib/argv.c:177-234 | read as an option, "--k=v" stores what "--k" "v" stores in one turn, or fails with the same error |
| Argv.EnforceRequired | src/stdlib/argv.c:236-257 | fails at the first required option that is missing |
| Argv.Parse | src/stdlib/argv.c:276-388 | the loop over the arguments computes the recursive reading of them, which the rows below tell argument by argument |
| Argv.UnknownArgument | src/stdlib/argv.c:366-374 | an argument with a dash that no entry has, behind arguments that pass: a strict parse fails with UnknownOption at its index and what was found before, another takes it as the next operand while there is room; "--k=v" alike |
| Argv.LongKeyIsUnknown | src/stdlib/argv.c:190-203 | so is "--k=v" with a name of 256 characters or more, even of an entry, unless an entry has the whole argument for its name |
| Argv.OperandArgument | src/stdlib/argv.c:366-380 | an argument without a dash is the next operand while there is room for eight |
| Argv.NamedArgument | src/stdlib/argv.c:318-363 | an option's name takes exactly the values behind it, as the next option or in place of the one before, or fails with the error of the first check it does not pass |
| Argv.EqualsArgument | src/stdlib/argv.c:177-234 | "--k=v" of an entry with one value stores that value, and fails for any other entry |
| Argv.DashDashArgument | src/stdlib/argv.c:310-380 | behind "--" everything is an operand, whatever it looks like |
| Argv.RequiredArguments | src/stdlib/argv.c:236-257 | the parse succeeds exactly when no required option is missing, and otherwise fails at the first in the table |
| Argv.EqualsForm | src/stdlib/argv.c:177-234 | "--k=v" and "--k" "v" give the same result apart from source indices wherever the argument is read as an option |
| Argv.EqualsAfterDashDash | src/stdlib/argv.c:276-388 | behind "--" they differ exactly while there is room for one more operand |
| Argv.EqualsSwallowed | src/stdlib/argv.c:318-363 | behind an option that still lacks values they differ exactly when that option can be stored, or only the extra argument completes its values; if the option is replaced by a repeat behind, only one way |
| Argv.PositionFromRun | src/stdlib/argv.c:302-376 | arguments that run out of values are always some that are used up, an option's name, and fewer values than it takes |
| Argv.EqualsAnywhere | src/stdlib/argv.c:276-388 | among any arguments before and behind, the two spellings give the same result exactly where the position is indifferent; with a repeat that replaces, indifference suffices |
| Argv.RespelledCanAgree | src/stdlib/argv.c:129-143 | a repeat behind that wipes the difference out |
| Argv.SwallowedEqualsDiffers | src/stdlib/argv.c:344-363 | a table and arguments where they differ |
| Argv.RunIgnoresIndices | src/stdlib/argv.c:276-388 | source indices influence nothing else |
| Argv.RunKeeps | src/stdlib/argv.c:89-175 | parsing keeps the options within the limits, as the table describes them, without forbidden repeats |
| Argv.BufferHoldsExactly | src/stdlib/argv.c:329-353 | no turn copies more values than the fixed buffer holds exactly when no reachable entry of the table takes more than ten |
| Argv.NormalForm | src/stdlib/argv.c:276-388 | a successful parse written out in normal form parses again, strict or not, to the same options and operands exactly when no stored option is named "--" |
| Argv.DashDashNeverStored | src/stdlib/argv.c:177-234 | without an entry "--" that takes exactly one value no run stores an option of that name |
| Argv.NormalFormOfTable | src/stdlib/argv.c:276-388 | so for such a table the normal form of every successful parse parses back |
| Argv.DashDashNameFails | src/stdlib/argv.c:310-314 | a table and arguments with "--" stored, where it does not |
| Base64.Encode | src/stdlib/base64.c:10-54 | writes the encoding of section 4 of RFC 4648 and a terminator exactly when they are within the bound, and otherwise the letters in front of it; for results within an int the return is nonnegative exactly when output_len is zero or at least 4*ceil(n/3)+1 |
| Base64.DecodingInverts | src/stdlib/base64.c:8-52 | a decoder inverts the encoding |
| Base64.EncodingLength | src/siglatch/app/daemon/payload.c:59-64 | the encoding has four letters for every three bytes begun |
| Base64.Alphabet | src/stdlib/base64.c:8 | the 64 letters in order |
| Base64.GroupsInOrder | src/stdlib/base64.c:26-44 | the four letters for each three bytes, by their bits, with the padding of the last group |
| Base64.BoundHoldsExactly | src/stdlib/base64.c:26-52 | what the encoder writes stays inside a buffer of at least output_len cells for every input exactly when output_len is at least one; for zero the bound wraps around and the buffer must hold the whole text |
| Base64.Base64Size | src/siglatch/app/daemon/payload.c:48-66 | text and terminator, or failure exactly when that exceeds a size_t |
| Base64.EncodeSized | src/siglatch/app/daemon/payload.c:48-66 | a buffer of the computed size always suffices, and the text decodes to the input |
| Decimals.DecimalInverts | src/knock/app/alias/alias.c:149 | a number printed in decimal reads back as itself |
| Decimals.ValueOfConcat | src/knock/app/alias/alias.c:62 | what a string of digits is worth, place by place |
| Decimals.ValueOfDigit | src/knock/app/alias/alias.c:62 | a digit is worth its distance from zero |
| Decimals.NoZeroInFront | src/knock/app/alias/alias.c:149 | a number is printed without leading zeros |
| AliasMap.ReadMap | src/knock/app/alias/alias.c:32-95 | with everything granted, the list read from the file, line by line |
| AliasMap.ParseIdExactly | src/knock/app/alias/alias.c:61-67 | spaces, at most one sign and digits are an id exactly for a value from 1 to 2^32-1; behind a minus sign the value taken is what 2^64 leaves |
| AliasMap.ParsedIsNumeral | src/knock/app/alias/alias.c:61-67 | no other text is an id: spaces, at most one sign, and digits to the end |
| AliasMap.ChunkExactly | src/knock/app/alias/alias.c:49 | a line read ends at the first line break, at the size of the buffer or with the file |
| AliasMap.ReadWellFormed | src/knock/app/alias/alias.c:49-88 | whatever the file holds, the entries read have names and hosts that fit and ids above zero |
| AliasMap.ReadInvertsWrite | src/knock/app/alias/alias.c:135-155 | reading a written list gives the list back |
| AliasMap.UpdateEntry | src/knock/app/alias/alias.c:97-133 | changes the first entry of the name or adds one; fails only when it must grow and cannot |
| AliasMap.UpdatedExactly | src/knock/app/alias/alias.c:97-133 | the entry that is replaced or added, with name and host cut to their fields |
| AliasMap.UpdatedResolves | src/knock/app/alias/alias.c:192-225 | the name set resolves to its id, every other name as before |
| AliasMap.LongNameResolves | src/knock/app/alias/alias.c:121-126 | a name too long resolves to nothing; its front resolves to the id if it resolved to nothing before |
| AliasMap.UnfittingResolves | src/knock/app/alias/alias.c:192-225 | a name that is too long, empty or holds a delimiter resolves to nothing, whatever the file holds |
| AliasMap.Compact | src/knock/app/alias/ops.c:202-208 | the in-place loop keeps exactly the other names, in order |
| AliasMap.RemovedResolves | src/knock/app/alias/alias.c:157-190 | the name removed resolves to nothing, every other name as before |
| AliasMap.AliasFile.Set | src/knock/app/alias/ops.c:52-93 | through the file and back: the name resolves to the id exactly when it is one an entry can have, all other names as before but for the front of a name too long; a failure changes nothing |
| AliasMap.LineBreakSetsAnother | src/knock/app/alias/alias.c:147-150 | set under a name with a line break, the id goes to the part behind it |
| AliasMap.AliasFile.Delete | src/knock/app/alias/ops.c:175-226 | through the file and back: exactly this name is gone; with everything granted it succeeds exactly when the name is there, and a failure changes nothing |
| AliasMap.AliasFile.Resolve | src/knock/app/alias/alias.c:192-237 | the first entry of the name whose id is in range, or zero |
| AliasMap.ResolvedExactly | src/knock/app/alias/alias.c:192-225 | the id of the first entry of the name in range, zero exactly without one |
| Sanitizer.AppendBytes | src/stdlib/print.c:110-123 | appends what fits in front of the terminator and touches nothing behind it |
| Sanitizer.MatchReplacement | src/stdlib/print.c:125-139 | the first symbol of the table that the rest starts with |
| Sanitizer.Sanitize | src/stdlib/print.c:154-219 | in ASCII mode the longest front of the sanitized string that fits, terminated; otherwise the string cut and padded |
| Sanitizer.SanitizedIsClean | src/stdlib/print.c:175-216 | only tabs, line ends and printable ASCII come out, whatever goes in |
| Sanitizer.FixedIffClean | src/stdlib/print.c:202-207 | exactly the clean strings are left alone |
| Sanitizer.SecondPassChangesNothing | src/stdlib/print.c:154-219 | sanitizing again with the same size is the identity |
| Sanitizer.AsciiSymbolIsReplacedAgain | src/stdlib/print.c:191-200 | with a symbol inside ASCII it is not |
| Sanitizer.LongestMatch | src/stdlib/print.c:125-139 | in an ordered table the longest symbol at a place is the one replaced |
| Sanitizer.ShowsItemByItem | src/stdlib/print.c:175-216 | the byte scan shows characters, symbols and terminal escapes item by item: one question mark for a character it cannot show, nothing for an escape |
| Symbols.TableIsRegular | src/stdlib/unicode.c:39-86 | the table of the program has clean spellings and symbols outside ASCII |
| Symbols.TableIsOrdered | src/stdlib/unicode.c:39-86 | no symbol of it is hidden behind an earlier one |
| Symbols.SymbolStands | src/stdlib/unicode.c:39-86 | every symbol of it is spelled out wherever it stands, the bare form unless the selector follows |
| Symbols.OtherIsQuestion | src/stdlib/print.c:209-215 | any other code point of three or four bytes becomes one question mark |
| Symbols.GrowthBound | src/stdlib/print.c:221-242 | sanitizing makes a string at most seven thirds as long |
| Symbols.ShortLinesAreWhole | src/stdlib/print.c:12-13 | a formatted line of up to 1755 bytes is never cut |
| Symbols.LongerLinesCanBeCut | src/stdlib/print.c:12-13 | a line of 1756 bytes can lose its end |

## Left out

- The multiplexer, the fourth codec's contents, the IP range matcher and the transport behind the queue: only the router's test of the fourth format's outer layout, and a policy push that may fail, are modelled.
- Null pointers as arguments: every function checks them first and returns; the model has no null strings, buffers or tables.
- The crypto library: key wrapping, sealing, digests and signatures are functions; that opening inverts sealing and decryption inverts encryption are hypotheses.
- The session's two context objects (`public_key_ctx`, `private_key_ctx`), which the session owns and frees itself.
- Logging, help text, option dumps and library wiring; the printing of aliases and the deletion of whole map files.
- Config.BuildFromPath: the document arrives parsed into users and servers; action handlers and address lists are two verdicts, log files, dead drops and server labels are not modelled.
- Runtime.Daemon.SyncCodecContext: the multiplexer is one policy and one verdict; the policy is taken over even when the verdict is a refusal, as its source does.
- V1Codec.Encode: what the crypto library leaves in the buffer when it refuses to encrypt is not said.
- WireV1.ImageInverts: packing and unpacking the first format copies a packed structure; it is modelled on values, with the byte order of the host as a parameter.
- V2Codec.Delivery: the second and third codecs' wire authentication is the replay gate alone, which is modelled once, with the first codec's lines.
- Argv.EqualsSwallowed: for an option spelled again behind, where the repeat replaces it, only the sufficient half is stated; `Argv.RespelledCanAgree` shows that the other half fails.
- Argv.EqualsForm: one of the positions that `Argv.EqualsAnywhere` joins.
- Argv.Turn: for an option of more than ten values the program copies past its buffer before it refuses; the model refuses. `Argv.BufferHoldsExactly` tells the tables for which that does not happen.
- Base64.Encode: asks that what is written lies inside the buffer, which C leaves to the caller; `Base64.BoundHoldsExactly` tells when that is so.
- Runtime.Daemon.StartUp: registering codec modules, the nonce cache and connecting the multiplexer are left out; each ends the program when it fails.
- AliasMap.AliasFile.Set: the operations on users and on actions differ in the largest id only, so one class serves both; for a host that holds a delimiter only the text written is told; a write that stops half way is not modelled, as its source does not check for it.
- JobQueue.Queue.Drain: freeing and moving memory is modelled in an explicit heap of blocks with owners, not with C pointers.

# Verified models of uMesh, Ed25519 and the bootloader

A Dafny model of the parts of the plumCore repository whose correctness spans many steps: the 3DH key
exchange of uMesh, its layer 2 frames, its key manager and neighbor table, the Ed25519 arithmetic of
the signing tools, the ELF reader with the signature check and the boot state machine, and the firmware
image creator. `dafny verify dfyconfig.toml` checks everything.

The code that updates structures in place is modelled by classes and methods over arrays and fields;
each method is proved equal to a function of the old state, and the theorems are about all runs of
those functions. The scripts that are expressions are functions.

| file | contents |
|---|---|
| `Bytes` | fixed-width integers, byte order, exclusive or |
| `Ake3dh`, `AkeRuns`, `AkeKeys`, `AkeProgress`, `AkeSchedule`, `AkeExample` | one key exchange session; two of them over a network that loses, repeats and reorders messages; the keys that they end with, from the primitives alone; progress and back-off; the runs that the default role breaks; primitives without collisions that show it |
| `AkeLiveness`, `AkeStopping`, `AkeBriefRounds` | that both sides finish once nothing is lost any more; sessions that are stopped as soon as they have their result, exactly when the other side still finishes, and how many steps a round that allows |
| `Tid`, `L2Crypto`, `Frame`, `Layer2`, `SendRuns` | node identifiers, the stream cipher, the frame format, sending and receiving; frames byte by byte, and the nonces of any sequence of sends |
| `KeyManager`, `KeyManagerRuns`, `KeyManagerLives` | the key manager's table and the pool of key exchanges it owns; all interleavings of iterations, messages and results; the life of a session by age |
| `NeighborTable`, `NeighborRuns`, `NeighborStays`, `NbDiscovery` | the neighbor table, the map it refines, when a neighbor goes to the key manager, adverts from end to end |
| `ModArith`, `QuadraticResidues`, `FieldInverse` | congruences, Fermat's theorem, square roots modulo a prime; the inverse by addition chain |
| `Edwards`, `CrossProducts`, `GroupLaw` | point addition in affine and extended coordinates; the points of the curve are an abelian group |
| `ScalarMult`, `TableCoordinates`, `Ed25519`, `BasePointOrder` | scalar multiplication and its table; the coordinates in the table; the curve itself; the order of its base point, by a certificate |
| `IntegerCodec`, `PointCodec`, `SignatureCheck`, `Signatures`, `SignatureBytes`, `SimpleSignatures`, `Ed25519Scripts` | integers and points as bytes; signing and checking in the fast script, and what its bytes are; the same in the simple script, and that the two agree |
| `TinyElf`, `ElfImages`, `Chainloader`, `ImageScan`, `Bootloader`, `BootImage` | reading ELF files, what is recovered from a well-formed one, what the signature covers, which scans for an image end, what is ever started, from the bytes of memory |
| `SignedContent`, `ExampleImage` | what a signature binds, and that signed images exist |
| `FirmwareImage`, `FirmwareBytes` | nested sections, their padding and their listing; the bytes of an image |

## What is assumed, and what is not

Curve25519, SHA-256, CRC16, ChaCha20, Poly1305, BLAKE2s, SHA-512 and signature verification are
function-valued parameters. The only law assumed of them is the commutation of Diffie-Hellman.

For Ed25519 the theorems have one hypothesis: that q = 2^255 - 19 is prime (and one of them,
`SignatureBytes.SameFirstHalfExactly`, that l is). Everything else is proved:
Fermat's theorem, that -1 is a square and d is not (`Ed25519.GoodIfPrime`), that the denominators of the
addition law never vanish on the curve (`Edwards.Completeness`), that the points of the curve are an abelian
group (`GroupLaw.AdditionAssociates`, `GroupLaw.NegatedAdds`), and that l times the base point is the identity
(`BasePointOrder.OrderOfBase`). What is asked of a curve is satisfiable for a small modulus without any
hypothesis (`Edwards.GoodCurveExists`).

## What the code does that it was not meant to

* A session starts as Alice although the role type has a value for no role. An IPK response handled
  before the EPK response then makes a side that turns out to be Bob compute SH3 as Alice would, and
  its keys do not fit (`AkeSchedule.DefaultRoleBreaksRun`; `AkeRuns.KeyAgreement` is the exact condition).
* A session is stopped as soon as it has its result and no longer answers. So the other side can be left
  without its keys for good although nothing is lost (`AkeBriefRounds.FiveStepsStrand`;
  `AkeStopping.OtherFinishesExactly` is the exact condition, and `AkeBriefRounds.BothFinishInTime` says how
  quickly messages have to arrive for both to finish).
* The two halves of a protocol number above 3 trade places between builder and parser
  (`Frame.ProtoSurvives`; `Layer2.ProtocolFour` is a packet that changes). No such number is in use.
* A five-byte TID above 32 bits is accepted, although a test expects it to fail (`Tid.TooLongAccepted`).
* Decryption refuses nonce 0, but the packet is still delivered, with zeros for its payload
  (`Layer2.DeliveredIntact`; `Layer2.CounterZero` is such a packet).
* The send callback of the key manager can find a session that gave its key exchange back, and send to
  the wrong peer (`KeyManagerRuns.StaleHolderReachable`; `KeyManagerRuns.SentToOwnersPeer` is the exact
  condition).
* The comment that entry i of the table of powers equals the scalar multiple by 2^i holds of the points.
  The coordinates differ by a factor that is known for every i (`TableCoordinates.EntryFactor`), so they
  agree exactly where that factor is 1 (`TableCoordinates.EntriesAgreeIff`), and in the table of Ed25519
  none does (`TableCoordinates.NoEntryAgrees`).
* The two Ed25519 scripts hash different bytes when the first half of a signature is not the canonical
  encoding of its point: the simple one encodes the coordinates as they were decoded, the fast one reduces
  them. Their verdicts agree on all hash functions, messages and keys exactly for canonical ones
  (`SimpleSignatures.ChecksAgreeExactly`); y = 1 with the sign bit is not canonical, and there they differ
  (`Ed25519Scripts.Ed25519ScriptsDiffer`).
* The scan for an image wraps around in 32 bits. It ends on every memory exactly when the size and the lowest
  one bit of the step have a sum of at most 2^32; with step zero, when the size is zero
  (`ImageScan.EndsOnEveryMemory`). Otherwise it never ends where no offset has an ELF header
  (`ImageScan.EndlessExactly`), as in blank memory (`ImageScan.BlankScan`). With the default size and step it
  ends (`ImageScan.DefaultEnds`).
* The signature section is replaced by 64 zeros whatever its size, and the image is taken to end with
  its section table (`Chainloader.Coverage`, `Chainloader.CoverageOfFile`).

## Model

| member | source | states |
|---|---|---|
| `Ake3dh.Session.constructor` | `protocols/umesh/ake_3dh.c:405-422` | a started session is clear but for its identity keys and, for a remote one, its ID, and is Alice |
| `Ake3dh.Session.SessionStep` | `protocols/umesh/ake_3dh.c:221-307` | one step from any state: exactly one of the generation steps, or all due requests and pending responses followed by at most one computation |
| `Ake3dh.Session.SendRequests` | `protocols/umesh/ake_3dh.c:558-626` | a request goes out only while the key is missing and its interval has passed, and then the interval doubles from 200 up to 2000 ms |
| `Ake3dh.Session.SendPending` | `protocols/umesh/ake_3dh.c:629-676` | after the requests, each pending response is sent and its flag cleared |
| `Ake3dh.Session.DetermineRole` | `protocols/umesh/ake_3dh.c:113-126` | the side with the smaller ephemeral public key, or an equal one, is Alice |
| `Ake3dh.Session.ComputeNextShared` | `protocols/umesh/ake_3dh.c:129-175` | the first secret that is missing and computable for the current role, and nothing else |
| `Ake3dh.Session.ComputeNext` | `protocols/umesh/ake_3dh.c:250-306` | the computation part of a step: a secret, else the master key, else TX and RX keys and the result, which is set once |
| `Ake3dh.Session.DeriveTxRx` | `protocols/umesh/ake_3dh.c:193-218` | Alice sends with the first key and receives with the second, Bob the other way round |
| `Ake3dh.Session.AdvanceBy` | `protocols/umesh/ake_3dh.c:72-81` | both request timers advance, in 32 bits |
| `Ake3dh.Session.Receive` | `protocols/umesh/ake_3dh.c:487-534` | what each message sets, and that a key of the wrong length or an unknown message changes nothing |
| `Bytes.MemcmpAntisymmetric` | `protocols/umesh/ake_3dh.c:116-125` | comparing the keys from the other side negates the result, which is zero for equal keys only: why at most one side is Bob |
| `AkeRuns.NextKeepsInvariant` | `protocols/umesh/ake_3dh.c:221-307` | every step and every delivery keeps what relates the two sides: messages on the way are genuine, secrets match roles, keys match secrets |
| `AkeRuns.RunKeepsInvariant` | `protocols/umesh/ake_3dh.c:310-324` | the invariant holds in every reachable state, for every interleaving, loss, repetition and reordering |
| `AkeRuns.OrderedAgreement` | `protocols/umesh/ake_3dh.c:138-218` | for an Alice and a Bob that both finished, the keys fit if and only if Bob had no SH3 when he became Bob, or SHA-256 collides |
| `AkeRuns.KeyAgreement` | `protocols/umesh/ake_3dh.c:113-307` | in every run that finishes on both sides with different ephemeral keys exactly one side is Alice, and the master keys are equal and each TX key is the other's RX key exactly under that condition |
| `AkeRuns.RoleBeforeSecrets` | `protocols/umesh/ake_3dh.h:86-93` | starting with no role, every run that finishes on both sides with different ephemeral keys agrees, with no condition on the order |
| `AkeRuns.EqualEphemeralKeys` | `protocols/umesh/ake_3dh.c:116-120` | with equal ephemeral keys both sides are Alice, and their keys fit exactly when their master keys are equal and SHA-256 takes the TX and the RX input to one key |
| `AkeKeys.MemcmpIsLexicographic` | `protocols/umesh/ake_3dh.c:116-125` | the comparison is negative exactly if the first byte in which the keys differ is smaller |
| `AkeKeys.KeysOfRun` | `protocols/umesh/ake_3dh.c:113-218` | in every run, a side with keys is Bob exactly if its peer's ephemeral key is smaller; its master key hashes SH1, SH2 and SH3 in that order, each the product of the two keys the protocol names, and TX and RX hash it with "first" and "second", in terms of curve and hash function alone |
| `AkeKeys.CommonMaster` | `protocols/umesh/ake_3dh.c:129-218` | so in every run that finishes on both sides in the right order both have the hash of Alice's and Bob's three products, and each other's keys |
| `AkeKeys.RefusedExactly` | `protocols/umesh/ake_3dh.c:487-534` | which messages are refused, that these change nothing, and what a key changes |
| `AkeSchedule.DefaultRoleBreaksRun` | `protocols/umesh/ake_3dh.c:421-422` | for all identity keys, all pairs of different ephemeral keys and either side or both starting, there is a run that delivers everything it sends, in which both sides finish, the SH3 of the one that is Bob equals its SH2 and the keys do not fit unless SHA-256 collides |
| `AkeExample.DefaultRoleDisagrees` | `protocols/umesh/ake_3dh.c:421-422` | for primitives that satisfy the law of the curve there is such a run whose keys do not fit |
| `AkeExample.EqualKeysDisagree` | `protocols/umesh/ake_3dh.c:116-120` | for the same primitives no run with equal ephemeral keys ends with keys that fit |
| `AkeProgress.StepProgress` | `protocols/umesh/ake_3dh.c:221-307` | with both peer keys there, every own step sets exactly one more of the things that are missing, the result last |
| `AkeProgress.TickMakesProgress` | `protocols/umesh/ake_3dh.c:310-324` | the same within the whole system, whatever the other side does |
| `AkeProgress.ReachesResult` | `protocols/umesh/ake_3dh.c:221-307` | a side with both peer keys has result OK after as many of its own steps as it misses things, five once its ephemeral key is there, whatever happens in between |
| `AkeProgress.OneRequestAStep` | `protocols/umesh/ake_3dh.c:236-243` | a step sends one request of a kind when its timer is due and the key missing, and none otherwise |
| `AkeProgress.BackOff` | `protocols/umesh/ake_3dh.c:558-626` | T ms after the first request of a kind at most 4 + T / 2000 of them have been sent; while unanswered, exactly those at 0, 200, 600, 1400, 3000, 5000, ... ms |
| `AkeLiveness.AskedAnswers` | `protocols/umesh/ake_3dh.c:629-676` | a side that was asked for a key and takes a step has answered, and where nothing is lost the answer has arrived |
| `AkeLiveness.WaitsOrAsks` | `protocols/umesh/ake_3dh.c:558-626` | over a run that loses nothing a side gets a key, has asked for it, or is as many steps closer to asking as it took |
| `AkeLiveness.RoundLowersStage` | `protocols/umesh/ake_3dh.c:236-248` | every round in which both sides step and nothing is lost brings a side closer to each key of its peer |
| `AkeLiveness.BothFinish` | `protocols/umesh/ake_3dh.c:221-324` | as long as no session is stopped: from every reachable state, whatever was lost before, both sides have their keys and result OK after 30 such rounds, whatever else happens in them |
| `AkeLiveness.BothAgree` | `protocols/umesh/ake_3dh.h:86-93` | starting with no role, these keys fit if the ephemeral keys differ, as long as no session is stopped |
| `AkeLiveness.RoundExists` | `protocols/umesh/ake_3dh.c:310-324` | from every state the invariant allows there is such a round |
| `AkeStopping.StopRunIsRun` | `protocols/umesh/umesh_l2_keymgr.c:243-271` | a run in which every session is stopped when it has its result is the run of the events that still find their session, so agreement and all that holds of runs holds of it |
| `AkeStopping.SentKeysAreHeard` | `protocols/umesh/ake_3dh.c:487-534` | where everything sent to a side arrives, the side has a key of its peer exactly if that key was sent to it, stopped or not |
| `AkeStopping.NoMoreIsSent` | `protocols/umesh/ake_3dh.c:301-304` | after its peer was stopped a side finishes only with keys that were sent to it before |
| `AkeStopping.OtherFinishesExactly` | `protocols/umesh/umesh_l2_keymgr.c:243-271` | for every run in which everything sent to a side arrives and after which the other side is stopped: with eight more steps, whatever else follows, the side has result OK exactly if both keys had been sent to it |
| `AkeBriefRounds.AskedIsAnswered` | `protocols/umesh/ake_3dh.c:251-306` | a key asked for at a peer that has not been stopped is received, or the request is still pending there and the peer not stopped; it is received once the peer, with a key pair, takes a step, even the step that gives it its result |
| `AkeBriefRounds.SilentOrAsked` | `protocols/umesh/ake_3dh.c:243-258` | in a run without loss in which no side takes as many steps as it misses things, a side that has sent nothing has still sent nothing, or has each key or a pending request for it; the latter once it steps with a key pair |
| `AkeBriefRounds.BothFinishInTime` | `protocols/umesh/umesh_l2_keymgr.c:243-271` | with sessions stopped on their result, both sides have their keys after ten rounds in which nothing is lost and no side takes more than four steps, in any order |
| `AkeBriefRounds.BothAgreeInTime` | `protocols/umesh/ake_3dh.h:86-93` | starting with no role, these keys fit if the ephemeral keys differ |
| `AkeBriefRounds.BriefRoundsExist` | `protocols/umesh/ake_3dh.c:310-324` | from every state there are any number of such rounds |
| `AkeBriefRounds.FiveStepsStrand` | `protocols/umesh/umesh_l2_keymgr.c:268` | five steps are too many: for all keys and starts there are two rounds without loss after which one side has been stopped with result OK and the other has none, whatever follows |
| `Tid.Build` | `protocols/umesh/umesh_l2_send.c:227-260` | writes the code of the TID, or as much of it as there is room for; nothing else in the buffer changes |
| `Tid.ParseAt` | `protocols/umesh/umesh_l2_receive.c:479-511` | result, cursor and TID are those of the specified parser for whatever bytes are there |
| `Tid.RoundTrip` | `protocols/umesh/umesh_l2_send.c:227-260` | every 32-bit TID is parsed back from its code, whatever follows it |
| `Tid.PrefixFree` | `protocols/umesh/umesh_l2_send.c:227-260` | no code is a prefix of another |
| `Tid.Accepted` | `protocols/umesh/umesh_l2_receive.c:479-511` | an accepted code gives its value modulo 2^32, is the built code exactly when it is canonical, and is never shorter than that |
| `Tid.CodeSize` | `protocols/umesh/umesh_l2_send.c:232-257` | a code has at most five bytes, and at most n when the TID has at most 7 n bits |
| `Tid.TooLongAccepted` | `protocols/umesh/umesh_l2_receive_tests.c:89-99` | five-byte codes are accepted whether or not they exceed 32 bits, the bytes of the test included |
| `L2Crypto.XorStream` | `protocols/umesh/umesh_l2_send.c:351-377` | the block loop writes the payload exclusive-or the keystream from block 1 on, and nothing else |
| `L2Crypto.Decrypt` | `protocols/umesh/umesh_l2_crypto.c:105-139` | refuses nonce 0 and too small a destination, leaving it alone; otherwise the loop computes the stream |
| `L2Crypto.StreamInverse` | `protocols/umesh/umesh_l2_crypto.c:112-135` | decrypting undoes encrypting, for any length |
| `L2Crypto.StreamAt` | `protocols/umesh/umesh_l2_crypto.c:112-134` | which byte of which keystream block meets which byte of the payload |
| `L2Crypto.BlockZeroReserved` | `protocols/umesh/umesh_l2_send.c:353-381` | the encrypted payload is the same for all keystreams that differ in block 0 only, the block that keys the MAC, exactly when it has at most 65535 blocks |
| `Frame.ControlRoundTrip` | `protocols/umesh/umesh_l2_receive.c:381-445` | a built control field is parsed back, with the protocol as it travels on the wire |
| `Frame.ProtoSurvives` | `protocols/umesh/umesh_l2_send.c:191-195` | the protocol survives exactly when one control byte is enough or its two halves are equal |
| `Frame.RebuiltControl` | `protocols/umesh/umesh_l2_receive.c:381-445` | an accepted control field is the one built from what was parsed exactly when it is canonical |
| `Frame.HeaderRoundTrip` | `protocols/umesh/umesh_l2_send.c:106-129` | control field and TIDs are parsed back from every header, whatever follows |
| `Frame.BodyRoundTrip` | `protocols/umesh/umesh_l2_receive.c:532-635` | every body is parsed back: security type, counter and payload, except that nonce 0 gives zeros |
| `Frame.RoundTrip` | `protocols/umesh/umesh_l2_receive.c:183-268` | every frame with a payload is accepted exactly when it has at most 120 bytes, and gives the packet as it arrives |
| `Frame.RebuiltBody` | `protocols/umesh/umesh_l2_receive.c:548-631` | an accepted body is the one built from the parsed packet, unless its nonce is 0 |
| `Frame.Soundness` | `protocols/umesh/umesh_l2_receive.c:183-268` | an accepted frame is the frame built from the parsed packet exactly when its header is canonical |
| `Frame.BuiltIsCanonical` | `protocols/umesh/umesh_l2_send.c:171-224` | built headers are canonical wherever the protocol survives |
| `Layer2.BuildControl` | `protocols/umesh/umesh_l2_send.c:171-224` | writes the one or two control bytes, or reports that the buffer is small |
| `Layer2.BuildData` | `protocols/umesh/umesh_l2_send.c:263-403` | writes the body for the header before it; which of the errors comes first, and that nothing is written on one |
| `Layer2.ParseControlAt` | `protocols/umesh/umesh_l2_receive.c:381-445` | the parser computes the specified control field, and moves the cursor as far as it read |
| `Layer2.ParseData` | `protocols/umesh/umesh_l2_receive.c:532-635` | the parser reports and stores what the specified body parser gives, for every body; an encrypted one that is too long for the buffer is reported with its length while the buffer stays cleared |
| `Layer2.Authenticate` | `protocols/umesh/umesh_l2_crypto.c:35-68` | accepts exactly when the truncated tag is the one computed over header and body |
| `Layer2.Stack.Send` | `protocols/umesh/umesh_l2_send.c:46-149` | the outcome for every packet and every MAC, missing or failing ones included, the frame handed to the MAC with one byte more, and the counter that advances also without encryption; the 140-byte sandbox is never too small |
| `Layer2.Stack.Receive` | `protocols/umesh/umesh_l2_receive.c:183-316` | the packet buffer ends up with the specified packet, for every length the MAC reports, zero included |
| `Layer2.Delivery` | `protocols/umesh/umesh_l2_receive.c:651-674` | every packet sent with a payload is taken exactly when its frame fits 120 bytes, the receiver is addressed and has a handler, and then arrives as specified |
| `Layer2.DeliveredIntact` | `protocols/umesh/umesh_l2_send.c:46-403` | what is delivered has the flag, source, security type and, if it was addressed, destination it was sent with; the payload and protocol exactly under the stated conditions |
| `Layer2.ProtocolFour` | `protocols/umesh/umesh_l2_receive.c:381-445` | a packet with protocol 4 is sent and taken with protocol 1 |
| `Layer2.CounterZero` | `protocols/umesh/umesh_l2_receive.c:595-626` | an encrypted packet with counter 0 is sent and taken with zeros for its payload |
| `SendRuns.XorOfBits` | `protocols/umesh/umesh_l2_crypto.c:104-140` | every bit of the exclusive or that the cipher uses |
| `SendRuns.SentExactly` | `protocols/umesh/umesh_l2_send.c:46-168` | a packet is sent exactly if it has a source, a destination, a payload that fits and, encrypted, a known neighbor; which result it gets otherwise |
| `SendRuns.PlainFrame` | `protocols/umesh/umesh_l2_send.c:171-360` | every byte of the frame of a plain or CRC packet, the CRC over all before it |
| `SendRuns.SealedFrame` | `protocols/umesh/umesh_l2_send.c:263-400` | every byte of an encrypted frame: nonce, payload exclusive-or keystream from block 1 on, and four bytes of the Poly1305 tag over all before it, keyed by keystream block 0 |
| `SendRuns.TakenExactly` | `protocols/umesh/umesh_l2_receive.c:532-628` | any bytes after a header that announces encryption are taken exactly if that tag is right and the payload not empty, and what payload comes out |
| `SendRuns.ZeroIsNobody` | `protocols/umesh/umesh_l2_receive.c:651-676` | a TID that is not set takes no packet, and one for TID zero goes to nobody |
| `SendRuns.NthNonce` | `protocols/umesh/umesh_l2_send.c:77-90` | over any sequence of sends, a frame carries the counter that its neighbor started with plus the number of packets for it before, modulo 2^16 |
| `SendRuns.NonceReuseExactly` | `protocols/umesh/umesh_l2_send.c:77-90` | two encrypted frames to one neighbor carry the same nonce exactly if the packets for it in between are a multiple of 65536 |
| `KeyManager.Manager.CheckTimeout` | `protocols/umesh/umesh_l2_keymgr.c:347-395` | what a timeout of zero does to one session and, in INITIAL_AKE, to its key exchange slot |
| `KeyManager.Manager.LoopStep` | `protocols/umesh/umesh_l2_keymgr.c:398-435` | a new session takes a slot or gives up, an authenticated one becomes managed |
| `KeyManager.Manager.AdjustTimes` | `protocols/umesh/umesh_l2_keymgr.c:438-459` | the time left of a session that is not empty goes down, the key exchange time up |
| `KeyManager.Manager.Iterate` | `protocols/umesh/umesh_l2_keymgr.c:471-477` | the loop visits every session in order, sharing the slot pool |
| `KeyManager.Manager.StartAke` | `protocols/umesh/ake_3dh.c:390-430` | takes the last free slot of the pool, and fails only if there is none |
| `KeyManager.Manager.StopAke` | `protocols/umesh/ake_3dh.c:433-442` | frees the slot |
| `KeyManager.Manager.Manage` | `protocols/umesh/umesh_l2_keymgr.c:570-603` | a free session becomes new for the neighbor; it fails exactly when no session is free |
| `KeyManager.Manager.ReceiveUnmatched` | `protocols/umesh/umesh_l2_keymgr.c:138-172` | a message without a session takes a session and a slot, or leaves it not authenticated |
| `KeyManager.Manager.ResultCallback` | `protocols/umesh/umesh_l2_keymgr.c:243-271` | the result goes to the session that owns the slot, with the keys if it is OK, and the slot is freed |
| `KeyManager.Manager.FindSendTarget` | `protocols/umesh/umesh_l2_keymgr.c:224-229` | the last session with the pointer, in whatever state |
| `KeyManager.Manager.FindSession` | `protocols/umesh/umesh_l2_keymgr.c:606-625` | a managed session of the peer with the most time left, if there is one with time left |
| `KeyManagerRuns.SlotStepKeepsOwned` | `protocols/umesh/umesh_l2_keymgr.c:138-271` | taking a free slot, giving the own one back, or doing neither keeps the bijection |
| `KeyManagerRuns.OwnershipInvariant` | `protocols/umesh/umesh_l2_keymgr.c:462-482` | in every reachable state the used slots and the sessions in INITIAL_AKE are in bijection through the pointer: no slot leaks |
| `KeyManagerRuns.ResultFindsOwner` | `protocols/umesh/umesh_l2_keymgr.c:246-255` | a slot is used exactly when the result callback finds a session for it, which is the only one |
| `KeyManagerRuns.PointsIffRan` | `protocols/umesh/umesh_l2_keymgr.c:160-172` | in every run a session points at a slot exactly when it ran its own key exchange there and its record has not been cleared since, and it is still for the same peer |
| `KeyManagerRuns.SentToOwnersPeer` | `protocols/umesh/umesh_l2_keymgr.c:224-235` | in every run a message goes to another peer than that of the session that owns the key exchange exactly when the last session in the table that ran in the slot and was not cleared comes after the owner and is for another peer; such a session is done with its key exchange |
| `KeyManagerRuns.StaleHolderReachable` | `protocols/umesh/umesh_l2_keymgr.c:224-235` | a reachable state, for any two peers, in which a message for the first is sent to the second |
| `KeyManagerRuns.TimelyInvariant` | `protocols/umesh/umesh_l2_keymgr.c:280-344` | in every reachable state the timeouts fit the states; in INITIAL_AKE key exchange time and time left add up to 20000 ms |
| `KeyManagerRuns.VisitLowersRank` | `protocols/umesh/umesh_l2_keymgr.c:347-459` | one visit lowers the rank of every session that is not empty |
| `KeyManagerRuns.BoundedLifetime` | `protocols/umesh/umesh_l2_keymgr.c:347-482` | whatever comes in between, a record is all zeros again within as many iterations as its rank, at most 6301 |
| `KeyManagerRuns.AccountedInvariant` | `protocols/umesh/umesh_l2_keymgr.c:259-263` | a managed session has the keys of its own OK result, and 600000 ms minus 100 for every iteration since it became managed |
| `KeyManagerRuns.NewestSession` | `protocols/umesh/umesh_l2_keymgr.c:606-625` | the lookup returns a session of the peer that became managed less than 6000 iterations ago, none later, with the keys of its OK result; nothing only if there is none |
| `KeyManagerLives.RecordOfLife` | `protocols/umesh/umesh_l2_keymgr.c:258-450` | in every run each record is what the session last went through makes it at its age in iterations: 200 for a key exchange, 50 not authenticated, 6000 managed, 50 expired, 50 old, then cleared |
| `KeyManagerLives.ManagedExactly` | `protocols/umesh/umesh_l2_keymgr.c:258-450` | in every run a session is managed for a peer, with time left, exactly if its key exchange with that peer ended with an OK result at least one and less than 6000 iterations ago; its keys are those of the result |
| `KeyManagerLives.FoundExactly` | `protocols/umesh/umesh_l2_keymgr.c:606-625` | the lookup finds a session exactly if there is such a result, and gives the keys of the latest |
| `NeighborTable.Table.CheckUnreachableTime` | `protocols/umesh/umesh_l2_nbtable.c:190-215` | one item, 30 s after it was last heard, becomes old |
| `NeighborTable.Table.CheckStateTimeout` | `protocols/umesh/umesh_l2_nbtable.c:152-187` | what a timeout of zero does to one item |
| `NeighborTable.Table.LoopStep` | `protocols/umesh/umesh_l2_nbtable.c:237-277` | a new item becomes valid and is handed to the key manager, an old one is cleared |
| `NeighborTable.Table.AdjustTimeouts` | `protocols/umesh/umesh_l2_nbtable.c:218-234` | the times of an item that is not empty |
| `NeighborTable.Table.Iterate` | `protocols/umesh/umesh_l2_nbtable.c:40-48` | the loop over all items, and exactly which TIDs it hands to the key manager |
| `NeighborTable.Table.FindItem` | `protocols/umesh/umesh_l2_nbtable.c:291-305` | the first item of the TID that is not empty |
| `NeighborTable.Table.AllocateItem` | `protocols/umesh/umesh_l2_nbtable.c:308-321` | the first empty item |
| `NeighborTable.Table.ProcessAdvBasic` | `protocols/umesh/umesh_l3_nbdiscovery.c:287-320` | refreshes or inserts the TID; fails exactly when it is not there and the table is full |
| `NeighborRuns.VisitItem` | `protocols/umesh/umesh_l2_nbtable.c:152-277` | an item ages by one iteration, is dropped at 300, and is reported reachable exactly under age 20 |
| `NeighborRuns.IterationRefines` | `protocols/umesh/umesh_l2_nbtable.c:36-54` | an iteration ages the map of last-heard times and leaves every item empty or valid: the guard state is unreachable |
| `NeighborRuns.AdvertRefines` | `protocols/umesh/umesh_l3_nbdiscovery.c:287-320` | an advert sets the age of its TID to zero in the map, unless it is new and the map is full |
| `NeighborRuns.RunRefines` | `protocols/umesh/umesh_l2_nbtable.c:36-54` | in every run the table stands for the map, and no TID is there twice |
| `NeighborRuns.TableFollowsAdverts` | `protocols/umesh/umesh_l2_nbtable.c:324-344` | in every state reached from the empty table, a TID is there exactly while its last taken advert is at most 300 iterations old, and reported reachable exactly while that age is under 20 and it was there when the last iteration ended |
| `NeighborRuns.ReachableAfterIteration` | `protocols/umesh/umesh_l2_nbtable.c:324-344` | right after an iteration every item is empty or valid, and a TID is reported reachable exactly while its age is under 20 |
| `NeighborStays.HandedOverExactly` | `protocols/umesh/umesh_l2_nbtable.c:152-277` | in every run the next iteration hands a TID to the key manager exactly if it was heard less than 300 iterations ago and has been in the table for a multiple of 6000 iterations, zero included |
| `NbDiscovery.BuildAdv` | `protocols/umesh/umesh_l3_nbdiscovery.c:119-152` | the packet buffer holds the advert |
| `NbDiscovery.ReceiveHandler` | `protocols/umesh/umesh_l3_nbdiscovery.c:180-320` | the table takes exactly the well-formed, CRC-checked adverts; the rest leave it alone |
| `NbDiscovery.AdvertEndToEnd` | `protocols/umesh/umesh_l3_nbdiscovery.c:119-320` | every advert of a node with a TID is sent, and its frame inserts or refreshes exactly that TID at the receiver, unless it is new and the table full |
| `NbDiscovery.AdvertExactly` | `protocols/umesh/umesh_l3_nbdiscovery.c:119-320` | whatever is received: it is taken for an advert exactly if its body is one zero byte and the CRC of all before it, and it advertises the source in its header |
| `FieldInverse.ExpmodIsPower` | `tools/ed25519.py:10-14` | square and multiply computes the power, reduced |
| `FieldInverse.Pow2Loop` | `scripts/ed25519.py:48-53` | the loop squares p times: x to the power 2^p |
| `FieldInverse.ChainIsPower` | `scripts/ed25519.py:56-70` | the addition chain computes the power 2^255 - 21, for every z and every modulus |
| `FieldInverse.InversesAgree` | `scripts/ed25519.py:56-70` | the chain and tools' square and multiply agree on every z, and both are z^(q - 2) |
| `FieldInverse.InvInverts` | `scripts/ed25519.py:56-57` | if q is prime, z times its inverse is 1 for every z that q does not divide |
| `Edwards.Completeness` | `tools/ed25519.py:38-39` | no two points of the curve make a denominator of the affine law zero |
| `Edwards.SumSatisfiesEquation` | `tools/ed25519.py:80-83` | the affine sum of two points of the curve is on the curve |
| `Edwards.AddFollows` | `scripts/ed25519.py:96-115` | the coordinates computed are the numerators and denominators of the affine law, times a common factor |
| `Edwards.AddRefines` | `scripts/ed25519.py:96-115` | on the curve, the sum in extended coordinates is on the curve again and its affine point is tools' affine sum |
| `Edwards.AddKeepsProduct` | `scripts/ed25519.py:96-115` | x y = z t holds of every sum, whatever the arguments |
| `Edwards.SelfAddIsDouble` | `scripts/ed25519.py:118-136` | on the curve, adding a point to itself gives -4 times the coordinates that doubling gives |
| `Edwards.DoubleRefines` | `scripts/ed25519.py:118-136` | on the curve, doubling stays on it and is the affine sum of the point with itself |
| `Edwards.OnCurveEquation` | `scripts/ed25519.py:231-237` | the curve test in extended coordinates holds exactly when the affine point satisfies the curve equation |
| `Edwards.RepresentedPoint` | `scripts/ed25519.py:185-189` | encoding's division by z recovers the affine point |
| `GroupLaw.AdditionAssociates` | `tools/ed25519.py:33-40` | affine addition is associative on the curve |
| `GroupLaw.NegatedAdds` | `tools/ed25519.py:33-40` | the point with the opposite x is on the curve and is the inverse |
| `GroupLaw.Commutative` | `tools/ed25519.py:33-40` | affine addition is commutative |
| `GroupLaw.SumIsElement` | `tools/ed25519.py:33-40` | affine addition is closed on the curve |
| `GroupLaw.AddZero` | `tools/ed25519.py:42-43` | (0, 1) is neutral |
| `ScalarMult.ScalarMultRefines` | `scripts/ed25519.py:139-146` | for every scalar the fast multiple is on the curve and its affine point is tools' affine multiple, with no law of the group assumed |
| `ScalarMult.ScalarMultIsTimes` | `tools/ed25519.py:42-47` | the multiple by e is the sum of e copies |
| `ScalarMult.Table.MakeBpow` | `scripts/ed25519.py:153-157` | the loop appends 253 entries, entry i doubled i times |
| `ScalarMult.Table.ScalarMultB` | `scripts/ed25519.py:163-175` | the loop adds the entries at the one bits of e modulo l, for every integer e, and its assertion never fails |
| `ScalarMult.OrderFits` | `scripts/ed25519.py:174` | l is below 2^253, so that no bit is left over |
| `ScalarMult.EntryIsScalarMult` | `scripts/ed25519.py:149` | entry i is the multiple of the base point by 2^i, as a point |
| `TableCoordinates.DoubleScales` | `scripts/ed25519.py:118-136` | doubling raises a common factor of the coordinates to the fourth power |
| `TableCoordinates.EntryFactor` | `scripts/ed25519.py:149` | for every i the coordinates of the multiple by 2^i are a known factor times those of entry i |
| `TableCoordinates.EntriesAgreeIff` | `scripts/ed25519.py:149` | for every i they agree exactly when that factor is 1 |
| `TableCoordinates.NoEntryAgrees` | `scripts/ed25519.py:149` | if q is prime, no entry of Ed25519's table has the coordinates of its scalar multiple |
| `ScalarMult.TableMultiplies` | `scripts/ed25519.py:163-175` | the table gives the sum of e mod l copies, as scalar multiplication by e mod l does |
| `ScalarMult.TableAgreesIffOrder` | `scripts/ed25519.py:167-168` | the table agrees with scalar multiplication on every scalar exactly when the multiple by l is the identity |
| `Ed25519.Constants` | `scripts/ed25519.py:73-90` | if q is prime, the constants are -121665 / 121666 and 4 / 5 |
| `Ed25519.BaseOnCurve` | `scripts/ed25519.py:90-92` | if q is prime, the base point is on the curve |
| `Ed25519.NoSquareTimes` | `scripts/ed25519.py:73` | on a curve with the square roots that Ed25519 has, no square is d times another but zero |
| `Ed25519.GoodIfPrime` | `scripts/ed25519.py:73-74` | all that is asked of the curve holds of Ed25519 exactly when q is prime |
| `Ed25519.BaseMultiples` | `scripts/ed25519.py:139-146` | if q is prime, every fast multiple of the base point is on the curve and is the affine multiple |
| `BasePointOrder.OrderOfBase` | `scripts/ed25519.py:167` | if q is prime, the multiple of the base point by l is the identity, in both forms |
| `Ed25519.AffineAddReducesD` | `tools/ed25519.py:19` | tools' unreduced d gives the same sums as the reduced one |
| `SignatureCheck.CheckPoints` | `scripts/ed25519.py:275-283` | the check computes S B and R + h A and compares them over the denominators |
| `SignatureCheck.AgreeIsEqual` | `scripts/ed25519.py:278-283` | comparing over the denominators accepts exactly two points of the curve that are equal as affine points |
| `SignatureCheck.ChecksAgree` | `tools/ed25519.py:96-104` | over the table of doublings of a base point whose multiple by l is the identity, the fast check accepts exactly what tools' affine check accepts, for all R and A on the curve and all scalars |
| `SignatureCheck.SignedIsAccepted` | `scripts/ed25519.py:217-228` | over such a table, with R = r B, A = a B and S = (r + h a) mod l the check accepts, for all r, a and h |
| `PointCodec.SquareRootOf` | `scripts/ed25519.py:79-82` | for whatever is congruent to a square, what is computed is a reduced square root |
| `PointCodec.RecoversX` | `scripts/ed25519.py:77-87` | for every point of the curve the even one of x and q - x is recovered from y |
| `PointCodec.BaseRecovered` | `scripts/ed25519.py:90-92` | if q is prime, the x coordinate of the base point is the one that is recovered |
| `PointCodec.DecodesEncoded` | `scripts/ed25519.py:244-252` | every point of the curve is decoded from its encoding, with z = 1 |
| `PointCodec.EncodesDecoded` | `scripts/ed25519.py:185-193` | what is decoded from it is encoded to the same bytes |
| `PointCodec.DecodesExactly` | `scripts/ed25519.py:244-252` | decoding succeeds exactly when some point of the curve has the y that is encoded |
| `Signatures.SignatureAccepted` | `scripts/ed25519.py:217-286` | over such a table, the signature of every message with every key is accepted with the public key |
| `Signatures.Ed25519Accepts` | `scripts/ed25519.py:259-286` | the same of Ed25519, if q is prime |
| `Signatures.Ed25519ChecksAgree` | `scripts/ed25519.py:163-175` | if q is prime, Ed25519's fast check on points is the affine check, and its table gives every multiple of the base point |
| `SignatureBytes.SecretIs` | `scripts/ed25519.py:206-208` | the secret scalar is 2^254 plus the low 254 bits of the hash of the key, as a little-endian number, without the lowest three |
| `SignatureBytes.PublicKeyIs` | `scripts/ed25519.py:200-209` | the public key is y and the lowest bit of x of as many copies of the base point |
| `SignatureBytes.SignatureIs` | `scripts/ed25519.py:212-228` | both halves of every signature as numbers: the first encodes r copies of the base point, r the hash of the second half of the hashed key and the message; the second is r plus the hash of first half, key and message times the secret scalar, modulo l |
| `SignatureBytes.SameFirstHalf` | `scripts/ed25519.py:217-228` | two messages get the same first half exactly if these numbers give the same point |
| `SignatureBytes.SameFirstHalfExactly` | `scripts/ed25519.py:217-228` | and if l is prime, exactly if these numbers are congruent modulo l |
| `SignatureBytes.VerdictIs` | `scripts/ed25519.py:259-286` | the verdict on any bytes: lengths first, then points that do not decode, and valid exactly if S copies of the base point are R plus h copies of A, h the hash of the re-encoded R, key and message |
| `SimpleSignatures.PublicKeysAgree` | `tools/ed25519.py:62-66` | over such a table, the fast script and the simple one compute the same public key, byte for byte |
| `SimpleSignatures.SignaturesAgree` | `tools/ed25519.py:72-78` | and the same signature, from every key, message and public key |
| `SimpleSignatures.CheckOfReencoded` | `tools/ed25519.py:96-104` | for all bytes the fast check gives the simple check's verdict on the signature with its first half encoded again |
| `SimpleSignatures.CanonicalIff` | `scripts/ed25519.py:185-193` | encoding what was decoded gives the bytes back exactly when y is reduced and x = 0 has no sign |
| `SimpleSignatures.ChecksAgreeExactly` | `tools/ed25519.py:96-104` | for a first half that decodes, the two checks agree on all hash functions, messages and keys exactly when it is canonical |
| `SimpleSignatures.SignedZero` | `tools/ed25519.py:88-94` | y = 1 with the sign bit decodes, to x = q, and is not canonical, on every curve considered |
| `Ed25519Scripts.Ed25519ScriptsAgree` | `tools/ed25519.py:19-104` | if q is prime, the three statements hold of the two scripts with the constants each computes, the unreduced d of the simple one included |
| `Ed25519Scripts.Ed25519ChecksAgreeExactly` | `tools/ed25519.py:96-104` | and so does the exact condition |
| `Ed25519Scripts.Ed25519ScriptsDiffer` | `tools/ed25519.py:96-104` | there are a hash function, a signature with that first half, a message and a key for which the two scripts give different verdicts |
| `IntegerCodec.DecodeEncode` | `scripts/ed25519.py:178-182` | decoding an encoded integer gives it modulo 2^256 |
| `IntegerCodec.EncodeDecode` | `scripts/ed25519.py:240-241` | encoding what was decoded from 32 bytes gives them back |
| `TinyElf.Elf.LoadUint8` | `services/chainloader/tinyelf.c:22-33` | the byte at the cursor, which then moves on; a read that fails gives 0 and leaves it |
| `TinyElf.Elf.LoadUint16` | `services/chainloader/tinyelf.c:36-46` | two bytes in the byte order of the header |
| `TinyElf.Elf.LoadUint32` | `services/chainloader/tinyelf.c:49-63` | four bytes in the byte order of the header |
| `TinyElf.Elf.LoadAddress` | `services/chainloader/tinyelf.c:66-85` | four bytes for ELF32, and for anything else zero without reading |
| `TinyElf.Elf.Parse` | `services/chainloader/tinyelf.c:97-127` | the header at the start of what the callback reads, or failure without the ELF magic |
| `TinyElf.Elf.PhdrGet` | `services/chainloader/tinyelf.c:130-151` | the program header with a number, or failure; the flags are at a place that depends on the class |
| `TinyElf.Elf.ShdrGet` | `services/chainloader/tinyelf.c:154-172` | the section header with a number, or failure |
| `TinyElf.Elf.SectionGetName` | `services/chainloader/tinyelf.c:175-192` | the name up to its terminator, cut to the buffer, whatever the size of the buffer |
| `TinyElf.Elf.FindByName` | `services/chainloader/tinyelf.c:195-204` | the search finds what the specified search finds |
| `TinyElf.FindFromIsFirst` | `services/chainloader/tinyelf.c:195-204` | that is the first section with the name, and nothing only if there is none |
| `ElfImages.HeaderExact` | `services/chainloader/tinyelf.c:97-127` | parsing gives an ELF32 header exactly when its encoding is there, in the byte order it names |
| `ElfImages.SectionExact` | `services/chainloader/tinyelf.c:154-172` | the same for a section header |
| `ElfImages.SegmentExact` | `services/chainloader/tinyelf.c:130-151` | the same for a program header |
| `ElfImages.ImageRecovered` | `services/chainloader/tinyelf.c:97-172` | the header and all section headers of a well-formed ELF32 image are recovered |
| `ElfImages.NamedExactly` | `services/chainloader/tinyelf.c:197-199` | a name shorter than 31 characters matches exactly itself; one of 31 everything that starts with it; a longer one nothing |
| `ElfImages.FindInImage` | `services/chainloader/tinyelf.c:195-204` | in a well-formed image the search finds the first section that has the name |
| `ElfImages.UnreadableIsZero` | `services/chainloader/tinyelf.c:22-33` | where the callback delivers nothing every number is zero and the cursor stays |
| `ElfImages.ReadableAdvances` | `services/chainloader/tinyelf.c:22-33` | where it delivers everything the cursor goes on, modulo 2^32 |
| `ElfImages.NoAddresses` | `services/chainloader/tinyelf.c:66-85` | of a header that is not one of ELF32 no address is read, and all its tables are at offset zero |
| `ElfImages.NoNames` | `services/chainloader/tinyelf.c:175-192` | without a section of names no section is found under a name |
| `Chainloader.ChainLoader.SetElf` | `services/chainloader/chainloader.c:217-239` | the image is set and parsed, or cleared again without an ELF header |
| `Chainloader.ChainLoader.FindElf` | `services/chainloader/chainloader.c:199-207` | the scan with its 32-bit offset finds what the specified scan finds, whatever start, size and step, wherever it ends at all |
| `Chainloader.ScanIsFirst` | `services/chainloader/chainloader.c:199-207` | the scan finds the first of its offsets with an ELF header, or fails at the first past the size; if it never ends, no offset is either |
| `Chainloader.ScanWithoutWrap` | `services/chainloader/chainloader.c:199-207` | with a step and a size that do not overflow together it ends, finds the first image at a multiple of the step, and fails only if there is none |
| `ImageScan.EndlessExactly` | `services/chainloader/chainloader.c:199-207` | a scan never ends exactly when the last multiple of the lowest one bit of its step below 2^32 is below the size and no multiple has an ELF header |
| `ImageScan.EndsOnEveryMemory` | `services/chainloader/chainloader.c:199-207` | it ends on every memory exactly when the size and that bit add up to at most 2^32; for step zero, exactly for size zero |
| `ImageScan.BlankScan` | `services/chainloader/chainloader.c:199-207` | in memory of zeros it never ends exactly when that sum is more, and else finds nothing |
| `ImageScan.DefaultEnds` | `services/Kconfig:248-255` | with the default size and step it ends, on every memory and from every start |
| `Chainloader.ChainLoader.FindSignature` | `services/chainloader/chainloader.c:133-145` | address and size of the first section with the name of the signature |
| `Chainloader.ChainLoader.ElfB2s` | `services/chainloader/chainloader.c:153-172` | the digest of the bytes before the section, 64 zeros, and the bytes after it up to the end of the section table, in 32-bit arithmetic |
| `Chainloader.ChainLoader.CheckSignature` | `services/chainloader/chainloader.c:179-196` | OK exactly when the section is there and its first 64 bytes verify against that digest |
| `Chainloader.ChainLoader.FindVectorTable` | `services/chainloader/chainloader.c:114-125` | the scan keeps the last match |
| `Chainloader.VectorTableIsLast` | `services/chainloader/chainloader.c:114-125` | that is the last segment whose second word is the entry point, and nothing only if there is none |
| `Chainloader.ChainLoader.Boot` | `services/chainloader/chainloader.c:249-285` | jumps to the entry point with the stack pointer of the vector table, and fails without an image or a vector table |
| `Chainloader.Coverage` | `services/chainloader/chainloader.c:153-172` | what is hashed is the image with the section zeroed exactly when the section has 64 bytes |
| `Chainloader.CoverageOfFile` | `services/chainloader/chainloader.c:154` | and it is the whole file exactly when the section table ends it |
| `Chainloader.CheckedAsSigned` | `scripts/elfsign.py:48-60` | for every well-formed image the check is the verification of the section's bytes against the digest of what the signing script hashes |
| `SignedContent.SignedImageChecked` | `scripts/elfsign.py:48-60` | an image that is complete in itself is checked so wherever it is in memory |
| `SignedContent.HashedImageBinds` | `scripts/elfsign.py:48-60` | the image that is hashed determines the header, the sections, the names, where the signature was and every other byte of the file |
| `SignedContent.DigestBinds` | `services/chainloader/chainloader.c:153-196` | two images with one digest are the same but for the 64 bytes of the signature exactly when BLAKE2s was given one input, and else it collides |
| `ExampleImage.ExampleIsSigned` | `scripts/elfsign.py:48-60` | any 64 bytes are the signature of a signed image |
| `Bootloader.App.Step` | `applications/bootloader/app.c:28-79` | one step from any state: the next state, and whether and with what outcome booting was called |
| `Bootloader.StepKeepsSound` | `applications/bootloader/app.c:28-79` | a step keeps what each state says about the image |
| `Bootloader.OnlyVerifiedBoots` | `applications/bootloader/app.c:82-86` | in every run booting is called only on the first image of the scan, after its check with a key of the right size was OK, and an application that runs is that image |
| `Bootloader.BootsExactlyWhenAccepted` | `applications/bootloader/app.c:28-79` | from the fourth step on the application runs exactly when the first image is signed and has a vector table, and otherwise everything has failed or the scan does not end; before, it does not run |
| `Bootloader.FinalForGood` | `applications/bootloader/app.c:51-53` | once the application runs, everything has failed or the scan does not end, nothing changes |
| `Bootloader.EndsExactly` | `applications/bootloader/app.c:30-40` | the search for an image comes to an end exactly under the condition on start, size, step and memory |
| `Bootloader.BlankMemory` | `applications/bootloader/app.c:30-40` | with blank memory the bootloader stays in its search for good exactly when size and lowest one bit of the step overflow together, and else says that everything has failed |
| `BootImage.FoundFirst` | `services/chainloader/chainloader.c:199-208` | the image that is found is the first offset of the scan with the bytes 7f 45 4c 46, with all offsets up to it below the size |
| `BootImage.BootedExactly` | `services/chainloader/chainloader.c:104-126` | booting jumps with the entry point, and as stack and vector table the first word and the address of the last segment whose second word is the entry point, both words little-endian in memory |
| `BootImage.ApplicationExactly` | `applications/bootloader/app.c:28-80` | from the fourth step on an application runs with these values exactly if the first image in memory has a signature that the key accepts |
| `BootImage.FileRunsExactly` | `applications/bootloader/app.c:28-80` | the same for an image file in memory: exactly if the bytes of its signature section are a signature of the digest of the file with them zeroed |
| `FirmwareImage.PadIsExact` | `tools/createfw.py:34-43` | padded metadata has exactly the required length, and padding fails exactly when neither nothing nor a whole section is missing |
| `FirmwareImage.PrintSection` | `tools/createfw.py:46-65` | the nested loop prints what the specified walk lists, and stops where that fails |
| `FirmwareImage.PrintSections` | `tools/createfw.py:68-70` | the same for the sections of an image |
| `FirmwareImage.WalkOfNodes` | `tools/createfw.py:46-70` | the walk over built sections ends without an exception and lists exactly those, in order |
| `FirmwareImage.NodesLocated` | `tools/createfw.py:54-59` | every line gives the place of the header and of the data of its section |
| `FirmwareImage.CollectMetadata` | `tools/createfw.py:141-150` | the loop builds the version and compatibility sections, and fails only where a length cannot be packed |
| `FirmwareImage.CollectVerified` | `tools/createfw.py:160-166` | the metadata, its padding and the binary, as sections; an input file that cannot be read and a binary that cannot be packed are reported alike |
| `FirmwareImage.CollectVerification` | `tools/createfw.py:174-207` | hash, signature and fingerprint, as sections |
| `FirmwareImage.Create` | `tools/createfw.py:140-213` | what the script comes to for all options and input files, unreadable ones included: the image, or which of its errors |
| `FirmwareImage.BinaryAtOffset` | `tools/createfw.py:152-166` | in every image the binary starts exactly at the offset asked for |
| `FirmwareImage.ListingOfCreated` | `tools/createfw.py:215-216` | the listing of every created image visits exactly its sections, each line locating its data |
| `FirmwareBytes.CreatedExactly` | `tools/createfw.py:29-213` | when there is an image, and its bytes: the metadata, spaces and binary; the hash of all that, its signature, and four bytes of the hash of the public key |
| `FirmwareBytes.WhichFailure` | `tools/createfw.py:155-200` | which failure is reported otherwise |

## Left out

- FreeRTOS tasks, delays, queues and mutexes: one handler, callback or iteration is one atomic step, in any order.
- Matching of messages to sessions by session ID, and the scan over the session table of the key exchange: an endpoint is one session, and only messages for it reach it.
- AkeLiveness.BothFinish: says nothing of sessions that are stopped; `AkeStopping` and `AkeBriefRounds` are about these.
- AkeLiveness.BothAgree: the same; `AkeBriefRounds.BothAgreeInTime` is about sessions that are stopped.
- In `AkeStopping` and `AkeBriefRounds` a stopped session stays so: the session that the key manager starts when a request comes later, and the one that it stops because its time is up, are not part of the two-session system.
- Protobuf encoding and the layout of its structures: a message is its contents, and a response carries the key as a value.
- Forged messages: a network event loses, repeats, delays or reorders what the peer sent, as the theorems are about agreement.
- Log messages, statistics, signal strength, LED state and the `known_neighbor` flag that sending sets in the receive buffer.
- The interface number: there is one interface.
- The task that rotates the own TID: it assigns a constant test value, and the TIDs of a stack are fields here.
- The neighbor table inside `Layer2.Stack` is a map from TIDs to counters; `NeighborTable` has the table itself.
- The counters `ake_time` and `unreachable_time_msec` are unbounded here; the invariants bound them far below 2^32.
- Layer2.ParseData: the source keeps the length of the header in eight bits; a header has at most 12 bytes.
- Algorithms other than none, CRC16 and the two ChaCha20-Poly1305 ones, which the source rejects too.
- `protocols/umesh/file_transfer.c`: its transfer logic is not part of this model.
- That q is prime is a hypothesis; for `SignatureBytes.SameFirstHalfExactly` so is that l is.
- What clears the counter of a neighbor: `SendRuns` follows it from any value on, as long as the neighbor stays in the table.
- Reads outside the flash, ELF64 addresses (the source reads none), and signed overflow in the size of the section table, which wraps here.
- Logging of headers, the vector table switch and the jump itself: booting ends with the entry point, stack pointer and vector table it would use.
- Base64: the key of the bootloader is the bytes that decoding gives, of any number.
- Chainloader.ChainLoader.FindElf: says nothing of a scan that never ends; `ImageScan.EndlessExactly` says which these are.
- Writing the image, parsing the command line, and the text of the listing in `tools/createfw.py`.
- `ports/`, `hal/`, the command line interface, sensor drivers and the other tools, which would add only easy members.

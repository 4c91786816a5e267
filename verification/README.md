# A verified model of the rtw88 Wi-Fi driver for macOS

This project models the logic of the driver that decides which bytes reach the network stack,
the air and the key store, and proves what that logic guarantees. `dafny verify dfyconfig.toml`
checks all of it.

* **Receive reordering** (`SeqNum`, `ReorderSpec`, `ReorderRuns`, `ReorderTid`, `ReorderCount`,
  `RxDispatch`, `RxFields`, `RxRuns`, `RxEngine`, `RxStack`, `BlockAck`, `BlockAckSetup`). One TID's
  A-MPDU window is specified on unbounded ("absolute") sequence numbers. The class `ReorderTid` keeps
  the driver's own state (12-bit head, 64 slots indexed by the low six bits, a counter) and each of its
  methods is proved to perform the specified step. Order, at-most-once release, conservation of frames
  and the effect of the 100 ms sweep, which gives up a missing frame only for one that has waited
  longer, are proved for every run of frames, sweeps, re-ADDBAs and DELBAs. `RxFields` says which window
  and number a frame written field by field goes to. The class `RxEngine` holds eight such objects and
  dispatches frames to them without one disturbing another; `RxStack` carries order and conservation
  through the MPDU parser to the Ethernet frames. A two-party model adds the originator and shows for
  which originator windows the engine loses nothing.
* **Transmit ring and A-MSDU** (`TxFrame`, `TxRing`, `TxMachine`, `BeRing`, `Amsdu`, `AmsduFields`). The
  BE ring refines a bounded FIFO under every interleaving of its two producers, which hold a lock, and
  the hardware, which does not: a post is a sequence of steps (sample the read index, test it, store the
  frame, store its descriptor, ring the doorbell) and the hardware may read between any two.
  De-aggregation inverts aggregation, also for frames written field by field.
* **WPA2** (`Bytes`, `Options`, `SBoxes`, `SBoxLaw`, `Gf256`, `Aes`, `AesVector`, `AesArrays`,
  `KeyWrap`, `Sha1`, `ShaVector`, `Hmac`, `Eapol`, `Handshake`, `EapolWire`, `Interop`). AES-128 of FIPS
  197, key wrap of RFC 3394, SHA-1 of FIPS 180-4, HMAC of RFC 2104 and PBKDF2 of RFC 8018 are each
  stated as in their standard; the driver's buffer-level code is proved to compute them, and the inverse
  laws are proved for every key and input; the S-box is the one of its algebraic law, and an example
  block and digest of the standards come out. The supplicant of section 12.7.6 of IEEE Std 802.11-2020
  is a class run against an arbitrary sequence of received frames: return code, installed keys, every
  frame sent and the final wipe are all determined.
* **Tables and files** (`PhyTable`, `Efuse`, `Text`, `Config`, `ConfigFile`, `ConfigStore`, `Json`,
  `NetReply`). The PHY table interpreter preserves the meaning of structured programs, the EFUSE decoder
  and an encoder characterise each other, the configuration file round-trips, and the client reads back
  every field of the daemon's scan lines whatever a network is called.

Two conventions: frames are byte sequences (`Octets`), and a text of the C code is a `string` with one
character per byte and no zero byte.

## Where code and comments disagree

* client/config.c:9-11 says to list as many networks as you like, and that a `password` line applies
  to the network line before it. The code sets the last entry of the list (client/config.c:96-99). That
  is another network when the named one was already saved and is not last
  (`ConfigFile.WrongNetworkGetsPassword`), and when sixteen are saved and the name is refused
  (`ConfigFile.SeventeenNetworks`). `ConfigFile.PasswordGoesToLast` gives the exact condition and what
  is lost, for names of every length.
* client/config.c:38-51 compares a name in full but stores at most 32 bytes of it, so a longer name
  can be saved twice. `Config.LongNameSavedTwice` is such an input, `Config.SetKeepsDistinct` the
  exact condition.

## Model

| member | source | states |
|---|---|---|
| SeqNum.ResolveWrap | server/RTW88Server.cpp:95-97 | a 12-bit number is read back as the absolute number it was sent for if and only if that number lies in (head - 2048, head + 2048] |
| SeqNum.SnLessIsOrder | server/RTW88Server.cpp:95-95 | the wrapped comparison with the head is the comparison of absolute numbers, for every number and any number of wraps |
| ReorderSpec.CappedSlide | server/RTW88Server.cpp:1060-1072 | walking at most `win` slots and then jumping hands up the same frames in the same order and leaves the same state as walking every number up to the new head |
| ReorderSpec.InsertWf | server/RTW88Server.cpp:1051-1089 | every insert of a frame of any length keeps the buffered numbers inside the window and nothing buffered before the session started; one that fits a slot also keeps the head slot a hole |
| ReorderSpec.SkipShrinks | server/RTW88Server.cpp:1093-1117 | each pass of the timeout loop buffers strictly fewer frames, so the sweep ends |
| ReorderRuns.RunSafe | server/RTW88Server.cpp:1000-1135 | in every run of frames, sweeps, re-ADDBAs and DELBAs, each session releases strictly increasing absolute numbers, each at most once, and the window invariant holds |
| ReorderRuns.RunKeepsHole | server/RTW88Server.cpp:1051-1117 | as long as every frame fits a slot, the head slot is a hole after every event |
| ReorderRuns.HeadMonotone | server/RTW88Server.cpp:1051-1117 | within a session the head never moves backwards and nothing handed up is taken back |
| ReorderRuns.InsertFate | server/RTW88Server.cpp:1051-1089 | an offered frame is passed through (before start), stale (below the head), a duplicate (exactly when its own number is buffered), passed through behind the slide (too long for a slot, unless expected with nothing buffered), or else handed up or buffered under its own number |
| ReorderRuns.FirstFrame | server/RTW88Server.cpp:1000-1089 | right after an accepted ADDBA an older frame is passed straight up and changes nothing else, and the frame with the agreed starting number is released at once |
| ReorderRuns.RunConserves | server/RTW88Server.cpp:1000-1135 | in every run the frames handed up, buffered, stale and duplicate are together, as a multiset, the frames offered |
| ReorderRuns.EachFrameOnce | server/RTW88Server.cpp:1000-1135 | a distinguishable offered frame has exactly one of these fates, once |
| ReorderRuns.TidySettles | server/RTW88Server.cpp:1093-1117 | after the timeout pass the TID holds nothing, or its head slot is empty and its lowest-numbered frame has waited at most 100 ms; if an oversize frame had left the head slot full, after the next pass |
| ReorderSpec.TidyKeepsHoles | server/RTW88Server.cpp:1093-1117 | the timeout pass moves the head past a number that is not buffered only if a frame buffered above that number is older than 100 ms (100000000 ns) |
| ReorderSpec.TidyIsPatient | server/RTW88Server.cpp:1110-1110 | with a hole at the head and no buffered frame older than 100 ms, the pass changes nothing |
| ReorderRuns.TidyConserves | server/RTW88Server.cpp:1093-1117 | the timeout pass keeps all frames and the order in which they leave, and drops none |
| ReorderRuns.FlushHandsUpAll | server/RTW88Server.cpp:1009-1014 | a flush hands up every buffered frame in sequence-number order and empties the window |
| ReorderTids.ReorderTid.constructor | server/RTW88Server.cpp:86-94 | a new TID is inactive and empty |
| ReorderTids.ReorderTid.DeliverSlot | server/RTW88Server.cpp:1029-1036 | releasing a slot hands up exactly the frame of the number it stands for, frees it and lowers the counter |
| ReorderTids.ReorderTid.DrainReady | server/RTW88Server.cpp:1038-1049 | releases the consecutive run at the head, stops at the first gap, and returns the number of frames released; ends because the counter falls |
| ReorderTids.ReorderTid.Slide | server/RTW88Server.cpp:1060-1072 | the slide computed on wrapped numbers is the slide of the absolute window |
| ReorderTids.ReorderTid.Insert | server/RTW88Server.cpp:1051-1089 | for a frame of any length, the slot-based insert with its outcomes, including the fast path and the oversize pass-through, is the specified insert |
| ReorderTids.ReorderTid.Activate | server/RTW88Server.cpp:1000-1027 | re-ADDBA flushes in order before restarting at the new number; a failed allocation leaves the TID inactive |
| ReorderTids.ReorderTid.Deactivate | server/RTW88Server.cpp:1119-1135 | DELBA flushes in order, then ends the session |
| ReorderTids.ReorderTid.FindBuffered | server/RTW88Server.cpp:1104-1109 | the scan finds the lowest buffered number of the window, or reports that there is none |
| ReorderTids.ReorderTid.TimeoutSweep | server/RTW88Server.cpp:1100-1114 | the loop over one TID, with its test of the head slot, performs the specified pass, ends, and returns the number of frames it handed up; it passes a missing number only for a frame above it that is older than 100 ms |
| ReorderTids.ReorderTid.SweepIfBusy | server/RTW88Server.cpp:1096-1115 | passing over an inactive or empty TID changes nothing the sweep would have changed |
| ReorderTids.ReorderTid.Offer | server/RTW88Server.cpp:1212-1222 | a frame of any length goes through the window of an active session and straight up otherwise |
| ReorderTids.SlotsDistinct | server/RTW88Server.cpp:84-84 | two numbers of one window never share a slot |
| ReorderTids.BeyondWindow | server/RTW88Server.cpp:1060-1060 | the wrapped window test agrees with the absolute one for every frame not below the head |
| ReorderTids.NewHead | server/RTW88Server.cpp:1061-1066 | the new head and the number of steps computed on 12 bits are the absolute ones |
| ReorderTids.FastPath | server/RTW88Server.cpp:1075-1080 | the shortcut for the expected frame does what buffering and draining would do |
| ReorderCount.StoredIsOccupied | server/RTW88Server.cpp:86-94 | at every point the counter is the number of occupied slots |
| RxDispatch.AddbaAgreement | server/RTW88Server.cpp:941-987 | the response advertises exactly the window that is activated (1 to 64, 64 when unspecified or too large) and echoes token, policy, TID and timeout |
| RxFields.ClassifyQosData | server/RTW88Server.cpp:1162-1222 | a QoS data frame written field by field goes to the window of its TID (modulo 8) under its 12-bit sequence number whatever its fragment number; multicast and no-ack frames are passed up |
| RxFields.SequenceControl | server/RTW88Server.cpp:1218-1218 | in those frames the fragment number is the low half of the first byte, the sequence number the twelve bits above it |
| RxFields.ClassifyPlainData | server/RTW88Server.cpp:1162-1224 | data frames without QoS are passed up |
| RxFields.ClassifyOther | server/RTW88Server.cpp:1162-1180 | control frames, and management frames other than action frames, are ignored |
| RxFields.ClassifyAddba | server/RTW88Server.cpp:941-987 | an ADDBA request written field by field sets up its TID at its starting number, with its buffer size up to 64, or 64 for size 0; TIDs from 8 on are declined |
| RxFields.ClassifyDelba | server/RTW88Server.cpp:989-1000 | a DELBA written field by field ends the session of its TID, and is ignored for TIDs from 8 on |
| RxFields.ResponseFields | server/RTW88Server.cpp:963-987 | the response is an action frame from us to the access point whose fields lie where the standard puts them, with status 0 |
| RxRuns.TidsIndependent | server/RTW88Server.cpp:1162-1224 | on the state of all eight windows, every run of received frames and sweeps makes each window perform exactly the run of its own events, so all run properties carry over |
| RxRuns.ThreadConserves | server/RTW88Server.cpp:1162-1224 | over every run of the thread, each received data frame is passed up, or released, buffered, stale or duplicate in exactly one of the eight windows |
| RxEngines.RxEngine.RxFrame | server/RTW88Server.cpp:1162-1224 | on eight objects that share no array, a received frame makes the addressed TID perform its step and leaves the other seven as they were; frames outside all windows are passed up and ADDBA requests answered, in order; the RxFields rows say which frame that is |
| RxEngines.RxEngine.TimeoutAll | server/RTW88Server.cpp:1093-1117 | every TID performs its sweep on its own arrays; returns the number of frames released in all |
| RxEngines.Serve | server/RTW88Server.cpp:1308-1339 | from a fresh thread, any sequence of frames and sweeps leaves every TID object at the end of the run of its own events, in a safe state |
| RxStack.StackGrows | server/RTW88Server.cpp:1162-1224 | the Ethernet frames a TID has given to the network stack are never taken back or reordered by a later event |
| RxStack.EthernetConserved | server/RTW88Server.cpp:1162-1303 | over any run of the thread, the Ethernet frames passed up, and those of the MPDUs each window released, buffers or dropped, are together exactly the Ethernet frames of the data MPDUs received |
| RxStack.ServeStack | server/RTW88Server.cpp:1308-1339 | the objects and the parser together: after any sequence of inputs that conservation holds, and of two MPDUs a session released the lower-numbered one's Ethernet frames all come first |
| BlockAck.PlayKeeps | server/RTW88Server.cpp:957-987 | with an originator window no larger than ours, in every run with loss, reordering and repetition the head passes only numbers below WinStart or delivered ones |
| BlockAck.InPlayIsSafe | server/RTW88Server.cpp:1051-1089 | in such a run a frame in play is dropped as stale only if it was delivered, as duplicate only if it is buffered, and is otherwise kept |
| BlockAck.LargerWindowLoses | server/RTW88Server.cpp:957-961 | for every larger originator window there is a run in which a frame in play is dropped though never delivered |
| BlockAckSetup.AddbaStartsSession | server/RTW88Server.cpp:1000-1027 | an accepted ADDBA, in any state the engine can be in, starts a session as the two-party theorem assumes it |
| BlockAckSetup.AdvertisedWindowIsSafe | server/RTW88Server.cpp:957-987 | an originator that keeps to the buffer size it reads in our response loses no frame in play, in every run without a timeout |
| TxFrames.PnRecovered | server/RTW88Server.cpp:856-861 | the packet number is recovered from the CCMP header if and only if it is below 2^48 |
| TxFrames.AirFrameCarries | server/RTW88Server.cpp:852-865 | addresses, protocol, payload and packet number are read back from the frame built for an Ethernet frame |
| TxFrames.AirFrameSays | server/RTW88Server.cpp:852-864 | its header bits: QoS data on TID 0, to the distribution system and not from it, protected, fragment 0, extended IV with key 0, LLC/SNAP with organisation 0 |
| TxRing.StepKeeps | server/RTW88Server.cpp:824-934 | every event of the queue keeps capacity len - 1, the posting order and the numbering |
| TxRing.RunOrdered | server/RTW88Server.cpp:824-934 | in every run of the queue at most len - 1 frames wait, frames leave in posting order, and packet numbers strictly increase |
| TxRing.FullTest | server/RTW88Server.cpp:839-842 | the next write index meets the read index exactly when only the spare slot is free |
| TxMachine.FitsSlot | server/RTW88Server.cpp:826-836 | a request is accepted by size exactly if it is at least a header long and its finished slot, TX descriptor included, is no longer than a slot |
| TxMachine.BdCovers | server/RTW88Server.cpp:878-887 | the page count is the least number of 128-byte pages that hold TX descriptor and frame, and the two buffers are those two parts of the slot |
| TxMachine.ClaimedIsFree | server/RTW88Server.cpp:839-842 | the slot being written, chosen under a read index that may be stale, is never one of the unread slots |
| TxMachine.UnreadUntouched | server/RTW88Server.cpp:845-887 | storing anything in that slot or its descriptor leaves every unread frame as it is |
| TxMachine.ReadKeeps | server/RTW88Server.cpp:824-934 | a hardware read at any point of a post fetches the oldest posted frame, complete |
| TxMachine.DoorbellKeeps | server/RTW88Server.cpp:889-891 | the doorbell shows the hardware one more slot, which is complete |
| TxMachine.EarlyDoorbellTears | server/RTW88Server.cpp:889-891 | rung before the stores it would not be: on a fresh ring every first request would then go out as something else |
| TxMachine.MachineRefines | server/RTW88Server.cpp:824-934 | for every interleaving of lock, sample, test, partial and final stores, doorbell and hardware reads, the run refines the queue run of its trace, and what has gone out is what the queue let go, in order |
| TxMachine.AirNumbered | server/RTW88Server.cpp:856-861 | the data frames on the air carry strictly increasing packet numbers, as a receiver reads them, while fewer than 2^48 are posted |
| BeRings.BeRing.Post | server/RTW88Server.cpp:845-893 | frame, descriptor and doorbell in that order, with any number of hardware reads between them, append the item to the queue |
| BeRings.BeRing.TxEthFrame | server/RTW88Server.cpp:824-893 | under any schedule of hardware reads, posts the encapsulated frame with the next packet number, or drops it when short, too long or the ring was full when sampled |
| BeRings.BeRing.TxActionFrame | server/RTW88Server.cpp:898-934 | posts a management frame in the same way without consuming a packet number, or drops it, also when the driver is not running |
| BeRings.BeRing.Hardware | server/RTW88Server.cpp:839-842 | whatever a producer is doing, what the hardware fetches at its read index is the oldest posted frame, byte for byte |
| Amsdu.DeAggregate | server/RTW88Server.cpp:1268-1291 | on every input the subframe loop ends, reads only inside the frame and yields the subframe sequence |
| Amsdu.DeliverMpdu | server/RTW88Server.cpp:1248-1303 | on every input the parser reads only inside the frame and delivers what the round trips below give |
| Amsdu.SubframesOfEncode | server/RTW88Server.cpp:1268-1291 | de-aggregating an aggregate (padded to four except possibly at the end, fewer than 14 bytes behind) gives exactly its frames, in order |
| Amsdu.AmsduRoundTrip | server/RTW88Server.cpp:1248-1303 | the same for a whole MPDU whose header ends where the Order bit implies, or at the other offset when nothing at the implied one looks like an A-MSDU |
| Amsdu.MisreadNeeds | server/RTW88Server.cpp:1256-1260 | the offset the Order bit wrongly implies looks like an A-MSDU only if the first subframe's organisation code, or its source address and length, carry the SNAP bytes in the right place |
| Amsdu.UsualAmsduSurvives | server/RTW88Server.cpp:1248-1303 | so an aggregate with organisation code 00-00-00 from an address not ending in AA-AA is delivered exactly, with or without HT Control and whatever the Order bit says |
| Amsdu.AmsduExactly | server/RTW88Server.cpp:1248-1303 | for any aggregate whose two readings begin with different addresses and a subframe of at most 1600 payload bytes: it is delivered if and only if the header ends where the Order bit implies or nothing there looks like an A-MSDU |
| Amsdu.MsduRoundTrip | server/RTW88Server.cpp:1228-1303 | an ordinary MPDU (QoS or not, protected or not, with or without HT Control) gives exactly addr1, addr3, type and payload unless the Order bit is wrong about HT Control and SNAP bytes stand where it says; payloads over 1600 bytes give nothing |
| AmsduFields.AggregateDelivered | server/RTW88Server.cpp:1228-1303 | a QoS data MPDU written field by field, with the A-MSDU bit, any TID, optional HT Control and the CCMP header its Protected bit announces, is delivered subframe by subframe when the Order bit is right about HT Control or the first subframe is an ordinary one |
| Gf256.Mul | crypto/rtw_crypto.c:144-149 | the shift-and-add loop computes Gmul, which the next row identifies |
| Gf256.GmulIsProduct | crypto/rtw_crypto.c:143-149 | the result differs from the product of the two polynomials over GF(2) by a multiple of x^8 + x^4 + x^3 + x + 1, for every byte and every factor |
| Gf256.GmulXor | crypto/rtw_crypto.c:143-149 | multiplication by a constant is linear |
| Gf256.MixColumnInverse | crypto/rtw_crypto.c:185-226 | the mixing matrices of encryption and decryption are inverse on every column, both ways |
| Aes.AesInverse | crypto/rtw_crypto.c:171-226 | for every key and block, decryption undoes encryption and encryption undoes decryption |
| SBoxLaw.SBoxIsInverse | crypto/rtw_crypto.c:121-137 | undoing the affine map of FIPS 197 section 5.1.1 on an S-box entry leaves the multiplicative inverse of the byte in GF(2^8), and 0 for 0 |
| SBoxLaw.Affine | crypto/rtw_crypto.c:121-137 | the map undone there is the affine map as the standard writes it |
| Aes.RconPowers | crypto/rtw_crypto.c:154-154 | the round constants are the successive powers of x |
| AesVector.Example | crypto/rtw_crypto.c:152-226 | the block of FIPS 197 appendix C.1 encrypts and decrypts as printed there |
| AesArrays.BuildRsbox | crypto/rtw_crypto.c:139-141 | the built table inverts the S-box at every byte |
| AesArrays.Expand | crypto/rtw_crypto.c:152-167 | the 176 bytes are the 44 words of the key schedule |
| AesArrays.EcbEncrypt | crypto/rtw_crypto.c:171-197 | the array code computes the cipher, also when input and output are one buffer |
| AesArrays.EcbDecrypt | crypto/rtw_crypto.c:199-226 | the array code computes the inverse cipher, also in place |
| AesArrays.Tables.DecryptBlock | crypto/rtw_crypto.c:199-203 | decryption is right whether or not the inverse table was built before |
| KeyWrap.UnwrapWrap | core/wpa.c:75-96 | unwrapping an RFC 3394 wrap returns the plaintext, for every key and every positive number of blocks |
| KeyWrap.WrapUnwrap | core/wpa.c:75-96 | whatever is accepted is the wrap of what is returned |
| KeyWrap.WrapIsTrace | core/wpa.c:75-96 | the wrap that is undone is the numbered one of RFC 3394 section 2.2.1: six times through the registers from initial value A6..A6, the step number exclusive-ored into the last byte of A |
| KeyWrap.AesUnwrap | core/wpa.c:75-96 | the nested loops over `a`, `r` and `b` compute that unwrap; 0 and an untouched buffer on every failure |
| Sha1.BlockInto | crypto/rtw_crypto.c:21-44 | the block function is the FIPS 180-4 compression |
| Sha1.Sha1Ctx.Update | crypto/rtw_crypto.c:52-62 | the context stands for the message so far followed by the new bytes |
| Sha1.Sha1Ctx.PadTo56 | crypto/rtw_crypto.c:69-69 | the padding loop ends after exactly the missing zero bytes |
| Sha1.Sha1Ctx.Final | crypto/rtw_crypto.c:64-75 | writes the digest of the padded message, for messages below 2^61 bytes |
| Sha1.HashParts | crypto/rtw_crypto.c:46-75 | for every split of a message into updates the result is the one-shot digest |
| ShaVector.DigestAbc | crypto/rtw_crypto.c:21-75 | the digest of "abc" is the one printed for FIPS 180-4 |
| Hmac.HmacInto | crypto/rtw_crypto.c:79-90 | computes HMAC, also when message and output are one buffer |
| Hmac.HmacIs | crypto/rtw_crypto.c:79-90 | that is the hash of outer pad and inner hash, where byte by byte the key (its hash if over 64 bytes), then zeros, is exclusive-ored with 0x36 inside and 0x5c outside |
| Hmac.TsPrefix | crypto/rtw_crypto.c:94-116 | a longer PBKDF2 output extends a shorter one |
| Hmac.Pbkdf2Block | crypto/rtw_crypto.c:106-111 | one block is the exclusive or of U_1 to U_c |
| Hmac.Pbkdf2Is | crypto/rtw_crypto.c:94-116 | a 32-byte key is block 1 and twelve bytes of block 2, each byte the exclusive or of an HMAC chain that begins with the salt and 00000001 or 00000002 |
| Hmac.Pbkdf2Sha1 | crypto/rtw_crypto.c:94-116 | fills any output length with the RFC 8018 key; the salt counts up to 64 bytes and zero iterations act as one |
| Hmac.PrfInto | core/wpa.c:37-54 | fills any output length with the 802.11 pseudo-random function |
| Eapol.PtkSymmetric | core/wpa.c:56-66 | the pairwise key does not depend on which side names itself first |
| EapolWire.PtkIsStandard | core/wpa.c:56-66 | the pairwise key is the first 48 bytes of the HMAC blocks 0, 1 and 2 over "Pairwise key expansion", a zero byte, the smaller address, the larger, the smaller nonce, the larger, and the block's number |
| EapolWire.PtkParts | core/wpa.c:309-310 | KCK is the first 16 bytes of block 0, KEK its last four and twelve of block 1, TK the other eight and eight of block 2 |
| EapolWire.LessIsBefore | core/wpa.c:60-63 | memcmp's order is the order of the first byte in which two texts differ |
| Handshake.Derive | core/wpa.c:56-66 | the seed ordered by memcmp gives that key |
| Eapol.EapolMic | core/wpa.c:242-252 | computes the MIC over the frame with the MIC field zeroed and leaves the frame as it was |
| Eapol.WithMicVerifies | core/wpa.c:242-276 | a frame given its MIC verifies |
| Eapol.BuildEapolKey | core/wpa.c:255-276 | builds the frame field by field with a MIC that verifies |
| Eapol.KeyFrameFields | core/wpa.c:255-276 | replay counter and nonce are read back from a built frame, and it verifies |
| EapolWire.Message2Is |  core/wpa.c:255-276 | message 2 is, byte for byte, the EAPOL-Key frame with key information 010a, our nonce, the RSN element and the MIC over it with the MIC field zero |
| EapolWire.Message4Is | core/wpa.c:255-276 | message 4 is the frame with key information 030a, no nonce and no key data |
| EapolWire.ReadsWire | core/wpa.c:126-142 | from any frame of that layout the supplicant reads the fields that were written |
| EapolWire.InfoBits | core/wpa.c:337-375 | a frame counts as having a MIC exactly by bit 8, and as pairwise exactly by bit 3, of its key information |
| Eapol.ParseGtkKde | core/wpa.c:101-121 | on every key data the scan ends, stays inside, and returns the first group key element |
| Eapol.ExtractGtk | core/wpa.c:126-142 | returns a group key exactly when length, unwrap, element and the 16-byte minimum allow |
| Handshake.GtkSize | core/wpa.c:126-142 | a usable group key has 16 to 32 bytes and came in 16 to 256 bytes of key data, a multiple of eight |
| Handshake.Supplicant.AttemptM3 | core/wpa.c:331-354 | one attempt: silence resends message 2, a frame without MIC is answered under its own counter, a wrong MIC is ignored |
| Handshake.Supplicant.WaitM3 | core/wpa.c:329-354 | finds the first verified frame if it comes before 8 silences and within 30 attempts; otherwise stops exactly at the 8th silence or the 30th attempt |
| Handshake.GivesUpOnce | core/wpa.c:329-330 | the received frames determine the one point at which the loop gives up, so the number of attempts and of resent messages on failure |
| EapolWire.RepeatAnswered | core/wpa.c:337-343 | a frame without the MIC bit is answered by a message 2 under its own replay counter, and nothing is sent for a frame with it |
| EapolWire.SilenceAnswered | core/wpa.c:332-336 | a silence is answered by message 2 under the counter of the latest message 1 |
| EapolWire.GroupFramePassedOver | core/wpa.c:374-375 | after success a frame without the pairwise bit gets no answer |
| Handshake.SilenceGivesUp | core/wpa.c:329-354 | after message 1 and eight silent attempts it gives up, having sent nine messages 2 |
| Handshake.FloodGivesUp | core/wpa.c:329-354 | under frames that never verify and no silence it gives up after thirty attempts |
| Handshake.RepeatsConfirmed | core/wpa.c:366-385 | three repeats of message 3 right behind it get message 4 four times in all |
| Handshake.Supplicant.AnswerRepeats | core/wpa.c:371-385 | answers each verified pairwise repeat among the next three receives with message 4, up to a silence |
| Handshake.Supplicant.Conclude | core/wpa.c:355-395 | the group key installed is the one in the deciding frame, or nothing is installed |
| Handshake.Supplicant.Run | core/wpa.c:279-413 | for every sequence of received frames: the return code, the installed keys and every frame sent are determined; keys are installed only for a frame verified under the derived key that holds a group key of at least 16 bytes; at most 34 receives; all keys end zeroed |
| Handshake.AnswersProper | core/wpa.c:305-343 | every message 2 is authenticated under the session key and echoes a counter received before |
| Handshake.ConfirmationProper | core/wpa.c:366-385 | so is every message 4 |
| Interop.FindGtkSkips | core/wpa.c:101-121 | the scan skips any other elements and finds the group key element behind them, of whose key at most 32 bytes are used |
| Interop.FindGtkEnds | core/wpa.c:101-121 | it ends without a key at type 0 and at an element that is cut off |
| Interop.Message3Accepted | core/wpa.c:101-142 | a message 3 the authenticator builds from its own view, with the standard's division of the key and layout of the frame, is verified by the supplicant and yields exactly the group key it carries |
| Interop.Join | core/wpa.c:279-413 | a supplicant that hears message 1, and within its budget and with nothing verified before it the authenticator's message 3, returns 0 and installs exactly the authenticator's temporal key and group key |
| PhyTable.ParseTable | core/phy.c:194-221 | the two-flag loop applies what the step-by-step interpreter applies, for every table |
| PhyTable.InterpretBranches | core/phy.c:194-221 | a chain of branches applies the body of the first that matches and nothing else |
| PhyTable.InterpretPreservesMeaning | core/phy.c:182-221 | interpreting the flattening of any structured program applies exactly the entries it means, in order, and ends outside any branch |
| PhyTable.OneCondition | core/phy.c:182-192 | a one-condition chain applies exactly to the chips with its front-end type whose interface, package and cut equal the condition's or are zero there |
| PhyTable.TableChainApplies | core/phy.c:168-221 | the chain 80001004 / 90001005 / else of the driver's tables (core/upstream/rtw8821c_table.c:154) applies its parts to front end 4, front end 5 (package 1, any cut) and all other chips |
| Efuse.CopyWords | core/efuse.c:107-116 | the inner loop copies the enabled words and stops with an error at the first that does not fit |
| Efuse.DumpLogicalMap | core/efuse.c:82-119 | for every physical map the decoder ends, stays inside both maps and computes the specified scan |
| Efuse.DecodeEncode | core/efuse.c:74-119 | decoding an encoded section list that fits gives at each address the last section's byte, and 0xff where none wrote |
| Efuse.ScanParses | core/efuse.c:74-119 | conversely every map the decoder accepts is an encoding of readable, in-range sections, whose overlay it returns |
| Efuse.DecodedMap | core/efuse.c:136-137 | hence on a blank map every byte that is not 0xff was written by a section of the physical map |
| Efuse.HeaderReads | core/efuse.c:74-79 | one- and two-byte headers are read back as block and enabled words, exactly for the sections they can announce |
| Efuse.ShortSection | core/efuse.c:74-119 | header 1d writes the two bytes behind it to logical addresses 10 and 11 |
| Efuse.WideSection | core/efuse.c:74-119 | header 2f 1e writes the two bytes behind it to logical addresses 72 and 73 |
| Text.TrimBuffer | client/config.c:53-59 | trimming in place yields the trimmed text |
| Config.SetUpdates | client/config.c:151-159 | for names of any length, saving changes what the list says of the name it is kept under and of no other, moves no entry, and fails only for an empty name or for a new name on a full list |
| Config.ForgetRemoves | client/config.c:162-172 | forgetting removes one name, keeps the others and fails only for an unknown name |
| Config.SetKeepsDistinct | client/config.c:39-51 | names stay pairwise distinct if and only if the name fits its field or its first 32 bytes are not saved |
| Config.LongNameSavedTwice | client/config.c:39-51 | an input that breaks it: a 33-byte name saved twice gives two entries of one name |
| ConfigFile.PrintIpInverse | client/config.c:177-178 | a printed address is read back, for all 2^32 addresses |
| ConfigFile.PrintIpIs | client/config.c:177-178 | it is printed as four decimal numbers, the highest byte first |
| ConfigFile.QuadsReadPrinted | client/config.c:85-89 | a reader of dotted quads meets all that the round trip asks of inet_aton |
| ConfigFile.SettingReads | client/config.c:122-131 | a written setting is read as its key and value, whatever characters the value contains between its ends |
| ConfigFile.LongSetting | client/config.c:122-131 | in any line a key is cut to 63 characters and a value to 255 before they are trimmed |
| ConfigFile.LongLine | client/config.c:117-121 | a longer line is read in pieces of 511 characters |
| ConfigFile.BandWords | client/config.c:72-84 | the words 2.4, 5 and both select the band they name, and scan and eth the mode |
| ConfigFile.AddressKeys | client/config.c:103-106 | ip, netmask, gateway and dns set the address they name and nothing else |
| ConfigFile.PasswordGoesToLast | client/config.c:94-100 | for every list and name: the password reaches the named network if and only if it is saved last, or is new, has at most 32 bytes and finds room (or had that password already); when the name is known or the list is full the last entry's passphrase is overwritten, and a longer new name gets its own entry under its first 32 bytes |
| ConfigFile.EntryAnswers | client/config.c:94-100 | for every list, name and queried name, what the list answers after a network line and a password line |
| ConfigFile.WrongNetworkGetsPassword | client/config.c:117-138 | an input that shows it: with A and B saved, loading a new password for A changes B's |
| ConfigFile.SeventeenthOverwrites | client/config.c:117-138 | of any file with sixteen good networks and one more, the seventeenth is refused and its passphrase replaces the sixteenth's |
| ConfigFile.SeventeenNetworks | client/config.c:117-138 | such a file |
| ConfigFile.LoadSave | client/config.c:117-215 | loading a saved file into fresh settings restores networks, order, passphrases, band and addresses, whatever inet_aton does with texts inet_ntoa does not print |
| ConfigFile.SurvivesExactlyClean | client/config.c:117-215 | a saved network whose name and passphrase fit their fields is read back unchanged if and only if neither holds a line end, begins with a blank or ends with white space |
| ConfigStore.RunKeeps | client/config.c:151-172 | every run of set and forget keeps names distinct, on one line and within their fields, and at most 16 entries |
| ConfigStore.RunRoundTrip | client/config.c:117-215 | after every such run, saving and loading gives the same settings |
| ConfigStore.RunAnswers | client/config.c:31-36 | after every run of set and forget, full list or not, every lookup answers as a map from names to passphrases that refuses only the empty name, or a new name when sixteen are known |
| ConfigStore.WifiConfig.AddNetwork | client/config.c:39-51 | returns the entry of a known name unchanged, else appends an empty one, else (16 entries) fails and changes nothing; all other settings keep their values |
| ConfigStore.WifiConfig.SetNetwork | client/config.c:151-159 | the table after saving is the list whose lookups `Config.SetUpdates` characterises; on failure nothing changes |
| ConfigStore.WifiConfig.ForgetNetwork | client/config.c:162-172 | shifting the later entries down leaves the list without that entry, in order; an unknown name changes nothing |
| ConfigStore.WifiConfig.ApplySetting | client/config.c:92-109 | accepts exactly the known keys with valid values, and changes only the setting named |
| ConfigStore.WifiConfig.LoadText | client/config.c:117-138 | the loop over lines of at most 511 bytes has the effect of applying each setting in order, for every text |
| ConfigStore.WifiConfig.SaveConfig | client/config.c:184-207 | prints exactly the text that `ConfigFile.LoadSave` proves loads back |
| Json.JsonStr | client/rtwd.c:137-150 | for every capacity the escaped string is cut so that no write passes the end, and otherwise complete |
| Json.Append | client/rtwd.c:151-157 | appends the text, cutting it at the capacity with a zero byte |
| Json.JsStr | client/main.c:32-49 | the copying loop decodes the value into any buffer, with its zero byte |
| Json.UnescapeEscape | client/main.c:40-46 | decoding an escaped name gives the name without control characters other than the line end |
| Json.EscapesAre | client/rtwd.c:137-150 | quotes and backslashes are escaped by a backslash and a line end as \n, and read back so |
| Json.AfterRender | client/main.c:34-37 | searching a line of fields finds the first field with the key and never text inside a string value |
| NetReply.WriteLine | client/rtwd.c:180-194 | the 512-byte buffer always holds the whole line and its zero byte |
| NetReply.LineFormat | client/rtwd.c:180-194 | that line begins as the first format and ends as the parts the next three rows spell |
| NetReply.StringFormats | client/rtwd.c:188-193 | the BSSID and band fields as the format spells them, 2.4 up to channel 14 and 5 above |
| NetReply.NumberFormats | client/rtwd.c:188-193 | the channel and beacon fields |
| NetReply.FlagFormats | client/rtwd.c:188-193 | the two flags |
| NetReply.MacReads | client/rtwd.c:189-191 | each byte of the address stands as two hexadecimal digits, the high one first, with colons between |
| NetReply.Located | client/main.c:32-65 | for every network name the search for a key lands on the daemon's own field |
| NetReply.NotLocated | client/main.c:50-65 | a key the daemon did not write is absent, whatever the network is called |
| NetReply.ScanLineReads | client/main.c:128-151 | the scan callback reads back name, BSSID, band, channel, beacons and both flags |

## Left out

- RxRuns.TidsIndependent: the receive thread is run on frames a receive ring slot can hold (11520 bytes, core/trx.c:42-47), all of which fit a reorder slot (12288).
- RxEngines.RxEngine.RxFrame: the eight windows are a sequence of objects, as the source embeds them in one; releasing them all when the interface stops (server/RTW88Server.cpp:1137-1145) and the loss counters are not modelled.
- BlockAck.InPlayIsSafe: assumes that frames fit a slot, that no hole times out and that arriving numbers are within 2048 of the head; a timeout gives up on numbers in play by design.
- KeyWrap.AesUnwrap: takes at most 32 blocks, the size of the register buffer; the caller admits 256 bytes (core/wpa.c:130).
- Hmac.PrfInto: takes label and seed of at most 126 bytes together, the size of its input buffer.
- Handshake.Supplicant.Run: what one receive call yields is an input; the ring scan in core/wpa.c:166-222, the constant 802.11 header in front of sent frames, and wiping the local buffers are not modelled. The session nonce is an input.
- BeRings.BeRing.Post: descriptor words other than lengths and addresses are zero, and pool addresses are a slot and an offset. The barrier and the order of the stores appear as the order of the steps; the lock is what lets only one producer be between its first and last step.
- TxMachine.AirNumbered: the packet counter is unbounded; above 2^48 the header repeats, as `TxFrames.PnRecovered` says.
- Text.TrimBuffer: length and contents are separate, where the C code ends the text with a zero byte.
- ConfigFile.LoadSave: inet_aton is not part of this model; it is a parameter, and all the theorem asks of it is that it reads what inet_ntoa prints.
- ConfigStore.WifiConfig.SaveConfig: the temporary file, its mode and the rename are not modelled; the mode setting is not saved by the source.
- NetReply.WriteLine: formatting is modelled by its result; the lock around the lookup is not.
- Timestamps are unbounded numbers; statistics counters and log lines are not modelled.
- IOKit, PCI, mbuf and interrupt handling, and register sequences (power, MAC, channel, coexistence, firmware download): foreign calls or straight-line writes to hardware.
- Scanning and association frames, the auto-connect policy, sockets and the user interface: polling and I/O around the modelled parts.
- PhyTable.ParseTable: the driver's own condition (core/phy.c:168-180) is a parameter, so the theorems hold for every chip cut, package and front-end type.
- What a PHY table entry writes and its delays (core/phy.c:128-158), and the fields taken from the logical EFUSE map.

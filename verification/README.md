# A verified model of the rtl8821au driver core

This project models six parts of an 802.11ac USB wireless driver in Dafny and
proves what they promise over all inputs and all runs.

- **Receive reorder buffer** (`Reorder`, `ReorderRefinement`, `ReorderRuns`):
  the A-MPDU window over 12-bit sequence numbers refines a window over unbounded
  integers; order, conservation, timer and progress are proved for every run of
  arrivals and expiries. `Amsdu` and `Defrag` cover A-MSDU splitting and
  reassembly of fragments.
- **Software crypto** (`Ccmp`, `CcmpFrames`, `CcmpBlocks`, `TkipMix`,
  `TkipKeys`, `Crc32`, `CrcLaws`, `Rc4`, `Rc4Runs`, `Fragments`, `Michael`,
  `MichaelLaws`): sealing and opening in place; CCMP byte by byte from its
  counter blocks and the MAC of RFC 3610; key mixing as a bijection, as two
  shift registers, and as a function of the temporal key; the CRC table against
  the shift register; RC4 against the history of its permutation; Michael
  against its word-wise definition and two test vectors. The AES block function
  and the TKIP S-box are parameters, so the results hold for any of them.
- **Station join** (`Join`, `JoinRuns`, `JoinReports`): the handlers change a
  word of state bits flag by flag; each is proved to make one step of a phase
  machine, and the safety, timer, reporting and termination results are about
  every run of it.
- **Efuse log** (`EfuseLog`, `EfuseWrite`, `EfuseCells`, `EfuseEffect`, `Efuse`):
  packets in one-time programmable cells, the read-out, the size scan and the
  packet writer, for chips of any size, with the exact condition under which a
  write shows in the map, whatever size the driver has kept. The sizes of this
  chip are the constant `JAGUAR` (include/rtl8812a_hal.h:127-140).
- **Information elements** (`Ie`, `IeParse`, `IeEdit`): printer, searcher,
  parser and in-place remover.
- **Command queue** (`CmdQueue`): a small concurrent protocol as a state
  machine over its critical sections and semaphore operations.

`Buffers` holds the shared notions of a byte and of a write into a buffer,
`Bits` exclusive-or of numbers, `Counting` the pigeonhole principle for byte
strings.
State the driver updates in place is a class or an array; every such method is
specified by a function on values, and the laws are lemmas about that function.
`dafny verify dfyconfig.toml` checks the whole project.

Properties that turned out not to hold of the code, each with an input and the
exact condition under which the code does meet it:

- CCMP: a QoS frame sealed with a header length that `aes_cipher` adjusts is in
  general not restored, because `aes_decipher` reads the packet number before
  adjusting the length; with a payload of a block or more no cipher under any key
  restores it. And a frame longer than the scratch buffer of 2048 bytes is judged
  by what the buffer held before, so that it can be refused. Sealed frames are
  opened whatever the buffer holds exactly when neither is the case
  (`Ccmp.RoundTripExactly`, `Ccmp.RoundTripExactlyFor`; inputs:
  `Ccmp.QosFrameIsNotRestored`, `Ccmp.LongFrameIsNotOpened`).
- CCMP: the fragment number is not authenticated, although the standard has it
  in the additional authentication data: frames that differ in nothing but the
  sequence control field are accepted or refused together
  (`CcmpBlocks.SequenceControlIsNotCovered`). Which fields are covered is an
  if-and-only-if (`CcmpBlocks.HeaderBlocksTell`).
- A-MSDU: an empty last MSDU at the very end of the frame is dropped
  (`Amsdu.RoundTripExactly`; input: `Amsdu.EmptyLastIsDropped`).
- Defragmentation: sequence numbers are not compared, so fragments of different
  messages are joined. The driver hands on what a receiver would that compares
  them exactly when the consecutive fragments it joins do not differ in sequence
  number (`Defrag.JoinsOneMessageExactly`; input:
  `Defrag.DifferentMessagesAreJoined`).
- Join: a join command for a network with neither capability bit cancels the
  timer of a join under way and leaves it stranded (`JoinRuns.TimerGuardsExactly`;
  input: `JoinRuns.CaplessJoinStrands`).
- Join: a join command that starts nothing still replaces the target of the join
  under way, so the beacon, and the network a link is recorded with, may not be
  the joined one (`JoinRuns.LinkIsToTheJoinedNetworkExactly`; inputs:
  `JoinRuns.RefusedJoinRedirects`, `JoinRuns.RefusedJoinRelabelsLink`).
- Efuse: a write may not show: it is swallowed by a blank packet that a later one
  hides, or words left over from a blank packet go where the kept size leads,
  which after every read-out is not the end of the log. The condition can be
  checked on the cells as they are before the write
  (`EfuseEffect.WriteWorksExactly`; inputs: `EfuseEffect.BlankPacketSwallowsWrite`,
  `EfuseEffect.SecondWordIsLost`).
- Information elements: an element shorter than the OUI can be removed because
  the bytes behind it complete the comparison, be they elements or what lies
  behind the list (`IeEdit.RemovalFiltersExactly`; inputs:
  `IeEdit.ShortElementIsRemoved`, `IeEdit.LastShortElementIsRemoved`).

How the code's words are represented: CRC registers are their 32 bits, lowest
first, so `crc32_reverseBit` and the byte swap of the table are one reversal of
the word (`Crc32.StoredReversed`); Michael and CCMP work on machine words and
bytes; 16-bit TKIP words and RC4 bytes are integers with explicit wrap-around
and an exclusive-or bit by bit (`Bits.XorAddsBits`); the state word of the join
keeps its bits.

## Model

| member | source | states |
|---|---|---|
| `Reorder.RecvReorderCtrl.CheckIndicateSeq` | core/rtw_recv.c:1958-2012 | both wrap branches compute the window start `WindowAfter`; a frame behind the window changes nothing |
| `Reorder.PastWindowEnd` | core/rtw_recv.c:1961-2006 | on the circle, behind the window end means at least `wsize` ahead of its start, and the two branches for a wrapping start are one subtraction modulo 4096 |
| `Reorder.RecvReorderCtrl.EnqueueReorder` | core/rtw_recv.c:2015-2079 | sorted insertion in place, refused exactly on a duplicate |
| `Reorder.RecvReorderCtrl.IndicateInOrder` | core/rtw_recv.c:2082-2206 | the drain loop, plain or forced, leaves the block `Drain` describes and says whether anything is still buffered |
| `Reorder.RecvReorderCtrl.RecvReorder` | core/rtw_recv.c:2278-2335 | one arrival is exactly `Receive`, the step every run result is about |
| `Reorder.RecvReorderCtrl.TimeoutHandler` | core/rtw_recv.c:2338-2361 | one timer expiry is exactly `Expire` |
| `Reorder.RecvReorderCtrl.constructor` | core/rtw_mlme.c:1197-1205 | a session starts disabled, with no sequence number, no window end, an empty queue and a window of 64 |
| `ReorderRefinement.WindowCommutes` | core/rtw_recv.c:1958-2012 | the 12-bit window moves as the integer window does: dropped, by one, not at all, or to n + 1 - wsize, through every wrap |
| `ReorderRefinement.InsertCommutes` | core/rtw_recv.c:2015-2079 | comparing 12-bit numbers sorts and finds duplicates as comparing the integers does |
| `ReorderRefinement.DrainCommutes` | core/rtw_recv.c:2104-2190 | draining on the circle passes up what draining on the line does |
| `ReorderRefinement.ReceiveCommutes` | core/rtw_recv.c:2278-2323 | each arrival is accepted or refused, and changes the block, as over unbounded integers |
| `ReorderRefinement.ExpireCommutes` | core/rtw_recv.c:2338-2361 | the same for each expiry |
| `ReorderRefinement.ReceiveRule` | core/rtw_recv.c:2278-2323 | an accepted frame is the only one to join; the window moves just far enough; exactly the frames before the first missing number go up, in order |
| `ReorderRefinement.RunRefines` | core/rtw_recv.c:1958-2361 | every run on 12-bit numbers is the image of a run on integers in which everything delivered is strictly increasing and below everything pending |
| `ReorderRuns.DeliveredInSenderOrder` | core/rtw_recv.c:2082-2361 | over any number of wraps, frames go up in strictly increasing order of the sender's numbers when each arrives within half a turn of the window |
| `ReorderRuns.PendingAlwaysWellQueued` | core/rtw_recv.c:1958-2335 | after every run the queue is sorted, duplicate-free, within 1 to wsize - 1 ahead of the start, shorter than wsize, and timed unless empty |
| `ReorderRuns.EveryTakenFrameIsHeldOnce` | core/rtw_recv.c:2278-2335 | every accepted frame is pending or delivered exactly as often as it was accepted, and nothing else is |
| `ReorderRuns.RefusedFrameChangesNothing` | core/rtw_recv.c:2281-2310 | a frame refused as old or as a duplicate never moves the window |
| `ReorderRuns.ExpiryDelivers` | core/rtw_recv.c:2104-2117 | an expiry with frames pending delivers at least one |
| `ReorderRuns.ExpiriesEmptyTheQueue` | core/rtw_recv.c:2338-2361 | with no arrivals, as many expiries as frames pending empty the queue and deliver everything held |
| `Amsdu.AmsduToMsdu` | core/rtw_recv.c:1889-1940 | the loop over the aggregate finds `Split` of it on any bytes, or the part for which packets can be allocated, every read checked against the body |
| `Amsdu.RoundTripExactly` | core/rtw_recv.c:1889-1940 | subframes laid out with padding and up to 14 trailing bytes are recovered exactly when they fit the table and do not end in an empty MSDU at the end of the frame |
| `Amsdu.EmptyLastIsDropped` | core/rtw_recv.c:1889-1896 | one subframe with an empty MSDU and nothing behind it is not recovered |
| `Amsdu.EncodingIsAligned` | core/rtw_recv.c:1896-1936 | lengths are big-endian at bytes 12 and 13, and the next subframe lies on the next multiple of four |
| `Amsdu.SplitFitsBody` | core/rtw_recv.c:1894-1940 | on arbitrary bytes the pieces with their headers never add up to more than the body |
| `Defrag.DefragQueue.RecvframeDefrag` | core/rtw_recv.c:1687-1769 | the queue is emptied; consecutive fragments join to header, bodies and last ICV, anything else is refused |
| `Defrag.DefragQueue.ChkDefrag` | core/rtw_recv.c:1772-1874 | one arrival queues, hands back or finishes as `NextQueue` and `Yield` say; without a queue fragments are dropped; what comes out has passed the MIC check |
| `Defrag.MessageExactly` | core/rtw_recv.c:1772-1874 | after any history, whole frames between the fragments included, a closing fragment yields a message exactly when it and the fragments before it are numbered 0 to n, and then precisely those make it up |
| `Defrag.JoinsOneMessageExactly` | core/rtw_recv.c:1687-1874 | after any history, a fragment makes the driver hand on what a receiver that keeps sequence numbers apart would, exactly when the fragments joined are not consecutive ones of different sequence numbers |
| `Defrag.DifferentMessagesAreJoined` | core/rtw_recv.c:1707-1757 | two fragments with different sequence numbers, 0 and 1, are joined into one message, and are a case of that condition |
| `CcmpFrames.AesCipher` | core/rtw_security.c:1311-1497 | sealing in place produces `Seal` of the frame |
| `CcmpFrames.AesDecipher` | core/rtw_security.c:1603-1865 | opening in place leaves `OpenFrame` and succeeds exactly as `Verdict` says: by the tag of the opened frame, or of what the scratch buffer held before when the frame is too long for it |
| `CcmpFrames.RunMac` | core/rtw_security.c:1417-1436 | the block loop with its padded tail is the CBC-MAC |
| `CcmpFrames.RunCtr` | core/rtw_security.c:1443-1476 | the block loop with its short tail is counter mode over the whole payload |
| `Ccmp.CtrTwice` | core/rtw_security.c:1685-1727 | counter mode twice from the same block is the identity |
| `Ccmp.RoundTripExactly` | core/rtw_security.c:1603-1865 | opening restores and accepts what was sealed, under every injective block function and whatever the scratch buffer holds, exactly when the frame fits that buffer and the payload is empty or the packet number reads the same at both header lengths |
| `Ccmp.RoundTripExactlyFor` | core/rtw_security.c:1603-1865 | for a payload of a block or more the same holds of each injective block function by itself |
| `Ccmp.LongFrameIsRefused` | core/rtw_security.c:1725-1865 | any frame too long for the scratch buffer is refused for some contents of it, under each injective block function |
| `Ccmp.LongFrameIsNotOpened` | core/rtw_security.c:1725-1865 | a data frame of 2049 bytes, its packet number the same at both lengths, that each cipher and key refuses for some contents of the buffer |
| `Ccmp.DifferentPacketNumberBreaks` | core/rtw_security.c:1641-1673 | whenever the two packet numbers differ, a payload of a block or more comes back wrong under every injective block function |
| `Ccmp.QosFrameIsNotRestored` | core/rtw_security.c:1641-1673 | a four-address QoS frame, header length 32, whose payload no cipher under any key restores |
| `Ccmp.UnadjustedIsSafe` | core/rtw_security.c:1647-1673 | frames that are not QoS, and header length 26, are on the safe side |
| `Ccmp.AcceptsExactlySealed` | core/rtw_security.c:1311-1865 | for any block function and any contents of the scratch buffer, the frames accepted among those that fit it are exactly those sealing can produce, and the opened frame seals back to the one received |
| `Ccmp.AlwaysAcceptedExactly` | core/rtw_security.c:1603-1865 | with a payload of a block or more a frame is accepted whatever the scratch buffer holds exactly when it fits the buffer and is one sealing can produce |
| `CcmpBlocks.CounterShows` | core/rtw_security.c:1289-1290 | a counter block tells its counter modulo 2^16 |
| `CcmpBlocks.MasksDiffer` | core/rtw_security.c:1443-1497 | under any cipher the masks of a frame of fewer than 65536 blocks, the tag's included, are pairwise different |
| `CcmpBlocks.MicIvIsNoCounter` | core/rtw_security.c:1152-1290 | no first block of a MIC is a counter block, of whatever frames |
| `CcmpBlocks.HeaderBlocksTell` | core/rtw_security.c:1141-1253 | the three header blocks of two frames are the same exactly when lengths, packet numbers and every field listed in `Fields` are |
| `CcmpBlocks.SequenceControlIsNotCovered` | core/rtw_security.c:1226-1228 | frames that differ at most in sequence control open to the same payload and are accepted or refused together |
| `CcmpBlocks.MicIsMac` | core/rtw_security.c:1405-1436 | the MIC is the first half of the CBC-MAC, as RFC 3610 defines it, over the header blocks and the zero-padded payload |
| `CcmpBlocks.OneBlockShows` | core/rtw_security.c:1405-1436 | under any cipher, changing any one authenticated block changes the MAC |
| `CcmpBlocks.SealedBytes` | core/rtw_security.c:1311-1497 | a sealed frame is the frame with byte r of payload block q masked from counter block 1 + q, the MAC masked from counter block 0 behind it, and nothing else changed |
| `CcmpBlocks.QosByTopBits` | core/rtw_security.c:1667-1672 | the QoS branch is taken exactly on subtypes whose two highest bits are 1 and 0 |
| `TkipMix.Phase1` | core/rtw_security.c:551-598 | phase 1 in place is eight rounds over address and IV |
| `TkipMix.Phase2` | core/rtw_security.c:600-643 | phase 2 produces the packet key of the mixed words |
| `TkipMix.KeyRevealsPacket` | core/rtw_security.c:551-643 | for any S-box, transmitter, IV32 and IV16 can be read back from key bytes 4 to 15 by an explicit inverse of every step |
| `TkipMix.MixingIsInjective` | core/rtw_security.c:551-643 | under one temporal key two packets share key bytes 4 to 15 only if they are the same packet |
| `TkipMix.EveryTailIsReached` | core/rtw_security.c:551-643 | every twelve bytes are the key tail of some packet, so the mixing is a bijection |
| `TkipKeys.Phase1Exactly` | core/rtw_security.c:551-578 | for any S-box, phase 1 is the five-word shift register of eight rounds: the word five back, plus the S-box of the last word mixed with a key word, plus the round number in every fifth |
| `TkipKeys.Phase2Exactly` | core/rtw_security.c:600-626 | phase 2 is the six-word shift register of twelve steps through S-box, keyed rotation and rotation |
| `TkipKeys.RotationHalves` | core/rtw_security.c:606-626 | the rotation is halving modulo 2^16 - 1 |
| `TkipKeys.RoundTellsKey` | core/rtw_security.c:566-570 | for an injective S-box a round of phase 1 has the same result under two keys exactly when they share the four key words it uses |
| `TkipKeys.MixTellsKey` | core/rtw_security.c:610-615 | the S-box steps of phase 2 tell key words 0 to 5 |
| `TkipKeys.SweepTellsKey` | core/rtw_security.c:618-623 | the final sweep tells key words 6 and 7 |
| `TkipKeys.TailTellsKey` | core/rtw_security.c:600-643 | from one phase 1 output and one IV, two temporal keys that share words 6 and 7 or words 0 to 5 give the same key bytes 4 to 15 exactly when they are the same key |
| `TkipKeys.KeyHead` | core/rtw_security.c:629-634 | the first four key bytes: the low IV in the clear, a byte with bit 5 set and bit 7 clear, eight bits of the last word mixed with key word 0 |
| `Crc32.CrcTable.Crc32Init` | core/rtw_security.c:115-145 | the table is filled at the first call and holds `TableEntry` at every index from then on |
| `Crc32.ReverseBitReverses` | core/rtw_security.c:110-113 | the shifts and masks on a byte reverse its bits |
| `Crc32.StoredReversed` | core/rtw_security.c:133-138 | the four bytes stored, swapped and reversed, are the reversed word |
| `Crc32.TableEntryIsEightShifts` | core/rtw_security.c:126-138 | a table entry is eight reflected shifts of its index |
| `Crc32.TableStepIsEightClocks` | core/rtw_security.c:155-159 | one octet through the table is its eight bits clocked through the register, lowest first |
| `Crc32.ChecksumOf` | core/rtw_security.c:154-161 | with the table filled, the loop computes the checksum the bit-serial register with polynomial 0x04c11db7 defines, on every byte string |
| `Crc32.CrcTable.GetCrc32` | core/rtw_security.c:147-162 | the same from any state of the static table, first call or not |
| `CrcLaws.PolynomialIs` | core/rtw_security.c:36 | the polynomial has exactly the exponents of the standard |
| `CrcLaws.OneByteShows` | core/rtw_security.c:147-162 | changing any one byte of a message changes its checksum |
| `CrcLaws.ResidueExactly` | core/rtw_security.c:147-216 | the register over a message and four more bytes ends in one fixed residue exactly when these are its ICV, in the order it is sent |
| `Rc4.Arc4Context.constructor` | core/rtw_security.c:46-72 | the key schedule in place yields `Init` of the key, a permutation |
| `Rc4.Arc4Context.Encrypt` | core/rtw_security.c:94-104 | encrypting in place, also over its own source, is `Crypt` from the current context |
| `Rc4.SchedulePermutes` | core/rtw_security.c:57-70 | the state is a permutation after every step of the schedule, for every key |
| `Rc4.CryptPermutes` | core/rtw_security.c:73-91 | and after every run of the cipher |
| `Rc4.CryptInPieces` | core/rtw_security.c:94-104 | encrypting in pieces is encrypting the concatenation |
| `Rc4.CryptTwice` | core/rtw_security.c:94-104 | the same stream twice restores the data |
| `Rc4Runs.InitExactly` | core/rtw_security.c:46-72 | the state after the key schedule is the last of a history that starts from the identity and exchanges place n with the one the running index, the place and key byte n mod |key| lead to |
| `Rc4Runs.RunRevealsKey` | core/rtw_security.c:63-64 | every key byte can be read back from the indices and states of the schedule |
| `Rc4Runs.SameIndicesExactly` | core/rtw_security.c:57-70 | the schedules of two keys go through the same indices exactly when the keys, repeated over 256 places, are the same |
| `Rc4Runs.IndicesTellKeys` | core/rtw_security.c:57-70 | for keys of one length up to 256 that is when they are the same key |
| `Rc4Runs.NextGenerates` | core/rtw_security.c:73-91 | one step of the generator, with the key stream byte found in the state afterwards |
| `Rc4Runs.CryptExactly` | core/rtw_security.c:94-104 | the bytes produced are the data with the stream of such a history added |
| `Bits.XorAddsBits` | core/rtw_security.c:100-101 | bit i of an exclusive-or is the sum of the two bits modulo two |
| `Fragments.SealFragment` | core/rtw_security.c:212-216 | payload and ICV encrypted in two calls are the payload with its ICV under one stream, written in place |
| `Fragments.OpenFragment` | core/rtw_security.c:266-277 | decrypting in place leaves the opened body, and the comparison is the ICV check |
| `Fragments.PassesExactlyWhenSealed` | core/rtw_security.c:814-834 | the ICV passes exactly on bodies sealed with that key |
| `Fragments.TkipRoundTrip` | core/rtw_security.c:728-834 | with the same temporal key and transmitter the receiver derives the same seed from the frame, recovers the payload and accepts it |
| `Fragments.WepRoundTrip` | core/rtw_security.c:203-277 | the same for WEP with its IV and key |
| `Fragments.CrcGuardsFragments` | core/rtw_security.c:826-834 | with the CRC as ICV, what was sealed is delivered, and the comparison TKIP relies on passes only what was sealed |
| `Fragments.WepSeedTells` | core/rtw_security.c:203-209 | two WEP seeds are the same exactly when the IV in the frame and the key are |
| `Fragments.TkipCounter` | core/rtw_security.c:716-728 | the 48-bit counter is read from the frame's bytes in the order TSC1, TSC0, TSC2 to TSC5 |
| `Fragments.TkipSeedTells` | core/rtw_security.c:716-728 | under one temporal key two frames share a seed exactly when they share counter and transmitter |
| `Michael.MicData.Append` | core/rtw_security.c:341-375 | the state depends only on the concatenation of what was appended |
| `Michael.MicData.GetMic` | core/rtw_security.c:378-398 | the result is the word-wise Michael of everything appended, padded with 0x5a and four to seven zeros, and the state starts afresh |
| `Michael.AfterIsWords` | core/rtw_security.c:341-363 | byte-wise collection of whole words is word-wise mixing |
| `Michael.CalcTkipMic` | core/rtw_security.c:401-432 | the MIC covers destination, source, priority and data, the addresses chosen by the two DS bits |
| `Michael.CalcTkipMicWithBlock` | core/rtw_security.c:341-432 | the same with the driver's own mixing steps |
| `MichaelLaws.BlockInverse` | core/rtw_security.c:350-360 | for each word the block function is a bijection on (L, R), with an explicit inverse |
| `MichaelLaws.BlockTellsWord` | core/rtw_security.c:350-360 | from one (L, R) two words lead to the same result exactly when they are the same |
| `MichaelLaws.OneByteShows` | core/rtw_security.c:341-398 | under every key, changing any one byte of a message changes its code |
| `MichaelLaws.OneWordShows` | core/rtw_security.c:341-398 | so does changing the bytes of any one word |
| `MichaelLaws.CodeTellsKey` | core/rtw_security.c:325-398 | for every message different keys give different codes |
| `MichaelLaws.CoversAddresses` | core/rtw_security.c:401-432 | for all four settings of the DS bits and the addresses laid out as the standard says, what is covered is destination, source, priority and data |
| `MichaelLaws.EmptyMessageVector` | core/rtw_security.c:325-398 | the published code of the empty message under the key of zeros |
| `MichaelLaws.LetterVector` | core/rtw_security.c:325-398 | the published code of the message "M" under that code as key |
| `Join.MlmeExt.JoinCmdHdl` | core/rtw_mlme_ext.c:5856-6012 | the command makes the phase step of a join, early returns included |
| `Join.MlmeExt.StartClntJoin` | core/rtw_mlme_ext.c:4791-4855 | infrastructure waits for a beacon with the timer armed, ad hoc reports at once, neither changes nothing |
| `Join.MlmeExt.OnBeacon` | core/rtw_mlme_ext.c:715-768 | only a beacon of the wanted access point starts authentication; a changed one ends a link |
| `Join.MlmeExt.OnAuthClient` | core/rtw_mlme_ext.c:1058-1158 | replies, rejections, challenges and the switch of algorithm make the phase step |
| `Join.MlmeExt.OnAssocRsp` | core/rtw_mlme_ext.c:1703-1807 | a reply links or ends the join and reports it, only while associating |
| `Join.MlmeExt.ReceiveDisconnect` | core/rtw_mlme_ext.c:4904-4931 | a disconnect of the current network ends a link silently and a join with -2 |
| `Join.MlmeExt.LinkTimerHdl` | core/rtw_mlme_ext.c:5680-5735 | an expiry retries up to the limit, then ends the join with its code |
| `Join.MlmeExt.DisconnectHdl` | core/rtw_mlme_ext.c:6014-6062 | the command makes the state null and cancels the timer |
| `Join.MlmeExt.StaDelEventCallback` | core/rtw_mlme_ext.c:5411-5443 | ends a link, and with no ad hoc peer known a join as well, without a report |
| `Join.MlmeExt.StartClntAuth` | core/rtw_mlme_ext.c:4857-4886 | authentication starts with both retry counts at zero and the timer armed |
| `Join.MlmeExt.StartClntAssoc` | core/rtw_mlme_ext.c:4889-4902 | association starts with its retry count at zero and the timer armed |
| `JoinRuns.LinkedOnlyAfterHandshake` | core/rtw_mlme_ext.c:721-4902 | a link in any run comes from a join, then a beacon of its target, then the final successful authentication reply, then a successful association reply; the run waits, authenticates, associates and is linked without interruption between them and since, no changed beacon included |
| `JoinRuns.LinkIsToTheJoinedNetworkExactly` | core/rtw_mlme_ext.c:721-745 | the beacon of that exchange is the joined network's own exactly when no join command between the two has named another, and the network on record while linked is the joined one exactly when none since the join has |
| `JoinRuns.HandshakeLinks` | core/rtw_mlme_ext.c:4791-4902 | conversely the four events in a row link from any state, whoever sent the replies, and report the association id |
| `JoinRuns.AnySenderCounts` | core/rtw_mlme_ext.c:1058-1727 | no run depends on who sent the authentication and association replies |
| `JoinRuns.RefusedJoinRedirects` | core/rtw_mlme_ext.c:5907-5911 | a join command that starts nothing, too long or without capability bits, still redirects the beacon wait |
| `JoinRuns.RefusedJoinRelabelsLink` | core/rtw_mlme_ext.c:5907-5911 | arriving after the authentication it makes the link end up recorded with the other network |
| `JoinRuns.TimerGuardsExactly` | core/rtw_mlme_ext.c:4791-4931 | the timer is armed throughout every join of a run exactly when no join for a network with neither capability bit arrives during one |
| `JoinRuns.CaplessJoinStrands` | core/rtw_mlme_ext.c:4849-4853 | such a command leaves a join under way with no timer |
| `JoinRuns.JoinsAreConserved` | core/rtw_mlme_ext.c:4791-5735 | in every run each accepted join is under way, was cut short by a new join, a disconnect command or a deleted station, or was reported once |
| `JoinRuns.AtMostOneReport` | core/rtw_mlme_ext.c:4791-5735 | between two joins at most one result is reported |
| `JoinRuns.ExpiriesSpendBudget` | core/rtw_mlme_ext.c:5680-5735 | whatever frames arrive, each expiry is paid for out of the retries the join started with |
| `JoinRuns.ExpiriesEndJoin` | core/rtw_mlme_ext.c:5680-5735 | at most REAUTH_LIMIT + REASSOC_LIMIT + 1 expiries fall into a join, and after that many it is over |
| `JoinRuns.BoundIsReached` | core/rtw_mlme_ext.c:5680-5735 | that many can occur |
| `JoinReports.ReportsAreExplained` | core/rtw_mlme_ext.c:4791-5735 | every result in every run was reported by an event it describes: non-negative exactly for a link made or an ad hoc join, -3 exactly for an expiry in the beacon wait, -1 for the last expiry of authentication, -4 for a refused association, -2 for the last expiry of association or a disconnect |
| `JoinReports.EndsAreReported` | core/rtw_mlme_ext.c:1703-5735 | a join that ends, other than by being cut short, is reported |
| `JoinReports.RetriesCountExpiries` | core/rtw_mlme_ext.c:5698-5715 | the count of authentication retries is the number of expiries since the beacon that began it |
| `JoinReports.ReassocsCountExpiries` | core/rtw_mlme_ext.c:5717-5730 | the count of association retries is the number of expiries since the final authentication reply |
| `JoinReports.AuthGivesUpAtLimit` | core/rtw_mlme_ext.c:5698-5708 | a result -1 is reported by the expiry after REAUTH_LIMIT others since the beacon |
| `JoinReports.ThirdFrameFollowsChallenge` | core/rtw_mlme_ext.c:1098-1119 | the next frame of the exchange is the third exactly while a challenge has been answered without an expiry since, and otherwise the first |
| `JoinReports.OpenSystemLinks` | core/rtw_mlme_ext.c:1122-1126 | join, beacon, transaction 2 with status 0 and a successful reply link from the initial state |
| `JoinReports.SharedKeyLinks` | core/rtw_mlme_ext.c:1085-1138 | status 13 switches to shared key; after an expiry the challenge is answered with transaction 3 and only transaction 4 is final |
| `EfuseLog.HoldsIsEncoding` | efuse.c:836-911 | on a chip of any size, packets lying one behind the other are the encoding the writer produces, ended by a blank cell |
| `EfuseLog.CellsOfPackets` | efuse.c:836-911 | a short and an extended packet, cell by cell, with the words they stand for |
| `EfuseLog.LastWriterWins` | efuse.c:166-273 | a word of the map is the one in the last packet that writes it, 0xFFFF if none does |
| `EfuseLog.SweepReadsLog` | efuse.c:166-252 | the packet loop of the read-out finds exactly the map of the log and stops one cell behind it |
| `EfuseLog.SizeFromBoundary` | efuse.c:420-460 | from any packet boundary the size scan stops exactly at the end of the log |
| `EfuseLog.SizeAfterReadIsOff` | efuse.c:278-279 | started where the read-out stops it misses the end on every chip and every memory |
| `Efuse.Fuses.ReadEfuse` | efuse.c:128-287 | the requested bytes of `Readout`, or nothing for an empty efuse or a range outside the map |
| `Efuse.ReadoutOfLog` | efuse.c:255-273 | every byte read out of a log is a byte of the word its last writer put there |
| `Efuse.Fuses.GetCurrentSize` | efuse.c:420-460 | the scan returns and keeps `CurrentSize` from the address kept so far |
| `Efuse.Fuses.WordEnableDataWrite` | efuse.c:1006-1074 | the enabled words go packed into blank cells and all read back |
| `Efuse.Fuses.PgPacketWrite` | efuse.c:588-1003 | on cells holding a log, unless a cell would be programmed twice, only blank cells are written and the cells become exactly `Programmed`, from any kept size |
| `EfuseWrite.FillReads` | efuse.c:738-815 | the map word by word after a blank packet is filled in: a requested word shows unless a later packet hides it, every other word is as before |
| `EfuseWrite.AppendReads` | efuse.c:832-988 | the map word by word after a packet is appended, with its data, with its header only, or not at all |
| `EfuseCells.FilledHolds` | efuse.c:752-770 | the cells then hold the log with that packet filled in |
| `EfuseCells.ProgramAtEnd` | efuse.c:832-988 | a packet programmed at the end of the log extends the log |
| `EfuseCells.ProgramBehind` | efuse.c:796-804 | behind the end it does not show |
| `EfuseCells.SplitHeaderHolds` | efuse.c:796-804 | astride the end its second header byte and data are read as a packet of another section |
| `EfuseEffect.WriteShows` | efuse.c:646-1003 | word by word, the map after any write that stays out of the log: data where a requested word lands, and nowhere else a change that depends on them |
| `EfuseEffect.WriteWorksExactly` | efuse.c:588-1074 | on any chip and log, from any kept size, the map becomes the old one with exactly the enabled words replaced, whatever the data, if and only if every requested word lands, a condition on the cells and the kept size before the write |
| `EfuseEffect.PlaceIsEndExactly` | efuse.c:420-460 | the scan from the kept size finds the end of the log before the write exactly when it does after any data are filled in |
| `EfuseEffect.WorksOnThisChip` | include/rtl8812a_hal.h:127-140 | on this chip's sizes a log of at most 492 cells with eleven blank ones behind it takes any write to a section without a blank packet |
| `EfuseLog.ScanAvoidsBlanks` | efuse.c:420-460 | a scan that ends outside a blank stretch ends in the same place whatever is written there |
| `EfuseEffect.EndFoundFromBoundary` | efuse.c:420-460 | a kept size at a packet boundary leads to the end of the log |
| `EfuseEffect.LeftOverIsLostBehindEnd` | efuse.c:796-804 | a kept size behind the end loses every word left over, and it keeps showing what it did |
| `EfuseEffect.LeftOverIsLostAfterReadout` | efuse.c:278-279 | the size a read-out keeps is such a size |
| `EfuseEffect.SecondWordIsLost` | efuse.c:738-815 | one blank packet for one word, a request for two: after a read-out the second word is lost |
| `EfuseEffect.WorksWithoutBlankPackets` | efuse.c:832-988 | with room and no blank packet for the section a write always works, by one appended packet |
| `EfuseEffect.BlankPacketSwallowsWrite` | efuse.c:738-815 | a write into a blank packet with a later packet behind it is lost |
| `Efuse.WriteThenRead` | efuse.c:128-1074 | after a write that works, the bytes read out are the data in the enabled words and the old bytes elsewhere |
| `Ie.ParsingInvertsPrinting` | core/rtw_ieee80211.c:1067-1204 | a buffer is the encoding of some elements exactly when it parses without remainder to those elements |
| `Ie.WholeIsSomeEncoding` | core/rtw_ieee80211.c:1067-1204 | a buffer parses without remainder exactly when it is an encoding at all |
| `IeParse.ParseElems` | core/rtw_ieee80211.c:1067-1204 | fails exactly on buffers that are not whole elements, says unknown exactly when some element has no slot, records the leading elements in any case |
| `IeParse.FillsExactly` | core/rtw_ieee80211.c:962-1186 | an element fills a slot exactly when it is the one the slot is named after: by element id, or by OUI, type and subtype at the start of a vendor element |
| `IeParse.SlotsHoldLastBodies` | core/rtw_ieee80211.c:962-1192 | after parsing, a slot is set exactly when the element it is named after is there, and points at the last such element's body |
| `IeParse.IdsDoNotShareSlots` | core/rtw_ieee80211.c:1098-1186 | outside the vendor elements each id has a slot of its own |
| `IeEdit.SetIe` | core/rtw_ieee80211.c:148-169 | the element is printed in place and both positions advance by its size |
| `IeEdit.PrintedParses` | core/rtw_ieee80211.c:148-169 | what is printed parses back exactly when the length fits a byte |
| `IeEdit.GetIeEx` | core/rtw_ieee80211.c:272-308 | on any bytes, the search returns what `Walk` finds, provided every byte it reads is there |
| `IeEdit.WalkFinds` | core/rtw_ieee80211.c:272-308 | on whole elements, comparisons that run on reading whatever lies behind, every read is inside and the first hit is found |
| `IeEdit.IesRemoveIe` | core/rtw_ieee80211.c:322-356 | in place, the elements left are `Kept`, in order, behind an untouched front, the bytes behind the list included in the comparisons as the source reads them; success means something was removed |
| `IeEdit.RemovalFiltersExactly` | core/rtw_ieee80211.c:272-356 | whatever lies behind the list, the remover is the filter exactly when no short element's comparison is completed by the bytes behind it |
| `IeEdit.RemovalFilters` | core/rtw_ieee80211.c:272-356 | without an OUI, or with candidates at least as long as it, removing is filtering, whatever lies behind the list |
| `IeEdit.ShortElementIsRemoved` | core/rtw_ieee80211.c:290-292 | a one-byte vendor element is removed because of the element behind it |
| `IeEdit.LastShortElementIsRemoved` | core/rtw_ieee80211.c:290-292 | as the last element it is removed because of the bytes behind the list |
| `CmdQueue.TakenInOrder` | core/rtw_cmd.c:126-178 | in every interleaving commands are taken in the order they were added, each once |
| `CmdQueue.NoLostWakeup` | core/rtw_cmd.c:234-411 | while the thread waits with the semaphore at zero and no producer is between adding and raising, the queue is empty |
| `CmdQueue.EveryCommandIsTaken` | core/rtw_cmd.c:331-411 | after any run, once every producer has raised the semaphore, the thread alone takes everything, in order |
| `CmdQueue.CmdPriv.Enqueue` | core/rtw_cmd.c:234-258 | a command is refused or added, exactly as the add step |
| `CmdQueue.CmdPriv.DequeueCmd` | core/rtw_cmd.c:156-178 | the head is taken, or the thread goes back to waiting, exactly as the dequeue step |
| `CmdQueue.CmdPriv.ServeOnce` | core/rtw_cmd.c:331-411 | one wakeup with no producer in between serves the whole queue in order |

## Left out

- Frames that bypass the reorder buffer (ARP, non-QoS, non-zero ack policy), Block Ack teardown, and the frame pool: the runs cover one enabled session.
- What `recv_indicatepkts_in_order` does with a frame once it is passed up (network stack, driver stop).
- Reorder.RecvReorderCtrl.RecvReorder: one arrival is one step. The source gives the queue lock up before it cancels the timer (core/rtw_recv.c:2319-2322), so a queue that is never left without a timer relies on arrivals being handled one at a time.
- Allocation failure in `report_join_res`, and the room left in a frame's buffer in `recvframe_defrag`.
- AES itself, the S-box tables, the table-driven OMAC1; selection of keys and the loop over the fragments of one transmission.
- CcmpFrames.AesDecipher: a frame of more than 2048 bytes is not copied into the scratch buffer (core/rtw_security.c:1726), and the source then reads and writes past the end of it; `message` stands for the buffer and what lies behind it.
- Fragments.OpenFragment: returns the outcome of the ICV comparison; `rtw_wep_decrypt` computes it and ignores it.
- Ccmp.AcceptsExactlySealed: is about frames whose packet number reads the same at both header lengths; for the others the round trip already fails. Above 2048 bytes `Ccmp.AlwaysAcceptedExactly` takes its place.
- ReorderRuns.DeliveredInSenderOrder: asks that each frame arrive within half a turn of the window, since 12 bits cannot tell more.
- Access-point and ad hoc operation of the join: ad hoc peers, `setopmode` to other modes, the deauthentication frames it sends. `JoinRuns` counts an ad hoc join as reported at once.
- The beacon contents checked while linked: whether the access point changed is an input of the beacon event.
- Efuse.Fuses.PgPacketWrite: cells that read back what was written, none programmed twice; the repair of bad headers and the retries after a failed write are not modelled, and neither is an empty mask.
- EfuseEffect.WriteWorksExactly: asks for eleven blank cells where a new packet goes, because what lies behind a packet is read as the next one.
- Geometry: asks for at most 128 sections, which is what a header can name, at least ten protected cells, so that a packet begun below the limit ends inside the content, and two cells behind the content, which the read-out may look at; the map has eight bytes to a section.
- `efuse_pg_packet_read`: it agrees with the read-out only when the enabled words form a prefix.
- Efuse.Fuses.ReadEfuse: the two nested loops that spread the words into bytes are one loop over all words.
- IeEdit.IesRemoveIe: asks that the bytes compared with an OUI exist in the array, behind the list or not, and that the elements fit the scratch buffer of MAX_IE_SZ bytes.
- `rtw_get_ie`: the search without an OUI, already covered by the one with.
- Stopping the command thread, signals, the execution of commands and the freeing of command objects.
- Register and USB access, power save, rate tables, ioctl plumbing, logging.

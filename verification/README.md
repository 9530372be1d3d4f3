# LICHEN in Dafny

A Dafny model of the parts of LICHEN that carry a protocol, an invariant or an
algorithm, with proofs of what they promise. `dafny verify dfyconfig.toml`
checks the whole project.

## SCHC fragmentation

The core is ACK-on-Error fragmentation of RFC 8724 as `lichen/subsys/schc/schc.c`
implements it, with the constants of `lichen/subsys/schc/include/schc/schc.h`:
tiles of 179 bytes, windows of 63 tiles, two windows, four attempts.

- `Bits`, `FragmentCodec`, `AckCodec`, `Rcs`: the wire formats as functions on
  bytes, their laws (layout, round trips both ways, canonical and shortest
  forms), and the buffer-filling loops proved against them.
- `Tiles`, `Sender`, `Retransmission`: the sender as transitions on values;
  bounds for every run; what one pass and one round emit. `Fragmenter` is the
  object that updates its fields in place and is proved to behave exactly like
  `Sender`.
- `Session`, `SessionInvariant`, `SessionRuns`: the receiver as transitions on
  values that keep tiles apart, its invariant for arbitrary messages, and
  bounds for every run. `PacketBuffer` and `Reassembler` are the receiver that
  reassembles in one array, parks the All-1 tile in that array and moves it
  about; it is proved to behave exactly like `Session`.
- `Honest`, `Exchange`, `Lossless`, `Recovery`, `LossyPass`, `Aborts`: both
  sides together. An action is a poll, a message handed over, a timeout, an
  expiry or a release; messages stay available for ever, so a run may lose,
  repeat and reorder them. `Exchange.ExchangeSafe` is the safety theorem over
  all such runs, `Lossless.OnePassDelivers` the loss-free one and
  `LossyPass.LossyPassRepaired` says that if all that was not heard of a first
  pass is lost for good, and the answer to it too, then one timeout, one ACK REQ
  and two clean rounds suffice. `Aborts.AbortsExactly` says which messages make
  a receiver give up.
- `Register`, `ShortPackets`: the CRC register as a reversible, linear machine,
  and what follows for the RCS.

A reported packet can differ from the sent one only by an RCS collision: the
All-1 fragment does not say how many tiles precede it, so a shorter run of
tiles with the same RCS is reported. `LossyPass.ExactDelivery` makes this an
if-and-only-if condition on the packet alone, `ShortPackets.CollisionExactly`
turns it into a condition on the CRC register, and
`ShortPackets.SomeReportedShort` shows packets that are at risk.

The other way to lose a packet without using up the attempts is a late tile.
An RCS mismatch moves the All-1 tile up behind the tiles held, and from then on
the receiver aborts on any tile but a held one or the next
(`Aborts.TileAborts`). A single frame that was only delayed does it
(`Aborts.LateTileAborts`).

## The other parts

- `Bitstream`: `lichen/subsys/schc/bitstream.c`; aligned, byte and tail paths
  against appending and taking single bits.
- `Rule255`: the validation of uncompressed packets in `schc.c`.
- `RxDriver`: `lichen/drivers/lora/lora_sim.c` as atomic steps of any number of
  callers and the RX thread.
- `RateWindow`, `Shelf`, `DeadDrop`, `Confessions`: the two rate-limited
  bounded stores of `rust/lichen-client`. Each class carries as ghost state the
  times of everything ever admitted and ties its buckets to it. Every clock
  reading of a call is a parameter of its own; readings never go back.
- `Addresses`, `Ordering`, `Collisions`, `CollisionRuns`: the address-collision table of
  `python/src/lichen/address_collision.py` against the set of all observations
  ever accepted, and runs with a restart in the middle.
- `Gradient`, `SpreadingFactor`: `python/src/lichen/gradient.py`.
- `MeshRouting`: the routing study in `python/scripts/city_mesh_study.py`.
- `Crc16`, `Base64`, `SmpFraming`: the serial framing of `smp-flash.py`.
- `Options`, `Sets`: an optional value, and sizes of finite sets.

Representation: a byte is an integer below 256; the 63-bit bitmaps are sets of
bit numbers; CRC registers are sequences of bits; clocks are parameters.

Some things the code does that a reader may not expect:

- A dead-drop post that is refused evicts nothing. A confession post that finds
  no unused identifier has already evicted (`Confessions.ConfessionStore.Post`).
- A confession larger than the whole budget is still stored.
- A dead-drop refusal whose window empties between its two clock readings asks
  for a wait of one second that is no longer needed.
- Recording confession times from outside can make the quota subtraction
  overflow (`Confessions.QuotaOverflows`).
- Two gradient entries whose sequence numbers are exactly half the range apart
  replace each other either way (`Gradient.SomeoneReplaces`).
- An ACK REQ also decodes as an ACK (`AckCodec.AckRequestReadsAsAck`); a sender
  never sees one, because it travels the other way.

## Model

| member | source | states |
|---|---|---|
| `FragmentCodec.EncodeLayout` | lichen/subsys/schc/schc.c:342-379 | an encoded fragment is, bit for bit, the layout of section 8.3.1 of RFC 8724: rule, window bit, six FCN bits, RCS for an All-1, tile, one zero bit |
| `FragmentCodec.DecodeEncode` | lichen/subsys/schc/schc.c:342-437 | decoding an encoded fragment gives it back, for every valid regular or All-1 fragment |
| `FragmentCodec.EncodeDecode` | lichen/subsys/schc/schc.c:381-437 | whatever decodes is valid and encodes to exactly the bytes it came from |
| `FragmentCodec.EncodeInjective` | lichen/subsys/schc/schc.c:342-379 | two valid fragments with the same bytes are the same fragment |
| `FragmentCodec.ControlIsNotFragment` | lichen/subsys/schc/schc.c:552-583 | no ACK REQ, Sender-Abort or Receiver-Abort decodes as a fragment |
| `FragmentCodec.ControlInjective` | lichen/subsys/schc/schc.c:552-583 | control messages of different kind, rule or window differ |
| `FragmentCodec.FragmentEncode` | lichen/subsys/schc/schc.c:342-379 | fills the buffer with the encoding, touches nothing behind it, and fails with the error the validation or the buffer size calls for |
| `FragmentCodec.FragmentDecode` | lichen/subsys/schc/schc.c:381-437 | returns the decoded fragment or its error and leaves the tile buffer alone on error |
| `FragmentCodec.ControlEncode` | lichen/subsys/schc/schc.c:552-583 | writes the control message or fails, for every kind, rule, window and buffer size |
| `AckCodec.DecodeEncode` | lichen/subsys/schc/schc.c:439-550 | decoding an encoded ACK gives back window, completion flag and bitmap, with and without an assigned set it fits |
| `AckCodec.DecodeCanonical` | lichen/subsys/schc/schc.c:487-550 | only canonical bytes decode: whatever decodes is the encoding of the result |
| `AckCodec.DecodeInjective` | lichen/subsys/schc/schc.c:487-550 | messages that decode to the same ACK are the same message |
| `AckCodec.EncodeShortest` | lichen/subsys/schc/schc.c:439-485 | no shorter byte string is expanded to the same bitmap by the restore-ones rule of section 8.3.2.1 of RFC 8724 |
| `AckCodec.AbortIsNotAck` | lichen/subsys/schc/schc.c:487-550 | no abort decodes as an ACK |
| `AckCodec.AckRequestReadsAsAck` | lichen/subsys/schc/schc.c:487-550 | an ACK REQ decodes as an incomplete ACK with exactly bits 0 to 56 set, so only the direction tells them apart |
| `AckCodec.AckEncode` | lichen/subsys/schc/schc.c:439-485 | writes exactly the shortest encoding in place, or fails with the right error |
| `AckCodec.AckDecode` | lichen/subsys/schc/schc.c:487-550 | agrees with the decoder for every message and assigned set |
| `Rcs.CheckIsPaddedCrc` | lichen/subsys/schc/schc.c:186-196 | the running RCS with its one zero padding octet is the CRC of the padded packet |
| `Rcs.ComputeCrc32` | lichen/subsys/schc/schc.c:171-184 | the byte and mask loop computes the bit-serial reflected CRC-32 |
| `Register.CheckExactly` | lichen/subsys/schc/schc.c:171-196 | two packets have the same RCS if and only if they leave the same CRC register |
| `Register.FourBytes` | lichen/subsys/schc/schc.c:171-184 | four bytes lead the CRC register from any state to any other |
| `Register.BurstDetected` | lichen/subsys/schc/schc.c:171-196 | the RCS tells apart any two packets that differ in at most four consecutive bytes |
| `Rcs.ComputeRcs` | lichen/subsys/schc/schc.c:186-204 | the big-endian RCS bytes of a packet |
| `Tiles.TileAtInvertsTileBit` | lichen/subsys/schc/schc.c:605-640 | the tile a retransmission of a bit picks is the tile that bit stands for |
| `Tiles.TileBitInjective` | lichen/subsys/schc/schc.c:620-640 | different tiles have different window and bit |
| `Tiles.AssignedTile` | lichen/subsys/schc/schc.c:605-618 | every assigned bit of a window stands for exactly one tile of the packet |
| `Sender.BudgetStep` | lichen/subsys/schc/schc.c:667-814 | no call lets a sender emit more than what is left of its budget |
| `Sender.RunBounded` | lichen/subsys/schc/schc.c:591-814 | under any sequence of polls, messages and timeouts attempts stay at most four and no more messages are sent than the budget of the state allows |
| `Sender.FreshBounded` | lichen/subsys/schc/schc.c:642-814 | a sender fresh from Init emits at most n + 64*3 + 1 messages for a packet of n tiles |
| `Sender.RunTerminal` | lichen/subsys/schc/schc.c:591-603 | a terminal status never changes, and only one Sender-Abort may still follow |
| `Sender.RunSilent` | lichen/subsys/schc/schc.c:667-814 | a silent sender emits nothing and changes nothing |
| `Retransmission.FirstPass` | lichen/subsys/schc/schc.c:667-686 | the first pass emits every tile once, in order, and then waits with one attempt used |
| `Retransmission.MissingTilesExact` | lichen/subsys/schc/schc.c:605-640 | the scan of a window visits exactly the missing tiles, in ascending order |
| `Retransmission.RoundExact` | lichen/subsys/schc/schc.c:687-729 | one round emits each missing tile once, in order, as the same bytes as before, and ends with the All-1 or an ACK REQ |
| `Fragmenter.Fragmenter.Create` | lichen/subsys/schc/schc.c:642-665 | accepts exactly the rules, packets and sizes the protocol allows and starts ready |
| `Fragmenter.Fragmenter.AssignedBits` | lichen/subsys/schc/schc.c:605-618 | the loop computes the assigned set of a window |
| `Fragmenter.Fragmenter.WriteFragment` | lichen/subsys/schc/schc.c:620-640 | writes the frame of a tile; only the last one carries the RCS |
| `Fragmenter.Fragmenter.FindMissing` | lichen/subsys/schc/schc.c:687-707 | finds the first missing position at or after the current one |
| `Fragmenter.Fragmenter.Next` | lichen/subsys/schc/schc.c:667-740 | updates the object exactly as the sender on values, in every phase and for every buffer size |
| `Fragmenter.Fragmenter.Input` | lichen/subsys/schc/schc.c:742-800 | updates the object exactly as the sender on values, for every message |
| `Fragmenter.Fragmenter.Timeout` | lichen/subsys/schc/schc.c:802-814 | updates the object exactly as the sender on values |
| `SessionInvariant.PrefixExact` | lichen/subsys/schc/schc.c:900-954 | when finalizing finds no gap, the marked tiles are exactly a run from tile 0, with nothing marked behind it |
| `SessionInvariant.InputValid` | lichen/subsys/schc/schc.c:966-1168 | every message, valid or not, keeps the receiver invariant: tiles and staging below the limit, the parked tile in its place, and a finished packet a run of accepted tiles and the last one, no longer than the limit |
| `SessionInvariant.NextValid` | lichen/subsys/schc/schc.c:1170-1208 | so does every poll |
| `SessionInvariant.ExpireValid` | lichen/subsys/schc/schc.c:1224-1238 | so does every expiry |
| `SessionRuns.RunBounded` | lichen/subsys/schc/schc.c:863-876 | under any events a receiver sends at most four negative ACKs, and at most one complete ACK or abort, between resets |
| `SessionRuns.SentKind` | lichen/subsys/schc/schc.c:1170-1208 | what a poll sends is a negative ACK exactly when one is due, otherwise the complete ACK or a Receiver-Abort |
| `SessionRuns.RunFits` | lichen/subsys/schc/schc.c:900-954 | under any events no packet longer than the limit is reported |
| `SessionRuns.Tombstone` | lichen/subsys/schc/schc.c:980-1003 | after an abort everything is ignored until release |
| `SessionRuns.OverlappedNeverCompletes` | lichen/subsys/schc/schc.c:900-954 | in every valid state in which a marked tile reaches into the place of the All-1 tile, no packet is ever reported until release |
| `PacketBuffer.ParkLast` | lichen/subsys/schc/schc.c:1110-1114 | parking the All-1 tile at the end of the buffer keeps every marked tile before it |
| `PacketBuffer.Relocate` | lichen/subsys/schc/schc.c:1136-1150 | moving the parked tile back to the end keeps it and every tile before the end |
| `PacketBuffer.Advance` | lichen/subsys/schc/schc.c:929-932 | moving the parked tile behind the run makes the front of the buffer the whole packet |
| `PacketBuffer.PutTile` | lichen/subsys/schc/schc.c:1156-1167 | writing a tile before the parked one changes no other tile |
| `Reassembler.Reassembler.Create` | lichen/subsys/schc/schc.c:835-847 | accepts exactly the sizes the protocol allows and starts empty |
| `Reassembler.Reassembler.Release` | lichen/subsys/schc/schc.c:849-854 | forgets everything but the buffer |
| `Reassembler.Reassembler.QueueAck` | lichen/subsys/schc/schc.c:863-876 | queues the ACK, or an abort once the attempts are used up |
| `Reassembler.Reassembler.Finalize` | lichen/subsys/schc/schc.c:900-954 | in place, with overlapping moves, decides exactly as the receiver on values, reports the same, and leaves every byte from the limit on alone |
| `Reassembler.RegularCount` | lichen/subsys/schc/schc.c:878-886 | the loop counts the tiles up to the highest one marked |
| `Reassembler.PopulationCount` | lichen/subsys/schc/schc.c:888-898 | the loop counts the marked bits |
| `Reassembler.MismatchBitmap` | lichen/subsys/schc/schc.c:939-953 | at an RCS mismatch the window is always full up to the count, so the ACK bitmap depends on the count alone |
| `Reassembler.Reassembler.InputAll1` | lichen/subsys/schc/schc.c:1072-1119 | an All-1 is staged, matched or aborted as the receiver on values says, in the shared buffer and below the limit |
| `Reassembler.Reassembler.InputRegular` | lichen/subsys/schc/schc.c:1120-1168 | a tile is written, compared or aborted as the receiver on values says, relocating the parked tile when it is in the way, all below the limit |
| `Reassembler.Reassembler.InputAckRequest` | lichen/subsys/schc/schc.c:1044-1058 | an ACK REQ is answered from the state as the receiver on values says |
| `Reassembler.Reassembler.Input` | lichen/subsys/schc/schc.c:966-1168 | refines the receiver on values for every message, same state, same report, same code, and never writes at or past the limit |
| `Reassembler.Reassembler.Next` | lichen/subsys/schc/schc.c:1170-1208 | refines the receiver on values; a reported packet is the front of the buffer and no longer than the limit |
| `Reassembler.Reassembler.Packet` | lichen/subsys/schc/schc.c:1210-1222 | the packet is available exactly after delivery |
| `Reassembler.Reassembler.Expire` | lichen/subsys/schc/schc.c:1224-1238 | refines the receiver on values |
| `Honest.InputFaithful` | lichen/subsys/schc/schc.c:966-1168 | a receiver that hears only frames of one packet holds only that packet's tiles, last tile and RCS |
| `Honest.WholePacket` | lichen/subsys/schc/schc.c:900-954 | all tiles of such a receiver together are the sent packet |
| `Honest.FinishedDeliverable` | lichen/subsys/schc/schc.c:900-954 | what such a receiver reports is the sent packet, or a shorter run of its leading tiles with its last tile and the same RCS |
| `Exchange.SenderEmits` | lichen/subsys/schc/schc.c:667-740 | a sender only ever emits frames, ACK REQs and aborts of its own packet |
| `Exchange.ReceiverAnswers` | lichen/subsys/schc/schc.c:1170-1208 | every answer names only assigned bits of a window up to the last and leaves one missing, or is the closing one |
| `Exchange.UsefulDecodes` | lichen/subsys/schc/schc.c:487-550 | such an ACK decodes at the sender, both times it is decoded there, and leaves an assigned bit to send |
| `Exchange.SenderHears` | lichen/subsys/schc/schc.c:742-800 | so the sender never takes the abort for an ACK with nothing missing, and succeeds only after a report |
| `Exchange.RunSound` | lichen/subsys/schc/schc.c:585-1238 | the joint invariant holds after every run over a channel that loses, duplicates and reorders |
| `Exchange.ExchangeSafe` | lichen/subsys/schc/schc.c:585-1238 | end to end, for every such run: every reported packet is deliverable, success implies a report, an abort implies used-up attempts or a Receiver-Abort, and no answer is an error at the sender |
| `Lossless.OnePassDelivers` | lichen/subsys/schc/schc.c:667-686 | without loss one pass in order reports exactly the packet, and the ACK ends the sender successful |
| `Recovery.FinalizeAnswers` | lichen/subsys/schc/schc.c:900-954 | with attempts left an honest receiver never aborts: it completes or asks exactly for what is not here |
| `Recovery.CleanRound` | lichen/subsys/schc/schc.c:687-740 | one round without loss brings every tile of the window asked for and costs at most 64 messages |
| `Recovery.LossIsRepaired` | lichen/subsys/schc/schc.c:585-1238 | from every reachable state with a waiting sender on its first attempt and a receiver that collects, is about to answer or report, or has delivered, some continuation ends in a report and success with at most one timeout, one ACK REQ and two rounds of 64 messages, and without resetting the receiver |
| `LossyPass.HearPass` | lichen/subsys/schc/schc.c:966-1168 | whichever frames of a first pass arrive, in any order and number, the receiver collects on or has an answer queued; it never aborts |
| `LossyPass.LossyPassRepaired` | lichen/subsys/schc/schc.c:585-1238 | from the start: after a first pass of which any frames arrive in any order and number, and whose answer may be lost too, everything else in flight is lost; from there some continuation ends in a report and success with at most one timeout and 1 + 2*64 messages of the sender, and without resetting the receiver |
| `LossyPass.ShortReported` | lichen/subsys/schc/schc.c:900-954 | if a run of leading tiles with the last tile has the RCS of the packet, some run does report that shorter packet |
| `LossyPass.ExactDelivery` | lichen/subsys/schc/schc.c:585-1238 | every run reports exactly the packet if and only if no run of its leading tiles with its last tile has its RCS |
| `ShortPackets.CollisionExactly` | lichen/subsys/schc/schc.c:171-196 | a run of leading tiles with the last tile has the RCS of the packet if and only if the tiles left out bring the CRC register back to where it was |
| `ShortPackets.CollidingTwin` | lichen/subsys/schc/schc.c:171-196 | every packet has a twin, equal but for four bytes of the last tile but one, with such a collision at any tile of its last window |
| `ShortPackets.SomeReportedShort` | lichen/subsys/schc/schc.c:900-954 | so exact delivery does fail: for every such length some packet and run report a shorter packet |
| `Aborts.TileAborts` | lichen/subsys/schc/schc.c:1120-1168 | a tile of the packet makes an idle receiver abort if and only if the All-1 tile was moved up by an RCS mismatch and the tile is neither held nor the next one |
| `Aborts.AbortsExactly` | lichen/subsys/schc/schc.c:966-1168 | for every message of its sender, in every state: the receiver queues an abort if and only if the message is a late tile, or calls for an answer with no attempt left |
| `Aborts.LateTileAborts` | lichen/subsys/schc/schc.c:939-1168 | from the start: the first n tiles and the All-1 frame arrive, the answer is lost, and tile n + 1 arrives late; the receiver aborts with one attempt used on either side, for every n of the last window with two tiles to go and no RCS collision |
| `Bitstream.BitWriter.constructor` | lichen/subsys/schc/bitstream.c:8-15 | an empty, cleared writer |
| `Bitstream.BitWriter.Write` | lichen/subsys/schc/bitstream.c:17-64 | appends exactly the low n bits, most significant first, at any offset, keeps unused bits zero, or changes nothing |
| `Bitstream.BitWriter.Write128` | lichen/subsys/schc/bitstream.c:66-126 | appends exactly the first n bits of the bytes, aligned or not, or changes nothing |
| `Bitstream.BitReader.Read` | lichen/subsys/schc/bitstream.c:141-186 | returns the number the next n bits spell and moves on, or changes nothing |
| `Bitstream.BitReader.ReadBytes` | lichen/subsys/schc/bitstream.c:188-222 | copies the next n bits, left-aligned and zero-padded, aligned or not, or changes nothing |
| `Bitstream.OrAppends` | lichen/subsys/schc/bitstream.c:17-64 | or-ing a shifted value into the current byte appends its bits |
| `Bitstream.WriteThenRead` | lichen/subsys/schc/bitstream.c:17-222 | for every list of mixed narrow and wide fields, writing all and reading the same widths back gives every value modulo its width |
| `Rule255.SumWords` | lichen/subsys/schc/schc.c:66-88 | the 32-bit running sum never overflows and is the sum of the 16-bit words |
| `Rule255.Fold` | lichen/subsys/schc/schc.c:66-88 | folding ends and gives the ones' complement sum of RFC 1071 |
| `Rule255.UdpChecksum` | lichen/subsys/schc/schc.c:66-88 | the checksum of the pseudo-header of section 8.1 of RFC 8200 and the datagram |
| `Rule255.ComputedChecksumVerifies` | lichen/subsys/schc/schc.c:66-88 | a checksum computed over a zero field and stored always verifies |
| `Rule255.CheckUdp` | lichen/subsys/schc/schc.c:145-168 | a datagram passes exactly when its field is not zero and the sum is zero modulo 65535 |
| `Rule255.Walk` | lichen/subsys/schc/schc.c:103-143 | the extension-header walk ends, reads in bounds and finds what the header chain defines |
| `Rule255.Validate` | lichen/subsys/schc/schc.c:90-169 | accepts exactly the well-formed IPv6 packets |
| `RxDriver.ModemStep` | lichen/drivers/lora/lora_sim.c:86-94 | every step of every thread keeps the modem flag with at most one holder |
| `RxDriver.TokenStep` | lichen/drivers/lora/lora_sim.c:521-679 | every step conserves the one rx_idle token |
| `RxDriver.CallbackStep` | lichen/drivers/lora/lora_sim.c:521-679 | every step keeps the callback, rx_go and the RX thread consistent |
| `RxDriver.RunInv` | lichen/drivers/lora/lora_sim.c:317-679 | the invariant holds after every interleaving |
| `RxDriver.ModemExclusive` | lichen/drivers/lora/lora_sim.c:86-457 | the modem flag is set exactly while one party holds it and the token away exactly while one party has it, never two; and no synchronous exchange during another or during one of the RX thread |
| `RxDriver.CancelQuiesces` | lichen/drivers/lora/lora_sim.c:615-679 | when a cancel takes the token the RX thread is parked and nothing is armed |
| `RxDriver.CancelIsFinal` | lichen/drivers/lora/lora_sim.c:615-679 | after a cancel that found a callback, only a callback armed later is ever called again |
| `RxDriver.CancelHappens` | lichen/drivers/lora/lora_sim.c:615-679 | such a cancel exists: one interleaving of an arming thread, a cancelling thread and the RX thread ends in it |
| `RateWindow.SpacedAppend` | rust/lichen-client/src/deaddrop.rs:961-991 | admitting an event only with fewer than n in the window keeps any n + 1 events a window apart |
| `RateWindow.LeastWait` | rust/lichen-client/src/deaddrop.rs:970-982 | rounding up what is left for the oldest event gives the least whole number of seconds after which a full window has room |
| `RateWindow.WaitLater` | rust/lichen-client/src/deaddrop.rs:970-982 | the same as seen from a later clock reading, and no wait left once the oldest event has gone |
| `RateWindow.FirstStampSpaced` | rust/lichen-client/src/deaddrop.rs:1090-1154 | creation stamps taken after the check are as far apart as the recorded times |
| `RateWindow.ReapTracks` | rust/lichen-client/src/deaddrop.rs:961-967 | reaping keeps every bucket equal to the history inside the window |
| `RateWindow.NoStaleKey` | rust/lichen-client/src/deaddrop.rs:961-967 | a key is kept exactly while it has an event in the window |
| `Shelf.LiveExact` | rust/lichen-client/src/deaddrop.rs:900-911 | pruning keeps exactly the unexpired records, in order |
| `Shelf.FitLongest` | rust/lichen-client/src/deaddrop.rs:914-927 | evicting oldest first leaves the longest run of newest records that fits |
| `DeadDrop.ExtractTtl` | rust/lichen-client/src/deaddrop.rs:615-642 | the loop finds the last ttl and the last expires value; the retention is in range for every value, infinite or not a number included |
| `DeadDrop.ExpiryHonoured` | rust/lichen-client/src/deaddrop.rs:615-642 | a drop that only says when it expires is gone by then, and alive until a second before or the permitted maximum |
| `DeadDrop.DeadDropStore.PruneExpired` | rust/lichen-client/src/deaddrop.rs:900-911 | keeps exactly the unexpired drops and exact accounting |
| `DeadDrop.DeadDropStore.EvictForSpace` | rust/lichen-client/src/deaddrop.rs:914-927 | fails, changing nothing, exactly when the budget is smaller than the drop; otherwise leaves the longest newest run that makes room |
| `DeadDrop.DeadDropStore.ReapStaleBuckets` | rust/lichen-client/src/deaddrop.rs:961-967 | reaps every bucket and keeps the hourly limit |
| `DeadDrop.DeadDropStore.CheckRateLimit` | rust/lichen-client/src/deaddrop.rs:970-982 | refuses exactly when six drops were recorded in the hour before its first clock reading; the wait is the least whole number of seconds from its second reading after which it allows, and one second if the window has room by then |
| `DeadDrop.DeadDropStore.RecordRequest` | rust/lichen-client/src/deaddrop.rs:984-991 | any seven drops a context ever posted still span an hour, by recorded and by creation times |
| `DeadDrop.DeadDropStore.AddDrop` | rust/lichen-client/src/deaddrop.rs:1021-1076 | stores exactly when every gate passes, without quota; a refused call changes nothing; each clock reading is its own |
| `DeadDrop.DeadDropStore.Post` | rust/lichen-client/src/deaddrop.rs:1090-1154 | answers in gate order; a refused post evicts nothing and uses no quota, a stored one is last and counts once in the quota; the version is the number of drops ever stored; accounting, budget, unique ids and the hourly limit always hold, with six clock readings that only need not go back |
| `Confessions.ConfessionStore.PruneExpired` | rust/lichen-client/src/confessions.rs:598-602 | keeps exactly the unexpired confessions |
| `Confessions.ConfessionStore.EvictOldest` | rust/lichen-client/src/confessions.rs:679-684 | leaves the longest newest run that makes room, or nothing |
| `Confessions.ConfessionStore.CheckRateLimit` | rust/lichen-client/src/confessions.rs:619-644 | allows exactly with nothing in the cooldown before its second clock reading and fewer than twelve in the hour before its first; each wait is the least whole number of seconds that ends what was found |
| `Confessions.ConfessionStore.RecordRequest` | rust/lichen-client/src/confessions.rs:647-654 | records whatever time it is given and keeps the buckets equal to the history of the last hour |
| `Confessions.StillLimited` | rust/lichen-client/src/confessions.rs:766-834 | a post that was let through keeps any two posts of a key thirty seconds apart and any thirteen an hour, by recorded and by receive times |
| `Confessions.ConfessionStore.RateInfo` | rust/lichen-client/src/confessions.rs:657-669 | the quota left is exact, and the subtraction overflows exactly when more than twelve times were recorded in the hour, which posts alone never do; the reset is when the oldest leaves |
| `Confessions.QuotaOverflows` | rust/lichen-client/src/confessions.rs:647-669 | thirteen requests recorded from outside within an hour do overflow it, for every key and clock |
| `Confessions.Shown` | rust/lichen-client/src/confessions.rs:805-829 | the source shown is authenticated and claimed, and the post not anonymous |
| `Confessions.ConfessionStore.Post` | rust/lichen-client/src/confessions.rs:766-834 | answers in gate order; stores every field of the post; keeps the cooldown and hourly limits; the budget is exceeded only by a post larger than all of it, so never with a budget of 768 or more; a name is shown only if authenticated, claimed and not anonymous |
| `Addresses.NormalExactly` | python/src/lichen/address_collision.py:76-108 | the stored addresses are exactly the native ones without scope and the link-local ones with a valid scope, and each is its own normal form |
| `Ordering.Sort` | python/src/lichen/address_collision.py:224-269 | computes the ascending list of a set of byte strings |
| `Ordering.OneOrder` | python/src/lichen/address_collision.py:224-269 | a set has only one ascending list |
| `Collisions.Detector.Purge` | python/src/lichen/address_collision.py:173-183 | leaves exactly the claims that have not expired, and no empty bucket |
| `Collisions.Detector.Observe` | python/src/lichen/address_collision.py:185-238 | accepted exactly when the address is tracked, the key whole, the source one that authenticates, the time good and both capacities suffice, and the table afterwards is given exactly; a rejected one changes nothing; status and the sorted keys follow from the live evidence |
| `Collisions.Detector.KeysFor` | python/src/lichen/address_collision.py:257-269 | exactly the keys with an accepted observation less than 1200 seconds old, in ascending order |
| `Collisions.Detector.Snapshot` | python/src/lichen/address_collision.py:281-307 | lists every live claim exactly once, by kind, address, scope and key |
| `Collisions.OneListing` | python/src/lichen/address_collision.py:281-307 | a table has only one such listing, so a snapshot is determined |
| `Collisions.BuildLists` | python/src/lichen/address_collision.py:310-355 | rows rebuild a table exactly when no pair repeats, and then exactly the table they list |
| `Collisions.FromSnapshot` | python/src/lichen/address_collision.py:310-355 | restores exactly the documents that pass every check of version, capacities, times, addresses, key lengths, expiries and repeats; the restored detector reflects the same evidence |
| `Collisions.RestartExact` | python/src/lichen/address_collision.py:281-355 | a document restored at any later time gives the table the original would have at that time |
| `CollisionRuns.AlikeRun` | python/src/lichen/address_collision.py:185-307 | two tables with the same live claims give the same answers to every list of calls from then on |
| `CollisionRuns.RestartAgrees` | python/src/lichen/address_collision.py:281-355 | a detector restarted from a snapshot and the one that went on give the same answers to every list of later calls; moved on to the same time they are in the same state |
| `MeshRouting.Search` | python/scripts/city_mesh_study.py:118-135 | the table of a node holds exactly the nodes it can reach, each with a neighbour one hop closer |
| `MeshRouting.BuildTables` | python/scripts/city_mesh_study.py:118-135 | so does every node's table |
| `MeshRouting.ForwardShortest` | python/scripts/city_mesh_study.py:240-268 | forwarding through the nodes' own tables arrives after exactly the shortest number of hops |
| `MeshRouting.ForwardUnreachable` | python/scripts/city_mesh_study.py:240-268 | a message to an unreachable node fails at once |
| `Gradient.SomeoneReplaces` | python/src/lichen/gradient.py:53-131 | of two entries one always outranks or ties; they tie also when their numbers are exactly half the range apart |
| `Gradient.GradientTable.Lookup` | python/src/lichen/gradient.py:142-153 | finds the unexpired entry, makes it the most recently used and loses nothing |
| `Gradient.GradientTable.Update` | python/src/lichen/gradient.py:155-194 | replaces exactly when allowed, keeps the link state of the destination, and on a full table displaces exactly the entry unused for longest |
| `Gradient.GradientTable.Insert` | python/src/lichen/gradient.py:306-308 | a newcomer to a full table displaces the least recently used entry only |
| `Gradient.GradientTable.SfUpdate` | python/src/lichen/gradient.py:215-239 | advances the link of the unexpired neighbour and nothing else |
| `Gradient.GradientTable.SfSelect` | python/src/lichen/gradient.py:241-304 | the selection is in [7, 12], is remembered and touches nothing else |
| `SpreadingFactor.SamplesSettle` | python/src/lichen/gradient.py:215-239 | seventeen equal samples bring any average within three below the sample, for good |
| `SpreadingFactor.SixteenMayNotSettle` | python/src/lichen/gradient.py:215-239 | sixteen may not |
| `SpreadingFactor.SelectOrdered` | python/src/lichen/gradient.py:241-304 | a larger factor before never gives a smaller one after |
| `SpreadingFactor.OneWay` | python/src/lichen/gradient.py:241-304 | under unchanged conditions the factor moves one way only |
| `SpreadingFactor.SelectionSettles` | python/src/lichen/gradient.py:241-304 | and settles within five selections in [7, 12] |
| `SpreadingFactor.GoodLinkUpgrades` | python/src/lichen/gradient.py:215-304 | a link that stays at twelve or better on a quiet channel reaches factor 7 |
| `SpreadingFactor.BadLinkDowngrades` | python/src/lichen/gradient.py:215-304 | a link that stays at minus six or worse uses factor 12 |
| `Crc16.SelfChecking` | smp-flash.py:65-73 | appending the big-endian CRC makes the CRC zero, for all data |
| `Crc16.Compute` | smp-flash.py:65-73 | the byte and bit loops compute the bit-serial CRC |
| `Base64.DecodeEncode` | smp-flash.py:89-92 | decoding the encoding gives the bytes back |
| `Base64.StraysSkipped` | smp-flash.py:124-139 | bytes outside the alphabet change nothing, as in the CPython decoder |
| `SmpFraming.EncodeFrames` | smp-flash.py:75-93 | emits the lines of the packet, each of at most 127 bytes |
| `SmpFraming.ReadFrame` | smp-flash.py:114-149 | the reassembling loop agrees with the recursive reader, on every stream |
| `SmpFraming.FramesReadBack` | smp-flash.py:75-149 | for every packet that fits the length field, reading the emitted lines returns exactly header and payload and leaves the rest of the stream |

## Left out

- `schc_compress` and `schc_decompress`: they call per-rule code.
- After a delivery an ACK REQ starts a new session; nothing is claimed about
  repeating the complete ACK.
- Null pointers, and the sizes of C integers where the code checks ranges
  first. The checksum sum is bounded at 32 bits, the collision clock at 64.
  A quota that overflows is absent; whether the program stops or wraps there
  depends on how it is built.
- Recovery.LossIsRepaired: gives one good continuation, in which rounds arrive in
  order; out of order a round may abort, as `Aborts.LateTileAborts` shows.
- LossyPass.LossyPassRepaired: the same.
- Bitstream.BitWriter.Write: the value is an unbounded natural, of which the
  low bits are used; the C parameter has 64 bits.
- RxDriver.CancelIsFinal: is about cancels from other threads. A callback that
  cancels itself is a step of the model; one that tries to arm or send is only
  told the modem is busy, and that is not a step.
- Sockets, server replies and timeouts of the driver: an exchange is a critical
  section that may succeed or fail.
- SenML and CBOR decoding, visibility, privacy, OSCORE, signatures: a decoded
  request is a parameter, and so are the random draws for identifiers.
- DeadDrop.ExtractTtl: values are reals, infinities or not-a-number; rounding of
  `expires - now` is not modelled.
- Confessions.ConfessionStore.RecordRequest: called from outside, with a time no
  post was admitted for, it voids the spacing limits; these are kept by posts.
- `add_confession`: it takes sizes above the budget, so no bound holds for it.
- Collisions.Detector.Observe: an address comes parsed, as sixteen bytes and a
  zone; so it does for KeysFor. Binding a native address to its key
  (`verify_native_address_binding`) is left out.
- Collisions.Detector.Snapshot: rows are values, not JSON and hexadecimal text.
- Collisions.FromSnapshot: starts from the parsed document; what is not JSON, or
  has a field of another type, is not modelled.
- Gradient.GradientTable.Update: entries are values, so a caller that keeps a
  reference to an entry is not modelled; address normalisation is left out.
- `remove`, `remove_via`, `expire_old` and the listings: plain filters.
- SmpFraming.ReadFrame: the stream ends instead of timing out.
- Traffic statistics, radio ranges and hop timing of the mesh study.
- `python/src/lichen/node.py`, firmware mains, board drivers, command lines and
  continuous-integration scripts.

# Verified models of mysource

Dafny models of the stateful algorithms of this repository, with proofs of what they are for. The core is
the Van Jacobson TCP/IP header compression of `VJ.c` and `VJ.h` (RFC 1144): the transmit side with its
circular list of saved headers, the receive side that rebuilds headers in place, and the serial line
between them, over whole runs, with and without losses. Beside it stand the Internet checksum that both
the decompressor and the analyser compute, the PPP framing and frame check sequence under which the
compressed packets arrive, the array-based search tree, the NTP alarm state machine, and the CPU load
percentages.

## How it is organised

| file | content |
|---|---|
| `Bytes.dfy` | octets and the 16- and 32-bit fields made of them |
| `Checksum.dfy` | `CheckSum`, folding, RFC 1071 |
| `VjHeader.dfy`, `VjDelta.dfy`, `VjMacros.dfy` | header fields, number coding and change mask, the macros of `VJ.h` |
| `VjCompress.dfy`, `VjUncompress.dfy` | the two routines as functions on the state of one end, octet for octet |
| `VjReceiver.dfy` | what the decompressor keeps, whatever arrives |
| `VjRoundTrip.dfy`, `VjStale.dfy` | one coded header, rebuilt in a slot that agrees with the sender's, and in any slot at all |
| `VjStep.dfy`, `VjLink.dfy` | one packet, and whole runs of a line |
| `VjLimits.dfy` | runs on which the line does not return what was sent, or hands on what it should not |
| `VjLru.dfy` | the circular list is a bounded LRU cache |
| `VjWire.dfy` | what goes out, from the fields of the packets: when a packet is compressed, and every octet of its frame |
| `SlCompress.dfy` | `struct slcompress` as a class; the routines rewriting packet buffers in place, proved equal to the functions |
| `SlLink.dfy` | two such structures joined by a line: whole runs of the routines on their buffers |
| `PppFcs.dfy`, `PppFraming.dfy` | frame check sequence, flag automaton, unstuffing |
| `Bst.dfy`, `BstRuns.dfy` | the search tree in an array, one operation and whole runs |
| `NtpAlarm.dfy` | the alarm state machine |
| `CpuLoad.dfy` | per-mille rounding, and readings one after another |

## What holds, and exactly when

A saved header is modelled as the 128 octets of its slot and a packet as its octets, so the aliasing of
overlapping fields in a blank or damaged slot is part of the model, and "comes back" means octet for octet.

The law of the compressor, that every packet comes back, does not hold of the code on all packets.
`VjLink.RoundTripExact` gives the exact condition, which the sender can evaluate before sending: a packet
returns if it goes as plain IP or uncompressed; a packet that is coded returns if and only if

- the number of uncompressed packets so far is not a multiple of 256 (`cnt` is a `u_char`, and 0 refuses
  compressed packets together with their connection id);
- it is at most 1520 octets long and its IP length field is its length;
- the reserved TCP bits (`th_x2`) and the two flag bits above URG are those of the saved header;
- a special code is not used while the saved header has URG set;
- its IP header passes `CheckSum`, and its checksum field is not the all-ones form of zero.

`VjLimits.UrgentFlagSticks` is a run of two segments of which the second meets every condition but that about
URG, and comes out with URG still set.

Which packets are coded is exact too, over every run (`VjWire.KindExact`). A packet goes as plain IP if it is
a fragment, shorter than 40 octets, or has SYN, FIN or RST set or ACK clear. Every other one is compressed if and
only if

- its conversation is one of the last 16 (`VjLru.RunIsLruCache`);
- the fixed fields and all options are those of the header last sent;
- the sequence number and the acknowledgement are less than 2^16 further on;
- URG is set or the urgent pointer is as it was;
- it is not the case that URG is set and both the sequence number and the window have changed (that mask would
  read as a special code);
- something has changed, or the last packet was an acknowledgement without data and the lengths differ;

and it goes uncompressed otherwise. So a retransmission, whose header is that of the last packet of its
conversation, always goes uncompressed, and puts its slot in step again if it arrives, whatever was lost before
(`VjWire.RepetitionResyncs`). `VjWire.WireExact` gives every octet of the frames, and `VjWire.IdLeftOut` when
the connection id is among them.

With losses the result is exact as well. `VjLink.OutcomeExact` holds of every packet of every run, whatever
was lost before it and whether the decompressor was told (`TYPE_ERROR`) or not: a compressed frame is dropped
unless it is accepted (the count above is not at 0, and the frame names its connection or no error is
outstanding), and then its packet comes back if and only if it is canonical (length and checksum as above) and
the receive slot it is applied to fits: that slot has all the octets that are not sent, and the fields that the
coded changes start from. If the slot is in step with the sender's this is the condition above, and what comes
out otherwise is told as well. As long as every loss is reported, an accepted frame is always applied to its
own slot, and `VjLink.Resynchronised` gives the exact condition for all packets of a slot once one uncompressed
frame has arrived for it. A loss that nobody reports sends the next frame to the slot of another conversation
(`VjLink.SilentLossMisroutes`, and `VjLimits.SilentLossRun` for a run of four segments), or to its own slot as
it was before the loss (`VjLink.SilentLossDrifts`).

All of this carries over to the routines on their buffers: `SlLink.CarryAll` sends any sequence of packets
through two structures, and the octets that stand in the buffers in the end are those of the runs above.

The decompressor takes whatever arrives, and that every header it rebuilds gives 0 under `CheckSum` does not
hold of all of it: an uncompressed frame whose two header length fields are zero leaves an older header under
a length of 0, and the next compressed frame is then handed on without a header, its checksum computed over the
data (`VjLimits.HeaderlessFrame`). It holds of every slot whose length goes with its header
(`VjReceiver.EveryRebuiltHeaderVerifies`), and those are all slots unless such a frame arrives
(`VjReceiver.RunStaysWhole`).

Where comments and code differ, the code is modelled: the comment at `VJ.h:216` calls `last_cs` the most
recently used state, but it is the end of the list, the least recently used one; the comment at
`ntpd.c:405-410` speaks of a flag above 2, the code waits for a flag above 3.

## Model

| member | source | states |
|---|---|---|
| `VjDelta.DecodeEncode` | proj/UPST_LIB/INC/VJ.h:243-314 | decoding undoes both encoders, for every 16-bit number they are used on, and reads exactly the octets written |
| `VjDelta.MaskRoundTrip` | proj/UPST_LIB/INC/VJ.h:175-187 | no two change masks share an octet |
| `VjMacros.EncodeAt` | proj/UPST_LIB/INC/VJ.h:243-255 | appends the code of a number at `cp`, leaving what was written before |
| `VjMacros.EncodeZAt` | proj/UPST_LIB/INC/VJ.h:257-269 | the same for a number that may be zero |
| `VjMacros.DecodeAt` | proj/UPST_LIB/INC/VJ.h:280-314 | reads the number at `cp` and leaves the cursor behind it |
| `VjCompress.Position` | proj/UPST_LIB/SRC/ANZ_LIB/VJ.c:87-116 | the first place of the list, most recent first, whose slot is saved for the conversation, and no earlier one is |
| `VjHeader.WithPush` | proj/UPST_LIB/SRC/ANZ_LIB/VJ.c:460-467 | sets or clears PSH and no other flag |
| `VjHeader.WithUrg` | proj/UPST_LIB/SRC/ANZ_LIB/VJ.c:491-499 | sets or clears URG and no other flag |
| `VjHeader.Layout` | proj/UPST_LIB/INC/VJ.h:38-97 | which octets of a packet are its lengths, IP id, sequence number, acknowledgement, window, checksum and urgent pointer, most significant octet first |
| `VjHeader.KeyIff` | proj/UPST_LIB/SRC/ANZ_LIB/VJ.c:87-89 | packets are of one conversation if and only if the twelve octets of addresses and ports are equal |
| `VjHeader.FlagsDetermined` | proj/UPST_LIB/INC/VJ.h:89-95 | a plain-ACK flags octet is fixed by PSH, URG and the two bits above |
| `VjRoundTrip.MaskUnambiguous` | proj/UPST_LIB/SRC/ANZ_LIB/VJ.c:190-271 | the low mask bits are a special code only where the special case was chosen; then nothing is written and the sequence numbers moved by the data last sent; otherwise the bits name exactly the fields that changed |
| `VjRoundTrip.TcpStage` | proj/UPST_LIB/SRC/ANZ_LIB/VJ.c:473-514 | undoing the changes or the special code gives the new sequence number, acknowledgement, window, urgent pointer and URG bit, reading exactly what was written |
| `VjRoundTrip.FieldStage` | proj/UPST_LIB/SRC/ANZ_LIB/VJ.c:455-523 | with checksum, PSH and IP id as well: all fields that are sent arrive, for every pair of old and new header |
| `VjRoundTrip.PatchStage` | proj/UPST_LIB/SRC/ANZ_LIB/VJ.c:155-281 | the patched header is the new packet's in every octet but the length, the IP checksum, the reserved bits and the flags, and those are told |
| `VjRoundTrip.CompressedHeaderSize` | proj/UPST_LIB/SRC/ANZ_LIB/VJ.c:290-319 | a compressed header is 3 to 16 octets and shorter than the header it replaces |
| `VjRoundTrip.FinishExact` | proj/UPST_LIB/SRC/ANZ_LIB/VJ.c:536-577 | between agreeing slots the rebuilt packet equals the sent one if and only if the coding carries all of it, and then the slots agree again; otherwise it is the packet with the length, the checksum, the reserved bits and the flags that are told, or none above 1520 octets; the saved header is brought up to date even then |
| `VjRoundTrip.HandedOnUnique` | proj/UPST_LIB/SRC/ANZ_LIB/VJ.c:557-577 | what is handed on in that case is fixed in every octet |
| `VjRoundTrip.RebuildExact` | proj/UPST_LIB/SRC/ANZ_LIB/VJ.c:449-577 | the same from the octets of the frame |
| `VjRoundTrip.RebuildAnywhere` | proj/UPST_LIB/SRC/ANZ_LIB/VJ.c:449-582 | an emitted frame raises no error in any slot, touches no other slot, and yields a packet unless that exceeds 1520 octets |
| `VjStale.TcpIff` | proj/UPST_LIB/SRC/ANZ_LIB/VJ.c:473-514 | undoing the changes in any saved header gives the new packet's fields if and only if it was level with the sender's, counted from the next expected number after a special code |
| `VjStale.AssembleIff` | proj/UPST_LIB/SRC/ANZ_LIB/VJ.c:557-577 | header and data put together are the packet if and only if the header is its own and its length and checksum are canonical |
| `VjStale.RebuildIff` | proj/UPST_LIB/SRC/ANZ_LIB/VJ.c:449-582 | whatever the slot holds, the packet comes back octet for octet if and only if it is canonical and the slot fits |
| `VjStep.UncompressedStep` | proj/UPST_LIB/SRC/ANZ_LIB/VJ.c:322-398 | from any receiver state an uncompressed frame returns its packet, puts its slot in step, names the connection and ends tossing |
| `VjStep.CompressedStep` | proj/UPST_LIB/SRC/ANZ_LIB/VJ.c:283-320 | an accepted compressed frame returns its packet if and only if it is canonical and the slot it is applied to fits; on its own slot, and that in step, if and only if it carries it in full; no slot but those two falls out of step |
| `VjStep.MisroutedStep` | proj/UPST_LIB/SRC/ANZ_LIB/VJ.c:433-458 | an implicit frame applied to a slot in step of another conversation yields a packet with that conversation's addresses and ports |
| `VjStep.LostStep` | proj/UPST_LIB/SRC/ANZ_LIB/VJ.c:410-414 | a reported loss sets the toss flag, and only the lost packet's slot falls out of step |
| `VjStep.CodedSlot` | proj/UPST_LIB/SRC/ANZ_LIB/VJ.c:160-168 | a packet is coded only against a slot that was used, for its own conversation |
| `VjLink.TrackStep` | proj/UPST_LIB/SRC/ANZ_LIB/VJ.c:352-582 | every event of a line, delivered, lost and reported, or lost unnoticed, keeps the two ends in step on the tracked slots, and what it returns |
| `VjLink.RunStaysInStep` | proj/UPST_LIB/SRC/ANZ_LIB/VJ.c:352-582 | over every run, with any losses, the two ends stay in step on the tracked slots, and the session counter is the count of uncompressed frames modulo 256; with every loss reported they agree on the last connection unless tossing or refusing |
| `VjLink.OutcomeExact` | proj/UPST_LIB/SRC/ANZ_LIB/VJ.c:400-582 | for every packet of every run with any losses: what comes out, and if and only if when it is the packet; with every loss reported an accepted frame is applied to its own slot |
| `VjLink.FullSyncInvariant` | proj/UPST_LIB/SRC/ANZ_LIB/VJ.c:287-332 | while packets return, both ends agree on every used slot and on the last connection, and the receiver is not tossing |
| `VjLink.RoundTripExact` | proj/UPST_LIB/SRC/ANZ_LIB/VJ.c:50-582 | a lossless run from initialisation returns every packet octet for octet if and only if every packet meets the condition above |
| `VjLink.Resynchronised` | proj/UPST_LIB/SRC/ANZ_LIB/VJ.c:367-398 | from any receiver state one uncompressed frame that arrives is returned, and from then on, with losses reported, all packets of its slot come back if and only if each arrives and, if coded, is accepted and carried in full, whatever the other slots hold |
| `VjLink.SilentLossMisroutes` | proj/UPST_LIB/SRC/ANZ_LIB/VJ.c:433-458 | after any run in full step, while the session counter is not at 0, an unnoticed loss on another conversation than the last makes the next implicit frame come out, unless too long, as a packet of that last conversation |
| `VjLink.SilentLossDrifts` | proj/UPST_LIB/SRC/ANZ_LIB/VJ.c:449-523 | after any run in full step, while the session counter is not at 0, an unnoticed loss on the last conversation: its successor comes back if and only if it is canonical and the header from before the loss fits it, which it does not if the lost packet had an IP id of its own |
| `VjLimits.UrgentFlagSticks` | proj/UPST_LIB/SRC/ANZ_LIB/VJ.c:475-499 | a run of two segments whose second meets every condition but that about URG, and comes out as it was sent with URG still set |
| `VjLimits.SilentLossRun` | proj/UPST_LIB/SRC/ANZ_LIB/VJ.c:433-458 | a run of two conversations in which, after one unnoticed loss, a segment of the first comes out as one of the second |
| `VjLimits.HeaderlessFrame` | proj/UPST_LIB/SRC/ANZ_LIB/VJ.c:388-396 | a run in which an uncompressed frame without a header makes a later packet, rebuilt in a slot that holds an IP header, fail the header check |
| `VjLru.FileIsTouch` | proj/UPST_LIB/SRC/ANZ_LIB/VJ.c:87-143 | search, reuse and relinking are one step of an LRU cache of at most 16 conversations that evicts the least recent |
| `VjLru.FilePreservesLru` | proj/UPST_LIB/SRC/ANZ_LIB/VJ.c:118-143 | unused slots stay behind the used ones, and no two used slots share a conversation |
| `VjLru.RunIsLruCache` | proj/UPST_LIB/SRC/ANZ_LIB/VJ.c:91-102 | over every run, connection ids left out or not, the transmit states are that cache, each entry with the header last sent |
| `VjLru.UsedKeysDiffer` | proj/UPST_LIB/SRC/ANZ_LIB/VJ.c:91-116 | no two used slots are saved for one conversation, in terms of slots |
| `VjLru.CodedAgainstCache` | proj/UPST_LIB/SRC/ANZ_LIB/VJ.c:110-115 | a packet is coded against the cache's entry for its conversation |
| `VjWire.CodeIff` | proj/UPST_LIB/SRC/ANZ_LIB/VJ.c:160-271 | a packet is coded against a saved header if and only if the fixed fields and options are equal, sequence number and acknowledgement advance by less than 2^16, URG is set or the urgent pointer is the same, the mask is no reserved one, and something changed or the last packet was a bare acknowledgement and the lengths differ |
| `VjWire.KindExact` | proj/UPST_LIB/SRC/ANZ_LIB/VJ.c:69-333 | after every run the type of the next frame, from the cache of the headers sent: 0x40 for what passes by, 0x80 if and only if the conversation is cached and the packet can be coded against that header, else 0x70 |
| `VjWire.RepetitionResyncs` | proj/UPST_LIB/SRC/ANZ_LIB/VJ.c:217-247 | after every run with any losses, what repeats the numbers of the header last sent for its conversation, with nothing urgent, goes as 0x70, and if it arrives it comes back and its slot is in step |
| `VjWire.SentTwice` | proj/UPST_LIB/SRC/ANZ_LIB/VJ.c:217-247 | the second of two such packets in a row goes as 0x70, whatever became of the first |
| `VjWire.WireExact` | proj/UPST_LIB/SRC/ANZ_LIB/VJ.c:170-333 | every octet of a frame from the fields of the two headers: change octet, connection id, TCP checksum, urgent pointer, window, acknowledgement, sequence number and IP id in that order and each in one or three octets, and the data; or the packet with the slot for its protocol |
| `VjWire.SpecialsIff` | proj/UPST_LIB/SRC/ANZ_LIB/VJ.c:221-271 | the two special codes are used exactly for echoed typing and for a transfer in one direction |
| `VjWire.IdLeftOut` | proj/UPST_LIB/SRC/ANZ_LIB/VJ.c:298-316 | after every run a compressed frame leaves its connection id out if and only if that is allowed and the last TCP packet was of the same conversation |
| `VjReceiver.ReceiverInvariant` | proj/UPST_LIB/SRC/ANZ_LIB/VJ.c:352-582 | whatever arrives, saved header lengths stay within 120 octets, saved IP checksums stay zero, and only the slot of `last_recv` changes |
| `VjReceiver.EveryRebuiltHeaderVerifies` | proj/UPST_LIB/SRC/ANZ_LIB/VJ.c:562-577 | in every run, whatever arrives, every packet rebuilt into a slot with an IP header and a length that goes with it gives 0 under `CheckSum` and has its true length |
| `VjReceiver.RunStaysWhole` | proj/UPST_LIB/SRC/ANZ_LIB/VJ.c:388-393 | every slot has a length that goes with its header, unless an uncompressed frame without a header arrives |
| `VjReceiver.RebuiltSize` | proj/UPST_LIB/SRC/ANZ_LIB/VJ.c:536-562 | a rebuilt packet is the saved header length and what the frame has behind its compressed header |
| `VjReceiver.AssembledVerifies` | proj/UPST_LIB/SRC/ANZ_LIB/VJ.c:566-576 | the recomputed checksum makes the header sum to zero |
| `VjReceiver.TossClearedExactly` | proj/UPST_LIB/SRC/ANZ_LIB/VJ.c:374-431 | the toss flag is cleared by exactly the frames that name an in-range connection, are not refused for the session counter, and are long enough; until then all but plain IP is dropped |
| `VjReceiver.TossUntilCleared` | proj/UPST_LIB/SRC/ANZ_LIB/VJ.c:438-447 | in every run the flag stays set, and only plain IP comes out, until such a frame |
| `VjReceiver.TossUntilNamed` | proj/UPST_LIB/SRC/ANZ_LIB/VJ.c:438-447 | and nothing at all changes until a frame names a connection and is not refused |
| `VjReceiver.TossSetExactly` | proj/UPST_LIB/SRC/ANZ_LIB/VJ.c:374-431 | the toss flag is set by exactly the detected errors, told from the frame |
| `VjReceiver.ProtocolRestored` | proj/UPST_LIB/SRC/ANZ_LIB/VJ.c:367-398 | an uncompressed frame is handed on as it came but for the protocol, which is TCP again, unless its slot number is out of range |
| `VjReceiver.RebuiltKey` | proj/UPST_LIB/SRC/ANZ_LIB/VJ.c:449-577 | what is rebuilt in a slot has the addresses and ports saved there |
| `VjReceiver.PatchSpan` | proj/UPST_LIB/SRC/ANZ_LIB/VJ.c:473-523 | where the data starts depends on the frame alone, not on the slot |
| `VjReceiver.PatchFrame` | proj/UPST_LIB/SRC/ANZ_LIB/VJ.c:455-523 | the octets of a saved header that a compressed packet never touches |
| `SlCompress.Line.constructor` | proj/UPST_LIB/SRC/ANZ_LIB/VJ.c:591-619 | blank states in one cycle, no connection remembered at either end |
| `SlCompress.Line.LinkStates` | proj/UPST_LIB/SRC/ANZ_LIB/VJ.c:604-610 | the links and ids of the transmit states |
| `SlCompress.Line.FindState` | proj/UPST_LIB/SRC/ANZ_LIB/VJ.c:87-143 | the list stays one 16-cycle; the state found, or the oldest, is moved to the front of the order |
| `SlCompress.Line.MoveToFront` | proj/UPST_LIB/SRC/ANZ_LIB/VJ.c:131-142 | the three link assignments move one state to the front and keep the cycle |
| `SlCompress.RelinkedChain` | proj/UPST_LIB/SRC/ANZ_LIB/VJ.c:139-141 | the relinked array is one cycle in the new order |
| `SlCompress.RotatedChain` | proj/UPST_LIB/SRC/ANZ_LIB/VJ.c:118-126 | moving `last_cs` back alone makes the oldest state the newest |
| `SlCompress.CodeFields` | proj/UPST_LIB/SRC/ANZ_LIB/VJ.c:174-215 | what the code leaves in `new_seq` and in the mask, or that it goes uncompressed |
| `SlCompress.CodeChanges` | proj/UPST_LIB/SRC/ANZ_LIB/VJ.c:155-281 | the whole coding into the 16 octets of `new_seq`, which suffice |
| `SlCompress.Line.FileHeader` | proj/UPST_LIB/SRC/ANZ_LIB/VJ.c:50-288 | state search, coding and saving together are one step of the transmit function |
| `SlCompress.WriteCompressed` | proj/UPST_LIB/SRC/ANZ_LIB/VJ.c:290-320 | the compressed header ends where the data starts, and the data does not move |
| `SlCompress.Line.Compress` | proj/UPST_LIB/SRC/ANZ_LIB/VJ.c:50-333 | the packet in the buffer becomes the frame of the transmit function, in place, and the state its state |
| `SlCompress.FixTcpAt` | proj/UPST_LIB/SRC/ANZ_LIB/VJ.c:473-514 | the switch on the special codes, reading from the buffer |
| `SlCompress.PatchHeader` | proj/UPST_LIB/SRC/ANZ_LIB/VJ.c:455-523 | the header patched from the buffer is that of the receive function |
| `SlCompress.AlignDown` | proj/UPST_LIB/SRC/ANZ_LIB/VJ.c:548-556 | the data moves down to a 32-bit boundary unharmed, by at most 3 octets |
| `SlCompress.BuildPacket` | proj/UPST_LIB/SRC/ANZ_LIB/VJ.c:548-577 | aligned, the header stands directly in front of the data, or the packet is too long; without a header of its length, the checksum goes into the data |
| `SlCompress.HeaderSum` | proj/UPST_LIB/SRC/ANZ_LIB/VJ.c:566-575 | the summing loop with two folds computes the checksum that folding to the end gives |
| `SlCompress.Line.RefreshState` | proj/UPST_LIB/SRC/ANZ_LIB/VJ.c:367-398 | an uncompressed packet in place |
| `SlCompress.Line.RebuildPacket` | proj/UPST_LIB/SRC/ANZ_LIB/VJ.c:449-582 | a compressed packet in place, at most 128 octets in front of where it was, on a 32-bit boundary, and how many octets its compressed header took |
| `SlCompress.Line.Uncompress` | proj/UPST_LIB/SRC/ANZ_LIB/VJ.c:352-582 | the buffer, the state and the length of the compressed header become what the receive functions say, within the promised 128 octets of room |
| `SlLink.Carry` | proj/UPST_LIB/SRC/ANZ_LIB/VJ.c:50-582 | one packet through both routines and their buffers is one step of the line |
| `SlLink.CarryAll` | proj/UPST_LIB/SRC/ANZ_LIB/VJ.c:50-619 | any sequence of packets, whatever becomes of their frames, yields in the buffers what the run yields; without loss all come back octet for octet if and only if each meets the condition above |
| `Checksum.CheckSum` | proj/DSC_R2/SMLEG/libsrc/ANZ_LIB/Analyze_Inf.c:521-546 | terminates for every buffer whose sum fits, with the one number that brings the octets, those at odd places weighing 256, to a multiple of 65535; 0 exactly when they add up to a positive one |
| `Checksum.SumWords` | proj/DSC_R2/SMLEG/libsrc/ANZ_LIB/Analyze_Inf.c:526-537 | the loop adds all octets, those at odd places weighing 256, the left-over one included, within 63 bits |
| `Checksum.WordSumIs` | proj/DSC_R2/SMLEG/libsrc/ANZ_LIB/Analyze_Inf.c:526-537 | two octets at a time and the left-over one give the sum of all octets by their weight |
| `Checksum.OddIsPadded` | proj/DSC_R2/SMLEG/libsrc/ANZ_LIB/Analyze_Inf.c:535-537 | RFC 1071: a buffer of odd length has the checksum of the same buffer with a zero octet behind it |
| `Checksum.ChecksumExact` | proj/DSC_R2/SMLEG/libsrc/ANZ_LIB/Analyze_Inf.c:521-546 | the checksum is the one 16-bit number that makes the octets by their weight a multiple of 65535, all ones exactly for a sum of zero |
| `Checksum.FoldResidue` | proj/DSC_R2/SMLEG/libsrc/ANZ_LIB/Analyze_Inf.c:540-541 | folding keeps the residue modulo 65535 and reaches 0 only from 0 |
| `Checksum.TwoFoldsSuffice` | proj/UPST_LIB/SRC/ANZ_LIB/VJ.c:573-575 | two folds equal folding to the end for every 32-bit sum |
| `Checksum.StoredChecksumVerifies` | proj/DSC_R2/SMLEG/libsrc/ANZ_LIB/Analyze_Inf.c:521-546 | RFC 1071: stored in its zeroed aligned field, the checksum makes the whole give 0 |
| `Checksum.VerifiesIffStored` | proj/DSC_R2/SMLEG/libsrc/ANZ_LIB/Analyze_Inf.c:258-262 | a header passes the check exactly when its field is the checksum of the rest, the all-ones form of zero apart |
| `PppFcs.TableCorrect` | proj/UPST_LIB/SRC/ANZ_LIB/analyze_PPP.c:23-56 | all 256 table entries are eight steps of the bitwise CRC with polynomial 0x8408 |
| `PppFcs.TableRound` | proj/UPST_LIB/SRC/ANZ_LIB/analyze_PPP.c:1026-1027 | one table round is one octet of the bitwise CRC |
| `PppFcs.CheckFCS` | proj/UPST_LIB/SRC/ANZ_LIB/analyze_PPP.c:1014-1035 | -1 for a frame without data, else 1 exactly when the bitwise CRC over data and FCS leaves 0xF0B8 |
| `PppFcs.ResidueIff` | proj/UPST_LIB/SRC/ANZ_LIB/analyze_PPP.c:1028-1034 | the residue 0xF0B8 names exactly the complemented register, low octet first |
| `PppFcs.FcsAccepted` | proj/UPST_LIB/SRC/ANZ_LIB/analyze_PPP.c:1014-1035 | data followed by its FCS is accepted |
| `PppFcs.AcceptsIff` | proj/UPST_LIB/SRC/ANZ_LIB/analyze_PPP.c:1028-1034 | a frame with data is accepted if and only if its last two octets before the flag are the FCS of the data |
| `PppFcs.OnesFcs` | proj/UPST_LIB/SRC/ANZ_LIB/analyze_PPP.c:1018 | two octets of ones are their own FCS, and with no other initial register |
| `PppFcs.LeadingZeroSeen` | proj/UPST_LIB/SRC/ANZ_LIB/analyze_PPP.c:1018-1027 | a zero octet in front of any data changes its FCS |
| `PppFcs.EchoRequestAccepted` | proj/UPST_LIB/SRC/ANZ_LIB/analyze_PPP.c:1014-1035 | an LCP echo request in its RFC 1662 frame is accepted, octet for octet |
| `PppFcs.BurstDetected` | proj/UPST_LIB/SRC/ANZ_LIB/analyze_PPP.c:1014-1035 | of two frames that differ inside two neighbouring octets only, at most one is accepted |
| `PppFraming.RunIsShape` | proj/UPST_LIB/SRC/ANZ_LIB/analyze_PPP.c:516-575 | the automaton's state is the shape of the buffer, for all eleven states |
| `PppFraming.FramedIff` | proj/UPST_LIB/SRC/ANZ_LIB/analyze_PPP.c:238-239 | F_DATA_F exactly when a flag, one or more other octets and another flag come first |
| `PppFraming.GetPPP7EState` | proj/UPST_LIB/SRC/ANZ_LIB/analyze_PPP.c:512-580 | the state of the automaton and the first flag's position |
| `PppFraming.DecodePPP` | proj/UPST_LIB/SRC/ANZ_LIB/analyze_PPP.c:586-616 | the buffer holds the unstuffed octets, which fit, and whether an escape was met |
| `PppFraming.UnstuffStuff` | proj/UPST_LIB/SRC/ANZ_LIB/analyze_PPP.c:595-610 | unstuffing undoes stuffing, whatever follows |
| `PppFraming.EscapesUndone` | proj/UPST_LIB/SRC/ANZ_LIB/analyze_PPP.c:595-610 | 7D 5E becomes 7E, 7D 5D becomes 7D, 7D and a control character plus 0x20 that character, in front of anything; a last 7D stays |
| `PppFraming.StuffedOctets` | proj/UPST_LIB/SRC/ANZ_LIB/analyze_PPP.c:595-610 | the octets of RFC 1662 section 4.2 that a peer sends for a flag, an escape, an escaped control character and any other octet |
| `PppFraming.HasEscapeIff` | proj/UPST_LIB/SRC/ANZ_LIB/analyze_PPP.c:586-616 | stuffing is reported exactly when a 7D has something behind it |
| `PppFraming.FrameReceived` | proj/UPST_LIB/SRC/ANZ_LIB/analyze_PPP.c:236-247 | every frame built as RFC 1662 section 4 says is recognised, unstuffed to its payload and FCS between flags, and accepted |
| `Bst.Arena.constructor` | tree/bst.fail/bst_func.c:432-465 | an empty tree over one free chain |
| `Bst.Arena.Seek` | tree/bst.fail/bst_func.c:195-222 | on a tree that is not empty the bounded search never runs out: it ends at the value or at its insertion parent |
| `Bst.Arena.Insert` | tree/bst.fail/bst_func.c:224-272 | full, duplicate and new: the return value, the tree and the contents after each, with the arena invariant kept |
| `Bst.Arena.LinkUp` | tree/bst.fail/bst_func.c:242-268 | what an insertion writes into the array |
| `BstRuns.InsertAll` | tree/bst.fail/bst_func.c:224-272 | any sequence of inserts, duplicates and overflow included: every return value, the contents and their number, and that they are exactly the data of the first `size` array nodes |
| `BstRuns.HeldIsTaken` | tree/bst.fail/bst_func.c:228-246 | the tree holds exactly the values that were accepted |
| `BstRuns.RepliesMean` | tree/bst.fail/bst_func.c:228-246 | no value is accepted twice, keys count the accepted values, -2 is the answer to a value accepted before, -1 means a full tree |
| `Bst.HangDescribes` | tree/bst.fail/bst_func.c:242-260 | the links still describe a tree: nothing shared, no cycle, parents right |
| `Bst.GrowOrdered` | tree/bst.fail/bst_func.c:243-246 | the grown tree is strictly ordered |
| `Bst.GrowValues` | tree/bst.fail/bst_func.c:235-237 | it holds the new value and the old ones |
| `Bst.GrowDepths` | tree/bst.fail/bst_func.c:252-257 | every recorded depth is at least the true one and at most the tree's |
| `Bst.HeightBound` | tree/bst.fail/bst_func.c:200-221 | so no path is longer than the search allows |
| `Bst.TargetFinds` | tree/bst.fail/bst_func.c:204-218 | the search ends on a value if and only if it is in the tree |
| `NtpAlarm.RunSane` | toptest/ntpd.c:191-444 | in every run a list that is there means a daemon that is up, and a normal channel's flag is its streak of critical polls, at most 3 |
| `NtpAlarm.Debounce` | toptest/ntpd.c:369-423 | in every run a normal channel turns critical exactly when the list vanishes or at the fourth critical poll in a row |
| `NtpAlarm.Recovery` | toptest/ntpd.c:376-392 | a critical channel turns normal exactly at a healthy poll of a daemon that was up |
| `NtpAlarm.AlarmsAlternate` | toptest/ntpd.c:234-273 | with masks off, the published levels are the internal ones, and the alarms of each item alternate, each naming the level before it |
| `NtpAlarm.LevelIff` | toptest/ntpd.c:337-360 | a poll shows 3 if and only if some server marked `*` or `+` was heard of within its polling interval or reach, else 6 |
| `NtpAlarm.LevelsAfter` | toptest/ntpd.c:191-444 | the daemon's and the channel's level and the flag after any poll of any state that runs reach, in numbers |
| `NtpAlarm.AlarmsAfter` | toptest/ntpd.c:234-473 | each poll sends one alarm, with item, new and old level, for each item that is not masked and goes from a level other than 0 to another, and no other alarm |
| `NtpAlarm.PublishedAfter` | toptest/ntpd.c:234-473 | the two published octets after any poll, mask bits included |
| `NtpAlarm.FirstSetting` | toptest/ntpd.c:415-419 | the first setting of the channel is 3 if and only if the poll shows a server heard of in time, is published under any mask, and sends no alarm |
| `NtpAlarm.MaskKept` | toptest/ntpd.c:458-474 | no poll changes a mask bit |
| `NtpAlarm.RunMasked` | toptest/ntpd.c:234-473 | in every run the mask bits stay as they were put, and a masked item raises no alarm |
| `NtpAlarm.Monitor.SetNTPSTS` | toptest/ntpd.c:448-474 | publishes the level behind the mask bit, and sends one alarm, with item, new and old level, exactly if that bit is clear |
| `NtpAlarm.Monitor.Judge` | toptest/ntpd.c:337-360 | a poll is normal exactly when some selected server was heard of in time |
| `NtpAlarm.Monitor.CompareNTPSTS` | toptest/ntpd.c:191-444 | one poll changes the variables as the state machine says |
| `CpuLoad.Percentages` | toptest/load.c:250-308 | the recorded differences, the readings kept for next time, the total, and the rounded shares |
| `CpuLoad.ShareExact` | toptest/load.c:289-304 | the share is the one number within half of 1000 times the change over the total, ties going up |
| `CpuLoad.TotalIsThousand` | toptest/load.c:289-304 | the shares of non-negative changes with a positive total add up to 1000, give or take half their number |
| `CpuLoad.Meter.ReadCpuLoad` | toptest/load.c:203-245 | one reading: the counters kept, the changes recorded, the four shares, and a total of 0 without a change, else between 998 and 1002 |
| `CpuLoad.ReadAll` | toptest/load.c:203-245 | the changes and totals of every run of readings |
| `CpuLoad.ChangesTelescope` | toptest/load.c:259-273 | over every run without a counter wrap the recorded changes between two readings add up to the later less the earlier one |

## Left out

- Reading past short inputs: what follows a frame in the receive buffer is a parameter, and the buffer is at least 128 octets long.
- SlCompress.Line.Uncompress: where a slot has been left with a header length of 0 and the data is shorter than the IP header and not aligned, the checksum is computed over octets that the alignment has moved; the two octets it goes to are then not described.
- Packets with `ip_hl` below 5 or `th_off` below 5 at the compressor: the caller is taken to hand over IP and TCP headers.
- Loading of aligned words: headers are compared and summed octet by octet, the checksums as a little-endian machine reads them.
- `Analyze_PPP` after its frame check, `IsCompletePPPPacket` and the LCP, PAP, CHAP, IPCP and CCP analysers: field copying.
- The Ethernet, IP, TCP and UDP field extraction of `Analyze_Inf.c`, apart from the header check.
- `bst_delete` and its helpers, which are unfinished in the source, `bst_view` with its queue, and printing.
- Bst.Arena.Insert: the `key` and `data` written into the first free node by a rejected duplicate are not described, because no node of the tree changes.
- `CheckNTPStS` (running and parsing `ntpq`), the fields of the alarm message beyond item and levels, and message queue failures.
- CpuLoad.Percentages: counters that have wrapped are excluded, because the cast through `int` is platform dependent.
- CpuLoad.Meter.ReadCpuLoad: the reading of `/proc/stat`; the four counters are a parameter.
- Integer widths of the load counters and of the server intervals: values are unbounded.
- Threads, sockets, databases, shared memory, logging and configuration files.

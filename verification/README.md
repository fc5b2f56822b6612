# The SSTP tunnel path, modelled and proved

This project models the octet-level path of the SSTP client: the in-process PPP engine with its MPPE
encryption and its transmit queue, the HDLC-like framing towards pppd, the SSTP packets and their
reassembly from partial reads, the state machine that keeps the tunnel alive, and the messages exchanged
with the pppd plug-in. Code that changes fields and buffers in place is modelled by classes and arrays;
what it computes is stated by functions on octet sequences, and the properties are proved about those.

- `Bytes`, `Common`: octets, bit patterns, big-endian fields, return values.
- `Fcs`, `Hdlc`, `HdlcStream`: the frame check sequence, the frame encoder and decoder, and the resumable
  loop that turns a stream of octets from pppd into SSTP packets.
- `Packet`, `Stream`, `State`: building and parsing SSTP packets, reassembly, the SSTP state machine.
- `TxQueue`: the linked transmit queue with at most one packet in flight.
- `Mppe`: the session key schedule, the coherency count, and resynchronisation.
- `PppOptions`, `Engine`, `Pppd`: PPP option lists, what the engine does with one packet as functions of
  its state, and the object that carries this out in place. Every method of `Pppd.Pppd` is proved to have
  exactly the effect that the function of the same name in `Engine` states.
- `Negotiation`, `Delivery`, `Conversation`: properties of whole runs: safety of the negotiation, IPCP
  convergence, delivery of IP packets one way, and both ways at once.
- `Wire`: what each packet of the peer leads to, octet by octet and without the functions of `Engine`, and a
  whole session from creation to the notification that the link is up.
- `Api`: the aligned attributes of the plug-in messages.
- `Url`: the URL splitter, which cuts a working copy into strings in place.

The main results:

1. End to end, from object to object (`State.EndToEnd`): at any moment of any run of both, of the IP packets
   given to one engine since they came to use the same key, exactly those have been delivered by the other
   whose frames it has handled, in order, whatever the sizes of the reads, whatever came before on the
   stream, and whatever control packets come in between; and all of them once nothing is pending and nothing
   waits in the queue. Both ways at once, whatever sends, receptions and configuration packets interleave:
   `Conversation.ConversationKeeps`.
2. The HDLC stream gives the same payloads however its octets are cut into reads
   (`HdlcStream.DrainAppend`), and over any sequence of reads and blocked sends the object hands over exactly
   those, except as said below (`HdlcStream.Pppd.ReadAll`); from creation on a stream of encoded frames
   becomes exactly the payloads encoded (`HdlcStream.Relay`).
3. The table-driven FCS is the bit-by-bit CRC; a frame whose content is corrupted within two adjacent
   octets is never accepted, at any length (`Fcs.AdjacentErrorDetected`, `Hdlc.CorruptionRejected`).
4. The MPPE receiver recovers the plaintext of every packet that arrives as long as no more than 4094
   packets in a row are missing, and one more goes unnoticed (`Mppe.LossyRun`, `Mppe.WrapsUnnoticed`).
5. Over every run of the PPP engine SSTP_PPP_UP is notified at most once, and only in a state that is
   ready for it (`Negotiation.NegotiationSafety`); IPCP reaches the values of the server after at most
   three refusals (`Negotiation.IpcpConverges`).
6. Against a server that greets, challenges, reports success, acknowledges our CCP request and then
   acknowledges or corrects our requests for addresses, each time in answer to a packet that the engine has
   put out before, a session comes up from creation on, authenticated, with the server's addresses and with
   MPPE at the start of its schedule in both directions (`Wire.SessionComesUp`); such a server exists for
   every choice of addresses (`Wire.ServerServes`).
7. The transmit queue hands no packet to the stream while the stream still works on another one, whatever it
   answers, and every packet enqueued is accounted for (`TxQueue.InTurn`, `TxQueue.Conserved`); the loop over
   the HDLC stream stops behind the first packet that is not sent at once, and only there
   (`HdlcStream.Pppd.ProcessData`).

Where the code does less than it is meant to, the exact condition is proved:

- An unauthenticated peer can bring the link up exactly if it has sent a CCP packet that ends CCP
  negotiation (`Negotiation.UnauthenticatedUpIff`).
- What has been read of a header is taken for a whole packet, and lost, exactly if the length seen in
  left-over octets is at most what is there (`Stream.Stream.RecvSstp`, `State.SstpState.RecvReady`). In a
  fresh buffer that is so for one and for two octets of the first header, and for three if the packet is
  shorter than 256 octets (`Stream.MistakenWhenFresh`); behind an earlier packet it needs a new length
  below 256 and an old one of at most 3 modulo 256 (`Stream.HeaderSafeBehind`, and for the object
  `State.SstpState.RecvNext`). If header reads give all
  missing octets or none, it does not happen.
- A timeout loses octets exactly if it comes inside a packet (`State.SstpState.RecvTimeout`).
- A flag left over behind the live octets closes an incomplete frame exactly as a flag received next
  would, unless there are only flags so far or the last octet is an escape (`Hdlc.DecodeFlagBehind`). If
  the frame then passes its check its payload is handed over early; that does no harm if and only if the
  octet received next is a flag (`HdlcStream.AheadIff`), and `HdlcStream.PrematureFrame` gives frames for
  which it is not. `HdlcStream.EarlyRun` is a run from creation that goes wrong in this way.
- A plain IP frame is delivered in every state, also before authentication and while MPPE is on
  (`Delivery.DeliversIff` says exactly what is delivered).
- The second attribute of a message is looked for eight octets ahead of where it lies (`Packet.ParseTwo`).
- The room offered for encoding, twice the packet plus four, is too small exactly for packets in which
  fewer than two octets before the last need no escape (`Hdlc.CallerRoom`).

The documentation (docs/architecture.md:44, docs/sstp-engine.md:59) puts CCP after IPCP; the code asks for
CCP on CHAP success and sends its IPCP request only once CCP is finished (sstp/ios-pppd.c:339-350), and so
does the model.

## Model

| member | source | states |
|---|---|---|
| Fcs.TableEntryIsCrc | sstp/sstp-fcs.c:33-67 | each of the 256 table entries is eight steps of the bitwise reflected CRC (polynomial 0x8408) of its index |
| Fcs.TableStepIsCrcStep | sstp/sstp-fcs.c:72-75 | one table-driven update equals eight bitwise steps, for every register and octet |
| Fcs.FrameCheck | sstp/sstp-fcs.c:70-78 | the loop computes the bitwise CRC of the octets, from any start value |
| Fcs.CrcConcat | sstp/sstp-fcs.c:70-78 | the CRC splits over concatenation |
| Fcs.GoodResidue | sstp/sstp-fcs.c:147-148 | any message followed by its complemented FCS leaves the residue 0xf0b8 |
| Fcs.GoodResidueIff | sstp/sstp-fcs.c:129-134 | the residue is 0xf0b8 if and only if the last two octets are the FCS of those before |
| Fcs.PairInjective | sstp/sstp-fcs.c:70-78 | two octets enter the register without loss |
| Fcs.AdjacentErrorDetected | sstp/sstp-fcs.c:70-78 | equal-length messages of any length that differ only within two adjacent octets have different CRCs |
| Hdlc.PutStuffed | sstp/sstp-fcs.c:182-193 | one octet is written, escaped exactly if it must be, and nothing else changes |
| Hdlc.StuffOctets | sstp/sstp-fcs.c:182-193 | control characters, flags and escapes become an escape and the octet with bit 5 inverted, all others stay |
| Hdlc.StuffClean | sstp/sstp-fcs.c:182-193 | between the flags there is neither a flag nor a control character |
| Hdlc.FrameEncode | sstp/sstp-fcs.c:140-203 | succeeds if and only if the room needed is offered; then exactly the encoding is written; on overflow nothing behind the room is touched |
| Hdlc.EncodedSize | sstp/sstp-fcs.c:140-203 | the encoding has the payload, four octets and one per escape; the exact room needed; 2n+6 always suffices |
| Hdlc.RoomTight | sstp/sstp-fcs.c:176-180 | the bound 2n+6 is reached |
| Hdlc.CallerRoom | sstp/sstp-pppd.c:478 | the caller's 2n+4 octets suffice if and only if two octets before the last need no escape |
| Hdlc.Unstuff | sstp/sstp-fcs.c:88-117 | skips flags and copies octets to the closing flag, never beyond the output, as the scan defines |
| Hdlc.FrameDecode | sstp/sstp-fcs.c:81-137 | status, index, size and payload of decoding, for every memory content, including the octet read behind the live ones |
| Hdlc.RoundTrip | sstp/sstp-fcs.c:81-203 | decoding an encoding, after any flags and before anything else, gives the payload and the index of the closing flag |
| Hdlc.AcceptedIff | sstp/sstp-fcs.c:119-136 | a frame is accepted if and only if its content is a payload of two octets or more with its FCS |
| Hdlc.CorruptionRejected | sstp/sstp-fcs.c:129-134 | content that differs from an encoded one only within two adjacent octets is rejected |
| Hdlc.PrefixOverflows | sstp/sstp-fcs.c:111-115 | every strict prefix of an encoding gives SSTP_OVERFLOW |
| Hdlc.DecodeExtend | sstp/sstp-fcs.c:88-117 | octets that arrive later do not change the outcome of a frame that was closed |
| Hdlc.DecodeFlagBehind | sstp/sstp-fcs.c:88-117 | a flag behind the live octets acts exactly as a flag received next; it leaves an incomplete frame open if and only if there are only flags or the last octet is an escape |
| Hdlc.ScanFlagAppended | sstp/sstp-fcs.c:94-117 | the same for the scan of a frame body, from any position |
| HdlcStream.DrainAppend | sstp/sstp-pppd.c:326-413 | draining two reads one after the other, keeping the residue, equals draining their concatenation |
| HdlcStream.DrainEncoded | sstp/sstp-pppd.c:351-404 | a list of encoded frames is drained into exactly the payloads, in order |
| HdlcStream.DrainPrefix | sstp/sstp-pppd.c:356-363 | a strict prefix of a frame yields nothing and is kept whole |
| HdlcStream.DrainCorrupt | sstp/sstp-pppd.c:365-371 | a corrupt frame is skipped to its closing flag, and draining goes on there |
| HdlcStream.DrainStep | sstp/sstp-pppd.c:351-378 | one turn of the loop agrees with the drain; accepting at the very end of the live octets agrees with the drain of one flag more |
| HdlcStream.CoversStep | sstp/sstp-pppd.c:351-378 | each turn keeps the account of the payloads emitted and still to be found, or runs ahead by exactly the payload a flag would close |
| HdlcStream.AheadIff | sstp/sstp-pppd.c:373-412 | having run ahead does no harm if and only if the octet received next is a flag; otherwise one payload too many has been emitted |
| HdlcStream.PrematureFrame | sstp/sstp-pppd.c:353-375 | for every payload, in the encoding of each longer payload that starts with it and its check field, a read that ends there over a left-over flag yields the shorter payload |
| HdlcStream.Pppd.KeepRest | sstp/sstp-pppd.c:359-362 | the live octets move to the front unchanged, and memory behind them is kept |
| HdlcStream.Pppd.CopyFrame | sstp/sstp-pppd.c:341-378 | one frame is decoded straight into an SSTP data packet |
| HdlcStream.Pppd.Turn | sstp/sstp-pppd.c:336-404 | a turn keeps the invariant and advances; a packet that is handed over and not sent at once ends the loop as in progress, and nothing else does |
| HdlcStream.Pppd.HandOver | sstp/sstp-pppd.c:394-400 | the packet is recorded with the answer of the stream, and anything but SSTP_OKAY has to be waited for |
| HdlcStream.Pppd.ProcessData | sstp/sstp-pppd.c:326-413 | terminates; hands over payloads until the first one that the stream does not send at once, and reports SSTP_INPROG exactly then, or until only the residue is left; a frame is handed over early exactly if it passes its check over a left-over flag |
| HdlcStream.Pppd.Append | sstp/sstp-pppd.c:432-433 | the octets read are added behind the live ones; a flag catches up with a payload handed over early |
| HdlcStream.Pppd.Recv | sstp/sstp-pppd.c:420-464 | one read: the payloads given to the stream are those of all octets received, or exactly one more, and exactly when; what memory holds afterwards; an end of file at the start is reported |
| HdlcStream.Pppd.SendToPppd | sstp/sstp-pppd.c:470-512 | offers the encoding of the packet to pppd, or nothing exactly when the room is too small; succeeds if and only if pppd takes it all |
| HdlcStream.Pppd.SendComplete | sstp/sstp-pppd.c:134-163 | going on after a blocked packet loses and repeats nothing, and waits again exactly if a packet is again not sent at once |
| HdlcStream.Pppd.ReadOne | sstp/sstp-pppd.c:134-163 | one read and as many completions as it takes; terminates, and says when a frame was handed over early |
| HdlcStream.Pppd.ReadAll | sstp/sstp-pppd.c:326-464 | any sequence of reads: the payloads handed over are those of all the octets, if a flag comes next after every read that ends in a frame which passes its check |
| HdlcStream.Relay | sstp/sstp-pppd.c:326-464 | from creation on, encoded frames read in any such pieces become exactly the payloads, one data packet each |
| HdlcStream.EarlyRun | sstp/sstp-pppd.c:351-412 | a run from creation that hands over a payload which the octets do not contain |
| HdlcStream.EarlySizes | sstp/sstp-fcs.c:140-203 | two payloads for which that run exists |
| Packet.PktInit | sstp/sstp-packet.c:34-85 | an empty data packet or a control message without attributes, or failure exactly when there is no room |
| Packet.PutAttr | sstp/sstp-packet.c:115-120 | the attribute is laid out behind the contents, and nothing else changes |
| Packet.PktAttr | sstp/sstp-packet.c:88-134 | the buffer becomes the serialisation with one more attribute: contents, count and length field; on failure it is unchanged |
| Packet.ControlSnoc | sstp/sstp-packet.c:88-134 | which parts of the serialisation an added attribute changes |
| Packet.PktUpdate | sstp/sstp-packet.c:174-178 | the length field, and nothing else, is brought up to date |
| Packet.DataPacketShape | sstp/sstp-packet.c:137-171 | a data packet states its own length, is no control packet, and holds the payload behind its header |
| Packet.PacketOctets | sstp/sstp-packet.c:34-85 | the octets of a data packet and of a control message without attributes |
| Packet.AttributeOctets | sstp/sstp-packet.c:88-134 | the octets of a message with one attribute |
| Packet.PktParse | sstp/sstp-packet.c:209-269 | status, slots and offset for messages with any number of attributes; the walk goes on at the length of each, and the last slot is not cleared |
| Packet.ParseOne | sstp/sstp-packet.c:209-269 | what was built with one attribute is found again: slot, id, length and value |
| Packet.ParseTwo | sstp/sstp-packet.c:257 | of two attributes built the second is looked for eight octets ahead of where it lies |
| Packet.ParseInside | sstp/sstp-packet.c:245-258 | a walk that stays inside the message does not depend on memory behind it |
| Packet.ParseLast | sstp/sstp-packet.c:244 | what was in the slot that is not cleared does not change the walk, and shows exactly if no attribute of its type is visited |
| Packet.ConnectedLayout | sstp/sstp-state.c:554-611 | the CONNECTED message has 112 octets, of which the first 16 are these, with the hash type that bit 1 of the protocols decides; nonce, certificate hash and MAC are at octets 16, 48 and 80 |
| Packet.BuildConnected | sstp/sstp-state.c:554-611 | the MAC is computed over the message with zero MAC octets and then put in its place |
| TxQueue.Queue.constructor | sstp/ios-pppd.c:734-747 | an empty queue |
| TxQueue.Queue.Pop | sstp/ios-pppd.c:203-207 | the first item is unlinked, the rest keeps its order |
| TxQueue.Queue.FlushStart | sstp/ios-pppd.c:194-223 | whatever the sends return: first in first out, at most once, going on exactly behind SSTP_OKAY, and nothing while a packet is outstanding; an idle queue with packets always tries |
| TxQueue.Queue.SendComplete | sstp/ios-pppd.c:178-192 | the outstanding packet is recorded as completed and the next one is tried |
| TxQueue.Queue.WrapFrame | sstp/ios-pppd.c:240-255 | the frame becomes an SSTP data packet |
| TxQueue.Queue.Append | sstp/ios-pppd.c:257-262 | the item is linked behind the last one |
| TxQueue.Queue.EnqueueRaw | sstp/ios-pppd.c:225-267 | every non-empty frame is enqueued once, as a packet; an empty one is refused |
| TxQueue.BalancedStep | sstp/ios-pppd.c:194-223 | handing over a packet keeps the books balanced for every answer: it is outstanding exactly if that is SSTP_INPROG |
| TxQueue.BalancedCallback | sstp/ios-pppd.c:178-192 | once the stream calls back nothing is outstanding, and no other packet is marked as completed |
| TxQueue.InTurn | sstp/ios-pppd.c:199-217 | in every run: if a packet was answered SSTP_INPROG, the next one is handed over only after its completion |
| TxQueue.Conserved | sstp/ios-pppd.c:178-223 | in every run: packets enqueued = sent at once + completed later + dropped because the send failed + in flight + waiting |
| Mppe.Rc4Twice | sstp/ios-pppd.c:655-658 | decrypting from the state the encryption started in gives the plaintext back |
| Mppe.Rc4Concat | sstp/ios-pppd.c:658 | the key stream goes on from one piece of data to the next |
| Mppe.Schedule | sstp/ios-pppd.c:98-112 | the key schedule octet by octet: first the master hashed with itself, then each time the digest put through RC4 keyed with the digest |
| Mppe.DigestBack | sstp/ios-pppd.c:103-108 | RC4 keyed with the digest leads from the next session key back to the digest |
| Mppe.InitialisedHalf | sstp/ios-pppd.c:114-128 | a direction starts with the master hashed with itself, a fresh RC4 state and count 4095 |
| Mppe.SealOctets | sstp/ios-pppd.c:310-318 | the next count and session key, the two header octets and every octet of the ciphertext |
| Mppe.InitInStep | sstp/ios-pppd.c:114-128 | initialisation stands at the start of the key schedule |
| Mppe.GapStep | sstp/ios-pppd.c:652-656 | the measure of the catch-up loop falls by one |
| Mppe.CatchUpSchedule | sstp/ios-pppd.c:650-656 | the loop advances the key schedule by exactly the gap of the counts |
| Mppe.CaughtUp | sstp/ios-pppd.c:650-656 | the same for every place in the schedule; without a gap nothing changes, otherwise the RC4 state is fresh |
| Mppe.OpenAgain | sstp/ios-pppd.c:650-658 | a packet with the count of the one before is decrypted with what follows in the key stream |
| Mppe.ReceiverPosition | sstp/ios-pppd.c:650-656 | the receiver ends at the key of packet i if and only if fewer than 4095 packets are missing |
| Mppe.CountInPacket | sstp/ios-pppd.c:310-318 | the two octets in front of the ciphertext carry the count |
| Mppe.Resynchronise | sstp/ios-pppd.c:640-658 | after up to 4094 lost packets the plaintext, session key, RC4 state and count equal the sender's |
| Mppe.WrapsUnnoticed | sstp/ios-pppd.c:652-656 | after exactly 4095 lost packets the receiver does not rekey |
| Mppe.LossyRun | sstp/ios-pppd.c:98-128 | over every run with bounded losses exactly the packets that arrive are recovered, in order |
| PppOptions.PutOpt | sstp/ios-pppd.c:157-165 | one option is written at the offset, and nothing else changes |
| PppOptions.WalkWritten | sstp/ios-pppd.c:568-581 | the walk visits exactly the options that were written, in order |
| PppOptions.LastWins | sstp/ios-pppd.c:568-581 | the last option of a type is the one that counts |
| Pppd.Pppd.constructor | sstp/ios-pppd.c:734-747 | the engine as created |
| Pppd.Pppd.SendFrame | sstp/ios-pppd.c:269-288 | address, control, protocol and payload are queued, unless the payload exceeds the MRU |
| Pppd.LcpConfreqBody | sstp/ios-pppd.c:352-370 | the body of the LCP request as its options require |
| Pppd.IpcpConfreqBody | sstp/ios-pppd.c:372-393 | the body of the IPCP request holds the three addresses |
| Pppd.CcpConfreqBody | sstp/ios-pppd.c:395-408 | the body of the CCP request: stateless, 128 bits |
| Pppd.FrameBody | sstp/ios-pppd.c:272-286 | address, control, protocol and payload in their places |
| Pppd.ReplyBody | sstp/ios-pppd.c:421-426 | a copy of the packet under another code |
| Pppd.EchoBody | sstp/ios-pppd.c:446-454 | a copy of the packet as a reply, with our magic number if there is room for it |
| Pppd.ResponseBody | sstp/ios-pppd.c:500-520 | the octets of the CHAP response |
| Pppd.PlainBody | sstp/ios-pppd.c:304-308 | the plaintext: protocol and packet |
| Pppd.MppeBody | sstp/ios-pppd.c:314-316 | the bits, the count and the encrypted data in their places |
| Pppd.Pppd.SendLcpConfreq | sstp/ios-pppd.c:352-370 | a new id, and the request queued |
| Pppd.Pppd.SendIpcpConfreq | sstp/ios-pppd.c:372-393 | a new id, and the request queued |
| Pppd.Pppd.SendCcpConfreq | sstp/ios-pppd.c:395-408 | a new id, and the request queued |
| Pppd.Pppd.MaybeNotifyUp | sstp/ios-pppd.c:325-337 | SSTP_PPP_UP exactly on its condition |
| Pppd.Pppd.CcpFinished | sstp/ios-pppd.c:339-350 | CCP is done once; an authenticated engine then asks for its addresses (`Wire.EndOfCcpAsks` says which octets that puts out) |
| Pppd.Pppd.MppeInitKeys | sstp/ios-pppd.c:114-128 | if there are keys, both directions start anew with the master hashed with itself, a fresh RC4 state and count 4095; otherwise nothing changes |
| Pppd.Pppd.SetMppeKeys | sstp/ios-pppd.c:810-816 | the master keys are replaced |
| Pppd.Pppd.HandleLcp | sstp/ios-pppd.c:410-460 | whole effect on state, queue and notifications, for any octets |
| Pppd.Pppd.AcknowledgeLcp | sstp/ios-pppd.c:421-431 | a request is acknowledged, and our own goes with it until LCP is open |
| Pppd.Pppd.HandleChap | sstp/ios-pppd.c:462-491 | whole effect, for any octets |
| Pppd.Pppd.AnswerChallenge | sstp/ios-pppd.c:491-528 | the response is queued and the owner is told, who may set the keys |
| Pppd.Pppd.ReadAddresses | sstp/ios-pppd.c:568-581 | the walk in place reads the last occurrence of each option |
| Pppd.Pppd.ReadPeerAddress | sstp/ios-pppd.c:551-560 | the walk in place reads the peer's address |
| Pppd.Pppd.HandleIpcp | sstp/ios-pppd.c:530-546 | whole effect, for any octets, including the end of waiting for CCP |
| Pppd.Pppd.EnterIpcp | sstp/ios-pppd.c:541-546 | IPCP after authentication ends the wait for CCP, without MPPE |
| Pppd.Pppd.HandleIpcpCode | sstp/ios-pppd.c:548-608 | whole effect of each IPCP code |
| Pppd.Pppd.HandleCcp | sstp/ios-pppd.c:611-638 | whole effect, for any octets |
| Pppd.Pppd.AcknowledgeCcp | sstp/ios-pppd.c:620-628 | the request is acknowledged before MPPE starts |
| Pppd.Pppd.CcpAccepted | sstp/ios-pppd.c:626-632 | MPPE starts before CCP is finished |
| Pppd.Pppd.CatchUpTo | sstp/ios-pppd.c:652-656 | the loop terminates at the count in the packet, and at the place of the key schedule that is as much further on |
| Pppd.Pppd.HandleMppe | sstp/ios-pppd.c:640-658 | whole effect, for any octets that fit the local buffer |
| Pppd.Pppd.DeliverOpened | sstp/ios-pppd.c:659-677 | a decrypted IP packet is delivered, with a protocol field of one or two octets |
| Pppd.Pppd.Dispatch | sstp/ios-pppd.c:680-716 | whole effect of a frame, with and without address and control, for any octets |
| Pppd.Pppd.SealIp | sstp/ios-pppd.c:304-316 | one step of the key schedule and of the count, and every octet of the packet: header, protocol and IP packet under the new session key |
| Pppd.Pppd.SendIp | sstp/ios-pppd.c:290-319 | an IP packet of 1 to 1396 octets is queued in the clear or sealed; others are refused |
| Negotiation.StepKeeps | sstp/ios-pppd.c:410-638 | whatever the peer sends: flags never fall back, MPPE needs keys, counts stay below 4096, UP only when ready |
| Negotiation.RunKeeps | sstp/ios-pppd.c:680-716 | the same over every run from every safe state |
| Negotiation.NegotiationSafety | sstp/ios-pppd.c:325-337 | from creation on SSTP_PPP_UP is notified at most once, with CCP done, IP configured and an address |
| Negotiation.StepFlags | sstp/ios-pppd.c:410-638 | which packets raise the authentication and CCP flags, exactly |
| Negotiation.AuthenticatedUp | sstp/ios-pppd.c:325-337 | if the peer sends no CCP or IPCP before CHAP success, UP implies authentication |
| Negotiation.RunWithoutSuccess | sstp/ios-pppd.c:462-491 | without CHAP success CCP is done if and only if a CCP packet ended it |
| Negotiation.UnauthenticatedUpIff | sstp/ios-pppd.c:325-337 | an unauthenticated peer can bring the link up if and only if it has ended CCP negotiation |
| Negotiation.IpcpPayloadOptions | sstp/ios-pppd.c:372-393 | the request we write is read back as exactly our three options |
| Negotiation.AckEchoes | sstp/ios-pppd.c:567-587 | an acknowledgement that echoes our request changes no address and brings the link up |
| Negotiation.Corrected | sstp/ios-pppd.c:588-605 | any refusal with target values leaves fewer options wrong |
| Negotiation.NakRound | sstp/ios-pppd.c:588-605 | one round: fewer options wrong, and the new request asks for the corrected addresses |
| Negotiation.IpcpConverges | sstp/ios-pppd.c:530-609 | after at most three refusals the server acknowledges, and UP shows the server's addresses |
| Negotiation.RequestsAcknowledged | sstp/ios-pppd.c:421-431 | LCP, IPCP and CCP requests of the peer are acknowledged with their own id and options |
| Negotiation.ChapResponseShape | sstp/ios-pppd.c:500-520 | the CHAP response is well formed, with each field in its place |
| Negotiation.EchoAnswered | sstp/ios-pppd.c:446-456 | an echo request is answered with its own data under our magic number |
| Negotiation.StepScheduled | sstp/ios-pppd.c:640-658 | every step keeps both directions on the schedule of their master keys, unless a challenge arrives while MPPE is on |
| Negotiation.RunScheduled | sstp/ios-pppd.c:98-128 | the same over every run |
| Wire.Forms | sstp/ios-pppd.c:680-700 | the forms of a frame: address and control missing or not, a protocol field of one octet or two |
| Wire.LcpEffect | sstp/ios-pppd.c:410-460 | the whole effect of every LCP packet: state, octets put out, notifications |
| Wire.LcpRequestIs | sstp/ios-pppd.c:352-370 | the octets of our LCP request |
| Wire.CcpRequestIs | sstp/ios-pppd.c:395-408 | the octets of our CCP request |
| Wire.IpcpRequestIs | sstp/ios-pppd.c:372-393 | the octets of our request for addresses |
| Wire.ChapEffect | sstp/ios-pppd.c:462-528 | the whole effect of every CHAP packet; which key goes to which direction |
| Wire.ResponseIs | sstp/ios-pppd.c:500-520 | the octets of the response to a challenge |
| Wire.DoneIs | sstp/ios-pppd.c:325-350 | what the end of CCP puts out and notifies, the first time and later |
| Wire.CcpEffect | sstp/ios-pppd.c:611-638 | the whole effect of every CCP packet, with keys, counts and flags as it leaves them |
| Wire.IpcpEnds | sstp/ios-pppd.c:541-546 | an IPCP packet after authentication ends the wait for CCP first, and is then handled as any other |
| Wire.IpcpEffect | sstp/ios-pppd.c:548-608 | the whole effect of every other IPCP packet |
| Wire.EndOfCcpAsks | sstp/ios-pppd.c:339-350 | a packet that ends CCP makes an authenticated engine ask for its addresses exactly once, at its place among what is put out; one that is not authenticated does not ask |
| Wire.SendEffect | sstp/ios-pppd.c:290-319 | what a packet from above puts out: in the clear, or sealed, octet by octet |
| Wire.ReadyIsAnnounced | sstp/ios-pppd.c:325-337 | a link that became ready by ending CCP or by an acknowledgement has been announced |
| Wire.ServerServes | sstp/ios-pppd.c:372-393 | for all addresses there is a server that acknowledges or corrects our requests |
| Wire.ExchangeSettles | sstp/ios-pppd.c:530-609 | the exchange with any such server, request by request, ends with its addresses and one notification at most |
| Wire.Greeted | sstp/ios-pppd.c:417-436 | the request of the peer is acknowledged and ours goes out; its acknowledgement opens LCP |
| Wire.CcpGranted | sstp/ios-pppd.c:629-632 | the acknowledgement of our CCP request starts MPPE and asks for our addresses |
| Wire.SessionComesUp | sstp/ios-pppd.c:325-638 | from creation on the session comes up, each packet of the server answering one that an earlier step put out: the frames and notifications of every step, the addresses, the keys and the schedule at the end |
| Delivery.InitialisedPair | sstp/ios-pppd.c:114-128 | two engines with mirrored masters that initialise MPPE are in step |
| Delivery.PlainPacket | sstp/ios-pppd.c:680-716 | a plain IP frame is delivered as it is |
| Delivery.DeliversIff | sstp/ios-pppd.c:640-716 | exactly which inputs deliver an IP packet: plain IP frames in every state, and MPPE frames that decrypt to IP while MPPE is on |
| Delivery.SealedPacket | sstp/ios-pppd.c:640-677 | a sealed packet is delivered as it was before sealing, and the receiver stays in step |
| Delivery.OnePacket | sstp/ios-pppd.c:290-319 | one IP packet becomes one frame, which the other end turns back into it |
| Delivery.Delivered | sstp/ios-pppd.c:290-319 | any sequence of packets, any number of its frames: exactly as many packets are delivered, in order |
| Conversation.ControlStep | sstp/ios-pppd.c:410-460 | once CCP is done, LCP, IPCP and unknown frames leave keys and counts alone and deliver nothing |
| Conversation.SendStep | sstp/ios-pppd.c:290-319 | sending packet n puts exactly the frame of packet n on the line |
| Conversation.ReceiveStep | sstp/ios-pppd.c:640-677 | receiving the frame of packet n delivers its packet, and n + 1 is expected |
| Conversation.PeerStep | sstp/ios-pppd.c:680-716 | taking in any frame but CHAP and CCP leaves the sending direction alone and is answered by control frames only |
| Conversation.SenderRun | sstp/ios-pppd.c:290-319 | over every run without CHAP and CCP the frames sent carry exactly the packets given, numbered in order |
| Conversation.ReceiverRun | sstp/ios-pppd.c:640-716 | over every run whose frames carry packets, with control frames and sends in between, exactly those are delivered |
| Conversation.CarriesPrefix | sstp/ios-pppd.c:680-716 | the first frames carry the first packets, one for each data frame |
| Conversation.SizedRun | sstp/ios-pppd.c:269-288 | every frame of every run has 4 to 1404 octets |
| Conversation.PlayTalks | sstp/ios-pppd.c:680-716 | every move at one end keeps the invariant of both directions |
| Conversation.ConversationKeeps | sstp/ios-pppd.c:640-716 | over every conversation each end has got a first part of what the other sent, and the line carries exactly the rest |
| Conversation.ConversationStarts | sstp/ios-pppd.c:114-128 | the conversation may start between two engines with mirrored masters |
| Stream.Stream.Fill | sstp/sstp-stream.c:605-612 | a read adds the next octets behind those there, and takes nothing of the next packet |
| Stream.Stream.RecvSstp | sstp/sstp-stream.c:589-639 | across blocked and resumed calls no octet is lost or taken; it waits exactly if the last read would block, fails exactly if the stream broke, and succeeds on the whole packet or on a partial header mistaken for one, never going on behind such a header; only the first if header reads are whole |
| Stream.HeaderSafeBehind | sstp/sstp-stream.c:631 | behind an earlier packet, exactly which lengths make a partial header look like a packet |
| Stream.MistakenWhenFresh | sstp/sstp-stream.c:631 | in a zeroed buffer one or two octets of a header are always mistaken for a packet, three exactly below 256 octets |
| Stream.HeaderSafeKept | sstp/sstp-stream.c:631 | a header that cannot be mistaken stays so while more of it arrives |
| Stream.LengthField | sstp/sstp-packet.c:167-171 | what the length field shows for a partial or complete header |
| State.KeepaliveExact | sstp/sstp-state.c:463-498 | over every history the counter is the timeouts since the last echo reply, up to five, and the peer has been given up exactly if a sixth came |
| State.TimeoutExact | sstp/sstp-state.c:469-480 | a timeout gives the peer up exactly if it is the sixth or a later one without an echo reply |
| State.SstpState.constructor | sstp/sstp-state.c:747-796 | an empty tunnel over the stream and the engine, with a receive buffer of zeros |
| State.SstpState.SendMessage | sstp/sstp-state.c:176-202 | a control message without attributes is given to the stream |
| State.SstpState.RecvTimeout | sstp/sstp-state.c:469-494 | aborts on the sixth unanswered timeout, otherwise asks again; octets are lost exactly inside a packet |
| State.SstpState.SendPacket | sstp/ios-pppd.c:290-319 | the frame of the packet is queued as a data packet, and the account of what was received is kept |
| State.SstpState.SendDone | sstp/ios-pppd.c:178-192 | a completion of the stream keeps the account |
| State.SstpState.HandleData | sstp/sstp-state.c:415-429 | the payload of a data packet, if any, is dispatched to the engine |
| State.SstpState.HandleCtrl | sstp/sstp-state.c:355-409 | the messages sent and the callbacks made for each control message, what is stored and what is returned; only an echo reply resets the counter |
| State.SstpState.ConnectAck | sstp/sstp-state.c:112-170 | the binding request is stored and the owner called, or the call is aborted, exactly when |
| State.SstpState.ReadStatus | sstp/sstp-state.c:295-346 | the status is stored exactly if the message has a status attribute that is long enough |
| State.SstpState.HandleStatus | sstp/sstp-state.c:366-390 | what NAK, ABORT and DISCONNECT send and call back |
| State.BoundAndStatus | sstp/sstp-state.c:124-156 | a binding request or a status built into a message is understood, and found with its value |
| State.FoundIff | sstp/sstp-state.c:124-156 | a status counts as there exactly from four octets on, a binding request exactly with 36 |
| State.Reactions | sstp/sstp-state.c:355-409 | the octets sent, the callbacks and the value returned, for each type of control message |
| State.SstpState.HandlePacket | sstp/sstp-state.c:435-457 | what is in the buffer is handled once, as data or as control, with the effects of each control message; a mistaken header delivers nothing |
| State.SstpState.RecvReady | sstp/sstp-state.c:463-498 | the packet is whole and handled once, with its effects; or partial, exactly if the last read would block; or the stream failed, exactly if that is broken; or its header was mistaken and exactly these octets are lost; when each happens |
| State.SstpState.RecvNext | sstp/sstp-state.c:463-498 | behind a whole packet nothing is lost unless the new length is below 256 and the old one at most 3 modulo 256 |
| State.HeaderBehind | sstp/sstp-stream.c:631 | which headers can be mistaken behind a packet that is still in the buffer, exactly |
| State.Begin | sstp/sstp-state.c:747-796 | the tunnel before its first packet |
| State.FirstPacket | sstp/sstp-state.c:747-796 | from creation on, with reads that give what they are asked for, the first packet is handled |
| State.SstpState.Complete | sstp/sstp-state.c:482-497 | the buffer is reset and the counter kept in line with the history |
| State.SstpState.ResumeRecv | sstp/sstp-state.c:501-504 | listening starts again |
| State.CutIsUnique | sstp/sstp-stream.c:589-639 | a stream of well-formed packets can be cut in one way only |
| State.MergedPayloads | sstp/sstp-packet.c:137-171 | data packets with control packets anywhere among them contain exactly the frames that were wrapped, and each states its length |
| State.ParseSame | sstp/sstp-packet.c:209-269 | the parser sees the same message whatever lies behind it and whatever was in the slot it does not clear |
| State.HandledPart | sstp/sstp-state.c:463-498 | what has been handled since any moment is the first part of the packets that followed |
| State.TracksData | sstp/sstp-state.c:415-429 | dispatching one more payload keeps the engine where all it was given takes it |
| State.DeliveredSince | sstp/sstp-state.c:415-457 | the same for any stream whose frames carry packets |
| State.EndToEnd | sstp/ios-pppd.c:225-319 | from object to object, at any moment of any run: of the packets given to one exactly those are delivered by the other whose frames it has handled, in order; in the end all of them |
| Api.Message.AttrAdd | sstp/sstp-api.c:74-84 | the message becomes the one with one more aligned attribute; lengths are cut to 16 bits as the code does |
| Api.Align32 | sstp/sstp-api.h:35 | the least multiple of four that is not smaller |
| Api.AttrParse | sstp/sstp-api.c:88-113 | fails exactly on an unknown type; otherwise each slot is the last attribute of its type or NULL |
| Api.WalkLaid | sstp/sstp-api.c:97-110 | attributes that were added are visited one by one, and the walk ends exactly at the length of the message |
| Api.ParseLaid | sstp/sstp-api.c:88-113 | each slot leads to the last attribute of its type with its data, and is NULL if and only if there is none |
| Url.UrlParse | sstp/sstp-util.c:148-272 | succeeds exactly on the URLs that Parse accepts, and then every pointer shows its part, though all were cut out of one copy in place |
| Url.StrCut | sstp/sstp-util.c:165-203 | a terminator written over a delimiter leaves the two strings on its sides |
| Url.StrApart | sstp/sstp-util.c:165-240 | strings that end before it or begin behind it are not touched |
| Url.Url.TakeSchema | sstp/sstp-util.c:164-172 | the protocol is cut off |
| Url.Url.TakeLogin | sstp/sstp-util.c:174-192 | user name and password are cut off |
| Url.Url.TakePath | sstp/sstp-util.c:194-203 | host and path are cut apart |
| Url.Url.TakeBracketed | sstp/sstp-util.c:205-227 | an address in brackets and its port |
| Url.Url.TakePort | sstp/sstp-util.c:228-245 | a host and its port, or refusal |
| Url.DecimalPort | sstp/sstp-util.c:140-145 | blanks, a plus sign, decimal digits and anything behind them are accepted as a port exactly from 1 to 65535 |
| Url.NegativePort | sstp/sstp-util.c:140-145 | a negative number is refused, down to -2147483648 |
| Url.DigitsSnoc | sstp/sstp-util.c:140-145 | the value of decimal digits, from the last one |
| Url.ComposedParses | sstp/sstp-util.c:148-272 | a URL composed of parts without delimiters, the host in brackets or not, is accepted exactly if host and port are acceptable, and split into exactly these parts; port 443 is filled in exactly where neither protocol nor port is there |
| Url.SessionUrl | sstp/sstp-ios.c:960-989 | the URL composed at session start gives its host and port back |

## Left out

- Packet.PktParse: asks that the walk stays in memory, and that no length is 0x8000 or more, which its signed index cannot hold.
- Packet.PktAttr: values longer than 0x7FFB octets, which do not fit the signed length.
- Hdlc.FrameDecode: the decoder reads beyond the live octets; the model asks for an octet behind them that is not a flag, with one more behind it.
- HdlcStream.Pppd.Recv: once a frame has been handed over early, asks that a flag comes next; what becomes of the stream otherwise is not followed (`HdlcStream.AheadIff` says that it is then wrong).
- State.SstpState.RecvReady: after a header was mistaken for a packet the stream is no longer followed.
- State.SstpState.HandleCtrl: a message whose attributes are looked for beyond its end, and a CONNECT_ACK without its attribute, whose slot the parser does not clear, may send, call back and store anything.
- Pppd.Pppd.Dispatch: asks that an MPPE payload fits the local buffer it is decrypted into.
- Conversation.ConversationKeeps: CHAP and CCP packets between data packets are excluded, because either may replace or restart the keys at any time.
- Cryptography: SHA-1 key derivation, the RC4 key stream, the NT response, the MAC and TLS are parameters; only determinism and the exclusive-or with a key stream are used.
- The write queue of sstp/sstp-stream.c: an operation that blocks again is put back at its tail, so order is not kept there; `sstp_stream_send` is modelled as done, in progress, or failed.
- Key derivation in server mode (sstp/sstp-chap.c): client and server keys are not mirrored there; mirrored master keys are an assumption of the delivery results.
- Injection of packets from another thread (sstp/sstp-ios.c): its effect depends on the timing of the operating system.
- The detection of PAP, EAP and IP-up in sstp/sstp-pppd.c, which only looks at packets that pass.
- Sockets, libevent, the HTTP handshake, certificates, routes, logging and the user interface.
- Failure of memory allocation; the counters of octets sent and received, which are unbounded here; callbacks that are not installed.

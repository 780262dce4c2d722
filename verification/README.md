# Verified models of the vendored transport and codec

The application in this repository is a thin layer over two vendored libraries. This project models the
parts of them that are hard to get right and proves what they are for:

* **DTLS handshake transport** (section 4.2 of RFC 6347): a sender cuts a flight of messages into
  fragments under an MTU, rolls back and retransmits; a receiver reassembles in a ring of seven slots with
  byte-packed bitmaps; a 64-bit sliding window refuses replays; per-epoch counters number the records.
  `Bits`, `BigEndian`, `ReplayWindow`, `RecordNumbers`, `Sequences`, `Fragments`, `Reassembly`, `Inbox`,
  `HandshakeReader`, `Flight`, `HandshakeWriter`, and `Channel`, which puts both ends together over a channel
  that loses, repeats and reorders. `Reception` follows the epochs through a transmission; `HandshakeReceiver` is the
  record layer and the reader together, and `Endpoints` runs it and the writer themselves over the channel.
* **Non-blocking TLS record writing**: retries over a windowed buffer and a pending flight.
  `WriteBuffer` and `RecordWriting`.
* **Protocol Buffers codec** (nanopb): schemas and messages as values in `Varints` and `Messages`, round trip
  and unknown fields in `RoundTrip` and `UnknownFields`, the initial state of a structure, the form of
  single values and the bounds of whatever is decoded in `InitialState`, `WireValues` and `DecodedFits`, and
  the streams, iterator, encoder and decoder as the program has them in `FieldIterator`, `Streams`, `FieldsSeen`, `Encoder`, `Decoder` and `Codec`.
* **TLS 1.0 to 1.2 handshake** (section 7.3 of RFC 5246): the client's and the server's resumable state
  machines and any honest run of the two. `HandshakeScript`, `HandshakeConnection`, `HandshakeClient`,
  `HandshakeServer`, `HandshakeRun`; the choice of a cipher is in `CipherChoice`.

`Basics` holds what several of them share.

State that the program updates in place is a class here, with methods proved against functions on values;
the theorems are about those functions and about whole runs. Everything outside the program is arbitrary: how
many bytes a transport takes, which datagrams arrive, what a cipher or a callback answers, where memory is
allocated.

Where the code and its comments differ, the model follows the code:

* A fragment exactly seven messages ahead passes the test that is meant to ignore fragments too far ahead
  (`Mappy/Pods/BoringSSL-GRPC/ssl/d1_both.cc:380`) and is then an error (`d1_both.cc:267`).
  `Inbox.SevenAheadIsAnError` shows it; `Channel.HonestFragmentRefused` says exactly when honest fragments
  are refused, and `Channel.FlightIsKept` that within a flight this one never happens.
* The write buffer accepts capacities up to 0xffff, but its 16-bit offset starts at up to seven.
  `WriteBuffer.KeepsContentsIff` says exactly up to which capacity contents survive, 0xfff9, and
  `WriteBuffer.LosesItsPlace` gives an input at which they do not. The writer is verified for every
  capacity but the six in between.
* The 32-bit varint decoder counts bit positions in eight bits, so an overlong varint makes them wrap and its
  groups meet in bits already set, as `Varints.PastTheWrap` shows; the result keeps within 32 bits
  (`Varints.Decode32Fits`). The decoders agree wherever both accept.
* A DTLS sequence counter that runs out fails the seal but has wrapped to zero already.
  `RecordNumbers.RunningOutRepeatsZero` gives the run that repeats a number, and
  `RecordNumbers.RepeatsIffUsedUp` says exactly when the next two seals of a counter repeat one.
* A failed seal while sending a flight does not roll the position back; only a refused packet does. So a
  flight resumed after it may lack messages: `Flight.GaplessIffNothingLost` with
  `HandshakeWriter.Writer.SendFlight` says exactly when, and `Flight.FirstOfTwoIsSkipped` works out, on the
  positions of a flight of two messages, what is then missing.
* The offset 255 marks the members of a union (`Mappy/Pods/nanopb/pb.h:399`), so a union that really starts
  255 bytes behind another is taken for the same one. `FieldIterator.OffsetsAreRight` says exactly when the
  field iterator finds every member.
* Records of another epoch are dropped in the expectation that a retransmission brings them again
  (`Mappy/Pods/BoringSSL-GRPC/ssl/dtls_record.cc:228-231`). In the encrypted epoch that is not always so: there
  a fragment of any message but the next is an error (`d1_both.cc:374`), also of one that was just taken.
  `Reception.TakenAndSentAgain` and `Reception.EndBeforeStart` give inputs; `Endpoints.CatchUp` says exactly
  when one retransmission brings everything, and `Reception.FromEpochZero` and `Reception.FromEpochOne` what
  that comes to in either epoch.

`dafny verify dfyconfig.toml` checks the whole project.

## Model

| member | source | states |
|---|---|---|
| ReplayWindow.RecordRepresents | Mappy/Pods/BoringSSL-GRPC/ssl/dtls_record.cc:155-175 | recording a number makes the 64-bit window stand for the set with that number added: the shift, the wipe past 63 and the bit below the maximum lose and invent nothing in reach |
| ReplayWindow.DiscardIsExact | Mappy/Pods/BoringSSL-GRPC/ssl/dtls_record.cc:140-150 | a number is discarded if and only if it was recorded or lies 64 or more below the largest recorded |
| ReplayWindow.RunInvariant | Mappy/Pods/BoringSSL-GRPC/ssl/dtls_record.cc:177-272 | after any run of records and epoch changes the window stands for exactly the numbers accepted in the current epoch |
| ReplayWindow.NeverAcceptedTwice | Mappy/Pods/BoringSSL-GRPC/ssl/dtls_record.cc:225-259 | in no run is a record number of an epoch accepted twice (section 4.1.2.6 of RFC 6347) |
| ReplayWindow.AcceptedIffFresh | Mappy/Pods/BoringSSL-GRPC/ssl/dtls_record.cc:225-259 | after any run, a record is accepted if and only if it is authentic, of the read epoch, of at most 2^14 bytes, was not accepted before and is not 64 or more behind |
| ReplayWindow.ToU64 | Mappy/Pods/BoringSSL-GRPC/ssl/dtls_record.cc:128-136 | the byte loop computes the big-endian value |
| ReplayWindow.EpochBytes | Mappy/Pods/BoringSSL-GRPC/ssl/dtls_record.cc:215-222 | the top two bytes of the number are the epoch |
| ReplayWindow.RecordLayout | Mappy/Pods/BoringSSL-GRPC/ssl/dtls_record.cc:316-348 | the bytes of a record: type at 0, version at 1, epoch and sequence number from 3, length at 11, body from 13 |
| ReplayWindow.RecordByItsBytes | Mappy/Pods/BoringSSL-GRPC/ssl/dtls_record.cc:192-220 | exactly a packet that starts with a whole record of at most 2^14 + 320 bytes parses, every part is read from its place, and the version is right if the first version byte is 0xfe before there are keys, and both bytes are the agreed version after |
| ReplayWindow.ParseOfRecord | Mappy/Pods/BoringSSL-GRPC/ssl/dtls_record.cc:192-206 | a record is read back from its bytes, whatever follows it in the packet |
| ReplayWindow.BytesOfRecord | Mappy/Pods/BoringSSL-GRPC/ssl/dtls_record.cc:192-206 | whatever is read as a record is well formed and its bytes are the front of the packet |
| ReplayWindow.RecordReader.BitmapShouldDiscard | Mappy/Pods/BoringSSL-GRPC/ssl/dtls_record.cc:140-150 | the word-level test is the window's test |
| ReplayWindow.RecordReader.BitmapRecord | Mappy/Pods/BoringSSL-GRPC/ssl/dtls_record.cc:155-175 | the shifts and masks on the 64-bit word leave the window that recording leads to |
| ReplayWindow.RecordReader.OpenRecord | Mappy/Pods/BoringSSL-GRPC/ssl/dtls_record.cc:177-272 | the first record of a packet, by the packet's bytes: without a whole record in front, or with the wrong version, the whole packet is dropped, where before keys any minor version is right and after keys only the agreed one; a wrong epoch, a replay or a failed decryption drops exactly that record, too long a plaintext is an error, and anything else is accepted and its number recorded |
| ReplayWindow.RecordReader.Judge | Mappy/Pods/BoringSSL-GRPC/ssl/dtls_record.cc:215-259 | the verdict and the new window for a record: wrong epoch, replayed, unauthentic, too long, or accepted and recorded |
| ReplayWindow.RecordReader.SetReadState | Mappy/Pods/BoringSSL-GRPC/ssl/dtls_method.cc:81-95 | an epoch change is refused with leftover data and otherwise empties the window |
| RecordNumbers.RunInvariant | Mappy/Pods/BoringSSL-GRPC/ssl/dtls_record.cc:294-351 | over any run of seals, failed seals and cipher changes, every number sealed lies behind the counter of its epoch |
| RecordNumbers.SealedNumbersDistinct | Mappy/Pods/BoringSSL-GRPC/ssl/dtls_record.cc:294-351 | every record sealed in a run has its own epoch and sequence number, retransmissions in the previous epoch included, as long as no counter ran out and the epoch did not wrap |
| RecordNumbers.SealedNumbersIncrease | Mappy/Pods/BoringSSL-GRPC/ssl/dtls_record.cc:294-351 | as long as no counter ran out and the epoch did not wrap, the numbers sealed in an epoch go up, whatever is sealed in the other epoch in between |
| RecordNumbers.NoFailureNoRunOut | Mappy/Pods/BoringSSL-GRPC/ssl/dtls_record.cc:325-345 | a counter cannot run out without a failed seal |
| RecordNumbers.NumbersFit | Mappy/Pods/BoringSSL-GRPC/ssl/dtls_record.cc:325-345 | epochs stay within sixteen bits and counters within forty-eight, in every run |
| RecordNumbers.SealingUpTo | Mappy/Pods/BoringSSL-GRPC/ssl/dtls_record.cc:294-351 | for any n below the span of the counter, n seals succeed, use the numbers from zero up to n and leave the counter at n |
| RecordNumbers.RepeatsIffUsedUp | Mappy/Pods/BoringSSL-GRPC/ssl/dtls_record.cc:325-345 | of a run in which no counter ran out yet, the next two seals of one counter repeat a number exactly when the counter is at its last value and number zero of that epoch was used |
| RecordNumbers.RunningOutRepeatsZero | Mappy/Pods/BoringSSL-GRPC/ssl/dtls_record.cc:325-345 | the run that reaches it: as many seals as the counter can number, one that fails, and one that carries number zero again; up to the failed one all numbers differ |
| RecordNumbers.SequenceUpdate | Mappy/Pods/BoringSSL-GRPC/ssl/tls_record.cc:154-163 | the in-place big-endian increment adds one, or wraps to zero and says so; bytes in front are untouched |
| RecordNumbers.CarryStops | Mappy/Pods/BoringSSL-GRPC/ssl/tls_record.cc:154-163 | the carry stops at the first byte that is not full |
| RecordNumbers.RecordWriter.Bump | Mappy/Pods/BoringSSL-GRPC/ssl/dtls_record.cc:325-331 | the counter of the chosen epoch is advanced, and only that |
| RecordNumbers.RecordWriter.SealRecord | Mappy/Pods/BoringSSL-GRPC/ssl/dtls_record.cc:294-351 | a success adds exactly the number in the header to those sealed, a failure none; the record is the header of 13 bytes, the plaintext and what the cipher adds; with room for all that, a failure is the cipher's or the counter's |
| RecordNumbers.RecordWriter.SetWriteState | Mappy/Pods/BoringSSL-GRPC/ssl/dtls_method.cc:97-107 | an epoch change keeps the old counter for retransmissions and starts the new one at zero |
| Fragments.HeaderRoundTrip | Mappy/Pods/BoringSSL-GRPC/ssl/d1_both.cc:459-473 | reading a header gives back the header written |
| Fragments.ParseOfBytes | Mappy/Pods/BoringSSL-GRPC/ssl/d1_both.cc:459-473 | parsing undoes serialization of a fragment and leaves what followed |
| Fragments.BytesOfParse | Mappy/Pods/BoringSSL-GRPC/ssl/d1_both.cc:459-473 | whatever parses is the serialization of the fragment read, and is well formed |
| Fragments.HeaderLayout | Mappy/Pods/BoringSSL-GRPC/ssl/d1_both.cc:703-714 | the twelve bytes of a header, by position: type, message length, number, offset, length |
| BigEndian.DigitAt | Mappy/Pods/BoringSSL-GRPC/ssl/d1_both.cc:703-714 | each byte of a big-endian number is at the place of its weight |
| Reassembly.BitRange | Mappy/Pods/BoringSSL-GRPC/ssl/d1_both.cc:203-205 | the byte computed by shifts has exactly the bits from start to end |
| Reassembly.MarkedByteBits | Mappy/Pods/BoringSSL-GRPC/ssl/d1_both.cc:211-239 | marking a range sets in each byte of the bitmap exactly the positions in the range |
| Reassembly.MarkedPacks | Mappy/Pods/BoringSSL-GRPC/ssl/d1_both.cc:211-239 | the bitmap after marking packs exactly the positions packed before and the range |
| Reassembly.HmFragment.constructor | Mappy/Pods/BoringSSL-GRPC/ssl/d1_both.cc:152-199 | a new message has its header written, nothing received, and no bitmap if it is empty |
| Reassembly.HmFragment.Mark | Mappy/Pods/BoringSSL-GRPC/ssl/d1_both.cc:211-251 | the bitmap refines the set of received bytes: exactly the range is added, none at or past the message length, and the bitmap is dropped exactly when all bytes are there |
| Reassembly.HmFragment.IsFull | Mappy/Pods/BoringSSL-GRPC/ssl/d1_both.cc:240-250 | the byte scan with its partial last byte finds the bitmap full exactly when every byte was received |
| Reassembly.HmFragment.Add | Mappy/Pods/BoringSSL-GRPC/ssl/d1_both.cc:393-400 | a fragment's body lands at its offset and is marked, unless the message is complete already |
| Reassembly.HmFragment.GetRaw | Mappy/Pods/BoringSSL-GRPC/ssl/d1_both.cc:408-424 | a complete message is its header and its bytes in order |
| Inbox.SevenAheadIsAnError | Mappy/Pods/BoringSSL-GRPC/ssl/d1_both.cc:376-383 | the comparison lets the message exactly seven past the next through, and it is then an error, while one further ahead is ignored |
| Inbox.RefusedExactly | Mappy/Pods/BoringSSL-GRPC/ssl/d1_both.cc:360-394 | whatever fragment comes, it is refused if and only if it is out of its message's bounds, too large, out of turn in epoch 1, exactly seven past the next, or contradicts the message received so far |
| Inbox.OnlyOwnMessage | Mappy/Pods/BoringSSL-GRPC/ssl/d1_both.cc:360-403 | whatever fragment comes, it changes at most its own message: type, number and length stay, a complete message is left alone, and otherwise exactly its range is filled in with its bytes |
| Inbox.LookupFindsOwnMessage | Mappy/Pods/BoringSSL-GRPC/ssl/d1_both.cc:265-270 | a slot lookup never finds another message's fragments |
| Inbox.ReceiveKeepsRing | Mappy/Pods/BoringSSL-GRPC/ssl/d1_both.cc:362-402 | receiving any fragment keeps every occupied slot at a message of its residue inside the window of seven |
| Inbox.NextKeepsRing | Mappy/Pods/BoringSSL-GRPC/ssl/d1_both.cc:426-438 | taking the current message keeps the ring invariant, the wrap of the 16-bit number included |
| HandshakeReader.Reader.GetIncomingMessage | Mappy/Pods/BoringSSL-GRPC/ssl/d1_both.cc:265-295 | the slot is found or made, too-far-ahead and mismatching fragments are errors, and nothing else changes |
| HandshakeReader.Reader.AddToSlot | Mappy/Pods/BoringSSL-GRPC/ssl/d1_both.cc:393-400 | a fragment is absorbed by its own slot and no other |
| HandshakeReader.Reader.ReceiveFragment | Mappy/Pods/BoringSSL-GRPC/ssl/d1_both.cc:362-402 | the fields and bitmaps in place do what receiving means on values, for every fragment and error |
| HandshakeReader.Reader.OpenHandshake | Mappy/Pods/BoringSSL-GRPC/ssl/d1_both.cc:297-406 | a plaintext is received fragment by fragment up to the first error; a ChangeCipherSpec is flagged, exactly if it is unencrypted and its one byte is right |
| HandshakeReader.Reader.OpenChangeCipherSpec | Mappy/Pods/BoringSSL-GRPC/ssl/d1_both.cc:475-490 | a flagged ChangeCipherSpec is used up and the record left alone; otherwise the record is opened, and it succeeds exactly if it is one |
| HandshakeReader.Reader.IsCurrentMessageComplete | Mappy/Pods/BoringSSL-GRPC/ssl/d1_both.cc:255-259 | tells whether the next message is complete |
| HandshakeReader.Reader.GetMessage | Mappy/Pods/BoringSSL-GRPC/ssl/d1_both.cc:408-424 | hands out the next message, header and bytes, exactly when it is complete |
| HandshakeReader.Reader.NextMessage | Mappy/Pods/BoringSSL-GRPC/ssl/d1_both.cc:426-438 | frees the slot and moves on by one, in sixteen bits; the ring invariant holds even where the number wraps |
| HandshakeReader.Reader.HasUnprocessedHandshakeData | Mappy/Pods/BoringSSL-GRPC/ssl/d1_both.cc:440-457 | tells whether anything but the current message is buffered |
| Flight.SliceAdvances | Mappy/Pods/BoringSSL-GRPC/ssl/d1_both.cc:683-727 | cutting the next bytes of the next message is a step of the flight |
| Flight.ChainProgress | Mappy/Pods/BoringSSL-GRPC/ssl/d1_both.cc:782-827 | every piece sent makes progress |
| Flight.ChainTiles | Mappy/Pods/BoringSSL-GRPC/ssl/d1_both.cc:683-727 | from any point, the pieces of each message join to exactly its remaining bytes, each starting where the one before ended, as long as the numbers differ |
| Flight.NumberedAreDistinct | Mappy/Pods/BoringSSL-GRPC/ssl/d1_both.cc:511-523 | messages carrying consecutive 16-bit numbers carry different ones, even where the number wraps in between |
| Flight.ChainToEndTiles | Mappy/Pods/BoringSSL-GRPC/ssl/d1_both.cc:782-827 | whatever leads to the end of a flight the writer numbered tiles what was left of every message |
| Flight.FlightTilesMessages | Mappy/Pods/BoringSSL-GRPC/ssl/d1_both.cc:782-827 | sending a flight of consecutively numbered messages sends the bytes of every message once each, in order, without gap or overlap, whatever the fragment sizes (section 4.2.3 of RFC 6347) |
| Flight.GaplessIffNothingLost | Mappy/Pods/BoringSSL-GRPC/ssl/d1_both.cc:756-762 | a flight resumed after a packet that could not be finished is sent without a gap if and only if nothing was sealed into that packet |
| Flight.FirstOfTwoIsSkipped | Mappy/Pods/BoringSSL-GRPC/ssl/d1_both.cc:756-762 | of positions in a flight: where two messages share a packet and only the first was sealed, every way on from the position reached leaves the first out |
| HandshakeWriter.Writer.SealNextMessage | Mappy/Pods/BoringSSL-GRPC/ssl/d1_both.cc:644-734 | seals the ChangeCipherSpec or the next fragment in the right epoch, within the space, and the record is as long as header, plaintext and overhead; makes no progress exactly when the space is below header, one byte and overhead; fails exactly when the epoch is gone or a seal failed, never for want of room |
| HandshakeWriter.Writer.SealFragment | Mappy/Pods/BoringSSL-GRPC/ssl/d1_both.cc:683-733 | a partial fragment fills the space exactly, a complete one ends the message |
| HandshakeWriter.Writer.SealNextPacket | Mappy/Pods/BoringSSL-GRPC/ssl/d1_both.cc:739-780 | a packet holds consecutive pieces, at least one, all of their headers and plaintexts are counted in its length, which is within the MTU, and it ends only at the end of the flight or when no more fits; it fails exactly when an epoch is gone or a seal failed, and the position is kept exactly when that was its first record; the MTU is too small exactly when the next message has no room in an empty packet |
| HandshakeWriter.Writer.SendNextPacket | Mappy/Pods/BoringSSL-GRPC/ssl/d1_both.cc:796-817 | one turn of the loop: a packet the transport takes makes progress, one it refuses is rolled back to the same point |
| HandshakeWriter.Writer.SendFlight | Mappy/Pods/BoringSSL-GRPC/ssl/d1_both.cc:782-827 | every packet is within the MTU and every record numbered in the epoch of what it holds, exactly the numbers returned and those of one unfinished packet were sealed, the pieces form one chain from where the flight stood to the point reached, a refused packet is rolled back to the same point, and the nested loops terminate; each result has its own cause and the flight is done if and only if it was not shut down, nothing was refused, no seal failed, no epoch was gone and the MTU was large enough, and then what was sent tiles what was left of every message; the position differs from the point reached exactly when records of an unfinished packet were lost |
| HandshakeWriter.Writer.UpdateMtu | Mappy/Pods/BoringSSL-GRPC/ssl/d1_both.cc:615-632 | an MTU below 228 is replaced by the one queried if that is at least 228 and by 1472 otherwise, unless the caller fixed it |
| HandshakeWriter.Writer.FlushFlight | Mappy/Pods/BoringSSL-GRPC/ssl/d1_both.cc:829-834 | ends the flight and sends the rest of it, with the same results for the same causes |
| HandshakeWriter.Writer.Retransmit | Mappy/Pods/BoringSSL-GRPC/ssl/d1_both.cc:836-845 | sends the whole flight again from its start, with the same results for the same causes; done means that every message was tiled whole |
| HandshakeWriter.Writer.ClearOutgoing | Mappy/Pods/BoringSSL-GRPC/ssl/d1_both.cc:500-509 | forgets the flight |
| HandshakeWriter.Writer.InitMessage | Mappy/Pods/BoringSSL-GRPC/ssl/d1_both.cc:511-523 | a message is begun with the next number |
| HandshakeWriter.Writer.AddOutgoing | Mappy/Pods/BoringSSL-GRPC/ssl/d1_both.cc:555-594 | appends to the flight, or starts a new one after a flush, refuses an eighth message, and counts handshake messages only; the messages of the flight keep carrying the consecutive numbers before the next |
| HandshakeWriter.Writer.WriteMessage | Mappy/Pods/BoringSSL-GRPC/ssl/d1_both.cc:511-598 | a message of any type and body, begun, finished and added: it is in the flight as one whole fragment with its number, or refused exactly when it is too long or an eighth |
| HandshakeWriter.FinishMessage | Mappy/Pods/BoringSSL-GRPC/ssl/d1_both.cc:525-537 | the length is copied in place so that the message becomes its own single fragment |
| HandshakeWriter.FinishedHoldsWhole | Mappy/Pods/BoringSSL-GRPC/ssl/d1_both.cc:511-537 | a message begun and finished parses as one whole fragment of its body |
| Channel.RecordOfFragments | Mappy/Pods/BoringSSL-GRPC/ssl/d1_both.cc:330-402 | parsing a record of concatenated fragments receives exactly those fragments in turn |
| Channel.SenderStep | Mappy/Pods/BoringSSL-GRPC/ssl/d1_both.cc:525-827 | every step of the sender keeps each fragment on the wire a piece of a message that was written |
| Channel.ReceiveAgrees | Mappy/Pods/BoringSSL-GRPC/ssl/d1_both.cc:362-402 | receiving an authentic fragment keeps every assembled byte equal to the sender's and loses nothing held |
| Channel.StepKeepsInvariant | Mappy/Pods/BoringSSL-GRPC/ssl/d1_both.cc:297-438 | writing, sending, rolling back, retransmitting, delivering any records off the wire and taking messages all keep the invariant |
| Channel.DeliveredIsPrefix | Mappy/Pods/BoringSSL-GRPC/ssl/d1_both.cc:297-438 | end to end over loss, repetition and reordering, with any fragment sizes at each transmission: the messages delivered are the first ones written, each once, in order, byte for byte (section 4.2.6 of RFC 6347) |
| Channel.HonestFragmentRefused | Mappy/Pods/BoringSSL-GRPC/ssl/d1_both.cc:362-383 | a fragment off the wire is refused if and only if its message is too large, is not the next one in epoch 1, or is exactly seven past the next |
| Channel.HonestRecordRefused | Mappy/Pods/BoringSSL-GRPC/ssl/d1_both.cc:330-402 | a record off the wire fails if and only if it holds such a fragment: it always parses and never conflicts with what is assembled |
| Channel.FlightIsKept | Mappy/Pods/BoringSSL-GRPC/ssl/d1_both.cc:376-402 | a receiver that has taken everything before the flight finds none of it too far ahead and keeps every record |
| Channel.ChainCovers | Mappy/Pods/BoringSSL-GRPC/ssl/d1_both.cc:683-727 | a complete chain has a fragment of every message and one over each of its bytes |
| Channel.NextIsReady | Mappy/Pods/BoringSSL-GRPC/ssl/d1_both.cc:255-259 | once a full pass was kept, the next message is complete |
| Channel.FullPassDelivers | Mappy/Pods/BoringSSL-GRPC/ssl/d1_both.cc:408-438 | once a full pass was kept, from whatever mixture of transmissions and in any order, every missing message can be taken and all that was written is delivered |
| Channel.FullPassDeliversInAnyRun | Mappy/Pods/BoringSSL-GRPC/ssl/d1_both.cc:408-438 | the same at any point of any run from the start |
| Reception.EpochsRise | Mappy/Pods/BoringSSL-GRPC/ssl/handshake_client.cc:1464-1475 | what comes later in a flight is in a later epoch, or in the same one with no ChangeCipherSpec in between |
| Reception.WriteKeepsSync | Mappy/Pods/BoringSSL-GRPC/ssl/d1_both.cc:555-598 | writing a message keeps the flight numbered and its epochs rising, and the receiver in step with it |
| Reception.CcsKeepsSync | Mappy/Pods/BoringSSL-GRPC/ssl/d1_both.cc:600-602 | so does a ChangeCipherSpec, after which the writer is in the next epoch |
| Reception.SentInItsEpoch | Mappy/Pods/BoringSSL-GRPC/ssl/d1_both.cc:650-657 | every fragment sent is in the epoch its message was written in |
| Reception.DeliverKeepsSync | Mappy/Pods/BoringSSL-GRPC/ssl/d1_both.cc:362-402 | a fragment of the receiver's epoch leaves it holding messages of that epoch only, in epoch 1 only the next one, whether it is an error or not |
| Reception.TakeKeepsSync | Mappy/Pods/BoringSSL-GRPC/ssl/d1_both.cc:426-438 | so does taking a message; in epoch 1 nothing is held after it |
| Reception.OpensCcs | Mappy/Pods/BoringSSL-GRPC/ssl/dtls_method.cc:81-95 | a pass that is on course has nothing unread at the ChangeCipherSpec, and stays on course in the next epoch |
| Reception.DropsOnCourse | Mappy/Pods/BoringSSL-GRPC/ssl/dtls_record.cc:225-235 | a piece of another epoch is dropped: either nothing in it was needed and the pass stays on course, or it was and the pass can no longer bring everything |
| Reception.ReceivesOnCourse | Mappy/Pods/BoringSSL-GRPC/ssl/d1_both.cc:362-402 | a fragment of the receiver's epoch in its turn: if it is an error the pass was bound to fail, otherwise the pass stays on course |
| Reception.OldIsError | Mappy/Pods/BoringSSL-GRPC/ssl/d1_both.cc:373-378 | in epoch 1 a fragment of a message already taken is an error, and it comes only if the flight is unreadable from there or the end of the message was held before its start |
| Reception.AstrayReceives | Mappy/Pods/BoringSSL-GRPC/ssl/d1_both.cc:362-402 | a message missed stays missed to the end of the pass |
| Reception.EndOnWay | Mappy/Pods/BoringSSL-GRPC/ssl/d1_both.cc:408-438 | at the end of a pass everything was taken if and only if nothing went astray, and then every part of the flight met the right epoch |
| Reception.FromEpochZero | Mappy/Pods/BoringSSL-GRPC/ssl/handshake_client.cc:1464-1530 | a receiver in epoch 0 gets everything out of every flight that begins unencrypted and changes the cipher at most once, however it is cut and whatever it holds already |
| Reception.FromEpochOne | Mappy/Pods/BoringSSL-GRPC/ssl/d1_both.cc:373-378 | a receiver in epoch 1 that holds nothing of its next message gets everything if and only if the messages it has not taken are the encrypted ones |
| Reception.TakenAndSentAgain | Mappy/Pods/BoringSSL-GRPC/ssl/d1_both.cc:373-378 | the encrypted message sent again to a receiver that has taken it is an error |
| Reception.EndBeforeStart | Mappy/Pods/BoringSSL-GRPC/ssl/d1_both.cc:373-402 | two bytes of an encrypted message, the second held: when both are sent again the first completes the message, which is taken, and the second is an error |
| Sequences.SequenceRoundTrip | Mappy/Pods/BoringSSL-GRPC/ssl/dtls_record.cc:326-328 | the receiver reads off the record header the epoch and the counter it was sealed under |
| Sequences.StaysBehind | Mappy/Pods/BoringSSL-GRPC/ssl/dtls_record.cc:225-259 | whatever sealed record arrives, the window has recorded nothing beyond the numbers sealed in its epoch |
| Sequences.NextIsAccepted | Mappy/Pods/BoringSSL-GRPC/ssl/dtls_record.cc:225-259 | a record sealed after all that the window has seen is accepted |
| HandshakeReceiver.FirstRecordByItsBytes | Mappy/Pods/BoringSSL-GRPC/ssl/dtls_record.cc:192-220 | the record found is read off the packet's own bytes; before keys it is found for every minor version and whatever version was agreed on, after keys exactly for that version |
| HandshakeReceiver.Receiver.OpenHandshake | Mappy/Pods/BoringSSL-GRPC/ssl/d1_both.cc:297-406 | from the bytes of a packet: its first record is found or the packet dropped, the record judged by version, epoch, window, decryption and length, and what is accepted is received as a handshake record (type 22) or flags a ChangeCipherSpec (type 20, the one byte 1), in the epoch it was accepted in |
| HandshakeReceiver.Receiver.SetReadState | Mappy/Pods/BoringSSL-GRPC/ssl/dtls_method.cc:81-95 | the cipher changes exactly if no message is buffered beside the current one and no ChangeCipherSpec flagged, and then the window is empty |
| Endpoints.SendingKeepsInvariant | Mappy/Pods/BoringSSL-GRPC/ssl/d1_both.cc:782-845 | a transmission by the writer, resumed, rolled back or from the start, is a run of the channel |
| Endpoints.Transmit | Mappy/Pods/BoringSSL-GRPC/ssl/d1_both.cc:829-845 | flushing or retransmitting keeps the writer the sender of the channel, every record on the wire in the epoch of its message and under a number that was sealed |
| Endpoints.Add | Mappy/Pods/BoringSSL-GRPC/ssl/d1_both.cc:511-598 | adding a message keeps the writer the sender, and records the message and its epoch |
| Endpoints.ChangeCipher | Mappy/Pods/BoringSSL-GRPC/ssl/handshake_client.cc:1471-1475 | so does a ChangeCipherSpec with the cipher change behind it |
| Endpoints.PacketsOnWire | Mappy/Pods/BoringSSL-GRPC/ssl/d1_both.cc:739-780 | the packets of a transmission are on the wire with the numbers sealed for them |
| Endpoints.ArriveRecord | Mappy/Pods/BoringSSL-GRPC/ssl/d1_both.cc:297-406 | the record of a piece, at the front of any packet, of any minor version and whatever version was agreed on before there are keys, is judged by its own number, and what it holds is received exactly if it is accepted |
| Endpoints.Arrive | Mappy/Pods/BoringSSL-GRPC/ssl/d1_both.cc:297-406 | a record that was sent arrives, for the first time or again: receiver and channel stay in step, the window behind the numbers sealed |
| Endpoints.ArriveForged | Mappy/Pods/BoringSSL-GRPC/ssl/dtls_record.cc:237-251 | a packet whose first record does not decrypt changes nothing |
| Endpoints.TakeMessage | Mappy/Pods/BoringSSL-GRPC/ssl/d1_both.cc:408-438 | the receiver hands out the next message exactly when it is complete |
| Endpoints.ReadCipherChange | Mappy/Pods/BoringSSL-GRPC/ssl/d1_both.cc:475-490 | the receiver goes on in epoch 1 exactly if a ChangeCipherSpec was flagged and nothing is unread |
| Endpoints.Converse | Mappy/Pods/BoringSSL-GRPC/ssl/d1_both.cc:255-845 | one writer and one receiver, record layer included, for any number of steps, with refused packets, failed seals, retransmissions, cipher changes on either side, records lost, repeated, reordered or forged: the raw messages handed out are the first ones added, byte for byte (section 4.2 of RFC 6347) |
| Endpoints.TakeAll | Mappy/Pods/BoringSSL-GRPC/ssl/d1_both.cc:408-438 | messages are taken as long as the next is complete, and a pass under way stays so |
| Endpoints.Meet | Mappy/Pods/BoringSSL-GRPC/ssl/d1_both.cc:297-438 | one record of a pass: dropped in another epoch, opened as a ChangeCipherSpec or received and taken; an error comes only if the pass was bound to fail |
| Endpoints.SendAgain | Mappy/Pods/BoringSSL-GRPC/ssl/d1_both.cc:836-845 | a retransmission puts every piece of the flight on the wire under new numbers, each above all sealed before in its epoch |
| Endpoints.DeliverAll | Mappy/Pods/BoringSSL-GRPC/ssl/d1_both.cc:297-438 | the records of a pass arriving in order: no error and every message handed out, if and only if the pass gets through from where the receiver stands |
| Endpoints.CatchUp | Mappy/Pods/BoringSSL-GRPC/ssl/d1_both.cc:255-845 | at any moment of such a run where the receiver has taken everything before the flight and all that is complete, one retransmission, in order and without loss, with no message too large: unless the transport refuses, a seal fails, an epoch is gone or the MTU is too small, the receiver, following the cipher change, hands out every message added without an error if and only if every part of the flight meets it in the right epoch and, in epoch 1, the end of the next message was not held before its start |
| WriteBuffer.KeepsContentsIff | Mappy/Pods/BoringSSL-GRPC/ssl/ssl_buffer.cc:47-97 | contents at any alignment survive any consumption if and only if the capacity is at most 0xfff9; the program accepts up to 0xffff |
| WriteBuffer.LosesItsPlace | Mappy/Pods/BoringSSL-GRPC/ssl/ssl_buffer.cc:90-97 | the input that shows it: 0xfffa bytes of contents at offset seven, all but one consumed, and the window stands at the front of the memory and not at the byte that is left |
| WriteBuffer.Buffer.Clear | Mappy/Pods/BoringSSL-GRPC/ssl/ssl_buffer.cc:39-45 | releases the buffer |
| WriteBuffer.Buffer.EnsureCap | Mappy/Pods/BoringSSL-GRPC/ssl/ssl_buffer.cc:47-81 | room is made without losing contents, the body behind the header eight-byte aligned; it fails exactly above 0xffff |
| WriteBuffer.Buffer.Append | Mappy/Pods/BoringSSL-GRPC/ssl/ssl_buffer.cc:83-88 | what is written behind the contents becomes contents |
| WriteBuffer.Buffer.Consume | Mappy/Pods/BoringSSL-GRPC/ssl/ssl_buffer.cc:90-97 | the window moves by the 16-bit sum; where the offset is safe exactly the first bytes go |
| WriteBuffer.Buffer.DiscardConsumed | Mappy/Pods/BoringSSL-GRPC/ssl/ssl_buffer.cc:99-103 | an empty buffer is given back, any other left alone |
| WriteBuffer.FlushBuffer | Mappy/Pods/BoringSSL-GRPC/ssl/ssl_buffer.cc:239-252 | where the offset is safe: whatever the transport takes, the bytes it has and the bytes left are the same bytes in the same order; success means none are left, and it fails exactly when the transport refuses |
| RecordWriting.LogGrows | Mappy/Pods/BoringSSL-GRPC/ssl/s3_pkt.cc:259-263 | a sealed record adds its bytes to the end of what is to be sent and its plaintext to its own stream |
| RecordWriting.PrefixExtends | Mappy/Pods/BoringSSL-GRPC/ssl/s3_pkt.cc:129-200 | data continued from where the caller's earlier attempts stopped is a prefix of the same data |
| RecordWriting.ChunkExtends | Mappy/Pods/BoringSSL-GRPC/ssl/s3_pkt.cc:163-199 | a record of the next chunk extends the plaintext sealed by exactly that chunk |
| RecordWriting.Writer.constructor | Mappy/Pods/BoringSSL-GRPC/ssl/s3_lib.cc:184-203 | a new writer has sealed nothing, has nothing pending and no alert, and its write side is open |
| RecordWriting.Writer.WritePending | Mappy/Pods/BoringSSL-GRPC/ssl/s3_pkt.cc:202-218 | a retry with another type, another buffer (unless moving it is allowed) or too little data is refused, and neither the transport nor the buffer changes; any other retry goes on with the pending record and fails exactly when the transport refuses |
| RecordWriting.Writer.AllSent | Mappy/Pods/BoringSSL-GRPC/ssl/ssl_buffer.cc:239-252 | with the buffer empty the transport has every record sealed but the rest of the flight |
| RecordWriting.Writer.MoveFlight | Mappy/Pods/BoringSSL-GRPC/ssl/s3_pkt.cc:238-257 | unflushed handshake data goes in front of the record, in order; too much of it for any buffer is an error that leaves it where it is |
| RecordWriting.Writer.AppendRecord | Mappy/Pods/BoringSSL-GRPC/ssl/s3_pkt.cc:259-283 | the record is sealed behind it and noted as pending |
| RecordWriting.Writer.DoWrite | Mappy/Pods/BoringSSL-GRPC/ssl/s3_pkt.cc:221-289 | one call seals at most one record, of exactly the data given, and only if none is pending; the result says how much of it is done; a call that is turned down, because of a bad retry, no data or too much for any buffer, changes nothing; any other fails exactly when the transport refuses or the record cannot be protected |
| RecordWriting.Writer.WriteChunk | Mappy/Pods/BoringSSL-GRPC/ssl/s3_pkt.cc:163-190 | each chunk accounts for exactly the bytes sealed since the write began and keeps the records of the right sizes; it fails exactly when it is turned down, the transport refuses or the record cannot be protected |
| RecordWriting.Writer.WriteRecords | Mappy/Pods/BoringSSL-GRPC/ssl/s3_pkt.cc:163-199 | the loop over the rest of the data: everything sealed since the write began is the data so far, every new record is full except the one that ends the data, and with partial writes allowed there is at most one new record; a failing call met one refusal or failed seal, or is turned down again if repeated at once |
| RecordWriting.Writer.WriteAppData | Mappy/Pods/BoringSSL-GRPC/ssl/s3_pkt.cc:129-200 | over any partial writes and retries the plaintext sealed since the write began is the data given, continued where it stopped; a positive result counts exactly that plaintext; a call that comes back with less data than was acknowledged seals nothing; records are full-size except the one that ends the data; a failing call met one refusal or failed seal, or is turned down, and one turned down at first, too much data for any buffer included, changes neither flight nor transport; after a success the transport has everything sealed but the rest of the flight |
| RecordWriting.Writer.DispatchAlert | Mappy/Pods/BoringSSL-GRPC/ssl/s3_pkt.cc:405-423 | a positive result means one more record, an alert of exactly the level and description set, has been sealed and everything sealed is with the transport; otherwise the alert stays to be dispatched, for a reason that is counted; no application data is added |
| RecordWriting.Writer.SendAlert | Mappy/Pods/BoringSSL-GRPC/ssl/s3_pkt.cc:377-403 | closes the write side, once, with the level and description given; if nothing is being written the alert is dispatched at once, and it stays to be dispatched only if that was turned down, refused or could not be protected |
| RecordWriting.Writer.AddRecordToFlight | Mappy/Pods/BoringSSL-GRPC/ssl/s3_both.cc:135-165 | a record is sealed onto the end of the flight |
| RecordWriting.Writer.AddMessage | Mappy/Pods/BoringSSL-GRPC/ssl/s3_both.cc:184-205 | a handshake message is cut into records of the permitted size, all but the last full, whose plaintexts join to it |
| RecordWriting.Writer.AddChangeCipherSpec | Mappy/Pods/BoringSSL-GRPC/ssl/s3_both.cc:207-218 | one record with the one byte |
| RecordWriting.Writer.FlushFlight | Mappy/Pods/BoringSSL-GRPC/ssl/s3_both.cc:231-279 | the buffer goes before the flight; on success the transport has everything sealed, and it fails exactly when the transport refuses or the write side is closed |
| RecordWriting.Writer.OfferFlight | Mappy/Pods/BoringSSL-GRPC/ssl/s3_both.cc:258-269 | a partial write moves the offset by exactly what was taken |
| RecordWriting.Writer.SendFlight | Mappy/Pods/BoringSSL-GRPC/ssl/s3_both.cc:258-278 | the flight is offered until it is gone and only then let go |
| RecordWriting.Writer.ResetFlight | Mappy/Pods/BoringSSL-GRPC/ssl/s3_both.cc:276-277 | letting the flight go loses nothing |
| RecordWriting.WriteWithRetries | Mappy/Pods/BoringSSL-GRPC/ssl/s3_pkt.cc:129-218 | any caller that comes back with the same data until the write succeeds has sealed exactly the part acknowledged, and nothing twice; after a success the transport has everything sealed but the rest of the flight |
| Varints.EncodeLeast | Mappy/Pods/nanopb/pb_encode.c:574-594 | a varint takes the least number of seven-bit groups, at least one |
| Varints.EncodeLength | Mappy/Pods/nanopb/pb_encode.c:574-594 | ten bytes are enough for 64 bits |
| Varints.HasBitMeans | Mappy/Pods/nanopb/pb_decode.c:224 | bit i of a number is the last one left after i halvings |
| Varints.OrSetsBits | Mappy/Pods/nanopb/pb_decode.c:224 | the bitwise or of two numbers has the bits of both |
| Varints.OrIsSum | Mappy/Pods/nanopb/pb_decode.c:224 | where no bits are shared the bitwise or is the sum |
| Varints.Decode64OfEncode | Mappy/Pods/nanopb/pb_decode.c:250-270 | every 64-bit number survives encoding and decoding, whatever follows it |
| Varints.DecodersAgree | Mappy/Pods/nanopb/pb_decode.c:182-242 | on any input that both varint decoders accept they read the same bytes, and the 32-bit result is the 64-bit one modulo 2^32 |
| Varints.Decode32Exactly | Mappy/Pods/nanopb/pb_decode.c:182-242 | of a varint of up to ten bytes the 32-bit decoder takes exactly those whose payload past 32 bits is none or the sign extension of a negative number, and gives the low 32 bits |
| Varints.Decode32Fits | Mappy/Pods/nanopb/pb_decode.c:182-242 | what the 32-bit decoder reads has 32 bits, on any input |
| Varints.Decode32OfEncode | Mappy/Pods/nanopb/pb_decode.c:182-242 | the 32-bit decoder takes the encoding of every 32-bit number |
| Varints.Decode32OfNegative | Mappy/Pods/nanopb/pb_decode.c:215-226 | it takes every negative 32-bit integer in its ten sign-extended bytes |
| Varints.PastTheWrap | Mappy/Pods/nanopb/pb_decode.c:199-231 | an input whose bit position wraps: a group is or-ed onto bits that an earlier one has set |
| Varints.EncodeSignExtended | Mappy/Pods/nanopb/pb_encode.c:574-594 | those ten bytes end in four full groups and a one |
| Varints.ZigZagRoundTrip | Mappy/Pods/nanopb/pb_encode.c:596-605 | zigzag gives back every signed 64-bit integer, and is the interleaving of the specification |
| Varints.UnZigZagRoundTrip | Mappy/Pods/nanopb/pb_decode.c:1240-1252 | and every unsigned one: it is a bijection |
| Varints.LittleEndianRoundTrip | Mappy/Pods/nanopb/pb_decode.c:1254-1286 | fixed-width numbers survive byte by byte |
| Varints.LittleEndianAt | Mappy/Pods/nanopb/pb_encode.c:607-633 | each byte of a fixed-width number is at the place of its weight, the lowest first |
| RoundTrip.NarrowedOfCarried | Mappy/Pods/nanopb/pb_decode.c:1289-1372 | a number of any integer width survives widening, encoding, and narrowing with its overflow check |
| RoundTrip.NumberRoundTrip | Mappy/Pods/nanopb/pb_encode.c:734-808 | every number of every numeric field type that fits decodes to itself |
| RoundTrip.BlobRoundTrip | Mappy/Pods/nanopb/pb_decode.c:1391-1461 | byte arrays, terminated strings and fixed-length bytes within their buffers decode to themselves |
| RoundTrip.NoZeroLength | Mappy/Pods/nanopb/pb_encode.c:844-852 | a terminated string is measured in full |
| RoundTrip.KeyDecodes | Mappy/Pods/nanopb/pb_decode.c:293-314 | a field's key decodes to its tag and wire type and is never the end marker |
| RoundTrip.KeyedTurn | Mappy/Pods/nanopb/pb_decode.c:912-985 | a known key and a value the field accepts are one turn of the loop that changes only that field |
| RoundTrip.ValueRoundTrip | Mappy/Pods/nanopb/pb_decode.c:1463-1485 | any value, nested messages included, decodes over the default to itself with absent fields at their defaults |
| RoundTrip.PackedRoundTrip | Mappy/Pods/nanopb/pb_decode.c:415-445 | a packed array decodes item by item to itself |
| RoundTrip.ItemsRoundTrip | Mappy/Pods/nanopb/pb_decode.c:446-456 | an unpacked array arrives one element per key |
| RoundTrip.ArrayRoundTrip | Mappy/Pods/nanopb/pb_encode.c:126-211 | an array of any type and any count within capacity survives, packed or not |
| RoundTrip.FieldRoundTrip | Mappy/Pods/nanopb/pb_encode.c:307-392 | the bytes of a field take the decoder from the state before the field to the state after it: required, optional present or absent, repeated, and the chosen or unchosen members of a oneof |
| RoundTrip.LoopRoundTrip | Mappy/Pods/nanopb/pb_decode.c:901-986 | the rest of an encoding leads the decoding loop to the whole message |
| RoundTrip.MessageRoundTrip | Mappy/Pods/nanopb/pb_decode.c:1051-1063 | decoding what was encoded gives the message back |
| RoundTrip.MessageEncodes | Mappy/Pods/nanopb/pb_encode.c:494-516 | every message that fits its schema can be encoded |
| RoundTrip.DecodeOfEncode | Mappy/Pods/nanopb/pb_decode.c:1051-1063 | for every schema and every message that fits it, encoding succeeds and decoding the bytes consumes all of them and gives the same message back, with absent fields at the initial value their declaration gives or at zero, if each part that is written after its length is shorter than 2^32 bytes |
| RoundTrip.ShortWhole | Mappy/Pods/nanopb/pb_decode.c:182-242 | a message shorter than 2^32 bytes has only such parts |
| RoundTrip.CanonicalEncodesTheSame | Mappy/Pods/nanopb/pb_encode.c:335-392 | putting absent fields at their defaults does not change the encoding |
| RoundTrip.EncodingDistinguishes | Mappy/Pods/nanopb/pb_encode.c:494-516 | messages with the same encoding are the same message |
| RoundTrip.CanonicalIsSame | Mappy/Pods/nanopb/pb_decode.c:812-882 | the message that comes back is the same one: everything present is there, everything absent is at its initial value, with its flag down or its count at zero, in nested messages too |
| InitialState.DefaultsAreDefault | Mappy/Pods/nanopb/pb_decode.c:812-895 | what a structure is set to: no field present, every count and choice zero, and every value the one its declaration gives or else zero, nothing or zero bytes, in nested messages too |
| InitialState.NothingDecodes | Mappy/Pods/nanopb/pb_decode.c:1051-1063 | the empty input decodes exactly if none of the first sixty-four required fields is missing, and then to a structure at its initial state |
| WireValues.NumberOnTheWire | Mappy/Pods/nanopb/pb_encode.c:734-808 | every number that fits its field goes out as the varint of its 64-bit two's complement, as the interleaved varint of the zigzag types, or in its fixed-width bytes |
| WireValues.ContentsTaken | Mappy/Pods/nanopb/pb_decode.c:1391-1508 | exactly which contents are taken for a field: byte arrays of at most 255 bytes that leave room for the counter, strings that leave room for the terminator, and inline arrays of exactly their length or empty, which gives zeros |
| WireValues.ContentsSent | Mappy/Pods/nanopb/pb_encode.c:810-868 | exactly which contents are sent: of a string the part before its first zero within the buffer, byte arrays that leave room for their counter, inline arrays of their length |
| DecodedFits.DecodedValue | Mappy/Pods/nanopb/pb_decode.c:1289-1508 | a value decoded over what the structure held, or over the default, is one the field can hold |
| DecodedFits.DecodedField | Mappy/Pods/nanopb/pb_decode.c:401-480 | any field decoded into its slot leaves there what the slot may hold: arrays within capacity, unions with a member of their own |
| DecodedFits.DecodedMessage | Mappy/Pods/nanopb/pb_decode.c:897-1049 | whatever is read into a structure, of any schema and from any bytes, leaves every number in its range, every byte string within its buffer, every array within its capacity and every union with a member of its own, in nested messages too, and each of the first sixty-four required fields holds a value that was read |
| DecodedFits.DecodedFits | Mappy/Pods/nanopb/pb_decode.c:1051-1063 | the same for decoding from the initial state |
| UnknownFields.ValueAppend | Mappy/Pods/nanopb/pb_decode.c:1289-1508 | no value decoder looks past its own value |
| UnknownFields.SkipAppend | Mappy/Pods/nanopb/pb_decode.c:316-326 | skipping takes the same bytes whatever follows |
| UnknownFields.TurnAppend | Mappy/Pods/nanopb/pb_decode.c:912-985 | a turn of the decoding loop is the same whatever follows |
| UnknownFields.LoopAfterWhole | Mappy/Pods/nanopb/pb_decode.c:912-985 | after a sequence of whole fields decoding goes on with what follows as if from there |
| UnknownFields.KeyedIsUnknown | Mappy/Pods/nanopb/pb_decode.c:924-962 | a field under an encoded key is unknown exactly if no field of the schema has its tag and its payload is well formed |
| UnknownFields.PaddedKeyIsRead | Mappy/Pods/nanopb/pb_decode.c:293-313 | a short key is read with any number of padding bytes in it, so that unknown fields under such keys are skipped too |
| UnknownFields.UnknownFieldIsTransparent | Mappy/Pods/nanopb/pb_decode.c:924-962 | a well-formed field with a tag outside the schema, its key in any number of bytes that decodes, between any two whole fields, changes neither the result nor success |
| UnknownFields.UnknownFieldInEncodedMessage | Mappy/Pods/nanopb/pb_decode.c:924-962 | slipped in between two fields of an encoded message it leaves the decoded message as it was |
| UnknownFields.KeyedForeign | Mappy/Pods/nanopb/pb_encode.c:641-672 | what the encoder writes for one value of a field is one well-formed field to any schema without its tag: a key of that tag with the wire type of what follows |
| UnknownFields.ArrayForeign | Mappy/Pods/nanopb/pb_encode.c:126-211 | what it writes for an array, packed or not, is a sequence of such fields |
| UnknownFields.MessageForeign | Mappy/Pods/nanopb/pb_encode.c:494-516 | so is the encoding of a whole message for a schema that shares none of its tags |
| UnknownFields.ForeignMessageIsSkipped | Mappy/Pods/nanopb/pb_decode.c:924-962 | a decoder with such a schema skips the encoding of any message that fits its own, and ends where it began |
| UnknownFields.SeenAreTags | Mappy/Pods/nanopb/pb_decode.c:977-983 | the required fields noted are those whose tags occurred |
| UnknownFields.RequiredCheckIsExact | Mappy/Pods/nanopb/pb_decode.c:1006-1046 | if all fields decode, decoding succeeds if and only if each of the first sixty-four required fields occurred |
| FieldIterator.UnionSharesOffset | Mappy/Pods/nanopb/pb_common.c:42-48 | members of a union lie at one offset |
| FieldIterator.OffsetsGrow | Mappy/Pods/nanopb/pb_common.c:49-72 | later fields lie behind earlier ones, unions apart |
| FieldIterator.FollowsLayout | Mappy/Pods/nanopb/pb.h:385-403 | up to the first mistaken union, the iterator's offset of a field is where the structure has it, and a field joins the one before exactly if it is in the same union |
| FieldIterator.OffsetsAreRight | Mappy/Pods/nanopb/pb.h:385-403 | for the field list that the header's macros make of any structure, adding up leads to every member exactly if no union starts 255 bytes behind another, which the iterator takes for the same one |
| FieldIterator.AtMember | Mappy/Pods/nanopb/pb_common.c:20-76 | so wherever the iterator is, its pointers are at the member and at its flag or counter |
| FieldIterator.FieldIter.Begin | Mappy/Pods/nanopb/pb_common.c:8-18 | the iterator starts at the first field |
| FieldIterator.FieldIter.Next | Mappy/Pods/nanopb/pb_common.c:20-76 | after any mix of steps the data pointer is the sum of all that comes before, the size pointer goes with it, and the required-field index counts the required fields before |
| FieldIterator.FieldIter.Find | Mappy/Pods/nanopb/pb_common.c:78-95 | the cyclic search terminates, succeeds exactly when some field has the tag, and otherwise ends where it began; an empty list has only its terminator |
| Streams.OutputStream.Write | Mappy/Pods/nanopb/pb_encode.c:101-119 | data is added exactly when it is within the limit |
| Streams.UnflagLast | Mappy/Pods/nanopb/pb_encode.c:585-591 | clearing the flag of the last group gives the encoding |
| Streams.FillGroups | Mappy/Pods/nanopb/pb_encode.c:577-591 | the loop fills its ten-byte buffer with the varint |
| Streams.EncodeVarint | Mappy/Pods/nanopb/pb_encode.c:574-594 | writes the varint, exactly when there is room |
| Streams.InputStream.Read | Mappy/Pods/nanopb/pb_decode.c:100-132 | reads exactly so many bytes or none |
| Streams.InputStream.ReadByte | Mappy/Pods/nanopb/pb_decode.c:136-152 | reads one byte if there is one |
| Streams.InputStream.DecodeVarint | Mappy/Pods/nanopb/pb_decode.c:250-270 | the loop computes the 64-bit decoding |
| Streams.Placed64 | Mappy/Pods/nanopb/pb_decode.c:262-263 | or-ing a group in at its place, in 64 bits, keeps the value read so far, the tenth byte's lost bits included |
| Streams.InputStream.DecodeVarint32 | Mappy/Pods/nanopb/pb_decode.c:182-242 | the loop computes the 32-bit decoding, its wrapping 8-bit position included |
| Streams.InputStream.SkipVarint | Mappy/Pods/nanopb/pb_decode.c:273-282 | skips to the end of the varint |
| Streams.InputStream.SkipString | Mappy/Pods/nanopb/pb_decode.c:284-291 | skips a length and that many bytes |
| Streams.InputStream.SkipField | Mappy/Pods/nanopb/pb_decode.c:316-326 | skips by wire type, or fails |
| Streams.InputStream.MakeSubstream | Mappy/Pods/nanopb/pb_decode.c:367-380 | the substream is exactly the announced part of the stream |
| Streams.InputStream.CloseSubstream | Mappy/Pods/nanopb/pb_decode.c:382-395 | the stream goes on right after it, whatever was read of it |
| Encoder.EncodeNumberTo | Mappy/Pods/nanopb/pb_encode.c:734-808 | writes any number by its type and width |
| Encoder.EncodeFixed32 | Mappy/Pods/nanopb/pb_encode.c:607-616 | four little-endian bytes by shifts |
| Encoder.EncodeFixed64 | Mappy/Pods/nanopb/pb_encode.c:619-632 | eight little-endian bytes by shifts |
| Encoder.MeasureString | Mappy/Pods/nanopb/pb_encode.c:844-852 | the scan stops at the terminator or the end of the buffer |
| Encoder.EncodeBlobTo | Mappy/Pods/nanopb/pb_encode.c:810-868 | writes byte arrays, strings and fixed-length bytes after their length, and refuses too long ones |
| Encoder.EncodeString | Mappy/Pods/nanopb/pb_encode.c:674-680 | a length and that many bytes |
| Encoder.EncodeTag | Mappy/Pods/nanopb/pb_encode.c:635-639 | a key of tag and wire type |
| Encoder.EncodeSubmessage | Mappy/Pods/nanopb/pb_encode.c:682-730 | the length prefix is the length of the body, and the sizing pass and the writing pass always agree: the size-changed error is never reported |
| Encoder.EncodeWithin | Mappy/Pods/nanopb/pb_encode.c:702-729 | the writing pass on a substream of that size succeeds exactly when it fits the parent |
| Encoder.EncodeItemsTo | Mappy/Pods/nanopb/pb_encode.c:151-206 | the loops over the items write them all, each after its key where unpacked |
| Encoder.PackedSize | Mappy/Pods/nanopb/pb_encode.c:145-171 | the size computed for a packed array is the number of bytes its items take |
| Encoder.EncodeArrayTo | Mappy/Pods/nanopb/pb_encode.c:126-211 | arrays within capacity are packed where the type allows it, with the right length prefix |
| Encoder.EncodeFieldTo | Mappy/Pods/nanopb/pb_encode.c:345-388 | each repetition rule writes what it means |
| Encoder.EncodeMessage | Mappy/Pods/nanopb/pb_encode.c:494-516 | encoding succeeds if and only if the values can be encoded and the bytes are within the limit, then has written exactly the encoding, and a sizing stream counts exactly the bytes a writing stream writes |
| Encoder.GetEncodedSize | Mappy/Pods/nanopb/pb_encode.c:533-542 | the size returned is the encoding's |
| FieldsSeen.OrSetsBit | Mappy/Pods/nanopb/pb_decode.c:980-982 | or-ing a shifted one in sets that bit of a 32-bit word and no other |
| FieldsSeen.SameBits | Mappy/Pods/nanopb/pb_decode.c:1031-1043 | comparing words compares all their bits |
| FieldsSeen.Note | Mappy/Pods/nanopb/pb_decode.c:977-983 | notes one required field across the two words |
| FieldsSeen.CheckNoted | Mappy/Pods/nanopb/pb_decode.c:1026-1045 | whole words and remainder bits together check exactly the first fields |
| Decoder.DecodeFixed | Mappy/Pods/nanopb/pb_decode.c:1254-1286 | combines the bytes to the little-endian number |
| Decoder.DecodeInteger | Mappy/Pods/nanopb/pb_decode.c:1289-1372 | narrows with the overflow check of each integer type |
| Decoder.DecodeBlobFrom | Mappy/Pods/nanopb/pb_decode.c:1391-1508 | checks lengths against the buffer, with the empty special case of fixed-length bytes |
| Decoder.SetToDefaults | Mappy/Pods/nanopb/pb_decode.c:884-895 | leaves a structure at its initial state, field by field and nested ones too: no field present, every value the one its declaration gives or zero |
| Decoder.SetFieldToDefault | Mappy/Pods/nanopb/pb_decode.c:812-882 | clears presence, count or choice and sets the value that the declaration gives, or zero |
| Decoder.DecodeSubmessage | Mappy/Pods/nanopb/pb_decode.c:1463-1485 | decodes a nested message from exactly its part of the stream, over the structure given |
| Decoder.DecodePackedFrom | Mappy/Pods/nanopb/pb_decode.c:412-445 | decodes a packed array, and fails when items are left over |
| Decoder.DecodeFieldFrom | Mappy/Pods/nanopb/pb_decode.c:401-475 | stores a value by the field's repetition rule |
| Decoder.DecodeTag | Mappy/Pods/nanopb/pb_decode.c:293-314 | reads a key, or the end marker |
| Decoder.NoteField | Mappy/Pods/nanopb/pb_decode.c:977-983 | notes exactly this field among the first sixty-four required |
| Decoder.CountRequired | Mappy/Pods/nanopb/pb_decode.c:1011-1020 | stepping to the end counts the required fields, the last included |
| Decoder.CheckRequired | Mappy/Pods/nanopb/pb_decode.c:1006-1046 | the words say exactly whether each of the first sixty-four required fields was met |
| Decoder.DecodeTurn | Mappy/Pods/nanopb/pb_decode.c:912-985 | one turn of the loop does what a turn means, found field, unknown field or end |
| Decoder.DecodeMessageNoInit | Mappy/Pods/nanopb/pb_decode.c:901-1049 | the loop over the stream computes the decoding, required fields included |
| Decoder.DecodeMessage | Mappy/Pods/nanopb/pb_decode.c:1051-1063 | decoding over the defaults |
| Codec.FitsIsTyped | Mappy/Pods/nanopb/pb_encode.c:494-516 | a message that fits its schema has the kinds of values that the structure holds |
| Codec.ThroughBuffer | Mappy/Pods/nanopb/pb_decode.c:1051-1063 | through a buffer: encoding succeeds exactly when the counted size fits, and decoding then gives the same message back, with absent fields at their initial values |
| CipherChoice.BestIsUnique | Mappy/Pods/BoringSSL-GRPC/ssl/internal.h:1860-1889 | the preference lists determine one cipher |
| CipherChoice.UngroupedIsFirst | Mappy/Pods/BoringSSL-GRPC/ssl/internal.h:1876-1879 | without groups the choice is the first that both sides allow |
| CipherChoice.Find | Mappy/Pods/BoringSSL-GRPC/ssl/handshake_server.cc:393-400 | finds the first place of a cipher in a list |
| CipherChoice.AnswerIsBest | Mappy/Pods/BoringSSL-GRPC/ssl/handshake_server.cc:409-413 | at the end of a group the better of its candidate and the best so far is the right choice |
| CipherChoice.LeavingGroup | Mappy/Pods/BoringSSL-GRPC/ssl/handshake_server.cc:416-420 | leaving a group with a candidate, its best is the right choice |
| CipherChoice.CandidateTracks | Mappy/Pods/BoringSSL-GRPC/ssl/handshake_server.cc:402-408 | a candidate inside a group is weighed by the other side's order |
| CipherChoice.ChooseCipher | Mappy/Pods/BoringSSL-GRPC/ssl/handshake_server.cc:357-424 | with the server's preference the client's favourite of the first group that has a candidate, with the client's preference the client's first that the server allows, and none exactly when no common cipher is usable |
| HandshakeScript.OutAndRest | Mappy/Pods/BoringSSL-GRPC/ssl/handshake.cc:491-628 | what a side has sent and what it has still to send make up its part of the handshake |
| HandshakeScript.CertificateVerifyPlace | Mappy/Pods/BoringSSL-GRPC/ssl/handshake_client.cc:1373-1455 | a client that is asked for a certificate and has one signs exactly all messages before the signature, and no other client sends one |
| HandshakeScript.FullHandshake | Mappy/Pods/BoringSSL-GRPC/ssl/handshake.cc:491-628 | the messages of a full handshake written out, optional ones where the choices say so: what is signed, what the Channel ID and each Finished cover, and that the master secret is made from the messages up to the key exchange (section 7.3 of RFC 5246) |
| HandshakeScript.ResumedHandshake | Mappy/Pods/BoringSSL-GRPC/ssl/handshake.cc:491-628 | the same for a resumed session |
| HandshakeConnection.Connection.AddMessage | Mappy/Pods/BoringSSL-GRPC/ssl/handshake.cc:176-184 | a message sent joins the flight and the transcript once, at its place |
| HandshakeConnection.Connection.HashMessage | Mappy/Pods/BoringSSL-GRPC/ssl/handshake.cc:215-222 | a message received is hashed as its place's |
| HandshakeConnection.Connection.NextMessage | Mappy/Pods/BoringSSL-GRPC/ssl/s3_both.cc:562-583 | removing it completes the place |
| HandshakeConnection.Connection.StartHash | Mappy/Pods/BoringSSL-GRPC/ssl/ssl_transcript.cc:181-195 | the hash starts with all messages so far |
| HandshakeConnection.Connection.ReleaseBuffer | Mappy/Pods/BoringSSL-GRPC/ssl/ssl_transcript.cc:197-199 | without the buffer the hash still stands for the transcript |
| HandshakeConnection.Connection.GetFinished | Mappy/Pods/BoringSSL-GRPC/ssl/handshake.cc:380-429 | whatever message comes, it is accepted and hashed if and only if it is the other side's Finished for this side's own transcript and secret; an honest one always is |
| HandshakeConnection.Connection.Receive | Mappy/Pods/BoringSSL-GRPC/ssl/s3_both.cc:474-560 | messages arrive in the order sent |
| HandshakeConnection.Connection.NothingBuffered | Mappy/Pods/BoringSSL-GRPC/ssl/tls_method.cc:84-95 | no message is left unread when the cipher changes |
| HandshakeClient.ClientHandshake.DoStartConnect | Mappy/Pods/BoringSSL-GRPC/ssl/handshake_client.cc:385-452 | sends the ClientHello |
| HandshakeClient.ClientHandshake.DoReadServerHello | Mappy/Pods/BoringSSL-GRPC/ssl/handshake_client.cc:535-759 | takes any message: a ServerHello's choices are taken over, the hash starts with the messages so far, the message is hashed once and the buffer kept only if a certificate may be asked for; any other message is an error that changes nothing |
| HandshakeClient.ClientHandshake.DoReadServerCertificate | Mappy/Pods/BoringSSL-GRPC/ssl/handshake_client.cc:771-819 | where the cipher has a certificate, takes exactly a Certificate and refuses anything else; otherwise reads nothing |
| HandshakeClient.ClientHandshake.DoReadCertificateStatus | Mappy/Pods/BoringSSL-GRPC/ssl/handshake_client.cc:821-869 | takes a CertificateStatus if one was announced and it comes, and leaves any other message unread |
| HandshakeClient.ClientHandshake.DoVerifyServerCertificate | Mappy/Pods/BoringSSL-GRPC/ssl/handshake_client.cc:871-889 | can be asked again without changing anything |
| HandshakeClient.ClientHandshake.DoReadServerKeyExchange | Mappy/Pods/BoringSSL-GRPC/ssl/handshake_client.cc:891-1071 | takes the key exchange if it comes, leaves another message unread where the cipher needs none, and refuses it otherwise |
| HandshakeClient.ClientHandshake.DoReadCertificateRequest | Mappy/Pods/BoringSSL-GRPC/ssl/handshake_client.cc:1073-1143 | takes the request, or sees ServerHelloDone without consuming it and lets the buffer go, and refuses anything else |
| HandshakeClient.ClientHandshake.DoReadServerHelloDone | Mappy/Pods/BoringSSL-GRPC/ssl/handshake_client.cc:1145-1167 | takes exactly ServerHelloDone |
| HandshakeClient.ClientHandshake.DoSendClientCertificate | Mappy/Pods/BoringSSL-GRPC/ssl/handshake_client.cc:1169-1215 | sends the certificate, or an empty one and lets the buffer go, if asked to |
| HandshakeClient.ClientHandshake.DoSendClientKeyExchange | Mappy/Pods/BoringSSL-GRPC/ssl/handshake_client.cc:1220-1371 | the message is in the transcript before the master secret is made |
| HandshakeClient.ClientHandshake.DoSendCertificateVerify | Mappy/Pods/BoringSSL-GRPC/ssl/handshake_client.cc:1373-1455 | signs all messages so far, exactly if it was asked for a certificate and has one, and then lets the buffer go |
| HandshakeClient.ClientHandshake.DoSendClientFinished | Mappy/Pods/BoringSSL-GRPC/ssl/handshake_client.cc:1457-1512 | sends ChangeCipherSpec, the optional messages and Finished, once |
| HandshakeClient.ClientHandshake.DoFinishFlight | Mappy/Pods/BoringSSL-GRPC/ssl/handshake_client.cc:1538-1564 | goes on to the other side's end, or is done |
| HandshakeClient.ClientHandshake.DoReadSessionTicket | Mappy/Pods/BoringSSL-GRPC/ssl/handshake_client.cc:1566-1647 | takes exactly a ticket where one was promised, and otherwise reads nothing |
| HandshakeClient.ClientHandshake.DoProcessChangeCipherSpec | Mappy/Pods/BoringSSL-GRPC/ssl/handshake_client.cc:1649-1656 | changes keys exactly if no message is unread |
| HandshakeClient.ClientHandshake.DoReadServerFinished | Mappy/Pods/BoringSSL-GRPC/ssl/handshake_client.cc:1658-1672 | whatever message comes, goes on if and only if it is the server's Finished for this side's own transcript and secret |
| HandshakeClient.ClientHandshake.Run | Mappy/Pods/BoringSSL-GRPC/ssl/handshake_client.cc:1707-1789 | runs from wait to wait, terminates, follows the handshake and never fails |
| HandshakeServer.ServerHandshake.DoReadClientHello | Mappy/Pods/BoringSSL-GRPC/ssl/handshake_server.cc:432-510 | takes exactly a ClientHello, without hashing it, as often as the callback wants, and refuses anything else |
| HandshakeServer.ServerHandshake.DoSelectCertificate | Mappy/Pods/BoringSSL-GRPC/ssl/handshake_server.cc:512-560 | the certificate callback may take several calls |
| HandshakeServer.ServerHandshake.DoSelectParameters | Mappy/Pods/BoringSSL-GRPC/ssl/handshake_server.cc:572-684 | settles the parameters, starts the hash with the ClientHello, hashed exactly once and after the session lookup, and keeps the buffer only if a certificate will be asked for |
| HandshakeServer.ServerHandshake.DoSendServerHello | Mappy/Pods/BoringSSL-GRPC/ssl/handshake_server.cc:686-752 | sends the choices |
| HandshakeServer.ServerHandshake.DoSendServerCertificate | Mappy/Pods/BoringSSL-GRPC/ssl/handshake_server.cc:754-840 | sends certificate and status where the choices say so |
| HandshakeServer.ServerHandshake.DoSendServerKeyExchange | Mappy/Pods/BoringSSL-GRPC/ssl/handshake_server.cc:842-912 | sends the key exchange once, after any number of key operation retries |
| HandshakeServer.ServerHandshake.DoSendServerHelloDone | Mappy/Pods/BoringSSL-GRPC/ssl/handshake_server.cc:914-947 | sends the request if any and ServerHelloDone |
| HandshakeServer.ServerHandshake.DoReadClientCertificate | Mappy/Pods/BoringSSL-GRPC/ssl/handshake_server.cc:949-1040 | takes exactly a Certificate if one was asked for, lets the buffer go if it is empty, and refuses anything else |
| HandshakeServer.ServerHandshake.DoVerifyClientCertificate | Mappy/Pods/BoringSSL-GRPC/ssl/handshake_server.cc:1042-1056 | can be asked again without changing anything |
| HandshakeServer.ServerHandshake.DoReadClientKeyExchange | Mappy/Pods/BoringSSL-GRPC/ssl/handshake_server.cc:1058-1267 | takes exactly the key exchange, once, after decryption retries, and the master secret is made from the transcript with it |
| HandshakeServer.ServerHandshake.DoReadClientCertificateVerify | Mappy/Pods/BoringSSL-GRPC/ssl/handshake_server.cc:1269-1363 | whatever message comes: with a client certificate goes on if and only if it is a signature over all messages so far; without one reads nothing; and lets the buffer go |
| HandshakeServer.ServerHandshake.DoAwaitChangeCipherSpec | Mappy/Pods/BoringSSL-GRPC/ssl/handshake_server.cc:1365-1368 | waits with nothing unread |
| HandshakeServer.ServerHandshake.DoProcessChangeCipherSpec | Mappy/Pods/BoringSSL-GRPC/ssl/handshake_server.cc:1370-1377 | changes keys exactly if no message is unread |
| HandshakeServer.ServerHandshake.DoReadNextProto | Mappy/Pods/BoringSSL-GRPC/ssl/handshake_server.cc:1379-1413 | takes exactly the message if it was negotiated |
| HandshakeServer.ServerHandshake.DoReadChannelId | Mappy/Pods/BoringSSL-GRPC/ssl/handshake_server.cc:1415-1437 | whatever message comes, if a Channel ID was negotiated goes on if and only if it signs this side's own transcript |
| HandshakeServer.ServerHandshake.DoReadClientFinished | Mappy/Pods/BoringSSL-GRPC/ssl/handshake_server.cc:1439-1461 | whatever message comes, goes on if and only if it is the client's Finished for this side's own transcript and secret |
| HandshakeServer.ServerHandshake.DoSendServerFinished | Mappy/Pods/BoringSSL-GRPC/ssl/handshake_server.cc:1463-1509 | sends the ticket promised, ChangeCipherSpec and Finished, once |
| HandshakeServer.ServerHandshake.Run | Mappy/Pods/BoringSSL-GRPC/ssl/handshake_server.cc:1539-1621 | runs from wait to wait, terminates, follows the handshake and never fails |
| HandshakeRun.ClientAwaits | Mappy/Pods/BoringSSL-GRPC/ssl/handshake_client.cc:535-1672 | a waiting client waits for what indeed comes next, and it comes from the server |
| HandshakeRun.ServerAwaits | Mappy/Pods/BoringSSL-GRPC/ssl/handshake_server.cc:432-1461 | a waiting server waits for what indeed comes next, and it comes from the client |
| HandshakeRun.AwaitedArrives | Mappy/Pods/BoringSSL-GRPC/ssl/handshake.cc:507-547 | the next item on the way is a message where one is awaited and a ChangeCipherSpec where that is |
| HandshakeRun.ClientTurn | Mappy/Pods/BoringSSL-GRPC/ssl/handshake.cc:491-628 | resolving a wait, partly or fully, and running the client keeps both machines on the handshake; a prompt turn lessens the work left unless the client has nothing to do |
| HandshakeRun.ServerTurn | Mappy/Pods/BoringSSL-GRPC/ssl/handshake.cc:491-628 | the same for the server |
| HandshakeRun.TranscriptsAgree | Mappy/Pods/BoringSSL-GRPC/ssl/handshake.cc:380-476 | whenever both sides have processed the same part of the handshake, their transcripts and the transcripts in their master secrets are equal |
| HandshakeRun.NeverStuck | Mappy/Pods/BoringSSL-GRPC/ssl/handshake.cc:491-628 | the two never both wait for the other with nothing on the way, unless both are done |
| HandshakeRun.IdleIsEmpty | Mappy/Pods/BoringSSL-GRPC/ssl/handshake.cc:491-628 | when neither side has anything to do, nothing is in a flight or on the way |
| HandshakeRun.LogsCompare | Mappy/Pods/BoringSSL-GRPC/ssl/handshake.cc:380-476 | of two moments of the handshake the earlier transcript is a prefix of the later |
| HandshakeRun.HonestRun | Mappy/Pods/BoringSSL-GRPC/ssl/handshake.cc:491-628 | any honest run of any length, full or resumed, with or without client certificate, status, ticket, NPN and Channel ID, under any schedule of partial flushes, deliveries and callback retries: no wrong-type or any other error; whenever it is stopped, both sides have hashed prefixes of the one handshake, each message once and in order, and one of them a prefix of the other; a finished side has hashed all of it, and two finished sides hold the same secret (section 7.3 of RFC 5246) |
| HandshakeRun.FairRun | Mappy/Pods/BoringSSL-GRPC/ssl/handshake.cc:491-628 | from any moment of any honest run: if both sides then take turns, flush and deliver what there is and callbacks answer, both are done after at most as many rounds as there is work left, with equal transcripts of the whole handshake and the same secret |
| HandshakeRun.FairHandshake | Mappy/Pods/BoringSSL-GRPC/ssl/handshake.cc:491-628 | every handshake ends so within a fixed number of rounds |

## Left out

- RoundTrip.DecodeOfEncode: for parts shorter than 2^32 bytes, because the decoder reads lengths as 32-bit numbers; it is not shown what a longer part decodes to, which no structure of the default build can hold.
- RecordWriting.Writer.WriteAppData: leaves out the capacities from 0xfffa to 0xffff for a record and the rest of the flight before it, for which bytes may be lost, as the input beside the exact bound shows.
- RecordWriting.Writer.DoWrite: the same six capacities.
- RecordWriting.Writer.SendAlert: the same six capacities, for an alert.
- RecordWriting.Writer.DispatchAlert: the same; the transport is not flushed after a fatal alert.
- RecordWriting.Writer.MoveFlight: the same six capacities.
- RecordWriting.Writer.WriteChunk: the same six capacities.
- RecordWriting.Writer.WriteRecords: the same six capacities.
- RecordWriting.WriteWithRetries: the same six capacities.
- WriteBuffer.FlushBuffer: a buffer whose 16-bit offset may wrap.
- HandshakeWriter.Writer.AddOutgoing: requires data begun with the next number, as every caller does; the update of the transcript is modelled in the handshake component.
- Channel.DeliveredIsPrefix: for up to 65535 messages, before the 16-bit message number wraps.
- Endpoints.Converse: the same number of messages; a record that decrypts is one that was sent, in the unencrypted epoch too.
- Endpoints.CatchUp: an MTU of more than 16384 bytes, under which a fragment may be longer than a record can carry, and a writer whose counter of 2^48 records has run out, whose records the window may take for old ones.
- ReplayWindow.RecordReader.OpenRecord: an alert that is accepted is recognized and not processed.
- HandshakeReader.Reader.NextMessage: does not note that the flight sent before has a reply.
- Records of the handshake that arrive after it (`Mappy/Pods/BoringSSL-GRPC/ssl/d1_pkt.cc:117-173`): the last flight sent again to a finished peer is not read by the handshake's own reader.
- RecordNumbers.SealedNumbersDistinct: up to the first counter that runs out and without epoch wrap; what happens then is stated beside it.
- CipherChoice.ChooseCipher: requires that the list of preferences ends with the end of a group, as the lists the library builds do.
- Decoder.DecodeMessageNoInit: requires distinct positive tags below 2^29, as the schema compiler generates; the structure is passed by value and returned, so aliasing of the destination and its partial contents after a failure are not modelled.
- HandshakeRun.HonestRun: honest peers with the same session state, so parse errors, alerts and mismatching configurations do not occur; what each reading state makes of any other message is stated state by state.
- Cryptography, certificates and random numbers: a cipher is lengths and success or failure, a Finished or signature is a function of the transcript it is made from.
- TLS 1.3, early data, SSL 3.0, V2ClientHello, renegotiation, handoff, HelloVerifyRequest in the two-machine run.
- Record headers of TLS and of DTLS records sent: such a record is what it carries and its length. Alerts received are recognized and not interpreted.
- Timers, clocks, sockets and BIO layers: a timeout is a retransmission at any moment.
- Memory allocation failure, error queues, message and info callbacks, raw pointers beyond the field iterator's.
- nanopb callbacks, extensions, pointer fields, fixed-count arrays, proto3 singular fields, delimited and null-terminated entry points, and the build without 64-bit integers; sizes and counts are the single bytes of the default build.
- Splitting the handshake byte stream into messages (`Mappy/Pods/BoringSSL-GRPC/ssl/s3_both.cc:399-583`): messages arrive whole in the two-machine run.
- The Swift application: user interface and remote calls without an algorithm.

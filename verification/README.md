# Reliable file transfer over UDP, and the router's Internet checksum

This project models two parts of the repository and proves properties of them.

**The file transfer of project2.** A server sends a file in packets of 1000 bytes. At most 5 packets
are outstanding, and a packet carries only a sequence number between 1 and 10. On a timeout the server
resends the oldest outstanding packet, and it exits when the same number has been resent too often. The
client keeps a queue of the 5 numbers it expects next, writes packets in order, buffers packets that
come early in a map keyed by sequence number, and acknowledges everything it receives. Both programs
compare nothing but sequence numbers; what they are for is stated about packets counted without bound.

| file | contents |
|---|---|
| `Bytes.dfy` | bytes, words, `htons`/`htonl` of a little-endian host |
| `SequenceNumbers.dfy` | window size, count of numbers and byte order; sequence numbers of unbounded packet indices |
| `Wire.dfy` | packets, and the cutting of a file into packets |
| `Sender.dfy`, `Server.dfy` | the server: transitions on values, and the class that updates its fields in place |
| `Receiver.dfy`, `Client.dfy` | the client, likewise |
| `GivingUp.dfy` | what it means that the server gives up |
| `Ideal.dfy` | the protocol with unbounded indices instead of sequence numbers |
| `Fifo.dfy` | both programs over first-in first-out channels that lose and duplicate |
| `EarlySet.dfy` | the server's set of early acknowledgements on big-endian hosts, when none comes late |
| `Unordered.dfy` | both programs over a network that also reorders and delays, up to an age limit |
| `FifoRefinesUnordered.dfy` | the first network is a special case of the second |
| `MarkedFiles.dfy` | files for counterexamples |
| `AgeLimits.dfy` | exactly which age limits the reordering network may have |
| `BigEndian.dfy` | a run that writes the wrong bytes on hosts that are big-endian |
| `Tightness.dfy` | exactly which configurations are safe over the channels |
| `Progress.dfy` | deliveries settle, timeouts make progress, and short of the server's last resend the transfer can be finished |
| `Finishing.dfy` | exactly from which states the transfer can still be finished |
| `Deployed.dfy` | the main results for the programs' own constants, spelt out in numbers |
| `InternetChecksum.dfy` | the checksum loop of project3, and the echo reply it is used for |

The classes use the programs' constants. The transitions take the window size, the count of sequence
numbers and the byte order of the hosts as parameters (`Config`), and `DEPLOYED` is 5, 10 and
little-endian. What holds for these constants is stated in plain numbers in `Deployed` and in the
contracts of the classes: five packets of 1000 bytes outstanding, numbers 1 to 10, acknowledgement words
with the number in the byte sent first. A configuration is `Sound` if `2 * window <= modulus` and the
hosts are little-endian or the window is 1; `DEPLOYED` is sound, with equality.

A run is any list of steps: a timeout, the delivery of the oldest packet or acknowledgement, the loss or
duplication of any message in flight. A step that is impossible changes nothing, so a statement about
all lists is a statement about all reachable states.

Main results:

- *Safety.* In every run the client has written exactly the front of the file, and the whole of it when
  it exits or when the server reports completion (`Fifo.Safety`, `Fifo.CompletionIsTruthful`, and
  `Unordered.Safety` for reordering networks).
- *Refinement.* The programs stay in step with the protocol that carries full indices (`Fifo.RunMatches`).
- *Exactness.* For every window size, count of numbers and byte order, output is right in all runs over
  all files if and only if the configuration is sound (`Tightness.SafeIffSound`). Over a reordering
  network, with `w` the window and `m` the count of numbers, output and completion are right in all runs
  if and only if packets come at most `m - w` places late, and acknowledgements at most `m - 1` or, on
  big-endian hosts with a window of 2 or more, not late at all (`AgeLimits.CorrectIffInRange`).
- *Progress.* Deliveries in any order end after a number that the programs' counters bound
  (`Progress.DeliveriesSettle`). Packets not yet retired bound the number of loss-free timeout rounds
  before the client has the file (`Progress.RoundsComplete`, `Progress.EagerRoundsComplete`). From which
  reachable states the transfer can still be finished is stated exactly (`Finishing.CanFinishIff`); with
  nothing in flight it can be read off the programs' variables, and loss-free rounds then do finish it
  (`Finishing.QuietCanFinishIff`, `Finishing.RoundsCompleteIff`).
- *Giving up.* That the server gives up means that it has resent one packet sixteen times in a row, if
  and only if the file has no more packets than there are sequence numbers
  (`GivingUp.RunsGiveUpOnOnePacketIff`).
- *Checksum.* The value the loop returns is the one value that makes the frame verify; a change to one
  word goes unnoticed exactly if it exchanges 0x0000 and 0xffff; byte order does not matter; nothing
  ahead of position 34 does. The echo reply, however, carries a right checksum only if the data happens to
  add up to what its buffer held before (`InternetChecksum.ReplyVerifiesIff`).

How the code is read, where that needs saying:

- The server stores early acknowledgements as they came from the socket (project2/server.cpp:164) but
  looks up host-order numbers (project2/server.cpp:118). On a little-endian host no stored word is ever
  in the range of the numbers, so the set is inert. `Bytes.RawWordsNeverMatchIff` says exactly for which
  ranges that is so, and `Sender.SetStaysInert` proves it for every run. Safety depends on it: on a
  big-endian host one duplicated acknowledgement stays in the set until its number comes up again, the
  server then retires a packet that was lost, and the client ends up with a later packet in its place
  (`BigEndian.EarlySetBreaks`).
- The server's resend counter goes by sequence number. It is exactly the length of the trailing run of
  equal numbers (`GivingUp.GiveUpCounter`). With a file of more than 10000 bytes the server can therefore
  give up on a packet it has resent only once, to a client that has answered everything that reached it
  (`GivingUp.SharedCounterReached`), although its message says that the client is probably dead.
- project2/server.cpp:118 reads the front of the queue even when the last packet has just been popped;
  the model tests for that first and pops nothing.
- The client's digest check overwrites the received digest before comparing (project2/client.cpp:64-65)
  and so always succeeds; the branches for a mismatch never run, and messages arrive uncorrupted.
- The router computes the checksum of an echo reply before it copies the data into the buffer
  (project3/router.cpp:517-521), so over whatever the uninitialised buffer holds behind the headers.
  `InternetChecksum.ReplyVerifiesIff` says exactly when the reply's checksum is right all the same, and
  `InternetChecksum.ReplyNotVerified` gives a buffer and data for which it is not.
- `exit` becomes a flag. Nothing is received after it.
- The packet buffer is uninitialised when `fread` fills its front; what the rest of the last packet holds
  is an arbitrary part of `Source`.
- The model starts when the client knows the file size and requires a non-empty file: with an empty one
  the server would wait with an empty window and resend from it.
- On what the list of incoming events or datagrams contains, the class methods and `Sender.ServeConserved`
  and `GivingUp.GiveUpCounter` assume nothing at all.

## Model

| member | source | states |
|---|---|---|
| `Bytes.Swap32Involutive` | project2/server.cpp:144 | a number put into network order comes back from it unchanged |
| `Bytes.Swap32Reverses` | project2/client.cpp:82 | byte k of the converted word is byte 3 - k of the word |
| `Bytes.Swap32OfBytes` | project2/server.cpp:144 | the conversion of a word given by its four digits to the base 256 |
| `Bytes.Swap32OfByte` | project2/client.cpp:82 | a number below 256 goes on the wire as that byte and three zeros |
| `Bytes.RawWordsNeverMatchIff` | project2/server.cpp:164 | words stored in network order miss the whole range of sequence numbers exactly when the range stays below 2^16 |
| `SequenceNumbers.NextSeqIsRemainder` | project2/client.cpp:46 | the wrap-around counter of the model is the remainder computation of the code |
| `SequenceNumbers.SeqOfIsRemainder` | project2/server.cpp:45 | packet i carries i mod 10 + 1, for any modulus |
| `SequenceNumbers.CounterStep` | project2/server.cpp:44-47 | repeated calls of nextSeq number packets 0, 1, 2, ... in order, across every wrap-around |
| `SequenceNumbers.SeqOfDistinguishes` | project2/server.cpp:147 | two packets fewer than a modulus apart have equal numbers if and only if they are the same packet |
| `SequenceNumbers.DeployedNumbers` | project2/client.cpp:46-82 | packet i carries i mod 10 + 1 and is acknowledged by that number times 0x1000000 |
| `SequenceNumbers.AckWordIsNoNumber` | project2/server.cpp:164 | on a little-endian host no acknowledgement word equals a sequence number |
| `Wire.Source.PacketCount` | project2/server.cpp:244-248 | the packet count is the file size divided by 1000, rounded up; all packets but the last are full |
| `Wire.Source.ReadBytes` | project2/server.cpp:50-52 | a read fills 1000 bytes from the file and leaves the rest of the buffer as it was |
| `Wire.Source.PacketBytes` | project2/server.cpp:49-54 | byte k of packet i is byte 1000 i + k of the file, or behind its end byte k of the buffer |
| `Sender.PushNextConserved` | project2/server.cpp:49-54 | building a packet reads the next 1000 bytes and gives it the next number |
| `Sender.FillConserved` | project2/server.cpp:84-96 | fillWindow sends exactly the next packets of the file, in order, and leaves min(5, packets not yet retired) in the window |
| `Sender.CheckOutOfOrderConserved` | project2/server.cpp:116-126 | retiring packets from the set keeps the window a run of consecutive packets, whatever the set holds, and terminates |
| `Sender.CheckOutOfOrderExact` | project2/server.cpp:116-126 | exactly the maximal run of packets whose numbers are in the set is retired, and exactly these numbers leave the set |
| `Sender.RecvAckExact` | project2/server.cpp:143-166 | the whole new state for every word and every set: the packets retired, the numbers that leave the set, the word that joins it, the report of completion |
| `Sender.RecvAckConserved` | project2/server.cpp:128-165 | whatever word arrives, retired plus outstanding packets stay equal to packets read, and completion is reported exactly when all are retired |
| `Sender.TurnConserved` | project2/server.cpp:262-274 | one pass of the send loop keeps the invariant, whatever arrives |
| `Sender.TimeoutTurn` | project2/server.cpp:98-101 | a timeout sends the oldest unacknowledged packet, only that one, and changes only the resend bookkeeping |
| `Sender.ServeConserved` | project2/server.cpp:262-280 | after any list of arbitrary words and timeouts: the conservation law, a full window, and an empty window only on completion |
| `Sender.ServeStopped` | project2/server.cpp:267-269 | once the loop has ended nothing that follows changes state or output |
| `Sender.AckTurn` | project2/server.cpp:144-161 | an acknowledgement fewer than a modulus away retires the front packet if it is that packet's, and nothing otherwise |
| `Sender.FrontAckTurn` | project2/server.cpp:147-161 | on either byte order the front packet's acknowledgement retires it alone when the set does not hold the next number |
| `Sender.EarlyAckTurn` | project2/server.cpp:162-166 | on either byte order any other recent acknowledgement only joins the set |
| `Sender.InertNeverPops` | project2/server.cpp:118 | while the set is inert checkOutOfOrder changes nothing |
| `Sender.SetStaysInert` | project2/server.cpp:116-164 | over every run fed with acknowledgements the set holds exactly the early words, never matches, and packets retired equal front acknowledgements received |
| `GivingUp.ReSendCounts` | project2/server.cpp:103-113 | one reSend keeps the counter, the last number and the decision to exit in agreement with the history of resends |
| `GivingUp.GiveUpCounter` | project2/server.cpp:98-114 | after any list of words and timeouts the counter is the trailing run of equal resends less one, and the server has exited if and only if that run reached 16 |
| `GivingUp.ResendsByIndex` | project2/server.cpp:98-101 | the numbers resent are those of the front packets at the timeouts, over every list of events |
| `GivingUp.OnePacketGivesUp` | project2/server.cpp:103-108 | sixteen resends of one packet in a row always make the server exit |
| `GivingUp.GivesUpAfterOneResend` | project2/server.cpp:103-108 | for every file of more packets than numbers, a list of events on which the server exits at the first resend of a packet, because one a modulus earlier shared its number |
| `GivingUp.GiveUpMeansOnePacketIff` | project2/server.cpp:98-114 | over all lists of words and timeouts the exit means that the last sixteen resends were of one packet, if and only if the file has no more packets than there are numbers |
| `GivingUp.SharedCounterReached` | project2/server.cpp:98-173 | that list of events is what the client and the channels present to the server in some run |
| `GivingUp.RunsGiveUpOnOnePacketIff` | project2/server.cpp:98-114 | the same equivalence over all runs of the two programs |
| `Sender.ResendGoesOn` | project2/server.cpp:103-113 | a resend leaves the server running unless the counter stands at 14 for the front packet's number |
| `Sender.BrinkGivesUp` | project2/server.cpp:98-108 | and in that state the next timeout sends the front packet and exits |
| `ServerProgram.Server.constructor` | project2/server.cpp:22-27 | the initial globals, and the packet count of lines 244-248: file size by 1000, rounded up |
| `ServerProgram.Server.NextSeq` | project2/server.cpp:44-47 | the counter updated in place runs through 1 to 10 as the specification's does |
| `ServerProgram.Server.BuildPacket` | project2/server.cpp:49-54 | the packet built for index i: number i mod 10 + 1, its 1000 bytes one by one, and the file position afterwards |
| `ServerProgram.Server.FillWindow` | project2/server.cpp:84-96 | the loop's final state and everything it sent; the window then holds the next five packets of the file, byte by byte, or what is left of it |
| `ServerProgram.Server.ReSend` | project2/server.cpp:98-114 | counter, last number, exit flag and the packet sent |
| `ServerProgram.Server.CheckOutOfOrder` | project2/server.cpp:116-126 | the recursion's final state |
| `ServerProgram.Server.RecvAck` | project2/server.cpp:128-173 | the return code and the new state for every word and for a timeout; packets are retired exactly on the front packet's number times 0x1000000 |
| `ServerProgram.Server.SendFile` | project2/server.cpp:262-280 | the send loop ends in the specified state having sent the specified packets, for every list of events, and five packets outstanding or what is left of the file |
| `Receiver.StartupTracks` | project2/client.cpp:256-269 | the client starts with nothing written and a window on packets 0 to 4 |
| `Receiver.WriteNext` | project2/client.cpp:155-164 | accepting the next packet extends the output by exactly its useful bytes, acknowledges it, and exits exactly with the last packet |
| `Receiver.SlideBuffers` | project2/client.cpp:166-167 | sliding the window never makes an old buffered number stand for a new packet |
| `Receiver.DrainedIsMaximalRun` | project2/client.cpp:116-118 | the packets moved out of the buffer form the maximal consecutive run |
| `Receiver.DrainTracks` | project2/client.cpp:116-139 | checkOutOfOrder terminates and writes and acknowledges exactly the maximal buffered run, in order, stopping early only at the end of the file |
| `Receiver.WindowMembership` | project2/client.cpp:153-180 | the two tests on numbers hold exactly when the index is the next one, or lies in the window |
| `Receiver.BufferPacket` | project2/client.cpp:180-189 | storing an early packet adds exactly that index to the buffer |
| `Receiver.ReceiveTracks` | project2/client.cpp:141-195 | for every packet not too old, receiving by number does what receiving by unbounded index would |
| `Receiver.EarlyReceive` | project2/client.cpp:174-189 | whatever carries a number further back in the window replaces what was stored under it, and is acknowledged |
| `Receiver.OutsideReceive` | project2/client.cpp:174-180 | whatever carries a number outside the window is acknowledged and dropped |
| `Receiver.ReceiveStopped` | project2/client.cpp:95-97 | an exited client writes and answers nothing more |
| `ClientProgram.Client.constructor` | project2/client.cpp:252-269 | the packet count, size by 1000 rounded up, and the first window 1, 2, 3, 4, 5 |
| `ClientProgram.Client.NextSeq` | project2/client.cpp:45-48 | the counter updated in place runs through 1 to 10 as the specification's does |
| `ClientProgram.Client.FillWindow` | project2/client.cpp:73-77 | the loop's final window and counter: five numbers, the new ones counting on from the last |
| `ClientProgram.Client.SendAck` | project2/client.cpp:79-99 | the number times 0x1000000 once, or eleven times and the exit flag exactly with the last packet |
| `ClientProgram.Client.InWindow` | project2/client.cpp:101-113 | the rotation restores the queue and finds a number exactly if it is in it |
| `ClientProgram.Client.Write` | project2/client.cpp:155-164 | the bytes appended, 1000 or what is missing, byte count and acknowledgements of an accepted packet |
| `ClientProgram.Client.CheckOutOfOrder` | project2/client.cpp:116-139 | the recursion's final state, output file and acknowledgements |
| `ClientProgram.Client.ReceiveOne` | project2/client.cpp:150-192 | the effect of one datagram on state, output file and socket |
| `ClientProgram.Client.RecvFile` | project2/client.cpp:141-195 | the receive loop ends in the specified state with the specified output, for every list of datagrams |
| `Ideal.ReceivedSynchronised` | project2/client.cpp:152-189 | receiving keeps retired <= written <= read and acknowledges only packets written or buffered |
| `Ideal.RetireSynchronised` | project2/server.cpp:147-158 | an acknowledgement in flight never lets the server overtake the client |
| `Ideal.DeliveryBounds` | project2/server.cpp:84-114 | over first-in first-out channels a delivered message is at most a window old |
| `Ideal.ApplyOrdered` | project2/server.cpp:84-173 | every step, loss and duplication included, keeps window discipline and channel order |
| `Fifo.RunIsTheTwoPrograms` | project2/client.cpp:141-195 | in every run each program is exactly where its own loop takes it on what it received |
| `Fifo.NumbersNeverMislead` | project2/client.cpp:153-180 | on every delivered message the client's two tests and the server's test hold exactly when the unbounded index is the next one, in the window, or the oldest unacknowledged |
| `Fifo.ApplyMatches` | project2/client.cpp:152-189 | one step of the programs is one step of the protocol with unbounded indices |
| `Fifo.RunMatches` | project2/server.cpp:262-280 | refinement: in every run programs and unbounded protocol stay in step |
| `Fifo.Safety` | project2/client.cpp:141-195 | in every run the output is the front of the file, and the whole file once the client has exited |
| `Fifo.CompletionIsTruthful` | project2/server.cpp:155-157 | when the server reports completion the client has the whole file |
| `Fifo.WindowsSynchronised` | project2/server.cpp:128-173 | acknowledged <= written <= read = min(total, acknowledged + 5) in every run |
| `Fifo.AcksAreForPacketsHeld` | project2/client.cpp:175-178 | every acknowledgement in flight is for a packet written or held in the reorder buffer |
| `Fifo.DeliveriesAreRecent` | project2/client.cpp:152-153 | delivered packets and acknowledgements lie within a window of the receiver's position, on both sides |
| `Fifo.ReorderBuffer` | project2/client.cpp:180-189 | the window is the next five numbers, the front is never buffered, and each key holds the packet its number stands for |
| `EarlySet.PopsHeld` | project2/server.cpp:116-126 | if every number in the set stands for a packet of the window that the client has, checkOutOfOrder retires only packets the client has and leaves the set so |
| `EarlySet.FrontAckHeld` | project2/server.cpp:147-161 | the front packet's acknowledgement retires a run of packets the client has and keeps the set so |
| `EarlySet.EarlyAckHeld` | project2/server.cpp:162-166 | an early acknowledgement adds a number that stands for a packet the client has |
| `Unordered.AckTurn` | project2/server.cpp:128-173 | within the age limit, on either byte order, an acknowledgement never takes the server past the client |
| `Unordered.RunInvariant` | project2/server.cpp:262-280 | the invariant of every run over the reordering network |
| `Unordered.Safety` | project2/client.cpp:141-195 | safety and truthful completion over any network that drops packets and acknowledgements older than the limits, on either byte order |
| `AgeLimits.LatePacketBreaks` | project2/client.cpp:180-189 | with packets one place later, for every window and count of numbers, a run from the start that writes a wrong packet |
| `AgeLimits.LateAckBreaks` | project2/server.cpp:147-157 | with acknowledgements a modulus late, a run in which the server reports completion and the client lacks the last packet |
| `AgeLimits.LateAckStored` | project2/server.cpp:116-166 | where stored words can match, with acknowledgements one place late, a run in which the server reports completion and the client lacks the last packet |
| `AgeLimits.WideWindowBreaks` | project2/client.cpp:152-153 | with fewer numbers than window places no age limit helps |
| `AgeLimits.CorrectIffInRange` | project2/client.cpp:141-195 | over all files and runs of the reordering network, for every configuration, output and completion are right if and only if packets and acknowledgements come at most so many places late |
| `FifoRefinesUnordered.FifoRunIsUnorderedRun` | project2/server.cpp:262-280 | every run over the channels is a run over the unordered network within its age limit |
| `Tightness.ConfusionInFirstWindow` | project2/server.cpp:85 | with fewer numbers than window places, a run that writes a wrong packet |
| `Tightness.ConfusionInSecondWindow` | project2/client.cpp:74 | with fewer than twice as many, a run in which a resent old packet is written as a new one |
| `BigEndian.EarlySetBreaks` | project2/server.cpp:116-126 | with enough numbers but words stored in host order, a run in which a duplicated acknowledgement retires a lost packet and the client writes another in its place |
| `Tightness.SafeIffSound` | project2/server.cpp:45 | all runs over all files are safe if and only if numbers are at least twice the window and hosts are little-endian or the window is 1 |
| `Progress.RoundAdvances` | project2/server.cpp:271-274 | a timeout with nothing in flight, then deliveries until nothing is in flight, retires at least one more packet unless the transfer ended |
| `Progress.RoundEndsHopeful` | project2/server.cpp:98-114 | a loss-free round that does not complete the file retires fewer packets than the window holds, so the next resend starts the counter afresh |
| `Progress.RoundsComplete` | project2/server.cpp:262-274 | as many such rounds as there are packets to retire complete the file in any order of deliveries, if the counter did not stand at 14 for the front packet when they began |
| `Progress.WorkDone` | project2/client.cpp:144-150 | every delivery uses up part of a bound computed from the programs' counters and the channels |
| `Progress.DeliveriesSettle` | project2/client.cpp:144-150 | every order of deliveries leaves nothing in flight after at most that many |
| `Progress.EagerRoundsComplete` | project2/server.cpp:262-274 | a timeout and three deliveries per packet of the file plus twelve, as often as there are packets to retire, complete the file |
| `Progress.SomeDeliveriesSettle` | project2/client.cpp:144-150 | from every reachable state such an order of deliveries exists |
| `Progress.EndedIsFinal` | project2/client.cpp:97 | neither exit is undone and the count of retired packets never falls |
| `Progress.CanAlwaysFinish` | project2/server.cpp:98-114 | from every reachable state short of the last resend the transfer can be completed |
| `Finishing.NeverFinishes` | project2/server.cpp:103-108 | once a packet is lost and the server has at most one resend left, of another packet, nothing the network does lets the client finish |
| `Finishing.CanFinishIff` | project2/server.cpp:98-114 | from every reachable state, whatever is in flight, some continuation completes the file if and only if the state is finishable |
| `Finishing.QuietCanFinishIff` | project2/server.cpp:98-114 | with nothing in flight that is a condition on the variables of the two programs |
| `Finishing.LastRound` | project2/client.cpp:152-173 | if the front packet and the buffered ones are everything missing, one loss-free round completes the file even on the server's last resend |
| `Finishing.RoundsCompleteIff` | project2/server.cpp:262-274 | loss-free rounds complete the file exactly from the states from which anything can |
| `Deployed.Safety` | project2/client.cpp:141-195 | in every run of the programs: output, completion and window in numbers |
| `Deployed.OnTheWire` | project2/server.cpp:44-54 | in every run: the packets outstanding byte by byte, the five numbers the client looks for, and the words of the acknowledgements in flight |
| `Deployed.FirstPackets` | project2/server.cpp:84-96 | a transfer starts with the first five packets of the file |
| `Deployed.HowLateIsTooLate` | project2/client.cpp:152-189 | on a reordering network the programs work if and only if packets come at most 5 and acknowledgements at most 9 places late |
| `Deployed.GiveUpMeansOnePacketIff` | project2/server.cpp:98-114 | giving up means sixteen resends of one packet if and only if the file has at most 10000 bytes |
| `InternetChecksum.Checksum` | project3/router.cpp:40-63 | the loop returns the byte-swapped complement of the word sum's residue modulo 0xffff, odd lengths included: the two bytes that complete the bytes from position 34 on |
| `InternetChecksum.SumIsByteSum` | project3/router.cpp:44-59 | what the loop adds up, byte by byte: those from position 34 on, the even positions as high-order bytes |
| `InternetChecksum.ChecksumIff` | project3/router.cpp:40-63 | the value returned is the only one other than 0xffff that completes these bytes to a multiple of 0xffff |
| `InternetChecksum.ShortOddIff` | project3/router.cpp:53-60 | in a buffer of odd length below 34 only the last byte counts |
| `InternetChecksum.HeadersIgnored` | project3/router.cpp:44 | bytes ahead of position 34 do not matter |
| `InternetChecksum.ReplacementUnnoticedIff` | project3/router.cpp:44-62 | replacing two adjacent bytes keeps the checksum if and only if they lie ahead of 34, stay the same, or exchange 0x0000 and 0xffff |
| `InternetChecksum.ReplyVerifiesIff` | project3/router.cpp:511-521 | the echo reply's checksum is right if and only if the data adds up to the same as what the buffer held when the checksum was computed |
| `InternetChecksum.ReplyNotVerified` | project3/router.cpp:511-521 | a buffer of zeros and data for which it is wrong |
| `InternetChecksum.FoldStep` | project3/router.cpp:47-50 | subtracting 0xffff on overflow keeps the accumulator the residue, between 1 and 0xffff |
| `InternetChecksum.StoredValueVerifiesIff` | project3/router.cpp:517-518 | of all values in a zeroed field, exactly the returned one (and 0xffff beside 0) makes the frame's checksum 0 |
| `InternetChecksum.InsertThenVerify` | project3/router.cpp:517-518 | storing the returned value makes the checksum 0, for every even offset from 34 and every length |
| `InternetChecksum.ChangeUndetectedIff` | project3/router.cpp:44-62 | changing one summed word keeps the checksum if and only if it exchanges 0x0000 and 0xffff |
| `InternetChecksum.ByteOrderIndependent` | project3/router.cpp:44-62 | the complemented residue of the words as the host reads them is the value stored |
| `InternetChecksum.ChecksumUnswapped` | project3/router.cpp:40-63 | the loop without ntohs and htons returns the same value for every buffer and length |

## Left out

- Sockets, real time, file and terminal I/O: a timeout is a step that may happen at any moment a server waits, a file is a byte sequence.
- The exchange of file name and file size before the transfer, which is never retransmitted.
- MD5 digests and the branches for return code -3: they never influence the transfer.
- Agreement on shutdown: the client may exit while its last acknowledgements are lost, and the server then exits by giving up; only the converse, completion implies a complete file, is a theorem.
- Overflow of the 32-bit counters, which a file of more than 2 GiB would reach.
- `Sender.CheckOutOfOrderConserved`: an emptied queue ends the recursion; what project2/server.cpp:118 reads from an empty queue is undefined.
- `ServerProgram.Server.CheckOutOfOrder`: guards that same read.
- Sequence numbers of 2^16 and more: the server's set would no longer be inert.
- The rest of project3/router.cpp (ARP, the headers of ICMP replies, routing), project4, cryptotest, project1b and the labs: plain field copies, table look-ups and library calls.
- project2/packetcorrupt.py: it rests on an OpenFlow library that is not part of this model.

# Verified models of the gogoCLIENT

Models of the stateful and byte-level parts of the gogoCLIENT, a tunnel client for the gogo6 tunnel
brokers, and proofs of what they promise. Each module follows one component of the sources.

- `Servent`, `IpcRun`, `MessagePath`: the packet layer between client and user interface. Messages are cut into at most
  63 packets of at most 1020 octets and put together again by the peer; `IpcRun` interleaves writer and
  reader over the pipe, and `MessagePath` joins it to the threads that post and receive.
- `Messages`, `MessageCodec`: the message envelope, and tunnel records, broker lists and HACCESS status
  as octets.
- `CommunicationsManager`: send queue, semaphore and connection state shared by sender, receiver and
  manager thread, as a state machine over atomic steps, with a class whose methods are those steps.
- `Words32`, `Md5Block`, `Md5`: 32-bit words bit by bit, the unrolled block transform and the streaming
  digest against RFC 1321; `Md5Octets` and `Md5Answers` evaluate the definition on the empty message.
- `QuickSort`, `Deque`: the queue with a cursor, its in-place quicksort and its binary search index.
- `EchoRun`, `EchoEngine`, `EchoProcess`: the ICMP echo engine as a state machine, the same on a linked
  list, and its loops under a clock.
- `Checksum`: the Internet checksum of RFC 1071.
- `NameValue`, `Configuration`: the NAME=VALUE files, their parser and printer, the edits, and apply and
  cancel on top.
- `DnsUpdate`: DNS UPDATE messages with name compression (RFC 1035, RFC 2136), and a decoder.
- `Base64`: RFC 4648.
- `Buffers`, `LogDrain`: the growable FIFO buffer with its typed puts and gets, and the drain of the log
  buffer.
- `Bytes`, `Wrappers`: octets, fixed-width integers, and values that may be missing.

Code that updates state is modelled by methods on classes and arrays, each proved against a function of
the old state; the properties over whole runs are lemmas about those functions. Clocks, read and write
outcomes, memory exhaustion and not-ready polls are parameters over which every statement is quantified.

Where the code departs from what it is meant to do, the model keeps the code and says exactly when it
meets its intent, and a second member does what was meant:

- `_insert_echo_event` links an event that is not later than all others into a cycle
  (`EchoEngine.Engine.InsertEvent`, `EchoRun.IntactExactly`, `EchoProcess.BreaksOnlyOnATie`; intended:
  `InsertSortedEvent`).
- `Q_DelCur` leaves an interior node linked (`Deque.Queue.DelCur`; intended: `DelCurRelinking`).
- `QuickSort` looks one slot above its range when the pivot is strictly the largest element
  (`QuickSort.Partition`, `QuickSort.SomeOrderLooks`); `QuickSort.InBounds` says for each array whether
  sorting it leaves it, and `Deque.Queue.Sort` asks that no more than one slot is looked at.
- A packet that is cut short is not noticed by its reader, which takes the missing octets from what its
  buffer held (`Servent.ReceiveCut`, `Servent.ConsumeCut`): a short write in the last fragment makes the
  peer accept the message exactly as it is if these happen to agree, and another one, without an error,
  if they do not (`MessagePath.ReceivedAfterFailure`, `MessagePath.ShortWriteIsAccepted`).
- `Q_Put` leaves the flag that the index is good (`Deque.Queue.Put`; intended: `PutUnsorting`).
- `BuildBrokerList` reads distances at the wrong offset (`MessageCodec.BrokersArriveExactly`; intended:
  `MessageCodec.TakesEntries`, as for device mappings).
- The late counter wraps below zero on a duplicated reply (`EchoRun.LateGoesBelowZero`).
- A receiver that fails before the connection is announced is forgotten
  (`CommunicationsManager.ConnectedButDeaf`).
- `SetVariableValue` takes a comment or an empty line for the name (`Configuration.SetStaysSynced`), and
  names and values that cannot be read back are written (`Configuration.SetSurvivesExactly`).

Where comments and code disagree the code is followed: the comment on `ReadConfigurationData` says that a
line without `=` is refused, the code takes it for a name with an empty value; `CancelConfiguration` is
documented to fail in mode read only, but fails in mode create as well.

## Model

| member | source | states |
|---|---|---|
| Servent.HeaderFields | native/gogoc-1_2-RELEASE/gogoc-messaging/src/servent.cc:35-42 | every header field is recovered from the packed 32-bit header word |
| Servent.PacketRoundTrip | native/gogoc-1_2-RELEASE/gogoc-messaging/src/servent.cc:655-755 | a packet made from data, type and numbers is extracted to the same, whatever stale octets follow it in the receive buffer |
| Servent.ExtractPacketData | native/gogoc-1_2-RELEASE/gogoc-messaging/src/servent.cc:704-755 | only data message types and six-bit numbers are accepted |
| Servent.FragmentsSuffice | native/gogoc-1_2-RELEASE/gogoc-messaging/src/servent.cc:31-33 | a message of at most 64260 octets needs at most 63 fragments, and none only if it is empty |
| Servent.FragmentIndex | native/gogoc-1_2-RELEASE/gogoc-messaging/src/servent.cc:557-565 | fragment k exists exactly if octet 1020 k does |
| Servent.Fragments | native/gogoc-1_2-RELEASE/gogoc-messaging/src/servent.cc:557-605 | a message is cut into exactly that many packets |
| Servent.ReceiveFragment | native/gogoc-1_2-RELEASE/gogoc-messaging/src/servent.cc:375-492 | one pass of the read loop over the next fragment takes the reader one step on, and over the last one completes the message |
| Servent.StaleIsIgnored | native/gogoc-1_2-RELEASE/gogoc-messaging/src/servent.cc:704-755 | for a packet with as many octets as its header announces, the rest of the receive buffer does not matter |
| Servent.FramedIsClean | native/gogoc-1_2-RELEASE/gogoc-messaging/src/servent.cc:375-492 | for packets with all their octets, and no failure, the result does not depend on what the buffer held |
| Servent.FragmentFramed | native/gogoc-1_2-RELEASE/gogoc-messaging/src/servent.cc:655-686 | every fragment of a message carries exactly the octets its header announces |
| Servent.FragmentHeader | native/gogoc-1_2-RELEASE/gogoc-messaging/src/servent.cc:557-686 | every fragment octet by octet: the four header octets by kind, sequence number, fragment number and length, and its 1020 octets of the message |
| Servent.ConsumeFragments | native/gogoc-1_2-RELEASE/gogoc-messaging/src/servent.cc:375-492 | a reader that finds the fragments of a message in the pipe returns exactly that message and touches nothing behind it |
| Servent.ExtractByOctets | native/gogoc-1_2-RELEASE/gogoc-messaging/src/servent.cc:704-755 | the fields in terms of the four header octets, for every content of the buffer |
| Servent.ReceiveCut | native/gogoc-1_2-RELEASE/gogoc-messaging/src/servent.cc:375-492 | a fragment cut behind its header is taken for a whole one of the message whose missing octets are those the receive buffer held, and it is the fragment that was sent exactly if these agree |
| Servent.ReceiveCutFirstHeader | native/gogoc-1_2-RELEASE/gogoc-messaging/src/servent.cc:375-492 | the first fragment cut to one, two or three octets: exactly when the stale octets complete the header, and that all data then are stale |
| Servent.ReceiveCutHeader | native/gogoc-1_2-RELEASE/gogoc-messaging/src/servent.cc:375-492 | a later fragment cut so: out of order, or with three octets and a length divisible by four the fragment before it is taken twice |
| Servent.ConsumeCut | native/gogoc-1_2-RELEASE/gogoc-messaging/src/servent.cc:375-492 | a whole read of a message whose fragment k was cut behind its header: the patched message without an error if it is the last fragment, a failed read otherwise |
| Servent.PatchedFromBefore | native/gogoc-1_2-RELEASE/gogoc-messaging/src/servent.cc:417-424 | from the second fragment on, what stands in for the missing octets is the message 1020 octets before them |
| Servent.ConsumeCutHeader | native/gogoc-1_2-RELEASE/gogoc-messaging/src/servent.cc:375-492 | the same for a cut within the header, and for one in front of it |
| Servent.CutIsAccepted | native/gogoc-1_2-RELEASE/gogoc-messaging/src/servent.cc:578-584 | the octets 7 and 8 in a packet cut to five octets are read as 7 and 0, without an error |
| Servent.Servent.WriteRaw | native/gogoc-1_2-RELEASE/gogoc-messaging/src/servent.cc:516-615 | for every pattern of not-ready polls and every outcome of each write: which fragments and which truncated packet are in the pipe, what is returned, and that the sequence number advances modulo 64 exactly after a whole message; the check for more than 63 fragments cannot fire |
| Servent.Servent.WriteData | native/gogoc-1_2-RELEASE/gogoc-messaging/src/servent.cc:248-270 | the same for every outcome, a mutex that is not acquired included; the 64-bit counter grows by what is reported written only without an error |
| Servent.Servent.ReadPacket | native/gogoc-1_2-RELEASE/gogoc-messaging/src/servent.cc:400-485 | the loop body on an array buffer does what one reader step says on the overwritten buffer, for every packet, truncated or not |
| Servent.Servent.ReadRaw | native/gogoc-1_2-RELEASE/gogoc-messaging/src/servent.cc:375-492 | the result and the packets left in the pipe are those of the reader specification, for truncated packets, stale buffers and failing reads, and however often the pipe is not ready |
| Servent.Servent.ReadData | native/gogoc-1_2-RELEASE/gogoc-messaging/src/servent.cc:208-230 | the same through the counting wrapper and its mutex; for whole packets and no failure the buffer does not matter |
| MessagePath.ReceivedAsPosted | native/gogoc-1_2-RELEASE/gogoc-messaging/src/communicationsmgr.cc:391-576 | whatever the threads of the sending process do, failed and short writes included, and however the pipe is scheduled: the whole packets give the receiver no error and a prefix of what was accepted since the connection was made; once it has read them it has all that was sent, and nothing else while the sender is in the message it holds |
| MessagePath.ReceivedAfterFailure | native/gogoc-1_2-RELEASE/gogoc-messaging/src/communicationsmgr.cc:453-477 | when the sender fails in a message, of which some fragments went out whole and n octets of the next one: the receiver has exactly the messages that were sent, and a last fragment cut behind its header completes the message without an error, with the octets the receive buffer holds for the missing ones, so it is the message exactly if they agree; any other cut delivers none of the missing octets either, and an earlier fragment completes nothing |
| MessagePath.ShortWriteIsAccepted | native/gogoc-1_2-RELEASE/gogoc-messaging/src/communicationsmgr.cc:470-477 | there is such a run for every message of one fragment: nothing was sent, and the peer accepts a message with a wrong last octet |
| IpcRun.LocateInStream | native/gogoc-1_2-RELEASE/gogoc-messaging/src/servent.cc:516-615 | the n-th packet on the wire belongs to a definite fragment of a definite message |
| IpcRun.WriteKeepsInv | native/gogoc-1_2-RELEASE/gogoc-messaging/src/servent.cc:516-615 | writing a packet keeps the invariant that ties writer, pipe and reader to the stream of messages |
| IpcRun.ReadKeepsInv | native/gogoc-1_2-RELEASE/gogoc-messaging/src/servent.cc:375-492 | reading a packet keeps that invariant |
| IpcRun.RunInv | native/gogoc-1_2-RELEASE/gogoc-messaging/src/servent.cc:375-615 | it holds after every interleaving of packet writes, packet reads and idle polls |
| IpcRun.DeliveredInOrder | native/gogoc-1_2-RELEASE/gogoc-messaging/src/servent.cc:375-615 | for every list of messages of 1 to 64260 octets, every sequence number the first one carries and every interleaving, no error is reported, what is delivered is a prefix of what was written, octet for octet, and all of it once nothing is left, across every wrap of the sequence number |
| IpcRun.FragmentNumbersStaySmall | native/gogoc-1_2-RELEASE/gogoc-messaging/src/servent.cc:598-604 | fragment numbers stay below 63 in every interleaving |
| IpcRun.CanFinish | native/gogoc-1_2-RELEASE/gogoc-messaging/src/servent.cc:375-615 | from every reachable state everything can still be delivered |
| Messages.CreatedMessage | native/gogoc-1_2-RELEASE/gogoc-messaging/src/message.cc:38-119 | creation fails exactly from MSG_MAX_USERDATA octets on; a created message has the size, identifier and data it was given and is never too big for the packet layer |
| Messages.OneMessage | native/gogoc-1_2-RELEASE/gogoc-messaging/src/message.cc:38-60 | one whole message as literal octets |
| CommunicationsManager.RunInv | native/gogoc-1_2-RELEASE/gogoc-messaging/src/communicationsmgr.cc:99-576 | the invariant over queue, semaphore, threads and status holds after every interleaving of posts, sender, receiver and manager steps |
| CommunicationsManager.QueueAndSemaphoreAgree | native/gogoc-1_2-RELEASE/gogoc-messaging/src/communicationsmgr.cc:406-487 | in every interleaving the queue length is the semaphore count plus the one token held or lost by the sender, so the assert behind the semaphore holds; the queue never exceeds 512; what was accepted since the last reset is what was sent followed by what is queued |
| CommunicationsManager.InitializeFindsNothingRunning | native/gogoc-1_2-RELEASE/gogoc-messaging/src/communicationsmgr.cc:99-105 | whenever Initialize is entered, and until its outcome is known, its asserts hold, no worker thread exists and nothing is queued; so a failure is handled without threads |
| CommunicationsManager.ErrorCountCounts | native/gogoc-1_2-RELEASE/gogoc-messaging/src/communicationsmgr.cc:217-287 | the error counter is the number of failed initialisations since the last announced connection |
| CommunicationsManager.FatalOnFourthFailure | native/gogoc-1_2-RELEASE/gogoc-messaging/src/communicationsmgr.cc:266-270 | the fatal state is reached exactly on the fourth failure in a row |
| CommunicationsManager.FatalIsForever | native/gogoc-1_2-RELEASE/gogoc-messaging/src/communicationsmgr.cc:229-229 | no step of any thread leaves the fatal state, and nothing is queued any more |
| CommunicationsManager.ConnectedButDeaf | native/gogoc-1_2-RELEASE/gogoc-messaging/src/communicationsmgr.cc:246-252 | while the status says connected the sender runs, and the receiver is dead exactly if, since the last successful Initialize, a read failed before the connection was announced |
| CommunicationsManager.EarlyFailureIsOverwritten | native/gogoc-1_2-RELEASE/gogoc-messaging/src/communicationsmgr.cc:246-252 | there is a run in which that failure is overwritten by the announcement |
| CommunicationsManager.DeafUntilSenderFails | native/gogoc-1_2-RELEASE/gogoc-messaging/src/communicationsmgr.cc:510-576 | from then on nothing is received until the sender fails |
| CommunicationsManager.CanSendAll | native/gogoc-1_2-RELEASE/gogoc-messaging/src/communicationsmgr.cc:391-494 | every interleaving that leaves the manager connected can be continued until the queue is empty and exactly what was posted has been sent, with the counter advanced by the length of the queue |
| CommunicationsManager.CanConnect | native/gogoc-1_2-RELEASE/gogoc-messaging/src/communicationsmgr.cc:99-287 | every interleaving that does not end in the fatal state can be continued to an announced connection |
| CommunicationsManager.Manager.TakeOff | native/gogoc-1_2-RELEASE/gogoc-messaging/src/communicationsmgr.cc:479-491 | the head of the queue goes to what was sent, the counter advances modulo 2^32, and the sender is back at its semaphore |
| CommunicationsManager.Manager.SetState | native/gogoc-1_2-RELEASE/gogoc-messaging/src/communicationsmgr.cc:345-351 | messages are accepted exactly while connected |
| CommunicationsManager.Manager.PostMessage | native/gogoc-1_2-RELEASE/gogoc-messaging/src/messagesender.cc:82-89 | a post adds message and token, or neither, and keeps the invariant |
| CommunicationsManager.Manager.Reset | native/gogoc-1_2-RELEASE/gogoc-messaging/src/messagesender.cc:105-116 | queue and semaphore are empty afterwards |
| CommunicationsManager.Manager.SenderWait | native/gogoc-1_2-RELEASE/gogoc-messaging/src/communicationsmgr.cc:391-410 | the sender takes a token and then holds a message, or stops, or waits on; nothing else changes |
| CommunicationsManager.Manager.SenderSend | native/gogoc-1_2-RELEASE/gogoc-messaging/src/communicationsmgr.cc:411-494 | past its semaphore: a written message leaves the queue, is the last one sent and is counted; incoming data give the token back; a failure disconnects and loses the token |
| CommunicationsManager.Manager.ReceiverStep | native/gogoc-1_2-RELEASE/gogoc-messaging/src/communicationsmgr.cc:510-576 | one iteration of the receiver: idle, a message processed, stopped, or a failure that disconnects |
| CommunicationsManager.Manager.CleanupInstance | native/gogoc-1_2-RELEASE/gogoc-messaging/src/communicationsmgr.cc:169-199 | each worker is joined once it has ended, sender first; then servent, queue and semaphore go and the connection is pending |
| CommunicationsManager.Manager.Initialize | native/gogoc-1_2-RELEASE/gogoc-messaging/src/communicationsmgr.cc:99-154 | connecting starts the sender, and then the receiver; a failure counts, disconnects and is fatal from the fourth in a row on |
| CommunicationsManager.Manager.Work | native/gogoc-1_2-RELEASE/gogoc-messaging/src/communicationsmgr.cc:217-287 | the announcement clears the error counter and enables posting; a lost connection begins the cleanup, any other pass changes nothing |
| Words32.AndBit | native/gogoc-1_2-RELEASE/gogoc-tsp/src/lib/md5c.c:102-105 | bit by bit, a conjunction |
| Words32.OrBit | native/gogoc-1_2-RELEASE/gogoc-tsp/src/lib/md5c.c:102-105 | bit by bit, a disjunction |
| Words32.XorBit | native/gogoc-1_2-RELEASE/gogoc-tsp/src/lib/md5c.c:104-105 | bit by bit, a difference |
| Words32.NotBit | native/gogoc-1_2-RELEASE/gogoc-tsp/src/lib/md5c.c:102-105 | bit by bit, a negation within 32 bits |
| Words32.RotateLeftIs | native/gogoc-1_2-RELEASE/gogoc-tsp/src/lib/md5c.c:108-108 | a rotation is the product by 2^n modulo 2^32 plus the bits that were shifted out |
| Words32.BigEndianOctet | native/gogoc-1_2-RELEASE/gogoc-tsp/src/lib/bufaux.c:143-149 | octet k of an integer in network order is its value divided by 256^(3-k), modulo 256 |
| Words32.LittleEndianOctet | native/gogoc-1_2-RELEASE/gogoc-tsp/src/lib/md5c.c:67-77 | and low order first it is its value divided by 256^k |
| Md5Block.FBit | native/gogoc-1_2-RELEASE/gogoc-tsp/src/lib/md5c.c:102-102 | F takes the bit of y where that of x is set, and that of z elsewhere |
| Md5Block.GBit | native/gogoc-1_2-RELEASE/gogoc-tsp/src/lib/md5c.c:103-103 | G takes the bit of x where that of z is set, and that of y elsewhere |
| Md5Block.HBit | native/gogoc-1_2-RELEASE/gogoc-tsp/src/lib/md5c.c:104-104 | H is set where an odd number of its three bits are |
| Md5Block.IBit | native/gogoc-1_2-RELEASE/gogoc-tsp/src/lib/md5c.c:105-105 | I is set where y differs from x or not z |
| Md5Answers.EmptyDigest | native/gogoc-1_2-RELEASE/gogoc-tsp/src/lib/md5c.c:219-335 | the digest of the empty message is the one in section A.5 of RFC 1321, d41d8cd98f00b204e9800998ecf8427e |
| Md5Block.Round1 | native/gogoc-1_2-RELEASE/gogoc-tsp/src/lib/md5c.c:240-261 | the first sixteen unrolled steps are the table-driven round of RFC 1321 |
| Md5Block.Round2 | native/gogoc-1_2-RELEASE/gogoc-tsp/src/lib/md5c.c:262-283 | the second sixteen are, too |
| Md5Block.Round3 | native/gogoc-1_2-RELEASE/gogoc-tsp/src/lib/md5c.c:284-305 | and the third |
| Md5Block.Round4 | native/gogoc-1_2-RELEASE/gogoc-tsp/src/lib/md5c.c:306-327 | and the fourth |
| Md5Block.Transform | native/gogoc-1_2-RELEASE/gogoc-tsp/src/lib/md5c.c:234-335 | the state is advanced by the compression function of section 3.4 of RFC 1321 |
| Md5Block.Encode | native/gogoc-1_2-RELEASE/gogoc-tsp/src/lib/md5c.c:67-77 | words become octets, least significant first, and nothing else is written |
| Md5Block.Decode | native/gogoc-1_2-RELEASE/gogoc-tsp/src/lib/md5c.c:85-92 | octets become words |
| Md5Block.WordsOfOctets | native/gogoc-1_2-RELEASE/gogoc-tsp/src/lib/md5c.c:67-92 | decoding undoes encoding |
| Md5.CountsAdvance | native/gogoc-1_2-RELEASE/gogoc-tsp/src/lib/md5c.c:164-168 | the two-word addition with carry is addition of bits modulo 2^64 |
| Md5.CountsIndex | native/gogoc-1_2-RELEASE/gogoc-tsp/src/lib/md5c.c:161-162 | the low count word yields the number of octets modulo 64 |
| Md5.LoopCounterFits | native/gogoc-1_2-RELEASE/gogoc-tsp/src/lib/md5c.c:173-179 | the 32-bit guard of the block loop is right for every value the counter takes exactly if pending and new octets together stay below 2^32 |
| Md5.PaddingPrefix | native/gogoc-1_2-RELEASE/gogoc-tsp/src/lib/md5c.c:204-207 | the padding fed is one 0x80 and the zeros of section 3.1 of RFC 1321 |
| Md5.Context.Update | native/gogoc-1_2-RELEASE/gogoc-tsp/src/lib/md5c.c:157-189 | the context after an update represents the message followed by the input, for every content of the carry buffer behind the pending octets |
| Md5.Context.Absorb | native/gogoc-1_2-RELEASE/gogoc-tsp/src/lib/md5c.c:170-188 | the same for the part that works on octets |
| Md5.Context.FillBuffer | native/gogoc-1_2-RELEASE/gogoc-tsp/src/lib/md5c.c:173-176 | the pending block is completed and transformed |
| Md5.Context.TransformBlocks | native/gogoc-1_2-RELEASE/gogoc-tsp/src/lib/md5c.c:178-179 | all whole blocks of the input are transformed in order |
| Md5.Context.KeepRest | native/gogoc-1_2-RELEASE/gogoc-tsp/src/lib/md5c.c:186-188 | what is left is buffered |
| Md5.Context.Pad | native/gogoc-1_2-RELEASE/gogoc-tsp/src/lib/md5c.c:196-211 | afterwards exactly the padded message of sections 3.1 and 3.2 of RFC 1321 has been absorbed |
| Md5.Context.Final | native/gogoc-1_2-RELEASE/gogoc-tsp/src/lib/md5c.c:219-229 | the digest is that of the message by the one-shot definition, and the context is zeroed |
| Md5.DigestOfPieces | native/gogoc-1_2-RELEASE/gogoc-tsp/src/lib/md5c.c:138-229 | every way of cutting a message into updates of less than 2^32 - 63 octets gives the digest of the whole |
| Md5.DigestOfString | native/gogoc-1_2-RELEASE/gogoc-tsp/src/lib/md5c.c:356-363 | the digest of one string |
| QuickSort.ScanUp | native/gogoc-1_2-RELEASE/gogoc-tsp/src/lib/deque.c:675-677 | the upward scan stops at the first element not below the key, given that there is one |
| QuickSort.ScanDown | native/gogoc-1_2-RELEASE/gogoc-tsp/src/lib/deque.c:679-681 | the downward scan stops likewise |
| QuickSort.Scans | native/gogoc-1_2-RELEASE/gogoc-tsp/src/lib/deque.c:674-681 | the two scans of one pass stay inside the array: the first is stopped as required, any other by the last exchange |
| QuickSort.MovedPartitions | native/gogoc-1_2-RELEASE/gogoc-tsp/src/lib/deque.c:666-694 | what the loop computes places the pivot with nothing above it to the left and nothing below it to the right and only shuffles the rest; a largest element that comes last or occurs twice is so in what is left, too |
| QuickSort.Partition | native/gogoc-1_2-RELEASE/gogoc-tsp/src/lib/deque.c:666-694 | the loop computes that on every array in which its first scan is stopped, and reads the slot above the range exactly if the pivot is strictly above everything else |
| QuickSort.Sort | native/gogoc-1_2-RELEASE/gogoc-tsp/src/lib/deque.c:660-699 | for every total preorder and every array that the scans do not leave, the range becomes a sorted permutation of itself; whether the slot above the range is read is a function of the array |
| QuickSort.BoundedIsInBounds | native/gogoc-1_2-RELEASE/gogoc-tsp/src/lib/deque.c:660-699 | a slot above the range that is not below anything keeps every scan inside the array, and so does a largest element that comes last or occurs twice, with which that slot is never read |
| QuickSort.SomeOrderLooks | native/gogoc-1_2-RELEASE/gogoc-tsp/src/lib/deque.c:675-677 | some order of the range makes the first scan read the slot above it exactly if the largest element occurs once |
| QuickSort.OneOrderInBounds | native/gogoc-1_2-RELEASE/gogoc-tsp/src/lib/deque.c:660-699 | an order that is sorted within its range with none of these conditions |
| QuickSort.SameBounds | native/gogoc-1_2-RELEASE/gogoc-tsp/src/lib/deque.c:696-697 | sorting the left part makes no difference to the scans of the right part |
| QuickSort.DescendingPair | native/gogoc-1_2-RELEASE/gogoc-tsp/src/lib/deque.c:675-677 | two elements in descending order for which the slot behind them is read |
| QuickSort.RightIsBounded | native/gogoc-1_2-RELEASE/gogoc-tsp/src/lib/deque.c:696-697 | the right part inherits the slot above the range, or a largest element that comes last or occurs twice |
| Deque.Queue.Init | native/gogoc-1_2-RELEASE/gogoc-tsp/src/lib/deque.c:127-135 | an empty queue |
| Deque.Queue.Start | native/gogoc-1_2-RELEASE/gogoc-tsp/src/lib/deque.c:151-154 | true exactly with the cursor on the head |
| Deque.Queue.End | native/gogoc-1_2-RELEASE/gogoc-tsp/src/lib/deque.c:171-174 | true exactly with the cursor on the tail |
| Deque.Queue.First | native/gogoc-1_2-RELEASE/gogoc-tsp/src/lib/deque.c:230-238 | the cursor goes to the head |
| Deque.Queue.Last | native/gogoc-1_2-RELEASE/gogoc-tsp/src/lib/deque.c:255-263 | the cursor goes to the tail |
| Deque.Queue.Next | native/gogoc-1_2-RELEASE/gogoc-tsp/src/lib/deque.c:486-494 | the cursor goes one element on, unless at the end |
| Deque.Queue.Previous | native/gogoc-1_2-RELEASE/gogoc-tsp/src/lib/deque.c:513-521 | the cursor goes one element back, unless at the start |
| Deque.Queue.Get | native/gogoc-1_2-RELEASE/gogoc-tsp/src/lib/deque.c:587-592 | the datum under the cursor |
| Deque.Queue.PushHead | native/gogoc-1_2-RELEASE/gogoc-tsp/src/lib/deque.c:280-321 | the abstract sequence gets a new first element; without memory nothing changes |
| Deque.Queue.PushTail | native/gogoc-1_2-RELEASE/gogoc-tsp/src/lib/deque.c:339-378 | the abstract sequence gets a new last element |
| Deque.Queue.PopHead | native/gogoc-1_2-RELEASE/gogoc-tsp/src/lib/deque.c:397-423 | the first element is removed and returned |
| Deque.Queue.PopTail | native/gogoc-1_2-RELEASE/gogoc-tsp/src/lib/deque.c:441-466 | the last element is removed and returned |
| Deque.Queue.DelCur | native/gogoc-1_2-RELEASE/gogoc-tsp/src/lib/deque.c:542-569 | at either end exactly that element goes; at an interior node the chain keeps the freed node, and the queue stays consistent exactly if the node was not interior |
| Deque.Queue.DelCurRelinking | native/gogoc-1_2-RELEASE/gogoc-tsp/src/lib/deque.c:542-569 | the documented deletion, with the neighbours linked to each other: exactly the element under the cursor goes |
| Deque.Queue.Unlink | native/gogoc-1_2-RELEASE/gogoc-tsp/src/lib/deque.c:553-568 | the repaired branch for an interior node |
| Deque.Queue.Put | native/gogoc-1_2-RELEASE/gogoc-tsp/src/lib/deque.c:610-617 | the datum under the cursor is replaced; the index still mirrors the chain exactly if the datum did not change, but the flag keeps saying so |
| Deque.Queue.PutUnsorting | native/gogoc-1_2-RELEASE/gogoc-tsp/src/lib/deque.c:610-617 | with the flag cleared a set flag keeps meaning a good index |
| Deque.DeleteInTheMiddle | native/gogoc-1_2-RELEASE/gogoc-tsp/src/lib/deque.c:542-569 | three elements, and deleting the second leaves the queue inconsistent |
| Deque.PutInSorted | native/gogoc-1_2-RELEASE/gogoc-tsp/src/lib/deque.c:610-617 | a sorted queue whose flag stays set and whose index is wrong after a replacement |
| Deque.Queue.Find | native/gogoc-1_2-RELEASE/gogoc-tsp/src/lib/deque.c:639-655 | the linear search finds an element exactly if one matches; only on a queue of one element that does not match does the outcome hang on what the comparison makes of a null pointer |
| Deque.Queue.Sort | native/gogoc-1_2-RELEASE/gogoc-tsp/src/lib/deque.c:725-786 | whenever the quicksort looks no farther than one slot behind the index: same nodes in the same order with a sorted permutation of the data, and both index arrays in step with the chain |
| Deque.TopIsSortable | native/gogoc-1_2-RELEASE/gogoc-tsp/src/lib/deque.c:763-765 | that is so if a largest element comes last or occurs twice, or if no element is above the slot behind the index |
| Deque.Queue.SortIndex | native/gogoc-1_2-RELEASE/gogoc-tsp/src/lib/deque.c:763-765 | the array handed to the quicksort comes back a sorted permutation |
| Deque.Queue.Walk | native/gogoc-1_2-RELEASE/gogoc-tsp/src/lib/deque.c:753-761 | both arrays are filled in chain order |
| Deque.Queue.WriteBack | native/gogoc-1_2-RELEASE/gogoc-tsp/src/lib/deque.c:767-774 | the chain gets the data of the index in order |
| Deque.Queue.BSearch | native/gogoc-1_2-RELEASE/gogoc-tsp/src/lib/deque.c:805-831 | an index of a matching element, or -1 exactly if there is none |
| Deque.Queue.Seek | native/gogoc-1_2-RELEASE/gogoc-tsp/src/lib/deque.c:850-868 | an element is returned exactly if one matches, and the cursor is on its node |
| Deque.Queue.Insert | native/gogoc-1_2-RELEASE/gogoc-tsp/src/lib/deque.c:891-899 | the multiset gains the datum and the queue is sorted and indexed |
| EchoRun.InsertionPoint | native/gogoc-1_2-RELEASE/gogoc-tsp/src/net/icmp_echo_engine.c:1129-1155 | all events passed over are due earlier, the one stopped at is not |
| EchoRun.Find | native/gogoc-1_2-RELEASE/gogoc-tsp/src/net/icmp_echo_engine.c:1177-1194 | the first event with that sequence number |
| EchoRun.GoesOnExactly | native/gogoc-1_2-RELEASE/gogoc-tsp/src/net/icmp_echo_engine.c:661-796 | when a pass of the read loop leaves the engine running, and what it returns |
| EchoRun.SendGoesOnExactly | native/gogoc-1_2-RELEASE/gogoc-tsp/src/net/icmp_echo_engine.c:533-591 | a request stops the engine exactly without memory or if the packet is not sent |
| EchoRun.LateIsCounted | native/gogoc-1_2-RELEASE/gogoc-tsp/src/net/icmp_echo_engine.c:701-777 | the counter of consecutive late answers is the number of those since the last one on time, modulo 256, in every run |
| EchoRun.EndsByThreshold | native/gogoc-1_2-RELEASE/gogoc-tsp/src/net/icmp_echo_engine.c:780-785 | a read ends the engine with a timeout exactly when that number has reached the threshold |
| EchoRun.SendKeepsInv | native/gogoc-1_2-RELEASE/gogoc-tsp/src/net/icmp_echo_engine.c:533-591 | a request keeps the list sorted and the sum of the counters |
| EchoRun.ReadKeepsInv | native/gogoc-1_2-RELEASE/gogoc-tsp/src/net/icmp_echo_engine.c:661-796 | so does every branch of the read loop, a cancelled timeout included |
| EchoRun.RunInv | native/gogoc-1_2-RELEASE/gogoc-tsp/src/net/icmp_echo_engine.c:355-796 | over every run, in any order of requests, replies and timeouts and as long as the list is a chain: it is sorted by due time, and requests = pending + on time + late + unrecorded modulo 2^32 |
| EchoRun.SurvivesExactly | native/gogoc-1_2-RELEASE/gogoc-tsp/src/net/icmp_echo_engine.c:1124-1156 | a request keeps the list a chain exactly if every pending event is due strictly earlier; then it does what the repaired insertion does |
| EchoRun.EqualDueTimesBreakTheChain | native/gogoc-1_2-RELEASE/gogoc-tsp/src/net/icmp_echo_engine.c:1146-1152 | two requests due at the same microsecond end in a cycle |
| EchoRun.RepairedStaysIntact | native/gogoc-1_2-RELEASE/gogoc-tsp/src/net/icmp_echo_engine.c:1124-1156 | with the new event put in place of the one it precedes, no run ever breaks the list |
| EchoRun.IntactExactly | native/gogoc-1_2-RELEASE/gogoc-tsp/src/net/icmp_echo_engine.c:355-796 | over a whole run the list stays a chain exactly if every request was due later than all events then pending in the repaired engine, and then the two engines agree |
| EchoRun.PunctualRunsAreIntact | native/gogoc-1_2-RELEASE/gogoc-tsp/src/net/icmp_echo_engine.c:355-796 | if every request is due later than those before it, the engine as written and the repaired one are in the same state after every run |
| EchoRun.SpacedRunsArePunctual | native/gogoc-1_2-RELEASE/gogoc-tsp/src/net/icmp_echo_engine.c:1251-1261 | outside ACD mode an advancing clock is enough for that; in ACD mode requests must be more than one send interval apart, whatever the number of requests and even where the timeout wraps in 32 bits |
| EchoRun.AcdTimeouts | native/gogoc-1_2-RELEASE/gogoc-tsp/src/net/icmp_echo_engine.c:1253-1258 | in ACD mode the timeout never drops by more than one send interval from one request to the next, wherever the 32-bit product wraps |
| EchoProcess.Process | native/gogoc-1_2-RELEASE/gogoc-tsp/src/net/icmp_echo_engine.c:392-430 | the run that the world leaves: its first action is the first request at the first clock reading, every action has the outcome and the time of its own reading and all readings are used; requests are at least one interval apart; it ends early only when the engine stops, and otherwise exactly the number asked for have been sent and the last deadline has passed |
| EchoProcess.OnlyRun | native/gogoc-1_2-RELEASE/gogoc-tsp/src/net/icmp_echo_engine.c:392-430 | the world leaves one run of each length |
| EchoProcess.ReadWrap | native/gogoc-1_2-RELEASE/gogoc-tsp/src/net/icmp_echo_engine.c:661-796 | after a request only reads follow, with the outcomes and times of their readings, until the deadline has passed or the engine is to stop |
| EchoProcess.BreaksOnlyOnATie | native/gogoc-1_2-RELEASE/gogoc-tsp/src/net/icmp_echo_engine.c:355-796 | so outside ACD mode with a positive interval the list as written never breaks, and in ACD mode, for any number of requests or without a limit, only when a request is sent to the microsecond one interval after another |
| EchoProcess.TieBreaksAcd | native/gogoc-1_2-RELEASE/gogoc-tsp/src/net/icmp_echo_engine.c:1146-1152 | in ACD mode every such tie of the first two requests does break it, while the product of interval and number of requests fits 32 bits |
| EchoRun.AcdTimeout | native/gogoc-1_2-RELEASE/gogoc-tsp/src/net/icmp_echo_engine.c:1253-1258 | the 32-bit product in ACD mode is the true one while the product of interval and number of requests fits |
| EchoRun.PendingAreDistinct | native/gogoc-1_2-RELEASE/gogoc-tsp/src/net/icmp_echo_engine.c:556-566 | with at most 65536 requests no two pending events share a sequence number |
| EchoRun.NumbersRepeat | native/gogoc-1_2-RELEASE/gogoc-tsp/src/net/icmp_echo_engine.c:556-566 | without replies, distinct numbers hold exactly up to 65536 requests |
| EchoRun.UnansweredRequests | native/gogoc-1_2-RELEASE/gogoc-tsp/src/net/icmp_echo_engine.c:533-591 | unanswered requests are all pending, numbered modulo 65536, and each is due its timeout after it was sent, which in ACD mode is the interval times the requests left, modulo 2^32 |
| EchoRun.HonestRunsCountExactly | native/gogoc-1_2-RELEASE/gogoc-tsp/src/net/icmp_echo_engine.c:355-796 | with at most 65536 requests, memory, and replies only to requests sent and not answered before: on-time counts the answered requests, late those neither pending nor answered, so late never goes below zero and the three add up exactly |
| EchoRun.LateGoesBelowZero | native/gogoc-1_2-RELEASE/gogoc-tsp/src/net/icmp_echo_engine.c:733-741 | late wraps below zero exactly on an on-time reply to no pending event while nothing is late |
| EchoRun.DuplicatedReplyWrapsLate | native/gogoc-1_2-RELEASE/gogoc-tsp/src/net/icmp_echo_engine.c:726-741 | one duplicated reply is enough for that |
| EchoEngine.Engine.ComputeEchoTimeout | native/gogoc-1_2-RELEASE/gogoc-tsp/src/net/icmp_echo_engine.c:1251-1270 | the timeout is added without losing a microsecond when whole seconds are moved over |
| EchoEngine.Engine.Seek | native/gogoc-1_2-RELEASE/gogoc-tsp/src/net/icmp_echo_engine.c:1126-1155 | the pointer to a pointer ends at the insertion point |
| EchoEngine.Engine.InsertEvent | native/gogoc-1_2-RELEASE/gogoc-tsp/src/net/icmp_echo_engine.c:1124-1156 | as written: the list is still a chain exactly if all events were due earlier, and then the event is its last; otherwise nothing reachable from the head is a finite chain |
| EchoEngine.Engine.InsertSortedEvent | native/gogoc-1_2-RELEASE/gogoc-tsp/src/net/icmp_echo_engine.c:1124-1156 | as intended: the list holds the old events with the new one at the insertion point |
| EchoEngine.Engine.Cyclic | native/gogoc-1_2-RELEASE/gogoc-tsp/src/net/icmp_echo_engine.c:1150-1151 | after the wrong link no sequence of events is a chain from the head |
| EchoEngine.Engine.RemoveEvent | native/gogoc-1_2-RELEASE/gogoc-tsp/src/net/icmp_echo_engine.c:1171-1197 | the first event with that number is unlinked, and the result says whether there was one |
| EchoEngine.Engine.Send | native/gogoc-1_2-RELEASE/gogoc-tsp/src/net/icmp_echo_engine.c:533-591 | the heap after a request is the state function of a request, with the result of the wrapper |
| EchoEngine.Engine.Switch | native/gogoc-1_2-RELEASE/gogoc-tsp/src/net/icmp_echo_engine.c:701-777 | the heap after the switch on what was read is the state function of that switch, with its result |
| EchoEngine.Engine.Read | native/gogoc-1_2-RELEASE/gogoc-tsp/src/net/icmp_echo_engine.c:681-789 | the heap after a pass of the read loop is the state function of that pass, with its result |
| Checksum.InCksum | native/gogoc-1_2-RELEASE/gogoc-tsp/src/net/net_cksm.c:15-34 | the loop and two folds compute the Internet checksum of sections 1 and 2 of RFC 1071 whenever the signed 32-bit sum holds |
| Checksum.Example | native/gogoc-1_2-RELEASE/gogoc-tsp/src/net/net_cksm.c:15-34 | the example of section 3 of RFC 1071 |
| Checksum.OverflowsExactly | native/gogoc-1_2-RELEASE/gogoc-tsp/src/net/net_cksm.c:18-24 | the signed 32-bit sum is safe for every input of a length exactly up to 65537 octets |
| Checksum.TwoFoldsAreEnough | native/gogoc-1_2-RELEASE/gogoc-tsp/src/net/net_cksm.c:30-31 | two folds reduce any such sum to its one's complement representative |
| Checksum.OnesSumIsCanonical | native/gogoc-1_2-RELEASE/gogoc-tsp/src/net/net_cksm.c:22-29 | the plain sum and the sum with end-around carries agree modulo 65535, with zero only for zero |
| Checksum.ChecksumVerifies | native/gogoc-1_2-RELEASE/gogoc-tsp/src/net/net_cksm.c:15-34 | storing the checksum in an aligned word that was zero makes the checksum of the result zero |
| Checksum.ChangedWordIsNoticed | native/gogoc-1_2-RELEASE/gogoc-tsp/src/net/net_cksm.c:15-34 | changing one word changes the checksum, except between 0 and 0xffff |
| Checksum.ByteOrderIndependence | native/gogoc-1_2-RELEASE/gogoc-tsp/src/net/net_cksm.c:15-34 | swapping the octets of every word of an even-length input swaps the octets of the checksum |
| NameValue.Trim | native/gogoc-1_2-RELEASE/gogoc-config/src/namevalueparser.cc:48-57 | the result has no blanks at either end, and a string without them is unchanged |
| NameValue.TrimTakesBlanks | native/gogoc-1_2-RELEASE/gogoc-config/src/namevalueparser.cc:48-57 | only blanks are taken off, and only at the ends |
| NameValue.ParsedShape | native/gogoc-1_2-RELEASE/gogoc-config/src/namevalueparser.cc:147-187 | names come out trimmed, non-empty and without separator; values come out trimmed |
| NameValue.PairIsReadBack | native/gogoc-1_2-RELEASE/gogoc-config/src/namevalueparser.cc:173-181 | a printed pair is parsed back exactly if the name does not start with # and the value is trimmed |
| NameValue.SeparatorIsOptional | native/gogoc-1_2-RELEASE/gogoc-config/src/namevalueparser.cc:173-181 | a line without separator is a name with an empty value |
| NameValue.RefusedExactly | native/gogoc-1_2-RELEASE/gogoc-config/src/namevalueparser.cc:182-186 | a line is refused exactly if it has nothing but separators behind its leading spaces |
| NameValue.HiddenComments | native/gogoc-1_2-RELEASE/gogoc-config/src/namevalueparser.cc:153-181 | a name that starts with # can be read but is printed as a comment |
| NameValue.CommentIsReadBack | native/gogoc-1_2-RELEASE/gogoc-config/src/namevalueparser.cc:165-169 | a comment is parsed back unchanged |
| NameValue.SplitPrinted | native/gogoc-1_2-RELEASE/gogoc-config/src/namevalueparser.cc:148-150 | reading line by line what was printed line by line gives the lines and one empty line |
| NameValue.Stuck | native/gogoc-1_2-RELEASE/gogoc-config/src/namevalueparser.cc:182-186 | nothing is read behind a refused line |
| NameValue.RoundTrip | native/gogoc-1_2-RELEASE/gogoc-config/src/namevalueparser.cc:123-287 | parsing what is printed gives the same map and the same lines, restamped, with one empty line more, with duplicate names and values containing separators |
| NameValue.ParsedIsParsable | native/gogoc-1_2-RELEASE/gogoc-config/src/namevalueparser.cc:123-192 | after any read, refused or not, the names on lines are the names of the map |
| NameValue.ReloadKeepsValues | native/gogoc-1_2-RELEASE/gogoc-config/src/namevalueparser.cc:123-287 | whatever file was read keeps its values when it is written and read again exactly if no name starts with #, and then it keeps its lines, too |
| NameValue.ListingRoundTrip | native/gogoc-1_2-RELEASE/gogoc-config/src/namevalueparser.cc:272-281 | the same round trip of the map in the mode that keeps no lines |
| Configuration.Parser.ReadFile | native/gogoc-1_2-RELEASE/gogoc-config/src/namevalueparser.cc:123-192 | reading replaces the data by what the file parses to; a missing file leaves them, a bad line leaves what was read before it |
| Configuration.Parser.AddLine | native/gogoc-1_2-RELEASE/gogoc-config/src/namevalueparser.cc:304-372 | one line is added to list and map as the mode says |
| Configuration.Parser.WriteFile | native/gogoc-1_2-RELEASE/gogoc-config/src/namevalueparser.cc:214-287 | the file becomes the printed data, and no other file changes |
| Configuration.Config.GetVariableValue | native/gogoc-1_2-RELEASE/gogoc-config/src/namevalueconfig.cc:91-103 | the value, or the empty string |
| Configuration.Config.SetVariableValue | native/gogoc-1_2-RELEASE/gogoc-config/src/namevalueconfig.cc:126-143 | afterwards the name has the value and all others theirs; a line is added unless some line has that text |
| Configuration.Config.RemoveVariable | native/gogoc-1_2-RELEASE/gogoc-config/src/namevalueconfig.cc:163-170 | afterwards the name is neither in the map nor on a line, every other name has its value, and the other lines stay in their order |
| Configuration.SetIsRead | native/gogoc-1_2-RELEASE/gogoc-config/src/namevalueconfig.cc:91-143 | a get after a set returns the value, and for any other name what it returned before |
| Configuration.RemovedIsGone | native/gogoc-1_2-RELEASE/gogoc-config/src/namevalueconfig.cc:91-170 | a get after a removal returns the empty string, and for any other name what it returned before |
| Configuration.RemovedStaysAway | native/gogoc-1_2-RELEASE/gogoc-config/src/namevalueconfig.cc:163-170 | a removed name is still absent after applying and loading, and all others have their values |
| Configuration.SetStaysSynced | native/gogoc-1_2-RELEASE/gogoc-config/src/namevalueconfig.cc:126-143 | setting keeps the names on lines and in the map equal exactly if no comment or empty line has the text of the name |
| Configuration.EmptyNameIsLost | native/gogoc-1_2-RELEASE/gogoc-config/src/namevalueconfig.cc:134-139 | the empty name is taken for an empty line, and its value is never written |
| Configuration.RemoveStaysSynced | native/gogoc-1_2-RELEASE/gogoc-config/src/namevalueconfig.cc:163-170 | removing keeps them equal |
| Configuration.SetSurvivesExactly | native/gogoc-1_2-RELEASE/gogoc-config/src/namevalueconfig.cc:126-143 | a value set in well-formed data is there, with all others, after writing and reading exactly if the name is trimmed, not empty, without separator and newline and does not start with #, and the value is trimmed and without newline |
| Configuration.EditsStayWellFormed | native/gogoc-1_2-RELEASE/gogoc-config/src/namevalueconfig.cc:126-170 | any sequence of edits that survive so keeps the data ready for a round trip, so that applying loses nothing |
| Configuration.Config.LoadConfiguration | native/gogoc-1_2-RELEASE/gogoc-config/src/config.cc:87-101 | refused in mode create; otherwise the data become what the file parses to |
| Configuration.Config.ApplyConfiguration | native/gogoc-1_2-RELEASE/gogoc-config/src/config.cc:120-133 | refused in mode read; otherwise the file becomes the printed data |
| Configuration.Config.CancelConfiguration | native/gogoc-1_2-RELEASE/gogoc-config/src/config.cc:154-166 | refused in modes read and create; otherwise the file is loaded again |
| Configuration.Config.OverrideConfiguration | native/gogoc-1_2-RELEASE/gogoc-config/src/config.cc:192-213 | the data of another file are loaded and written here; if they are refused this file is not touched, and if there is none the data stay |
| Configuration.Config.ApplyEditCancel | native/gogoc-1_2-RELEASE/gogoc-config/src/config.cc:120-166 | apply, any edits, cancel: exactly the applied map is back |
| DnsUpdate.LabelsOfDotted | native/gogoc-1_2-RELEASE/gogoc-tsp/src/lib/dns.c:87-103 | splitting at dots undoes joining with dots |
| DnsUpdate.LabelsAreBounded | native/gogoc-1_2-RELEASE/gogoc-tsp/src/lib/dns.c:87-103 | no label is empty or longer than the text |
| DnsUpdate.WireSize | native/gogoc-1_2-RELEASE/gogoc-tsp/src/lib/dns.c:87-103 | a name takes at most one octet more than its text, without its end |
| DnsUpdate.DecodeWire | native/gogoc-1_2-RELEASE/gogoc-tsp/src/lib/dns.c:87-103 | labels of at most 63 octets are read back by the decoder of section 4.1.4 of RFC 1035 |
| DnsUpdate.DecodePlain | native/gogoc-1_2-RELEASE/gogoc-tsp/src/lib/dns.c:105-109 | a name ended by the empty label is read back |
| DnsUpdate.DecodeCompressed | native/gogoc-1_2-RELEASE/gogoc-tsp/src/lib/dns.c:105-107 | a name ended by a pointer to the zone name is read back as its labels followed by those of the zone |
| DnsUpdate.BodyDecodesExactly | native/gogoc-1_2-RELEASE/gogoc-tsp/src/lib/dns.c:128-217 | the message decodes to the zone, the record name labels(Name) ++ labels(Domain), type, class, TTL and data it was built from exactly if no label of the domain is longer than 63 octets |
| DnsUpdate.LongLabelDoesNotDecode | native/gogoc-1_2-RELEASE/gogoc-tsp/src/lib/dns.c:87-103 | a domain of one label of 64 octets, whose message does not decode |
| DnsUpdate.NameEncode | native/gogoc-1_2-RELEASE/gogoc-tsp/src/lib/dns.c:70-112 | names of more than 253 characters are refused; otherwise exactly the labels and the end are written |
| DnsUpdate.MessageCreate | native/gogoc-1_2-RELEASE/gogoc-tsp/src/lib/dns.c:128-224 | what is refused; otherwise the buffer holds the message behind the number of octets that follow, in at most 301 of 512 octets, and the whole name takes at most 255 |
| DnsUpdate.OneMessage | native/gogoc-1_2-RELEASE/gogoc-tsp/src/lib/dns.c:128-217 | one whole update message as literal octets |
| DnsUpdate.OneDeletion | native/gogoc-1_2-RELEASE/gogoc-tsp/src/lib/dns.c:128-217 | and one that deletes |
| Base64.TablesAreInverse | native/gogoc-1_2-RELEASE/gogoc-tsp/src/lib/base64.c:74-91 | the two tables undo each other on digits, and padding and NUL are no digits |
| Base64.BasisIsAlphabet | native/gogoc-1_2-RELEASE/gogoc-tsp/src/lib/base64.c:165-166 | the digits are the alphabet of table 1 of RFC 4648 |
| Base64.FirstAnswers | native/gogoc-1_2-RELEASE/gogoc-tsp/src/lib/base64.c:181-212 | three of the answers in section 10 of RFC 4648 |
| Base64.EncoderShifts | native/gogoc-1_2-RELEASE/gogoc-tsp/src/lib/base64.c:188-194 | the shifts and masks of the encoder are the sextets of a 24-bit group |
| Base64.DecoderShifts | native/gogoc-1_2-RELEASE/gogoc-tsp/src/lib/base64.c:138-143 | the shifts of the decoder are its octets |
| Base64.EncodeBinary | native/gogoc-1_2-RELEASE/gogoc-tsp/src/lib/base64.c:181-212 | the output is the encoding of section 4 of RFC 4648 and a NUL, its length is what base64encode_len says, and nothing behind it is written |
| Base64.DecodeLen | native/gogoc-1_2-RELEASE/gogoc-tsp/src/lib/base64.c:93-106 | more room than the decoder needs |
| Base64.DecodeBinary | native/gogoc-1_2-RELEASE/gogoc-tsp/src/lib/base64.c:120-163 | for every terminated input: what it returns is the number of octets it wrote, six bits for every digit before the first other character, and nothing behind them is written |
| Base64.RoundTrip | native/gogoc-1_2-RELEASE/gogoc-tsp/src/lib/base64.c:120-212 | decoding an encoding returns every octet and nothing more |
| Base64.DigitsOfEncoded | native/gogoc-1_2-RELEASE/gogoc-tsp/src/lib/base64.c:181-212 | where the digits of an encoding end |
| Buffers.Buffer.AppendSpace | native/gogoc-1_2-RELEASE/gogoc-tsp/src/lib/buffer.c:81-123 | the loop behind the label is passed at most three times, moves the data at most once and grows at most once, exactly when it must; the data is undisturbed; it gives up exactly beyond the two limits |
| Buffers.Buffer.MoveToFront | native/gogoc-1_2-RELEASE/gogoc-tsp/src/lib/buffer.c:109-113 | moving to the front keeps the contents |
| Buffers.Buffer.Realloc | native/gogoc-1_2-RELEASE/gogoc-tsp/src/lib/buffer.c:116-122 | growing keeps the contents |
| Buffers.Buffer.Append | native/gogoc-1_2-RELEASE/gogoc-tsp/src/lib/buffer.c:68-73 | the contents get the data at their end |
| Buffers.Buffer.Get | native/gogoc-1_2-RELEASE/gogoc-tsp/src/lib/buffer.c:134-142 | takes from the front, or nothing at all |
| Buffers.Buffer.Consume | native/gogoc-1_2-RELEASE/gogoc-tsp/src/lib/buffer.c:146-153 | drops from the front, or nothing at all |
| Buffers.Buffer.ConsumeEnd | native/gogoc-1_2-RELEASE/gogoc-tsp/src/lib/buffer.c:157-164 | drops from the end, or nothing at all |
| Buffers.Buffer.Clear | native/gogoc-1_2-RELEASE/gogoc-tsp/src/lib/buffer.c:60-64 | empty afterwards |
| Buffers.Buffer.PutInt | native/gogoc-1_2-RELEASE/gogoc-tsp/src/lib/bufaux.c:143-149 | four octets, most significant first |
| Buffers.Buffer.GetInt | native/gogoc-1_2-RELEASE/gogoc-tsp/src/lib/bufaux.c:135-141 | the integer, if four octets are there |
| Buffers.Buffer.PutString | native/gogoc-1_2-RELEASE/gogoc-tsp/src/lib/bufaux.c:201-205 | the length and the octets |
| Buffers.Buffer.GetString | native/gogoc-1_2-RELEASE/gogoc-tsp/src/lib/bufaux.c:174-196 | refused beyond 256 KiB; the string if it is all there, garbage of that length otherwise; without four octets of length the contents lose nothing but what the garbage length says |
| Buffers.Buffer.PutOctet | native/gogoc-1_2-RELEASE/gogoc-tsp/src/lib/bufaux.c:232-237 | one octet, the value modulo 256 |
| Buffers.Buffer.GetOctet | native/gogoc-1_2-RELEASE/gogoc-tsp/src/lib/bufaux.c:221-227 | one octet |
| Buffers.PutAll | native/gogoc-1_2-RELEASE/gogoc-tsp/src/lib/bufaux.c:135-237 | any sequence of puts appends the stream of its items |
| Buffers.GetAll | native/gogoc-1_2-RELEASE/gogoc-tsp/src/lib/bufaux.c:135-237 | gets of the same shapes recover the items in order and leave what follows |
| Buffers.StreamsAreUnambiguous | native/gogoc-1_2-RELEASE/gogoc-tsp/src/lib/bufaux.c:135-237 | the octets determine the items, given their shapes |
| LogDrain.LineIsOneLine | native/gogoc-1_2-RELEASE/gogoc-tsp/src/lib/log.c:415-453 | whatever the message contains, the buffered line has no break before its end and fits the local array |
| LogDrain.StrippedOctet | native/gogoc-1_2-RELEASE/gogoc-tsp/src/lib/log.c:420-429 | a CR or LF is dropped, any other octet is kept |
| LogDrain.StrippedSum | native/gogoc-1_2-RELEASE/gogoc-tsp/src/lib/log.c:420-429 | so what is left are exactly the other octets, in order |
| LogDrain.TextIsKept | native/gogoc-1_2-RELEASE/gogoc-tsp/src/lib/log.c:415-449 | a message without breaks that fits is buffered as header, message and LF |
| LogDrain.LongLineIsCut | native/gogoc-1_2-RELEASE/gogoc-tsp/src/lib/log.c:445-449 | of a longer line what fits the array is kept, and its LF is lost |
| LogDrain.LongMessageIsCut | native/gogoc-1_2-RELEASE/gogoc-tsp/src/lib/log.c:383-396 | a message that does not fit its own array counts as its beginning |
| LogDrain.Log.ToBuffer | native/gogoc-1_2-RELEASE/gogoc-tsp/src/lib/log.c:376-459 | the line and a NUL are appended to the buffer, so it stays a concatenation of terminated lines |
| LogDrain.Log.LineToFile | native/gogoc-1_2-RELEASE/gogoc-tsp/src/lib/log.c:313-371 | what one attempt writes and how many characters it reports, for success, refusal and a failed flush |
| LogDrain.Log.DrainOne | native/gogoc-1_2-RELEASE/gogoc-tsp/src/lib/log.c:798-806 | at least one octet is consumed and never more than there are |
| LogDrain.Log.Drain | native/gogoc-1_2-RELEASE/gogoc-tsp/src/lib/log.c:797-810 | the loop ends, the buffer is empty, and the file gets what the outcomes of the writes imply |
| LogDrain.EverythingIsEmitted | native/gogoc-1_2-RELEASE/gogoc-tsp/src/lib/log.c:797-810 | if the writes of all lines succeed every line is written once and in order |
| LogDrain.OneFailedWrite | native/gogoc-1_2-RELEASE/gogoc-tsp/src/lib/log.c:797-810 | if a single write fails the file lacks exactly the first octet of that line when it was refused, and repeats all but its first octet when it was not flushed |
| LogDrain.RefusedLinesAreLost | native/gogoc-1_2-RELEASE/gogoc-tsp/src/lib/log.c:797-810 | if every write is refused nothing is written and the lines are gone |
| MessageCodec.TakesString | native/gogoc-1_2-RELEASE/gogoc-messaging/src/clientmsgtranslator.cc:195-197 | a string is taken exactly where its octets and a NUL are |
| MessageCodec.TakesTunnel | native/gogoc-1_2-RELEASE/gogoc-messaging/src/clientmsgtranslator.cc:187-245 | a record is taken from the data, null strings becoming empty, exactly where its octets are, with the cursor behind it |
| MessageCodec.OneRecord | native/gogoc-1_2-RELEASE/gogoc-messaging/src/servermsgsender.cc:111-209 | one whole record as literal octets |
| MessageCodec.TunnelArrives | native/gogoc-1_2-RELEASE/gogoc-messaging/src/servermsgsender.cc:111-209 | what is sent in a message below MSG_MAX_USERDATA is what is received, and the assert on the cursor holds |
| MessageCodec.TakesEntries | native/gogoc-1_2-RELEASE/gogoc-messaging/src/clientmsgtranslator.cc:358-378 | whatever follows the data in the buffer, a list is rebuilt with the cursor at the end of the data exactly if its octets are all there is |
| MessageCodec.TakesStatus | native/gogoc-1_2-RELEASE/gogoc-messaging/src/clientmsgtranslator.cc:391-421 | a HACCESS status is rebuilt exactly from its octets |
| MessageCodec.OneStatus | native/gogoc-1_2-RELEASE/gogoc-messaging/src/servermsgsender.cc:283-340 | one whole status as literal octets |
| MessageCodec.StatusArrives | native/gogoc-1_2-RELEASE/gogoc-messaging/src/servermsgsender.cc:283-340 | a HACCESS status with any number of mappings arrives |
| MessageCodec.BrokersArrive | native/gogoc-1_2-RELEASE/gogoc-messaging/src/servermsgsender.cc:225-266 | a broker list would arrive if every distance were read behind its own name |
| MessageCodec.BrokersAreMisread | native/gogoc-1_2-RELEASE/gogoc-messaging/src/clientmsgtranslator.cc:279-294 | as written, names and cursor come out right and every distance is read at twice its offset plus the length of its name |
| MessageCodec.FirstDistanceIsRight | native/gogoc-1_2-RELEASE/gogoc-messaging/src/clientmsgtranslator.cc:279-294 | the distance of the first broker is read where it was written |
| MessageCodec.LastIsLost | native/gogoc-1_2-RELEASE/gogoc-messaging/src/clientmsgtranslator.cc:279-294 | with two brokers or more the last distance is whatever lies behind the message |
| MessageCodec.BrokersArriveExactly | native/gogoc-1_2-RELEASE/gogoc-messaging/src/clientmsgtranslator.cc:279-294 | as written, a broker list arrives whatever is in memory exactly if it has at most one broker |
| MessageCodec.SecondDistanceIsLost | native/gogoc-1_2-RELEASE/gogoc-messaging/src/clientmsgtranslator.cc:289-289 | a list of two brokers that does not arrive |
| MessageCodec.SendTunnelInfo | native/gogoc-1_2-RELEASE/gogoc-messaging/src/servermsgsender.cc:111-209 | the message is created from exactly the octets of the record |
| MessageCodec.SendBrokerList | native/gogoc-1_2-RELEASE/gogoc-messaging/src/servermsgsender.cc:225-266 | the message is created from exactly the octets of the list |
| MessageCodec.SendStatusInfo | native/gogoc-1_2-RELEASE/gogoc-messaging/src/servermsgsender.cc:283-340 | the message is created from exactly the octets of the status |
| MessageCodec.TranslateTunnelInfo | native/gogoc-1_2-RELEASE/gogoc-messaging/src/clientmsgtranslator.cc:187-245 | the record and cursor of the specification, and whether the assert on the cursor holds |
| MessageCodec.TranslateStatusInfo | native/gogoc-1_2-RELEASE/gogoc-messaging/src/clientmsgtranslator.cc:391-421 | the status and cursor of the specification, and whether the assert on the cursor holds |
| MessageCodec.BuildMappingStatuses | native/gogoc-1_2-RELEASE/gogoc-messaging/src/clientmsgtranslator.cc:358-378 | the list and cursor of the specification |
| MessageCodec.BuildBrokerList | native/gogoc-1_2-RELEASE/gogoc-messaging/src/clientmsgtranslator.cc:279-294 | as written: the list and cursor of the misreading specification |

## Left out

- Pipes, sockets, `select`, semaphores and threads of the operating system: the pipe is a FIFO of packets, the semaphore a counter, and every outcome of a call is a parameter.
- The layout of bit-fields by the compiler: the packet header is fixed at 4 + 6 + 6 + 6 + 10 bits from the least significant bit of a little-endian word. Native integers in messages are little-endian, `int` has 4 octets and `time_t` 8.
- Data races inside `std::queue`, and a post torn apart by a reset: `PostMessage` is one atomic step.
- The message sequence number is a static variable of the process; the model has one per servent, and the runs of `IpcRun` begin with any number.
- Each thread of the connection manager is a sequence of atomic steps; its loop is not a method of its own, since the other threads move between any two of its steps.
- The index arrays of the deque are global; the model has one pair per queue and leaves out two queues that share them.
- `Deque.Queue.Put` and the other cursor operations do not model freed memory being reused.
- QuickSort.Sort: arrays that the scans leave are left out; what the source does then depends on foreign memory.
- Floating-point milliseconds in the echo engine: times are exact microseconds. Decoding of ICMP packets, which decides between on time and late, is an input.
- `EchoProcess.Process` leaves out the wait of keepalive mode before the first request, and ends when the list is no longer a chain.
- `EchoEngine.Engine.Send` and `Read` say nothing about an engine whose list is no longer a chain.
- The buffer pointer that drifts over leading spaces in `ReadConfigurationData`, lines of 2048 characters and more, and files with NUL characters.
- The order of names in `GetVariableNameList`, and the order in which the map is written in the mode without lines, which is a parameter.
- `MessageCodec.TranslateTunnelInfo` and the other readers are modelled on data in which every value ends within the receive buffer, if not within the data; behind the buffer the source reads foreign memory.
- `MessageCodec.BuildMappingStatuses`, `BuildBrokerList` and the senders use lists as values; allocation and release of the linked lists are not modelled.
- The DNS address of a tunnel record is not sent by the source.
- `Buffers.Buffer.Append` and the puts say nothing about the buffer after the source has called exit; failing allocations are not modelled.
- `Checksum.InCksum` says nothing of inputs whose sum overflows 32 signed bits, which C leaves undefined; `Checksum.OverflowsExactly` says at which lengths there are any.
- Log rotation, time stamps and formats, and the syslog output.
- BIGNUM functions, `inet_pton` and `getaddrinfo` helpers, the Home Access threads, the DDNS exchange over the network, platform tunnel loops, Java and JNI code.
- Validators, field accessors, C wrappers and string tables: they would only add easy members.

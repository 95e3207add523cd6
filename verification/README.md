# Suika, modelled in Dafny

Suika is a small user-space UDP/IPv4/ARP/Ethernet stack. This project models its layers and
proves what they promise:

* the Internet checksum, computed with a single fold, and exactly when its three users (IPv4
  header, UDP datagram, ICMP echo reply) are accepted by the other side;
* the path of a datagram from `sendTo` through four layers of encoding, over the wire and through
  four layers of decoding into the queue of a socket;
* the table of UDP control blocks, and any number of threads at once inside the receive handler,
  `open`, `bind`, `sendTo`, `recvFrom` and the interrupt event, one lock operation or one shared
  access per step;
* the ARP packet format, the ARP cache under overlapping `create` calls, and the ARP protocol between any
  number of hosts over a network that loses, duplicates and reorders frames;
* dotted-quad text and the draining of the protocol queues.

`dafny verify dfyconfig.toml` checks everything.

## How it is built

| file | contents |
|---|---|
| Wrappers.dfy | options, results, the exceptions of the stack |
| Bytes.dfy | bytes and words, shift-or as positional notation, the buffer class `BinaryPayload` |
| IpUtils.dfy | word sums, the single fold, RFC 1071's repeated fold, verifying and generating |
| AddressText.dfy | printing, splitting and parsing of addresses |
| UdpData.dfy, Ipv4Data.dfy, EtherFrame.dfy, Icmp.dfy, ArpData.dfy | packet formats |
| ArpCache.dfy, Arp.dfy, ArpNetwork.dfy | cache, handler and resolver, the protocol between hosts |
| UdpPcb.dfy, UdpPcbManager.dfy, UdpThreads.dfy | the control blocks as values, as objects, and under threads |
| UdpCalls.dfy | a call that no other thread disturbs is the function on tables; a datagram's way through a fresh stack; a run in which traffic is lost |
| Host.dfy | IPv4, UDP and ICMP over one host's state; the end-to-end theorem |
| Dispatch.dfy | the protocol queues |

The source's packet classes add no fields to `BinaryPayload`, only accessors at fixed or computed offsets;
here they are modules of offsets and operations on objects of the one buffer class. Methods that change
objects state the new state as a function of the old one, and the theorems are about those
functions. The functions on control-block tables that the manager's methods are tied to are the same
ones that the thread steps apply, and what an undisturbed call of the threads comes to.

Words used below: for a sum of 16-bit words, H is its part above the low 16 bits and L its low 16 bits;
"no second carry" means H + L <= 65535.

## What turned out not to hold always

* A header, datagram or echo reply built by the stack is not always accepted by the stack. The
  exact conditions are `Ipv4Data.HeaderCheckExact`, `UdpData.ChecksumRoundTrip` and `Icmp.ReplyAccepted`; unaltered
  packets that are refused are given in `Ipv4Data.SomeHeaderIsRefused`, `UdpData.SomeDatagramIsRefused` and
  `Icmp.SomeReplyIsRefused`.
* What the application receives is the data followed by eight zero bytes, since `UdpData::payload` sizes its
  result by the length field, header included.
* A socket that has bound an address can lose its traffic to one that stands before it in the table and
  takes 0.0.0.0 with the same port: exactly when is `UdpPcb.LosesTrafficExactly` and
  `UdpThreads.OwnerServedExactly`; runs from a fresh table in which it happens, by bind and by an ephemeral port,
  are given in `UdpCalls.TrafficIsLost`.
* The ARP cache may hold an address twice. Whenever no `create` is under way, it does if and only if two
  creates for one address have overlapped (`ArpCache.KeysUniqueExactly`); a run in which they do is
  `ArpCache.OverlapMayDuplicate`. No lookup can tell (`ArpCache.RunRefines`).

## Model

| member | source | states |
|---|---|---|
| Host.EndToEnd | lib/Udp.cpp:166-192 | for every even-length datagram that fits a frame, every sender with a resolved gateway and a lawful source address, and every receiver: one frame goes out, and the receiving layers queue exactly one entry with the sender's endpoint and the data plus eight zeros on the selected block, or fail in exactly the cases named |
| Host.PacketDelivery | lib/Ipv4.cpp:13-67 | the same from IPv4 up, for any padding behind the packet |
| Host.SealedDelivery | lib/Udp.cpp:10-51 | the handler's verdict on a datagram built by `udp_output` |
| Host.EchoRoundTrip | lib/Icmp.cpp:35-83 | for every packet from any sender that holds an accepted echo request whose reply fits a frame: one frame answers its source address, and the asker's layers read exactly the reply and answer nothing, or fail in exactly the cases named |
| Host.SentExactly | lib/Ipv4.cpp:69-122 | for every sender, address pair, data and state of the ARP cache: the packet goes out to the resolved hardware address iff the source is 0.0.0.0 and the destination not the broadcast address, or the source is the host's own; otherwise the exception and what is sent instead |
| Host.SocketSends | lib/Udp.cpp:92-129 | a socket whose gateway is resolved can send iff it is bound to nothing or to the host's own address |
| Host.SentToGateway | lib/Ipv4.cpp:85-116 | in every run of the ARP protocol between hosts, what goes out is addressed to the gateway's true hardware address, or asks for it |
| Host.FrameLayout | lib/Ipv4.cpp:88-116 | where Ethernet header, IPv4 header, data and padding stand in the frame |
| Host.WireBytes | lib/Udp.cpp:166-192 | the bytes of every frame that carries a datagram, by number, but for the two checksums |
| Host.RefusedExactly | lib/Ipv4.cpp:33-54 | for every packet, which exception stops it, as conditions on the fully folded sum of its header bytes, its two lengths and its destination bytes, and on nothing else |
| Host.NothingPassedOn | lib/Ipv4.cpp:37-54 | a refused packet leaves the table alone and nothing is sent |
| Host.AnyPacket | lib/Ipv4Data.h:134-157 | for every header of 5 to 15 words that sums up right and tells the length, whoever built it, and any padding: the payload is found, and the packet is passed on iff the destination bytes are this host's address |
| Host.PassedOn | lib/Ipv4.cpp:56-66 | an accepted packet goes to UDP for protocol 17 and to ICMP for 1, with the addresses its header names and the bytes between its lengths; any other is passed over |
| Host.DatagramVerdict | lib/Udp.cpp:12-28 | for every datagram, whoever built it, a zero checksum field included: refused iff the two folded sums do not add up to all ones |
| Host.DatagramQueued | lib/Udp.cpp:32-50 | every accepted datagram is one entry more on the block that answers for its destination, with its sender's endpoint and its bytes, and no other change |
| Host.AnyMessage | lib/Icmp.cpp:52-83 | every ICMP message: refused iff its words do not fold to 0xFFFF, in silence if its type is not 8, else answered to its sender |
| Host.Host.Ipv4Output | lib/Ipv4.cpp:69-122 | result, frames written and identification counter for every source, destination and cache content |
| Host.Host.IpGenId | lib/Ipv4.cpp:124-132 | returns the counter and advances it modulo 2^16 |
| Host.Host.Ipv4Handle | lib/Ipv4.cpp:13-67 | header check, the length that the payload is taken by, address check, then the handler of the protocol; a packet stopped before its handler leaves table and wire alone |
| Host.Host.UdpOutput | lib/Udp.cpp:166-192 | writes the sealed datagram's frame, or what `ipv4_output` does instead |
| Host.Host.SendTo | lib/Udp.cpp:86-130 | the port given to the block, the source endpoint used, and the frame sent |
| Host.Host.UdpHandle | lib/Udp.cpp:10-51 | refuses a wrong checksum, returns -1 without a block, else appends one entry to the first matching block |
| Host.Host.IcmpHandle | lib/Icmp.cpp:52-83 | refuses what does not verify, answers echo requests and nothing else |
| IpUtils.CalculateChecksum | lib/IpUtils.h:43-49 | the single fold of the 32-bit accumulated sum of the words visited |
| IpUtils.CalculateChecksumUint16 | lib/IpUtils.h:51-57 | the same over 16-bit values |
| IpUtils.RangeExactly | lib/IpUtils.h:45-47 | which bytes are read for every begin and end: none from outside, and one more than asked for when their number is odd |
| IpUtils.Range16Exactly | lib/IpUtils.h:53-55 | the same over 16-bit values |
| IpUtils.VerifyChecksum | lib/IpUtils.h:59-61 | accepts exactly the ranges whose fully repeated fold is 0xFFFF |
| IpUtils.NoOverflow | lib/IpUtils.h:44-47 | up to 128 KiB the accumulator is the true sum |
| IpUtils.SingleFoldIsRfc1071 | lib/IpUtils.h:48-61 | verification holds iff the sum is a positive multiple of 65535, iff the repeated fold gives 0xFFFF |
| IpUtils.SingleFoldBoundIsSharp | lib/IpUtils.h:48 | the agreement ends at the sum 2^32 - 1 |
| IpUtils.SingleWordError | lib/IpUtils.h:43-61 | a change of one aligned word goes unnoticed iff it is between 0x0000 and 0xFFFF and the sum stays positive |
| IpUtils.GeneratedAccepted | lib/IpUtils.h:48 | a complemented single fold is accepted iff there was no second carry |
| IpUtils.GeneratedIsRfc1071 | lib/IpUtils.h:48 | the single fold is RFC 1071's iff there is no second carry |
| UdpData.NewDatagram | lib/Udp.cpp:169-174 | stores at field offsets give the datagram as RFC 768 lays it out |
| UdpData.NewPseudoHeader | lib/Udp.cpp:176-180 | the same for the pseudo header |
| UdpData.SetPayload | lib/UdpData.h:63-67 | resizes and lays the data over the bytes after the header |
| UdpData.DatagramFields | lib/UdpData.h:23-61 | the accessors read back ports, length and checksum, and the payload is the data and eight zeros |
| UdpData.DatagramLayout | lib/UdpData.h:23-53 | where the fields stand |
| UdpData.SealedExactly | lib/Udp.cpp:169-186 | what is handed to IPv4: the fields, with the checksum taken while its field holds zeros |
| UdpData.ComputeChecksum | lib/Udp.cpp:182-185 | the complement of the folded pair of folded sums, as both ends compute it |
| UdpData.ChecksumExactly | lib/Udp.cpp:182-185 | for every datagram the checksum is the complement of the full fold of the two folded sums |
| UdpData.ChecksumIsRfc768 | lib/Udp.cpp:182-185 | it is the checksum of RFC 768 iff neither sum has a second carry |
| UdpData.OuterFoldIsExact | lib/Udp.cpp:184-185 | the fold of the two folded sums is always an exact end-around add |
| UdpData.DeliverableExact | lib/Udp.cpp:14-28 | for every folded pseudo header and every sum: the receiver gets zero iff the condition on H, L and the pseudo header holds |
| UdpData.ChecksumRoundTrip | lib/Udp.cpp:176-186 | the same for every datagram the stack builds |
| UdpData.SumsOfFields | lib/UdpData.h:7-123 | the two deciding sums as sums of the fields |
| UdpData.SomeDatagramIsRefused | lib/Udp.cpp:23-28 | an unaltered datagram with a checksum the receiver refuses |
| Ipv4Data.SetVersion | lib/Ipv4Data.h:48-52 | sets the high nibble, keeps the low one |
| Ipv4Data.SetHeaderLength | lib/Ipv4Data.h:56-59 | sets the low nibble, keeps the high one |
| Ipv4Data.NewHeader | lib/Ipv4Data.h:19-23 | twenty bytes starting with 0x45 |
| Ipv4Data.VerifyHeader | lib/Ipv4Data.h:150-157 | true iff the header's bytes verify |
| Ipv4Data.VerifiesExactly | lib/Ipv4Data.h:150-157 | for all sixteen header lengths: accepted iff the bytes the length names, as far as the buffer goes, fold fully to 0xFFFF |
| Ipv4Data.SetCheckSum | lib/Ipv4Data.h:159-164 | only the checksum field changes, to the complement of the zero-field fold |
| Ipv4Data.HeaderCheckExact | lib/Ipv4Data.h:150-164 | for every header length from 5 to 15: verifying after setting holds iff the zero-field sum has no second carry |
| Ipv4Data.SetPayload | lib/Ipv4Data.h:143-148 | stores the length, resizes, lays the data over the rest |
| Ipv4Data.PayloadKeepsHeader | lib/Ipv4.cpp:108-111 | setting the payload after the checksum leaves every header byte as it was and lays the data behind them |
| Ipv4Data.HeaderSealed | lib/Ipv4.cpp:108-109 | setting the checksum of the header that is sent fills in that one field |
| Ipv4Data.NewPacket | lib/Ipv4.cpp:88-111 | the setter calls give the packet as RFC 791 lays it out |
| Ipv4Data.PacketRoundTrip | lib/Ipv4Data.h:134-157 | whatever padding follows, fields and payload read back, and the header verifies iff its sum has no second carry |
| Ipv4Data.HeaderSum | lib/Ipv4.cpp:88-106 | the deciding sum as a sum of the fields |
| Ipv4Data.HeaderLayout | lib/Ipv4Data.h:61-132 | where the fields stand |
| Ipv4Data.ChecksumIsRfc791 | lib/Ipv4Data.h:159-164 | the checksum sent is the complement of the full fold iff the sum of the fields has no second carry |
| Ipv4Data.HeaderVerdict | lib/Ipv4Data.h:150-164 | the receiver's verdict on any packet of this stack, as a condition on that sum of the fields |
| Ipv4Data.SomeHeaderIsRefused | lib/Ipv4.cpp:124-132 | an unaltered header, with the first identification, that the receiver refuses |
| EtherFrame.FrameRoundTrip | lib/EtherFrame.h:31-74 | addresses and type read back; the body is the data and the padding; frames have the minimum size |
| EtherFrame.SetBody | lib/EtherFrame.h:67-74 | appends body and padding |
| EtherFrame.WriteEtherAddr | lib/EtherFrame.h:107-115 | refuses lengths other than six, else grows the buffer as needed and lays the address over it |
| EtherFrame.EtherDevice.Transmit | lib/EtherDevice.cpp:140-160 | writes exactly one frame, or refuses the destination |
| Icmp.BuildReply | lib/Icmp.cpp:35-43 | the request with its type and checksum rewritten |
| Icmp.ReplyBytes | lib/Icmp.cpp:38-43 | nothing but type and checksum differs from the request |
| Icmp.ReplyAccepted | lib/Icmp.cpp:40-43 | the reply verifies iff its zero-field sum has no second carry |
| Icmp.SomeReplyIsRefused | lib/Icmp.cpp:35-66 | a ten-byte echo request that is accepted and whose reply, unaltered, is not |
| Icmp.ReplyIsIncrementalUpdate | lib/Icmp.cpp:63-74 | for accepted request and reply the checksum moves up by 0x0800 modulo 65535 (section 3 of RFC 1624) |
| Bytes.ReadUint16 | lib/BinaryPayload.h:15-18 | shift-or is big-endian positional value |
| Bytes.ReadUint32 | lib/BinaryPayload.h:20-26 | the same for four bytes |
| Bytes.ReadBack16 | lib/BinaryPayload.h:38-41 | what is written as 16 bits is read back |
| Bytes.ReadBack32 | lib/BinaryPayload.h:43-48 | what is written as 32 bits is read back |
| Bytes.WriteBack | lib/BinaryPayload.h:20-48 | writing what four bytes read as restores them |
| Bytes.BinaryPayload.WriteUint16 | lib/BinaryPayload.h:38-41 | two bytes change, nothing else |
| Bytes.BinaryPayload.WriteUint32 | lib/BinaryPayload.h:43-48 | four bytes change, nothing else |
| Bytes.BinaryPayload.WriteVector | lib/BinaryPayload.h:50-55 | the vector is laid over the buffer at the offset |
| AddressText.Ipv4strToUint32 | lib/IpUtils.h:13-26 | the loop computes the accumulated value or fails |
| AddressText.ParsePrint | lib/IpUtils.h:13-32 | parsing the print of any 32-bit address gives it back |
| AddressText.PrintParse | lib/IpUtils.h:13-32 | printing the parse of a string gives it back iff it is a canonical dotted quad |
| AddressText.TextExactly | lib/IpUtils.h:13-26 | for every text: refused iff it has more than four pieces or one that is no number below 2^32; else its value, binary digit by digit, is the or of the pieces in their places |
| AddressText.WordsExactly | lib/IpUtils.h:16 | the pieces are what stands between the dots |
| AddressText.OneAddress | lib/IpUtils.h:28-32 | 192.0.2.7 in both forms |
| AddressText.LooseTextParses | lib/IpUtils.h:22 | octets are not bounded: "300" parses |
| UdpPcb.Select | lib/UdpControlBlock.cpp:28-39 | the first matching block, none iff nothing matches |
| UdpPcb.SelectExactly | lib/UdpControlBlock.cpp:28-39 | the same spelled out on states, addresses and ports |
| UdpPcb.AllocExactly | lib/UdpControlBlock.cpp:13-26 | the first free block gets its index and 0.0.0.0:0; its queue and flag, and all other blocks, stay as they were |
| UdpPcb.BindExactly | lib/Udp.cpp:72-83 | one endpoint changes, iff no open block on the port holds the address or 0.0.0.0, whatever the block was bound to |
| UdpPcb.AssignExactly | lib/Udp.cpp:101-122 | a block with a port is left alone; another keeps its address and gets the lowest port from 39584 on that is free at the address it sends from |
| UdpPcb.InterruptExactly | lib/UdpControlBlock.cpp:41-50 | flags of open blocks are raised and nothing else changes |
| UdpPcb.AllocKeepsOrder | lib/UdpControlBlock.cpp:13-26 | opens block k with id k, fails iff all blocks are open |
| UdpPcb.BindKeepsUnique | lib/Udp.cpp:66-84 | bind keeps (address, nonzero port) unique |
| UdpPcb.AssignKeepsUnique | lib/Udp.cpp:101-122 | so does an ephemeral port |
| UdpPcb.AtMostTwoMatch | lib/UdpControlBlock.cpp:31-33 | of the blocks that match a destination at most one is a wildcard and at most one is exact |
| UdpPcb.BoundIsSelected | lib/Udp.cpp:72-83 | after a successful bind the lookup returns that block |
| UdpPcb.OwnerIsSelected | lib/UdpControlBlock.cpp:28-39 | the holder of an endpoint is found iff no wildcard block on its port stands before it |
| UdpPcb.LosesTrafficExactly | lib/Udp.cpp:72-83 | another block's claim takes the owner's traffic iff it is a wildcard on the port and stands before it |
| UdpPcb.TrafficCanBeLost | lib/Udp.cpp:101-122 | in a table of a hundred blocks of which two are open, both bind and an ephemeral port do that |
| UdpPcb.EphemeralPortExists | lib/Udp.cpp:109-121 | by pigeonhole one of the first hundred candidates is free |
| UdpPcbManager.Manager.constructor | lib/UdpControlBlock.cpp:4-5 | a hundred distinct free blocks with empty queues |
| UdpPcbManager.Manager.Alloc | lib/UdpControlBlock.cpp:13-26 | opens and returns the first free block, changes no other |
| UdpPcbManager.Manager.Select | lib/UdpControlBlock.cpp:28-39 | returns the first matching block |
| UdpPcbManager.Manager.InterruptAll | lib/UdpControlBlock.cpp:41-50 | sets the flag of exactly the open blocks |
| UdpPcbManager.UdpSocket.Open | lib/Udp.cpp:155-164 | a socket for the allocated block, none iff the table is full |
| UdpPcbManager.UdpSocket.Bind | lib/Udp.cpp:66-84 | succeeds iff nothing matches, and then changes this block's endpoint only |
| UdpPcbManager.UdpSocket.LocalEndpoint | lib/Udp.cpp:92-124 | the endpoint sent from, with a nonzero port |
| UdpPcbManager.UdpSocket.SearchPort | lib/Udp.cpp:110-121 | the loop ends with the first unmatched port, within a hundred candidates |
| UdpPcbManager.UdpSocket.RecvFrom | lib/Udp.cpp:142-152 | -1 and no change when interrupted, else the oldest datagram is copied out and removed |
| UdpThreads.LockMoves | lib/Udp.cpp:32-49 | lock operations are what moves threads between code positions that hold locks |
| UdpThreads.LockOrder | lib/Udp.cpp:92-124 | no thread waits for the manager while holding a block; none waits while holding a block at all |
| UdpThreads.EffectUnderLocks | lib/Udp.cpp:77-83 | states and endpoints change only under the manager mutex, queues only under the block's |
| UdpThreads.StepInv | lib/Udp.cpp:10-164 | every step of every thread keeps locks, justified knowledge, conservation, open order and unique endpoints |
| UdpThreads.RunInv | lib/Udp.cpp:10-164 | hence every reachable state has them |
| UdpThreads.NoDeadlock | lib/Udp.cpp:132-164 | while a thread is awake inside a call some thread can step, and a waiting one is kept by a lock holder |
| UdpThreads.BlockHolderCanStep | lib/Udp.cpp:40-49 | the holder of a block mutex can always step |
| UdpThreads.WritesAreGuarded | lib/Udp.cpp:79-82 | in every reachable state endpoint writes are by the manager's holder, pushes and pops by the block's holder |
| UdpThreads.OthersJustified | lib/Udp.cpp:33-48 | what a thread has found out under a lock is not disturbed by any step of another thread |
| UdpThreads.DeliversToSelected | lib/Udp.cpp:34-48 | under any interleaving the handler gives up the manager for the block that is the selected one at that moment, and pushes to it |
| UdpThreads.FifoConservation | lib/Udp.cpp:43-48 | over any stretch of a run: taken + queued at its end = queued at its start + pushed, in order |
| UdpThreads.AfterInterrupt | lib/Udp.cpp:139-144 | once interrupted, a block stays so and a recvFrom that has not committed to a datagram never gets one |
| UdpThreads.NothingTakenAfterInterrupt | lib/UdpControlBlock.cpp:41-50 | and from then on nothing is consumed |
| UdpThreads.StepFlag | lib/UdpControlBlock.cpp:41-50 | a step raises a flag iff it is an event's write to that block, which is then open |
| UdpThreads.FlagExactly | lib/UdpControlBlock.cpp:41-50 | in every run a block's flag is up iff an event has written it before |
| UdpThreads.RecvReturns | lib/Udp.cpp:139-152 | when a recvFrom has returned it has taken the front of its queue, or its block is interrupted |
| UdpThreads.EventReachesAll | lib/UdpControlBlock.cpp:41-50 | one pass of `interruptAll`, beside any other steps, interrupts every block that was open when it began |
| UdpThreads.ScanEndsWithAllInterrupted | lib/UdpControlBlock.cpp:41-50 | so when its loop has ended, all blocks that were open when it began are interrupted |
| UdpThreads.BindSucceeds | lib/Udp.cpp:81-83 | under any interleaving the write in bind makes the block the one found there |
| UdpThreads.SendAssigns | lib/Udp.cpp:109-121 | under any interleaving sendTo gets a port that nobody held at its address |
| UdpThreads.NoTheft | lib/Udp.cpp:66-122 | through all steps of other threads the owner of (unicast, port) keeps endpoint and traffic while nobody binds 0.0.0.0 and the owner does not rebind |
| UdpThreads.OwnerServedExactly | lib/UdpControlBlock.cpp:28-39 | in every run an owner is served iff no wildcard on its port stands before it |
| UdpCalls.AloneIsAvailable | lib/Udp.cpp:10-164 | a thread that is alone inside a call never waits for a lock |
| UdpCalls.CallAlone | lib/Udp.cpp:10-164 | from every state of the invariant in which all threads are idle, the lock-by-lock steps of a call made alone form a run that ends idle, with the table its code leads to |
| UdpCalls.OpenFinishes | lib/Udp.cpp:155-164 | alone, the steps of open come to one allocation |
| UdpCalls.BindFinishes | lib/Udp.cpp:66-84 | those of bind to its check and claim in one |
| UdpCalls.SendFinishes | lib/Udp.cpp:86-124 | those of sendTo to the assignment of a port |
| UdpCalls.HandleFinishes | lib/Udp.cpp:32-50 | those of the handler to one entry at the end of the selected block's queue, or nothing |
| UdpCalls.RecvFinishes | lib/Udp.cpp:132-153 | those of recvFrom, when it need not sleep, to the removal of the oldest datagram, or nothing on an interrupted block |
| UdpCalls.EventFinishes | lib/Udp.cpp:53-59 | those of the event to setting the flag of exactly the open blocks |
| UdpCalls.FirstDatagramArrives | lib/Udp.cpp:32-164 | from every fresh state: open, bind and one delivery leave that one datagram on a block whose flag is down, and recvFrom returns it |
| UdpCalls.ReceivedAlone | lib/Udp.cpp:132-153 | a recvFrom on an open, uninterrupted block with a datagram takes the oldest and nothing else |
| UdpCalls.InterruptedAlone | lib/Udp.cpp:53-59 | after an event, recvFrom on any socket takes nothing |
| UdpCalls.TrafficIsLost | lib/Udp.cpp:66-122 | runs from a fresh table in which a bound socket is the one found at its address, keeps its endpoint, and is then no longer found, because of another's bind or another's sendTo |
| ArpData.ArpDataFactory | lib/ArpData.h:117-132 | header and zeroed fields for all address lengths |
| ArpData.GetAddress | lib/ArpData.h:108-114 | the loop returns the slice |
| ArpData.FieldsTile | lib/ArpData.h:69-106 | the four fields fill the packet after its header without gap |
| ArpData.SetGet | lib/ArpData.h:69-106 | a setter is read back and disturbs no other field and no header byte |
| ArpData.WritesReadBack | lib/ArpData.h:69-106 | after any list of setter calls every field holds the last value written to it |
| ArpCache.ArpCache.Select | lib/ArpCache.h:19-27 | the first entry for the address |
| ArpCache.ArpCache.Insert | lib/ArpCache.h:29-35 | appends unless the address is present |
| ArpCache.CheckThenAppendIsCreate | lib/ArpCache.h:29-35 | the two lock regions in succession are `create` |
| ArpCache.StepRefines | lib/ArpCache.h:29-35 | each of create's two lock regions is a no-op or one put-if-absent, and no answer changes |
| ArpCache.RunRefines | lib/ArpCache.h:15-36 | with any number of threads the list shows the put-if-absent map of the creates so far |
| ArpCache.SelectIsStable | lib/ArpCache.h:19-27 | an address once returned is returned for ever |
| ArpCache.RunSettled | lib/ArpCache.h:29-35 | in every run without overlap so far keys are unique, and whoever is about to append does not find its address |
| ArpCache.OverlapLeavesDuplicate | lib/ArpCache.h:30-34 | once two creates for one address have both found it missing, every later moment with no create under way has a key twice |
| ArpCache.KeysUniqueExactly | lib/ArpCache.h:29-35 | in every run, whenever no create is under way: keys are unique iff no two creates for one address have overlapped so far |
| ArpCache.SequentialKeysUnique | lib/ArpCache.h:29-35 | in every run in which creates follow one another, keys are unique at every moment |
| ArpCache.OverlapMayDuplicate | lib/ArpCache.h:30-34 | a run from the empty cache that ends with a key twice |
| Arp.BuildPacket | lib/Arp.cpp:25-35 | factory and setters give the packet as RFC 826 lays it out |
| Arp.PacketFields | lib/ArpData.h:27-101 | its fields read back whatever padding follows |
| Arp.Handle | lib/Arp.cpp:44-102 | the exception for each kind of refusal, else the sender is cached and a request is answered |
| Arp.AcceptedExactly | lib/Arp.cpp:44-78 | a packet is accepted iff it is an Ethernet/IPv4 one whose target is this host's address |
| Arp.RefusedExactly | lib/Arp.cpp:44-78 | the exception for every packet, as a condition on its bytes |
| Arp.RequestBytes | lib/Arp.cpp:113-130 | the request byte by byte, to the broadcast address |
| Arp.AnswerExactly | lib/Arp.cpp:24-41 | an accepted packet leaves its sender in the cache and is answered iff it is a request, by a frame given byte by byte, addressed to its sender's hardware address |
| Arp.Resolve | lib/Arp.cpp:104-130 | the cached address, or a request on the wire and an exception |
| ArpNetwork.AskTruthful | lib/Arp.cpp:112-130 | resolving keeps the network truthful |
| ArpNetwork.DeliverTruthful | lib/Arp.cpp:44-102 | so does handling any frame in flight at any host |
| ArpNetwork.RunTruthful | lib/Arp.cpp:24-130 | in every run every frame carries a true sender pair and every cache entry is one |
| ArpNetwork.CachesNeverLie | lib/Arp.cpp:104-107 | in every run a resolved address is its owner's own six-byte MAC |
| ArpNetwork.ExchangeResolves | lib/Arp.cpp:24-130 | after a miss, and with frames taken only to hosts that they are addressed to, request and reply make both sides resolve each other correctly |
| ArpNetwork.ExchangeIsQuiet | lib/Arp.cpp:95-97 | a request gets one reply, a reply gets none |
| ArpNetwork.WhoIsReached | lib/Arp.cpp:24-41 | the request reaches every host, the reply the asker's hardware address alone |
| Dispatch.Dispatcher.Arrive | lib/EtherDevice.cpp:63-77 | queues the body under the frame's type, or drops it |
| Dispatch.Dispatcher.TakeFront | lib/Interrupt.h:111-113 | pops the front and hands it over |
| Dispatch.Dispatcher.DrainQueue | lib/Interrupt.h:110-114 | drains one queue up to its end or the first exception |
| Dispatch.Dispatcher.HandleProtocolSignal | lib/Interrupt.h:103-116 | handled now + left = pending before; without an exception everything is handled and all queues are empty |
| Dispatch.DrainIsFifo | lib/Interrupt.h:106-115 | per type, what is handled followed by what is left is what was queued |
| Dispatch.PendingAscends | lib/Interrupt.h:106-109 | what is pending is drained in ascending order of type |
| Dispatch.DrainedExactly | lib/Interrupt.h:110-114 | a drain goes through iff no handler throws, and else ends with the first item whose handler does |

## Left out

- IpUtils.CalculateChecksum: ranges whose last word reaches past the end of the buffer, where the source reads outside it.
- Host.Host.UdpOutput: data of odd length or beyond the 16-bit length fields, for the same reason and because the source then copies past a truncated buffer.
- Host.Host.UdpHandle: datagrams shorter than their header or of odd length, and those that are queued with a length field too small for their bytes; there the source indexes or copies outside the buffers.
- Host.Host.Ipv4Handle: packets shorter than twenty bytes or whose header words reach past the buffer, accepted ones whose total length does, and passed-on payloads that their handler cannot take; there too the source goes outside the buffers.
- Host.Host.IcmpHandle: messages shorter than their header or of odd length, and answered ones too long for a packet, for the same reasons.
- AddressText.Ipv4strToUint32: a piece without leading digits or above 32 bits leaves an uninitialised value in the source; here it is an error.
- UdpPcbManager.UdpSocket.RecvFrom: starts after the wait; the entry is read before it is popped, and the buffer is taken to be large enough. Waiting is modelled in UdpThreads.dfy.
- UdpPcbManager.UdpSocket.Bind: takes the address as a number; the parse of its text is AddressText.Ipv4strToUint32.
- Arp.Handle: when both length bytes are wrong the source's choice of exception is unspecified; here the hardware length comes first. Truncated packets are required away.
- UdpThreads.NoDeadlock: nothing is said about when a sleeping recvFrom wakes up; the wake-up may be lost because the guards in `interruptAll` are temporaries. Steps are interleaved sequentially, which idealises the unguarded access to the interrupted flag.
- Dispatch.Dispatcher.HandleProtocolSignal: handlers are an arbitrary predicate for throwing; they are not joined to Host.dfy, and the queue mutex, which exists once per translation unit in the source, is not modelled.
- The block's endpoint before it is opened is arbitrary here; the source leaves it uninitialised and never looks at it.
- TAP device, ioctl, signals, barriers, threads' creation, logging and `exec`: input and output.
- `sendIcmp`: builds its checksum like the reply does.
- The route table: its lookup always returns the first route, so the route is a constant of the host.
- MAC text, `info` strings, netmask and broadcast computation: easy or only for display.

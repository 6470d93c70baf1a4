# NetworkEdu: a verified model of the IPv4 stack

NetworkEdu is a small user-space IPv4 stack: Ethernet framing, ARP, IP with fragmentation and
reassembly, ICMP echo, UDP, and the option region of DHCP packets. This project models its core in
Dafny and proves what the stack is for: that bytes handed to one end come out unchanged at the
other, through bounded tables that evict, reuse stale memory and are shared with other threads.

`dafny verify dfyconfig.toml` checks everything.

## How the model is laid out

| file | what it models |
|---|---|
| `Bytes.dfy` | bytes, 16-bit words, `memcpy`, `htons` |
| `Checksum.dfy` | `checksum` and `checksum2` of sock.c against RFC 1071 |
| `Ether.dfy` | frames of ether.c |
| `IpPacket.dfy` | the IP header, written and parsed |
| `Fragments.dfy` | `IpSendLink` |
| `Slots.dfy` | searching a fixed table by key, shared by the three tables |
| `IpTable.dfy` | the sixteen reassembly buffers and `IpRecv` |
| `IpTransport.dfy` | reassembly over whole runs of arrivals |
| `IpEviction.dfy` | which datagrams survive when the table is full |
| `IpRoundTrip.dfy` | from the sender's payload to the receiver's delivery |
| `Wire.dfy` | reassembly stated on the frames that arrive, among any other traffic |
| `IpAsWritten.dfy`, `IpCoverage.dfy` | exactly when the code as it stands delivers what was sent |
| `ArpTable.dfy`, `ArpHistory.dfy`, `Arp.dfy` | the ARP cache, its histories, reception and resolution |
| `UdpPorts.dfy`, `Udp.dfy` | the port table, UDP datagrams |
| `Icmp.dfy` | ICMP echo |
| `Dhcp.dfy` | the DHCP option writer and reader |
| `EndToEnd.dfy` | `EtherRecv`, `IpSend`, UDP and ping across all layers |

Tables are arrays updated in place by the methods of a class; each method's contract equates the new
contents with a function of the old, and the theorems are about runs of those functions. A buffer of
the reassembly table is a sequence inside an array element: C structures are values and are not
shared. Frames that `write` would send are returned. `time(NULL)` and `random()` are parameters.
A region protected by a lock is one step. Where a call gives the lock up and takes it again, what
other threads leave in between is a parameter: one table per poll in `Arp.GetTargetMac`, one per
candidate looked up in `UdpTable.SearchFreePort`, one before the write in `UdpTable.Close`.

What a host puts on the wire or takes from it is also stated by byte position (`Bytes.Num`, the
predicates named `…OnWire`), without the functions that write and read the bytes, so that sender and
receiver are held to the published formats and not only to each other.

Integers are unbounded, so widths are written out: `Checksum.Add32` wraps at 32 bits, ports and
ids are 16-bit words, `Fragments.FragField` cuts the offset to 13 bits.

## Where the code and its intent differ

The source does not compile as it stands. Where a line cannot be compiled (the call of `udpRecv` at
ip.c:242, the argument missing at udp.c:252, `req_ip` at dhcp.c:286, the uninitialised `ptr` at
dhcp.c:207) only the evident intent is modelled. Where a line has a meaning, but not the intended
one, both readings are modelled, the choice is a parameter, and a theorem says exactly when the line
as written does what is meant:

| line | as written | theorem |
|---|---|---|
| ip.c:297 | a fragment with more to follow carries no offset | `IpAsWritten.AsWrittenDeliversIff` |
| ip.c:232 | delivery does not wait for missing fragments | `IpCoverage.LastFragmentDeliversIff` |
| ip.c:276-277 | a chunk of zero bytes for an MTU of 20 to 27 | `Fragments.TerminatesIff` |
| ip.c:112, arp.c:158 | `ULONG_MAX` in a signed `time_t` is -1 | `IpTransport.PlacedIff`, `ArpTable.PlacedIff` |
| arp.c:234 | a deletion clears the mac of entry 0 | `ArpTable.DeleteAsWrittenIff` |
| udp.c:172 | the free port returned is always 65535 | `UdpPorts.AnyPortAsWrittenIff` |
| udp.c:192-199 | the lock is given up between the choice of a port and its add | `UdpPorts.SocketDuringIff` |
| udp.c:213-222 | the lock is given up between search and write | `UdpPorts.CloseInTwoStepsIff` |
| udp.c:213, udp.c:318 | port 0 is taken for a port where it marks a free slot | `UdpPorts.CloseCloses`, `Udp.PortZeroAcceptedIff` |
| sock.c:78-89 | an odd first length exchanges the bytes at the seam | `Checksum.Checksum2IsConcatenationIff` |
| dhcp.c:232-234 | length and value of an option are read beyond the packet | `Dhcp.CutShortIff` |
| dhcp.c:185 | the tag of an option is not stored | `Dhcp.SetOptionAsWrittenIff`, `Dhcp.DiscoverAsWrittenUnreadable` |
| dhcp.c:283 | `htons` of a 32-bit lease time | `Dhcp.LeaseOnWireIff` |

The main theorems on reassembly take the value `oldestTime` starts from as a parameter, so they hold
of the code as written wherever they do not need an eviction.

## Model

| member | source | states |
|---|---|---|
| Checksum.Checksum | NetworkEdu/sock.c:22-58 | for every buffer, odd lengths included, the result is the complement of the one's complement sum of RFC 1071, although carries are deferred |
| Checksum.Checksum2 | NetworkEdu/sock.c:60-125 | the two-buffer form sums the buffers joined as the code joins them; the fold on bit 27 and the different fold points do no harm |
| Checksum.AccumulatorNeverWraps | NetworkEdu/sock.c:31-50 | no addition of the loop carries out of the 32-bit accumulator, for data of any length |
| Checksum.AccumulateWordsKeepsNorm | NetworkEdu/sock.c:31-41 | the loop moves the exact word sum into the accumulator, modulo 65535 and keeping zero apart |
| Checksum.FoldAndComplement | NetworkEdu/sock.c:52-56 | the final fold loop ends and leaves the complement of the representative in 1..65535 (zero only for zero) |
| Checksum.OnesSumIsNorm | NetworkEdu/sock.c:28-56 | the end-around-carry sum is the exact sum modulo 65535, and zero only for all-zero data |
| Checksum.Checksum2IsConcatenationIff | NetworkEdu/sock.c:78-95 | the two-buffer checksum is that of the concatenation exactly for an even first length or equal bytes at the seam |
| Checksum.AcceptedIff | NetworkEdu/ip.c:222 | a receiver accepts a message exactly when its word sum is divisible by 65535 |
| Checksum.FilledMessagePasses | NetworkEdu/icmp.c:98-104 | the checksum stored over a zero field at an even position makes the whole message pass |
| Checksum.OneWordErrorDetected | NetworkEdu/ip.c:216-225 | changing one word of an accepted message is detected except between 0x0000 and 0xFFFF |
| Checksum.OddByteErrorDetected | NetworkEdu/sock.c:43-50 | a changed odd last byte is always detected |
| Checksum.ByteOrderIndependent | NetworkEdu/ip.c:307-308 | the two bytes stored are the same on machines of either byte order |
| Checksum.AcceptedOnWire | NetworkEdu/ip.c:222 | the little-endian host accepts exactly what is divisible by 65535 as the words stand on the wire |
| Checksum.StoredOnWire | NetworkEdu/ip.c:307-308 | the field stored completes the word sum on the wire to a multiple of 65535, and is all ones only for all-zero data |
| Ether.EtherSend | NetworkEdu/ether.c:163-198 | refuses exactly data over 1500 bytes, otherwise writes header, data and zero padding to 60 bytes |
| Ether.FrameReceived | NetworkEdu/ether.c:200-222 | a frame has 60 to 1514 bytes and gives its data, followed by zeros only, to exactly the hosts it is addressed to |
| Ether.FrameBytes | NetworkEdu/ether.c:163-198 | a frame by position: addresses, type, data, zeros up to 60 bytes |
| Ether.DispatchByPosition | NetworkEdu/ether.c:200-222 | for any frame, which upcall it gets, by destination and type at their byte positions |
| IpPacket.SentPacketParses | NetworkEdu/ip.c:284-312 | a packet with its checksum filled in passes the receiver's test and is parsed to its own fields and body, whatever padding follows |
| IpPacket.HeaderOnWire | NetworkEdu/ip.c:286-308 | every field of the header sent at its position, TTL and protocol included, and a sum divisible by 65535 |
| IpPacket.PacketParses | NetworkEdu/ip.c:199-230 | for a packet of any sender, with options or without: rejected exactly when the word sum of header and options is not divisible by 65535, otherwise the payload is what lies behind the options and every field is read at its position |
| Fragments.IpSendLink | NetworkEdu/ip.c:254-325 | refuses exactly an over-long payload that must not be fragmented, otherwise sends the frames of the fragments in order, each stated byte by byte: addresses, lengths, id, flags, offset, TTL, protocol, sum, payload, padding |
| Fragments.CutShape | NetworkEdu/ip.c:274-320 | the fragments partition the payload contiguously; all but the last are whole chunks, a positive multiple of 8 bytes; all fit the MTU |
| Fragments.OffsetsFit | NetworkEdu/ip.c:292-301 | only the last fragment ends the payload, and every offset is a multiple of 8 that fits 13 bits for payloads up to 65536 bytes |
| Fragments.ChunkIsLargest | NetworkEdu/ip.c:276-278 | a fragment with more to follow carries the largest multiple of 8 bytes that fits the MTU |
| Fragments.TerminatesIff | NetworkEdu/ip.c:274-321 | the sending loop ends exactly when the MTU is at least 28 or no fragmentation is needed |
| Fragments.SendableIffTerminates | NetworkEdu/ip.c:274-321 | what the sender demands of its caller is exactly that the loop ends |
| Fragments.FragmentPerRound | NetworkEdu/ip.c:274-321 | the loop sends one fragment a round and ends after exactly as many rounds as there are fragments |
| IpTable.IpRecvTable.Init | NetworkEdu/ip.c:93-103 | frees every slot and touches nothing else |
| IpTable.IpRecvTable.Add | NetworkEdu/ip.c:106-149 | the slot and the table are those of the id if present, else the last free slot, else the first oldest one |
| IpTable.IpRecvTable.Del | NetworkEdu/ip.c:152-165 | frees the first slot of the id, reporting whether there was one |
| IpTable.IpRecvTable.Search | NetworkEdu/ip.c:168-180 | 1 exactly when some slot holds the id |
| IpTable.IpRecvTable.IpRecv | NetworkEdu/ip.c:183-251 | short packets and those whose header and options do not sum to a multiple of 65535 leave the table alone; others change it and deliver as Receive says, the payload being what lies behind the options |
| IpTransport.AddKeepsOthers | NetworkEdu/ip.c:106-149 | an id gets one slot; all other slots are untouched unless the table is full, and then a slot of least creation time goes |
| IpTransport.DeleteRemoves | NetworkEdu/ip.c:152-165 | one deletion removes an id completely and changes no other slot |
| IpTransport.ReceiveKeepsUnique | NetworkEdu/ip.c:227-247 | receiving any piece leaves every id in at most one slot and every slot but one untouched |
| IpTransport.UpOnlyTo | NetworkEdu/ip.c:230-247 | something goes up exactly with a last piece of ICMP or UDP: its protocol and addresses and the buffer up to its end; every last piece frees its slot |
| IpTransport.PlacedIff | NetworkEdu/ip.c:111-141 | with the sentinel as written a slot is found exactly when the id is present or a slot is free; with one above all timestamps always |
| IpTransport.StepTracks | NetworkEdu/ip.c:227-247 | one arrival keeps every buffer in agreement with its datagram and hands up exactly what it should |
| IpTransport.RunDelivers | NetworkEdu/ip.c:227-247 | over any run, with any other traffic, any order and repeats and any stale bytes, each arrival of a piece hands up nothing, except the last piece of a datagram, which hands up exactly its payload |
| IpTransport.InterleavedDatagrams | NetworkEdu/ip.c:93-165 | from an empty table any interleaving with at most sixteen open datagrams reassembles all of them, and the slots in use are those still open |
| IpEviction.SurvivesEviction | NetworkEdu/ip.c:106-149 | with the sentinel above all timestamps, a datagram opened later than everything in the table is delivered exactly by its last piece, among any other packets, while fewer than sixteen of these take a slot after it |
| IpEviction.SparedToLastPiece | NetworkEdu/ip.c:106-149 | a datagram under way meets no eviction up to its last piece while the slots no older than its own and the slots taken since are fewer than sixteen |
| IpEviction.SurvivesCrowdIff | NetworkEdu/ip.c:111-141 | sixteen is exact: among later pieces of other unfinished datagrams it keeps its slot precisely while rivals and takings stay below sixteen |
| IpRoundTrip.FrameReceivedAs | NetworkEdu/ip.c:284-314 | a fragment framed, padded, unframed and parsed is what its header says |
| IpRoundTrip.FrameFits | NetworkEdu/ip.c:276-314 | no fragment is refused by the framing: its packet fits the MTU and its frame has 60 to 1514 bytes |
| IpRoundTrip.ReceivedOnWire | NetworkEdu/ip.c:192-230 | what is received of a frame of any sender, by byte position, options and short header lengths included |
| IpRoundTrip.RoundTrip | NetworkEdu/ip.c:227-321 | the frames of one call, in any order with the last one last and repeats allowed, deliver exactly the payload and free the slot, whatever the buffer held |
| Wire.TrafficDelivers | NetworkEdu/ip.c:183-251 | among frames for other hosts, other protocols, damaged packets and other datagrams, each frame with a piece of a followed datagram hands up nothing, except its last, which hands up exactly the payload |
| Wire.OrderlyTrafficIff | NetworkEdu/ip.c:183-251 | frames are orderly traffic exactly when the run of the events they stand for is orderly |
| Wire.Unseen | NetworkEdu/ether.c:200-222 | frames for other hosts, of other types or too short reach no buffer |
| Wire.FeedIsRun | NetworkEdu/ether.c:200-222 | receiving frames one by one changes the table and hands up data exactly as the run of the events they stand for |
| Wire.FramesDeliver | NetworkEdu/ip.c:254-325 | the frames that IpSendLink sends, read in any order with repeats and the last one last, hand up exactly the payload at the end and free the slot |
| IpAsWritten.WrittenFragmentArrives | NetworkEdu/ip.c:294-301 | as written every fragment but the last arrives as a piece at offset 0 |
| IpAsWritten.AsWrittenDeliversIff | NetworkEdu/ip.c:296-301 | as written the payload is delivered whatever the buffers held exactly when it needs at most two fragments |
| IpCoverage.LastFragmentDeliversIff | NetworkEdu/ip.c:232-247 | delivery at the last fragment is right for all buffer contents exactly when all other fragments have come |
| ArpTable.ArpCache.Add | NetworkEdu/arp.c:150-217 | the entry and the table are those of the address if live, else the first free entry, else the first oldest one |
| ArpTable.ArpCache.Del | NetworkEdu/arp.c:220-251 | the table after the deletion, in either reading, and whether the address was found |
| ArpTable.ArpCache.Search | NetworkEdu/arp.c:254-283 | answers as the table does, leaving the caller's mac alone when nothing is found |
| ArpTable.PlaceChosen | NetworkEdu/arp.c:161-206 | the entry used: that of the address, else the first free one, else the first oldest one |
| ArpTable.LookupAfterAdd | NetworkEdu/arp.c:161-211 | adding changes the answer for the added and the displaced address only; a zero mac removes |
| ArpTable.DeleteFoundRemoves | NetworkEdu/arp.c:226-244 | as meant a deletion removes exactly one address from the map |
| ArpTable.DeleteAsWrittenIff | NetworkEdu/arp.c:234-236 | exactly when clearing the mac of entry 0 still leaves a sound table without the address |
| ArpTable.PlacedIff | NetworkEdu/arp.c:157-206 | with the sentinel as written an entry is found exactly when the address is live or an entry is free |
| ArpHistory.RunSound | NetworkEdu/arp.c:150-283 | over every run no two live entries share an address and every live pair is the latest accepted one since its deletion |
| ArpHistory.RunExact | NetworkEdu/arp.c:150-283 | while no address is learned on top of sixteen others every search answers as an unbounded cache would |
| ArpHistory.LeastRecentlyRefreshedEvicted | NetworkEdu/arp.c:157-211 | after any run of additions at times that never go back each live entry is the latest of its address, and an address is missing only from a full table in which no live entry was last refreshed before it; without ties the live ones are exactly the sixteen most recently refreshed |
| Arp.ArpSend | NetworkEdu/arp.c:356-384 | the frame of the packet with the given fields, every field at its position |
| Arp.ArpRecv | NetworkEdu/arp.c:443-503 | learns the sender exactly of requests for this host and replies to it or to 0.0.0.0, and answers exactly the requests, by the bytes of the packet; any other packet changes and sends nothing |
| Arp.Overheard | NetworkEdu/arp.c:453-499 | requests for others, replies to others and other operations are not accepted, whoever sends them |
| Arp.Exchange | NetworkEdu/arp.c:387-503 | request and reply cross the wire and are accepted with the sender's pair, and the reply reaches the asker alone |
| Arp.ExchangeTeaches | NetworkEdu/arp.c:387-503 | after an exchange each cache answers for the other host, so the asker's next poll succeeds |
| Arp.GetTargetMac | NetworkEdu/arp.c:314-353 | against any interference at most four requests, all for the destination when it agrees with this host in every bit of the mask (its network number, for a mask of leading ones) and for the gateway otherwise; success exactly when one of four polls sees that host, with the mac live at the first such poll |
| Arp.NextHopByBits | NetworkEdu/param.c:148-157 | for any mask the next hop is the destination exactly when it agrees with this host in every bit of the mask |
| Arp.NextHopByNetwork | NetworkEdu/arp.c:319-327 | for a mask of leading ones the network number decides between the destination and the gateway |
| UdpPorts.UdpTable.Add | NetworkEdu/udp.c:82-120 | takes the first free slot, and fails exactly when the port is there or none is free |
| UdpPorts.UdpTable.Search | NetworkEdu/udp.c:123-143 | the first slot of the port or -1 |
| UdpPorts.UdpTable.SearchFreePort | NetworkEdu/udp.c:165-178 | the first candidate that is closed at the moment it is looked up, other threads acting between the looks, in either reading of what is returned |
| UdpPorts.UdpTable.Socket | NetworkEdu/udp.c:181-206 | result and table of opening a port, other threads acting whenever the lock is not held |
| UdpPorts.UdpTable.Close | NetworkEdu/udp.c:209-227 | result and table of closing a port, other threads acting between the search and the write |
| UdpPorts.AlwaysAFreePort | NetworkEdu/udp.c:165-178 | undisturbed, the least unused port is found among the first seventeen candidates, so 0 is never returned |
| UdpPorts.PickedWasClosed | NetworkEdu/udp.c:165-178 | under any interference the port picked was closed when it was looked up, and none is picked only if every candidate was open when it was looked up |
| UdpPorts.AddInserts | NetworkEdu/udp.c:82-120 | one locked add inserts into a set of at most sixteen and fails exactly for an open port or a full set |
| UdpPorts.SocketDuringIff | NetworkEdu/udp.c:181-206 | whatever other threads do, opening succeeds exactly when the port asked for in the end is closed and the set not full at the moment of the add, and inserts that port alone |
| UdpPorts.SocketOpens | NetworkEdu/udp.c:181-206 | undisturbed, opening inserts into a set of at most sixteen and fails exactly for the DHCP client port, an open port or a full set; port 0 fails for a full set only |
| UdpPorts.CloseCloses | NetworkEdu/udp.c:209-227 | undisturbed, closing removes from the set and fails exactly for a closed port; closing port 0 changes nothing and succeeds exactly when the set is not full |
| UdpPorts.CloseUndoesOpen | NetworkEdu/udp.c:181-227 | closing the port opened, or the one chosen for port 0, gives back the same open ports |
| UdpPorts.AnyPortAsWrittenIff | NetworkEdu/udp.c:171-173 | as written opening port 0 succeeds exactly when 65535 is closed and the set not full, never twice in a row |
| UdpPorts.PortsStayDistinct | NetworkEdu/udp.c:82-227 | after any interleaving of locked adds and locked writes of any number of threads the nonzero ports are pairwise distinct 16-bit numbers |
| UdpPorts.CloseInTwoStepsIff | NetworkEdu/udp.c:213-223 | closing with the lock given up in between closes that port alone exactly when the slot still holds it, or is free while the port is closed |
| Udp.UdpChecksum | NetworkEdu/udp.c:58-79 | the value stored is not zero and completes the words of both addresses, protocol, length and data to a multiple of 65535 |
| Udp.UdpAcceptedIff | NetworkEdu/udp.c:302-309 | data are accepted exactly when the words of both addresses, protocol, length and data sum to a multiple of 65535 |
| Udp.BuildDatagram | NetworkEdu/udp.c:237-248 | the datagram built in place: ports, length, a checksum that is not zero and completes the sum, payload, each at its position |
| Udp.UdpSendLink | NetworkEdu/udp.c:230-259 | the frames of the datagram's fragments byte by byte, and 0 whatever became of them |
| Udp.UdpRecv | NetworkEdu/udp.c:293-332 | rejects exactly when the words of both addresses, protocol, length and data do not sum to a multiple of 65535; otherwise DHCP, an open port or port unreachable, by the destination port at bytes 2 and 3, even if that is read behind a short datagram |
| Udp.DatagramAccepted | NetworkEdu/udp.c:300-328 | every datagram built is accepted with its ports and payload, since both sides sum the same pseudo-header |
| Udp.PortZeroAcceptedIff | NetworkEdu/udp.c:318 | a datagram for port 0 is handed up exactly when some slot of the port table is free |
| Icmp.EchoRequest | NetworkEdu/icmp.c:119-142 | an echo message by position: type, identifier, sequence number, the bytes counting up from 0, a sum divisible by 65535; the header alone for small sizes |
| Icmp.IcmpRecv | NetworkEdu/icmp.c:175-218 | rejects exactly a word sum not divisible by 65535, drops messages for other hosts and other types, answers exactly echo requests for this host, to their source and with their own bytes, and checks replies |
| Icmp.EchoMirrored | NetworkEdu/icmp.c:82-116 | an echo request is answered with the same identifier, sequence number and payload, and the answer is recognised by the asker |
| Dhcp.SetOption | NetworkEdu/dhcp.c:183-198 | the bytes written by position and the position after them, in either reading, values cut to 255 bytes, nothing else changed |
| Dhcp.GetOption | NetworkEdu/dhcp.c:201-244 | -1 exactly for a wrong cookie; otherwise the value found is copied out, read beyond the packet if need be, and the caller's buffer is untouched when there is none |
| Dhcp.ScanFollowsItems | NetworkEdu/dhcp.c:217-241 | over a region made of options, whatever follows it, the scan steps from option to option and never takes value bytes for tags |
| Dhcp.OptionRoundTrip | NetworkEdu/dhcp.c:183-244 | a written region is read back: the first matching value or nothing, whatever memory follows |
| Dhcp.CutShortIff | NetworkEdu/dhcp.c:217-241 | the answer on a packet that ends inside an option is determined by the packet exactly when that option is not the one looked for or a whole one precedes it |
| Dhcp.MakeDhcpRequest | NetworkEdu/dhcp.c:276-300 | the options region built in place, byte by byte: magic cookie, type, lease, addresses when given, parameters, end |
| Dhcp.RequestReadBack | NetworkEdu/dhcp.c:276-300 | every option of a request is read back as asked for, other tags are not found |
| Dhcp.SetOptionAsWrittenIff | NetworkEdu/dhcp.c:185 | as written an option comes out as meant exactly when its tag is in memory already |
| Dhcp.DiscoverAsWrittenUnreadable | NetworkEdu/dhcp.c:185-196 | for every configured lease and whatever follows in memory, the DISCOVER as written gives no message type, or an empty one when the lease reads as 53; as meant it gives its own |
| Dhcp.LeaseOnWireIff | NetworkEdu/dhcp.c:283-284 | the lease time on the wire is the requested one only for zero |
| EndToEnd.EtherRecv | NetworkEdu/ether.c:200-222 | a frame changes at most one table: the ARP table by the pair it teaches, the reassembly table by the piece it carries |
| EndToEnd.LearnsByPosition | NetworkEdu/arp.c:443-503 | for any frame, whether a pair is learned from it and which, by the bytes of the frame |
| EndToEnd.IpSend | NetworkEdu/ip.c:327-349 | asks for the next hop, sends to the mac seen at a poll of it, and nothing when none is seen |
| EndToEnd.UdpEndToEnd | NetworkEdu/udp.c:230-332 | the frames of a datagram, read in any order with the last fragment last, make the receiver hand up one datagram, which is accepted with the same ports and payload |
| EndToEnd.UdpAmongTraffic | NetworkEdu/udp.c:293-332 | the same wherever the last piece of a UDP datagram arrives in any orderly traffic |
| EndToEnd.PingEndToEnd | NetworkEdu/icmp.c:82-218 | the frames of an echo request make the host answer with the same identifier, sequence number and payload, and the frames of the answer give the asker back its identifier and sequence number |

## Left out

- Raw sockets, `ioctl`, polling, threads, signals and sleeping (main.c, the rest of sock.c): operating-system calls.
- Console output: the `print_` functions, `ArpShowTable`, `UdpShowTable`; and the command parser cmd.c.
- `my_ether_ntoa_r`, `my_ether_aton` and the configuration file: text conversion through `strtok_r` and `strtol`.
- Frames that do not contain the bytes their headers announce, and pieces that reach beyond the 64 KiB buffer: preconditions (`IpPacket.WellFramed`, `EndToEnd.WholePacket`); the source reads or writes outside its memory there.
- An MTU below the 20 bytes of the header: the source's unsigned subtraction wraps around.
- The refusal of IP options of 1500 bytes or more at ip.c:206: a 4-bit header length cannot announce them.
- An ICMP echo request shorter than its 8-byte header: the source copies a negative number of bytes into the reply (`Icmp.Answerable`).
- A DHCP packet in the last 256 bytes of readable memory: `Dhcp.GetOption` assumes that what the source reads behind a packet can be read.
- A store to index -1 when no slot is found: a precondition of the two Add methods; `PlacedIff` says when it happens.
- Big-endian hosts in `checksum2` with an odd first length and in the DHCP lease time: the bytes there depend on the host, taken to be little-endian.
- `PingCheckReply` timing, ICMP destination unreachable, and the fixed DHCP header, whose layout depends on compiler padding.
- `DhcpRecv` and `DhcpCheck`: they have no body in the repository.

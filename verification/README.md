# A verified model of the client and server: checksum, datagrams, frames and plot data

This Dafny project models the algorithmic parts of the C++ client and server and proves what they promise.
`dafny verify dfyconfig.toml` checks everything. Four parts of the system are covered.

**Checksum.** `Crc::CalcCrc` computes a CRC-16 in two ways, one bit at a time and one byte at a time from a table,
and `crc.py` computes it once more from any initial register. `Gf2` gives polynomials over GF(2) as finite sets of
exponents, `CrcRegister` the register as such a polynomial, `CrcWord` ties 16-bit words to it, and `CrcEngine` holds
the three loops. The register is the remainder of the division in section 2 of ITU-T Recommendation V.41
(`CrcRemainder`), an error goes unnoticed exactly when the generator divides it, the table file is right in all of its
256 entries (`CrcTable`), and the checksum finds bursts, odd numbers of errors and double errors (`CrcDetection`,
`CrcOrder`). The order of x modulo the generator, 32767, decides which double errors go unnoticed.

**Datagrams.** `Fragments` is the loop of `broadCast` and `sendData` with its 16-bit and 32-bit fields, `Reassembly`
the image case of both receivers as a state machine, `LostFirst` what it does with a message whose first packet is
lost, `Datagrams` what the receive buffers make of the packets, `MessageDatagrams` follows the test message from its
codec to the receiver's parse, and `UdpRelay` is the server with its registry and the client connection as classes
over that state machine. The chunk size C and the receive buffer R are parameters. The shipped values are C = R =
1472, while a full packet has 1472 + 17 bytes and the receivers parse their whole buffer whatever has arrived. With
those values the transfer does not work in general: `Datagrams.ShippedExactly` says exactly when a message comes
across, `Datagrams.OneByteLost` and `Datagrams.FullChunkBlanked` are two that do not, and `UdpRelay.RelayWhole`
carries the result over both hops.

**Frames and messages.** `Framing` is a size prefix and a body, read in two phases from a stream that arrives in
pieces of any size; `TcpSession` is the read loop, `Packet` and `Messages` are the codecs with their wrapping 32-bit
offsets, and `TcpManager` keeps the two client registries in step.

**Plot data.** `DataModel` is the sorted list of points, and the bag of them, that a container stands for.
`DataContainer` is `QCPDataContainer`: a vector sorted by key with a gap at its front, lazy deletion into the gap,
four ways of inserting, and squeezing. `SortedData` has the standard algorithms it calls, `DataQueries` the meaning of
its queries and their loops. `DataSelection` is `QCPDataSelection`, a set of indices as a list of ranges, and
`Plottable` the rectangular selection, the data segments and the two ways of drawing a line.

Conventions. Bytes of the checksum are bit-vectors, bytes of packets are integers below 256. Keys and finite values
are reals, a value that is not a key may also be NaN or infinite. Reading past the memory behind a pointer, or
copying outside a buffer, is undefined in the source; the models answer `None`, `OutOfBounds` or `Failed` there, and the
methods of the classes require that it does not happen. Headers and FirstData's port are little-endian, as on the hosts
the program is built for.

Where code and documentation disagree the code is modelled: `removeBefore` and `removeAfter` are documented to remove
points at the key itself (qcustomplot.h, lines 2959 and 2974), but those points stay. The two agree exactly when no
point has the key itself (`DataModel.RemovedAsDocumented`), and `DataModel.KeyItselfStays` is a container of one
point for which they do not. A second defect is in `operator-=`: a selection subtracted from itself is not empty
unless its first non-empty range holds all of it (`DataSelection.SelfSubtractedExactly`), and
`DataSelection.SelfSubtractedFails` is a selection of two indices that keeps one.

## Model

| member | source | states |
|---|---|---|
| CrcRemainder.CrcIsRemainder | Server/source/crc.cpp:18-33 | a register is the func-mode checksum of a byte string if and only if it is the remainder of M(x) * x^16 by x^16 + x^12 + x^5 + 1 |
| CrcRemainder.SeededCrcIsRemainder | Server/crc.py:2-13 | the same for any initial register: the remainder of init * x^(8n) + M(x) * x^16 |
| CrcRemainder.BitCrcDivides | Server/source/crc.cpp:21-29 | the bit loop divides: some quotient and the final register account for the dividend |
| CrcRemainder.UndetectedExactly | Server/source/crc.cpp:20-30 | two messages of one length have the same checksum, from any register, if and only if the generator divides the difference of their polynomials times x^16 |
| Gf2.DivisionUnique | Server/source/crc.cpp:20-28 | quotient and remainder of a division by the generator are unique |
| Gf2.DivisionExists | Server/source/crc.cpp:20-28 | every polynomial has a quotient and a remainder of degree below 16 |
| CrcRegister.ShiftNLinear | Server/source/crc.cpp:23-28 | n shifts of a sum are the sum of the shifts |
| CrcRegister.ShiftInjective | Server/source/crc.cpp:23-28 | different 16-bit registers stay different under a shift |
| CrcRegister.BitCrcWindow | Server/source/crc.cpp:22-29 | feeding up to 16 bits one by one equals adding them at the top and shifting that often |
| CrcRegister.CrcIsBitCrc | Server/source/crc.cpp:21-30 | the byte loop is the bit loop over the message bits, highest bit first |
| CrcWord.LoadShift | Server/source/crc.cpp:24-28 | one shift of a 16-bit word is one division step of its polynomial |
| CrcWord.LoadInjective | Server/source/crc.cpp:28 | a 16-bit word is determined by its polynomial |
| CrcWord.LoadHighBits | Server/source/crc.cpp:24-28 | bits 15 to 8 of a word are the coefficients of x^15 to x^8 |
| CrcWord.LoadLowBits | Server/source/crc.cpp:24-28 | bits 7 to 0 are the coefficients of x^7 to 1 |
| CrcRegister.BitsOfByte | Server/source/crc.cpp:22-24 | the bits of a byte are taken from bit 7 down |
| CrcEngine.BitwiseCrc | Server/source/crc.cpp:20-31 | the nested loops on ints leave a 16-bit value that holds the register of the message |
| CrcEngine.LookupCrc | Server/source/crc.cpp:59-65 | the table loop computes the fold of table steps |
| CrcEngine.CalcCrc | Server/source/crc.cpp:10-70 | both modes with the shipped table hold the checksum; a table of fewer than 256 lines is refused with its size |
| CrcEngine.CrcCcitt | Server/crc.py:2-13 | the Python loops hold the checksum started from the low 16 bits of any int init, which only an empty message returns as it is |
| CrcEngine.TableStepIsByteStep | Server/source/crc.cpp:60-63 | with the right entry one lookup does the work of eight shifts |
| CrcEngine.TableModeRefinesFuncMode | Server/source/crc.cpp:18-67 | table mode agrees with func mode on every byte string if and only if each of the first 256 entries is the register eight steps after its byte |
| CrcEngine.CrcDatIsRight | Server/crc.dat:1-256 | the low 16 bits of line k + 1 are the register after eight steps from k << 8, for all 256 lines |
| CrcDetection.CrcChains | Server/crc.py:2-13 | crc(a + b, init) = crc(b, crc(a, init)) |
| CrcDetection.AppendedChecksum | Server/crc.py:16-19 | two appended bytes bring the checksum to 0 if and only if they are the checksum, high byte first |
| CrcDetection.SelfCheck | Server/crc.py:16-19 | appending a checksum's own high and low byte gives 0 |
| CrcExample.Example | Server/source/main.cpp:11-12 | the checksum of A590006C00000000000004000000 is 38F6, and with 38 F6 appended it is 0 |
| CrcDetection.BurstErrorDetected | Server/source/crc.cpp:21-29 | messages of one length that differ only inside a window of at most 16 bits, anywhere, have different checksums |
| CrcDetection.CrcParity | Server/source/crc.cpp:20-30 | the checksum has the bit parity of the message |
| CrcDetection.OddErrorDetected | Server/source/crc.cpp:20-30 | any odd number of flipped bits changes the checksum |
| CrcOrder.OrderOfX | Server/source/crc.cpp:24-28 | n shifts bring the register 1 back to 1 if and only if 32767 divides n |
| CrcOrder.TwoBitErrorDetected | Server/source/crc.cpp:20-30 | two flipped bits leave the checksum unchanged if and only if their distance is a multiple of 32767 |
| Fragments.CountExactly | Server/source/AsioUdpServer.cpp:95-97 | for every 32-bit size the packet count is the rounded-up quotient, unless the 32-bit sum wraps, and then it is 0; at most 65535 exactly up to 65535 * C bytes |
| Fragments.FragmentsPartition | Server/source/AsioUdpServer.cpp:94-113 | up to 65535 * C bytes the payloads concatenate to the message, each has 1 to C bytes, and every number, size, count and flag is exact |
| Fragments.FragmentFields | Server/source/AsioUdpServer.cpp:61-113 | the header fields of every packet of any message, modulo the width of their fields |
| Fragments.FragmentsOfPrefix | Server/source/AsioUdpServer.cpp:94-95 | a longer string is sent as if cut to its low 32 bits of size |
| Fragments.SendFragments | Client/source/connection.cpp:93-119 | the loop hands exactly the encoded fragments to the socket, in order |
| Reassembly.RunAppend | Server/source/AsioUdpServer.cpp:161-181 | a run over two batches is the run over the second from where the first ends |
| Reassembly.StepBytes | Server/source/AsioUdpServer.cpp:164-179 | for any packet: the offset modulo 2^32, when the copy leaves the buffer, every byte of the buffer after it, and what a flag does, of which only the value 1 counts |
| Reassembly.StepPatch | Server/source/AsioUdpServer.cpp:161-181 | packet k adds exactly chunk k to what the buffer holds, a first packet starts afresh, and a last packet hands the buffer on |
| Reassembly.RunComplete | Server/source/AsioUdpServer.cpp:161-181 | first packet first, last packet last and any middle packets between: one image with the chunks that arrived and zeros for the others |
| Reassembly.PatchChunks | Server/source/AsioUdpServer.cpp:164-170 | byte by byte, a chunk that arrived is there and an absent chunk is zero in its own range only |
| Reassembly.OrderIndependent | Server/source/AsioUdpServer.cpp:161-181 | any permutation of the middle packets with any duplicates hands on exactly the original |
| Reassembly.LossyRun | Server/source/AsioUdpServer.cpp:162-178 | over runs of many messages with non-first packets lost, the images are in order those of the messages whose last packet arrived |
| Reassembly.ExpectedBytes | Server/source/AsioUdpServer.cpp:164-178 | each such image has its declared length, its own bytes where chunks arrived and zeros elsewhere, so nothing of an abandoned message |
| Reassembly.InOrder | Server/source/AsioUdpServer.cpp:161-181 | 1 to 65535 * C bytes are reassembled from their packets from any earlier state |
| Reassembly.LastPacketFlushes | Server/source/AsioUdpServer.cpp:171-178 | nothing is handed on before the last packet, and the whole message with it |
| Reassembly.TooLong | Server/source/AsioUdpServer.cpp:164-170 | from packet 65536 on the 16-bit number wraps to 0 and the copy leaves the buffer |
| Reassembly.RoundTripExactly | Server/source/AsioUdpServer.cpp:94-181 | a message comes through, and nothing else with it, if and only if it has 1 to 65535 * C bytes |
| Datagrams.TransferExactly | Client/source/connection.cpp:93-119 | with C + 17 <= R and exact payloads the datagrams bring the message to the other side if and only if it has 1 to 65535 * C bytes |
| Datagrams.ReceiveChecks | Server/source/AsioUdpServer.cpp:124-182 | by the bytes of the buffer: a hash other than 1337 or a type above 1 changes nothing and hands nothing on, type 0 is read as a text, type 1 is assembled |
| Datagrams.ForeignHarmless | Server/source/AsioUdpServer.cpp:149-182 | datagrams of another hash or type, wherever they come in between, change neither the images nor the buffer |
| Datagrams.FillBytes | Server/source/AsioUdpServer.cpp:22-29 | a datagram overwrites the beginning of the receive buffer; what was there before stays behind it |
| Datagrams.OverrunLost | Server/source/AsioUdpServer.cpp:22-29 | parsing the whole buffer, a last chunk shorter than the parsed payload, or packet 65536, is copied out of bounds |
| Datagrams.WholeBuffer | Server/source/AsioUdpServer.cpp:147-170 | for any R = K + 17, the run is defined if and only if there are at most 65535 chunks and the last one has at least K bytes; then one image is handed on, with the first K bytes of each chunk and 0 elsewhere |
| Datagrams.ShippedConstants | Server/include/ClientSession.h:13-14 | for the shipped 1472 and 1472: in bounds if and only if the last chunk has at least 1455 bytes, and then offset j is kept if j mod 1472 < 1455 and 0 otherwise |
| Datagrams.ShippedExactly | Server/include/ClientSession.h:13-14 | with the shipped values a message comes across if and only if its last chunk has at least 1455 bytes and its bytes at offsets with j mod 1472 >= 1455 are 0 already |
| Datagrams.OneByteLost | Server/include/ClientSession.h:13-14 | a message of one byte is copied out of bounds |
| Datagrams.FullChunkBlanked | Server/include/ClientSession.h:13-14 | 1472 sevens come out with a 0 at the end |
| LostFirst.FirstLost | Server/source/AsioUdpServer.cpp:161-181 | without its first packet a message is copied over whatever the buffer holds: the run is defined if and only if all chunks that arrive end inside that buffer, and then the mixture is handed on |
| LostFirst.FirstLostIdle | Server/source/AsioUdpServer.cpp:164-180 | between messages the buffer is empty, so that such a message is always copied out of bounds |
| LostFirst.FirstLostExactly | Server/source/AsioUdpServer.cpp:161-181 | such a message comes out right if and only if the buffer has its length and agrees with it outside the chunks that arrive |
| LostFirst.AbandonedThenHeadless | Server/source/AsioUdpServer.cpp:161-181 | after an abandoned message the image has the abandoned one's length and bytes of both |
| LostFirst.Mixture | Server/source/AsioUdpServer.cpp:161-181 | 1 2 3 abandoned after one byte, then 4 5 6 without its first: 1 5 6 is handed on |
| LostFirst.AnyLost | Server/source/AsioUdpServer.cpp:161-181 | over any list of messages with any packets lost, the run is defined if and only if every message without a first packet stays inside the last buffer begun and not yet handed on, and the images are the buffers at the last packets |
| MessageDatagrams.LoggedOnly | Server/source/AsioUdpServer.cpp:149-160 | a text is logged only from a buffer with hash 1337 and type 0 |
| MessageDatagrams.MessageWhole | Server/source/AsioUdpServer.cpp:22-160 | with K payload bytes parsed from every datagram, K at most the chunk size, a broadcast test message is read back, from one datagram, if and only if 4 + its length <= K; otherwise the first read leaves the buffer |
| MessageDatagrams.MessageExactly | Client/source/connection.cpp:293-329 | with exact payloads, if and only if 4 + its length is at most the chunk size |
| MessageDatagrams.MessageShipped | Server/source/AsioTcpServer.cpp:139-151 | with the shipped values, if and only if its text has at most 1451 bytes |
| UdpRelay.ServeQuietly | Server/source/AsioUdpServer.cpp:124-196 | until an image is finished, registrations and arrivals do not affect each other |
| UdpRelay.ForeignUnserved | Server/source/AsioUdpServer.cpp:149-182 | nor do they change anything about the server over a run of arrivals and registrations |
| UdpRelay.RegisteredSince | Server/source/AsioUdpServer.cpp:186-196 | a client is registered, at the address last given for it, exactly when its last registration has not been undone |
| UdpRelay.Relay | Server/source/AsioUdpServer.cpp:51-181 | with receive buffers of R >= C + 17 bytes on both hops and exact payloads, an image that arrives while clients come and go is sent once to exactly the clients registered when its last packet arrives, and what each of them has been sent since reassembles to the image from any earlier state |
| UdpRelay.RelayWhole | Server/source/AsioUdpServer.cpp:22-181 | with both receivers parsing their whole buffer, the server's run is defined if and only if the image fits, and then what each registered client is sent reassembles to the image blanked once: the second hop loses nothing more |
| UdpRelay.RelayRun | Server/source/AsioUdpServer.cpp:124-181 | whatever image a run of buffers finishes is the one relayed, to the clients registered then and no others |
| UdpRelay.ServeFails | Server/source/AsioUdpServer.cpp:124-181 | a run whose arrivals leave the buffer is undefined, whatever is registered in between |
| UdpRelay.SendToEach | Server/source/AsioUdpServer.cpp:51-121 | the loop over the registry sends every client all datagrams once, in whatever order the map yields clients |
| UdpRelay.AsioUdpManager.ProcessPacket | Server/source/AsioUdpServer.cpp:124-184 | one buffer takes the server to the next state of the state machine; a hash other than 1337 or a type above 1 leaves all as it was |
| UdpRelay.AsioUdpManager.BroadCast | Server/source/AsioUdpServer.cpp:47-122 | nothing when the socket is closed, otherwise exactly the datagrams to every registered client at its address, and nothing to others |
| UdpRelay.AsioUdpManager.CreateClient | Server/source/AsioUdpServer.cpp:186-189 | the client is registered or replaced, nothing else changes |
| UdpRelay.AsioUdpManager.RemoveClient | Server/source/AsioUdpServer.cpp:191-196 | the client is gone, nothing else changes |
| UdpRelay.BoostUdpConnection.SendData | Client/source/connection.cpp:47-120 | the encoded fragments when the socket is open, nothing otherwise |
| UdpRelay.BoostUdpConnection.PrcsPacket | Client/source/connection.cpp:293-353 | one buffer takes the assembly to its next state, and a finished image is signalled once; a hash other than 1337 or a type above 1 leaves all as it was |
| UdpRelay.AssembleChunk | Server/source/AsioUdpServer.cpp:162-171 | reset and copy are the assembly step |
| Packet.DecodeEncode | Server/include/ClientSession.h:42-72 | parsing inverts serialization |
| Packet.EncodeDecode | Server/source/AsioTcpServer.cpp:87-109 | every buffer of at least 17 bytes is the serialization of the packet parsed from it |
| Packet.Layout | Server/include/ClientSession.h:42-72 | where each field lies in a serialized packet, low byte first |
| Packet.ParsedLayout | Server/source/AsioTcpServer.cpp:87-109 | which bytes of any buffer each field is read from |
| Packet.Serialize | Server/include/ClientSession.h:42-72 | the appended fields are the encoding |
| Packet.Parse | Server/source/AsioTcpServer.cpp:87-109 | the fields at the running offset are the packet whose serialization the buffer is |
| Messages.StringRoundTrip | Server/include/GroupData.h:26-45 | a string is read back, whatever follows, if and only if it is shorter than 2^32 |
| Messages.TestMessageRoundTrip | Server/include/GroupData.h:26-45 | a TestMessage is read back, whatever follows, if and only if it is shorter than 2^32 |
| Messages.FirstDataRoundTrip | Server/include/GroupData.h:60-89 | a FirstData is read back if and only if the offset of the port does not wrap, or wraps onto two bytes equal to the port |
| Messages.TestStructRoundTrip | Server/include/GroupData.h:100-177 | a TestStruct is read back, whatever follows, if and only if both lengths fit in 32 bits and no wrapping offset finds other bytes than the field's |
| Messages.TestStructFits | Server/include/GroupData.h:100-177 | which holds for every structure whose encoding has at most 2^32 bytes |
| Messages.TestMessageLayout | Server/include/GroupData.h:26-33 | the length modulo 2^32, high byte first, and the text |
| Messages.FirstDataLayout | Server/include/GroupData.h:60-72 | the length, high byte first, the address, and the port, low byte first |
| Messages.TestStructLayout | Server/include/GroupData.h:100-133 | where each field lies; the lengths and ints are two's complement, high byte first |
| Messages.TestMessageRead | Server/include/GroupData.h:34-45 | a text is read from any bytes if and only if they start with its length, high byte first, and itself |
| Messages.FirstDataRead | Server/include/GroupData.h:73-89 | the same for the address, with the port at the 32-bit offset behind it |
| Messages.TestStructPrefixFree | Server/include/GroupData.h:100-133 | streams that start with two such encodings are equal only if the structures are |
| Messages.FirstDataPrefixFree | Server/include/GroupData.h:60-72 | the same for FirstData |
| Messages.TestMessagePrefixFree | Server/include/GroupData.h:26-33 | the same for TestMessage |
| Messages.SerializeTestStruct | Server/include/GroupData.h:100-133 | the loop over the vector appends the encoding |
| Messages.DeserializeTestStruct | Server/include/GroupData.h:135-177 | the running offset reads what the decoder reads |
| Messages.DeserializeInts | Server/include/GroupData.h:167-174 | the vector loop, with its wrapping offset, reads the elements in order |
| Messages.SerializeFirstData | Server/include/GroupData.h:60-72 | the appended fields are the encoding |
| Messages.DeserializeFirstData | Server/include/GroupData.h:73-89 | the running offset reads what the decoder reads |
| Messages.SerializeTestMessage | Server/include/GroupData.h:26-33 | the appended fields are the encoding |
| Messages.DeserializeTestMessage | Server/include/GroupData.h:34-45 | the running offset reads what the decoder reads |
| Wire.Be32RoundTrip | Server/include/GroupData.h:28-40 | network order is inverted both ways |
| Wire.Be32Places | Server/include/GroupData.h:28-28 | network order puts the high byte first |
| Wire.Le32Places | Server/include/ClientSession.h:48-49 | fields copied from memory have the low byte first |
| Wire.ReadPlaces | Server/include/GroupData.h:37-40 | the readers give every byte its place value |
| Wire.SignPlaces | Server/include/GroupData.h:112-149 | an int is sent as its value modulo 2^32 |
| Framing.FrameRoundTrip | Server/source/ClientSession.cpp:54-59 | one frame is delivered as sent if and only if its body is shorter than 2^32 |
| Framing.FrameLayout | Server/source/ClientSession.cpp:54-59 | a frame is the size modulo 2^32, low byte first, and the body |
| Framing.DeframeExtends | Server/source/ClientSession.cpp:15-35 | reading more bytes continues where reading fewer stopped |
| Framing.FeedAllIsDeframe | Server/source/ClientSession.cpp:15-35 | what is delivered does not depend on how the stream is cut into arrivals |
| Framing.Delivery | Server/source/ClientSession.cpp:15-35 | for every list of bodies and every cut, the bodies delivered are the first ones sent, the rest is a proper beginning of the next frame, and all are delivered exactly when the stream has arrived |
| TcpSession.AsioTcpClientSession.Receive | Server/source/ClientSession.cpp:15-35 | the two-phase read loop delivers exactly what deframing delivers and keeps waiting for an incomplete read |
| TcpSession.AsioTcpClientSession.OnBody | Server/source/ClientSession.cpp:24-33 | the body handler hands on exactly the next size_ bytes, and what is still to be delivered stays the same |
| TcpSession.AsioTcpClientSession.EndOfStream | Server/source/ClientSession.cpp:19-30 | signal_deleting is raised only when the stream ends at a size read; no read is started again |
| TcpSession.Send | Client/source/connection.cpp:247-276 | the bytes written are the frame of a packet with exact fields, none on a closed socket |
| TcpSession.SentHeader | Server/source/ClientSession.cpp:43-54 | the bytes of the header: hash, sizes, one packet in all, number 0 from the server and 1 from the client, both flags set |
| TcpSession.ProcessChecks | Client/source/connection.cpp:198-232 | by the bytes of the buffer: when the hash, the flags and the type are refused, and what is read otherwise |
| TcpSession.ProcessPacket | Server/source/AsioTcpServer.cpp:86-137 | parse, hash test, flag test and switch give the outcome that the delivery theorems speak of |
| TcpSession.StructsArrive | Client/source/connection.cpp:247-276 | structures sent over a connection are processed as sent, in order, whatever the cut, and all of them once the stream has arrived |
| TcpSession.FirstDataArrives | Client/source/connection.cpp:173-232 | the client recovers the address and port from the server's first packet |
| TcpManager.ClientOverRun | Server/source/AsioTcpServer.cpp:48-80 | over every run of accepts, arrivals and stream ends in which the counter does not come round, a client is registered if and only if its stream has not ended or ended inside a frame of which the size was read, and its session has read what arrived, however it was cut |
| TcpManager.HalfClosedIsServed | Server/source/ClientSession.cpp:25-30 | a client whose stream ends inside a body stays registered and is sent every later broadcast |
| TcpManager.HalfClosedStays | Server/source/ClientSession.cpp:25-30 | one that announces five bytes and hangs up is still registered |
| TcpManager.AsioTcpManager.OnEvents | Server/source/AsioTcpServer.cpp:48-80 | over every run of accepts, arrivals and stream ends the manager and its sessions follow the state machine, and the UDP server then sends to exactly the registered clients, at the addresses they have been told |
| TcpManager.AsioTcpManager.OnAccept | Server/source/AsioTcpServer.cpp:48-71 | both registries gain the new id, the client is greeted, and a failed accept changes nothing |
| TcpManager.AsioTcpManager.OnBytes | Server/source/ClientSession.cpp:15-35 | bytes from one client advance its session only, and the registries stay in step |
| TcpManager.AsioTcpManager.OnEnd | Server/source/ClientSession.cpp:19-30 | the end of a stream takes the manager to the next state of the run: removed from both registries, or left in both |
| TcpManager.AsioTcpManager.OnDeleting | Server/source/AsioTcpServer.cpp:75-85 | both registries lose the same id and stay in step |
| TcpManager.GreetingHeader | Server/source/ClientSession.cpp:43-54 | the greeting is one packet of first data, numbered 0, with the address and port of the accepted client |
| TcpManager.GreetingArrives | Server/source/AsioTcpServer.cpp:73-78 | the greeting, in any pieces, is one frame that carries the client's address and port |
| TcpManager.BoostTcpConnection.PrcsPacket | Client/source/connection.cpp:173-234 | first data opens the UDP socket at the address and port it carries, and fails when the socket is open already; nothing else touches it |
| TcpManager.Connect | Client/source/connection.cpp:152-234 | a client that reads its greeting, in any pieces, ends with its UDP socket open at the address registered for it |
| SortedData.LowerBound | Client/include/qcustomplot.h:2953-2953 | the index that splits the points into those below the key and the others |
| SortedData.UpperBound | Client/include/qcustomplot.h:2981-2981 | the index that splits the points into those not above the key and the others |
| SortedData.MergedSortsBoth | Client/include/qcustomplot.h:2890-2890 | the merge is sorted and keeps exactly the points of both sides |
| SortedData.MergedStable | Client/include/qcustomplot.h:2890-2890 | the merge is stable: for every key, the points of the first side and then those of the second, each in order |
| DataContainer.QCPDataContainer.ApplyAll | Client/include/qcustomplot.h:2839-3087 | every sequence of calls keeps the gap within the vector and the visible points sorted, and follows the sorted list, the order of equal keys included, and the bag of points call by call |
| DataModel.ListRunIsBagRun | Client/include/qcustomplot.h:2839-3087 | every such sequence on the list keeps it sorted and does to its points what it does to the bag |
| DataModel.ListRunDetermined | Client/include/qcustomplot.h:2839-3087 | as long as nothing has to be sorted, the calls determine the list, the order of equal keys included |
| DataModel.BelowIs | Client/include/qcustomplot.h:2967-2967 | on a sorted list the number of leading points below the key is the one and only lower bound |
| DataModel.JoinedStable | Client/include/qcustomplot.h:2871-2931 | sorted data added in bulk keeps the order of points with one key: after those of the list, unless all of the data comes first, and then before them |
| DataModel.InsertedStable | Client/include/qcustomplot.h:2940-2956 | a single point goes behind all points with its key when it is not below the last point, and otherwise in front of them; no other point moves |
| DataModel.InsertedBefore | Client/include/qcustomplot.h:2953-2954 | among keys 1, 2, 3 a second point with key 2 goes before the first |
| DataModel.WithoutFirstStable | Client/include/qcustomplot.h:3018-3030 | removal by key takes the first point with it and moves no other |
| DataModel.WithoutRangeStable | Client/include/qcustomplot.h:2996-3006 | removal by range takes all points with a key in it and moves no other |
| DataModel.MergedIsJoin | Client/include/qcustomplot.h:2889-2890 | where the source leaves out the merge, the merge would change nothing |
| DataModel.BagRunConserves | Client/include/qcustomplot.h:2839-3087 | no sequence of calls invents or duplicates a point |
| DataModel.CutOut | Client/include/qcustomplot.h:2964-3006 | cutting an index range removes exactly the points of the class that fills it |
| DataContainer.QCPDataContainer.Set | Client/include/qcustomplot.h:2855-2862 | the points are those given, sorted, with an empty gap |
| DataContainer.QCPDataContainer.AddContainer | Client/include/qcustomplot.h:2871-2892 | the points of the other container are merged in, before equal keys when none is above the first point and after them otherwise; only an empty container can be added to itself |
| DataContainer.QCPDataContainer.AddData | Client/include/qcustomplot.h:2903-2931 | the same for sorted data; data to be sorted is merged behind equal keys in some sorted order |
| DataContainer.QCPDataContainer.AddPoint | Client/include/qcustomplot.h:2940-2956 | for every key the points with it, in order: the new one behind its equals when it is not below the last point, otherwise in front of them, and no other point moves |
| DataContainer.QCPDataContainer.RemoveBefore | Client/include/qcustomplot.h:2964-2971 | exactly the points below the key are gone, the others stay in order; that is what the documentation says if and only if no point has the key itself |
| DataContainer.QCPDataContainer.RemoveAfter | Client/include/qcustomplot.h:2979-2986 | exactly the points above the key are gone, the others stay in order; that is what the documentation says if and only if no point has the key itself |
| DataModel.RemovedAsDocumented | Client/include/qcustomplot.h:2958-2986 | the documented removal, key included, is what happens if and only if no point has the key itself |
| DataModel.KeyItselfStays | Client/include/qcustomplot.h:2958-2986 | in a container of one point, removing at its key leaves it, against the documentation |
| DataContainer.QCPDataContainer.RemoveRange | Client/include/qcustomplot.h:2996-3006 | exactly the points with from <= key <= to are gone, none unless from < to |
| DataContainer.QCPDataContainer.RemoveKey | Client/include/qcustomplot.h:3018-3030 | the first point with the key is gone, if there is one, and no other; without automatic squeezing the first visible point goes into the gap |
| DataContainer.QCPDataContainer.Clear | Client/include/qcustomplot.h:3038-3043 | no point is left |
| DataContainer.QCPDataContainer.Sort | Client/include/qcustomplot.h:3057-3060 | the same points, sorted |
| DataContainer.QCPDataContainer.Squeeze | Client/include/qcustomplot.h:3073-3087 | the visible points stay; the gap closes and the capacity shrinks to the size when asked to, and only then |
| DataContainer.QCPDataContainer.PreallocateGrow | Client/include/qcustomplot.h:3390-3403 | the visible points stay; a gap that is too small grows to the size asked for and the growth of the pool beyond it |
| DataContainer.PoolGrowths | Client/include/qcustomplot.h:3395-3397 | the pool grows by 4 the first time, then by 12 more than twice the last growth, and by 32756 from the twelfth time on |
| DataContainer.PoolThresholds | Client/include/qcustomplot.h:3422-3435 | when a pool is too large, as fractions of the visible points |
| DataContainer.QCPDataContainer.PerformAutoSqueeze | Client/include/qcustomplot.h:3420-3439 | the visible points stay, for any capacity of the vector; each pool is freed exactly when it is too large for the number of visible points, and nothing happens when neither is |
| DataContainer.PoolsBounded | Client/include/qcustomplot.h:3420-3439 | a vector left alone is at most 2.6 times as large as its visible points above 650000 points of capacity, and 7.5 times above 1000 |
| DataContainer.QCPDataContainer.FindBegin | Client/include/qcustomplot.h:3105-3114 | the lower bound, or the last point below the key in expanded mode |
| DataContainer.QCPDataContainer.FindEnd | Client/include/qcustomplot.h:3132-3141 | the upper bound, or one past the first point above the key in expanded mode |
| DataQueries.WindowIsScan | Client/include/qcustomplot.h:3105-3141 | [findBegin(lo), findEnd(hi)) holds exactly the points with lo <= key <= hi |
| DataQueries.ExpandedWindow | Client/include/qcustomplot.h:3105-3141 | expanded mode adds exactly one neighbour on each side that has one |
| DataContainer.QCPDataContainer.KeyRange | Client/include/qcustomplot.h:3159-3258 | found exactly when some point without NaN has a key of the sign asked for; the range holds all such keys, is below 0 for the negative and above 0 for the positive sign domain |
| DataQueries.KeyRangeMeans | Client/include/qcustomplot.h:3159-3258 | and its bounds are keys of such points |
| DataQueries.KeyRangeFromEnds | Client/include/qcustomplot.h:3173-3197 | the first and last point without NaN bound the keys of all points without NaN |
| DataQueries.KeyRangeScan | Client/include/qcustomplot.h:3198-3253 | the scan finds the least and greatest key of the sign asked for |
| DataContainer.QCPDataContainer.ValueRange | Client/include/qcustomplot.h:3284-3358 | narrowed by binary search or not, found exactly when some point in the key range has a finite lower bound of the sign asked for and some point such an upper bound |
| DataQueries.ValueRangeMeans | Client/include/qcustomplot.h:3284-3358 | and the result spans from the least such lower bound to the greatest such upper bound |
| DataQueries.ValueRangeScan | Client/include/qcustomplot.h:3303-3355 | the scan of a window that holds all points in the key range finds the least lower and greatest upper bound that count |
| DataContainer.QCPDataContainer.LimitIteratorsToDataRange | Client/include/qcustomplot.h:3372-3378 | what is left is within the data and holds exactly the indices in both ranges |
| DataSelection.BoundedStaysInside | Client/source/qcustomplot.cpp:2283-2321 | a bounded range lies in the bounds, holds the shared indices, and is empty at the right side when there are none |
| DataSelection.SimpleUnique | Client/source/qcustomplot.cpp:2592-2622 | a list in simplified state is determined by the indices it holds |
| DataSelection.QCPDataSelection.Simplify | Client/source/qcustomplot.cpp:2600-2622 | the list becomes ascending, non-empty, non-adjacent ranges over the same indices |
| DataSelection.QCPDataSelection.AddDataRange | Client/source/qcustomplot.cpp:2574-2579 | the range is appended, or joined in and simplified |
| DataSelection.QCPDataSelection.Add | Client/source/qcustomplot.cpp:2450-2455 | operator+= is the union, simplified |
| DataSelection.QCPDataSelection.Subtract | Client/source/qcustomplot.cpp:2481-2522 | operator-= with a range removes exactly its indices, by dropping, trimming and splitting ranges |
| DataSelection.QCPDataSelection.SubtractAll | Client/source/qcustomplot.cpp:2470-2476 | operator-= with another selection is the difference; with itself, for every valid list, the first non-empty range goes and of the rest a known part stays |
| DataSelection.SelfSubtractedExactly | Client/source/qcustomplot.cpp:2467-2476 | subtracted from itself a selection ends empty if and only if its first non-empty range holds every selected index |
| DataSelection.SelfSubtractedSimple | Client/source/qcustomplot.cpp:2467-2476 | in simplified state every other range is left |
| DataSelection.EveryOtherAt | Client/source/qcustomplot.cpp:2472-2473 | those are the second range, the fourth, and so on |
| DataSelection.SelfSubtractedFails | Client/source/qcustomplot.cpp:2467-2476 | [0, 1) and [2, 3) subtracted from themselves leave index 2 |
| DataSelection.QCPDataSelection.IntersectionWith | Client/source/qcustomplot.cpp:2708-2715 | the shared indices, simplified |
| DataSelection.QCPDataSelection.Inverse | Client/source/qcustomplot.cpp:2739-2759 | for ranges in order, touching or empty ones included, exactly the indices of the widened outer range that are not selected |
| DataSelection.QCPDataSelection.Contains | Client/source/qcustomplot.cpp:2684-2698 | on simplified lists it decides whether all selected indices of a non-empty other selection are selected here; an empty one is never contained |
| DataSelection.QCPDataSelection.Equals | Client/source/qcustomplot.cpp:2434-2444 | list equality, which on simplified lists is equality of the indices held |
| Plottable.ScanSegments | Client/include/qcustomplot.h:4545-4562 | before simplify, the segments are already ascending, non-empty and non-adjacent, and hold exactly the indices scanned whose points are in the rectangle |
| Plottable.SelectTestRect | Client/include/qcustomplot.h:4522-4566 | exactly the indices of all points with finite values between the corners, whichever way round these are given, the edges included; also when binary search narrows the scan first |
| Plottable.GetDataSegments | Client/include/qcustomplot.h:4658-4674 | selected and unselected segments partition the data, each list in simplified state, or one whole range |
| Plottable.EdgesExactly | Client/include/qcustomplot.h:4708-4741 | the edges drawn are, in order and once each, the neighbours of which no coordinate is NaN and, in the second algorithm, no value is infinite |
| Plottable.DrawnExactly | Client/include/qcustomplot.h:4708-4741 | each edge is drawn as the line between its two points, and nothing else is drawn |
| Plottable.DrawSingleLines | Client/include/qcustomplot.h:4708-4726 | the fast algorithm draws exactly the edges without NaN ends |
| Plottable.DrawSegments | Client/include/qcustomplot.h:4729-4741 | the polyline algorithm draws exactly the edges without NaN ends and without infinite values |
| Plottable.SameDrawing | Client/include/qcustomplot.h:4708-4741 | the two draw the same if and only if no edge without NaN ends has an end with an infinite value |

## Left out

- CrcEngine.CalcCrc: reading `crc.dat` is left out; the lines are an argument, given as the parsed numbers of the non-empty lines. Numbers that do not parse are not part of the model, nor are `hexToBytes` and `testCrc`.
- Fragments.SendFragments: chunk sizes are 1 to 32767 and messages have a 32-bit size below 2^31, because beyond that the int product of index and chunk size overflows, which is undefined in the source.
- Reassembly.OrderIndependent: packets of different senders do not interleave in the single static assembly buffer; interleaving is left out.
- Reassembly.LossyRun: packets of one message arrive before the first packet of the next, and the first packet of each message arrives; `LostFirst.AnyLost` covers messages without one.
- UdpRelay.AsioUdpManager.ProcessPacket: requires that the copy stays in bounds; outside, the source is undefined. The buffer is an argument: a datagram of exact length, or the whole receive buffer as in `UdpRelay.RelayWhole`.
- UdpRelay.BoostUdpConnection.PrcsPacket: as above.
- UdpRelay.Relay: sockets deliver in order and without loss; the target addresses are not parsed.
- TcpManager.ClientOverRun: requires fewer accepts than the 32-bit counter needs to come round to the client's id; beyond that the id is given to another client.
- Messages.DeserializeTestStruct: requires that the memory behind the pointer holds what is read; the double is eight opaque bytes.
- TcpSession.AsioTcpClientSession.Receive: read errors other than the end of the stream are left out; after one of them the source would go on with the size it has.
- SortedData.Sort: `std::sort` is any sorted arrangement; where it puts points with equal keys is not modelled.
- DataContainer.QCPDataContainer.AddContainer: a container with points added to itself is left out, because the source then copies a range onto itself or past the end of its vector; int overflow of sizes is left out too.
- DataContainer.QCPDataContainer.KeyRange: keys are reals, so NaN and infinite keys are left out, and so is rounding.
- DataContainer.QCPDataContainer.Set: writing through non-const iterators is left out; callers flag data as sorted only when it is, as the documentation asks. How the vector grows is not modelled: a reallocation gives any capacity that holds the elements.
- DataSelection.QCPDataSelection.Inverse: lists of ranges that overlap or come out of order, from which the source makes ranges that end before they begin, are left out; the documentation asks to call simplify before such a list is used.
- Plottable.SelectTestRect: the rectangle comes in plot coordinates; the conversion from pixels is left out.
- Compression: the lambdas always answer with an empty buffer, so packets are never flagged as compressed.
- Sockets, resolver, timers, signals, threads and the lifetime of send buffers; signals are direct calls in connection order.
- The user interface, screen capture, logging and `main`.
- The client's copies of the packet and message codecs, which have the same layout.
- The remaining parts of QCustomPlot.

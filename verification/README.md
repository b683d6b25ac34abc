# libpgen's codecs and streams, modelled in Dafny

This project models the packet and capture-file code of libpgen, a header-only C++11
library for crafting and analysing packets, and proves what that code keeps and undoes.

- **Headers** (`Headers`, `HeaderLayouts`, `HeaderStack`, `HeaderObjects`). Ethernet, ARP, IPv4 with
  options, IPv6 and UDP headers, as wire forms on values and as objects whose `read`
  assigns fields and whose `write` fills the caller's buffer in place, and besides them
  any header class of someone else's whose `length`, `read` and `write` obey the codec law
  `Headers.Lawful`. Two codec laws per header are carried by induction to every list of
  such headers, and with them to packets and to `module::check`.
- **Packets** (`DataContainers`, `Packets`, `PacketClasses`). A byte vector with 128
  bytes of head-room and a list of pointers to header objects. `compile` walks the list
  from the right and writes each header just below the one after it; `analyze` walks it
  from the left, and each header read says where the next begins.
- **Checksums** (`Checksum`, `HeaderChecksums`). The loop that sums little-endian words
  and folds once, against RFC 1071 section 2, RFC 791 section 3.1 and RFC 768.
- **pcap** (`FileStreams`, `PcapStreams`, `PcapRuns`, `ModuleChecks`, `ClassChecks`). A file as bytes
  and a position, the capture stream on it, and `module::check`, which analyses, compiles
  and compares every packet of a file.
- **pcapng** (`PcapngBlocks`, `PcapngObjects`, `PcapngFiles`, `PcapngStreams`,
  `PcapngRuns`). The block codec with its duplicated lengths and padding, the stream on
  top of it, whole-file runs, and the framing of draft-ietf-opsawg-pcapng section 3.1.
- **Cursors and automata** (`NetStreams`, `Zundoko`). The BPF batch reader against a
  plain list of records, and the server automaton against a closed form.
- **Addresses** (`Addresses`). Raw bytes and a cached name that must be their printed form.

Each method that changes state is proved against a function of its inputs and the old
state, and the lemmas state what that function means: its laws, and the concrete bytes,
offsets and numbers it stands for. `hide` statements keep the proofs
of stacks and files to the laws of their parts.

## What turned out not to hold as stated

- The single fold of `checksum` is the RFC 1071 sum only when it leaves no carry;
  otherwise the result is one too large. `Checksum.ChecksumMeaning` gives the exact
  condition, and `HeaderChecksums.CarryExample` an IPv4 header whose stored checksum
  does not verify.
- IPv6 headers are normalised, not preserved: `HeaderStack.Ipv6IdentityIff`.
- A KIYOSHI reply need not answer a DOKO: a KIYOSHI message is echoed.
  `Zundoko.KiyoshiIff` has the exact condition, `Zundoko.EchoedKiyoshi` the input.
- Copying an `arp` packet drops its contents: `PacketClasses.CopyArp`.
- A pcap stream cannot carry an empty packet: the `send` throws after the record header
  is written, and that record can never be received (`PcapStreams.EmptyRecordThrows`).
  `PcapStreams.RecordReceived` has the exact condition for one packet, and
  `PcapRuns.WriteThenReceive` for a whole file.
- A packet of 4 GiB or more is truncated in an EPB, and only such a packet:
  `PcapngBlocks.CarriedWhole`. Just below that size, and below each multiple of it, no block
  is consistent: `PcapngBlocks.ConstructedConsistent` has the exact sizes.
- `pcapng_stream::recv` copies as many bytes as the packet had originally, not as were
  captured: `PcapngFiles.DeliveredIff` says when these are the captured bytes.

## Assumptions

- The host is little-endian; wire structs are byte offsets, and 16-bit members go
  through `htons` and `ntohs`.
- `sum` in `checksum` is taken to start at zero; the C++ declares it without an initialiser.
- Callers keep an IPv4 header length of at least five words. Below that the source
  computes a wrapped `memcpy` length, which the model does not follow.
- `stdio` is a byte sequence with a position. An `fread` or `fwrite` item of no bytes
  fails, and a short `fread` moves to the end of the file.
- What `sscanf` converts from a string is a parameter; a string in printed form it converts
  as that form says.
- A `const void*` buffer is a sequence of its bytes; a buffer that is written is an array.

## Model

| member | source | states |
|---|---|---|
| `Checksum.Checksum` | pgen/util.h:35-58 | the loop with its wrapping 32-bit sum computes the single fold of the little-endian word sum, on byte strings of any length |
| `Checksum.ChecksumMeaning` | pgen/util.h:35-58 | for every byte string whose word sum is below 2^32, the value is the RFC 1071 one's-complement sum, and byte-swapped the big-endian one, if and only if the single fold leaves no carry; with a carry it is that sum plus one |
| `Checksum.ByteOrderIndependent` | pgen/util.h:16-21 | RFC 1071 section 2(B): for any byte string, odd lengths included, the swapped fully folded little-endian sum is the fully folded big-endian sum |
| `Checksum.SelfVerifies` | pgen/util.h:53-57 | a string that stores its own checksum at an even offset, where one more word does not wrap the sum, sums to zero, for this code and for a receiver that folds fully, if and only if the first fold had no carry |
| `Checksum.Rfc1071Example` | pgen/util.h:35-58 | the worked example of RFC 1071 section 3 has the word sum and the checksum given there |
| `HeaderChecksums.Ipv4SelfVerifies` | pgen/core/protocol/ip.h:225-229 | for every IPv4 header with a zero checksum field, storing the computed checksum verifies, and the computed value is that of RFC 791, if and only if the fold had no carry |
| `HeaderChecksums.UdpSelfVerifies` | pgen/core/protocol/udp.h:143-178 | the same for UDP over its pseudo header, header and any data up to 65535 bytes |
| `HeaderChecksums.UdpExample` | pgen/core/protocol/udp.h:143-178 | the checksum of a UDP header with ports 53 and no data, under an IP header of total length 28, is 0xff74 |
| `HeaderChecksums.CarryExample` | pgen/core/protocol/ip.h:225-229 | a concrete header whose stored checksum does not verify |
| `HeaderObjects.Ipv4Header.CalcChecksum` | pgen/core/protocol/ip.h:225-229 | the sum, in host order, of the bytes the header would be written as |
| `HeaderObjects.UdpHeader.CalcChecksum` | pgen/core/protocol/udp.h:143-178 | the buffer assembled with a moving pointer is the pseudo header, the header and the data, and the result is its sum in host order; the size check never fails |
| `HeaderObjects.EthernetHeader.Write` | pgen/core/protocol/ethernet.h:93-102 | throws exactly on a short buffer; otherwise destination, source and type stand at bytes 0, 6 and 12 from the offset, high byte first, and no other byte changes |
| `HeaderObjects.EthernetHeader.Read` | pgen/core/protocol/ethernet.h:106-117 | throws exactly on a short buffer, leaving the fields; otherwise the destination is bytes 0 to 5, the source 6 to 11 and the type the number in 12 and 13 |
| `HeaderObjects.ArpHeader.Write` | pgen/core/protocol/arp.h:134-149 | the nine members in wire order, 28 bytes, and no other byte changes |
| `HeaderObjects.ArpHeader.Read` | pgen/core/protocol/arp.h:151-166 | every field is the one at its wire offset |
| `HeaderObjects.Ipv4Header.Write` | pgen/core/protocol/ip.h:161-180 | the fixed members and as many option bytes as the header length asks for, and no other byte changes |
| `HeaderObjects.Ipv4Header.Read` | pgen/core/protocol/ip.h:184-207 | throws exactly when the fixed part or the claimed length does not fit; states the fields in each case, and that option bytes past the length are kept |
| `HeaderObjects.Ipv4Header.SetOption` | pgen/core/protocol/ip.h:217-222 | more than 40 bytes throw; otherwise the front of the option area is replaced and the rest kept |
| `HeaderObjects.Ipv6Header.Write` | pgen/core/protocol/ipv6.h:134-152 | traffic class and flow label are written as zero whatever the fields hold |
| `HeaderObjects.Ipv6Header.Read` | pgen/core/protocol/ipv6.h:156-171 | traffic class and flow label are zeroed, every other field is the one at its wire offset |
| `HeaderObjects.UdpHeader.Write` | pgen/core/protocol/udp.h:109-119 | the four members big-endian, and no other byte changes |
| `HeaderObjects.UdpHeader.Read` | pgen/core/protocol/udp.h:123-134 | every field is the one at its wire offset |
| `HeaderObjects.OtherHeader.Write` | pgen/core/header.h:49-54 | a header of any lawful class throws exactly on a short buffer; otherwise its bytes are written and no other byte changes |
| `HeaderLayouts.EthernetWritten` | pgen/core/protocol/ethernet.h:65-69 | destination in bytes 0 to 5, source in 6 to 11, type in 12 and 13, high byte first |
| `HeaderLayouts.ArpWritten` | pgen/core/protocol/arp.h:80-90 | each of the nine members at its literal offset |
| `HeaderLayouts.Ipv4Written` | pgen/core/protocol/ip.h:101-119 | version in the high and length in the low nibble of byte 0, every other member at its literal offset, the options from byte 20 to the header's length |
| `HeaderLayouts.Ipv6Written` | pgen/core/protocol/ipv6.h:82-100 | version in the high nibble of byte 0, the labels' bits zero, every other member at its literal offset |
| `HeaderLayouts.UdpWritten` | pgen/core/protocol/udp.h:79-84 | the four members at their literal offsets, high byte first |
| `HeaderLayouts.Ipv4Found` | pgen/core/protocol/ip.h:184-207 | what is read is what stands at the same offsets, and option bytes past the length stay those of the object |
| `HeaderLayouts.UdpSummedLayout` | pgen/core/protocol/udp.h:146-173 | what a UDP checksum is summed over, at literal offsets: addresses, zero, protocol, the total length less the header length in 16 bits, the UDP members, the data |
| `Headers.WriteAfterRead` | pgen/core/header.h:49-67 | codec law: writing what was read gives back the bytes, normalised for IPv6 only, for every header kind and every readable buffer |
| `Headers.ReadAfterWrite` | pgen/core/header.h:49-67 | codec law: reading what was written, with anything after it, succeeds and gives back the header, up to unused option bytes and IPv6 labels |
| `Headers.UdpLawful` | pgen/core/protocol/udp.h:109-134 | the codec law for classes defined elsewhere is met by a header that reads and writes as `udp_header` does |
| `HeaderStack.WriteAfterReadAll` | pgen/core/packet.h:223-244 | analyze then compile gives back the input, normalised, for every list of headers, the five classes and any lawful others mixed |
| `HeaderStack.IdentityWithoutIpv6` | pgen/core/packet.h:223-244 | without an IPv6 header in the list it is the identity on bytes |
| `HeaderStack.ReadAfterWriteAll` | pgen/core/packet.h:223-244 | compile then analyze into a list of the same classes gives back the headers and the contents |
| `HeaderStack.NormalisedTwice` | pgen/core/protocol/ipv6.h:134-171 | analyze then compile is idempotent, for every list of headers |
| `HeaderStack.Ipv6Normalises` | pgen/core/protocol/ipv6.h:134-171 | on the `ipv6` class it clears the low nibble of header byte 0 and header bytes 1 to 3, and nothing else |
| `HeaderStack.Ipv6IdentityIff` | pgen/core/protocol/ipv6.h:134-171 | it is the identity if and only if those bits were zero |
| `DataContainers.DataContainer.SetContent` | pgen/core/data_container.h:94-104 | the content is replaced and the head-room keeps its bytes |
| `DataContainers.DataContainer.WriteBefore` | pgen/core/data_container.h:73-92 | throws exactly when the bytes do not fit below the index; otherwise they end there and no other byte changes |
| `Packets.HeaderRef.Write` | pgen/core/header.h:49-54 | the virtual call succeeds exactly when the buffer holds `length()` bytes, and touches exactly those |
| `Packets.HeaderRef.Read` | pgen/core/header.h:56-61 | the virtual call succeeds exactly on readable buffers |
| `Packets.Packet.Compile` | pgen/core/packet.h:223-230 | the head-room ends with the headers in list order, the contents and every byte below the headers are kept, and no header changes |
| `Packets.Packet.Analyze` | pgen/core/packet.h:234-244 | throws exactly when some header of the list cannot be read where the one before it ends; otherwise each header holds what was read and the contents are the rest; on a throw the contents stay |
| `Packets.Packet.Raw` | pgen/core/packet.h:190-194 | the bytes from the first header to the end of the vector |
| `Packets.Packet.Length` | pgen/core/packet.h:197-209 | contents plus the lengths of the headers |
| `PacketClasses.New` | pgen/core/protocol/udp.h:182-216 | a default packet of each class: fresh header objects with the values of `clear`, no contents |
| `PacketClasses.ArpBytes` | pgen/core/protocol/arp.h:93-103 | the 42 header bytes of a new `arp` packet, one by one |
| `PacketClasses.Ipv4Bytes` | pgen/core/protocol/ip.h:124-137 | the 34 header bytes of a new `ipv4` packet |
| `PacketClasses.Ipv6Bytes` | pgen/core/protocol/ipv6.h:104-113 | the 54 header bytes of a new `ipv6` packet |
| `PacketClasses.UdpBytes` | pgen/core/protocol/udp.h:203-211 | the 42 header bytes of a new `udp` packet: ether type 0x0800, total length 28, protocol 17, ports 53, length 8 |
| `PacketClasses.Copy` | pgen/core/protocol/udp.h:193-198 | the copy constructor copies bytes and header values and shares no object with the original |
| `PacketClasses.CopyArp` | pgen/core/protocol/arp.h:183-187 | the `arp` copy constructor copies the headers but has no contents; the contents agree only if there were none |
| `PacketClasses.HeadRoomSuffices` | pgen/core/packet.h:58-61 | no object of the five classes can outgrow the 128 bytes of head-room |
| `ClassChecks.CompileThenAnalyze` | pgen/core/packet.h:223-244 | from any field values and contents, compiling and analysing `raw()` into a new packet of the class recovers both |
| `ClassChecks.ClassReads` | pgen/core/packet.h:234-244 | in closed form, the buffers each class can analyze |
| `ClassChecks.ClassExpected` | pgen/module.h:226-234 | every packet long enough for its class succeeds in `check`, for IPv6 if and only if it is unlabelled |
| `FileStreams.FileStream.Read` | pgen/io/file_stream.h:79-85 | succeeds exactly on a non-empty item that is there in full; the position in each case |
| `FileStreams.FileStream.Write` | pgen/io/file_stream.h:71-76 | appends, and throws exactly on an empty item |
| `FileStreams.FileStream.Feof` | pgen/io/file_stream.h:90-100 | tells whether bytes are left and leaves the position where it was |
| `PcapStreams.PcapStream.Open` | pgen/io/pcap_stream.h:67-95 | writing starts the file with the 24-byte header; reading skips it or throws; other modes throw |
| `PcapStreams.FileHeaderBytes` | pgen/io/pcap_stream.h:67-84 | the 24 bytes a written file starts with, one by one |
| `PcapStreams.PcapStream.Send` | pgen/io/pcap_stream.h:108-119 | appends one record; throws exactly on an empty packet, with the record header already written |
| `PcapStreams.RecordLayout` | pgen/io/pcap_stream.h:98-119 | a written record: no timestamp, the packet's length in 32 bits both as included and as original length, then the packet |
| `PcapStreams.PcapStream.Recv` | pgen/io/pcap_stream.h:122-134 | refines one step over the bytes left: the packet and where reading goes on, or an exception |
| `PcapStreams.AnyRecordReceived` | pgen/io/pcap_stream.h:122-134 | whatever else a record header holds, the original length in its last four bytes says how many bytes are received |
| `PcapStreams.RecordReceived` | pgen/io/pcap_stream.h:108-134 | a sent packet is received unchanged, and the rest of the file is left, if and only if it is not empty, fits the buffer and is shorter than 4 GiB |
| `PcapStreams.EmptyRecordThrows` | pgen/io/pcap_stream.h:108-134 | a sent empty packet is never received |
| `PcapRuns.RecordsReceived` | pgen/io/pcap_stream.h:108-134 | receiving until the end of the file gives exactly the list sent, in order and without an exception, if and only if every packet of it can be received |
| `PcapRuns.WriteAll` | pgen/io/pcap_stream.h:67-119 | write-open and sends, until one throws: the file is the header and one record per packet, and the run throws exactly at the first empty packet |
| `PcapRuns.ReceiveAll` | pgen/module.h:216-221 | the loop of end-of-file test and receive, on any file, gives what its bytes hold |
| `PcapRuns.WriteThenReceive` | pgen/io/pcap_stream.h:67-134 | whole-file round trip: writing and reading back ends normally with the very list sent if and only if every packet of it can be received |
| `ModuleChecks.Check` | pgen/module.h:209-238 | on any capture file the loop ends normally if and only if the file is a clean run of records and the stack can read every packet; then it has counted them all, and reports each a success exactly when it was normalised; otherwise it throws at the first packet that cannot be read, or behind the last that can be received |
| `ModuleChecks.CaptureOfWritten` | pgen/module.h:219-221 | a written file is received in full if and only if every packet has from 1 to 10000 bytes |
| `ModuleChecks.ExpectedMeans` | pgen/module.h:226-234 | the compiled bytes are always as many as were read, so no packet has a length error, and the verdict is success if and only if they are the same |
| `ModuleChecks.SameKindsRead` | pgen/module.h:216-236 | what earlier packets left in the header objects does not change what a later packet reads |
| `ClassChecks.WriteThenCheck` | pgen/module.h:209-238 | end to end for each class: readable packets are written to a file, and `check` returns their number with every one a success |
| `PcapngBlocks.ReadAfterWrite` | pgen/io/pcapng_stream.h:246-337 | reading a written SHB, IDB or EPB, over any padding and with anything after it, restores every field, the option and the payload |
| `PcapngBlocks.WriteAfterRead` | pgen/io/pcapng_stream.h:246-337 | writing a parsed block over its own padding gives back its bytes |
| `PcapngBlocks.WriteAfterReadZeroed` | pgen/io/pcapng_stream.h:579-594 | into a zeroed buffer the bytes come back if and only if the padding was zero; SHB and IDB have none |
| `PcapngBlocks.FieldsLaidOut` | pgen/io/pcapng_stream.h:402-594 | where each field of an SHB, IDB or EPB body lies in its bytes |
| `PcapngBlocks.ReadableType` | pgen/io/pcapng_stream.h:385-556 | the block type each class reads, in numbers |
| `PcapngBlocks.PaddingsAgree` | pgen/io/pcapng_stream.h:529-538 | the padding of `body_length` and that of `set_packet` agree, modulo 2^32 |
| `PcapngBlocks.ConstructedConsistent` | pgen/io/pcapng_stream.h:513-525 | new blocks are consistent, and a new EPB with one packet is, if and only if its padded size fits 32 bits |
| `PcapngBlocks.CarriedWhole` | pgen/io/pcapng_stream.h:596-600 | an EPB carries the whole of its packet if and only if the packet is shorter than 4 GiB; otherwise it carries its front, of the length modulo 2^32 |
| `PcapngBlocks.SecondPacket` | pgen/io/pcapng_stream.h:596-606 | a second `set_packet` leaves a consistent block if and only if the first took no room modulo 2^32 and the second fits |
| `PcapngObjects.PcapngBlock.SetPacket` | pgen/io/pcapng_stream.h:596-606 | the two 32-bit additions amount to one addition of the padded length |
| `PcapngObjects.PcapngBlock.Write` | pgen/io/pcapng_stream.h:309-337 | returns normally if and only if the buffer holds the total length and the total is what the parts add up to; then the buffer starts with the block and the rest, padding included, is kept |
| `PcapngObjects.PcapngBlock.ReadOption` | pgen/io/pcapng_stream.h:216-227 | the 64-bit wrap of the option length is always caught by the size check |
| `PcapngObjects.PcapngBlock.Read` | pgen/io/pcapng_stream.h:246-269 | either throws or takes exactly the total length with equal head and tail; the last length check never fires |
| `PcapngStreams.PcapngStream.Open` | pgen/io/pcapng_stream.h:617-644 | a written file is the 28 bytes of a section header and the 20 of an interface description; other modes throw |
| `PcapngBlocks.OpeningBytes` | pgen/io/pcapng_stream.h:355-446 | these bytes, one by one: block types, lengths, the byte-order magic, version 1.0, link type 1 |
| `PcapngStreams.PcapngStream.WriteBlock` | pgen/io/pcapng_stream.h:681-686 | appends the block over zero padding, or throws and writes nothing, the latter exactly when it is inconsistent |
| `PcapngStreams.PcapngStream.Send` | pgen/io/pcapng_stream.h:648-652 | appends one EPB over zero padding; throws, and writes nothing, exactly when its total does not fit 32 bits |
| `PcapngFiles.SentLayout` | pgen/io/pcapng_stream.h:579-606 | a sent block at literal offsets: type 6, its length at both ends, interface 0, no timestamp, the packet's length twice, its bytes, zero padding to a multiple of four |
| `PcapngStreams.PcapngStream.ReadBlock` | pgen/io/pcapng_stream.h:688-715 | returns exactly when a whole block with a non-empty body is left, with its bytes and the position after it |
| `PcapngStreams.PcapngStream.Recv` | pgen/io/pcapng_stream.h:654-679 | skips foreign blocks to the next packet and copies its original length, or what the buffer takes, or throws as the bytes left dictate; terminates |
| `PcapngFiles.DeliveredIff` | pgen/io/pcapng_stream.h:665-670 | what is copied is the captured data, truncated to the buffer, if and only if the two lengths agree as far as the buffer goes |
| `PcapngFiles.NextOfItem` | pgen/io/pcapng_stream.h:654-679 | a foreign block is skipped and a packet block delivered, whatever follows |
| `PcapngFiles.NextByType` | pgen/io/pcapng_stream.h:663-677 | of a whole block, type 6 is delivered if it can be read, type 3 is refused and every other is skipped |
| `PcapngRuns.ReceiveAll` | pgen/io/pcapng_stream.h:654-679 | over any well-formed blocks, receiving until an exception gives the captured packets in file order, each truncated to the buffer, and the exception is the end of the file |
| `PcapngRuns.WriteAll` | pgen/io/pcapng_stream.h:617-652 | any run of write-open and sends, of any packets, gives the two opening blocks and one block per packet, throws exactly at the first packet whose block does not fit 32 bits, and leaves a file whose backward walk visits the offsets of its forward walk, reversed |
| `PcapngFiles.WrittenPackets` | pgen/io/pcapng_stream.h:617-679 | a reader of such a file finds exactly the packets sent, in order, empty ones included |
| `PcapngFiles.SentWellFormedIff` | pgen/io/pcapng_stream.h:660-661 | the reader can hold a sent block if and only if its packet has at most 968 bytes |
| `PcapngRuns.WriteThenRead` | pgen/io/pcapng_stream.h:617-715 | whole-file round trip: packets of at most 968 bytes written and read back come out in order, each truncated to the buffer, and then the end of the file; the list is the one sent if and only if its packets fit the buffer |
| `PcapngFiles.FilesScannable` | pgen/io/pcapng_stream.h:654-715 | over well-formed blocks the reader never meets a block its scratch buffer cannot hold |
| `PcapngRuns.NextInFile` | pgen/io/pcapng_stream.h:654-679 | one `recv` over any well-formed blocks gives the first captured packet and leaves the blocks after it, or reports the end when there is none |
| `PcapngRuns.ForwardVisits` | pgen/io/pcapng_stream.h:688-714 | over any blocks whose lengths are right, wherever they start, walking by head lengths visits exactly the block offsets |
| `PcapngRuns.BackwardVisits` | pgen/io/pcapng_stream.h:297-306 | over any such blocks, walking back from their end by tail lengths visits the same offsets in reverse |
| `PcapngRuns.FramedBothWays` | pgen/io/pcapng_stream.h:596-686 | after any run of sends the writer accepts, every block length is a multiple of four, the lengths add up to the file, and walking backward by tails visits the offsets of walking forward by heads, reversed |
| `NetStreams.NetStream.Recv` | pgen/io/net_stream.h:233-252 | delivers the first pending record truncated to the buffer; reads the device only when none is pending; the cursor ends on a record boundary or null |
| `NetStreams.NetStream.RecvBatch` | pgen/io/net_stream.h:233-252 | as many calls as a batch has records return its payloads in order, and leave nothing pending |
| `Zundoko.Server.Handle` | example/zundoko/server.cc:17-123 | the next state, and the datagram sent back with only its type overwritten, and only when answered |
| `Zundoko.Reply` | example/zundoko/server.cc:71-122 | the reply is as long as the datagram, up to the buffer, and equal to it but for the two bytes of the type, which change only when it is answered |
| `Zundoko.Serve` | example/zundoko/server.cc:149-150 | over any run of datagrams, each reply is decided by the messages before it |
| `Zundoko.StateCountsZuns` | example/zundoko/server.cc:38-86 | after any run the state index is the length of the trailing run of ZUN modulo five |
| `Zundoko.KiyoshiIff` | example/zundoko/server.cc:71-79 | a reply carries KIYOSHI if and only if the message did, or it is DOKO after a run of ZUN of length 4 modulo 5 |
| `Zundoko.EchoedKiyoshi` | example/zundoko/server.cc:121-122 | the input for which DOKO alone does not decide it |
| `Zundoko.ZunDoko` | example/zundoko/server.cc:38-122 | one run in bytes: four ZUN (0) echoed, a DOKO (1) answered KIYOSHI (2), the next DOKO echoed |
| `Zundoko.AnsweredAtMostAFifth` | example/zundoko/server.cc:38-86 | over any run, five times the answers plus the state index is at most the number of messages |
| `Zundoko.KiyoshisSent` | example/zundoko/server.cc:38-122 | over any run, the replies that carry KIYOSHI are as many as the datagrams that did and the messages answered |
| `Zundoko.KiyoshiAtMostAFifth` | example/zundoko/server.cc:38-122 | over any run of datagrams none of which carries KIYOSHI, at most a fifth are replied to with it; echoed ones come on top |
| `Addresses.MacNameInjective` | pgen/core/macaddress.h:217-222 | two MAC names are equal if and only if the bytes are |
| `Addresses.Ipv4NameInjective` | pgen/core/ipaddress.h:243-249 | two IPv4 names are equal if and only if the bytes are, though the decimals vary in width |
| `Addresses.Ipv4NameParts` | pgen/core/ipaddress.h:243-249 | an IPv4 name is the canonical decimals of the octets from first to last, with a dot between each two |
| `Addresses.Ipv6NameInjective` | pgen/core/ipaddress.h:405-412 | two IPv6 names are equal if and only if the sections are |
| `Addresses.Ipv6NameParts` | pgen/core/ipaddress.h:405-412 | an IPv6 name has eight groups with colons between, each the two bytes of a section in memory order, two digits a byte |
| `Addresses.Hex2Digits` | pgen/core/macaddress.h:217-222 | a byte is printed as two lower-case digits, the high one first |
| `Addresses.ParseAfterPrint` | pgen/core/macaddress.h:224-239 | parsing the printed form of a MAC address gives back its bytes |
| `Addresses.HexValues` | pgen/core/macaddress.h:224-239 | hexadecimal digits are read in either case, and nothing else is one |
| `Addresses.MacAddress.SetStr` | pgen/core/macaddress.h:224-239 | throws exactly on a wrong length or when `sscanf` converts fewer than six numbers; otherwise the bytes are those numbers cut to a byte and the name is refreshed; a string in printed form is taken for what it says, in either case |
| `Addresses.MacAddress.FromStr` | pgen/core/macaddress.h:202-208 | constructing from a string keeps the name invariant, whatever the unset bytes were, or throws |
| `Addresses.MacAddress.SetOctet` | pgen/core/macaddress.h:250-256 | throws exactly on an index outside 1 to 6; otherwise one octet changes and the name stays the printed form |
| `Addresses.MacAddress.GetOctet` | pgen/core/macaddress.h:258-263 | the octet that the cached name shows at that place, for an index of 1 to 6; an exception at any other |
| `Addresses.MacAddress.Assign` | pgen/core/macaddress.h:269-273 | bytes and name are copied, also onto itself, and the name stays the printed form |
| `Addresses.MacAddress.Copy` | pgen/core/macaddress.h:198-200 | copy construction, an assignment to an unset object, gives equal bytes and the same name, which is their printed form |
| `Addresses.MacAddress.Equals` | pgen/core/macaddress.h:285-287 | equal bytes, if and only if equal names |
| `Addresses.Ipv4Address.SetOctet` | pgen/core/ipaddress.h:260-266 | throws exactly on an index outside 1 to 4; otherwise one octet changes and the name stays the printed form, whose parts `Ipv4NameParts` gives |
| `Addresses.Ipv4Address.Equals` | pgen/core/ipaddress.h:301-303 | equal bytes, if and only if equal names |
| `Addresses.Ipv6Address.SetSection` | pgen/core/ipaddress.h:425-431 | throws exactly on an index outside 1 to 8; otherwise one section changes, stored without `htons`, and the name stays the printed form |
| `Addresses.Ipv6Address.Equals` | pgen/core/ipaddress.h:467-469 | equal sections, if and only if equal names |

## Left out

- Virtual dispatch: a header pointer is a choice of the five header classes and one class that stands for any other lawful one, and a block is one class whose body says which of SHB, IDB and EPB it is.
- Header classes of others that break the codec law, as the one in example/tmp does: its minimum length is below its wire size.
- Cached names inside headers: a header object holds the octets of its addresses; the cached text is modelled in the address classes.
- Aliasing of the packet data pointer: an EPB holds the bytes the pointer could reach when it was set, so later changes to the caller's buffer are not seen.
- PcapngObjects.PcapngBlock.Read: on an exception the fields already assigned are not stated, because the source promises nothing about them.
- PcapngObjects.PcapngBlock.Write: on an exception the part of the buffer already written is not stated, for the same reason.
- PcapngStreams.PcapngStream.Recv: blocks that outgrow the 1000-byte scratch buffer, and an original length that reaches past the end of its block, make the source read or write outside its objects and are outside the precondition.
- PcapngRuns.WriteThenRead: packets above 968 bytes, whose blocks the reader's scratch buffer cannot hold.
- NetStreams.NetStream.Recv: alignment padding between BPF records, which the source does not skip either.
- Addresses.MacAddress.SetStr: which strings other than those in printed form `sscanf` converts, and to what.
- `inet_pton`, interface lookup (`setbydev` and its helpers), sockets, `ioctl` and the Linux branch of `net_stream`.
- `summary`, `hex`, `bin`, `print_mode` and the texts of exceptions.
- `read_as_big_endian`, `packet::operator=` and `data_container::operator[]`.
- The `detect_*` cascade of pgen/module.h, pgen/core/protocol/zundoko.h (switched off by `#if 0`).

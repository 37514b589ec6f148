# Verification of rflpc

A Dafny model of the parts of rflpc, a bare-metal C library for the LPC17xx microcontrollers, that have state, a
protocol or arithmetic to get wrong, with proofs about them. `dafny verify dfyconfig.toml` checks everything.

The environment of each part (the DMA engine, the flash ROM, the I2C block and the slaves on its bus, the other end of
the wire) is modelled beside the code as steps that may go any way the hardware allows.

| file | what it holds |
|---|---|
| `Bytes.dfy`, `Arithmetic.dfy` | machine words and byte order; division facts |
| `Memory.dfy` | memcpy and memset with Duff's device, against byte loops |
| `Sectors.dfy`, `Flash.dfy` | the flash, the log of ROM commands, and the functions of `iap.c` over one address space |
| `Rings.dfy`, `Ethernet.dfy` | the descriptor ring and its FIFO; the driver's functions with the DMA engine in between |
| `I2cBus.dfy`, `I2c.dfy`, `I2cSlave.dfy` | the bus as a language of events; the driver as master; as slave receiver |
| `Checksum.dfy`, `Headers.dfy`, `Echo.dfy`, `Ip4.dfy` | the Internet checksum, header codecs, the echo responder, the in-place headers of the UDP sample |
| `Dhcp.dfy`, `DhcpPads.dfy`, `DhcpMessage.dfy` | DHCP options (section 2 of RFC 2132), the pads of section 3.1, and the message with its addresses |
| `Printf.dfy`, `Rand.dfy`, `Period.dfy` | printf; the pseudo-random generator and its period |

## How to read it

* The flash functions share one memory with RAM and use the modelled memcpy, so that its behaviour on short copies shows
  in their contracts. The ROM may refuse any command; results are stated on the return value, and exactly for an
  `obliging` ROM, which refuses illegal commands only.
* `Ring` has ghost histories: `put`, the frames handed over by the producer, and `got`, the frames taken by the consumer.
* In `I2c.Controller`, `bus` is the trace of events so far and `Promised()` the trace once the pending flags have taken
  effect. `Ready()`, which every call requires and ensures, includes that AA is clear.
* `Splice(m, at, bytes)` is m with `bytes` written over it.

## Where the code does something else than its documentation

* memcpy and memset move 32 bytes too many for one to three bytes between word-aligned addresses
  (`Memory.MemcpyRefinesByteLoop`, `Memory.MemsetRefinesByteLoop` give the exact condition). `write_to_sector`, the DHCP
  options and the echo payload inherit this (`Flash.Chip.WriteToSector`, `Dhcp.OptionExact`, `Dhcp.BuiltWord`,
  `Echo.ProcessPacket`).
* memset returns the first word-aligned address and not its argument whenever its alignment loop stored something and
  bytes were left after it (`Memory.Memset`).
* `dhcp_get_option_simple` reads a value of one to three bytes at a word-aligned address together with the bytes behind
  it, and overwrites 29 to 31 bytes behind its local word (`Dhcp.BuiltWord`, `Dhcp.ShortValueMisread`).
* The scanner looks up to 60 bytes past the first option and reads behind: the 60 bytes the message has are too few for
  some contents (`Dhcp.FieldWalkable`).
* `write_buffer` handles a range over several sectors only if it ends strictly inside the second one
  (`WritesThrough`): the chunk of its middle loop is one byte short (`rflpc17xx/iap.c:238`).
* `transfert_4ks_to_32k` prepares the destination's sector only: a range that leaves it ends in a copy to a sector that is
  not prepared (`Flash.Chip.Transfer`, `Flash.TransferTooLong`).
* `write_buffer_to_sector` fails on every 32K sector; a ROM that obliges has erased it by then.
* The base-address functions need the index the hardware kept to be below the new count. The transmit functions need
  idx to be scanned in order and count not to exceed free + 1 (`Ethernet.ScanMustBeInOrder`,
  `Ethernet.OverrunLosesFrames`, `Ethernet.OverrunExample`).
* The ethernet sample's control word is one byte too long and has bit 18 where padding is bit 28.
* A write to an odd I2C address never returns (`I2c.Controller.WriteOddAddress`). A read of no bytes stores one, and as a
  slave up to 256.
* After a busy slave or an empty write the I2C block still has START requested: the STOP is followed by a START.
* `proto_ip_mangle` asked for a checksum leaves a header that verifies if its length is three words or more, and below
  that exactly if its first words happen to add up (`Headers.Verifies` in `Headers.IpMangle`; `Headers.ShortHeaderFails`,
  `Headers.ShortHeaderMayPass`).
* The scanner gives pads a length: a field behind an odd number of them is not found (`DhcpPads.PadsMatter`,
  `DhcpPads.PadHidesServer`).
* An option whose value reads as 255 cannot be told from an absent one (`Dhcp.AbsentLooksLike255`).
* The echo reply keeps the header length of the request, but where its IP options were the previous contents of the
  transmit buffer go out (`Echo.ProcessPacket`, `Echo.OptionsReturned`, `Echo.StaleOptions`).
* `printf` widths: 3 means two digits, 1 and 5 to 9 print no number at all, and a width stays for all later %x.

## Model

| member | source | states |
|---|---|---|
| Memory.Memcpy | rflpc17xx/tinylibc/memcpy.c:38-88 | The whole new memory: what a byte-by-byte copy of MemcpyLength bytes leaves, for every alignment, overlap and length, through Duff's partial first pass, the word copies and the byte tail; dest is returned |
| Memory.Memset | rflpc17xx/tinylibc/memset.c:31-89 | The same for filling with the low byte of c. The address returned is dest only when the alignment prologue stored nothing or everything |
| Memory.MemcpyRefinesByteLoop | rflpc17xx/tinylibc/memcpy.c:58-88 | memcpy of n bytes leaves every memory as the byte loop of n steps does if and only if n is 0 or at least 4, or an address is not word-aligned, or both addresses are equal |
| Memory.MemcpyLengthIs | rflpc17xx/tinylibc/memcpy.c:62-64 | Otherwise it copies exactly 32 bytes more than asked: zero words enter the unrolled loop at case 0 |
| Memory.MemsetRefinesByteLoop | rflpc17xx/tinylibc/memset.c:51-89 | The same exact condition for memset, on the bytes left after the alignment prologue |
| Memory.MemsetLengthIs | rflpc17xx/tinylibc/memset.c:55-57 | memset fills n bytes or n + 32, and when |
| Memory.ByteCopyDisjoint | rflpc17xx/tinylibc/memcpy.c:44-54 | The byte-loop reference, between areas that do not overlap: the destination gets the source, every other byte keeps its value |
| Sectors.SectorMap | rflpc17xx/iap.c:127-140 | The two sector maps are one: an address is in a sector exactly when it lies between that sector's start and the next one's, across the change from 4K to 32K sectors |
| Sectors.AndBlank | rflpc17xx/iap.c:110-124 | An erased byte takes whatever is programmed over it: programming is bitwise and |
| Sectors.DisciplinedStep | rflpc17xx/iap.c:84-124 | A command that meets prepared sectors, and for a copy bytes not programmed since their erase, keeps the whole log in order |
| Flash.Chip.PrepareSectors | rflpc17xx/iap.c:84-94 | The ROM's preparation: logged, refused for sectors that do not exist, memory untouched |
| Flash.Chip.EraseSectors | rflpc17xx/iap.c:96-108 | The ROM's erase: needs every sector prepared, leaves them all ones and everything else alone; refused half-way it may leave anything there |
| Flash.Chip.CopyRamToFlash | rflpc17xx/iap.c:110-124 | The ROM's copy within the documented limits (256-byte boundary, word-aligned RAM source, four lengths): bitwise and of old contents and source on the range, nothing elsewhere |
| Flash.Chip.WriteBufferToSector | rflpc17xx/iap.c:150-184 | On success the 4K sector holds the buffer; in every case nothing outside the sector changes and no erase or copy meets an unprepared sector; success is impossible from sector 16 on, where an obliging ROM leaves the sector blank, and with an obliging ROM happens exactly within the copy limits |
| Flash.Chip.WriteToSector | rflpc17xx/iap.c:186-216 | On success, from a source clear of the sector buffer, the requested bytes are in place and the rest of the 4K sector has survived the read, erase and reprogram cycle, up to the exact number of bytes memcpy moves; refused without any change unless the range lies in one small sector, the only ranges an obliging ROM completes |
| Flash.Chip.WriteBuffer | rflpc17xx/iap.c:218-253 | Terminates. On 0 the whole range equals the buffer, the bytes behind it up to RangeReach are those that memcpy dragged along from behind the source, and all other flash is unchanged: nothing but the range has changed if and only if those bytes are the ones that were there, and RangeExact is a sufficient check; otherwise the first `good` bytes are right and only the sector after them is damaged; with an obliging ROM, 0 exactly when WritesThrough holds |
| Flash.Chip.FullSectors | rflpc17xx/iap.c:236-249 | The loop over full sectors returns -1 whenever it is entered: each round asks for one byte less than a sector, so the second straddles the boundary |
| Flash.Chip.Transfer | rflpc17xx/iap.c:255-300 | On 0 the destination equals the source, the sector's bytes outside the 4K steps are blank and all other flash is unchanged; with an obliging ROM, 0 exactly when the rounded range fits the sector from a 256-byte boundary, and no byte is programmed twice and every erase and copy finds its sector prepared if and only if Orderly holds: no step that is asked for leaves the sector |
| Flash.TransferTooLong | rflpc17xx/iap.c:255-300 | 5000 bytes from the last 4K of a sector on, within the documented 32K: a copy is asked for in a sector that is not prepared, and the transfer fails |
| Rings.EmptyRing | rflpc17xx/drivers/ethernet.c:306-334 | Setting both indices equal gives a legal empty ring exactly when the index kept by the hardware is below the new count |
| Rings.RingRefinesFifo | rflpc17xx/drivers/ethernet.h:213-318 | Every step of the ring is the same step of a bounded FIFO with a staging area, and is possible exactly when the FIFO allows it |
| Rings.RunIsFifo | rflpc17xx/drivers/ethernet.h:213-318 | Over every run: indices below N, at most N - 1 frames waiting, frames out followed by frames waiting are the frames in, in order and each once |
| Rings.RunSubmits | rflpc17xx/drivers/ethernet.h:305-318 | What went in is what the producer had staged at each submission |
| Rings.FromEmpty | rflpc17xx/drivers/ethernet.c:306-334 | From the ring the base-address functions set up, over every run: frames out followed by frames waiting are exactly the frames handed over, at most N - 1 waiting |
| Rings.TakenRefines | rflpc17xx/drivers/ethernet.h:263-318 | Any number of frames consumed behind the driver's back shortens the queue by just these and keeps every staged slot |
| Ethernet.FullTestIs | rflpc17xx/drivers/ethernet.h:281-286 | The driver's queue-full test on unsigned registers is true for exactly one slot: the one that must stay empty |
| Ethernet.ScanMustBeInOrder | rflpc17xx/drivers/ethernet.h:279-290 | For every idx the test refuses exactly those equal to the free count modulo N; a slot it lets through is free if and only if idx modulo N is below the free count |
| Ethernet.OverrunLosesFrames | rflpc17xx/drivers/ethernet.h:309-318 | For every count of free + 2 or more: exactly when the test lets it pass, and that the hardware then finds the first (pending + count) modulo N slots. Below N this is the queue without its last N - count frames |
| Ethernet.OverrunExample | rflpc17xx/drivers/ethernet.h:309-318 | A ring of four with two frames waiting, three handed over: one frame is left |
| Ethernet.VisibleIsQueue | rflpc17xx/drivers/ethernet.h:217-224 | In a legal ring the slots between the two registers hold exactly the frames waiting, in order |
| Ethernet.TwoReads | rflpc17xx/drivers/ethernet.h:281-286 | For every slot: two reads of the consume index with frames going out between them answer as one test at the later moment |
| Ethernet.TxRing.SetBaseAddresses | rflpc17xx/drivers/ethernet.c:322-334 | An empty ring whose staging area is the N - 1 slots after the produce index, legal if and only if the hardware's index fits the count |
| Ethernet.TxRing.QueueFull | rflpc17xx/drivers/ethernet.h:281-286 | The test with the DMA engine stepping before every register read, for every inc: true exactly if inc modulo N is the free count of the state it returns in |
| Ethernet.TxRing.SlotFull | rflpc17xx/drivers/ethernet.h:281-286 | The same for every slot: true exactly for the slot that must stay empty |
| Ethernet.TxRing.GetDescriptor | rflpc17xx/drivers/ethernet.h:279-290 | For every idx, while frames go out: refused exactly if idx modulo N is the free count, and a slot handed out is free exactly if idx modulo N is below it; scanning in order therefore never hands out a slot the hardware owns, and a refusal then means that all free slots have been handed out |
| Ethernet.TxRing.DoneProcess | rflpc17xx/drivers/ethernet.h:309-318 | For every count of 1 or more, while frames go out: accepted exactly if count - 1 modulo N is not the free count, and then the produce index moves by count modulo N; up to the free count that hands over exactly the first `count` staged frames. A refusal, and a count of 0, change nothing |
| Ethernet.TxRing.SendAll | rflpc17xx/drivers/ethernet.h:263-318 | Filling slots 0, 1, 2, ... and submitting them together: all frames go out in order or none does, whatever the hardware does meanwhile; they go out when there were enough free slots |
| Ethernet.RxRing.SetBaseAddresses | rflpc17xx/drivers/ethernet.c:306-320 | An empty receive ring, legal if and only if the hardware's index fits the count |
| Ethernet.RxRing.GetDescriptor | rflpc17xx/drivers/ethernet.h:217-237 | Valid exactly when a frame is waiting, and then the descriptor is the oldest frame's |
| Ethernet.RxRing.DoneProcess | rflpc17xx/drivers/ethernet.h:245-253 | Gives back the oldest frame, and no more than one, while frames keep arriving |
| Ethernet.RxRing.DrainHandler | samples/dhcp/simple_net.c:42-57 | Ends, delivers every accepted frame once and in order, those that arrive during the drain included, and leaves the ring empty |
| Ethernet.ControlWordReadsBack | rflpc17xx/drivers/ethernet.h:183-202 | The control word says the size asked for, under the minus-one encoding the size getter undoes, for every size from 1 to 2048, and exactly the flags asked for |
| Ethernet.SampleSendsOneByteMore | samples/ethernet/main.c:172-222 | The word the sample writes by hand reads as one byte more than the frame, with neither the padding nor the override bit |
| I2cBus.ResultTellsApart | rflpc17xx/drivers/i2c.c:46-48 | The 16-bit result of Write and Read determines status and count; its low byte is the count, and it is below 256 exactly on success |
| I2cBus.SessionWellFormed | rflpc17xx/drivers/i2c.c:169-485 | The events of any sequence of master calls form a legal bus word (sections 3.1.4 to 3.1.6 and 3.1.10 of UM10204), whatever the slaves answer |
| I2cBus.PrefixWellFormed | rflpc17xx/drivers/i2c.c:169-485 | Legality of a bus word is inherited by every prefix: the trace is legal at every moment |
| I2cBus.CallShape | rflpc17xx/drivers/i2c.c:196-278 | Each call sends one address byte, first, with the read bit exactly for reads, and one repeated START exactly on success with stop = 0, last |
| I2cBus.WriteTraceScan | rflpc17xx/drivers/i2c.c:210-278 | A write leaves the bus free after STOP on success or refused data, and in an address phase otherwise |
| I2cBus.ReadTraceScan | rflpc17xx/drivers/i2c.c:420-485 | A read leaves the bus free exactly on success with stop set |
| I2c.Controller.Init | rflpc17xx/drivers/i2c.c:153-158 | In master mode the flags start clear, AA included |
| I2c.Controller.Wait | rflpc17xx/drivers/i2c.c:364-365 | The busy wait ends, and the status it ends on is the one the byte on its way and its acknowledge bit call for |
| I2c.Controller.Write | rflpc17xx/drivers/i2c.c:169-278 | Terminates with AA clear; the bus sees exactly the trace of the result word: data[0..k) where k is its low byte, all acknowledged on success, the k-th refused on a data NACK, nothing on a busy slave |
| I2c.Controller.WriteOddAddress | rflpc17xx/drivers/i2c.c:169-366 | With an odd address the call does not return: after the address byte, answered or not, any number of further rounds of its loop change nothing |
| I2c.Controller.Read | rflpc17xx/drivers/i2c.c:371-485 | Terminates with AA clear, which its first-byte case relies on; the result word says success with n bytes, or one if n is 0, stored in bus order, the last alone refused, or a busy slave; the rest of the buffer is untouched, all of it when the slave is busy |
| I2c.Controller.Session | rflpc17xx/drivers/i2c.c:169-485 | Any sequence of calls appends exactly the session's trace to the bus and keeps the whole trace legal |
| I2c.Controller.ReadRegister | samples/i2c-test-mbed-board/lm75b.c:28-42 | A write with stop = 0 followed by a read is one combined transaction with no STOP in between when both succeed |
| I2cSlave.Block.Read | rflpc17xx/drivers/i2c.c:494-604 | As a slave receiver, for every master: stores at most n bytes, or at most 256 if n is 0, exactly those the master sent and the slave acknowledged, in order; the low byte of the result word is the number stored modulo 256 on both exits, and it listens again |
| Checksum.DeferredCarries | samples/dhcp/protocols.c:54-66 | Adding words in 32 bits and folding afterwards is the one's-complement sum of section 1 of RFC 1071, for every buffer, odd lengths included |
| Checksum.FoldKeeps | samples/dhcp/protocols.c:63-65 | One fold keeps the sum's one's-complement value and, while a carry is left, makes it smaller |
| Checksum.TotalBound | samples/dhcp/protocols.c:54-62 | The accumulator's size against the length |
| Checksum.TotalFits | samples/dhcp/protocols.c:54-62 | For a length n, no contents overflow the 32-bit accumulator if and only if n is at most 131074 |
| Checksum.ProtoChecksum | samples/dhcp/protocols.c:52-67 | For every range of up to 131074 bytes the accumulator does not overflow, the fold ends, and the result is the Internet checksum |
| Checksum.FilledFieldVerifies | samples/simple_udp/protocol.c:171-174 | Data whose checksum field was zero checks to zero once the field is filled |
| Checksum.OneWordErrorShows | samples/dhcp/protocols.c:52-67 | Replacing one word keeps the checksum exactly if it is the same word, or 0x0000 and 0xFFFF replace each other in data with some other word than zero |
| Headers.EthRoundTrip | samples/dhcp/protocols.c:69-88 | Ethernet header and wire bytes determine each other |
| Headers.ArpRoundTrip | samples/dhcp/protocols.c:90-122 | ARP packet and wire bytes determine each other |
| Headers.IpRoundTrip | samples/dhcp/protocols.c:124-158 | IPv4 header and wire bytes determine each other |
| Headers.IcmpRoundTrip | samples/dhcp/protocols.c:160-188 | ICMP header and wire bytes determine each other, in both readings of its last word |
| Headers.UdpRoundTrip | samples/dhcp/protocols.c:191-207 | UDP header and wire bytes determine each other |
| Headers.EthMangle | samples/dhcp/protocols.c:79-88 | Stores the wire bytes at the place given and changes nothing else |
| Headers.ArpMangle | samples/dhcp/protocols.c:110-122 | The same for ARP |
| Headers.IpMangle | samples/dhcp/protocols.c:138-158 | The same for IPv4; a zero checksum is replaced by the computed one over the header length the header gives, options included; the stored header then checks to zero if and only if that length is three words or more, or its words add up to 0xFFFF |
| Headers.ShortHeaderFails | samples/dhcp/protocols.c:151-157 | A one-word header of zeros does not check to zero |
| Headers.ShortHeaderMayPass | samples/dhcp/protocols.c:151-157 | A one-word header that does |
| Headers.IcmpMangle | samples/dhcp/protocols.c:175-188 | The same for ICMP |
| Headers.UdpMangle | samples/dhcp/protocols.c:200-207 | The same for UDP |
| Headers.EthDemangle | samples/dhcp/protocols.c:69-78 | Reads the header the bytes encode |
| Headers.ArpDemangle | samples/dhcp/protocols.c:90-109 | Reads the packet the bytes encode |
| Headers.IpDemangle | samples/dhcp/protocols.c:124-137 | Reads the header the bytes encode |
| Headers.IcmpDemangle | samples/dhcp/protocols.c:160-174 | Reads the header the bytes encode |
| Headers.UdpDemangle | samples/dhcp/protocols.c:191-198 | Reads the header the bytes encode |
| Echo.ProcessPacket | samples/ethernet/main.c:130-232 | Answers exactly the ARP packets for its address and the echo requests for it, when a descriptor is free; the ARP reply is the one due; an echo reply has the addresses exchanged, the same identifier, sequence number and payload, and both checksums verify to zero; the place of the IP options, and everything behind the reply but what memcpy spills, keeps its previous contents; of all memory only the transmit buffer changes, and nothing without a reply |
| Echo.OptionsReturned | samples/ethernet/main.c:194-216 | Whatever was in the buffer and whatever reply is built over it, the reply has the request's IP options, if and only if the request has none |
| Echo.StaleOptions | samples/ethernet/main.c:194-216 | A run on an echo request with one word of options: it is answered, and with the byte the buffer held in place of the option |
| Ip4.GettersParseIp | samples/simple_udp/protocol.c:75-139 | The getters over the frame agree with the header parser of the other samples |
| Ip4.GettersParseUdp | samples/simple_udp/protocol.c:178-193 | The same for UDP, behind any IP header length |
| Ip4.Sender.SetHeader | samples/simple_udp/protocol.c:149-175 | The five-word header of the arguments with the next identification; it checks to zero, and nothing else of the frame changes |
| Ip4.Sender.UdpSetHeader | samples/simple_udp/protocol.c:196-211 | The UDP header behind whatever IP header the frame holds, length eight more than the payload in 16 bits |
| Dhcp.NtohlTwice | samples/dhcp/main.c:188-200 | Two conversions give the address back; one puts it in network order in memory |
| Dhcp.CreateOptionArray | samples/dhcp/main.c:104-110 | The whole new memory: code, length, and as many bytes of the value as memcpy moves |
| Dhcp.OptionExact | samples/dhcp/main.c:104-110 | Whatever the memory holds, the option is written and nothing else, if and only if the value has no byte or at least four, or value and option are not both word-aligned |
| Dhcp.OptionSpills | samples/dhcp/main.c:104-110 | Otherwise a memory on which a byte behind the option changes |
| Dhcp.CreateOptionSimple | samples/dhcp/main.c:112-115 | The same from the parameter's place on the stack, for every length: the option gets the low bytes of the word, and what lies behind the parameter from the fifth byte on |
| Dhcp.BuildRequest | samples/dhcp/main.c:188-191 | In a word-aligned message the three options of a request and their end marker, the addresses in network order; besides them only the parameter's place changes |
| Dhcp.WalkableWithRoom | samples/dhcp/main.c:117-130 | On arbitrary bytes the scanner stays in a buffer with room for the farthest option |
| Dhcp.FieldWalkable | samples/dhcp/main.c:117-130 | All contents of a field of n bytes keep the scanner inside if and only if n is at least 62 plus max_size |
| Dhcp.EncodingHolds | samples/dhcp/main.c:104-110 | An encoded list lies in memory option by option |
| Dhcp.ScanFindsFirst | samples/dhcp/main.c:117-130 | On any well-ended list the scanner stays inside the list, finds the first option with the code, cut to max_size, and nothing exactly when there is none |
| Dhcp.BuilderThenScanner | samples/dhcp/main.c:104-130 | Builder then scanner, for every list whose end marker comes within the scanner's 60 bytes, every code and every max_size |
| Dhcp.GetOptionArray | samples/dhcp/main.c:117-130 | The loop ends on any bytes; the result says whether the scan found the option, and the new memory is what memcpy of the value, cut to max_size, leaves |
| Dhcp.DeliveredIs | samples/dhcp/main.c:123-127 | For a target clear of the options: the value cut to max_size and nothing else, or, for one to three bytes between word-aligned places, the 32 bytes behind it as well |
| Dhcp.FoundIs | samples/dhcp/main.c:104-130 | Against the list the bytes came from: what is found is the first match cut to max_size, and nothing exactly when there is none |
| Dhcp.GetOptionSimple | samples/dhcp/main.c:132-138 | 255 if absent, else the word the copy leaves, and all memory it changes: the value with high zeros, or four bytes of memory and the 32 behind the copy if it spills |
| Dhcp.BuiltWord | samples/dhcp/main.c:132-138 | Against the list the bytes came from: the word is the first match with high zeros if and only if the value has no byte or at least four, or is not word-aligned, or the bytes behind it that spill into the word are zero |
| Dhcp.ShortValueMisread | samples/dhcp/main.c:132-138 | In options that start word-aligned, a one-byte value of 5 behind a four-byte option reads as 0x00043305, and 33 bytes are written |
| DhcpPads.PairedScan | samples/dhcp/main.c:117-130 | On a list with pads (section 3.1 of RFC 2132), every field with an even number of them directly before it, the scanner stops where the standard says |
| DhcpPads.HiddenMissed | samples/dhcp/main.c:117-130 | The first field with an odd number of pads before it is never found |
| DhcpPads.PadsMatter | samples/dhcp/main.c:117-130 | Of a list in which no code comes twice: every lookup stops where the standard says if and only if every field has an even number of pads directly before it |
| DhcpPads.PadHidesServer | samples/dhcp/main.c:117-130 | One pad before the server identifier, and the lookup for it finds nothing |
| Dhcp.AbsentLooksLike255 | samples/dhcp/main.c:132-138 | Exactly which values, read with high zeros, cannot be told from an absent option |
| Dhcp.AddressReadsBack | samples/dhcp/main.c:198-200 | A four-byte address built through ntohl reads back through ntohl |
| Dhcp.RequestRoundTrip | samples/dhcp/main.c:188-200 | The two addresses of a request read back from its bytes |
| DhcpMessage.ConvertedTwice | samples/dhcp/dhcp.c:21-43 | Converting the four addresses twice is the identity on the 300 bytes |
| DhcpMessage.ConvertedAddress | samples/dhcp/dhcp.c:25-28 | Each address stands in network order on the wire exactly when the processor holds it; all other bytes are the same |
| DhcpMessage.DhcpMangle | samples/dhcp/dhcp.c:30-43 | The converted message goes out through the library's memcpy and the struct is left as it was, as is all other memory |
| DhcpMessage.DhcpDemangle | samples/dhcp/dhcp.c:21-29 | The struct becomes the converted packet, and nothing else changes |
| DhcpMessage.MessageRoundTrip | samples/dhcp/dhcp.c:21-43 | A message mangled into a packet and demangled elsewhere is the message, and the packet between is its network form |
| Printf.DecParses | rflpc17xx/tinylibc/printf.c:73-82 | The decimal reference form is canonical and reads back, for every number |
| Printf.IntParses | rflpc17xx/tinylibc/printf.c:113-124 | The signed form reads back for every word, the smallest integer included |
| Printf.PaddedIsDec | rflpc17xx/tinylibc/printf.c:76-81 | Digits taken from the highest power of ten down are the canonical numeral |
| Printf.HexParses | rflpc17xx/tinylibc/printf.c:58-66 | n hexadecimal digits read back modulo 16 to the n |
| Printf.StripParses | rflpc17xx/tinylibc/printf.c:60-63 | Leaving out leading zeros keeps the value and one digit |
| Printf.HexReadsBack | rflpc17xx/tinylibc/printf.c:140-148 | A hexadecimal conversion reads back modulo 2 to the 8 times ccount; padded it has all its digits, else no leading zero |
| Printf.Console.PutIntNumber | rflpc17xx/tinylibc/printf.c:73-82 | Puts out the canonical numeral for every 32-bit value (the power of ten never wraps) and counts it |
| Printf.Console.PutHexaVal | rflpc17xx/tinylibc/printf.c:58-66 | Puts out the hexadecimal form, stripped or padded, and counts it |
| Printf.Console.PutSigned | rflpc17xx/tinylibc/printf.c:113-124 | Sign and numeral for every word, with the negation wrapping at the smallest integer |
| Printf.Console.Printf | rflpc17xx/tinylibc/printf.c:84-190 | On every well-formed format the output grows by the recursive rendering that threads ccount and print_zero, and the result is the number of characters put out |
| Printf.RenderAppend | rflpc17xx/tinylibc/printf.c:87-184 | A format behind another renders as on its own, but in the mode the other leaves |
| Printf.StickyWidth | rflpc17xx/tinylibc/printf.c:106-110 | A plain %x behind any format shows its argument if and only if it fits the width that format left |
| Printf.DocumentedWidth | rflpc17xx/tinylibc/printf.h:37 | Of the documented widths 1 to 9, %0?x prints ? digits if and only if ? is 2 or 4 |
| Rand.Pack | rflpc17xx/tinylibc/rand.c:44-57 | The three groups of bits stay readable in the result, which is never negative |
| Rand.PackIsXor | rflpc17xx/tinylibc/rand.c:48-57 | Joining the groups by shifts and exclusive or is joining them by sums |
| Rand.RandR | rflpc17xx/tinylibc/rand.c:40-62 | The result and the next seed, three steps of the generator on |
| Rand.NextInvertible | rflpc17xx/tinylibc/rand.c:44-59 | A call can be undone: seeds are permuted |
| Rand.SeedsStayApart | rflpc17xx/tinylibc/rand.c:31-34 | After any one number of calls, generators seeded differently are still apart |
| Rand.SeedPeriod | rflpc17xx/tinylibc/rand.c:40-62 | The period is full: for every seed, a generator is back at it after n calls if and only if 2^32 divides n |
| Rand.SeedsRepeat | rflpc17xx/tinylibc/rand.c:40-62 | The seeds after i and after j calls are the same if and only if 2^32 divides j - i |
| Period.FullPeriod | rflpc17xx/tinylibc/rand.c:45-59 | The reason: for a multiplier of 1 modulo 4 and an odd addend, n steps come back modulo 2^k if and only if 2^k divides n |
| Rand.Generator.Rand | rflpc17xx/tinylibc/rand.c:24-34 | rand draws from the static seed and advances it |

## Left out

- Ethernet.TxRing.DoneProcess: counts are not negative; the same holds for the idx of Ethernet.TxRing.GetDescriptor.
- Flash.Chip.WriteBuffer: lengths are not negative and addresses do not wrap round the 32-bit space; the source has 32 readable bytes behind it and lies clear of the sector buffer and of the range.
- Flash.Chip.WriteToSector: a source that overlaps the sector buffer is overwritten by the first copy; what is then programmed is not stated.
- Flash.Chip.Transfer: a source outside the sector and clear of the sector buffer; for a ROM that refuses legal commands it says when the order is kept, not when it breaks.
- Memory.Memset: n + 7 does not overflow 32 bits; the same holds for Memory.Memcpy.
- Echo.ProcessPacket: echo requests whose data length would be negative or leave the frame are outside the claim; of the reply to a header length below five words only its size and place are stated; the descriptor ring is one flag.
- Dhcp.GetOptionArray: memory goes on far enough behind the options and the target for every byte the scan and the copy touch.
- Dhcp.GetOptionSimple: its local word lies at least 36 bytes clear of the options; the parameter of Dhcp.CreateOptionSimple is as clear of the option.
- Dhcp.BuildRequest: the message is word-aligned, as a struct of words is.
- I2c.Controller.Write: even addresses, and the same in Session, since with an odd one the call does not return.
- I2cSlave.Block.Read: one own address, and no general call.
- Printf.Console.Printf: complete directives with the arguments they take; the count does not overflow; a format that ends inside a directive is undefined in the source.
- Rand.RandR: the exclusive or of bit groups that do not overlap is written as a sum, which Rand.PackIsXor justifies.
- I2C arbitration loss (single master), the slave transmitter, status 0x00, bus errors and the timing of the bus.
- `dhcp_process_packet` and `packet_in`: the same scan as `dhcp_get_option_array`, and dispatch.
- `simple_net_get_tx_buffer` and `simple_net_emit_buffer`: a spin on TxRing.GetDescriptor and a submission of one frame, without a proof that the hardware makes progress.
- The slot buffers of `samples/dhcp/simple_net.c` as memory: a slot of a ring is a value of any type.
- Interrupt clearing, PHY, link negotiation, MAC filters and addresses.
- `samples/ethernet/protocols.c` (the dhcp copy without UDP), the packet dump and print functions.
- Serial number query, the ROM's own code, clocks.
- GPIO, UART, SPI, DMA, ADC, DAC, PWM, timers, displays, startup code and assembly: register plumbing.

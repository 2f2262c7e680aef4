# Verification of the GRE-style VPN

A Dafny 4.11 model of the byte-level logic of a small VPN. A client builds a
packet (GRE, IP and TCP headers and a text payload), enciphers it with a
repeating XOR key and sends a prefix of it to a server. The server deciphers
it, strips the GRE header, puts its own address into the source field and
forwards the rest. The destination replies, and the server re-encapsulates the
reply, puts the client's address into the destination field, enciphers it and
sends it back.

`dafny verify dfyconfig.toml` checks the whole project.

## Structure

| file | contents |
|---|---|
| `Bytes.dfy`, `Bits.dfy`, `CStrings.dfy`, `Wrappers.dfy` | byte and word types, little-endian fields, byte swaps, bitwise operators, NUL-terminated strings |
| `Checksum.dfy`, `ChecksumLaws.dfy` | the two Internet checksum implementations; closed form, exact range, agreement, self-verification, detection, reordering |
| `Cipher.dfy` | the XOR loop and its laws |
| `Address.dfy`, `Hosts.dfy` | dotted-quad parser and printer, host table |
| `Packet.dfy` | packet layout; building, enciphering, receiving and rewriting packets in place |
| `Rewriting.dfy` | frame and algebra of the header rewrites |
| `SumConventions.dfy` | how built headers are checksummed, and how that differs from the rewrites |
| `Tunnel.dfy` | the cipher combined with C-string framing, byte for byte |
| `Client.dfy`, `Server.dfy`, `Destination.dfy` | the packet part of the three programs |
| `Session.dfy`, `SessionLaws.dfy`, `ReplyLaws.dfy` | a session as a state machine over four byte links; what every run guarantees |
| `Progress.dfy` | which runs can be completed, and one schedule that completes all of them |
| `EndToEnd.dfy` | exact end-to-end delivery; independence from the client's address |
| `Programs.dfy` | the sessions the programs actually hold: table hosts, their two texts, and the inputs on which things fail |
| `Wire.dfy` | the bytes on the four links, in figures |

Code that works on buffers is modelled by methods over arrays. Each such method
is proved equal to a function on sequences, and the laws are proved about those
functions. The session's steps use exactly the functions that the methods of
`Client`, `Server` and `Destination` are proved to compute; `EveryReadIsSafe`
shows that their preconditions hold whenever a step is enabled.

## Conventions

- The host is little-endian, so `htons` and `ntohl` reverse bytes, and `char` is signed.
- Offsets in an encapsulated packet: GRE 0, IP 6, TCP 26, payload 46; the packet has 174 bytes.
- Unsigned 32-bit variables wrap explicitly. An `int` that accumulates an octet is taken modulo
  2^32 when it is stored, which is what two's-complement wrap-around gives.
- A link is the sequence of bytes sent on it; `recv` takes any prefix that has arrived and blocks
  until there is at least one byte, or the sender has exited and the stream ends.
- The server's `connect` may fail at any time; the server then exits, which ends the client's stream.
  A connection that succeeds reaches the destination exactly when the address text the server dialed
  is the destination's; any other host does not answer.

## Findings about the code

- What reaches the destination behind a whole text is a NUL and then key bytes
  (`TableSessionOnTheWire`): the server deciphers bytes that never arrived.
- `parse_ip_addr` takes any text. A full stop at the end, further fields and leading zeros make no
  difference; an octet above 255 is or-ed into the octet before it, and a character counts as a signed
  number less 48 (`FinalStopIsIgnored` to `LoneCharacter` in `Address.dfy`).
- Payload length is measured on ciphertext (src/packet.c:240-241). A payload byte equal to its key
  byte enciphers to NUL and cuts the message there. `LosslessIff` and `EndToEndDelivery` give the
  exact condition; the payload `V` arrives as the empty text (`PayloadVIsLost`), and the two texts
  the programs send arrive unharmed (`TableHostsExchangeTexts`).
- A payload of 128 characters is stored without its last character (src/packet.c:144-149), so it
  never arrives whole (`EndToEndDelivery`).
- Callers apply `htons` to a value `cksum` has already swapped, so a built header checked as stored
  verifies exactly when its word sum is a multiple of 257 (`BuiltHeaderVerifiesIff`). No IP header
  between hosts of the table does (`TableHeadersNeverVerify`), nor does the constant GRE header
  (`GreHeaderFailsVerification`), nor a TCP header with the flags in use: 252 is the only value of
  the flags that verifies (`TcpHeaderVerifiesIff`).
- `set_ip` sums addresses as stored and the server's handlers sum them byte-swapped. A rewrite of a
  built packet to its own source leaves it unchanged only if `NeutralRewriteOfBuiltIff` applies, and
  between hosts of the table it never does (`TableRewritesNeverNeutral`).
- A server that reads fewer than 26 bytes of the request sees key bytes where address bytes are
  missing, and dials that address. It is the right one exactly when every missing byte equals the key
  byte at its place (`DialsTheChosenDestination`, `ReadsRightIff`); a read of at most 22 bytes dials
  the key itself, which is right for the one destination with that address (`ShortReadDialsKey`).
  Between hosts of the table every read of fewer than 26 bytes goes wrong, and no continuation brings
  the client a byte (`TableProgressIff`, `ShortReadNeverCompletes`). Otherwise, unless `connect`
  fails, no schedule can keep the client from being answered (`NoScheduleWedges`).
- `recv` returning 0 is not an error to the client (src/packet.c:236-239): after a failed `connect`
  at the server it opens a buffer of key bytes with the empty text (`FailedConnectEndsEmpty`,
  `NothingOpened`).
- `cksum` agrees with RFC 1071, up to the two representations of zero, on every buffer of at most
  131074 bytes, and can differ from 131075 on.
- src/packet.h:49-52 says that `serv_handle_pkt_dest` sets the destination to the server's address;
  the code sets the address it is given, and the server passes the client's. The model follows the
  code. The comment at src/packet.c:151 speaks of the payload; the code enciphers the whole packet.

## Model

| member | source | states |
|---|---|---|
| Checksum.Cksum | src/utils.c:25-37 | the summing loop with 32-bit wrap, odd tail, fold loop, complement and zero mapping compute `CksumOf` for every buffer and length |
| Checksum.VerifyChecksum | src/utils.c:44-47 | 0 exactly when the checksum matches, -1 otherwise |
| Checksum.CalculateChecksum | doc/guide_mininet/examples/client_packet.c:20-41 | little-endian sum, two fixed folds and truncated complement compute `CalculateOf`, whose value `CalculateIsZeroIff` and `AgreementExactly` determine; the 64-bit sum stays far from overflow |
| Checksum.FoldWithinTwoRounds | src/utils.c:33-34 | on every 32-bit sum the fold loop ends within two rounds |
| Checksum.TwoFoldsMatchLoop | doc/guide_mininet/examples/client_packet.c:36-37 | the two fixed folds give the loop's result on every 32-bit sum |
| Checksum.CksumClosedForm | src/utils.c:25-37 | for every length the result is swap16(65535 - accumulator mod 65535), never 0 |
| Checksum.AccumulatorNeverWraps | src/utils.c:29-32 | up to 131074 bytes nothing wraps and the result is the RFC 1071 checksum of the true word sum, with 0xffff for 0 |
| Checksum.AccumulatorWrapsBeyond | src/utils.c:29-32 | at 131075 bytes there is a buffer whose words overflow the accumulator |
| Checksum.ExactIffSumFits | src/utils.c:29-36 | for every `int` length the result is the RFC 1071 checksum of the true word sum, with 0xffff for 0, if and only if that sum fits 32 bits |
| Checksum.NativeSumIsTimes256 | doc/guide_mininet/examples/client_packet.c:26-34 | byte-order independence, section 2(B) of RFC 1071: the native-order sum is 256 times the big-endian sum modulo 65535 |
| ChecksumLaws.AgreementWithinBound | doc/guide_mininet/examples/client_packet.c:20-41 | both implementations agree on all buffers up to 131074 bytes, with 0xffff for 0 |
| ChecksumLaws.AgreementExactly | doc/guide_mininet/examples/client_packet.c:20-41 | for every `int` length they agree if and only if the carries lost by wrapping match the carry lost by folding twice |
| ChecksumLaws.AgreementFailsBeyond | doc/guide_mininet/examples/client_packet.c:36-37 | a buffer of 131075 bytes on which they differ |
| ChecksumLaws.CalculateIsZeroIff | doc/guide_mininet/examples/client_packet.c:36-40 | for every `int` length the answer is 0 exactly for a non-zero word sum that is a multiple of 65535 and loses no carry, and up to 131074 bytes none is lost |
| ChecksumLaws.OddTailIsPadded | src/utils.c:31-32 | both implementations sum an odd last byte as if a zero byte followed |
| ChecksumLaws.ExampleOfTheRfc | src/utils.c:25-37 | both give the checksum of the example in section 3 of RFC 1071 |
| ChecksumLaws.SelfVerification | src/utils.c:25-37 | a value stored in the zeroed field makes the buffer sum to 0xffff exactly when it is the returned value, or 0 for 0xffff |
| ChecksumLaws.DoubleSwapVerifies | src/packet.c:75-76 | storing `htons` of the returned value instead verifies exactly when the word sum is a multiple of 257 |
| ChecksumLaws.VerifyAcceptsExactly | src/utils.c:44-47 | verification accepts exactly the buffers with a congruent word sum modulo 65535 |
| ChecksumLaws.SingleWordChangeDetected | src/utils.c:44-47 | every change of one aligned word is detected except 0x0000 exchanged with 0xffff |
| ChecksumLaws.WordOrderIndependence | src/utils.c:29-32 | section 2(A) of RFC 1071: any permutation of the aligned words keeps the checksum, for every length |
| Cipher.XorEncryptDecrypt | src/encrypt.c:22-26 | the loop writes the enciphered prefix and nothing else, also in place |
| Bits.XorBits | src/encrypt.c:24 | a bit of the exclusive or is set exactly where the operands' bits differ |
| Cipher.CryptInvolution | src/encrypt.c:22-26 | enciphering twice is the identity, for every length |
| Cipher.CryptOfPrefix | src/encrypt.c:22-26 | enciphering commutes with taking any prefix |
| Cipher.CryptOfSuffix | src/encrypt.c:22-26 | enciphering commutes with dropping a prefix exactly when its length is a multiple of the key length or nothing is left |
| Cipher.CipherByteIsNul | src/encrypt.c:24 | a ciphertext byte is NUL exactly when the plaintext byte equals its key byte |
| Address.ParseIpAddr | src/host_info.c:31-48 | the nested loops compute `Parse` for every string, canonical or not |
| Bits.OrBits | src/host_info.c:43 | a bit of the inclusive or is set exactly where an operand's bit is |
| Address.FinalStopIsIgnored | src/host_info.c:36-45 | a full stop at the end of any text makes no difference |
| Address.RestIsIgnored | src/host_info.c:36-45 | only the first four fields count, whatever they hold |
| Address.LeadingZeroIsIgnored | src/host_info.c:37-39 | a zero in front of any text makes no difference |
| Address.Octet256IsOred | src/host_info.c:43-44 | a last octet of 256 sets the lowest bit of the octet before it |
| Address.LoneCharacter | src/host_info.c:37-39 | any character alone in the last field counts as a signed number less 48, modulo 2^32 |
| Address.ParseIpAddrToStr | src/host_info.c:57-60 | the buffer receives the dotted text and a NUL, the rest of it is untouched |
| Address.PrintInFigures | src/host_info.c:57-60 | the text is the four octets, highest first, in decimal figures without superfluous zeros, with full stops (0x2e) between them |
| Address.PrintIsCanonical | src/host_info.c:57-60 | the printed text is a canonical dotted quad of at most 15 characters plus NUL |
| Address.ParseOfPrint | src/host_info.c:31-60 | parsing undoes printing for all 2^32 addresses |
| Address.PrintOfParse | src/host_info.c:31-60 | printing undoes parsing on exactly the canonical texts |
| Address.CanonicalTextsAreAddresses | src/host_info.c:31-48 | parsing is injective on canonical texts |
| Hosts.GetHostIp | src/host_info.c:67-76 | the loop returns the address of the first host with the name, or nothing |
| Hosts.HostIpIff | src/host_info.c:67-76 | nothing is found exactly for a name that no entry has |
| Hosts.TableIs | src/host_info.c:17-21 | the table, exactly: `h1` to `h7` have 10.0.0.1 to 10.0.0.7, and no other name has an address |
| Hosts.TableLookup | src/host_info.c:17-21 | the table gives each of its seven hosts that host's address |
| Hosts.HostIpsAreCanonical | src/host_info.c:17-21 | every address the table yields is a canonical text |
| Packet.PacketEncapsulate | src/encap.c:20-30 | the three GRE fields with the checksum over the partly filled header |
| Packet.EncapsulatedIs | src/encap.c:20-30 | encapsulation writes the six bytes 00 01 08 00 fe f7 and leaves the body alone |
| Packet.EncapsulationKeepsBody | src/encap.c:20-30 | encapsulation is idempotent, and two buffers become equal exactly when their bodies are |
| Packet.SetIp | src/packet.c:65-77 | the IP fields, in the order and byte order of the code, and their checksum |
| Packet.IpWriterFrame | src/packet.c:65-77 | on any buffer: version, length in network order, protocol and addresses are written, every other byte is kept, and the checksum is that of the header as it then stands |
| Packet.SetTcp | src/packet.c:79-85 | ports, flags and a checksum over the header |
| Packet.TcpWriterFrame | src/packet.c:79-85 | on any buffer: ports 17350 and flags are written, every other byte is kept, and the checksum is that of the header with whatever its checksum field held |
| Packet.HeadersOnZeros | src/packet.c:134-141 | on a zeroed buffer the three writers produce the three headers, given byte by byte, and disturb nothing else |
| Packet.CreatePacketsDes | src/packet.c:160-194 | the plain packet: headers, payload clipped to 127 characters, zeros |
| Packet.CreatePackets | src/packet.c:117-158 | the same packet enciphered as a whole, with a NUL after the enciphered payload |
| Packet.SendAndFreePacketVpn | src/packet.c:196-206 | the prefix handed to `send`; its length for every protocol and payload size, with the 8-bit wrap |
| Packet.ServCliEncryptFree | src/packet.c:208-230 | the enciphered prefix that is sent, for every protocol and payload size that fits |
| Packet.ServRecFromCli | src/packet.c:232-255 | payload length measured on ciphertext, whole buffer deciphered, payload cut there |
| Packet.ServHandlePkt | src/packet.c:277-313 | despite the chain of swaps: new source, recomputed checksum |
| Packet.ServHandlePktDest | src/packet.c:315-351 | despite the chain of swaps: new destination, recomputed checksum |
| Rewriting.SourceRewriteFrame | src/packet.c:277-313 | a source rewrite changes only source and checksum, and `ntohs(ip_sum)` is the checksum of the byte-swapped header |
| Rewriting.DestRewriteFrame | src/packet.c:315-351 | a destination rewrite changes only destination and checksum, and `ntohs(ip_sum)` is the checksum of the byte-swapped header |
| Rewriting.SoundHeaderVerifies | src/packet.c:294-295 | exactly the sound value of the checksum field, or 0 for 0xffff, makes the byte-swapped header verify |
| Rewriting.LastWriterWins | src/packet.c:277-351 | a rewrite erases an earlier one of its kind; rewriting is idempotent |
| Rewriting.RewritesCommute | src/packet.c:277-351 | source and destination rewrites commute, checksum bytes included |
| Rewriting.RewriteNormalForm | src/packet.c:277-351 | any sequence of rewrites equals the last source rewrite and then the last destination rewrite |
| SumConventions.ExchangeKeepsIpSum | src/packet.c:65-77 | exchanging source and destination keeps the checksum `set_ip` writes |
| SumConventions.SetIpSumsAsBuilt | src/packet.c:75-76 | `set_ip` leaves any buffer with `htons` of the checksum of its header as stored |
| SumConventions.PlainPacketSummedAsBuilt | src/packet.c:160-194 | every packet the builders make is summed that way |
| SumConventions.NeutralRewriteIff | src/packet.c:277-313 | rewriting any packet so summed to its own source changes nothing exactly when length and address words add up to a multiple of 257 |
| SumConventions.NeutralRewriteOfBuiltIff | src/packet.c:277-313 | the same for every packet the builders make: 148 plus its four address words |
| SumConventions.BuiltHeaderVerifiesIff | src/packet.c:75-76 | an IP header as built verifies exactly when its word sum is a multiple of 257 |
| SumConventions.TcpHeaderInFigures | src/packet.c:79-85 | the twenty bytes of a built TCP header: port 17350 twice, the flags, and 0x7873 less the flags |
| SumConventions.GreHeaderFailsVerification | src/encap.c:28-29 | the GRE header as built never verifies |
| SumConventions.TcpHeaderVerifiesIff | src/packet.c:79-85 | a TCP header as built verifies exactly when its flags are 252, so never with SYN or ACK |
| Tunnel.FramingSafety | src/packet.c:240-241 | for every packet, payload and delivered prefix, `strlen` on ciphertext stops inside the buffer at exactly the surviving length |
| Tunnel.TunnelExactly | src/packet.c:232-255 | every byte of the deciphered packet, for every delivered prefix |
| Tunnel.TunnelDelivers | src/packet.c:232-255 | header bytes that arrived are recovered; the payload is the original cut at the first key collision or the last byte delivered |
| Tunnel.LosslessIff | src/packet.c:232-255 | the payload survives if and only if all of it arrives and no byte equals its key byte |
| Tunnel.SameCiphertext | src/packet.c:214-222 | the server's sender puts a prefix of the client's ciphertext on the link, so the same laws hold for it |
| Tunnel.TunnelReadsAddress | src/packet.c:232-255 | for every delivered prefix, an address field is read with key bytes in place of the bytes that did not arrive |
| Tunnel.ReadsRightIff | src/packet.c:249 | that is the address sent exactly when each byte that did not arrive equals the key byte at its place |
| Client.ClientMainSend | src/client.c:75-108 | nothing is sent for equal addresses or for a name that is not in the table; otherwise the request bytes, which `RequestOnTheWire` gives in figures |
| Client.GuardIsOnAddresses | src/client.c:84-88 | on canonical texts the string guard holds exactly when the numeric addresses are pairwise distinct |
| Server.ServerMainForward | src/server.c:129-162 | saved client address and dialed text; then the 168 forwarded bytes, or nothing where `connect` fails |
| Server.ServerMainReturn | src/server.c:168-187 | the enciphered bytes sent back, through the printed and re-parsed client address |
| Server.EncapsulationRoundTrip | src/server.c:171-177 | 174 needs no 8-bit wrap; what the server builds around a reply is encapsulated and decapsulates to exactly the buffer a receiver of the bare reply would have |
| Destination.DestinationMain | src/destination.c:88-118 | the received packet and the reply bytes, sent from offset 6, which `ReplyOnTheWire` gives in figures |
| Destination.LongestReply | src/destination.c:114-116 | the bytes sent from offset 6 end inside the packet exactly for replies of at most 122 characters |
| Session.RunKeepsInv | src/server.c:129-187 | after any sequence of actions every buffer and link is determined by the addresses, messages and byte counts |
| SessionLaws.DialsTheChosenDestination | src/server.c:147-154 | in every run, the exact text the server dials for the number of bytes it read, which is the destination the client chose if and only if each address byte it did not read is the key byte at its place |
| SessionLaws.DestinationGets | src/destination.c:88-95 | in every run the destination's packet comes from the server and is for the destination, with zeros for address bytes that did not arrive; has an IPv4 header for 148 bytes of TCP, a sound checksum and, in figures, the client's TCP header with the SYN flag once these arrived; and carries the payload cut at the first collision or the last byte delivered |
| ReplyLaws.ClientGets | src/client.c:110-113 | in every run a client that is done either was answered, and its packet has the GRE header, an IPv4 header for 148 bytes of TCP from the destination to the client, a sound checksum, in figures the destination's TCP header with the ACK flag, and the reply, all cut exactly where bytes did not arrive; or the server failed to connect, and it opened nothing |
| ReplyLaws.NothingOpened | src/packet.c:236-251 | opening an empty read gives the key 12 34 56 78 over and over, a NUL at the payload and the empty text |
| ReplyLaws.EveryReadIsSafe | src/packet.c:240-241 | in every run no enabled action reads past a buffer |
| Progress.NoScheduleWedges | src/server.c:129-187 | after any run whatsoever, the full schedule gets the client answered if and only if the server has not read yet, or has connected with each address byte it did not read equal to its key byte; always once connected after 26 bytes |
| Progress.OffCourseIsFinal | src/server.c:147-154 | otherwise no continuation brings the destination or the client a byte |
| Progress.EveryReadHappens | src/packet.c:236 | any number of bytes may be read from each of the four links in turn, as long as the server reads the right address |
| Progress.RefusedSendsNothing | src/client.c:84-88 | where two addresses are equal the client refuses as soon as it starts, and in no run is a byte sent on any link |
| Progress.ConnectCanFail | src/server.c:151-154 | wherever the server could forward, `connect` can fail, and nothing is forwarded |
| Progress.FailedConnectEndsEmpty | src/server.c:151-154 | a client whose server failed to connect reads the end of the stream and prints the empty text |
| Progress.FullRunCompletes | src/server.c:129-187 | for every valid configuration that passes the guard, the full schedule has every message read whole |
| EndToEnd.EndToEndDelivery | src/server.c:129-187 | in every run in which all messages are read whole, both address translations hold, each text is the one sent up to its first key collision, and it arrives if and only if it has none and has fewer than 128 characters |
| EndToEnd.RewriteErasesSource | src/packet.c:285-302 | packets that differ only in source and checksum become equal after a source rewrite |
| EndToEnd.ForwardedIndependent | src/server.c:129-159 | for every number of delivered bytes the server forwards the same 168 bytes to the same address whoever the client is |
| EndToEnd.DestinationCannotTell | src/server.c:129-187 | two sessions that differ only in the client's address look the same to the destination and on its links under every schedule |
| Programs.SendingClientsQualify | src/client.c:75-82 | whichever names the table resolves, the configuration is valid |
| Programs.TableSessionsQualify | src/client.c:75-88 | any three different hosts of the table are found by name, pass the guard and form a valid configuration |
| Programs.TableHostsExchangeTexts | src/client.c:101-108 | any three different hosts exchange exactly the texts `payload` and `Hello from the other side!`, in every run in which all messages are read whole, and there is such a run |
| Programs.PayloadVIsLost | src/packet.c:240-251 | with payload `V` and full delivery the destination ends up with the empty text |
| Programs.TableHeadersNeverVerify | src/packet.c:75-76 | no IP header built between hosts of the table verifies as stored |
| Programs.TableRewritesNeverNeutral | src/packet.c:285-295 | no packet built between hosts of the table survives a rewrite to its own source unchanged |
| Programs.ShortReadDialsKey | src/server.c:147-150 | in every run, a server that read at most 22 bytes dials 52.18.120.86, the address made of key bytes, which is right if and only if the destination has that address |
| Programs.HostReadsRightIff | src/host_info.c:17-21 | the address of a table host is read right if and only if 26 bytes were read |
| Programs.TableProgressIff | src/server.c:147-154 | between hosts of the table, after any run, the full schedule gets the client answered if and only if the server has not read yet, or has read 26 bytes and connected |
| Programs.ShortReadNeverCompletes | src/server.c:147-154 | between hosts of the table, after a read of fewer than 26 bytes no continuation brings the destination or the client a byte |
| Programs.ShortReadHappens | src/packet.c:236 | for every configuration that passes the guard and every byte count up to the whole request, a run of three actions has the server read exactly that many |
| Wire.RequestOnTheWire | src/client.c:101-108 | in every run what the client sends is, deciphered, the GRE header, an IPv4 header for 148 bytes of TCP from the client to the destination with the checksum of `set_ip`, the TCP header with the SYN flag, and the payload up to 127 characters |
| Wire.ReplyOnTheWire | src/destination.c:98-118 | in every run what the destination sends is an IPv4 header for 148 bytes of TCP from the destination to the source address it read, zeros where that had not arrived and the server's once 16 bytes had; the TCP header with the ACK flag; the reply; and six zeros |
| Wire.TableSessionOnTheWire | src/server.c:129-187 | between any three different hosts of the table, in every run in which all messages are read whole, every byte on the four links in figures, checksums included |

## Left out

- Sockets, ports, `accept`, `bind`, `fgets`, command lines and failing `send` or `recv`: I/O; each link is a byte sequence of which a prefix arrives, and of `connect` the model has the result.
- What another host would answer to a packet that was wrongly dialed to it, and the ends of stream it would cause: that host is not part of the model.
- The `print_*` functions: output only.
- Allocation and release: every buffer is fresh. The terminator at src/packet.c:219 falls one byte behind the bytes sent; the model's buffer has that one spare byte, and it is never sent.
- Payloads above 128 and replies above 122 characters: they do not fit the buffers the code allocates or the bytes it sends.
- Standard GRE, TCP and IPv4 conformance: the code has its own GRE layout and swaps checksums twice.
- `doc/guide_openssl`, the rest of `client_packet.c`, Mininet topology and build files: not part of the programs' packet logic.
- More than one `recv` per message: each program calls `recv` once, and so does the model.
- What `serv_rec_from_cli` does with 128 payload bytes none of which is NUL: `strlen` would leave the buffer; no run gets there (`EveryReadIsSafe`).
- Sprintf and the C string functions: taken at their standard meaning.

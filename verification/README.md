# z2kOW, modelled and proved

z2kOW is a router package: it finds out how a provider's middlebox reads traffic, routes chosen names around
blocks, and publishes itself. This project models the parts of it where a mistake is hard to see by reading one
function, and proves what they promise.

| part | files | what is proved, in one line |
|---|---|---|
| hand-made TCP sender | `Bits`, `Buffers`, `Checksum`, `TcpReceiver`, `TcpPacket`, `RawSender`, `ProbeDelivery` | a standard receiver reads exactly the trigger from every kind of probe, byte for byte from the built packets, while an observer that takes the decoy reads the decoy |
| QUIC Initial | `Varint`, `QuicFrames`, `QuicProtection`, `QuicInitial`, `QuicRoundTrip` | building, protecting and parsing an Initial is a round trip for every version, number length and padding, exactly when the number fits its length; the parser's one run-time error is pinned down exactly |
| IP fragments | `Fragments`, `Reassembly` | fragments arriving in any order give back the datagram exactly when the plan leaves no gap; two trains share an identifier exactly when a retry drew an even number before the next call |
| DNS routes and the kernel set | `RouteCache`, `NftSet`, `Exclusions` | a follower of the cache's reports holds its view and at most expired pairs beside it; from any start one replacement puts kernel and mirror in agreement to the second, in any interleaving of early, late and lost writes; replacing the set loses exactly the unchanged addresses |
| boundary search | `BoundarySearch` | a prefix verdict is bracketed by real measurements, on a line that follows its signature it names the boundary, and it is known exactly when tries were left out |
| release planner | `Publication`, `ReleaseRuns` | over any run of publications no upstream release is skipped without a record |
| proxy pool, server names | `ProxyPool`, `Sni` | the ring never holds duplicates, one request demotes at most one node; the server name is found behind anything |
| panel lock | `PanelLock` | what a control was last meant to be survives any overlap of jobs; the watch gives up exactly on three refusals or too many silent polls |
| STUN, WARP record | `Stun`, `Account` | the mapped address comes back; a bad address costs at most one registration per device |

Bytes are integers below 256 and words are taken apart and put together explicitly; time is an integer number of
nanoseconds; AES, GCM and HKDF are functions of which only `Suite.Sound` is used (opening inverts sealing, sealing adds a
16-byte tag, masks are 16 bytes long, vectors 12); `QuicRoundTrip.RoundTripExactlyWhen` and its instance also assume
`Suite.Separates`, the ideal of authentication: what was sealed under one twelve-byte nonce opens under no other.
`QuicProtection.SuiteExists` gives a cipher that keeps both promises. Networks, kernels and clocks are parameters or
sequences of events, so that each theorem is about all of them. Code that mutates is modelled by classes and methods
with loops over arrays, maps and sequences; each such method is tied to a function, and the lemmas are about that
function.

## Where the code does less than it says

* `probePoison` says a server takes data in a SYN over an established connection as ordinary data
  (raw_linux.go:629-633). A receiver of section 3.9 of RFC 793 resets the connection and delivers nothing
  (`ProbeDelivery.SynDataReadsNothing`).
* `Parse` slices `buf[pnOffset+pnLen : pnOffset+length]` without comparing the two ends (parse.go:168-169). It fails at
  run time exactly when the declared length is below the hidden packet number length
  (`QuicRoundTrip.CrashesExactlyWhen`); every Initial declaring no bytes that reaches that line does so under every key
  (`QuicRoundTrip.EmptyLengthCrashes`, with 29 such bytes in `QuicRoundTrip.CrashingPacket`), and a length of four or
  more never does (`QuicRoundTrip.SafeFromFour`).
* `Marshal` takes any packet number but writes only its low PNLen bytes, while the nonce is made of the whole number
  (initial.go:281-302, 331-338). The reader has the low bytes only: number 256 with PNLen 1 comes back as a foreign
  packet (`QuicRoundTrip.LongNumberLost`). For a non-zero version the round trip holds exactly when the number is below
  256^PNLen (`QuicRoundTrip.RoundTripExactlyWhen`).
* A QUIC integer of 2^62 or more is written with its two high bits overlaid by the length mark: it comes back modulo
  2^62, so unchanged exactly below 2^62 (`Varint.ExactBelowLimit`).
* The skip in `nftExclSet.update` looks at `current` instead of `next` (ipset.go:259-261). A batch is applied as asked
  exactly when no report is lost that way (`NftSet.WrittenExactlyWhen`); replacing the set loses every address that did
  not change (`NftSet.ReplaceDropsUnchanged`, `Exclusions.ResyncCompleteExactlyWhen`). With the guard on `next` the
  batch is always applied as asked (`NftSet.MeantIsWanted`) and a resynchronisation gives the cache's view over any
  kernel and any mirror (`Exclusions.ResyncAsMeant`); as written it does so exactly when mirror and view shared no
  unexpired entry (`Exclusions.ResyncAsWrittenExactlyWhen`), which an empty mirror at the start guarantees. The
  five-second pass repairs the loss (`Exclusions.ResyncThenPassRestores`).
* A batch or list is computed under one lock and written under another (observer.go:242-346). One that is written late
  leaves the set on the cache exactly when each of its reports still agrees with the cache (`Exclusions.LateExactlyWhen`);
  a list computed before an address was renewed puts the earlier expiry back (`Exclusions.StaleListOverwrites`). Mirror
  and kernel agree throughout, and the next fresh pass gives every address its due (`Exclusions.FreshPassCovers`).
* `All` expires first and throws the reports of that away (cache.go:136-137). A follower keeps the expired pairs, and
  nothing else, beside the view (`RouteCache.Cache.All`); following its list keeps the view exactly when no pair had
  expired (`RouteCache.AllFollowedExactlyWhen`). The ticker expires at the same moment just before (observer.go:323-326)
  and so loses nothing.
* The retry of `nextIPID` is a second increment, not one atomic step (frag.go:38-46). One caller between the two is
  enough for two fragment trains to share an identifier (`Reassembly.ParallelCallersCollide`). For any two callers with
  tickets fewer than 65535 apart it happens exactly when the later ticket is the next one and the earlier was drawn by a
  retry and is even (`Reassembly.CollideExactlyWhen`).
* `planCuts` accepts a plan with a negative overlap, which can leave a hole no receiver can fill, as the plan of
  `Fragments.HoleyPlan` does; the exact condition is `Fragments.GaplessExactlyWhen`. No plan in arms.go
  (lines 209 and 230-233) has one.
* The boundary search does not look at the context between measurements (classify.go:636-651). When the context ends
  there, cuts count as failing that were never tried and a boundary is still named
  (`BoundarySearch.EndedContextStillNamesBoundary`). No try of any measurement was left out exactly when the last look a
  measurement took found the context alive (`BoundarySearch.CompleteExactlyWhen`). With a two-byte trigger a prefix
  verdict rests on one cut that both passed and failed (`BoundarySearch.TwoBytesContradict`).
* The pool's cursor visits every place in turn except around the wrap of its 64-bit counter, and there too when the ring
  divides 2^64 (`ProxyPool.VisitsExactlyWhen`). A ring of three passes one place over there (`ProxyPool.ThreeAtTheWrap`).
* The poller counts refusals over a job's whole life, answers in between do not reset them
  (`PanelLock.RefusalsAddUp`); silence does, and with it in the run the watch ends exactly when the refusals since the
  last silence reach three or the unanswered polls their limit (`PanelLock.GivesUpExactlyWhen`).
* The re-registration for a bad endpoint is said to happen once; it can repeat exactly when saving the new record failed
  (`Account.RepeatsExactlyWhenUnsaved`). The comment on `Ensure` says it registers anew only when the device is missing or
  revoked; it also does when the device file cannot be read (`Account.UnreadableRegisters`). The exact condition is
  `Account.RegistersExactlyWhen`.

## Model

| member | source | states |
|---|---|---|
| `Checksum.FoldIsOnesSum` | z2k-detect/internal/classify/raw_linux.go:529-531 | folding the carries ends and gives the one's-complement sum modulo 65535 (section 1 of RFC 1071) |
| `Checksum.Accumulate` | z2k-detect/internal/classify/raw_linux.go:522-528 | the loop computes the word sum modulo 2^32, odd last byte padded |
| `Checksum.FoldCarries` | z2k-detect/internal/classify/raw_linux.go:529-532 | the carry loop stores the complement of the one's-complement sum |
| `Checksum.Compute` | z2k-detect/internal/classify/raw_linux.go:521-533 | up to 131074 bytes nothing wraps and the result is the RFC 1071 checksum |
| `Checksum.OddPadded` | z2k-detect/internal/quicprobe/frag.go:191-193 | an odd last byte counts as the high half of a word, from any even index on |
| `Checksum.WrapsPastSafeLength` | z2k-detect/internal/classify/raw_linux.go:522-528 | two bytes more of 0xff do wrap and the result is wrong: the bound is sharp |
| `Checksum.VerifiesExactlyWhen` | z2k-detect/internal/classify/raw_linux.go:510-533 | of all field values the computed one makes a buffer verify, and where it is zero its other form, unless everything is zero |
| `Checksum.FilledVerifies` | z2k-detect/internal/classify/raw_linux.go:510-519 | a filled-in field always verifies |
| `Checksum.UdpVerifies` | z2k-detect/internal/quicprobe/frag.go:169-184 | writing 0xffff for a computed zero still verifies |
| `Checksum.BrokenNeverVerifies` | z2k-detect/internal/classify/raw_linux.go:499-505 | the damaged sum (xor 0xbeef, else 0x1234) never verifies, whatever the segment holds |
| `Checksum.Example` | z2k-detect/internal/classify/raw_linux.go:521-533 | the words of section 3 of RFC 1071 add up to ddf2 |
| `TcpReceiver.Reassembles` | z2k-detect/internal/classify/raw_linux.go:627-753 | a receiver of section 3.9 of RFC 793, sequence numbers modulo 2^32, delivers exactly the stream once its octets were carried, in any order and with any repeats, overlaps resolved either way |
| `TcpReceiver.BehindArrives` | z2k-detect/internal/classify/raw_linux.go:376-387 | a segment that lies wholly behind the next octet changes nothing |
| `TcpPacket.TcpVerifies` | z2k-detect/internal/classify/raw_linux.go:447-508 | whatever the segment holds, its stored checksum verifies exactly when it was not deliberately damaged |
| `TcpPacket.DecodeBuilt` | z2k-detect/internal/classify/raw_linux.go:447-508 | a peer that parses the built bytes gets back the segment that was meant, or nothing when TTL, checksum, TCP-MD5 or an acknowledgement of something it never sent keep it away (section 3.9 of RFC 793) |
| `TcpPacket.IpByIndex` | z2k-detect/internal/classify/raw_linux.go:470-487 | the IPv4 header byte by byte: length, identification, no fragment bits, TTL, protocol, addresses |
| `TcpPacket.TcpByIndex` | z2k-detect/internal/classify/raw_linux.go:488-498 | the TCP header byte by byte: ports, number, acknowledgement, offset, flags, window, urgent pointer, and the payload at the end |
| `TcpPacket.PseudoByIndex` | z2k-detect/internal/classify/raw_linux.go:510-516 | what the TCP checksum covers ahead of the header: both addresses, zero, 6 and the length |
| `TcpPacket.OptionsByIndex` | z2k-detect/internal/classify/raw_linux.go:451-468 | the options byte by byte: an empty TCP-MD5 digest, else a timestamp of one, else none |
| `TcpPacket.DamageByIndex` | z2k-detect/internal/classify/raw_linux.go:499-505 | the damaged sum is the right one with 0xbe and 0xef taken off its bytes, or 0x1234 when that leaves zero |
| `RawSender.MakeDecoy` | z2k-detect/internal/classify/classify.go:265-272 | fills with 0x0f and lays the decoy over the front |
| `RawSender.CutsInName` | z2k-detect/internal/classify/classify.go:275-288 | inside a known name two of the cuts halve it, the third stands right before it |
| `RawSender.CutsWithoutName` | z2k-detect/internal/classify/classify.go:275-288 | without a name two cuts halve the payload, at least two bytes in when there are three, and the third is one byte in |
| `RawSender.CutsBeyond` | z2k-detect/internal/classify/classify.go:275-288 | a name said to lie beyond the payload moves the cuts back into it |
| `RawSender.DecoysSent` | z2k-detect/internal/classify/classify.go:871-878 | as many decoys as asked for, at least one, twice as long as the trigger, exactly when a named probe spoils them and places none of its own |
| `RawSender.FlagsSent` | z2k-detect/internal/classify/raw_linux.go:602-747 | every send pushes and acknowledges; SYN is set in the one branch, URG on the one byte of the other |
| `RawSender.OobByIndex` | z2k-detect/internal/classify/raw_linux.go:638-665 | the urgent byte stands between the two parts, and the second is numbered one past it |
| `RawSender.BetweenByIndex` | z2k-detect/internal/classify/raw_linux.go:666-696 | the decoys go between the two parts, over the place of the second, with sum and TTL spoiled and nothing else |
| `RawSender.OverlapByIndex` | z2k-detect/internal/classify/raw_linux.go:697-735 | the overlap reaches exactly as far left as asked for and carries the decoy, then filler |
| `RawSender.ZeroIdentification` | z2k-detect/internal/classify/raw_linux.go:473-476 | a probe that is to carry no IP identification carries none |
| `RawSender.BuildPacket` | z2k-detect/internal/classify/raw_linux.go:447-508 | the buffer filled in place holds the packet's bytes, both checksums included |
| `RawSender.MarkUrgent` | z2k-detect/internal/classify/raw_linux.go:537-557 | setting the urgent pointer and recomputing the checksum gives the urgent packet |
| `RawSender.RawConn.Send` | z2k-detect/internal/classify/raw_linux.go:376-387 | one send hands over one packet, its number moved by the shift, the connection's number untouched; it succeeds exactly when the packet fits and the kernel takes it |
| `RawSender.RawConn.SendFakes` | z2k-detect/internal/classify/raw_linux.go:602-624 | the decoys that go out: all of them, or exactly those before the first the kernel does not take |
| `RawSender.RawConn.SendOob` | z2k-detect/internal/classify/raw_linux.go:638-665 | the three sends around the urgent byte |
| `RawSender.RawConn.SendAroundFake` | z2k-detect/internal/classify/raw_linux.go:666-696 | first piece, decoy copies over the rest, the rest |
| `RawSender.RawConn.SendReversed` | z2k-detect/internal/classify/raw_linux.go:697-747 | tail, middle, first byte, the last behind an overlap when there is one |
| `RawSender.RawConn.Probe` | z2k-detect/internal/classify/raw_linux.go:581-753 | every branch sends exactly its script, or exactly what stands before the first packet the kernel does not take, and ends on the right number |
| `RawSender.RanOneWay` | z2k-detect/internal/classify/raw_linux.go:602-624 | what goes out and whether a probe succeeds is determined by script and kernel alone |
| `ProbeDelivery.PeerReadsTrigger` | z2k-detect/internal/classify/raw_linux.go:581-753 | for every payload of two bytes or more, name position and initial number, every branch but synData makes a peer that has sent what is acknowledged read exactly the trigger, in any arrival order |
| `ProbeDelivery.UnsentReadsNothing` | z2k-detect/internal/classify/raw_linux.go:338-342 | a peer that has not sent what is acknowledged reads nothing: the acknowledgement number has to be right |
| `ProbeDelivery.FirstByteLast` | z2k-detect/internal/classify/raw_linux.go:697-747 | reversed, nothing at all is read until the very last packet |
| `ProbeDelivery.ShiftedDecoyDies` | z2k-detect/internal/classify/raw_linux.go:376-387 | a decoy shifted by -66000 that fits a packet lies wholly left of the stream, around the circle of numbers too, and leaves every receiver as it was |
| `ProbeDelivery.DamagedDecoysDie` | z2k-detect/internal/classify/raw_linux.go:499-505 | a peer that checks sums makes nothing of the bytes of a decoy with a damaged sum, before the trigger and between its pieces |
| `ProbeDelivery.ShortDecoysDie` | z2k-detect/internal/classify/raw_linux.go:477-481 | decoys whose TTL runs out on the way die, before the trigger and between its pieces |
| `ProbeDelivery.Md5DecoysDie` | z2k-detect/internal/classify/raw_linux.go:461-466 | decoys with a TCP-MD5 option die at a peer that refuses it |
| `ProbeDelivery.SynDataReadsNothing` | z2k-detect/internal/classify/raw_linux.go:629-637 | data in a SYN over the connection resets it: nothing is read |
| `ProbeDelivery.ObserverReadsDecoy` | z2k-detect/internal/classify/raw_linux.go:602-624 | an observer that takes the decoy reads the decoy bytes, filler after them, twice the length of the trigger, and not the trigger |
| `ProbeDelivery.ObserverReadsFiller` | z2k-detect/internal/classify/raw_linux.go:666-696 | an observer that takes the decoy between the pieces reads the first piece and then 0x0f for every byte of the rest |
| `ProbeDelivery.UrgentByteDiverges` | z2k-detect/internal/classify/raw_linux.go:638-665 | reading the urgent byte in band gives another string than the trigger |
| `Varint.RoundTrip` | z2k-detect/internal/quicprobe/initial.go:154-185 | reading what was written gives the value modulo 2^62 and its width, whatever follows |
| `Varint.ExactBelowLimit` | z2k-detect/internal/quicprobe/initial.go:154-165 | the value itself comes back exactly below 2^62 |
| `Varint.ExampleEight` | z2k-detect/internal/quicprobe/initial.go:169-182 | the eight-byte example of section A.1 of RFC 9000 |
| `Varint.ExampleFour` | z2k-detect/internal/quicprobe/initial.go:169-182 | the four-byte example of section A.1 of RFC 9000 |
| `Varint.ExamplesShort` | z2k-detect/internal/quicprobe/initial.go:169-182 | the short examples of section A.1 of RFC 9000 |
| `Varint.Read` | z2k-detect/internal/quicprobe/initial.go:169-182 | the reading loop computes the decoding, zero bytes when cut off |
| `QuicFrames.ReadFrames` | z2k-detect/internal/quicprobe/parse.go:183-232 | frames up to the first unknown or cut-off one; no index leaves the buffer on any input |
| `QuicFrames.ReadAck` | z2k-detect/internal/quicprobe/parse.go:234-244 | exactly the four leading integers are taken |
| `QuicFrames.ReadClose` | z2k-detect/internal/quicprobe/parse.go:246-268 | code and reason, the frame type skipped only for 0x1c |
| `QuicFrames.FramesRoundTrip` | z2k-detect/internal/quicprobe/parse.go:183-232 | written CRYPTO, PADDING, PING and CONNECTION_CLOSE frames are read back in order |
| `QuicFrames.AckRead` | z2k-detect/internal/quicprobe/parse.go:234-244 | an ACK, with ECN counts announced or not, is read to its fourth integer and what follows as the frames it is |
| `QuicFrames.UnknownStops` | z2k-detect/internal/quicprobe/parse.go:183-232 | nothing is read from a frame of unknown type on |
| `QuicFrames.FrameCut` | z2k-detect/internal/quicprobe/parse.go:183-268 | a frame other than padding reads alike with more or less behind it, and cut anywhere inside it reads as nothing |
| `QuicFrames.TransportCloseRead` | z2k-detect/internal/quicprobe/parse.go:246-268 | both variants of a close read alike |
| `QuicProtection.MakeNonce` | z2k-detect/internal/quicprobe/initial.go:331-338 | the nonce built in place is the vector with the number folded into its last four bytes |
| `QuicProtection.NonceByIndex` | z2k-detect/internal/quicprobe/initial.go:331-338 | which byte of the packet number falls on which byte of the vector |
| `QuicProtection.NonceInjective` | z2k-detect/internal/quicprobe/initial.go:331-338 | different packet numbers never share a nonce |
| `QuicProtection.SuiteExists` | z2k-detect/internal/quicprobe/initial.go:304-338 | what is asked of the cipher, authentication included, can be had: a cipher with the nonce in its tag does it |
| `QuicProtection.ApplyHeaderProtection` | z2k-detect/internal/quicprobe/initial.go:344-363 | masks the low half of the first byte and the number bytes in place, and refuses exactly packets without a sample |
| `QuicProtection.MaskByIndex` | z2k-detect/internal/quicprobe/initial.go:344-363 | which mask byte falls on which packet byte: the first on the low half of the first, the next on the number |
| `QuicProtection.UnmaskedInverts` | z2k-detect/internal/quicprobe/parse.go:150-161 | unmasking four bytes and restoring those beyond the hidden length inverts protection exactly |
| `QuicInitial.Marshal` | z2k-detect/internal/quicprobe/initial.go:222-295 | builds the datagram under the client's keys, with the source's refusals |
| `QuicInitial.AppendPacketNumber` | z2k-detect/internal/quicprobe/initial.go:297-302 | the loop appends the low bytes of the number, high one first |
| `QuicInitial.ReadBare` | z2k-detect/internal/quicprobe/parse.go:148-161 | unmasks a copy in place and puts back the bytes beyond the number |
| `QuicInitial.Parse` | z2k-detect/internal/quicprobe/parse.go:77-178 | total on all bytes, the run-time error being an outcome of its own |
| `QuicRoundTrip.RoundTrip` | z2k-detect/internal/quicprobe/parse.go:129-178 | every Initial whose number fits its length, v1 or v2, PNLen 1 to 4, fixed bit set or cleared, parses to its CRYPTO frames in order and one PADDING of the exact fill; bytes after the declared length change nothing |
| `QuicRoundTrip.RoundTripExactlyWhen` | z2k-detect/internal/quicprobe/initial.go:281-302 | given authentication, every Initial of a non-zero version that Marshal accepts is read back exactly when its number is below 256^PNLen, and else reads as foreign |
| `QuicRoundTrip.LongNumberLost` | z2k-detect/internal/quicprobe/initial.go:281-302 | the Initial with number 256 in one byte is built and reads as foreign |
| `QuicRoundTrip.VersionZeroRead` | z2k-detect/internal/quicprobe/parse.go:105-114 | an Initial built with version zero is read as a version negotiation between the same identifiers |
| `QuicRoundTrip.ExactSize` | z2k-detect/internal/quicprobe/initial.go:249-270 | the datagram is exactly DatagramLen, and without one carries no padding |
| `QuicRoundTrip.FrontByIndex` | z2k-detect/internal/quicprobe/initial.go:271-281 | the finished, masked datagram up to the packet number: fixed bit, type bits, version, identifiers, token, and the length of what is left |
| `QuicRoundTrip.BodyByIndex` | z2k-detect/internal/quicprobe/initial.go:281-302 | unmasked by its own sample the header ends with the low bytes of the number, and the rest is the payload sealed under that number and that header |
| `QuicRoundTrip.TypeDecides` | z2k-detect/internal/quicprobe/parse.go:115-123 | what version and type bits make of a long header: ours, a retry, or foreign |
| `QuicRoundTrip.ShortIsForeign` | z2k-detect/internal/quicprobe/parse.go:81-85 | a short header is foreign |
| `QuicRoundTrip.VersionsRead` | z2k-detect/internal/quicprobe/parse.go:105-114 | every whole entry of a version list is read, in order |
| `QuicRoundTrip.EveryCutIsError` | z2k-detect/internal/quicprobe/parse.go:77-147 | of a datagram cut anywhere nothing is read, whatever the keys |
| `QuicRoundTrip.CrashesExactlyWhen` | z2k-detect/internal/quicprobe/parse.go:168-169 | the parser fails at run time exactly on a declared length below the hidden number length |
| `QuicRoundTrip.SafeFromFour` | z2k-detect/internal/quicprobe/parse.go:124-169 | a declared length of four or more never does |
| `QuicRoundTrip.EmptyLengthCrashes` | z2k-detect/internal/quicprobe/parse.go:168-169 | every Initial that reaches the slice with a declared length of zero fails there, under every key |
| `QuicRoundTrip.CrashingPacket` | z2k-detect/internal/quicprobe/parse.go:104-169 | 29 given bytes reach the slice and fail |
| `Fragments.PlanCuts` | z2k-detect/internal/quicprobe/frag.go:87-143 | the step-by-step planner computes the planned cuts, the repair of a negative second offset doing nothing |
| `Fragments.TwoPieces` | z2k-detect/internal/quicprobe/frag.go:87-99 | two pieces meet at the position asked for, rounded down to eight, at least eight; refused exactly at or past the end |
| `Fragments.ThreePieces` | z2k-detect/internal/quicprobe/frag.go:89-142 | every three-way plan on aligned numbers, counted in eights: where the pieces fall under every clamp and repair, and which refusal it gets otherwise |
| `Fragments.DefaultSecond` | z2k-detect/internal/quicprobe/frag.go:103-108 | no second position means twenty-four bytes after the first |
| `Fragments.RoundedPlan` | z2k-detect/internal/quicprobe/frag.go:87-124 | positions and overlaps count in whole eights |
| `Fragments.TooShort` | z2k-detect/internal/quicprobe/frag.go:101-103 | up to twenty-four bytes are never cut in three |
| `Fragments.AcceptedIsWellCut` | z2k-detect/internal/quicprobe/frag.go:87-143 | every accepted plan: offsets and all but the last length are multiples of eight, pieces in order, only the last reaches the end |
| `Fragments.RepairsUnreachable` | z2k-detect/internal/quicprobe/frag.go:125-134 | the second offset is never negative, and with overlaps that are not negative the third never reaches the end |
| `Fragments.TwoAreGapless` | z2k-detect/internal/quicprobe/frag.go:97-99 | two pieces always cover the datagram |
| `Fragments.GaplessExactlyWhen` | z2k-detect/internal/quicprobe/frag.go:101-142 | three pieces cover it exactly when neither overlap leaves a hole |
| `Fragments.HoleyPlan` | z2k-detect/internal/quicprobe/frag.go:101-142 | an accepted plan with an overlap of -8 that leaves octets 8 to 15 of forty in no piece |
| `Fragments.ReverseInPlace` | z2k-detect/internal/quicprobe/frag.go:74-78 | swapping from both ends reverses the list |
| `Fragments.IpPacket` | z2k-detect/internal/quicprobe/frag.go:150-167 | the buffer filled in place is the fragment with its header checksum |
| `Fragments.PacketByIndex` | z2k-detect/internal/quicprobe/frag.go:150-167 | the fragment byte by byte: length, identification, MF alone and the offset in eights, TTL 64, UDP, addresses, data |
| `Fragments.BuildFragments` | z2k-detect/internal/quicprobe/frag.go:53-80 | the packets built are those of the plan, reversed when asked |
| `Fragments.BuiltAccepted` | z2k-detect/internal/quicprobe/frag.go:169-184 | the UDP checksum over the whole datagram verifies at the receiver |
| `Fragments.DatagramByIndex` | z2k-detect/internal/quicprobe/frag.go:53-62 | ports, length and payload where section 1 of RFC 768 puts them |
| `Fragments.PseudoByIndex` | z2k-detect/internal/quicprobe/frag.go:171-177 | what the UDP checksum covers ahead of the header: both addresses, zero, 17 and the length |
| `Reassembly.PacketHeard` | z2k-detect/internal/quicprobe/frag.go:150-167 | a receiver reads back offset, MF flag and data of every built fragment |
| `Reassembly.AnyOrder` | z2k-detect/internal/quicprobe/frag.go:53-143 | in any arrival order, with repeats and foreign packets, the original datagram comes out exactly when the cuts leave no gap; what comes out is from the one port to the other with the payload given, and passes its UDP checksum (section 3.2 of RFC 791) |
| `Reassembly.NeverOtherBytes` | z2k-detect/internal/quicprobe/frag.go:53-143 | with pieces missing nothing or the original comes out, never other bytes |
| `Reassembly.SentInOrder` | z2k-detect/internal/quicprobe/frag.go:64-80 | the i-th packet sent is the piece of the i-th cut, or of the i-th from the end when the order is reversed |
| `Reassembly.IdCounter.Next` | z2k-detect/internal/quicprobe/frag.go:38-46 | undisturbed, the counter steps through 1 to 65535 and starts over |
| `Reassembly.IdsDistinct` | z2k-detect/internal/quicprobe/frag.go:17-46 | two undisturbed calls fewer than 65535 apart never share an identifier |
| `Reassembly.CollideExactlyWhen` | z2k-detect/internal/quicprobe/frag.go:38-46 | of any two calls with tickets fewer than 65535 apart, retries on either side, the identifiers are equal exactly when the later ticket is the next one, the earlier is a retry and even |
| `Reassembly.ParallelCallersCollide` | z2k-detect/internal/quicprobe/frag.go:38-46 | one caller between the two increments makes two trains share an identifier |
| `RouteCache.LatestOf` | z2k-warpd/internal/domainroute/cache.go:101-109 | the maximum of the expiries in any iteration order, the zero time without any |
| `RouteCache.CleanKeepsExactly` | z2k-warpd/internal/domainroute/cache.go:117-134 | exactly the unexpired matching justifications survive, and no pair is left empty |
| `RouteCache.CleanTwice` | z2k-warpd/internal/domainroute/cache.go:115-134 | expiring at t1 and then at t2 >= t1 equals expiring at t2 |
| `RouteCache.ObservedAllKeeps` | z2k-warpd/internal/domainroute/cache.go:42-75 | answers keep the three caps, and a follower of the reports holds the view |
| `RouteCache.ObservedAllFrame` | z2k-warpd/internal/domainroute/cache.go:50-73 | no other client's, name's or address's justification changes |
| `RouteCache.ObservedAllRenews` | z2k-warpd/internal/domainroute/cache.go:55-68 | a justification already held is never refused; the last of repeated answers decides, even downwards: now and its TTL, or now and an hour |
| `RouteCache.AnswerExpires` | z2k-warpd/internal/domainroute/cache.go:50-68 | an eligible answer justifies its address for its TTL, for an hour if that is longer, and not at all at zero |
| `RouteCache.AcceptedWithRoom` | z2k-warpd/internal/domainroute/cache.go:55-64 | with room under the three caps a justification is accepted, a renewed one always |
| `RouteCache.SkippedWithoutRoom` | z2k-warpd/internal/domainroute/cache.go:55-63 | without room it is counted as skipped and nothing else happens |
| `RouteCache.FirstAnswer` | z2k-warpd/internal/domainroute/cache.go:42-75 | the first answer decides the expiry of its pair and is reported with it |
| `RouteCache.ObservedAllBounded` | z2k-warpd/internal/domainroute/cache.go:67-68 | an observation leaves no expiry and no report more than an hour ahead |
| `RouteCache.CleanBounded` | z2k-warpd/internal/domainroute/cache.go:117-134 | neither does cleaning |
| `RouteCache.ListBounded` | z2k-warpd/internal/domainroute/cache.go:136-143 | neither does what All lists |
| `RouteCache.ObservedAllDistinct` | z2k-warpd/internal/domainroute/cache.go:50-73 | distinct answers make reports on distinct pairs |
| `RouteCache.CappedCounts` | z2k-warpd/internal/domainroute/cache.go:8-27 | pairs never outnumber justifications, and an exclusion cache has at most one client |
| `RouteCache.Cache.Observe` | z2k-warpd/internal/domainroute/cache.go:42-75 | keeps the caps, what the rules say and the follower; reports lie within the hour; what it does is the observation of the answers in order |
| `RouteCache.Cache.JustificationCount` | z2k-warpd/internal/domainroute/cache.go:93-99 | counts the justifications in any iteration order |
| `RouteCache.Cache.ClientCount` | z2k-warpd/internal/domainroute/cache.go:85-91 | counts the distinct clients |
| `RouteCache.Cache.ReplaceRules` | z2k-warpd/internal/domainroute/cache.go:111-134 | cleans under the new rules, a follower with the view keeps it, every pair is reported at most once and within the hour |
| `RouteCache.Cache.Expire` | z2k-warpd/internal/domainroute/cache.go:115-134 | the same under the present rules |
| `RouteCache.Cache.All` | z2k-warpd/internal/domainroute/cache.go:136-143 | lists what is left, each pair once with its latest expiry, which gives the view to an empty follower; the expiry before it is not reported, so that any other follower keeps pairs expired by then and no others beside the view |
| `RouteCache.AllFollowedExactlyWhen` | z2k-warpd/internal/domainroute/cache.go:136-143 | a follower that held the view holds it after All exactly when no pair had expired |
| `RouteCache.Cache.Forget` | z2k-warpd/internal/domainroute/observer.go:55-72 | drops exactly the pairs to the router's own addresses and reports them |
| `NftSet.TimeoutSeconds` | z2k-warpd/openwrt-overlay/ipset.go:345-357 | whole seconds rounded up, between one and 3600 |
| `NftSet.TimeoutCovers` | z2k-warpd/openwrt-overlay/ipset.go:345-357 | within the hour the deadline lies in [expiry, expiry + 1 s) |
| `NftSet.TimeoutCutsShort` | z2k-warpd/openwrt-overlay/ipset.go:353-355 | beyond the hour the clamp cuts the entry short: the cache's one-hour cap is needed |
| `NftSet.ScriptEffect` | z2k-warpd/openwrt-overlay/ipset.go:288-307 | the whole script leaves the kernel as the operations say, whatever their order |
| `NftSet.UpdateKeepsSynced` | z2k-warpd/openwrt-overlay/ipset.go:222-325 | after every batch, repeats included, each mirrored address is in the kernel with a deadline in [expiry, expiry + 1 s) and nothing else is alive; a replacing batch brings any kernel there |
| `NftSet.LazyKeepsCovered` | z2k-warpd/openwrt-overlay/ipset.go:268-280 | skipping a script that only drops keeps every mirrored address in the kernel |
| `NftSet.WrittenExactlyWhen` | z2k-warpd/openwrt-overlay/ipset.go:249-264 | the guard as written gives what the batch asks for exactly when no report is lost |
| `NftSet.MeantIsWanted` | z2k-warpd/openwrt-overlay/ipset.go:249-264 | the guard on next always gives what the batch asks for, last writer winning |
| `NftSet.ApplyExact` | z2k-warpd/openwrt-overlay/ipset.go:214-264 | a batch that names every address once is applied as asked |
| `NftSet.ReplaceExactlyWhen` | z2k-warpd/openwrt-overlay/ipset.go:218-264 | replacing works exactly when no report repeats what the mirror already had |
| `NftSet.ReplaceDropsUnchanged` | z2k-warpd/openwrt-overlay/ipset.go:259-261 | an unchanged address disappears from the mirror and from any kernel, though the batch asks for it |
| `NftSet.SecondPassHeals` | z2k-warpd/openwrt-overlay/ipset.go:214-264 | applying the same reports once more restores what the replacement lost |
| `NftSet.NftExclSet.Update` | z2k-warpd/openwrt-overlay/ipset.go:222-325 | the whole batch with the exact condition of every outcome: which address is refused, too many, a script needed on a set that is not ours, a script not taken, done; success installs the planned mirror and the script's effect, all else leaves mirror and kernel alone |
| `NftSet.NftExclSet.SortedAddresses` | z2k-warpd/openwrt-overlay/ipset.go:288-292 | the addresses of the operations, ascending |
| `Exclusions.DestFollows` | z2k-warpd/internal/domainroute/cache.go:32-38 | for an exclusion cache, following reports pair by pair is following them address by address |
| `Exclusions.ListsAll` | z2k-warpd/internal/domainroute/cache.go:136-143 | what All lists of an exclusion cache names every address of its view once |
| `Exclusions.WantedFollows` | z2k-warpd/openwrt-overlay/ipset.go:222-264 | a batch taken at its word keeps the mirror on the cache's unexpired view |
| `Exclusions.ResyncAsMeant` | z2k-warpd/openwrt-overlay/ipset.go:214-325 | with the guard on next, All followed by ReplaceAll leaves mirror and kernel on exactly the unexpired view, each deadline less than a second late, whatever kernel and mirror held |
| `Exclusions.ResyncAsWrittenExactlyWhen` | z2k-warpd/openwrt-overlay/ipset.go:214-325 | with the guard as written and for any kernel, exactly when mirror and view share no unexpired entry |
| `Exclusions.AllThenReplace` | z2k-warpd/internal/domainroute/observer.go:258-275 | All of any reachable exclusion cache followed by ReplaceAll over any kernel and any mirror: with the guard on next both hold exactly the cache's unexpired view, as written exactly when mirror and view shared no unexpired entry |
| `Exclusions.RunSound` | z2k-warpd/internal/domainroute/observer.go:242-346 | over every interleaving of reports, fresh and late writes, passes, resynchronisations and lost batches the kernel refines the mirror and the mirror the view, as far as either is trusted |
| `Exclusions.AnyStartSynced` | z2k-warpd/internal/domainroute/observer.go:242-346 | from any kernel and any mirror: after a run with one replacement in it they hold the same addresses to the second, however late the other writes came |
| `Exclusions.KernelIsView` | z2k-warpd/internal/domainroute/observer.go:242-346 | right after a script, while the mirror is trusted, the kernel finds exactly the unexpired addresses of the cache, each deadline less than a second late |
| `Exclusions.ResyncCompleteExactlyWhen` | z2k-warpd/openwrt-overlay/ipset.go:229-264 | All followed by ReplaceAll is complete exactly when mirror and view shared no unexpired entry |
| `Exclusions.ResyncThenPassRestores` | z2k-warpd/internal/domainroute/observer.go:258-346 | whatever kernel and mirror held, a resynchronisation and the next fresh pass leave both on the unexpired view |
| `Exclusions.LateExactlyWhen` | z2k-warpd/internal/domainroute/observer.go:242-346 | a batch written late leaves the mirror on the view exactly when each of its reports still agrees with the cache |
| `Exclusions.StaleListOverwrites` | z2k-warpd/internal/domainroute/observer.go:258-346 | a list computed before a renewal puts the earlier expiry back |
| `Exclusions.FreshPassCovers` | z2k-warpd/internal/domainroute/observer.go:258-346 | while mirror and kernel agree: after a fresh pass every unexpired address of the cache is in mirror and kernel with its expiry; mirror and view are equal exactly when the mirror held no unexpired address the cache lacks |
| `BoundarySearch.SplitOffsets` | z2k-detect/internal/classify/classify.go:1466-1485 | filtering, sorting and skipping repeats gives the pieces between the cuts |
| `BoundarySearch.PiecesPartition` | z2k-detect/internal/classify/classify.go:1462-1485 | the pieces are adjacent, non-empty and run from start to end |
| `BoundarySearch.WritesAll` | z2k-detect/internal/classify/classify.go:1421-1432 | what is written, piece after piece, is the payload |
| `BoundarySearch.Prober.Measure` | z2k-detect/internal/classify/classify.go:1378-1403 | one measurement: at most Repeats tries, none after the context ended, recorded in the trace |
| `BoundarySearch.TriesAdd` | z2k-detect/internal/classify/classify.go:1378-1403 | a tally is full while the context lives; unanimous passes and fails mean what they say of every single try |
| `BoundarySearch.Prober.Search` | z2k-detect/internal/classify/classify.go:636-651 | the lo/hi loop is the bisection |
| `BoundarySearch.Prober.Classify` | z2k-detect/internal/classify/classify.go:488-679 | the decision tree from the base measurement to the verdict, with its trace |
| `BoundarySearch.WholeDecides` | z2k-detect/internal/classify/classify.go:488-537 | for every line, from its answers: exactly when the verdict is clear, exactly when unreachable, and when the first measurement makes it flaky |
| `BoundarySearch.NoCutHelpsExactlyWhen` | z2k-detect/internal/classify/classify.go:538-566 | exactly when no cut helps: nothing answered, whole or cut behind the first byte, nothing broken, and the context alive to see both |
| `BoundarySearch.UnsteadyExactlyWhen` | z2k-detect/internal/classify/classify.go:636-651 | the search gives up exactly at a measurement that is neither all nor nothing |
| `BoundarySearch.WholePacketMeans` | z2k-detect/internal/classify/classify.go:619-635 | a verdict that any cut works rests on both outermost cuts having passed |
| `BoundarySearch.PrefixIsBracketed` | z2k-detect/internal/classify/classify.go:619-656 | for any line at all, a prefix verdict at hi means the cut at hi-1 passed every try and the cut at hi did not |
| `BoundarySearch.CompleteExactlyWhen` | z2k-detect/internal/classify/classify.go:1378-1403 | for every line and every verdict: no try was left out of any measurement exactly when the last look a measurement took at the context found it alive |
| `BoundarySearch.FindsTheBoundary` | z2k-detect/internal/classify/classify.go:488-679 | on a line that fails from one cut on, the verdict names that first failing cut, or the whole packet when none fails, or rejects it when other addresses do not accept the cut |
| `BoundarySearch.LogarithmicallyMany` | z2k-detect/internal/classify/classify.go:636-651 | the search takes at most k measurements over a range of 2^k, on any line |
| `BoundarySearch.EndedContextStillNamesBoundary` | z2k-detect/internal/classify/classify.go:636-656 | a context ending in the search yields a boundary that was never tried |
| `BoundarySearch.TwoBytesContradict` | z2k-detect/internal/classify/classify.go:619-656 | with two bytes a prefix verdict rests on one cut both passing and failing |
| `Publication.CommitRoundTrip` | scripts/openwrt/publication_policy.py:113-124 | a commit is read from exactly the addresses made of it |
| `Publication.SevenArtifacts` | scripts/openwrt/publication_policy.py:103-124 | with an artifact map, the payload is the commit in the x86_64 address of a full set of seven, and of no other map |
| `Publication.OneArtifact` | scripts/openwrt/publication_policy.py:105-124 | without one, the commit in the address of the only archive |
| `Publication.ValidateSkips` | scripts/openwrt/publication_policy.py:62-100 | the loop over the records, by tag and number, computes the registry or refuses it |
| `Publication.RegistryExactlyWhen` | scripts/openwrt/publication_policy.py:43-61 | a registry is read exactly as two keys, the integer schema one and a list of records; none at all skips nothing |
| `Publication.StripBetween` | scripts/openwrt/publication_policy.py:80-85 | a reason loses the white space on both its sides and nothing else; white space alone is no reason |
| `Publication.AcceptedSkipsSound` | scripts/openwrt/publication_policy.py:43-100 | an accepted registry has known tags, distinct numbers up to the latest, later targets, and loses no record |
| `Publication.NotApplicableExactlyWhen` | scripts/openwrt/publication_policy.py:62-83 | a record that a release does not apply is accepted exactly with a known name, a number in range and a reason |
| `Publication.IncludedExactlyWhen` | scripts/openwrt/publication_policy.py:62-93 | a record that a later release includes it, exactly when that release stands behind it in the history as well |
| `Publication.SchemaExactlyWhen` | scripts/openwrt/publication_policy.py:310-311 | the schema of a candidate passes exactly as one, true or 1.0 |
| `Publication.JoinedAccepted` | scripts/openwrt/publication_policy.py:15-15 | numbers joined by dots are accepted exactly when there are enough of them |
| `Publication.AcceptedJoined` | scripts/openwrt/publication_policy.py:15-15 | and nothing else is accepted |
| `Publication.ReleaseNames` | scripts/openwrt/publication_policy.py:15-15 | a release is named p- and two numbers or more, or r- and one or more |
| `Publication.ShaExactlyWhen` | scripts/openwrt/publication_policy.py:16-16 | a commit is named by forty lower-case hexadecimal digits and by nothing else |
| `ReleaseRuns.PlanValidates` | scripts/openwrt/publication_policy.py:290-344 | every plan passes validate_candidate_metadata under its own commit, tag and number |
| `ReleaseRuns.ReleaseAcceptedExactlyWhen` | scripts/openwrt/publication_policy.py:188-304 | a release is accepted exactly when it follows production in the history, as far on as the numbers say, with every release between on record for it |
| `ReleaseRuns.HotfixAcceptedExactlyWhen` | scripts/openwrt/publication_policy.py:188-320 | a hotfix is accepted exactly when it keeps the release in production and brings a payload that is not out yet |
| `ReleaseRuns.OtherOperationsRefused` | scripts/openwrt/publication_policy.py:203-204 | nothing else is ever accepted |
| `ReleaseRuns.PlanSays` | scripts/openwrt/publication_policy.py:226-289 | every field of an accepted plan, the way back for old clients included |
| `ReleaseRuns.BaseIsNotTarget` | scripts/openwrt/publication_policy.py:226-304 | base and target of a plan never coincide |
| `ReleaseRuns.StepMoves` | scripts/openwrt/publication_policy.py:357-372 | a manifest that reads as published holds the plan's target; the one before reads as its baseline |
| `ReleaseRuns.NumbersGrow` | scripts/openwrt/publication_policy.py:226-289 | along any run the number strictly grows with a release and stays with a hotfix |
| `ReleaseRuns.NoGaps` | scripts/openwrt/publication_policy.py:188-372 | over any run and an append-only history, every entry from the first base to production came out or was skipped with a record, under exactly the number of its position |
| `Sni.ParseSni` | rt-proxy/main.go:1109-1157 | total on all bytes: no index leaves them |
| `Sni.HelloRead` | rt-proxy/main.go:1109-1157 | on every encoded ClientHello, whatever follows it, the first server_name extension decides, and nothing is found without one |
| `Sni.NameFound` | rt-proxy/main.go:1143-1155 | a well-formed server name behind any other extensions is returned |
| `ProxyPool.Ring.PickNext` | rt-proxy/main.go:179-187 | the node at the advanced cursor, or none |
| `ProxyPool.PickAdvances` | rt-proxy/main.go:179-187 | one pick moves every later one up by one; an empty ring is not moved |
| `ProxyPool.Ring.Drop` | rt-proxy/main.go:196-206 | compacting in place removes every copy of one node and keeps the order of the others |
| `ProxyPool.WithoutConcat` | rt-proxy/main.go:196-206 | dropping leaves every other node in its place in the order |
| `ProxyPool.Ring.Rebuild` | rt-proxy/main.go:292-344 | the candidate list rebuilt from seeds, answers and ring; untouched when nothing was resolved |
| `ProxyPool.ResolveRebuilds` | rt-proxy/main.go:321-343 | a resolution that finds something leaves exactly the valid seed, found and live addresses, each once |
| `ProxyPool.ResolveNothing` | rt-proxy/main.go:317-320 | a resolution without one valid address changes nothing |
| `ProxyPool.ResolveInOrder` | rt-proxy/main.go:321-343 | seeds first, then what was found, then what is left of the ring; ring and cursor stay |
| `ProxyPool.PublishPrefers` | rt-proxy/main.go:383-396 | a probe round keeps exactly the nodes that delivered, or those at least reached when none did |
| `ProxyPool.StaysTidy` | rt-proxy/main.go:179-396 | in every interleaving of resolving, probing, demoting and picking no list gains a second copy |
| `ProxyPool.VisitsExactlyWhen` | rt-proxy/main.go:179-187 | n picks in a row visit each of n places once exactly when the counter does not wrap within them or its range is a multiple of n |
| `ProxyPool.ThreeAtTheWrap` | rt-proxy/main.go:179-187 | three picks around the wrap of the counter visit the first of three places twice and the third never |
| `ProxyPool.Ring.Dial` | rt-proxy/main.go:626-692 | only a verified tunnel is handed out, the first that was; at most maxTries nodes of the ring are tried, and the ring loses the first node at fault and no other |
| `ProxyPool.BlamesAtMostOne` | rt-proxy/main.go:632-652 | one request blames at most one node, and one exactly when some node was at fault |
| `ProxyPool.FirstFaultIsBlamed` | rt-proxy/main.go:632-652 | the one blamed is the first that was not reached or took CONNECT without delivering |
| `PanelLock.Panel.UpdateLock` | webpanel/www/js/job.js:116-167 | the loop relocks every control |
| `PanelLock.Panel.SetLockAware` | webpanel/www/js/job.js:110-114 | a write goes to the backup of a held control and to the control itself otherwise |
| `PanelLock.Panel.ForeignJobsActive` | webpanel/www/js/job.js:200-205 | whether some job of another group runs, in any iteration order |
| `PanelLock.RunSound` | webpanel/www/js/job.js:110-167 | over every run of events a held control is off with what was last meant in its backup, and any other shows it |
| `PanelLock.IdleShowsMeant` | webpanel/www/js/job.js:133-167 | with no job left every control shows what was last meant |
| `PanelLock.HeldExactlyWhenBlocked` | webpanel/www/js/job.js:116-167 | after every change of the jobs exactly those controls are held and off that some job holds: any job, but for a switch of its own group |
| `PanelLock.BlockedExactlyWhen` | webpanel/www/js/job.js:116-128 | a switch in a group is blocked exactly by a job of another group, anything else by any job |
| `PanelLock.LastWriteShows` | webpanel/www/js/job.js:110-167 | once all jobs are over a control shows what was last written to it, whether jobs held it then or not |
| `PanelLock.NoGuessedResult` | webpanel/www/js/job.js:269-365 | success or failure is reported only because the server said so |
| `PanelLock.AnswerDecides` | webpanel/www/js/job.js:269-292 | an answer ends the watch with its result, as gone when the job is unknown, and otherwise clears the errors |
| `PanelLock.ResultStays` | webpanel/www/js/job.js:254-262 | nothing changes a result any more |
| `PanelLock.SilenceEnds` | webpanel/www/js/job.js:357-362 | a panel that stopped answering is given up after a bounded number of tries |
| `PanelLock.SilenceExactly` | webpanel/www/js/job.js:237-362 | silence alone ends a watch at the fifth try, at the tenth when the panel is expected to go, or at the 300th |
| `PanelLock.RefusalsAddUp` | webpanel/www/js/job.js:319-362 | among answers and refusals the watch ends exactly at the third refusal, however far apart |
| `PanelLock.GivesUpExactlyWhen` | webpanel/www/js/job.js:319-362 | with silence in the run as well: the watch ends exactly once three refusals came since the last silence or the unanswered polls reached their limit, and then without a guessed result |
| `Stun.ParseAttributes` | z2k-detect/internal/voiceprobe/stun.go:80-103 | the shrinking loop ends on any bytes and finds the first mapped address |
| `Stun.ParseAddress` | z2k-detect/internal/voiceprobe/stun.go:109-133 | address and port unmasked byte by byte, with the source's refusals |
| `Stun.ParseBindingResponse` | z2k-detect/internal/voiceprobe/stun.go:60-104 | the whole answer, total on all bytes |
| `Stun.ResponseRead` | z2k-detect/internal/voiceprobe/stun.go:60-104 | for every list of padded attributes the first mapped address is read, whatever precedes it or follows the message |
| `Stun.MappedRead` | z2k-detect/internal/voiceprobe/stun.go:109-133 | IPv4 and IPv6 address and port come back from under the mask |
| `Stun.Sample` | z2k-detect/internal/voiceprobe/stun.go:109-133 | the mapped address of section 2.2 of RFC 5769 |
| `Stun.AnswerByIndex` | z2k-detect/internal/voiceprobe/stun.go:60-107 | which bytes of a whole answer with one address attribute are looked at, and what they have to be |
| `Stun.AddressFound` | z2k-detect/internal/voiceprobe/stun.go:81-100 | other attributes are skipped down to the original address and port |
| `Stun.OnlyOurTransaction` | z2k-detect/internal/voiceprobe/stun.go:64-74 | only an answer to the matching transaction is accepted, and to no other |
| `Account.Record.Apply` | z2k-warpd/internal/account/account.go:205-240 | identity once, client id, interface addresses and peer key always, endpoint, ports and spares as the reply and the tunnel say; nothing without a peer |
| `Account.FieldsApplied` | z2k-warpd/internal/account/account.go:205-240 | where each part of a reply lands: identity once and together, the rest as it comes; keys and tunnel stay |
| `Account.EndpointsApplied` | z2k-warpd/internal/account/account.go:205-240 | under MASQUE endpoints stay; otherwise an initial reply sets the primary one and a later one adds or updates a spare |
| `Account.PortCutOff` | z2k-warpd/internal/account/account.go:205-240 | the port is cut off the endpoint, whatever colons the host has itself |
| `Account.Record.SwitchTunnel` | z2k-warpd/internal/account/account.go:403-427 | a missing MASQUE key is drawn first and kept, the tunnel changes only on an answer, the reply is applied, and which of the five outcomes is returned |
| `Account.SwitchGoes` | z2k-warpd/internal/account/account.go:403-427 | every way a switch goes: which of the five outcomes, tunnel, keys and peer key |
| `Account.SwitchWithoutKey` | z2k-warpd/internal/account/account.go:403-427 | without a key to draw a switch to MASQUE stops before it began |
| `Account.RepliesKeep` | z2k-warpd/internal/account/account.go:205-427 | over every sequence of replies and switches the primary never changes once there, spares are named, distinct and not the primary, keys and identity stay |
| `Account.DeviceFile.RepairBadEndpoint` | z2k-warpd/internal/account/account.go:444-475 | registers anew exactly under its guard, marks the record, carries the saved licence over once the record is saved, and returns device, created flag and failure |
| `Account.RepairGoes` | z2k-warpd/internal/account/account.go:444-475 | a repair in every case: record, registrations, result |
| `Account.BadRange` | z2k-warpd/internal/account/account.go:65-75 | the blocked range and no other |
| `Account.RegisteredIs` | z2k-warpd/internal/account/account.go:295-338 | a registered device is a fresh record with the key drawn, filled from a reply with peer and identity |
| `Account.DeviceFile.EnsureDevice` | z2k-warpd/internal/account/account.go:483-517 | repairs, refreshes a live device or registers and carries the licence over; returns device, created flag and failure |
| `Account.DeviceFile.CarryLicence` | z2k-warpd/internal/account/account.go:673-690 | without a saved key nothing; with one the device is asked to be bound to it and the summary says whether that worked |
| `Account.NeverBurnsTwice` | z2k-warpd/internal/account/account.go:444-517 | when saves succeed, between two bad-endpoint registrations there is one for a missing or revoked device |
| `Account.RepeatsExactlyWhenUnsaved` | z2k-warpd/internal/account/account.go:460-474 | the repair can repeat exactly when the record was not saved |
| `Account.LiveDeviceKept` | z2k-warpd/internal/account/account.go:500-507 | a device that is alive, or whose check failed for another reason, is never replaced |
| `Account.LiveDeviceRefreshed` | z2k-warpd/internal/account/account.go:500-507 | a live device is refreshed in place and the outcome is that of the save |
| `Account.FailsExactlyWhen` | z2k-warpd/internal/account/account.go:483-517 | exactly when ensuring fails |
| `Account.CreatedExactlyWhen` | z2k-warpd/internal/account/account.go:483-517 | exactly when a device counts as created, and when one is handed back |
| `Account.RegistersExactlyWhen` | z2k-warpd/internal/account/account.go:483-517 | a device is registered as missing exactly when none can be read or the one there is revoked and not up for repair, and registering works |
| `Account.UnreadableRegisters` | z2k-warpd/internal/account/account.go:483-517 | a device file that cannot be read costs a registration |
| `Account.ResultIsStored` | z2k-warpd/internal/account/account.go:444-517 | a device returned without an error is the one the file then holds, and it is called created exactly when it was registered by this call |
| `Account.LicenceFollows` | z2k-warpd/internal/account/account.go:444-517 | over any run of calls with a saved licence key every registration that is saved asks for its binding, and the device on file is the one last asked for |

## Left out

- The raw handshake, the answer that follows a probe, sockets, timeouts and goroutine scheduling: a probe is its packets, a measurement its outcomes.
- Whether a TTL expires before the peer, whether a peer refuses TCP-MD5, whether it checks sums and what it has sent itself: these are fields of `Peer`, and a decoy that would survive them is excluded by an assumption of `ProbeDelivery.PeerReadsTrigger`.
- TCP options passed by the handshake, retransmission and the receiver's acknowledgements: the receiver model covers arrival, the window and delivery.
- Integers of the host are taken as 64 bits wide; a length near 2^62 on a 32-bit router is not modelled.
- The inside of AES, GCM, HKDF and X25519. That a foreign ciphertext fails to open is assumed, as an ideal, only where the exact condition of the QUIC round trip is stated.
- ACK frames with further ranges or ECN counts: the source reads four fields of them only, so the frame round trip is about the other frames.
- Fragments.BuildFragments: its packets are pinned down up to a payload of 131054 bytes, past which the checksum accumulator may wrap; the reassembly theorems ask for a datagram that fits IPv4.
- The legacy `ipset` path, the per-client nft set, saving and loading of cache snapshots, and the environment checks of the nft writer; lazy mode is covered by `NftSet.LazyKeepsCovered` only.
- The seconds of a kernel timeout are computed with integers; the source goes through a floating-point number of seconds and then corrects upwards, which gives the same whole number for the durations in question.
- `Rules.Match`, `EligibleDestination` and the address ranges of clients are uninterpreted predicates.
- BoundarySearch.Prober.Classify: poison sweeps, the control probe, the response direction and the cross-check of the old greeting only decide other verdicts; probes of the accept filter are not counted, and the filter is taken to answer the same each time.
- Publication.ValidateSkips: which message a refusal carries; asset comparison, release notes and the shell around them.
- ProxyPool.Ring.Dial: others change the ring before a look, not between a pick and the demotion that follows it; health probes, the direct fallback and byte counts are outcomes.
- PanelLock.Panel.SetLockAware: drawing, badges, modals and logs; controls written to directly, past the lock-aware writer, are outside the theorem.
- Account.DeviceFile.EnsureDevice: the HTTP requests themselves and what the summary holds besides success; enabling WARP after a registration is part of whether registering works; which error is returned; a failed save is taken to leave the old file.
- Exclusions.RunSound: one script is applied as a whole, and a failed one leaves kernel and mirror as they were; locks are not modelled, late and lost writes are steps of the run.

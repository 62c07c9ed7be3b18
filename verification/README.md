# A verified model of the protocol core

This project models the byte-level protocol machinery and the stateful index and cache code of the proxy core, and
proves what they are for. `dafny verify dfyconfig.toml` checks all of it. Each module follows one source file or one
part of it:

- `ByteSeq`, `Buffers`, `BufferWindows`: bytes, 16-bit fields, lists of buffers, the reader that keeps what it has not
  handed out, and the buffer as a window on its array. A source of data is any list of deliveries, so "any cutting into
  reads" is every value of that list.
- `Addresses`, `AddressCodecs`, `MuxFrames`, `MuxCodecs`, `MuxReaders`, `MuxSessions`, `MuxWriters`, `MuxClients`,
  `MuxDemux`, `MuxServers`, `MuxLinks`: Mux.Cool multiplexing. Writers cut what they are given into frames, frames of
  many sessions share a link, and a demultiplexer takes the link apart again. `MuxDemux.Step` says what a frame means;
  the handlers are proved to take such steps and to leave the reader at a frame boundary; `MuxLinks` goes over whole
  links.
- `VisionPadding`, `VisionDecoder`, `VisionReaders`, `VisionWriters`, `VisionLinks`, `TlsRecords`, `TrafficStates`: XTLS
  Vision. The decoder is specified byte by byte (`VisionDecoder.Feed`), the loop that works in runs is proved to refine
  it, and the writer is proved to emit what it decodes. `VisionLinks` runs the writer and the reader of one connection,
  which share one half of the traffic state, in any order, and joins a writer to the reader at the other end.
- `IpSets`, `IpMatchers`, `IpMultiMatchers`, `IpMultiFilters`: matching IP lists by /24 and /64 buckets, against the
  lookup of every address by itself.
- `DnsTable`, `DnsCache`, `DnsQuery`: the DNS cache whose two maps refine one table while records are moved between
  them, and the parallel race among clients against the serial loop.
- `Nonces`, `Aeads`, `AeadWriters`, `AeadReaders`: chunked AEAD streams over an abstract cipher, and the nonce counter.
- `FileSwaps`, `Lrus`, `Geodats`, `ReplayFilters`: the file swap with its undo log, the cache with a reverse index, the
  scanner of geodata files, and the replay filter.

Objects whose methods change fields are classes here, and their methods are proved against functions of the old state;
lemmas about those functions carry the results over whole runs. Locks are atomic steps, a frame goes on its link in one
write, and time is an integer that a caller passes in.

Where the obvious claim does not hold, the exact condition is proved, and where it is more than one test, so is an input
that breaks the claim:

- Padding never panics exactly for the seeds of `VisionPadding.SafeSeed`.
- The Vision decoder gives the same bytes for every cutting exactly if no piece that arrives while it is idle starts
  with the identifier. `VisionReader` goes to the decoder as long as padding or filtering lasts, and decides by
  content, padding and command only. With 21 bytes in its first buffer it is right exactly if no piece that it gives
  to an idle decoder starts with the identifier, and it does not stop looking while the decoder is inside a header
  (`VisionReaders.VisionReaderRoundTrip`). A read that ends inside the header of the last block makes it leak header
  bytes (`VisionReaders.CutHeaderLeaks`); plain bytes that look like a start are lost while packets are filtered, and
  only then (`VisionReaders.FalseStartIsLost`).
- A server hello that is cut in two behind its suite is recognised like the whole one exactly if at least 79 bytes come
  in front of the cut and the cut does not go through the versions. With 79 bytes but not the whole suite in front, the
  filter takes the suite from the pooled array, and a rest that looks like a hello is taken for one
  (`TrafficStates.CutAgainstWhole`, `TrafficStates.CutsThatHide`). In more parts the versions must stand whole in one
  part, while there are packets left to filter (`TrafficStates.HelloInParts`).
- A 256-byte name passes the length test but its length byte is zero; an endpoint that cannot be written leaves a port
  without an address and no error (`MuxFrames.UnwritableEndpoint`).
- Session identifiers never repeat exactly if the connection limit is not a multiple of 65536.
- Metadata whose addresses survive comes back exactly if it has at most 512 bytes, which the writer does not check.
  Only names for the ends of a reverse connection can make it longer (`MuxFrames.FrameComesBack`,
  `MuxFrames.ThreeLongNames`).
- `FilterIPs` of the multi matcher puts an address of a longer list on both sides exactly if a matcher with one kind of
  view accepts it and all that look through the other kind, of which there is one, do not (`IpMultiFilters.OnBothSides`,
  `IpMultiFilters.MixedViews`).
- A DNS lookup during a migration hides a half that only the old map holds, exactly if the new map has a record for the
  name without it (`DnsCache.CacheController.FindRecords`, `DnsCache.HiddenHalf`).
- All races among DNS clients end as the serial query does exactly if nobody else in the policy group of its answer has
  an answer (`DnsQuery.RaceIsSerialExactly`, `DnsQuery.TwoAnswersInOneGroup`). Without an answer the two fail alike
  exactly if no client is skipped, or if those that are asked give no errors or an empty response and beside it only
  missing records (`DnsQuery.FailuresAgree`).
- An oversized packet is dropped by the AEAD writer after a padding length has been drawn for it; the padding lengths of
  the two ends are out of step from then on (`AeadWriters.AuthenticationWriter.WritePackets`).
- A read of the AEAD stream reports a clean end without an empty chunk exactly if the transport ended at a chunk
  boundary or right behind a size field (`AeadReaders.AuthenticationReader.ReadInternal`,
  `AeadReaders.EndBehindSizeField`).
- A cleanup of the DNS cache removes no answer before it has expired exactly if stale answers are not served or the time
  for it is at most 2^31 seconds; beyond that the number becomes negative and then positive again
  (`DnsCache.StaleIsKept`).
- `Lru.Put` leaves the two indexes inverse exactly if the pair is live already or key and value are both new.
- A stage of a file swap leaves a stray empty file behind exactly if its first operation succeeds and its third, giving
  back the name for the backup, does not (`FileSwaps.SwapAll`, `FileSwaps.LeavesStray`).

Preconditions that are not in the code come from its callers: an AEAD setup leaves room for plain text in a buffer,
downloads are not targets, sequences of checks and cleanups see time go forward, and, for comparing the two ways of
asking, DNS clients return no addresses together with an error.

## Model

| member | source | states |
|---|---|---|
| Buffers.SplitSize | core/common/buf/multi_buffer.go:173-204 | the chunk has at most `size` bytes and joins with the rest to what there was; buffers are kept whole unless the first alone is too large; the chunk is as long as whole buffers allow |
| Buffers.SplitBytes | core/common/buf/multi_buffer.go:100-123 | as many bytes as asked for, or all; they and the rest are what there was |
| Buffers.MergeBytes | core/common/buf/multi_buffer.go:39-54 | appending fills the last buffer first, loses nothing, and no buffer exceeds its capacity |
| Buffers.BufferedReader.Read | core/common/buf/reader.go:61-86 | what is returned and what remains is what remained before; buffered bytes come first and then nothing is taken from the source; an end means that nothing remains |
| Buffers.BufferedReader.ReadAtMost | core/common/buf/reader.go:100-115 | at most `size` bytes off the front of what remains |
| BufferWindows.Buffer.Extend | core/common/buf/buffer.go:148-157 | that many zero bytes more, the rest of the content unchanged |
| BufferWindows.Buffer.Write | core/common/buf/buffer.go:266-273 | as much as fits behind the content, and whether something did not |
| BufferWindows.Buffer.Read | core/common/buf/buffer.go:313-324 | bytes off the front; an emptied buffer starts again at the beginning of its array |
| BufferWindows.Buffer.Advance | core/common/buf/buffer.go:223-229 | the content from a position, counted from the end if negative; before the window it brings back what was read |
| BufferWindows.Buffer.Resize | core/common/buf/buffer.go:203-220 | the content between two positions, counted from the end if negative, with zeros behind the old end; before the window it brings back what was read |
| AddressCodecs.WriteAddressPortTo | core/common/protocol/address.go:105-142 | written step by step into a buffer, the encoding of address and port; on an error the port alone if it comes first |
| AddressCodecs.ReadAddressPortFrom | core/common/protocol/address.go:87-134 | read step by step through a scratch buffer, the address and port at the front and what follows them |
| MuxCodecs.WriteTo | core/common/mux/frame.go:67-111 | written field by field into a buffer, the metadata behind its length; an error exactly if target or source cannot be written |
| MuxCodecs.UnmarshalFromBuffer | core/common/mux/frame.go:134-222 | read field by field from a buffer, the metadata that its content encodes, with all error cases |
| Addresses.AddressRoundTrip | core/common/protocol/address.go:174-259 | an address comes back from its encoding exactly if it is a normalised IP or a valid name of 1 to 255 bytes that is not an IP in disguise |
| Addresses.AddressPortRoundTrip | core/common/protocol/address.go:87-142 | the same with the port in front or behind |
| Addresses.WritableNames | core/common/protocol/address.go:228-259 | only names of more than 256 bytes are refused; one of 256 bytes is written with length zero |
| Addresses.ValidNames | core/common/protocol/address.go:155-166 | valid names have letters, digits, hyphens, dots and underscores; what may begin an IP address is a digit or a bracket |
| Addresses.MappedIsIPv4 | core/common/protocol/address.go:193-226 | an IPv6 address that is IPv4 in disguise (section 2.5.5.2 of RFC 4291) is read as IPv4, and no other |
| MuxFrames.MetaRoundTrip | core/common/mux/frame.go:67-222 | metadata of New, Keep and End frames, with UDP endpoints, global identifiers and reverse sources, is read back as far as the format carries it |
| MuxFrames.UnwritableEndpoint | core/common/mux/frame.go:103-106 | a Keep frame with an endpoint too long to write is sent without an error and read by nobody |
| MuxFrames.EndpointRoundTrip | core/common/mux/frame.go:103-106 | the endpoint of a Keep frame comes back exactly if its address survives |
| MuxFrames.MetaLength | core/common/mux/frame.go:67-111 | the exact length of metadata, from its addresses |
| MuxFrames.MetaFits | core/common/mux/frame.go:108-121 | metadata has 4 to 272 bytes, with IP addresses for the ends of a reverse connection up to 304: within the reader's limit of 512 |
| MuxFrames.FrameRoundTrip | core/common/mux/writer.go:71-87 | a frame in front of any bytes is cut off exactly and read as what was sent |
| MuxFrames.FrameComesBack | core/common/mux/frame.go:67-121 | a frame that was written without an error comes back exactly if its metadata has at most 512 bytes; otherwise no reader accepts it |
| MuxFrames.ThreeLongNames | core/common/mux/frame.go:67-121 | an input for the other case: names of 255 bytes for target, source and local end |
| MuxFrames.DataBit | core/common/mux/frame.go:25-29 | a frame has data exactly if the lowest bit of its option is set |
| MuxFrames.NewOnWire | core/common/mux/frame.go:67-111 | the bytes of a frame that opens a TCP session |
| MuxFrames.NewPacketOnWire | core/common/mux/frame.go:67-111 | the bytes of one that opens a UDP session with a packet |
| MuxFrames.OthersOnWire | core/common/mux/frame.go:67-111 | the bytes of a packet with its endpoint, of an End frame with an error and of a KeepAlive frame |
| MuxFrames.RejectedMeta | core/common/mux/frame.go:134-216 | short metadata and unknown networks are refused; a source may be missing |
| MuxFrames.RejectedLocal | core/common/mux/frame.go:191-213 | a local end that cannot be read makes the whole metadata unreadable |
| MuxReaders.ChunkStreamReader.ReadMultiBuffer | core/common/crypto/chunk.go:102-126 | part of the current chunk, or of the next after its length; left-over size and chunk count tell how much is still to come, and the data never crosses the chunk |
| MuxReaders.PacketReader.ReadMultiBuffer | core/common/mux/reader.go:30-54 | one complete packet of at most 8192 bytes and then the end; a longer one is an error, a cut one never a packet |
| MuxSessions.SessionManager.Allocate | core/common/mux/session.go:54-73 | a session is allocated exactly if the manager is open and below both limits; its identifier is the next count modulo 2^16 |
| MuxSessions.SessionManager.Add | core/common/mux/session.go:75-86 | the session goes under the peer's identifier unless the manager is closed |
| MuxSessions.SessionManager.CloseIfNoSessionAndIdle | core/common/mux/session.go:120-136 | closes exactly if there was and is no session and none has come in between |
| MuxSessions.SessionManager.Close | core/common/mux/session.go:138-154 | closed for good; afterwards nothing is found, and what was open is what is to be closed |
| MuxSessions.IdentifiersCount | core/common/mux/session.go:61-67 | the k-th identifier of any run is the count at its start plus k, modulo 2^16 |
| MuxSessions.LimitHolds | core/common/mux/session.go:54-73 | with a connection limit no run hands out more identifiers than the limit leaves |
| MuxSessions.ConcurrencyHolds | core/common/mux/session.go:54-73 | with a concurrency limit no more sessions are ever open at once |
| MuxSessions.IdentifiersDistinct | core/common/mux/session.go:54-73 | identifiers never repeat, in any run, exactly if the limit is not zero modulo 65536 |
| MuxWriters.SplitBuffers | core/common/mux/writer.go:104-112 | cutting buffers with endpoints keeps the bytes, always makes progress, and invents no endpoint |
| MuxWriters.Writer.WriteMultiBuffer | core/common/mux/writer.go:97-119 | the frames put on the link open the session once and go on, each with the session's metadata; a stream comes in frames of at most 8192 bytes that join up to what was written, a packet session sends one frame a buffer with its endpoint; it fails only if the link is closed or the opening frame cannot be written, and then a beginning has gone out |
| MuxWriters.Writer.Close | core/common/mux/writer.go:122-136 | one End frame with the error option, if the link takes it |
| MuxWriters.EndOnWire | core/common/mux/writer.go:122-136 | the bytes of an End frame, with and without an error |
| MuxClients.FetchInput | core/common/mux/client.go:246-287 | all of a session's frames have the shape New, Keep and at most one End; an End frame gets out only if the link has taken everything that was read, and its error flag says whether the input broke off; if the opening frame cannot be written nothing but an End frame with an error goes out |
| MuxDemux.StepKeepsValid | core/common/mux/server.go:336-361 | the table of open sessions stays in order over any frame |
| MuxServers.ServerWorker.CopyStream | core/common/mux/server.go:290-297 | the data of a frame goes to the session in order; after a refused write the session is closed and the rest is read away; complete data leaves the reader behind it |
| MuxServers.ServerWorker.CopyPacket | core/common/mux/server.go:314-323 | the data of a frame goes to a packet session as one piece; data of more than 8192 bytes is an error |
| MuxServers.ServerWorker.HandleStatusNew | core/common/mux/server.go:165-298 | a new session at the end of the log that takes the frame's data; before that the connection breaks off exactly if the network is not the one allowed, else if the session carries a global identifier, else if there is no way to the target, each with its own reason |
| MuxServers.ServerWorker.HandleStatusKeep | core/common/mux/server.go:300-324 | data for an open session is taken by it; for an unknown one it is read away and an End frame goes back |
| MuxServers.ServerWorker.HandleStatusEnd | core/common/mux/server.go:326-334 | the session is closed and any data read away |
| MuxServers.ServerWorker.HandleStatusKeepAlive | core/common/mux/server.go:158-163 | nothing changes and any data is read away |
| MuxServers.ServerWorker.Unmarshal | core/common/mux/frame.go:114-130 | the metadata that the bytes encode, and the reader right behind it; a connection that ends in front of a frame is a clean end |
| MuxServers.ServerWorker.HandleFrame | core/common/mux/server.go:336-361 | after a complete frame handled without an error the reader is exactly at the next frame and the sessions have taken that frame's step; an error on a decodable frame has a reason in the frame, and a forbidden network is one exactly for a New frame that asks for it |
| MuxServers.ServerWorker.Run | core/common/mux/server.go:363-384 | the frames handled are the first frames of the bytes, each one step; what is left over is less than a frame if the connection has ended; no run ever opens a session of a network that is not allowed or to a target without a way |
| MuxLinks.FindsFrames | core/common/mux/server.go:363-384 | decoding a link finds its frames one after the other |
| MuxLinks.ProjectIsPick | core/common/mux/session.go:61-67 | frames of writers with different identifiers can be told apart by identifier, whatever the interleaving |
| MuxLinks.GoodFrames | core/common/mux/writer.go:44-119 | every frame that a session sends on a good route can be read |
| MuxLinks.OthersFrame | core/common/mux/server.go:300-334 | a frame of one session changes nothing for another |
| MuxLinks.OneFrame | core/common/mux/server.go:336-361 | after one more frame a session holds one more frame's data |
| MuxLinks.RunDelivers | core/common/mux/server.go:363-384 | over any run each session has received what it has sent so far: all of it while open or healthy, else a beginning; packets one by one |
| MuxLinks.Deliver | core/common/mux/server.go:363-384 | sessions with identifiers from one limited table, interleaved in any way on one link that arrives in any cutting: the server reads to the end and each session holds exactly what was sent for it |
| MuxLinks.DeliverCut | core/common/mux/server.go:363-384 | if the link breaks off at any byte or the server breaks the connection, no session holds anything but a beginning of what was sent for it |
| MuxLinks.InputArrives | core/common/mux/client.go:259-287 | what a session holds is what its writer read from its input |
| VisionPadding.SafeSeedIsExact | core/proxy/proxy.go:496-532 | padding any buffer that leaves room for the header, with any random draw, never panics exactly for safe seeds, in 32-bit arithmetic |
| VisionPadding.PaddingHidesLength | core/proxy/proxy.go:496-532 | below the threshold, where long padding is asked for, the padded size does not depend on the content; elsewhere the padding does not, up to the room there is |
| VisionPadding.SameSize | core/proxy/proxy.go:496-532 | with long padding and one draw all contents below the threshold become equally long |
| VisionPadding.PaddedFormHidesLength | core/proxy/proxy.go:496-532 | the padded form has the command, the content, the identifier in front and zeros behind, as many as hide the length |
| VisionPadding.BlocksOnWire | core/proxy/proxy.go:520-531 | the bytes of blocks with each command |
| VisionDecoder.UnpadAppend | core/proxy/proxy.go:535-616 | decoding two pieces is decoding the first and then the second |
| VisionDecoder.IdlePiece | core/proxy/proxy.go:545-562 | an idle decoder starts exactly at the identifier with room for a header behind it, and lets everything else through |
| VisionDecoder.UnpadBlocks | core/proxy/proxy.go:535-616 | a chain of padded blocks decodes to its contents |
| VisionDecoder.SplitInvariant | core/proxy/proxy.go:535-616 | cutting bytes into pieces changes the result exactly if a piece that an idle decoder meets starts with the identifier |
| VisionDecoder.VisionRoundTrip | core/proxy/proxy.go:496-616 | padded blocks and the plain bytes behind them, cut anywhere behind 21 bytes, come back unchanged exactly if no later plain piece looks like a start |
| VisionReaders.VisionReader.XtlsUnpadding | core/proxy/proxy.go:535-616 | the loop that takes content and padding in runs agrees with the decoder byte by byte |
| VisionReaders.VisionReader.ReadMultiBuffer | core/proxy/proxy.go:203-262 | one read: unpadded while padding or filtering lasts, then the decision about what follows, then the packet filter; the flags of the writer on the same half stay |
| VisionReaders.VisionReaderRoundTrip | core/proxy/proxy.go:203-285 | a padded stream and the plain bytes behind it, through the reader in any cutting whose first buffer has 21 bytes, come back unchanged exactly if no piece that the reader gives to an idle decoder starts with the identifier and it never stops looking inside a header |
| VisionReaders.ReaderWithoutFalseStarts | core/proxy/proxy.go:203-285 | if no later piece of the plain part starts with the identifier, it is right exactly if no read finds the decoder inside the last block's header where the reader takes it for the end |
| VisionReaders.CutHeaderLeaks | core/proxy/proxy.go:244-251 | the input that leaks: an unfiltered read that ends behind the command byte of an End block |
| VisionReaders.FalseStartIsLost | core/proxy/proxy.go:229-241 | the input that is lost while packets are filtered, and comes out as it is if they are not: plain bytes that start with the identifier |
| VisionReaders.SwitchesAtDirect | core/proxy/proxy.go:238-285 | a reader that is never mistaken goes over to raw copy in exactly the read that reaches the end of a Direct block, and takes padding for over from the end of an End or Direct block on |
| VisionWriters.ReshapedFits | core/proxy/proxy.go:461-493 | reshaping keeps the bytes and leaves only buffers that fit with identifier and header |
| VisionWriters.CutsAtLastRecord | core/proxy/proxy.go:461-493 | a buffer without room for the header is cut in front of its last TLS record if that is far enough from both ends, or in halves |
| VisionWriters.DataStarts | core/proxy/proxy.go:366-370 | which buffers begin with application data |
| VisionWriters.ReshapeMultiBuffer | core/proxy/proxy.go:461-493 | the method computes the reshaping |
| VisionWriters.VisionWriter.WriteMultiBuffer | core/proxy/proxy.go:322-404 | over any run Continue blocks, then at most one End or Direct block, then plain bytes, in buffers of at most 8192; one block a buffer, padded so that it hides its length, with long padding inside TLS up to the first whole application data; the last block is Direct exactly if writing goes on over the raw connection; nothing written is lost; padding ends exactly on whole TLS records or one packet early |
| VisionWriters.OtherDirectionKeepsValid | core/proxy/proxy.go:203-262 | whatever else happens to the shared state, also to the writer's half of it, does not disturb the writer as long as its two flags stay |
| VisionWriters.WriterMeetsDecoder | core/proxy/proxy.go:322-404 | what the writer has put out, cut anywhere, decodes to what was written, under the condition of the round trip |
| VisionLinks.ReadBeside | core/proxy/proxy.go:203-262 | a read of the connection between two writes keeps the writer valid and what it has written |
| VisionLinks.WriteBeside | core/proxy/proxy.go:322-404 | a write between two reads leaves the reader's state |
| VisionLinks.NewEnd | core/proxy/proxy.go:141-173 | the two directions of a new connection on one state, ready to run |
| VisionLinks.Run | core/proxy/proxy.go:203-404 | reads and writes of one end in any order: everything written is accounted for, and the reads give what they give by themselves, filtered up to some point and not beyond |
| VisionLinks.WriterMeetsReader | core/proxy/proxy.go:203-404 | what a writer has put out, before and after the switch to raw copy, read by the other end in any cutting, comes out as it was written exactly if the reader is never mistaken; then the reader has gone over to raw copy exactly if the writer has, and is in the padded part exactly if the writer is |
| TlsRecords.IsCompleteRecord | core/proxy/proxy.go:407-458 | accepts exactly the concatenations of records 17 03 03 with a non-zero 16-bit length and that many bytes (section 5.2 of RFC 8446) |
| TlsRecords.AllRecordsIsSequence | core/proxy/proxy.go:407-458 | reading record after record decides whether bytes are such a concatenation |
| TrafficStates.TrafficState.XtlsFilterTls | core/proxy/proxy.go:619-670 | the whole new filter state; raw copy is only ever enabled for a TLS 1.3 suite in a server hello |
| TrafficStates.HelloStarts | core/proxy/proxy.go:619-641 | how server and client hellos begin |
| TrafficStates.AllowedSuites | core/proxy/proxy.go:43-50 | which suites (appendix B.4 of RFC 8446) allow the switch to raw copy |
| TrafficStates.CutHello | core/proxy/proxy.go:619-670 | a server hello cut in two anywhere: a cut in the first six bytes hides it; behind them it is recognised exactly if the cut spares some occurrence of the versions and the suite known by then allows it; a rest that looks like a hello counts as one of its own |
| TrafficStates.CutAgainstWhole | core/proxy/proxy.go:619-670 | before any suite is known a cut hello, unless its rest is taken for another, is recognised exactly if at least 79 bytes come first, the cut does not go through the versions, and the whole one is recognised; if the suite is not whole in the first part, what is read in its place decides |
| TrafficStates.CutsThatHide | core/proxy/proxy.go:619-670 | a hello that is recognised whole, and three cuts that hide it |
| TrafficStates.HelloInParts | core/proxy/proxy.go:619-670 | a hello in any number of buffers and calls, none of whose later parts looks like a hello: recognised exactly if the versions stand whole in one part while packets are left, and the suite known from the first allows it |
| IpSets.CreateFrom | core/common/geodata/ip_matcher.go:879-949 | the recorded maximum prefix lengths are those of the longest prefixes |
| IpSets.KeyIffValid | core/common/geodata/ip_matcher.go:194-215 | an address has a bucket exactly if it is valid, and the bucket tells its family |
| IpSets.MatchMeans | core/common/geodata/ip_matcher.go:63-77 | a matcher accepts what some prefix of the family contains; reversed, what none does, if the family has prefixes |
| IpSets.ReverseMeans | core/common/geodata/ip_matcher.go:63-77 | reversing turns every answer round, but for families without prefixes, which never match |
| IpSets.InPrefixIsNumeric | core/common/geodata/ip_matcher.go:870-949 | a prefix contains an address exactly if both, as numbers, are equal without their last bits |
| IpSets.BucketDecides | core/common/geodata/ip_matcher.go:63-77 | addresses in one bucket are treated alike by a set whose longest prefix is at most 24 or 64 bits |
| IpSets.LongerPrefixesSplitBuckets | core/common/geodata/ip_matcher.go:80-127 | with a prefix of 25 bits they are not |
| IpMatchers.HeuristicIPMatcher.AnyMatch | core/common/geodata/ip_matcher.go:80-127 | true exactly if some address is valid and accepted by itself |
| IpMatchers.HeuristicIPMatcher.Matches | core/common/geodata/ip_matcher.go:130-192 | true exactly if there are addresses and each is valid and accepted by itself |
| IpMatchers.HeuristicIPMatcher.FilterIPs | core/common/geodata/ip_matcher.go:218-305 | each valid address is on the side of its own lookup, as often as it was given |
| IpMatchers.SidesPartition | core/common/geodata/ip_matcher.go:218-305 | the two sides together are exactly the valid addresses |
| IpMatchers.HeuristicIPMatcher.ToggleReverse | core/common/geodata/ip_matcher.go:307-310 | afterwards exactly the addresses are accepted that were not, among those whose family has prefixes |
| IpMatchers.SidesSwap | core/common/geodata/ip_matcher.go:218-310 | reversing swaps the sides of every address whose family has prefixes; the others are always unmatched |
| IpMultiMatchers.HeuristicMultiIPMatcher.AnyMatch | core/common/geodata/ip_matcher.go:402-449 | true exactly if some address is accepted by some matcher |
| IpMultiMatchers.HeuristicMultiIPMatcher.Matches | core/common/geodata/ip_matcher.go:452-508 | true exactly if there are addresses and some one matcher accepts all |
| IpMultiFilters.FilterIPs | core/common/geodata/ip_matcher.go:594-699 | the matched addresses are exactly those that some matcher accepts, and the unmatched exactly those that all matchers with some one kind of view leave, or of a single address nobody accepts; nothing else comes out |
| IpMultiFilters.OnBothSides | core/common/geodata/ip_matcher.go:594-699 | an address of a list of several is on both sides exactly if a matcher with one kind of view accepts it and all with the other kind, of which there is one, do not |
| IpMultiFilters.RejectedIsLeft | core/common/geodata/ip_matcher.go:594-699 | under any views, what no matcher accepts comes out unmatched |
| IpMultiFilters.OneViewPartitions | core/common/geodata/ip_matcher.go:594-699 | with one kind of view per family each valid address is on exactly one side |
| IpMultiFilters.MixedViews | core/common/geodata/ip_matcher.go:594-699 | two matchers and two addresses that come out on both sides |
| DnsTable.HoldsLastUpdate | core/app/dns/cache_controller.go:103-309 | in any run a half holds its last update unless a later cleanup found that update expired |
| DnsTable.UntouchedHalf | core/app/dns/cache_controller.go:103-309 | a half without updates can only disappear, and only by a cleanup that found it expired |
| DnsCache.CacheController.UpdateRecord | core/app/dns/cache_controller.go:245-309 | an update changes that half of that name and nothing else, also during a migration, and publishes the other half if it has time left to live |
| DnsCache.CacheController.CollectExpiredKeys | core/app/dns/cache_controller.go:73-101 | exactly the names with an expired half, none during a migration |
| DnsCache.CacheController.CacheCleanup | core/app/dns/cache_controller.go:61-71 | of the names with an expired half, removes exactly the halves that are expired when it comes to them, unless a migration is running |
| DnsCache.CacheController.WriteAndShrink | core/app/dns/cache_controller.go:103-170 | removes the expired halves of the given names; a migration starts exactly if the map has shrunk by more than 10240 names and 65 percent of its peak; the peak is forgotten if a map that had 512 is empty |
| DnsCache.CacheController.Flush | core/app/dns/cache_controller.go:221-243 | a batch moves records without changing what any name holds |
| DnsCache.CacheController.EndMigration | core/app/dns/cache_controller.go:177-219 | dropping the old map changes nothing, once all has been moved |
| DnsCache.CacheController.FindRecords | core/app/dns/cache_controller.go:311-320 | a lookup finds a name exactly if one of the maps has it, and shows only halves that the table holds |
| DnsCache.StaleIsKept | core/app/dns/cache_controller.go:43-51 | a cleanup leaves an expired answer for as long as stale answers may be served, and none is removed too early exactly if that time is at most 2^31 seconds |
| DnsCache.HiddenHalf | core/app/dns/cache_controller.go:245-320 | a state in which a lookup hides a half: an update of the other half during a migration |
| DnsQuery.SortClients | core/app/dns/dns.go:267-328 | the order is the candidates up to the first final client, or the first client |
| DnsQuery.SortedAsks | core/app/dns/dns.go:267-328 | clients are asked at most once, matched ones in the order of their first match, then fallbacks in the order of configuration, and none behind a final one |
| DnsQuery.SortedIsComplete | core/app/dns/dns.go:267-328 | whoever has matched, and as a fallback whoever does not refuse, is asked unless a final client comes before; nobody else is, but for the first client when there is no candidate |
| DnsQuery.MergeQueryErrors | core/app/dns/dns.go:339-361 | which error stands for the errors of all: servers without the record count only if there is nothing else, and different errors are all kept |
| DnsQuery.OneMerge | core/app/dns/dns.go:339-361 | what errors are merged into is determined by them |
| DnsQuery.MergedExamples | core/app/dns/dns.go:339-361 | some failures and what they are merged into |
| DnsQuery.ErrorsOfAsked | core/app/dns/dns.go:363-384 | the errors that count are those of the clients asked, and an empty answer is one |
| DnsQuery.SerialQuery | core/app/dns/dns.go:363-384 | the answer of the first client with addresses; without one, the merged errors of those asked, in order |
| DnsQuery.MakeGroups | core/app/dns/dns.go:479-533 | the groups are the runs of equal policy |
| DnsQuery.ParallelQuery | core/app/dns/dns.go:386-438 | for every order of arrival the first success, by place, of the earliest group with a success among what has arrived when that group is first decided; without a success, all errors merged, once each and in the order of clients |
| DnsQuery.RaceIffSerial | core/app/dns/dns.go:363-438 | the race has an answer exactly if the serial loop has |
| DnsQuery.RaceAgreesWithSerial | core/app/dns/dns.go:363-438 | both answers are from one policy group, and the race's is not ahead |
| DnsQuery.OneWinner | core/app/dns/dns.go:397-437 | an order of arrival has one winner |
| DnsQuery.AnswersOfRaces | core/app/dns/dns.go:397-437 | the winners over all orders of arrival are exactly the successes of the earliest group with a success |
| DnsQuery.RaceIsSerialExactly | core/app/dns/dns.go:363-438 | every race ends as the serial loop does exactly if nobody else in that group has an answer |
| DnsQuery.TwoAnswersInOneGroup | core/app/dns/dns.go:363-438 | an input on which they may differ |
| DnsQuery.FailuresAgree | core/app/dns/dns.go:339-438 | without an answer both fail alike exactly if no client is skipped, or if those asked give no errors or an empty response and beside it only missing records |
| Nonces.IncreasingNonce.Next | core/common/crypto/auth.go:30-41 | the carry loop on the array computes the successor |
| Nonces.SuccessorAddsOne | core/common/crypto/auth.go:30-41 | the successor is one more, little-endian, and zero after the last value |
| Nonces.NonceCounts | core/common/crypto/auth.go:30-41 | the k-th nonce is the seed plus k modulo 256^n |
| Nonces.NonceRepeats | core/common/crypto/auth.go:30-41 | two nonces are equal exactly if their distance is a multiple of 256^n |
| Nonces.AEADNonces | core/common/crypto/auth.go:43-49 | started from all ones, the k-th nonce is k - 1, and none of the first 256^n comes twice |
| Aeads.SizesComeBack | core/common/crypto/chunk.go:28-64 | every 16-bit size comes back from the plain and from the sealed size field, also through the wrap-around |
| AeadWriters.AuthenticationWriter.Seal | core/common/crypto/auth.go:249-276 | size field, sealed text and padding of the chunk's place; nothing exactly if that exceeds a buffer |
| AeadWriters.FitsBuffer | core/common/crypto/auth.go:249-276 | a chunk is accepted exactly if it takes at most 8192 bytes on the wire |
| AeadWriters.AuthenticationWriter.WriteStream | core/common/crypto/auth.go:278-310 | chunks that join up to what was written, none empty, all but the last as large as a buffer of 8192 bytes allows for the longest padding |
| AeadWriters.AuthenticationWriter.WritePackets | core/common/crypto/auth.go:312-335 | the packets that fit, one a chunk, so all of them if all fit; the paddings stay in step exactly if none was dropped or there is no padding |
| AeadWriters.AuthenticationWriter.WriteMultiBuffer | core/common/crypto/auth.go:338-350 | an empty write puts out exactly the chunk that ends the stream, and no other write does |
| AeadReaders.AuthenticationReader.ReadInternal | core/common/crypto/auth.go:153-204 | the next chunk's plain text; a soft read never waits for the transport and stashes a size it has read; for any other read, what it reports is exact in what is there of the next chunk: data, a clean end, the empty chunk, or an error |
| AeadReaders.AuthenticationReader.ReadMultiBuffer | core/common/crypto/auth.go:206-226 | between 1 and 16 chunks in order, whatever is buffered; nothing that has been opened is lost; what the first read reports is exact |
| AeadReaders.AuthenticationReader.Drain | core/common/crypto/auth.go:119-226 | all plain texts up to the first empty chunk or the first that is not there in whole, and exactly how the stream then seems to end |
| AeadReaders.Transfer | core/common/crypto/auth.go:119-350 | a reader set up like the writer gives its plain texts in order, under any cutting and up to any place where the transport breaks off; if nothing is lost, up to the first empty one, and it is done exactly at that one |
| AeadReaders.EndBehindSizeField | core/common/crypto/auth.go:119-226 | a transport that ends right behind a size field: a clean end by all that the reader says |
| FileSwaps.UndoSwap | core/app/geodata/download.go:299-312 | undoing a swap brings back the files from before, also with other files in between |
| FileSwaps.Disk.BackupFile | core/app/geodata/download.go:332-346 | a name that is not in use; its file is left behind exactly if it can be created but not removed |
| FileSwaps.SwapOne | core/app/geodata/download.go:256-287 | a stage is swapped in exactly if nothing fails and its download is there; on a failure the old file is back; a stray file is left exactly if the first operation succeeds and the third fails |
| FileSwaps.SwapAll | core/app/geodata/download.go:244-254 | all stages, or, unless undoing fails, every file as before, with at most one stray empty file, left exactly if the failing stage can create but not remove the file for its backup's name; targets may repeat |
| FileSwaps.LeavesStray | core/app/geodata/download.go:244-346 | a disk with one fault that leaves a stray file |
| FileSwaps.Tx.Rollback | core/app/geodata/download.go:289-297 | undoing in reverse reports success exactly if no operation fails, and then the files are those from before the first swap; names that no swap uses are never touched |
| FileSwaps.CommitInstalls | core/app/geodata/download.go:314-322 | without the backups the files are those with the downloads moved in |
| FileSwaps.InstalledContents | core/app/geodata/download.go:244-322 | each target has the last download for it, no download is left, and no other file has changed |
| FileSwaps.UpdateAll | core/app/geodata/geodata.go:67-86 | new contents and no backups if the files load, the old state if they do not or a stage fails |
| Lrus.Lru.Get | core/common/cache/lru.go:40-49 | the value of the key, which moves to the front |
| Lrus.Lru.GetKeyFromValue | core/common/cache/lru.go:51-60 | the key of the value, which moves to the front; if the index by value is out of date, what it says, and nothing moves for an element that is gone |
| Lrus.Lru.Put | core/common/cache/lru.go:70-89 | the pair goes to the front and the last leaves if there are too many; the index by value stays inverse exactly for fair puts |
| Lrus.LiveAreRecent | core/common/cache/lru.go:40-89 | over any fair run the live keys are the `capacity` most recently touched distinct keys in order of recency, and keys and values are paired off |
| Lrus.Perform | core/common/cache/lru.go:40-89 | the cache with its list and its two maps does that |
| Geodats.VarintRoundTrip | core/common/geodata/geodat_loader.go:68-82 | every 64-bit number comes back from its Base 128 Varint (Protocol Buffers Encoding) |
| Geodats.Scanner.DecodeVarint | core/common/geodata/geodat_loader.go:68-82 | the varint at the front, in 64 bits; an error exactly for ten continued bytes or the end |
| Geodats.Scanner.Find | core/common/geodata/geodat_loader.go:84-145 | the scan of any bytes |
| Geodats.FindsFirst | core/common/geodata/geodat_loader.go:84-145 | the body of the first entry with the code, whatever follows the entries |
| Geodats.ErrsIffAbsent | core/common/geodata/geodat_loader.go:84-145 | on a file of entries an error exactly if no entry has the code |
| Geodats.CutFileErrs | core/common/geodata/geodat_loader.go:84-145 | a file that ends inside an entry is an error exactly if no whole entry before has the code |
| Geodats.LongCode | core/common/geodata/geodat_loader.go:91-125 | a code of more than 255 bytes is in no entry |
| ReplayFilters.ReplayFilter.Check | core/common/antireplay/mapfilter.go:29-46 | a value is turned away exactly if it was accepted in this period or the one before, so for a whole interval after it was accepted; one never accepted is let through |

## Left out

- Sessions that move between connections: a New frame with a global identifier ends the modelled connection with an
  outcome of its own, and the global map of such sessions is not part of this model.
- The return direction of a mux connection (`fetchOutput`) and the workers that choose connections: the handlers are the
  same but for New frames, which the client reads away.
- The idle monitor of a mux server and the goroutine that copies a session's answers. In the code that goroutine
  closes the session when the answers end, and data that comes later is read away; a session that is `healthy` in the
  model is one to which this does not happen before its End frame.
- MuxServers.ServerWorker.CopyStream: a downstream is healthy or may refuse any write; why it refuses, and that pieces
  of a UDP session carry endpoints, is not modelled.
- Buffers.BufferedReader.Read: data that arrives together with an error is not modelled; a source delivers and then
  ends.
- Buffers.BufferedReader.ReadAtMost: the same.
- AddressCodecs.ReadAddressPortFrom: it reads from a buffer and into a scratch buffer of its own; other readers are
  not modelled.
- MuxReaders.ChunkStreamReader.ReadMultiBuffer: sizes are plain two-byte fields, as in the mux; other size decoders
  are not modelled there.
- MuxReaders.PacketReader.ReadMultiBuffer: the UDP endpoint attached to a packet is not modelled.
- MuxServers.ServerWorker.CopyPacket: the same.
- MuxServers.ServerWorker.HandleStatusKeep: the same.
- MuxServers.ServerWorker.HandleStatusNew: a session with a global identifier ends the modelled connection.
- Buffer pools and ownership; outside `BufferWindows` a buffer is its content and a capacity.
- VisionWriters.VisionWriter.WriteMultiBuffer: a connection that fails under the writer is not modelled.
- Failing connections under the AEAD writer, and splice copy.
- VisionReaders.VisionReader.ReadMultiBuffer: the bytes that a TLS connection still holds at the switch to raw copy, and
  the unwrapping of the raw connection, are not modelled.
- TrafficStates.TrafficState.XtlsFilterTls: what pooled arrays hold behind a buffer's content is a parameter.
- IP parsing and IP sets: a parser is any function from names to addresses, and a set is a list of prefixes.
- DnsCache.CacheController.WriteAndShrink: the ratio for shrinking is a real number instead of a float.
- DnsCache.CacheController.UpdateRecord: subscribers are not modelled; the published half is a result, and time to live
  is not rounded to seconds.
- DnsCache.CacheController.CacheCleanup: nothing happens here between collecting and removing; WriteAndShrink has any
  names at any time.
- The recovery of a migration that panics.
- DnsQuery.ParallelQuery: contexts and timeouts are not modelled; every client's outcome arrives, in any order.
- DnsQuery.MergeQueryErrors: errors are compared as values, and the text around them is not modelled.
- AeadReaders.AuthenticationReader.ReadInternal: chunks are those of a writer with the same setup; what a reader makes
  of forged sizes is not modelled.
- AeadReaders.AuthenticationReader.ReadMultiBuffer: the same.
- AeadReaders.AuthenticationReader.Drain: the same.
- AeadWriters.AuthenticationWriter.Seal: a nonce generator with nonces of the wrong size is excluded by the setup.
- Geodats.Scanner.Find: the bits of a varint are added, which is the same because they are proved to be disjoint.
- FileSwaps.SwapAll: closing a file may fail, but creating directories and the contents of partly written files are not
  modelled; the download itself is not, either.
- Random bytes of paddings and the draws of padding lengths are arbitrary values.
- Generated code, logging, statistics, command line, routing rules and transports.

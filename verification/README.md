# Traffic capture and viewing: decoders, relay and views, modelled and proved

A Dafny project about the parts of the traffic toolkit whose correctness is hardest to see by
reading: three byte-level decoders, a relay that sniffs a handshake it only forwards, and four
in-memory structures that must agree with a simpler list or tree.

| files | subject |
|---|---|
| `MsgPackGrammar`, `MsgPackHeader`, `MsgPack` | the MessagePack format as a recursive grammar, and the gateway's explicit-stack check of it |
| `Lz4`, `Lz4Cuts` | raw LZ4 blocks: what they mean, how they are spelled, the truncation-tolerant decompressor, and what a cut leaves |
| `Framing`, `MaxDecoder`, `MaxPayloads` | MAX frames, one frame's decoding, the two-direction session, and when a payload becomes JSON |
| `SocksWire`, `Socks`, `SocksLayer` | the SOCKS5 messages, the sniffing relay as a transition system, and the relay layer as an object |
| `SocksProgress`, `SocksHandshake` | that the relay gets on, when it gives up, and how a whole handshake ends |
| `WebSocket` | RFC 6455 frames off a stream |
| `LiveWindow`, `LiveArrivals`, `LiveRuns`, `LiveFailures` | the session pane's bounded window over a remote list, over whole runs, and the runs in which it goes wrong |
| `LiveTable`, `SessionPane` | the table drawn from the window, and the pane as an object |
| `Cursors`, `Paging`, `Search`, `SearchPages` | search cursors, the match list they page through, the cross-session search loop, and the pages it reads |
| `Flatten`, `ProfilesRoot` | flattening nested browser profiles, as tree rewriting and as passes over the profiles directory |
| `DnsNames` | the sixteen-answer DNS name cache |
| `Bytes`, `Lists`, `Timeline` | what the others share |

Code that changes things step by step is imperative here too: `Layer`, `Session`, `Pane`,
`Root` and `Names` are classes with the fields the toolkit gives them, `Unmask` works on an array in place,
and the decoders are loops over an index, a stack and an output. Each such method is proved
equal to a function of its inputs or of the old state, and the theorems are about those
functions, over every input and every run.

The main results:

* The MessagePack check accepts exactly the encodings of one value with at most 63 nested
  non-empty containers, and blames nesting exactly on a real chain of 64 (`MsgPack.MsgpackSane`).
* An LZ4 block decompresses to what it means unless a match would end past the cap, and then to a
  proper beginning of it (`Lz4.RoundTrip`, and conversely `Lz4.BlocksExactly`); of a block that is cut
  anywhere, it gives all that arrived (`Lz4Cuts.CutExactly`).
* A frame's payload is JSON exactly when the first offset of its bytes at which there is anything to
  decode gives that JSON (`MaxPayloads.PayloadExactly`).
* What a MAX session emits for a direction depends on that direction's bytes alone
  (`MaxDecoder.Session.Feed`, `MaxDecoder.DecodeTurns`).
* Every SOCKS run conserves both directions' bytes in order; a handed-over connection has relayed
  exactly one greeting, the credentials if they were asked for, and one CONNECT request
  (`Socks.BytesConserved`, `Socks.HandshakeOnTheWire`, `Socks.ChildExactlyWhen`). No message of the
  client's that is due is ever left waiting, and a granted handshake, in whatever pieces, gets exactly
  its child (`SocksProgress.RunSettled`, `SocksHandshake.HandshakeCompletes`).
* WebSocket frames and their encodings undo each other, on streams of any frames and with any
  remainder (`WebSocket.EncodingsAreRead`, `WebSocket.FramesExactly`).
* The pane's window is a contiguous run of the list all along exactly when every event fits it, its
  count is right all along exactly when every event counts, and the table drawn from it is what a
  rebuild would draw exactly when the rows it keeps are current or noted
  (`LiveRuns.WindowAlwaysAgrees`, `LiveRuns.CountAlwaysRightExactly`, `LiveTable.TableAlwaysAgrees`).
* Successive searches read the ordered match list to its end, each match once, unless the gateway cut
  a page short of a match (`Search.SearchesReadOn`, `Search.SearchIsRight`, `Paging.MatchesInOrder`).
* Flattening ends, keeps every file, and leaves nothing that could still be moved
  (`ProfilesRoot.Root.FlattenNestedProfiles`).

## Where the code and its description part

Each with an input that shows it and a lemma that says exactly when it happens.

* `gateway/decoders/max/max_fuzz_test.go:126-133` (FuzzLZ4) expects an LZ4 output never past the
  cap. The decompressor checks only matches: `Lz4.CapCanBePassed` gives a block whose output is one
  byte past it, and `Lz4.CapPassedByLiterals` says the output passes the cap exactly when a run of
  literals takes it there. `Lz4.OutputBounds` bounds it by the cap plus the input.
* `socks_upstream.py:262-264` says "the server already sent its reply", but tests only that the
  server side is done, which refusals and unreadable messages also set. `Socks.RefusedButEstablished`
  is a run with a child after a refusal. `Socks.ChildExactlyWhen`: a child means a CONNECT target and
  a reply with REP 0 if and only if no request was taken after a refusal, and the bytes relayed to
  the client tell which it was (`Socks.RefusalOnTheWire` lists the six ways to refuse).
* The SOCKS layer takes a method chosen before the greeting as leave to parse a request.
  `Socks.EarlyMethodSkipsTheGreeting` is a run with a child and no greeting. With a child, a whole
  handshake was relayed if and only if the greeting was (`Socks.HandshakeExactly`), which is unless
  the proxy chose a known method before the greeting was complete (`Socks.GreetedExactly`).
  Installed as the addon does, on first bytes that look like SOCKS5, the layer never sees that
  (`Socks.NeverEarly`).
* The SOCKS layer is to relay all of the handshake's bytes (`socks_upstream.py:78`). It takes one of the
  proxy's messages per arrival, so a reply that comes in one piece with the choice is held back until
  the proxy says more: `SocksHandshake.JoinedReplyWaits`, for every handshake. The child is there
  exactly when the client's messages have come and each of the proxy's has been taken at an arrival of
  its own (`SocksHandshake.HandshakeCompletes`), as when no arrival completes two of them
  (`SocksHandshake.HandshakeGetsItsChild`).
* `_ingest` takes `flow_added` for a new flow at the list's end. The gateway sends it for any flow
  that it has not yet told this subscription of (`gateway/internal/server/server.go:114-149`): an
  older one that starts to match (`LiveFailures.OlderArrivalIsMisplaced`), or one already listed
  (`LiveFailures.ListedArrivalIsRepeated`, put after the newest row and counted twice). And a listed
  row that the stream never told of leaves without an event (`LiveFailures.DepartureIsUnseen`).
  `LiveArrivals.ArrivalKeepsExactly` and `LiveArrivals.DepartureKeepsExactly` say which of them keep the
  window in agreement with the list, and `LiveRuns.WindowAlwaysAgrees` that it agrees all along
  exactly when each one does. New flows after all others always do (`LiveRuns.OrdinaryRunAgrees`).
* The count shown is to be the list's. Under a filter or a time window a page after a cursor counts
  only from there on (`gateway/internal/store/query.go:155-185`), so paging forward makes it too low:
  `LiveFailures.NextPageMiscounts`. The count is right all along exactly when every page has the whole
  list's or says that it is approximate, and every arrival is new to the list just when it is new to
  the window (`LiveRuns.CountAlwaysRightExactly`).
* A page without a cursor is taken for the list's end. The gateway's scan cap can leave rows past it
  (query.go:131-134 and 196-206): `LiveFailures.CutPageIsNotTheEnd`. A page keeps the agreement exactly
  when it reaches the end or has a cursor or no rows (`LiveWindow.LoadKeepsExactly`).
* Paging back to rows that have left finds none, and the pane is blank with no way to the rows there are:
  `LiveFailures.PageBackIsBlank`. It is blank exactly when every row of the list is one that the
  run's events left behind it (`LiveRuns.BlankExactly`).
* The pane's window can end where the list does without being at the end
  (`LiveFailures.SuffixButNotAtEnd`, a run). It ends there exactly when every row past the page, or
  arrived past the window since, has left the list (`LiveRuns.SuffixExactly`).
* Sliding leaves `_prev` alone, so rows can lie before the window with no way back to them
  (`LiveFailures.PrevIsStale`, a run). Paging back reaches every row before the window exactly when the
  rows that slid off or arrived out of its reach have left the list (`LiveRuns.PrevExactly`).
* `_slide_rows` keeps a row's cells. A flow that stops matching and is added again between two draws
  keeps its old ones, and the next draw shows them (`LiveTable.ReturningRowIsStale`, a run). A draw
  is a rebuild exactly when the rows it keeps are current or noted as changed
  (`LiveTable.FlushExactly`), and an arrival leaves them so exactly when it is harmless
  (`LiveTable.ArrivalKeepsDrawnExactly`).
* A search is to give `next_cursor` "when there is more to read". One that finds nothing before its
  scan budget ends gives none (`Search.StrandedSearch`, with a gateway that fills its pages). A search
  strands matches exactly when there are some and none of them is among the rows that its budget pays
  for, page by page from the cursor on (`Search.StrandsExactly`).
* `complete` is to say "whether every candidate was examined". A page that the gateway's scan cap cut
  short ends its session for the search all the same, whatever `count_capped` says
  (`Search.CutSearch`). A complete answer is right exactly when no page it was led to was cut short
  of a match (`Search.SearchIsRight`).

## Model

| member | source | states |
|---|---|---|
| Bytes.BigEndianInverse | gateway/decoders/max/max.go:452-454 | the byte-by-byte accumulation of a length reads back any number that was written in that many bytes |
| Bytes.ToBigEndianInverse | gateway/decoders/max/max.go:452-454 | any bytes are the spelling of the number they accumulate to, so distinct bytes are distinct lengths |
| MsgPackGrammar.EncodeSnoc | gateway/decoders/max/max.go:458-467 | a container's bytes grow by exactly the next value's encoding |
| MsgPackGrammar.DeclaredIsPaidFor | gateway/decoders/max/max.go:430-435 | in every encoding, the element counts that all containers declare add up to less than its length |
| MsgPackHeader.HeadRead | gateway/decoders/max/max.go:472-515 | at the head of any well-formed value the tag switch finds where it ends, or its opening ends, and how many values follow |
| MsgPackHeader.OpeningRead | gateway/decoders/max/max.go:475-478 | the header of an array or map is read as its own length and its element count, two per map entry |
| MsgPackHeader.LeafWritten | gateway/decoders/max/max.go:472-512 | whatever the switch reads as a value without elements is the encoding of some such value, byte for byte |
| MsgPackHeader.OpeningWritten | gateway/decoders/max/max.go:475-478 | whatever it reads with elements to follow is the opening of an array or map that declares that many |
| MsgPack.WalkValue | gateway/decoders/max/max.go:459-527 | from any stack with room, the walk steps over one whole value and comes out with one fewer to read |
| MsgPack.EncodingsAccepted | gateway/decoders/max/max.go:441-445 | every value nested below the bound is accepted, so the early count test rejects none |
| MsgPack.WalkMeans | gateway/decoders/max/max.go:445-527 | from every position and stack the walk can be in, acceptance means an encoding of one value and "too deep" means a real chain |
| MsgPack.Reaches | gateway/decoders/max/max.go:458-524 | the walk gets to every position that the grammar leads to, with exactly the counts still open there |
| MsgPack.TooDeepReported | gateway/decoders/max/max.go:520-522 | input that opens 64 nested non-empty containers, each with no more elements than bytes left, is reported as too deep |
| MsgPack.VerdictMeans | gateway/decoders/max/max.go:441-445 | for every input: accepted if and only if it is one value nested below the bound, too deep if and only if it runs into the bound |
| MsgPack.AllocationBounded | gateway/decoders/max/max.go:430-442 | an accepted input of n bytes declares at most n-1 elements over all its containers |
| MsgPack.ReadLength | gateway/decoders/max/max.go:447-457 | reads a length if and only if its bytes are there, as the big-endian number they spell, and moves past them |
| MsgPack.ReadTag | gateway/decoders/max/max.go:470-515 | the tag switch yields the header that the format gives the tag, or fails exactly where there is none |
| MsgPack.ReadSizedTag | gateway/decoders/max/max.go:481-511 | the same for the tags that a length field follows |
| MsgPack.MsgpackSane | gateway/decoders/max/max.go:445-527 | the stack machine terminates, says ok if and only if the input is one value of the grammar within the bound, and tooDeep if and only if nesting failed it |
| Lz4.LengthRead | gateway/decoders/max/max.go:326-336 | a length of any size, in its nibble or with 255s after it, is read back with its exact extent |
| Lz4.LiteralsRead | gateway/decoders/max/max.go:326-344 | spelled literals are read back whole wherever they stand, and end the output when they end the input |
| Lz4.MatchRead | gateway/decoders/max/max.go:349-371 | a spelled match inside the output is copied, unless its end would pass the cap, which stops the output and says so |
| Lz4.SequenceRead | gateway/decoders/max/max.go:323-372 | a spelled sequence is read as its literals and its match, and reading goes on right after it |
| Lz4.CappedMeaningIsPrefix | gateway/decoders/max/max.go:365-367 | stopping at the first match past the cap leaves a proper beginning of the block's meaning, and only that stops it |
| Lz4.RoundTrip | gateway/decoders/max/max.go:315-374 | every well-formed block decompresses to exactly its meaning, uncapped, if and only if every match ends within the cap; otherwise it is capped and a proper beginning |
| Lz4.BlockWritten | gateway/decoders/max/max.go:321-374 | an input whose reading ends in its last literals is the spelling of well-formed sequences, found from where any reading stands |
| Lz4.BlocksExactly | gateway/decoders/max/max.go:321-374 | the converse of the round trip: an input is a well-formed block within the cap if and only if reading it ends exactly with its last literals |
| Lz4.MatchRepeats | gateway/decoders/max/max.go:368-371 | every byte a match adds is the one offset bytes before it, so an overlapping match repeats periodically |
| Lz4.LiteralsCut | gateway/decoders/max/max.go:337-344 | input cut inside a literal run or its length gives the beginning of those literals |
| Lz4.MatchCut | gateway/decoders/max/max.go:346-371 | input cut inside an offset or match length drops the match or shortens it |
| Lz4.TruncationIsMonotone | gateway/decoders/max/max.go:318-320 | if a whole input decompresses uncapped, every beginning of it does, to a beginning of the same output |
| Lz4Cuts.SequenceCutAt | gateway/decoders/max/max.go:337-371 | a sequence cut after any of its bytes gives the literals that arrived, and with its offset a match as long as its length is so far, unless that passes the cap |
| Lz4Cuts.CutExactly | gateway/decoders/max/max.go:315-374 | a block cut inside any sequence decompresses to exactly the meaning of the sequences before, and what that sequence gives |
| Lz4Cuts.LastCutExactly | gateway/decoders/max/max.go:337-340 | a block cut in its last literals or their length gives all the literals that arrived |
| Lz4Cuts.BadOffsetExactly | gateway/decoders/max/max.go:346-353 | an offset of nought or past the start ends the output after the literals before it, uncapped, whatever follows |
| Lz4.OutputBounds | gateway/decoders/max/max.go:315-374 | for any input, output is at most 255 times its length and at most the cap plus its length |
| Lz4.CapPassedByLiterals | gateway/decoders/max/max.go:337-341 | output passes the cap if and only if some literal run takes it there; no match ever does |
| Lz4.CappedExactly | gateway/decoders/max/max.go:365-367 | for any input, capped is reported if and only if a match is reached that starts inside the output and would end past the cap |
| Lz4.CapCanBePassed | gateway/decoders/max/max_fuzz_test.go:126-133 | an input whose output is one byte past the cap and is not reported as capped |
| Lz4.ReadLengthBytes | gateway/decoders/max/max.go:326-336 | the loop that extends a length reads exactly the run that starts there, to its end or the input's |
| Lz4.CopyBytes | gateway/decoders/max/max.go:368-371 | copying byte by byte into the growing output makes the periodic match, overlapping or not |
| Lz4.Lz4BlockDecompress | gateway/decoders/max/max.go:321-374 | the loop's output and capped flag are those of the sequence-by-sequence definition that the theorems on whole, cut and bad blocks are about, on every input |
| Framing.FrameFound | gateway/decoders/max/max.go:156-166 | a complete frame at the front is split off whole, whatever follows it |
| Framing.SplitIsSplit | gateway/decoders/max/max.go:124-137 | splitting gives complete frames and a rest that holds none, which together are the stream |
| Framing.SplitIsUnique | gateway/decoders/max/max.go:154-166 | any such division of a stream is the one that splitting gives |
| Framing.SplitExactly | gateway/decoders/max/max.go:121-137 | a division of a stream into frames and an unfinished rest is right if and only if splitting produces it |
| Framing.SplitAppend | gateway/decoders/max/max.go:121-137 | splitting what has come, keeping the rest and splitting again with what comes later is splitting it all at once |
| Framing.EncodedIsFrame | gateway/decoders/max/max.go:160-177 | a frame written from its fields is one whole frame, whatever its flag byte, and every field is read back |
| Framing.FrameIsEncoded | gateway/decoders/max/max.go:160-177 | every frame is what its own fields spell, so nothing in it goes unread |
| Framing.RestIsShort | gateway/decoders/max/max.go:160-164 | what is left waiting is shorter than the longest frame, 10 bytes and 2^24-1 more |
| MaxDecoder.UnpackMeans | gateway/decoders/max/max.go:376-402 | unpacking gives the first of five offsets that decodes; failing that, it names a bound if and only if that bound was hit |
| MaxDecoder.FieldsAreRead | gateway/decoders/max/max.go:168-190 | a frame written from its fields becomes a message with those fields, an ack if and only if it has no body |
| MaxDecoder.RawKeepsTheBody | gateway/decoders/max/max.go:192-215 | a payload kept raw is the frame's body or its decompressed form, nothing is lost, and the cap is named if and only if decompression passed it |
| MaxDecoder.JsonComesFromOneValue | gateway/decoders/max/max.go:376-379 | a decoded payload comes from exactly one safe value that fills the body after at most four service bytes |
| MaxDecoder.BlockInflates | gateway/decoders/max/max.go:294-313 | under any flag but 0 and 0xFF a spelled LZ4 block gives its meaning as the body, an error if that is empty, and too large if a match passes the cap |
| MaxDecoder.CompressionIsTransparent | gateway/decoders/max/max.go:192-217 | a frame with an LZ4 body becomes the same message as the frame with the body that the block means |
| MaxDecoder.DecodeMsgpackAt | gateway/decoders/max/max.go:409-428 | the library is called only on one whole value within the size and depth bounds, and too deep is reported exactly when it applies |
| MaxDecoder.UnpackMsgpack | gateway/decoders/max/max.go:387-402 | the offset loop's result is the one `UnpacksTo` describes: first offset, every earlier one undecodable, bound named exactly when met |
| MaxDecoder.DecodeFrame | gateway/decoders/max/max.go:168-218 | a frame becomes its header fields and its payload: the message that the theorems on fields, payloads and bounds are about |
| MaxPayloads.UnpackExactly | gateway/decoders/max/max.go:376-402 | a body unpacks to the value at the first offset of at most four that holds one safe value the library decodes; a bound is named exactly when it is met |
| MaxPayloads.PayloadExactly | gateway/decoders/max/max.go:192-217 | for the bytes that the flag yields, by zstd, LZ4 or as they are: the payload is a JSON text if and only if the first offset that decodes gives it, else those bytes raw, with a bound named if and only if it is met |
| MaxPayloads.NothingYielded | gateway/decoders/max/max.go:197-202 | a body that yields no bytes is kept as it came, and is past the cap if and only if zstd or LZ4 says so |
| MaxPayloads.BlockYields | gateway/decoders/max/max.go:294-313 | an LZ4 block yields exactly what it means |
| MaxDecoder.EachLimitLoggedOnce | gateway/decoders/max/max.go:139-152 | over any messages every bound that one ran into is logged exactly once and nothing else is |
| MaxDecoder.Session.constructor | gateway/decoders/max/max.go:112-119 | a fresh session has been fed nothing and has nothing pending |
| MaxDecoder.Session.Feed | gateway/decoders/max/max.go:121-137 | after any feeds, what a direction has emitted is the messages of the frames of all its bytes; the other direction is untouched |
| MaxDecoder.Session.TakeFrames | gateway/decoders/max/max.go:124-134 | the loop takes every complete frame in order, decodes each, and leaves the unfinished rest |
| MaxDecoder.Session.LogLimit | gateway/decoders/max/max.go:139-152 | a bound is logged if and only if this connection has not logged it before |
| MaxDecoder.Continued | gateway/decoders/max/max.go:108-111 | the messages that new bytes complete are exactly what the whole stream's messages gain |
| MaxDecoder.TurnDecoded | gateway/decoders/registry.go:76-79 | one more turn adds its own direction's messages and leaves the other direction's as they were |
| MaxDecoder.InOrderMore | gateway/decoders/registry.go:76-79 | messages already out stay out, and each turn's come after those of the turns before |
| MaxDecoder.FeedTurn | gateway/decoders/registry.go:76-79 | one turn fed adds what it completes, for a session that has been fed the turns before it |
| MaxDecoder.DecodeTurns | gateway/decoders/registry.go:72-81 | however turns cut and interleave the streams, each direction yields its stream's messages in order, after every turn the messages so far are those complete by then, and each bound is logged once |
| SocksWire.SizesStable | capture/capture_mitmproxy/capture_mitmproxy/socks_upstream.py:194-253 | a message's extent, once it can be told, does not change as more bytes arrive |
| SocksWire.GreetingIsEncoded | capture/capture_mitmproxy/capture_mitmproxy/socks_upstream.py:195-199 | bytes taken as a greeting are the encoding (section 3 of RFC 1928) of their version and methods |
| SocksWire.AuthIsEncoded | capture/capture_mitmproxy/capture_mitmproxy/socks_upstream.py:212-223 | bytes taken as credentials are the RFC 1929 encoding of the recorded user name and password |
| SocksWire.MessageIsEncoded | capture/capture_mitmproxy/capture_mitmproxy/socks_upstream.py:239-260 | bytes taken as a request or reply are the encoding (sections 4 and 6 of RFC 1928) of the recorded address and port |
| SocksWire.EncodedMessageIsRead | capture/capture_mitmproxy/capture_mitmproxy/socks_upstream.py:229-260 | an encoded message is recognised at its exact length before any more bytes, and names its target |
| SocksWire.LooksLikeMeans | capture/capture_mitmproxy/capture_mitmproxy/socks_upstream.py:59-72 | first bytes look like SOCKS5 if and only if they start with an encoded greeting with a method and without 0xFF |
| Socks.ParseClientKeeps | capture/capture_mitmproxy/capture_mitmproxy/socks_upstream.py:192-264 | parsing the client's messages keeps the layer's invariant and every byte of both sides, in order |
| Socks.ParseServerKeeps | capture/capture_mitmproxy/capture_mitmproxy/socks_upstream.py:266-339 | so does parsing the proxy's |
| Socks.HandleKeeps | capture/capture_mitmproxy/capture_mitmproxy/socks_upstream.py:119-172 | every event keeps the invariant and adds exactly its own bytes to its own side |
| Socks.RunKeeps | capture/capture_mitmproxy/capture_mitmproxy/socks_upstream.py:119-190 | in every run the invariant holds and both sides' bytes are all accounted for, in order |
| Socks.BytesConserved | capture/capture_mitmproxy/capture_mitmproxy/socks_upstream.py:119-190 | before the hand-off relayed plus buffered is what was received, after it relayed plus given to the child; buffers stay within 64 KiB; a layer that gave up buffers nothing |
| Socks.Absorbing | capture/capture_mitmproxy/capture_mitmproxy/socks_upstream.py:174-190 | giving up and handing over are final, whatever comes after |
| Socks.ChildExactlyWhen | capture/capture_mitmproxy/capture_mitmproxy/socks_upstream.py:262-339 | a child exists if and only if the layer has not given up, a CONNECT target was taken, and a reply with REP 0 was relayed or a refusal came before the request; the bytes sent to the client tell the two apart; never more than one |
| Socks.RefusalOnTheWire | capture/capture_mitmproxy/capture_mitmproxy/socks_upstream.py:267-335 | a proxy that is done without a grant and without a request has refused in one of six ways: no choice, an unknown one, no verdict, a bad one, no reply, or REP not 0 |
| Socks.RefusedThenEstablished | capture/capture_mitmproxy/capture_mitmproxy/socks_upstream.py:262-264 | over a run, after a first refusal the next request makes a child, and apart from a grant nothing else does |
| Socks.RefusedButEstablished | capture/capture_mitmproxy/capture_mitmproxy/socks_upstream.py:277-282 | a run in which the proxy refuses every method first and a child is created all the same |
| Socks.HandshakeOnTheWire | capture/capture_mitmproxy/capture_mitmproxy/socks_upstream.py:192-264 | once there is a child and the greeting was relayed, upstream got one greeting, the RFC 1929 message if chosen, one CONNECT; the child's target and credentials are what they encode, its client input all that followed |
| Socks.HandshakeExactly | capture/capture_mitmproxy/capture_mitmproxy/socks_upstream.py:192-264 | with a child, what went upstream is such a handshake if and only if the greeting was relayed |
| Socks.GreetedExactly | capture/capture_mitmproxy/capture_mitmproxy/socks_upstream.py:285-292 | with a child, the greeting was relayed unless the proxy had chosen a known method before it was complete |
| Socks.GrantOnTheWire | capture/capture_mitmproxy/capture_mitmproxy/socks_upstream.py:308-339 | a grant is a reply with REP 0, relayed to the client after the proxy's earlier messages; more follows only if the layer gives up |
| Socks.RunShape | capture/capture_mitmproxy/capture_mitmproxy/socks_upstream.py:192-339 | in every run, what went upstream begins with the client's messages up to its phase, each one whole, and what went to the client with the proxy's, to a grant or a refusal; there is more only if the layer gave up |
| Socks.NeverEarly | capture/capture_mitmproxy/capture_mitmproxy/addon.py:682-683 | fed first bytes that look like SOCKS5, every run has relayed the greeting or given up, and no method is ever chosen before it |
| Socks.FirstBytes | capture/capture_mitmproxy/capture_mitmproxy/socks_upstream.py:194-207 | such first bytes are relayed exactly up to the end of the greeting, and the rest waits |
| Socks.EarlyMethodSkipsTheGreeting | capture/capture_mitmproxy/capture_mitmproxy/socks_upstream.py:285-292 | a run in which a method comes first, and there is a child though only a request was relayed |
| Socks.Reparse | capture/capture_mitmproxy/capture_mitmproxy/socks_upstream.py:192-264 | the client's parser gives the same result whether or not it went over the buffer before more bytes came |
| Socks.SegmentationDoesNotMatter | capture/capture_mitmproxy/capture_mitmproxy/socks_upstream.py:141-156 | from any state, feeding client bytes in two pieces leaves the state and the outputs of feeding them in one, as long as they fit the buffer |
| Socks.CapCutsTheHandshake | capture/capture_mitmproxy/capture_mitmproxy/socks_upstream.py:153-155 | bytes past the cap in one piece make the layer give up where two pieces do not |
| SocksProgress.RunSettled | capture/capture_mitmproxy/capture_mitmproxy/socks_upstream.py:192-264 | after every run that is still in the handshake, the buffer holds no whole greeting, credentials or request that is due, and nothing that cannot be a CONNECT; a known choice is never left without effect |
| SocksProgress.ProxyGetsOn | capture/capture_mitmproxy/capture_mitmproxy/socks_upstream.py:266-339 | an arrival from the proxy moves its phase on if and only if the buffer then holds the message that is due, or bytes that cannot be it |
| SocksProgress.GivesUpExactly | capture/capture_mitmproxy/capture_mitmproxy/socks_upstream.py:174-190 | the layer has given up if and only if more than 64 KiB had to be buffered or, after greeting and credentials, came something other than a CONNECT |
| SocksHandshake.RunAlong | capture/capture_mitmproxy/capture_mitmproxy/socks_upstream.py:266-339 | in any run of a handshake the layer has relayed exactly the proxy's messages taken so far, one per arrival, and is in the phase after them |
| SocksHandshake.HandshakeCompletes | capture/capture_mitmproxy/capture_mitmproxy/socks_upstream.py:192-410 | for any greeting, method 0 or 2, credentials, CONNECT and granting reply, in any pieces and the client's ahead: there is a child if and only if the client's are in and the proxy's all taken, with exactly that target and those credentials, and exactly those messages relayed |
| SocksHandshake.AllAreTaken | capture/capture_mitmproxy/capture_mitmproxy/socks_upstream.py:158-172 | when no arrival completes two of the proxy's messages, every complete one has been taken |
| SocksHandshake.HandshakeGetsItsChild | capture/capture_mitmproxy/capture_mitmproxy/socks_upstream.py:262-264 | then a handshake that is in whole has its child |
| SocksHandshake.JoinedReplyWaits | capture/capture_mitmproxy/capture_mitmproxy/socks_upstream.py:266-292 | when the whole answer of the proxy comes in one piece, only its choice is relayed, and there is no child |
| SocksLayer.Layer.constructor | capture/capture_mitmproxy/capture_mitmproxy/socks_upstream.py:99-115 | a new layer is in the initial state |
| SocksLayer.Layer.OnClientData | capture/capture_mitmproxy/capture_mitmproxy/socks_upstream.py:141-156 | client bytes take the transition system's step: to the child, upstream, or into the buffer and its parser |
| SocksLayer.Layer.OnServerData | capture/capture_mitmproxy/capture_mitmproxy/socks_upstream.py:158-172 | the same for the proxy's bytes |
| SocksLayer.Layer.RelayRaw | capture/capture_mitmproxy/capture_mitmproxy/socks_upstream.py:174-190 | giving up sends on both buffers in order and empties them |
| SocksLayer.Layer.FlushBuffers | capture/capture_mitmproxy/capture_mitmproxy/socks_upstream.py:185-190 | what is buffered goes out, each way, and an empty buffer sends nothing |
| SocksLayer.Layer.Establish | capture/capture_mitmproxy/capture_mitmproxy/socks_upstream.py:343-410 | the hand-over records target and credentials and ends both phases |
| SocksLayer.Layer.FeedChild | capture/capture_mitmproxy/capture_mitmproxy/socks_upstream.py:399-410 | the child gets both buffers, each as its own side's bytes |
| SocksLayer.Layer.ParseClient | capture/capture_mitmproxy/capture_mitmproxy/socks_upstream.py:192-264 | the recursive client parser takes exactly the messages that are complete and due |
| SocksLayer.Layer.TakeGreeting | capture/capture_mitmproxy/capture_mitmproxy/socks_upstream.py:200-202 | the greeting is relayed once and remembered as relayed |
| SocksLayer.Layer.ParseAuth | capture/capture_mitmproxy/capture_mitmproxy/socks_upstream.py:211-227 | credentials are taken only when whole |
| SocksLayer.Layer.TakeAuth | capture/capture_mitmproxy/capture_mitmproxy/socks_upstream.py:222-226 | they are recorded, relayed and removed |
| SocksLayer.Layer.ParseRequest | capture/capture_mitmproxy/capture_mitmproxy/socks_upstream.py:228-264 | a CONNECT is taken when whole; another command, version or address type gives up |
| SocksLayer.Layer.TakeRequest | capture/capture_mitmproxy/capture_mitmproxy/socks_upstream.py:254-261 | the request is relayed and its target recorded |
| SocksLayer.Layer.ParseServer | capture/capture_mitmproxy/capture_mitmproxy/socks_upstream.py:266-339 | one of the proxy's messages is taken per arrival, by phase |
| SocksLayer.Layer.ParseChoice | capture/capture_mitmproxy/capture_mitmproxy/socks_upstream.py:267-292 | the chosen method is relayed, and drives both phases and the client's parser, or ends the server's |
| SocksLayer.Layer.TakeChoice | capture/capture_mitmproxy/capture_mitmproxy/socks_upstream.py:274-276 | the two bytes of the choice are recorded, relayed and removed |
| SocksLayer.Layer.ParseStatus | capture/capture_mitmproxy/capture_mitmproxy/socks_upstream.py:293-307 | the proxy's verdict on the credentials is relayed, and a refusal ends the server's phase |
| SocksLayer.Layer.ParseReply | capture/capture_mitmproxy/capture_mitmproxy/socks_upstream.py:308-339 | a whole reply is relayed, and a grant with a target known hands over |
| WebSocket.XorTwice | gateway/internal/decode/livews.go:78-82 | combining a byte with a mask byte twice gives it back |
| WebSocket.XorExactly | gateway/internal/decode/livews.go:78-82 | each bit of the combined byte is set if and only if just one of the two bytes has it |
| WebSocket.MaskedTwice | gateway/internal/decode/livews.go:78-82 | unmasking undoes masking, for payloads of any length (section 5.3 of RFC 6455) |
| WebSocket.HeaderIsRead | gateway/internal/decode/livews.go:44-70 | the header of any frame is read back: flags, opcode, mask, length form and length (section 5.2 of RFC 6455) |
| WebSocket.EncodedIsRead | gateway/internal/decode/livews.go:42-84 | an encoded frame, whatever follows, is read as that frame and what follows |
| WebSocket.ReadIsEncoded | gateway/internal/decode/livews.go:42-84 | whatever is read as a frame is its own encoding |
| WebSocket.EncodingsAreRead | gateway/internal/decode/livews.go:36-85 | the round trip for lists: frames of every form laid end to end are read back in order, whatever follows |
| WebSocket.FramesExactly | gateway/internal/decode/livews.go:42-85 | a list is what is read if and only if the stream is its encodings and then no complete frame |
| WebSocket.EmittedExactly | gateway/internal/decode/livews.go:78-84 | for each frame of a stream the direction, the label of its opcode and the payload are emitted, every bit of a masked byte turned exactly where mask byte i mod 4 has a one |
| WebSocket.HelloIsRead | gateway/internal/decode/livews.go:42-84 | the masked text frame of section 5.7 of RFC 6455 is emitted as the text "Hello" |
| WebSocket.TruncationIsMonotone | gateway/internal/decode/livews.go:36-41 | a stream cut anywhere gives the first of the frames that the whole gives |
| WebSocket.PaidFor | gateway/internal/decode/livews.go:38-41 | payloads and two bytes for each frame never exceed the bytes that arrived, whatever lengths are claimed |
| WebSocket.Unmask | gateway/internal/decode/livews.go:78-82 | the in-place loop turns the array into the unmasked payload |
| WebSocket.ReadHeader | gateway/internal/decode/livews.go:44-70 | a header is read if and only if all of it is there, with its fields and where the payload begins |
| WebSocket.ReadWSFrames | gateway/internal/decode/livews.go:42-85 | the reading loop emits exactly the stream's frames, in order, as label and unmasked payload |
| LiveWindow.LoadKeeps | tui/traffic_viewer/screens.py:1463-1480 | a page that fits becomes a window that agrees with the list, and stands where its rows do |
| LiveWindow.LoadKeepsExactly | tui/traffic_viewer/screens.py:1463-1480 | any page of the list becomes a window that agrees with it if and only if it has a cursor, no rows, or the last of them |
| LiveArrivals.AddKeeps | tui/traffic_viewer/screens.py:1557-1587 | an arrival that fits, wherever it is listed, keeps the agreement: repainted, taken, slid, or left before or after the window |
| LiveArrivals.ArrivalKeepsExactly | tui/traffic_viewer/screens.py:1557-1587 | told of any flow as added, new or listed, at any position, the window still agrees with the list if and only if the flow fits |
| LiveArrivals.DepartureKeepsExactly | gateway/internal/server/server.go:144-149 | a listed row that leaves without an event keeps the agreement if and only if it is outside the window |
| LiveWindow.UpdateKeeps | tui/traffic_viewer/screens.py:1558-1570 | a changed flow keeps it, in the window or outside |
| LiveWindow.DropKeeps | tui/traffic_viewer/screens.py:1589-1600 | a flow that stops matching keeps it, wherever it was |
| LiveRuns.StepKeeps | tui/traffic_viewer/screens.py:1533-1600 | so does everything that can happen next and fits, and the rows left outside are accounted for |
| LiveRuns.RunKeeps | tui/traffic_viewer/screens.py:1533-1600 | so does every run in which each event fits |
| LiveRuns.RunAgreesExactly | tui/traffic_viewer/screens.py:1533-1600 | over any run the window agrees with the list all along if and only if every page, arrival and silent departure fits when it comes |
| LiveRuns.WindowAlwaysAgrees | tui/traffic_viewer/screens.py:1400-1404 | from any page on, the window is a contiguous run of the list with a right cursor all along if and only if that page and every later page, arrival and silent departure fits; the rows outside it are then those the events left there |
| LiveRuns.CountAlwaysRightExactly | tui/traffic_viewer/screens.py:1571-1595 | over any run, wherever the window stands, an exact count is the list's length all along if and only if each page has the whole count, each arrival is new to the list just when it is new to the window, and nothing leaves unseen |
| LiveRuns.CountMovesExactly | tui/traffic_viewer/screens.py:1571-1595 | exact or approximate, the count moves with the list at an event if and only if the event counts; a page brings its own |
| LiveRuns.FollowsOnlyTheEnd | tui/traffic_viewer/screens.py:1475-1480 | in every run only a window at the end follows; following starts by a toggle only and stops by a toggle or by paging off the end |
| LiveRuns.OrdinaryRunAgrees | tui/traffic_viewer/screens.py:1545-1553 | when flows arrive after all others and after the cursor, and none leaves unseen, every event fits: the window agrees and its count is right all along |
| LiveWindow.ShowsMeans | tui/traffic_viewer/screens.py:1463-1480 | agreement in the pane's fields: bounded, no duplicates, flows and order name the same ids, rows are the list's, at the end if and only if there is no next cursor |
| LiveWindow.PageNextSkipsNone | tui/traffic_viewer/screens.py:1507-1511 | the rows after the cursor are exactly the rows after the window |
| LiveRuns.NextPageFollows | tui/traffic_viewer/screens.py:1507-1511 | the page queried after the cursor begins right after the window, and becomes the next window if and only if it holds all that follows when it has no cursor |
| LiveWindow.CutIsUnique | tui/traffic_viewer/screens.py:1463-1480 | a window agrees with a list at one place only |
| LiveRuns.SuffixExactly | tui/traffic_viewer/screens.py:1571-1587 | over any run from a page, the window ends where the list does if and only if every row past the page, or arrived past the window since, has left; at the end there are none |
| LiveRuns.PrevExactly | tui/traffic_viewer/screens.py:1513-1517 | over any run from a page, the backward cursor leads to every row before the window if and only if the rows that slid off, or arrived out of its reach, or lay before a page without one, since the last page have left |
| LiveRuns.BlankExactly | tui/traffic_viewer/screens.py:1507-1517 | over any run from a page, the window is empty and neither cursor leads to any of the rows there are if and only if all of them are among those the events left behind it |
| LiveFailures.SuffixButNotAtEnd | tui/traffic_viewer/screens.py:1574-1582 | a run after which the window is the whole list and not marked as at its end |
| LiveFailures.PrevIsStale | tui/traffic_viewer/screens.py:1585-1586 | a run after which a row lies before the window and there is no backward cursor |
| LiveFailures.OlderArrivalIsMisplaced | gateway/internal/server/server.go:126-137 | a run in which an older flow that starts to match is put after a newer row |
| LiveFailures.ListedArrivalIsRepeated | gateway/internal/server/server.go:126-137 | a run in which a row listed before the window is put after the newest one and counted twice |
| LiveFailures.DepartureIsUnseen | gateway/internal/server/server.go:144-149 | a run after which the list is empty and the window still shows its row |
| LiveFailures.NextPageMiscounts | gateway/internal/store/query.go:155-185 | a run after which the window agrees and its count, said to be exact, is too low |
| LiveFailures.CutPageIsNotTheEnd | gateway/internal/store/query.go:196-206 | a page after which the window takes itself for the end of the list and is not |
| LiveFailures.PageBackIsBlank | tui/traffic_viewer/screens.py:1513-1517 | a run after which the window is empty, no cursor leads anywhere, and the list has a row |
| LiveTable.FlushExactly | tui/traffic_viewer/screens.py:1435-1461 | any draw leaves the table that a rebuild would if and only if each row it keeps is current or noted |
| LiveTable.SlidesExactly | tui/traffic_viewer/screens.py:1435-1461 | rows are moved in place if and only if the old rows from the first new one on are the first of the new |
| LiveTable.PageKeepsDrawn | tui/traffic_viewer/screens.py:1481-1482 | a page is drawn whole at once, whatever was noted before |
| LiveTable.FlushIsRebuild | tui/traffic_viewer/screens.py:1609-1628 | so a draw of rows that are current or noted leaves exactly the table that a rebuild would, and no notes |
| LiveTable.EventKeepsDrawn | tui/traffic_viewer/screens.py:1557-1600 | between draws every event but an arrival keeps each drawn row current, noted as changed, or gone |
| LiveTable.ArrivalKeepsDrawnExactly | tui/traffic_viewer/screens.py:1557-1587 | an arrival does so if and only if it is not taken, not a row still on screen, already noted, or unchanged |
| LiveTable.TableAlwaysAgrees | tui/traffic_viewer/screens.py:1406-1461 | after every run of events and draws whose arrivals fit, the window agrees with the list, and the next draw shows its rows as they are if and only if the rows it keeps are current or noted |
| LiveTable.TableDrawnExactly | tui/traffic_viewer/screens.py:1406-1461 | over such a run the rows stay current or noted all along if and only if every arrival is harmless, and then every draw is right |
| LiveTable.ReturningRowIsStale | tui/traffic_viewer/screens.py:1435-1461 | a run from a new pane and an empty list after which the next draw shows a flow as it was before it left and came back |
| SessionPane.Pane.constructor | tui/traffic_viewer/screens.py:1463-1480 | a new pane shows nothing and is drawn so |
| SessionPane.Pane.ApplyPage | tui/traffic_viewer/screens.py:1463-1482 | a page replaces window, cursors and count, stops following off the end, and is drawn whole; the pane is valid if and only if the page repeats no id |
| SessionPane.Pane.Adopt | tui/traffic_viewer/screens.py:1469-1480 | the fields become the page's |
| SessionPane.Pane.TakeRows | tui/traffic_viewer/screens.py:1469-1470 | flows and order become the page's rows by id and in order |
| SessionPane.Pane.Ingest | tui/traffic_viewer/screens.py:1533-1587 | one live flow does to the window what the model's step does, notes what must be repainted, and says if the window changed |
| SessionPane.Pane.Append | tui/traffic_viewer/screens.py:1583-1586 | a new row goes last and the window slides if it was full |
| SessionPane.Pane.TrimFront | tui/traffic_viewer/screens.py:1585-1586 | the loop drops exactly the rows past the window's size, off the front |
| SessionPane.Pane.Drop | tui/traffic_viewer/screens.py:1589-1600 | one flow leaves window and count, and the pane stays valid |
| SessionPane.Pane.PageNext | tui/traffic_viewer/screens.py:1507-1511 | the query sent is after a position with exactly the rows past the window after it; none is sent only when there are none |
| SessionPane.Pane.RenderPage | tui/traffic_viewer/screens.py:1406-1433 | the table becomes what the model's draw gives |
| SessionPane.Pane.SlideRows | tui/traffic_viewer/screens.py:1435-1461 | rows are moved in place if and only if the window only slid, and then they are the kept ones and the new ones |
| SessionPane.Pane.Flush | tui/traffic_viewer/screens.py:1609-1616 | a tick draws if and only if something changed, and the pane stays valid |
| SessionPane.Pane.RedrawChanged | tui/traffic_viewer/screens.py:1618-1628 | exactly the noted rows that are still there are repainted, and the notes are cleared |
| Cursors.CursorRoundTrip | mcp/traffic_mcp/server.py:346-362 | every position that a cursor can carry is read back from its token |
| Cursors.ParsedExactly | mcp/traffic_mcp/server.py:353-362 | a token is a position if and only if it is two decimal numbers in range with a colon between them; an empty one is none and all others are refused |
| Cursors.BarIsBad | mcp/traffic_mcp/server.py:353-362 | a position token with a bar in it is refused |
| Cursors.SearchTokenRoundTrip | mcp/traffic_mcp/server.py:1221 | a search token is read back to its session and position if and only if the session's id has no bar, as no UUID has; otherwise it is refused |
| Paging.ResumesAfter | mcp/traffic_mcp/server.py:1142-1156 | resuming in a match's session after its position leaves exactly the matches after it, over all sessions |
| Paging.NextResumes | mcp/traffic_mcp/server.py:1218-1221 | an answer's cursor leads to exactly the matches that the answer did not return |
| Paging.PagingReadsOn | mcp/traffic_mcp/server.py:1113-1120 | successive searches, with any limits, return a beginning of the ordered match list; a complete answer without a cursor ends it; any other cursor leads to the unread rest |
| Paging.PagingEnds | mcp/traffic_mcp/server.py:1113-1120 | cursors can be followed at most once more than there are matches left |
| Paging.MatchesInOrder | mcp/traffic_mcp/server.py:1113-1116 | the list read holds no match twice and is in time order within each session |
| Paging.HitsExactly | mcp/traffic_mcp/server.py:1142-1184 | a row is in the match list if and only if its session is available, it meets the criterion and, in the session resumed in, it is after the position |
| Paging.CursorLeaves | mcp/traffic_mcp/server.py:1139-1156 | a cursor leaves exactly the matches after its position in the session it names and those of later sessions, or all if there is no such session |
| Paging.PagingReadsAll | mcp/traffic_mcp/server.py:1113-1120 | from no cursor, what is read that way is the full list, session by session and in time order |
| Search.PageAdvances | mcp/traffic_mcp/server.py:1185-1187 | a gateway page with a cursor and the rows after that cursor are the rows there were, and fewer are left |
| Search.SessionServed | mcp/traffic_mcp/server.py:1157-1187 | the pages of a session, from one cursor to the next, lead to the first of its matches, and to all of them if and only if the last page is not cut short of one |
| Search.ServedExactly | mcp/traffic_mcp/server.py:1151-1187 | so over all sessions: the pages lead to every match if and only if none is cut short |
| Search.ScanFinds | mcp/traffic_mcp/server.py:1156-1187 | reading a session finds the first of the matches it is led to; it stops early only on a limit and fails exactly if the session is unavailable |
| Search.AnswerIsRight | mcp/traffic_mcp/server.py:1197-1221 | the rows returned, the total, the complete flag and the cursor are right for what was matched and what is left |
| Search.SearchAnswers | mcp/traffic_mcp/server.py:1151-1221 | whatever the limits and the page boundaries, a search answers rightly about everything that the pages lead to from the position on, and is incomplete only on a limit |
| Search.SearchIsRight | mcp/traffic_mcp/server.py:1113-1120 | a search fails on exactly the unreadable cursors and surfaces an unavailable session exactly when that one is named; it answers rightly about the matches after the cursor if no page was cut short, and a complete answer is right if and only if none was |
| Search.ScanFindsNone | mcp/traffic_mcp/server.py:1157-1187 | reading a session finds nothing if and only if the rows that the budget pays for hold no match |
| Search.SearchFindsNone | mcp/traffic_mcp/server.py:1151-1191 | a search finds nothing if and only if the rows that its budget pays for, over all sessions, hold no match |
| Search.StrandsExactly | mcp/traffic_mcp/server.py:1113-1120 | uncut, a search leaves matches with no cursor to them if and only if there are matches after its cursor and none among the rows that its budget pays for |
| Search.StrandedSearch | mcp/traffic_mcp/server.py:1157-1162 | a session, a budget and a gateway that fills its pages, for which a search strands a match |
| Search.CutSearch | gateway/internal/store/query.go:196-206 | a gateway that cuts a page short, and a search that takes one match of three for all of them |
| SearchPages.ScanReadsPages | mcp/traffic_mcp/server.py:1156-1187 | reading a session is reading its pages in order until enough is found or scanned; it stops early if and only if a page is left |
| SearchPages.SearchReadsPages | mcp/traffic_mcp/server.py:1151-1198 | a search reads the pages of all sessions in order until it is enough; total and scanned are those of the pages read, and it is complete if and only if none is left and, if it was enough, the last session is an available one |
| Search.Clamp | mcp/traffic_mcp/server.py:1122 | the limit used is the number from 1 to 500 nearest to the one given |
| Search.PageSize | mcp/traffic_mcp/server.py:1166 | a page asked for is twice the limit, or 500 if that is less |
| Search.SearchesReadOn | mcp/traffic_mcp/server.py:1113-1120 | searches run one after the other from their cursors, with any limits and budgets and uncut, read a beginning of the matches left, and all of them if the last is complete and has no cursor |
| Search.MatchPage | mcp/traffic_mcp/server.py:1182-1184 | a page's matches are its rows that meet the remaining criterion, in order |
| Search.ScanSession | mcp/traffic_mcp/server.py:1156-1187 | the inner loop ends, and reads the session as the page-by-page definition does that the theorems are about |
| Search.SearchSessions | mcp/traffic_mcp/server.py:1151-1191 | the outer loop, with its test for the last session and for the one to resume in, goes through the sessions as the session-by-session definition does |
| Search.Search | mcp/traffic_mcp/server.py:1122-1221 | a search from any cursor is the one that the theorems are about, with the nearest limit from 1 to 500; a found answer has that many rows or its total, and is incomplete only if the total reaches that or the rows scanned reach max_scan, at least one |
| Flatten.ProfileFolderIsPlain | capture/capture_sdk/capture_sdk/browser.py:78-88 | a profile's folder is one path component, never "." or "..", each slash, backslash or NUL a dash and all else as it was; a plain name is its own folder |
| Flatten.NestedParentExactly | capture/capture_sdk/capture_sdk/browser.py:125-143 | a folder is a nested parent if and only if folders that hold nothing but folders lead from it, however deep, to one with a browser's marker file |
| Flatten.MoveKeeps | capture/capture_sdk/capture_sdk/browser.py:113-117 | a move lowers the tree's total depth by what it moves, and every file, link and empty folder stays at its dashed path; a parent that is left empty is one empty folder more |
| Flatten.MoveLeaves | capture/capture_sdk/capture_sdk/browser.py:113-117 | a move to a free name overwrites nothing and leaves every other entry as it was |
| Flatten.RemoveEmpty | capture/capture_sdk/capture_sdk/browser.py:118-121 | removing an emptied parent loses just that empty folder and lowers the tree |
| Flatten.KeptBut | capture/capture_sdk/capture_sdk/browser.py:111-121 | changing one nested parent keeps every entry that is not one |
| ProfilesRoot.Root.FlattenNestedProfiles | capture/capture_sdk/capture_sdk/browser.py:96-121 | passes end; every file, link and empty folder is still there and no other folder is left empty; what was not a nested parent is untouched; each remaining nested parent holds only children whose name is taken |
| ProfilesRoot.Root.Pass | capture/capture_sdk/capture_sdk/browser.py:108-121 | one pass, in any order, keeps all that and either lowers the tree or leaves it unchanged and flat |
| ProfilesRoot.Root.MoveChildren | capture/capture_sdk/capture_sdk/browser.py:113-121 | one parent's movable children are moved and an emptied parent goes; if nothing moved, nothing could |
| DnsNames.LatestIsLast | capture/capture_mitmproxy/capture_mitmproxy/hostnames.py:48-56 | in an ordered history the latest answer is the last one |
| DnsNames.SameLatest | capture/capture_mitmproxy/capture_mitmproxy/hostnames.py:48-56 | if any kept answer is in time, the kept ones hold the latest of all that are |
| DnsNames.NameExactly | capture/capture_mitmproxy/capture_mitmproxy/hostnames.py:48-56 | there is no name exactly when no answer was given by then; else it is that of the latest of those, the first learned of several, and the candidates are the other names given by then |
| DnsNames.HistoryExactly | capture/capture_mitmproxy/capture_mitmproxy/hostnames.py:31-46 | an address has exactly one kind of answer for each lookup with a question that names it: the time of the response or else the clock, the asked-for name without its last dots, the lookup |
| DnsNames.LastFewExactly | capture/capture_mitmproxy/capture_mitmproxy/hostnames.py:44-46 | the answers kept are the last sixteen, or all if there are fewer |
| DnsNames.BoundedAgrees | capture/capture_mitmproxy/capture_mitmproxy/hostnames.py:21-56 | a name the kept answers give is the full history's, with no other candidates; they give none if and only if every answer in time has been forgotten |
| DnsNames.BoundedExactly | capture/capture_mitmproxy/capture_mitmproxy/hostnames.py:21-56 | learned in any order: a kept name is the full history's if and only if no forgotten answer in time is as late as every kept one, or the latest forgotten one says the same |
| DnsNames.HistoryInOrder | capture/capture_mitmproxy/capture_mitmproxy/hostnames.py:31-46 | lookups that end one after another give every address an ordered history |
| DnsNames.Names.constructor | capture/capture_mitmproxy/capture_mitmproxy/hostnames.py:28-29 | a new cache has learned nothing |
| DnsNames.Names.Learn | capture/capture_mitmproxy/capture_mitmproxy/hostnames.py:31-46 | after any lookup every address keeps exactly the last sixteen of all its answers |
| DnsNames.Names.TakeRecords | capture/capture_mitmproxy/capture_mitmproxy/hostnames.py:37-46 | the loop over a lookup's records remembers its answer once for each time it names the address |
| DnsNames.Names.Remember | capture/capture_mitmproxy/capture_mitmproxy/hostnames.py:44-46 | one answer is added and the oldest past sixteen forgotten, for that address only |
| DnsNames.Names.NameOf | capture/capture_mitmproxy/capture_mitmproxy/hostnames.py:48-56 | the name found is the one the last sixteen answers give; it is the one the full history gives when lookups end in order, and in any order exactly when no forgotten answer overtakes the kept ones with another name |

## Left out

- zstd and MessagePack libraries, JSON output: parameters of the MAX decoder; a decoder library may be called only on what is safe to decode, and its recovered panics count as undecodable.
- Command and opcode labels, host matching, registries of decoders: plain lookups; a message carries the numbers.
- Go's 32-bit `int`: numbers are unbounded here, which agrees with the 64-bit `int` the gateway is built with; the largest is a doubled 32-bit count or 255 times the input's length.
- UTF-8 and ASCII decoding and address text (`inet_ntop`): credentials and addresses are kept as the bytes they arrived in.
- The TLS child: a recorder of what it is given; its replies, SNI, certificates, the proxy address string, and start and close events are not modelled.
- Socks.SegmentationDoesNotMatter: requires both pieces to fit the 64 KiB buffer together while the handshake is watched; `Socks.CapCutsTheHandshake` shows the two ways differ otherwise. The proxy's side takes one message per arrival, so no such law holds for it; `SocksHandshake.HandshakeCompletes` says exactly what its pieces do.
- Backward pages themselves: what the backward cursor reaches is stated (`LiveRuns.PrevExactly`), not which page comes back.
- The gateway's query and filter engine: a page is an ordered contiguous run of the rows that match, with cursors that lead where they say. What the scan cap, filters and time windows do to its cursors and its count is left open, and the theorems say when it matters.
- Stream events: each arrives with the change to the list that it reports, and a flow keeps its position.
- Paging.PagingReadsOn: requires session ids without a bar and positions in range, which is when a cursor can be written and read back (`Cursors.SearchTokenRoundTrip`); ids are UUIDs (`gateway/internal/server/ingest.go:289`), so none has one.
- How many rows the gateway looks at for one page is its own to say: the scan budget is spent by what each page reports.
- Search previews, hidden-match counts, label maps and genuine RPC faults: they do not touch the rows or the cursor.
- Cursors: the spaces, plus signs and underscores that Python's `int` also reads are not read here; tokens the server writes have none.
- Directory listing order is arbitrary in `ProfilesRoot`; OS errors and broken links are not modelled, and a link is known only by what it leads to.
- DNS timestamps are integers, and candidate names a set rather than a sorted list.
- The table widget: a row is the flow it was drawn from; cells, cursor row, scroll position and badges are not modelled.
- Read errors other than the end of the stream in the WebSocket reader: they end the loop as the end does.
- gRPC, prompts, process handling, capture-source bookkeeping and profile discovery: input and output, or easy.

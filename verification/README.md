# A Dafny model of a BitTorrent client

The project models the data and state logic of the client that lies under its sockets, and proves
what that logic guarantees over whole inputs, whole runs and whole exchanges.

- **Bencode** (`Bytes`, `Decimal`, `Bencode`, `BencodePositions`, `BencodeTermination`, `BencodeGrammar`,
  `BencodeEncoder`, `BencodeParser`, `BencodeRoundTrip`, `BencodeCanonical`, `Dictionaries`).
  The printer, the position-threading parser with the leniency of `std::stoll`, the round trip, a grammar
  of everything that is accepted and one of canonical strings (BEP 3, section "bencoding"). `Bencode`
  reads the bytes left; `BencodePositions` follows the position, which a negative length moves back, and
  `BencodeTermination` says when the parser ends. The methods follow the loops of the source and are
  proved equal to these functions.
- **Torrent file** (`TorrentFile`, `TorrentContents`, `TorrentFields`, `TorrentErrors`, `InfoHash`). The
  fields, their errors in order, the piece count and the info hash, and what each of them is in terms of
  the file. The hash is taken of a re-encoding of the info dictionary; the model says exactly when that
  re-encoding is the file's own bytes (BEP 3, section "metainfo files").
- **Peer wire** (`Handshake`, `Bits`, `Bitfield`, `Framing`, `PeerConnection`, `WireMessages`, `TwoPeers`,
  `Locks`). The handshake, length-prefixed frames, the connection object, the messages byte by byte, two
  endpoints exchanging them over streams that may be cut anywhere (BEP 3, sections "peer protocol" and
  "peer messages"), and the mutexes around the output buffer.
- **Piece store** (`Hex`, `PieceStore`, `PieceAssembly`, `PieceVerification`, `PieceDownload`). Blocks
  written into pieces, the bitmaps and counters, the hash check that follows a complete piece, and
  which pieces a whole download marks.
- **DHT** (`RoutingTable`, `TableContents`, `XorDistance`, `Closest`, `Compact`, `DhtMessages`, `Dht`).
  Bucket placement and eviction, what a run of additions knows, the K closest nodes, the 26-byte and
  6-byte encodings, and the find_node, get_peers and announce_peer queries (BEP 5, sections "Routing
  Table", "Contact Encoding" and "DHT Queries").

## Conventions

- A byte is an integer from 0 to 255, and a byte string a sequence of them. Bits, `|` and `^` are
  defined by halving; the host is little-endian, as on the platforms the client builds for.
- A `std::map` from strings is a sequence of entries in key order; insertion and lookup are proved to
  behave as those of a map. String and buffer sizes stay below 2^63, so the parser's `size_t` sums
  do not wrap.
- Exceptions are the failing cases of a result datatype. SHA-1 is any function from bytes to 20 bytes.
  Whether a pinged node answers, which bytes a read returns and which queries arrive are parameters.
  Each mutex-guarded operation is one step, except in `Locks`.
- The parser takes a bound on how deep its calls and loop passes may nest, a pass counting as inside the
  one before it, and ends in `Unfinished` beyond it. `BencodePositions.DeeperSameResult` shows that any
  other result is independent of the bound, and `BencodeTermination.EndsExactly` gives a bound beyond
  which nothing changes.
- `std::sort` is any sorted rearrangement: results about the K closest nodes hold for all of them, and
  an insertion sort shows that there is one.
- Where the source indexes out of bounds, the model carries the condition under which it does not
  (`Defined`, `Measured`, `FindNodeDefined`, `GetPeersDefined`), or a loop that returns nothing when it
  reads too far (`Scan`, and `ScanDefined` from it). The runs of `RoutingTable` without the owner's
  complement and those of `TwoPeers` are proved to meet them. Undefined arithmetic in `parse` is the
  outcome `UndefinedArithmetic`.
- BEP 5 lists peers under `values` as a list of strings; the source sends one string, and the model
  follows the source. It also follows the source's bucket rule (a run of set distance bits, least
  significant first) and not the bucket splitting of BEP 5.

## Properties found false, with their exact conditions

- Re-encoding is not the identity on accepted input, nor is the info hash always that of the file's
  bytes: `InfoHash.NonCanonicalInfoIsRewritten` gives a file that `parse` takes whole. Both hold exactly
  on canonical input (`BencodeCanonical.ReencodeIsIdentityIffCanonical`, `InfoHash.InfoHashFidelity`).
- The parser does not end on every input: on `d-4:` it never does
  (`BencodeTermination.NegativeLengthNeedNotEnd`). It ends exactly when no call is made again while it
  is still open, which shows within a depth of four times the size of the input and four more
  (`BencodeTermination.EndsExactly`). Without a negative length it always ends
  (`BencodePositions.ReadAgrees`); with one it may (`BencodeTermination.NegativeLengthMayEnd`).
- The hash check can reject a right piece (`Hex.HashCheckRejectsARightPiece`); it accepts exactly the
  equal digests none of whose bytes after the first is below 16 (`Hex.HashCheckExact`).
- The frame size test passes on the bytes `ff ff ff ff` (`Framing.SizeTestPassesOnNothing`), and on an
  incomplete frame exactly when its 32-bit sum wraps (`Framing.SizeTestWraps`).
- The bucket scan can read past the distance, exactly in a table of more than 160 buckets for the
  bitwise complement of the owner's id (`RoutingTable.ScanUndefinedIff`); adding the complement 160
  times leads there (`RoutingTable.ScanFailureReachable`).
- The block bitmap can be indexed past its end, already for the only block of a torrent of one
  16384-byte piece (`PieceStore.OnlyBlockHasNoBit`); `PieceStore.UndefinedExactly` says when.
- A complete last piece need not be the source's: it is complete once its first block has arrived, and
  is the source's exactly when the source has only zeros after that block
  (`PieceAssembly.LastPieceCompletesEarly`); `PieceAssembly.LastPieceCanBeWrong` gives a piece that is
  complete and wrong.
- `parse` does not always count the pieces that cover the content: it does exactly when the piece length
  is positive and the number fits an int (`TorrentFile.NumPiecesCoversIff`); for 2^31 pieces of one byte
  it is negative (`TorrentFile.CountCanBeNegative`).
- An end that accepted its connection has no thread that sends its output buffer, so what it queues is
  not heard. With nothing on its way the other end is up to date exactly while the accepting end chokes
  it, is not interested and has asked for nothing (`TwoPeers.AcceptedEndIsMute`); a single unchoke leaves
  them in disagreement (`TwoPeers.UnchokeIsNotHeard`).
- The accepting end gets that far only if a connection is there when the handshake is taken. `run` stores
  it afterwards, so every handshake it takes writes through a null pointer, and every other opening is
  refused (`Handshake.TakenExactly`, `Handshake.AcceptedSocketHasNoConnection`). `TwoPeers` takes the
  connection as constructed.
- The four control messages lock `buffer_mutex` and then, in `append_to_output`, lock it again. A
  thread that does this never goes on (`Locks.ControlIsNeverSent`), and `optimisticUnchoke`, which does
  it while holding `peerMutex`, stops the input and output of every connection
  (`Locks.UnchokingStopsAll`). A thread alone finishes exactly when it never locks what it holds
  (`Locks.FinishesAloneIff`). Locking an owned `std::mutex` is undefined in the language; `Locks` takes
  it to block. `PeerConnection` and `TwoPeers` say what the code does when the second lock is granted.

## Model

| member | source | states |
|---|---|---|
| Decimal.StollOfToString | src/bencode_encoder.cpp:16-22 | Reading back what `std::to_string` writes gives the number, over the whole int64 range. |
| Decimal.ToStringOfIntegerValue | src/bencode_encoder.cpp:16-18 | Every numeral without redundant zeros or signs is the one written for its value. |
| Decimal.StollReads | src/bencode_parser.cpp:21-25 | Spaces in front, a plus or minus sign, any zeros, and whatever follows the digits are accepted; the number is that of the digits, or out of range. |
| Decimal.StollOnlyReads | src/bencode_parser.cpp:21-25 | Nothing of another form is accepted. |
| Decimal.DigitsCount | src/bencode_parser.cpp:21-25 | The first digit counts as many tens as digits follow it. |
| Bencode.ParseValue | src/bencode_parser.cpp:87-104 | Every parse of the bytes left that succeeds takes at least one of them and no more than there are. |
| BencodePositions.ReadAgrees | src/bencode_parser.cpp:7-104 | Where no negative length is met, the parser ends within a depth linear in the input, with the value and position the bytes left give. |
| BencodePositions.DeeperSameResult | src/bencode_parser.cpp:87-104 | A parse that ends has one result, however deep it is allowed to nest. |
| BencodeTermination.EndsExactly | src/bencode_parser.cpp:7-104 | The parser ends exactly when no call is made again while it is still open; if it has not ended within a depth of 4 * (size + 1), it never does. |
| BencodeTermination.LoopMeetsNegativeLength | src/bencode_parser.cpp:7-104 | A parse that does not end has met a negative length. |
| BencodeTermination.NegativeLengthNeedNotEnd | src/bencode_parser.cpp:31-48 | On `d-4:` the position moves back to the dictionary itself, and the parser never ends. |
| BencodeTermination.NegativeLengthMayEnd | src/bencode_parser.cpp:31-48 | On `d-2:abe` the position moves back onto the length, and the parser ends with a dictionary of one entry. |
| BencodeGrammar.WritingParses | src/bencode_parser.cpp:13-104 | Everything written in the grammar is accepted, whatever follows, and read as what it means. |
| BencodeGrammar.ParsedIsWritten | src/bencode_parser.cpp:13-104 | Everything the parser accepts is written in the grammar, and means what the parser returns. |
| BencodeGrammar.ValueErrors | src/bencode_parser.cpp:87-104 | The exception at the end of the input and at a first byte of no kind. |
| BencodeGrammar.NumberErrors | src/bencode_parser.cpp:13-28 | The exception for an integer without its end and for one that is no number. |
| BencodeGrammar.StringErrors | src/bencode_parser.cpp:31-48 | The exception for a missing colon, a size that is no number, and one beyond the input. |
| BencodeGrammar.ListErrors | src/bencode_parser.cpp:51-65 | The exception for a list that breaks off, and that of the first item not accepted. |
| BencodeGrammar.DictErrors | src/bencode_parser.cpp:68-84 | The exception for a dictionary that breaks off, and that of the first key or value not accepted. |
| Bencode.LookupInsert | src/bencode_parser.cpp:75 | Assigning into the ordered dictionary changes the value found under that key and under no other. |
| Bencode.LookupFromEntries | src/bencode_parser.cpp:72-76 | Of repeated keys the last assignment wins. |
| Bytes.LexIsDictionaryOrder | src/bencode_encoder.cpp:32-41 | The order in which keys are kept: a proper prefix first, otherwise the smaller byte where two keys first differ. |
| BencodeEncoder.EncodeValue | src/bencode_encoder.cpp:3-14 | The printer's dispatch and loops print what the function `Encode` says. |
| BencodeEncoder.EncodeList | src/bencode_encoder.cpp:24-30 | Appending item after item gives the encoding of the list. |
| BencodeEncoder.EncodeDict | src/bencode_encoder.cpp:32-41 | Appending key after value gives the encoding of the dictionary. |
| BencodeParser.Parse | src/bencode_parser.cpp:7-10 | The value at the front of the input, or the exception thrown, negative lengths included; what follows the value is ignored. |
| BencodeParser.ParseInt | src/bencode_parser.cpp:13-28 | The integer at the position and the position after it, or the error. |
| BencodeParser.ParseString | src/bencode_parser.cpp:31-48 | The string at the position and the position after it, which a negative length moves back, or the error. |
| BencodeParser.ParseList | src/bencode_parser.cpp:51-65 | The loop over items collects exactly what reading them one after the other does. |
| BencodeParser.ParseDict | src/bencode_parser.cpp:68-84 | The loop builds the dictionary of the entries read, in the order of their assignments. |
| BencodeParser.ParseValue | src/bencode_parser.cpp:87-104 | The dispatch on the first byte returns the value and position of `ReadValue`. |
| BencodeRoundTrip.ParseEncode | src/bencode_encoder.cpp:3-41 | For every value and every continuation, parsing what was printed returns the value and stops at its end. |
| BencodeRoundTrip.EncodePrefixFree | src/bencode_encoder.cpp:3-41 | Printing is injective and prefix-free. |
| BencodeRoundTrip.ParseLocal | src/bencode_parser.cpp:87-104 | A success depends only on the bytes it took: any input sharing them parses the same way. |
| BencodeRoundTrip.ParseValid | src/bencode_parser.cpp:50-84 | Every value parsed has dictionaries in key order and sizes that fit int64, at every level. |
| BencodeCanonical.EncodeCanonical | src/bencode_encoder.cpp:32-41 | Every printed value is in the canonical grammar, keys strictly increasing at every level. |
| BencodeCanonical.CanonicalIsEncoding | src/bencode_encoder.cpp:3-41 | Every string of the grammar is the printed form of some value. |
| BencodeCanonical.ReencodeIsIdentityIffCanonical | src/bencode_parser.cpp:13-104 | For an input taken whole, printing what was parsed gives the input back exactly when it is canonical. |
| BencodeCanonical.ReencodeCanonicalizes | src/bencode_parser.cpp:13-104 | For any accepted input, printing what was parsed gives a canonical string that parses to the same value. |
| BencodeCanonical.CanonicalAccepted | src/bencode_parser.cpp:13-104 | Every canonical string is accepted whole. |
| TorrentFile.Parse | src/torrent_file_parser.cpp:12-90 | From the file's bytes to the fields, the piece count and the info hash, or the first error in the source's order. |
| TorrentFields.TorrentIs | src/torrent_file_parser.cpp:26-90 | A torrent is returned exactly when every field is the one the root dictionary holds: texts, numbers, digests, files with their own size and path, count and hash. |
| TorrentFields.FileIsDescribed | src/torrent_file_parser.cpp:12-90 | The same from the bytes of the file. |
| TorrentFields.RootIsLastEntries | src/torrent_file_parser.cpp:32-46 | What the root holds under a key is the value of the last entry in the file with that key. |
| TorrentFields.PrintedFileParses | src/torrent_file_parser.cpp:12-90 | A file printed from any fields parses to exactly those fields. |
| TorrentErrors.FirstErrorIsRaised | src/torrent_file_parser.cpp:26-76 | The error raised is that of the first check that fails, in the source's order. |
| TorrentFile.ReadFiles | src/torrent_file_parser.cpp:173-210 | The loop over the file list gives every file with its size and path, or the error of the first bad entry. |
| TorrentContents.PathIsJoined | src/torrent_file_parser.cpp:194-205 | A path is read exactly when every component is a string, and is the components joined with slashes, less the empty ones in front. |
| TorrentContents.PathSplitsBack | src/torrent_file_parser.cpp:194-205 | Cutting the path at its slashes gives those components back exactly when there are any and none holds a slash. |
| TorrentContents.TotalIsSum | src/torrent_file_parser.cpp:61-72 | The total is the sum of the sizes, and it is undefined exactly when a sum of the first so many leaves int64. |
| InfoHash.ValueSliceParses | src/bencode_parser.cpp:72-76 | The bytes of a dictionary body taken by an entry's value parse by themselves to that value. |
| InfoHash.InfoHashFidelity | src/torrent_file_parser.cpp:12-90 | When `parse` succeeds, the bytes hashed are the last info value's own slice of the file exactly when the slice is canonical, whatever surrounds it. |
| InfoHash.NonCanonicalInfoIsRewritten | src/torrent_file_parser.cpp:12-90 | A concrete file on which `parse` succeeds and hashes other bytes than the file's info dictionary. |
| TorrentFile.ExtractPieces | src/torrent_file_parser.cpp:132-156 | The digests are the consecutive 20-byte slices of the string, an incomplete last one dropped; errors for a missing or mistyped key. |
| TorrentFile.NumPiecesCoversIff | src/torrent_file_parser.cpp:75-76 | The count is the least number of pieces that covers the content exactly when the piece length is positive and that number fits an int; it is undefined exactly for a division by zero or an overflowing one. |
| TorrentFile.CountIsRounded | src/torrent_file_parser.cpp:75-76 | For any sizes the count is the quotient toward zero, plus one where something positive is left, narrowed to an int. |
| TorrentFile.CountCanBeNegative | src/torrent_file_parser.cpp:75-76 | A size and piece length for which the count is -2^31. |
| Bitfield.UnpackPacked | src/peer_connection.cpp:128-139 | Unpacking what was packed gives the bits back, then false up to a multiple of eight. |
| Bitfield.UnpackIsBinary | src/peer_connection.cpp:128-139 | The bits are the binary digits of the payload read as one big-endian number. |
| Bitfield.PackUnpacked | src/peer_wire_protocol.cpp:338-360 | Packing what was unpacked gives the bytes back. |
| Bitfield.PackUnique | src/peer_wire_protocol.cpp:350-360 | A set of bits is packed into one payload only. |
| Bitfield.Pack | src/peer_wire_protocol.cpp:350-360 | The packing loops put every bit at its place and leave the padding clear. |
| Bitfield.UnpackOver | src/peer_connection.cpp:128-139 | Resizing and overwriting leaves exactly the payload's bits, whatever was there before. |
| Bitfield.UnpackCountdown | src/peer_wire_protocol.cpp:381-387 | The countdown loops agree with `handle_message` on the first min(numPieces, 8 * bytes) bits. |
| Framing.SizeTestWraps | src/peer_connection.cpp:79-80 | The size test passes without a complete frame exactly when the 32-bit sum wraps. |
| Framing.SizeTestPassesOnNothing | src/peer_connection.cpp:79-80 | Four bytes of ones pass the size test, and no frame is there. |
| Framing.DeframeFrames | src/peer_connection.cpp:70-91 | Any sequence of framed messages and an incomplete tail comes out as that sequence and that tail. |
| Framing.DeframeConserves | src/peer_connection.cpp:70-91 | The messages cut off, framed again, and the bytes left are the buffer; no complete frame is left. |
| Framing.DeframeAppend | src/peer_connection.cpp:70-91 | Cutting frames off as bytes arrive gives the same messages and remainder as cutting them off at the end. |
| Framing.MeasuredAppend | src/peer_connection.cpp:79-80 | No wrapping prefix in a stream means none in any buffer met while reading it in two parts. |
| PeerConnection.HaveSetsOneBit | src/peer_connection.cpp:117-126 | A have message sets its own bit, if it is in range, and changes nothing else. |
| WireMessages.FrameLayout | src/peer_connection.cpp:29-41 | Four bytes of length, most significant first, then the message. |
| WireMessages.RequestLayout | src/peer_connection.cpp:43-63 | Type 6, then index, offset and length as big-endian integers. |
| WireMessages.PieceLayout | src/peer_connection.cpp:168-180 | Type 7, then index and offset as big-endian integers, then the data, as the receiver takes them apart. |
| WireMessages.FlagsAfter | src/peer_connection.cpp:93-115 | Which message types set and clear which flag, and that nothing else does. |
| WireMessages.BitsAfter | src/peer_connection.cpp:117-140 | A bitfield leaves its payload's digits, a have message sets the bit of its index, and nothing else changes a bit. |
| WireMessages.QueueAfter | src/peer_connection.cpp:142-166 | A 13-byte request, and nothing else, queues its three integers in order, from network to host byte order. |
| PeerConnection.ReceiveTwice | src/peer_wire_protocol.cpp:734-737 | Two reads in a row leave the connection as one read of both. |
| PeerConnection.ChunksDoNotMatter | src/peer_wire_protocol.cpp:725-740 | However a stream is cut into reads, the connection and its leftover input end the same. |
| PeerConnection.ChunksHoldTheSameMessages | src/peer_wire_protocol.cpp:725-740 | However a stream is cut into reads, the messages handled are those of the whole stream, in order. |
| PeerConnection.EveryReadMeasured | src/peer_connection.cpp:79-80 | For a stream without wrapping prefixes, every read in any cutting meets the condition of `process_input_buffer`. |
| PeerConnection.Connection.SendChoke | src/peer_connection.cpp:5-9 | Appends the framed choke message and records that we choke; nothing else changes. |
| PeerConnection.Connection.SendUnchoke | src/peer_connection.cpp:11-15 | Appends the framed unchoke message and records that we do not choke. |
| PeerConnection.Connection.SendInterested | src/peer_connection.cpp:17-21 | Appends the framed interested message and records our interest. |
| PeerConnection.Connection.SendNotInterested | src/peer_connection.cpp:23-27 | Appends the framed not-interested message and records its loss. |
| PeerConnection.Connection.CreateMessageHeader | src/peer_connection.cpp:29-41 | The bytes appended are one frame of the type and a zero payload of the given length. |
| PeerConnection.Connection.CreateRequestMessage | src/peer_connection.cpp:43-63 | The bytes appended are one frame of the request. |
| PeerConnection.Connection.SendRequest | src/peer_wire_protocol.cpp:407-430 | The same frame, of the unsigned numbers the ints convert to. |
| PeerConnection.Connection.SendPiece | src/peer_wire_protocol.cpp:476-501 | The bytes appended are one frame of the piece message. |
| PeerConnection.Connection.TakeOutput | src/peer_wire_protocol.cpp:750-759 | The whole output buffer is taken and left empty. |
| PeerConnection.Connection.ReadChunk | src/peer_wire_protocol.cpp:729-737 | A read leaves the connection in the state `Receive` gives and the output untouched. |
| PeerConnection.Connection.ProcessInputBuffer | src/peer_connection.cpp:70-91 | All complete frames are handled in order and the rest stays in the buffer. |
| PeerConnection.Connection.HandleMessage | src/peer_connection.cpp:93-191 | The effect of each message on the connection, unknown and malformed ones included. |
| PeerConnection.BitfieldMessage | src/peer_wire_protocol.cpp:338-363 | The bytes sent are one frame of the packed bits. |
| TwoPeers.StepKeepsConsistent | src/peer_connection.cpp:5-27 | Every step of either end (message, direct bitfield, flush, partial read) keeps both directions consistent. |
| TwoPeers.EveryRunConsistent | src/peer_wire_protocol.cpp:723-778 | In every reachable state, handling the bytes on their way makes each end agree with the other's choke and interest flags, its requests in order and its bitfield. |
| TwoPeers.QuietRunAgrees | src/peer_connection.cpp:70-115 | With nothing on its way the two ends agree outright, each queue holds the other's requests in order with their index, offset and length, and no input is left over. |
| TwoPeers.Settles | src/peer_wire_protocol.cpp:748-778 | From any consistent state either end can flush and the other read until it is up to date, with nothing changed the other way. |
| TwoPeers.EveryRunSettles | src/peer_wire_protocol.cpp:723-778 | Every run can be continued without a further message until nothing is on its way, in either direction, and both ends agree on all that was done. |
| TwoPeers.AcceptedEndIsMute | src/peer_wire_protocol.cpp:697-719 | In every run where the second end's output buffer is never sent, the first stays choked and hears of no interest and no request; with nothing coming it is up to date exactly when there was nothing to hear. |
| TwoPeers.UnchokeIsNotHeard | src/peer_wire_protocol.cpp:697-719 | A run of one unchoke by the accepting end, after which the ends disagree with nothing on its way. |
| Handshake.HandshakeMessage | src/peer_wire_protocol.cpp:110-160 | The 68 bytes sent: 19, the protocol name, eight zeros, the info hash at byte 28 and the peer id at byte 48. |
| Handshake.TakenExactly | src/peer_wire_protocol.cpp:321-337 | A read gets past the check exactly when it is a handshake with any reserved bytes; its two ids are then stored, or written through a null pointer when the socket has no connection. |
| Handshake.AcceptedSocketHasNoConnection | src/peer_wire_protocol.cpp:705-713 | A handshake as sent is not accepted on a socket stored only afterwards. |
| TwoPeers.ReadsAreDefined | src/peer_connection.cpp:79-80 | In every run each read, by either end, meets the condition of `process_input_buffer`. |
| Locks.FinishesAloneIff | src/peer_connection.cpp:65-68 | A thread with nobody else about finishes exactly when it never locks a mutex it holds. |
| Locks.ControlCannotFinish | src/peer_connection.cpp:5-68 | Reads, takes, requests and pieces finish by themselves; the four control messages and an optimistic unchoke do not. |
| Locks.ControlIsNeverSent | src/peer_connection.cpp:5-41 | Whatever other threads do, one that sends a control message appends nothing and sets no flag. |
| Locks.RoundBegins | src/peer_wire_protocol.cpp:650-673 | A round that finds `peerMutex` free and a choked peer gets into the state from which it never ends. |
| Locks.UnchokingStopsAll | src/peer_wire_protocol.cpp:650-673 | Once a round of optimistic unchoking has found a peer, no other thread ever gets past locking `peerMutex`. |
| Hex.DigestToHex | src/peer_wire_protocol.cpp:806-811 | The printing loop pads every byte. |
| Hex.RawToHex | include/peer_wire_protocol.hpp:120-127 | The printing loop pads the first byte only. |
| Hex.TextsSpell | src/peer_wire_protocol.cpp:806-811 | Both texts spell the bytes in order, in lower-case digits: one with two digits each, the other dropping a leading zero after the first byte. |
| Hex.HashCheckExact | src/peer_wire_protocol.cpp:592-605 | The texts are equal exactly when the digests are and no byte after the first is below 16. |
| Hex.HashCheckRejectsARightPiece | include/peer_wire_protocol.hpp:120-127 | A digest whose own text is not recognised. |
| PieceStore.UndefinedExactly | src/piece_manager.cpp:57-59 | For which blocks in range the bitmap has no bit. |
| PieceStore.OnlyBlockHasNoBit | src/piece_manager.cpp:57-59 | The only block of a one-piece torrent of 16384 bytes has no bit. |
| PieceStore.StoreChanges | src/piece_manager.cpp:36-83 | A block is taken exactly when it lies in the piece and its bit is clear; its bytes then stand at its own offset, its bit is set, and every other byte, bit and piece is as before. |
| PieceStore.MarkChanges | src/piece_manager.cpp:122-135 | Marking sets the counter and every bit of a known piece and nothing else. |
| PieceStore.BlockCountCovers | src/piece_manager.cpp:137-140 | The count is the least number of 16384-byte blocks that covers the piece, or what is left over of the last one. |
| PieceStore.StoreKeepsCounted | src/piece_manager.cpp:36-83 | Aligned or not, stored or refused, a block keeps the counter equal to the bits set and the completed set equal to the full pieces. |
| PieceStore.MarkFull | src/piece_manager.cpp:122-135 | Marking a full piece changes nothing. |
| PieceStore.FullRefuses | src/piece_manager.cpp:57-63 | A full piece refuses every later block and nothing changes. |
| PieceStore.PieceManager.StorePieceBlock | src/piece_manager.cpp:36-83 | The new pieces, counters and completed set, and the result, are those of `StoreBlock`. |
| PieceStore.PieceManager.IsPieceComplete | src/piece_manager.cpp:85-91 | True exactly for a stored piece with all its blocks counted. |
| PieceStore.PieceManager.GetFullPiece | src/piece_manager.cpp:102-119 | The stored bytes, and failure for an absent or empty piece. |
| PieceStore.PieceManager.GetPieceBlock | src/piece_manager.cpp:10-33 | The range asked for, whenever it is in range and the piece is known, received or not. |
| PieceStore.PieceManager.MarkPieceAsDownloaded | src/piece_manager.cpp:122-135 | The counter and all bits of a stored piece are set; an absent one is refused. |
| PieceAssembly.StoreIsUnion | src/piece_manager.cpp:36-83 | In a store holding a set of blocks of known content, a block already there is refused and any other is added to the set. |
| PieceAssembly.RunIsAssembled | src/piece_manager.cpp:36-83 | After any sequence of blocks the store is the one determined by their set. |
| PieceAssembly.OrderDoesNotMatter | src/piece_manager.cpp:36-83 | Two runs over the same blocks, in any order and with repeats, end in the same store. |
| PieceAssembly.CompleteIffAllArrived | src/piece_manager.cpp:76-119 | A piece before the last is complete exactly when all its blocks have arrived, and its bytes are then the source's. |
| PieceAssembly.LastPieceCompletesEarly | src/piece_manager.cpp:137-140 | The last piece is complete exactly when it counts a block and its first block has arrived; it is then the source's exactly when the source has only zeros after that block. |
| PieceAssembly.LastPieceCanBeWrong | src/piece_manager.cpp:137-140 | A source of 16385 bytes whose last piece is complete and not the source's. |
| PieceAssembly.ArrivedBytesStay | src/piece_manager.cpp:59-65 | Bytes that arrived keep the source's value whatever arrives later. |
| PieceVerification.MarkedAreVerified | src/peer_wire_protocol.cpp:555-611 | In every run the pieces marked as downloaded are exactly the complete ones whose bytes hash to their digest, the digest printing in full. |
| PieceVerification.CompletePiecesAreFinal | src/peer_wire_protocol.cpp:564-610 | A complete piece keeps its bytes and its verdict in every later state: verified stays verified, failed is never marked. |
| PieceVerification.HandleOnlyStores | src/peer_wire_protocol.cpp:555-611 | The check changes nothing in the store, and marks at most the arrival's own piece. |
| PieceVerification.PeerWireProtocol.HandlePiece | src/peer_wire_protocol.cpp:555-611 | The store and the marked pieces after an arrival are those of `Handle`, and stay sound. |
| PieceDownload.MarkedIffDownloaded | src/peer_wire_protocol.cpp:555-611 | When all arrivals are cut from known pieces, a piece before the last is marked exactly when all its blocks arrived, in any order, its digest is the torrent's, and that digest prints in full. |
| PieceDownload.LastMarkedIffFirstBlock | src/peer_wire_protocol.cpp:555-611 | The last piece is marked exactly when its first block, padded with zeros, has the torrent's digest and has arrived. |
| RoutingTable.DistanceInjective | src/dht_bootstrap.cpp:176-182 | Distinct ids have distinct distances to a target. |
| XorDistance.DistanceIsXor | src/dht_bootstrap.cpp:176-182 | The distance read as a 160-bit number is the XOR of the two ids read as numbers. |
| XorDistance.XorByDigit | src/dht_bootstrap.cpp:176-182 | A binary digit of the XOR is set exactly where those of the two numbers differ. |
| RoutingTable.AddKeepsPlaced | src/dht_bootstrap.cpp:338-377 | Adding a node keeps every bucket within K, free of repeats, non-empty after the first, with the leading bits of its index, and at most one node with the next bit. |
| RoutingTable.RunPlaced | src/dht_bootstrap.cpp:338-377 | Placement holds in every run, and the table never outgrows 160 buckets unless the owner's complement is added. |
| RoutingTable.ScanSelects | src/dht_bootstrap.cpp:343-346 | The scan ends at the first clear bit or past the last bucket, and reads past the distance exactly in the remaining case. |
| TableContents.ScanFindsBucket | src/dht_bootstrap.cpp:339-351 | The scan ends at a bucket exactly when the two ids differ in as many leading digits as its index says, and not in the next unless the bucket is new. |
| TableContents.AddChangesOneBucket | src/dht_bootstrap.cpp:338-377 | Adding leaves every other bucket; a new bucket holds the node, and an old one changes as in the four cases, contents and order. |
| TableContents.AddLearns | src/dht_bootstrap.cpp:353-376 | The node is in its bucket afterwards exactly unless that was full without it and its front answered; no other node appears. |
| TableContents.AddedIsKnown | src/dht_bootstrap.cpp:338-377 | In every run an added node is in its bucket at the end unless it was refused, or replaced after its own ping failed. |
| TableContents.OnlyAddedAreKnown | src/dht_bootstrap.cpp:338-377 | In every run each node of the table was added, in the bucket for it. |
| TableContents.NoComplementScans | src/dht_bootstrap.cpp:338-351 | Every scan of a run without the owner's complement is defined. |
| RoutingTable.ScanUndefinedIff | src/dht_bootstrap.cpp:343-346 | The scan reads past the distance exactly for the owner's complement in a table of more than 160 buckets. |
| RoutingTable.RunScansDefined | src/dht_bootstrap.cpp:338-351 | In every run without the owner's complement the next scan stays within the distance. |
| RoutingTable.ScanFailureReachable | src/dht_bootstrap.cpp:338-351 | 160 additions of the complement, each with a defined scan, lead to a table where the next reads past the distance. |
| RoutingTable.AddKeepsUnlessEvicted | src/dht_bootstrap.cpp:353-376 | A step drops a node from its bucket only if it stood at the front of the full bucket and its ping failed. |
| RoutingTable.LostOnlyByFailedPing | src/dht_bootstrap.cpp:353-376 | The same over every run: a lost node has a step in which its own ping failed. |
| RoutingTable.UpdateContents | src/dht_bootstrap.cpp:353-376 | Which nodes the bucket holds after each case, and who goes to the back or the front. |
| RoutingTable.UpdateKeepsOrder | src/dht_bootstrap.cpp:356-376 | All other entries keep their relative order. |
| Bytes.LexIsNumericOrder | src/dht_bootstrap.cpp:549-551 | Comparing distances byte by byte is comparing 160-bit big-endian integers. |
| Closest.GatherKeepsAll | src/dht_bootstrap.cpp:541-546 | Every entry of every bucket is gathered as often as it stands in the table. |
| Closest.ClosestAreClosest | src/dht_bootstrap.cpp:538-558 | The result has min(k, total) nodes of the table in order of the XOR of their id and the target as 160-bit numbers, and no node left out is closer than one returned. |
| Closest.ClosestExactly | src/dht_bootstrap.cpp:538-558 | Those conditions are exactly what may be returned. |
| Closest.ClosestUniqueUpToTies | src/dht_bootstrap.cpp:548-551 | Two possible results list the same ids in the same order. |
| Closest.FindClosestNodes | src/dht_bootstrap.cpp:538-558 | Gathering, sorting and cutting gives such a result. |
| Closest.GatherNodes | src/dht_bootstrap.cpp:541-546 | The two loops copy every bucket, in order. |
| Compact.NodesRoundTrip | src/dht_bootstrap.cpp:256-281 | Decoding encoded nodes gives them back, whatever incomplete entry follows. |
| Compact.NodesDecoded | src/dht_bootstrap.cpp:256-281 | Encoding decoded nodes gives the string back, less an incomplete last entry. |
| Compact.PeersRoundTrip | src/dht_bootstrap.cpp:592-605 | Decoding encoded peers as the tracker code does gives them back in order. |
| Compact.NodeLayout | src/dht_bootstrap.cpp:567-583 | Node k stands at byte 26 * k: id, address, and the port as a big-endian integer. |
| Compact.PeerLayout | src/dht_bootstrap.cpp:592-605 | Peer k stands at byte 6 * k: address, and the port as a big-endian integer. |
| Compact.PeersDecoded | src/peer_wire_protocol.cpp:845-864 | Encoding the peers of a string of whole entries gives it back; any other string gives no peers. |
| Compact.EncodeNodesLoop | src/dht_bootstrap.cpp:567-583 | The append loop writes 26 bytes a node, in order. |
| Compact.EncodePeersLoop | src/dht_bootstrap.cpp:592-605 | The append loop writes 6 bytes a peer, in order. |
| Compact.ParseCompactNodes | src/dht_bootstrap.cpp:256-281 | The decoded nodes are appended to those given. |
| Compact.ParseCompactPeers | src/peer_wire_protocol.cpp:845-864 | The peers of a string of whole entries, and none of any other string. |
| DhtMessages.FindNodeRequestParses | src/dht_bootstrap.cpp:228-238 | The request is read back as a find_node query with its transaction, sender and target. |
| DhtMessages.FindNodeReplyDecodes | src/dht_bootstrap.cpp:277-286 | For every transaction id the requester decodes the reply to the nodes it was built from. |
| DhtMessages.FindNodeReplySize | src/dht_bootstrap.cpp:507-517 | With the requester's transaction id the reply has at most 266 bytes. |
| DhtMessages.OnlyResponsesAreDecoded | src/dht_bootstrap.cpp:277-286 | Nodes are taken from a response only, and are those of its nodes string. |
| Dht.FindNodeAnswered | src/dht_bootstrap.cpp:494-528 | For every transaction id, table and target, the reply is a response to that transaction under the responder's own id, and decodes to its K closest nodes in order. |
| Dht.FindNodeAnsweredIff | src/dht_bootstrap.cpp:494-528 | find_node is answered exactly when the transaction and the target are strings. |
| Dht.FindNodeExchange | src/dht_bootstrap.cpp:494-519 | For every table and target, request and reply fit their buffers and the requester decodes the responder's K closest nodes in order. |
| Dht.StoreIsHistory | src/dht_bootstrap.cpp:693-704 | After every run of queries the peer store holds, for each hash, exactly its announcers in order. |
| Dht.GetPeersTellsHistory | src/dht_bootstrap.cpp:614-668 | The reply is a response to the transaction under the node's own id; it carries values exactly when the hash was announced, and they decode to the announcers; otherwise the nodes decode to the K closest. |
| Dht.GetPeersAnsweredIff | src/dht_bootstrap.cpp:614-668 | get_peers is answered exactly when the transaction and the hash are strings. |
| Dht.AnnounceAnswered | src/dht_bootstrap.cpp:693-729 | announce_peer is answered exactly when the transaction and the hash are strings and the hash has 20 bytes, with a response to that transaction under the node's own id. |
| Dht.DHTBootstrap.AddToRoutingTable | src/dht_bootstrap.cpp:338-377 | The new table is that of `Add`, and placement is kept. |
| Dht.DHTBootstrap.HandleFindNode | src/dht_bootstrap.cpp:494-528 | The reply sent, or none when the transaction or target is missing. |
| Dht.DHTBootstrap.HandleGetPeers | src/dht_bootstrap.cpp:614-668 | The reply sent for a known and for an unknown hash, or none when a field is missing. |
| Dht.DHTBootstrap.HandleAnnouncePeer | src/dht_bootstrap.cpp:693-729 | The sender is stored for the hash named even when no reply follows. |

## Left out

- Sockets, timeouts, logging, file reading, the tracker's HTTP exchange and SHA-1 itself: input and output.
- Bencode.ParseValue: reads the bytes left and gives the outcome `NegativeLength` where the source moves its position back; `BencodePositions.ReadValue` and the methods of `BencodeParser` follow the source there.
- BencodeParser.ParseValue: a first byte of 128 or more is taken not to be a digit, which the source leaves to `isdigit` on a signed char; running out of stack is not modelled, deep recursion ends in `Unfinished`.
- InfoHash.InfoHashFidelity: is about files in which no length is negative; where one moves the position back, a value need not be a slice of the file at all.
- Bitfield.UnpackCountdown: the source writes into an empty vector; the model grows it by each bit written.
- PeerConnection.Connection.ReadChunk: a stream with a length prefix of 2^32 - 4 or more, where the source copies past its buffer, is excluded; rate counters are left out.
- PeerConnection.Connection.SendChoke: the second lock of `buffer_mutex` is taken to succeed; `Locks` says what happens when it blocks.
- PeerConnection.Connection.SendUnchoke: the second lock of `buffer_mutex` is taken to succeed.
- PeerConnection.Connection.SendInterested: the second lock of `buffer_mutex` is taken to succeed.
- PeerConnection.Connection.SendNotInterested: the second lock of `buffer_mutex` is taken to succeed.
- TwoPeers.EveryRunConsistent: starts after the handshake with empty buffers, so bytes read during it are not modelled; sends are complete, so bytes dropped after a partial send are not modelled; the second lock of `buffer_mutex` is taken to succeed.
- TwoPeers.Settles: takes it that the end that sends has an output thread, as an end that connected has; for one that accepted see `TwoPeers.AcceptedEndIsMute`.
- TwoPeers.EveryRunSettles: takes it of both ends that they have an output thread.
- TwoPeers.AcceptedEndIsMute: takes the accepting end's connection as constructed, where the handshake writes through a null pointer first (`Handshake.AcceptedSocketHasNoConnection`).
- Handshake.TakenExactly: is about one read of the accepting end; the answer that the connecting end waits for, and the reads after it, are left out.
- PieceStore.PieceManager.GetPieceBlock: the sum of offset and size is taken in full integers, and a negative size is excluded where the source would copy a range that ends before it begins.
- PieceAssembly.CompleteIffAllArrived: takes pieces of `pieceLength` bytes each, the size the store gives every buffer; a last piece that is shorter arrives as the front of such a piece.
- PieceVerification.MarkedAreVerified: takes the piece store as constructed, which the source has commented out, with one digest for each piece.
- Compact.ParseCompactPeers: the form of a tracker's peers that is a list of dictionaries is left out.
- DhtMessages.OnlyResponsesAreDecoded: a reply in which a length is negative counts as none, where the source follows the position back and may find one.
- Dht.DHTBootstrap.HandleFindNode: a target shorter than 19 bytes, past whose terminating zero the source copies, is excluded.
- Dht.DHTBootstrap.HandleGetPeers: the same holds for a hash that no peer was announced for.
- RoutingTable.AddKeepsPlaced: nothing is said across buckets, because the bucket rule can put one node in two buckets; an IP address is four bytes and its dotted text is not modelled.
- Choking rounds (which look for choked peers among the unchoked), the choice of a peer in optimistic unchoking, `handleRequest`, ping replies, bootstrapping and magnet links: they would add only easy members.

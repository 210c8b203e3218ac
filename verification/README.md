# Verified models of the card-game server

This project models the hard parts of the server and its library in Dafny and proves what they
promise. `dafny verify dfyconfig.toml` checks all of it. Code that updates objects in place is
modelled by classes whose methods carry the loops; each method is tied to a function or predicate on
values, and the theorems are about those.

**The lock-free ring** (`MpmcRing.dfy`, `MpmcRingTheorems.dfy`, `MpmcCalls.dfy`). `push` and `pop` of the
multi-producer/multi-consumer queue are split into atomic steps (one load, compare-exchange, payload
access or store each) for any number of threads, any power-of-two capacity and any interleaving, with
weak compare-exchanges that may fail for no reason. One inductive invariant ties the cell statuses,
the two counters and the threads' positions together. From it follow delivery in order, a refinement
of an atomic bounded queue (linearizability at the counter exchange), rollback without trace,
exclusive payload access, a bound on the steps of every call, and exactly when a call succeeds.

**HTTP message framing** (`HttpBody.dfy`, `HttpParser.dfy`, `HttpFraming.dfy`, `HttpCuts.dfy`,
`HttpPersistence.dfy`, `HttpContentLength.dfy`). `HttpBody` is the byte-at-a-time machine from the end of the headers to the
end of the message; `HttpParser` is the real loop with its skips over whole spans and its body mark,
proved to do what the byte machine does. `HttpFraming` proves that cutting the input into calls does
not matter unless the input fails behind a chunk, that the parser follows section 4.4 of RFC 2616 (and
when it does not), and that it undoes the chunked coding of section 3.6.1 of RFC 2616. `HttpCuts` says
of every cutting exactly when it changes what is reported, `HttpPersistence` what the parser does behind a
message and when a stream ends inside one.

**URL splitting** (`HttpUrl.dfy`, `HttpUrlGrammar.dfy`). The URL and host machines in strict mode and the two loops that
record 16-bit fields: an accepted URL is split into ordered, disjoint parts and no byte is lost. The
grammar is written apart from the machines: the accepted URLs are exactly those that it writes, and each
is read back into the parts that it was written from.

**The TCP packet pipeline** (`TcpBuffer.dfy`, `TcpPacket.dfy`, `TcpReader.dfy`, `TcpConnection.dfy`). The
compacting buffer is a byte queue; what the framer makes of a stream does not depend on how it is cut; the
write event conserves every byte. The read event hands over every packet that was received unless the
connection ends in it; `TcpReader` is that event round by round on values, with the exact condition under
which packets can then be lost. The socket is an environment that takes or gives any legal number of bytes
and may end or fail.

**The card room** (`GameLedger.dfy`, `GameRoom.dfy`, `GameRoomTheorems.dfy`, `GameRoomPlayers.dfy`,
`GameLobby.dfy`, `Game13.dfy`). The room as a state machine over client messages, timer ticks and the
resets of room numbers that come from outside. `GameRoom` holds what each message does and the
invariant of every run, `Game13` the object with its loops, `GameRoomTheorems` what the runs
guarantee, `GameRoomPlayers` who sits there and when a game can still start, `GameLobby` all rooms
together with the resets that they cause in one another, `GameLedger` the settlement.

**Data structures and algorithms** (`AStar.dfy`, `Scheduler.dfy`, `Serialize.dfy`, `LruCache.dfy`,
`FastTravelMap.dfy`). `Common.dfy` holds what several components share.

## What the proofs found

- `http_parser.c` forgets the body bytes that the current call has marked when a chunk is not followed
  by CR, because that error leaves the loop without flushing the mark. So the reported body of such
  malformed input depends on the cuts (`CutCanMatter`), and of no other input: a cutting changes what is
  reported if and only if one of its cuts falls behind reported bytes of such a chunk (`CutsExactly`).
- Within its header limit `http_parser.c` finds the end of a message as section 4.4 of RFC 2616 says in
  all but two cases (`FollowsRfcExactly`): it reads a body behind a 1xx, 204 or 304 status line when the
  headers announce one (`BodyBehind204`), and it refuses a message with both a chunked coding and a
  Content-Length, of which the RFC ignores the latter (`BothFramingsRefused`). What the headers announce is
  the parser's own reading: the coding counts as chunked for the exact value "chunked" only. The
  multipart/byteranges rule of that section, which the parser does not know, is not part of the model.
- The digit loop of Content-Length passes over spaces, so "1 2" is read as 12 (`OneSpaceTwo`). Section 14.13 of
  RFC 2616 allows digits only; what is accepted is that if and only if no space stands between two digits
  (`PlainExactly`).
- `http_parser_parse_url` refuses a '#' directly behind an authority, and accepts the CONNECT form with an
  empty user part, a '?' and any number of '#' as well, since these set no field (`AcceptedExactly`,
  `MarksInConnect`).
- `http_should_keep_alive` compares the two version numbers one by one, so that HTTP/2.0 counts as older
  than HTTP/1.1 (`BehindNoBody`).
- The packet framer adds the header size in 32 bits. A header that announces exactly 2^32 - 4 bytes is
  never taken from the buffer, and for 2^32 - 4 and more, but no other lengths, a header is not taken
  whole (`StallsExactly`).
- The read event asks the socket before it parses what is buffered, and the end of the connection throws out
  of the loop; complete packets that are still buffered are then lost, while the same bytes in smaller pieces
  are all delivered (`CutLosesPacket`). Exactly the packets of what was received are handed over if and only if
  nothing complete is buffered at the end (`HandleRead`, `HandedUnlessLost`). Beforehand: for some behaviour of
  the socket a packet is lost if and only if the connection may end and the buffer can hold the end of one
  packet together with what comes behind it (`LosesExactly`, `FreshLosesExactly`); if the peer closes in order,
  that is the last missing byte of the last packet but one (or its header, if it has no content), the last
  packet and the unfinished rest (`ClosingIsTight`).
- `sendPacket` commits a packet twice if it fits the buffer twice and is not flushed at once
  (`SendPacket`, `SentTwice`). Beforehand a caller can be sure that it goes out once if and only if
  others are queued, it is empty, or it does not fit twice (`SureToGoOutOnce`).
- In `Game13::enterRoom` the seat is taken before the money is checked. A client that is turned away
  keeps the seat (`TurnedAwayBlocks`), and from then on the game never starts, whatever anybody does
  (`BlockedForGood`, `LostRoom`): coming again takes a second seat, and a ready flag or leaving reaches
  only one of them. A waiting room can still start if and only if nobody holds such a seat
  (`StartableExactly`).
- `Game13::abortGame` resets the room number of everyone who is online and holds a seat, without asking
  whether the number names that room. A client that kept a seat in one room can so lose its number while
  it sits ready in another, enter that one again, and play there on two seats (`DoubleSeat`). Within a
  room, the players of a game are distinct and recorded for as long as no seat that counts is hit by such
  a reset, and exactly so long (`TidyExactly`, `TidyRuns`). All along a run of the
  whole lobby every taken seat is the only one of a recorded client, if and only if the run turns nobody
  away (`KeptRunsExactly`); then every game is played by distinct recorded clients (`PlayedByDistinct`).
- In `Game13::calcRound` the grand-slam flag is cleared and never set, so it never doubles anything
  (`GrandSlam`). The settlement is that of the written rule if and only if the entries of grand slams alone
  would move nothing (`GrandSlamsMissing`); with one grand slam at most, if and only if it takes nothing
  from another seat (`GrandSlamExactly`, `GrandSlamLost`).
- `Deserialize` does not clear a `forward_list`: what it held stays behind what is read. Reading gives
  back what was written if and only if no such leftovers exist (`UndoesExactly`).
- `AStar` never improves a position that it has found, so its walk need not be the cheapest: a step that
  leads straight from start to goal is always taken, whatever it costs (`NotTheCheapest`). Where there is such a step, the walk is the
  cheapest if and only if no walk to the goal costs less than it. It always is if no step costs less than the
  heuristic gains by it, and how much more depends only on the position entered; for example with a constant
  heuristic and costs by the position entered (last clauses of `FindPath`).
- `doSchedule` is documented to return the number of coroutines; it returns how many it resumed. The two
  agree if and only if as many returned in the pass as were created under ids it had passed
  (`CountsExactly`); when nothing is created, if and only if none returns (`CountsPlainly`,
  `CountedButGone`).
- The header comment of `fast_travel_unordered_map.h` warns of a rehash inside its operations. In
  `erase` the only `operator[]` finds a key that is there, so the map does not grow while the iterator
  is in use (`FastTravelUnorderedMap.CloseGap`).
- The cache's `insert` can return true and keep nothing, namely if and only if `maxSize` is 0
  (`LimitedSizeUnorderedMapCache.Insert`).

## Model

| member | source | states |
|---|---|---|
| MpmcRing.InitInv | water/componet/lock_free_circular_queue_mm.h:45-48 | the freshly built ring, of any power up to 24 and with any number of threads, satisfies the invariant |
| MpmcRing.EndStep | water/componet/lock_free_circular_queue_mm.h:78-88 | a push whose counter exchange succeeds appends its item at position m_end while the ring is not full, and keeps the invariant |
| MpmcRing.BeginStep | water/componet/lock_free_circular_queue_mm.h:111-122 | a pop whose counter exchange succeeds takes a position that holds an item nobody has taken, and keeps the invariant |
| MpmcRing.StepInv | water/componet/lock_free_circular_queue_mm.h:60-125 | every atomic step of every thread, spurious failures included, keeps the invariant on statuses, counters and thread positions |
| MpmcRing.RunInv | water/componet/lock_free_circular_queue_mm.h:60-125 | so the invariant holds after every schedule |
| MpmcRing.StepTouchesOneCell | water/componet/lock_free_circular_queue_mm.h:60-125 | a step changes no cell that is being written or read by another thread |
| MpmcRingTheorems.DeliversInOrder | water/componet/lock_free_circular_queue_mm.h:60-125 | 0 <= m_end - m_begin <= maxSize, every position below m_begin was or is being returned exactly once with the value pushed there, and every position in [m_begin, m_end) still holds its value |
| MpmcRingTheorems.HistoryGrows | water/componet/lock_free_circular_queue_mm.h:60-125 | what was pushed or returned is never changed by later steps |
| MpmcRingTheorems.StepRefines | water/componet/lock_free_circular_queue_mm.h:60-125 | each step is one operation of an atomic bounded FIFO queue, namely at its counter exchange, or leaves that queue alone |
| MpmcRingTheorems.RefinesAtomicFifo | water/componet/lock_free_circular_queue_mm.h:60-125 | every run is a run of the atomic queue, and each popped value is the one that queue handed out |
| MpmcRingTheorems.FailedCallsMoveNothing | water/componet/lock_free_circular_queue_mm.h:65-66 | the counters count exactly the calls that returned true or are about to, so a call that returns false has moved neither |
| MpmcCalls.Capacity | water/componet/lock_free_circular_queue_mm.h:45-48 | a new ring is empty and has one cell for power 0 and twice as many for each power more, up to 24 |
| MpmcCalls.SoloPush | water/componet/lock_free_circular_queue_mm.h:60-92 | a push that nobody interferes with fills the cell at m_end and returns true if that is free, and otherwise leaves the ring as it was after five looks, wherever other threads stand |
| MpmcCalls.SoloPop | water/componet/lock_free_circular_queue_mm.h:94-125 | likewise a pop takes the cell at m_begin if that is full, and otherwise gives up after four looks |
| MpmcCalls.QuietPush | water/componet/lock_free_circular_queue_mm.h:60-92 | with no other call under way a push succeeds if and only if there is room, and then appends its item |
| MpmcCalls.QuietPop | water/componet/lock_free_circular_queue_mm.h:94-125 | with no other call under way a pop succeeds if and only if there is an item, and then returns the oldest one and empties its cell |
| MpmcCalls.FalseExactly | water/componet/lock_free_circular_queue_mm.h:62-125 | under any interleaving a call returns false if and only if it lost five tries as a push or four as a pop, each by a cell that was not free or not full or by a lost exchange |
| MpmcRingTheorems.RollbackRestoresCell | water/componet/lock_free_circular_queue_mm.h:75-83 | after a lost counter exchange the rollback leaves status and payload of the cell as they were before the claim, whatever others did in between |
| MpmcRingTheorems.PayloadAccessIsExclusive | water/componet/lock_free_circular_queue_mm.h:86-87 | no two threads are ever about to access the payload of one cell |
| MpmcRingTheorems.CallsAreBounded | water/componet/lock_free_circular_queue_mm.h:62-99 | a push is over after at most 29 own steps and a pop after 24, however the others interfere |
| MpmcRingTheorems.ReachableBudgets | water/componet/lock_free_circular_queue_mm.h:62-99 | the bound applies to every thread of every reachable ring |
| HttpBody.RunAppend | water/net/http-parser/http_parser.c:702-708 | reading a then b is reading a + b |
| HttpBody.AccumulateBounded | water/net/http-parser/http_parser.c:1917-1927 | a size digit that passes the overflow test does not wrap and never gives ULLONG_MAX |
| HttpBody.ByteWf | water/net/http-parser/http_parser.c:1780-1996 | every byte keeps what the assertions of the states demand: nread, the chunked flag, and a content length that is neither zero nor the sentinel in the body states |
| HttpBody.RunWf | water/net/http-parser/http_parser.c:1831-1832 | so those assertions hold on every run |
| HttpBody.RunIdentity | water/net/http-parser/http_parser.c:1826-1860 | skipping over k body bytes does what reading them one by one does, up to message_complete |
| HttpBody.RunChunkData | water/net/http-parser/http_parser.c:1959-1980 | the same for the data of a chunk |
| HttpBody.RunEof | water/net/http-parser/http_parser.c:1863-1867 | the same for a body that ends with the stream |
| HttpParser.HttpParser.AtHeadersDone | water/net/http-parser/http_parser.c:1780-1824 | leaves the parser as the byte machine does behind the headers |
| HttpParser.HttpParser.Switch | water/net/http-parser/http_parser.c:709-2002 | one switch on a byte makes the parser and reports the callbacks of the byte machine |
| HttpParser.HttpParser.SkipIdentity | water/net/http-parser/http_parser.c:1826-1860 | the skip keeps "handed over plus marked = reported by the byte machine" |
| HttpParser.HttpParser.SkipChunk | water/net/http-parser/http_parser.c:1959-1980 | likewise |
| HttpParser.HttpParser.SkipToEnd | water/net/http-parser/http_parser.c:1863-1867 | likewise |
| HttpParser.HttpParser.AtChunkEnd | water/net/http-parser/http_parser.c:1982-1988 | hands the marked bytes over at the CR behind a chunk, or fails and loses them |
| HttpParser.HttpParser.EndOfStream | water/net/http-parser/http_parser.c:655-674 | a call without bytes completes a message that runs to the end of the stream, is ignored between messages and is an error elsewhere |
| HttpParser.HttpParser.Execute | water/net/http-parser/http_parser.c:634-2035 | one call on any buffer does what the byte machine does, but for the marked bytes of a failed chunk end, and returns how many bytes it consumed |
| HttpFraming.CutsDoNotMatter | water/net/http-parser/http_parser.c:634-2035 | any cutting into non-empty calls gives the same final parser, and the same callbacks unless the input fails behind a chunk |
| HttpFraming.CutExactly | water/net/http-parser/http_parser.c:1982-1988 | one cut changes the callbacks if and only if it falls behind reported bytes of a chunk whose end is then not followed by CR |
| HttpCuts.CutsExactly | water/net/http-parser/http_parser.c:634-2035 | any list of non-empty calls reports what the single call reports if and only if no cut falls behind reported bytes of a chunk whose end is then not followed by CR |
| HttpFraming.CutCanMatter | water/net/http-parser/http_parser.c:1982-1988 | the smallest such input |
| HttpFraming.FollowsRfcExactly | water/net/http-parser/http_parser.c:1719-1824 | headers are accepted and the end of the message is found as section 4.4 of RFC 2616 says (but for multipart/byteranges), if and only if they keep within the header limit, do not announce both framings, and announce no body behind a 1xx, 204 or 304 status line; which error the other headers raise, and what is reported |
| HttpFraming.BothFramingsRefused | water/net/http-parser/http_parser.c:1727-1733 | a chunked request with any Content-Length: chunked to the RFC, an error to the parser |
| HttpFraming.BodyBehind204 | water/net/http-parser/http_parser.c:1780-1824 | a response with status 204 and length 1: the parser delivers the byte behind the headers as its body where the RFC knows none |
| HttpFraming.FixedLengthDelivered | water/net/http-parser/http_parser.c:1826-1876 | a message of known length delivers exactly its bytes and then one message_complete, for every cutting |
| HttpFraming.UntilCloseDelivered | water/net/http-parser/http_parser.c:1863-1867 | a message without length delivers every byte, and message_complete when the stream ends |
| HttpFraming.ReadSize | water/net/http-parser/http_parser.c:1878-1929 | a chunk size is read to its hexadecimal value if that is at most ULLONG_MAX - 16 and refused as invalid if it is more |
| HttpFraming.RunEncoded | water/net/http-parser/http_parser.c:1869-1996 | the byte machine reports header, data and end of every chunk, in order, and ends in a state for a new message |
| HttpFraming.DecodeUndoesEncode | water/net/http-parser/http_parser.c:1869-1996 | chunks coded by section 3.6.1 of RFC 2616 come out as exactly the concatenated chunks and one message_complete, for every cutting |
| HttpPersistence.BehindNoBody | water/net/http-parser/http_parser.c:440-470 | behind a message without body the parser awaits a request or a response if and only if both sides keep the connection (HTTP/1.1 without close, or an older version with keep-alive); else it accepts no more |
| HttpPersistence.BehindFixed | water/net/http-parser/http_parser.c:1826-1876 | the same behind a body of known length, for every cutting |
| HttpPersistence.BehindCoded | water/net/http-parser/http_parser.c:1719-1996 | the same behind a chunked body, for every cutting of headers end, chunks and trailer |
| HttpPersistence.NothingBehindTheLast | water/net/http-parser/http_parser.c:711-719 | behind the last message line ends are let through up to the header limit, and anything else is an error |
| HttpPersistence.FixedCutShort | water/net/http-parser/http_parser.c:655-674 | a stream that ends inside a body of known length is an error and reports nothing more |
| HttpPersistence.CodedCutShort | water/net/http-parser/http_parser.c:655-674 | so is one that ends anywhere inside a chunked message |
| HttpContentLength.OverflowTestIsExact | water/net/http-parser/http_parser.c:1521-1532 | the test on the old value rejects a digit if and only if the new value would exceed ULLONG_MAX - 6, and an accepted one never wraps |
| HttpContentLength.ReadContentLength | water/net/http-parser/http_parser.c:1410-1534 | a Content-Length value is accepted if and only if it is a numeral of at most ULLONG_MAX - 6 seen for the first time, and read to its value; and each error has its exact cause: no digit first, a byte behind the digits that is or is not allowed in a header, a repeated header, a number too large |
| HttpContentLength.ReadsWritten | water/net/http-parser/http_parser.c:1410-1534 | the decimal numeral of any number is read as that number up to ULLONG_MAX - 6 and is too large above |
| HttpContentLength.HeaderBytes | water/net/http-parser/http_parser.c:440-444 | the bytes that a header may not hold are the control characters but for tab and line end, and DEL |
| HttpContentLength.PlainExactly | water/net/http-parser/http_parser.c:1508-1534 | an accepted value is digits followed by white space if and only if no space stands between two digits; in any case it is read as its digits without the spaces |
| HttpContentLength.OneSpaceTwo | water/net/http-parser/http_parser.c:1508-1534 | "1 2" is accepted as 12 |
| HttpUrl.HostStep | water/net/http-parser/http_parser.c:2117-2197 | each byte of the authority keeps userinfo, host and port in place up to that byte |
| HttpUrl.ScanStep | water/net/http-parser/http_parser.c:486-632 | each byte of the URL keeps the recorded parts in place up to that byte |
| HttpUrl.ScanDone | water/net/http-parser/http_parser.c:2286-2388 | at the end of the buffer the whole URL is split |
| HttpUrl.PortRead | water/net/http-parser/http_parser.c:2375-2385 | the digits that strtoul reads are exactly the port field |
| HttpUrl.HttpParserUrl.ParseHost | water/net/http-parser/http_parser.c:2199-2279 | an authority is accepted if and only if the host machine ends behind it in a host, a bracketed host or a port; it is then split into userinfo, host and port inside the span found first, with port and userinfo present if and only if some byte belongs to them; other fields are kept |
| HttpUrl.HttpParserUrl.Scan | water/net/http-parser/http_parser.c:2294-2355 | the scan rejects if and only if the URL machine fails; otherwise the fields present are those that some byte belongs to, an '@' of the authority is noticed, and the split of the whole URL is left |
| HttpUrl.HttpParserUrl.ParseUrl | water/net/http-parser/http_parser.c:2286-2388 | fields of an accepted URL lie inside the buffer; below 65536 bytes they are the split of the URL and hold the text of each part, the port is the value of its digits and at most 65535, and a URL is accepted if and only if neither machine fails or ends amiss, a schema has a host, CONNECT has exactly host and port, and the port is at most 65535 |
| HttpUrl.LastChecks | water/net/http-parser/http_parser.c:2357-2388 | the checks behind the host loop decide exactly that |
| HttpUrl.SplitInOrder | water/net/http-parser/http_parser.c:2199-2388 | such a split has non-empty, disjoint fields in the order schema, userinfo, host, port, path, query, fragment; the middle three lie in the authority; every byte outside the fields is a delimiter |
| HttpUrlGrammar.WrittenIsRead | water/net/http-parser/http_parser.c:2117-2388 | what is written from a schema, a user part, a host or bracketed address with zone, a port, a path, a query and a fragment over their characters is read back into exactly these parts, and is accepted if and only if the port is at most 65535 and CONNECT has a port and no text but host and port |
| HttpUrlGrammar.AcceptedExactly | water/net/http-parser/http_parser.c:2286-2388 | nothing else is accepted |
| HttpUrlGrammar.MarksInConnect | water/net/http-parser/http_parser.c:2369-2373 | "@h:1?#" is accepted for CONNECT |
| TcpBuffer.ConnectionBuffer.constructor | water/net/buffered_connection.cpp:8-11 | a new buffer is empty |
| TcpBuffer.ConnectionBuffer.Full | water/net/buffered_connection.h:45-53 | true if and only if all bytes of the buffer are unread |
| TcpBuffer.ConnectionBuffer.Empty | water/net/buffered_connection.h:45-53 | true if and only if no byte is unread, although it looks at one index only |
| TcpBuffer.ConnectionBuffer.Readable | water/net/buffered_connection.cpp:13-19 | the span is the unread bytes |
| TcpBuffer.ConnectionBuffer.CommitRead | water/net/buffered_connection.cpp:21-36 | drops bytes from the front, or refuses and changes nothing |
| TcpBuffer.ConnectionBuffer.Writeable | water/net/buffered_connection.cpp:38-53 | compaction changes no unread byte; nothing is offered if and only if the whole capacity is unread; the room asked for is offered whenever there is that much |
| TcpBuffer.ConnectionBuffer.CommitWrite | water/net/buffered_connection.cpp:55-64 | appends what was laid down behind the unread bytes, or refuses and changes nothing |
| TcpPacket.TcpPacket.SetContent | water/net/tcp_packet.cpp:27-33 | the packet is the frame of the content |
| TcpPacket.TcpPacket.Append | water/net/packet.cpp:38-43 | appends |
| TcpPacket.TcpPacket.Pop | water/net/packet.cpp:45-57 | drops bytes from the front, all of them if there are not more |
| TcpPacket.TcpPacket.Copy | water/net/packet.cpp:59-64 | copies the front, as much as fits |
| TcpPacket.TcpPacket.Parse | water/net/tcp_packet.cpp:56-93 | appends exactly the bytes it says it used, which is nothing for a complete packet or less than a header |
| TcpPacket.ParseFills | water/net/tcp_packet.cpp:56-93 | as long as the announced length is possible, parsing leaves an exact packet or uses up the data or lacks a header |
| TcpPacket.StallsExactly | water/net/tcp_packet.cpp:68-71 | of a buffer that holds a header a fresh packet takes less than the header if and only if the announced length is 2^32 - 4 or more, and nothing if and only if it is exactly that |
| TcpPacket.SplitIsPartition | water/net/tcp_packet.cpp:51-93 | cutting a stream into packets loses nothing and leaves no complete packet |
| TcpPacket.SplitUndoesFrames | water/net/tcp_packet.cpp:27-93 | the frames of any contents below 2^32 - 4 bytes, with any incomplete rest behind them, are cut into exactly those frames |
| TcpPacket.SplitOfPrefix | water/net/tcp_packet.cpp:51-93 | of a stream of whole packets any part that has come in holds the first of them, in order, and no other packet |
| TcpPacket.FramesArriveInOrder | water/net/tcp_packet.cpp:27-93 | end to end: of framed contents any received part yields the first frames in order, and the whole stream yields exactly all of them |
| TcpConnection.Connection.TryRecv | water/net/buffered_connection.cpp:88-104 | received bytes join the unread ones; the socket is asked if and only if the buffer has room, and then all it gives is received; returns whether there is something to parse |
| TcpConnection.Connection.ParseOnce | base/tcp_connection_manager.cpp:216-239 | hands over one packet if one was completed and else none, keeps packets ++ partial packet ++ unread bytes = bytes received, and is the parsing of TcpReader |
| TcpConnection.Connection.HandleRead | base/tcp_connection_manager.cpp:210-242 | the read event ends and is a run of the rounds of TcpReader; what is handed over and the packets still buffered are the packets of the received stream, in order; so all of them are handed over, however the stream was cut, if and only if the connection does not end in it or nothing complete is buffered then; unless it ends, room for a header is left, so that the next event asks the socket again |
| TcpConnection.Connection.ReadRound | base/tcp_connection_manager.cpp:216-239 | one pass of its loop is one such round; it goes on if and only if a packet was handed over |
| TcpConnection.HandedSoFar | base/tcp_connection_manager.cpp:214-240 | of the received stream the packets handed over come first, then those still buffered; they are all of them if and only if nothing complete is buffered |
| TcpReader.EndsAtRest | base/tcp_connection_manager.cpp:210-242 | an event ends with the round that hands over nothing; then less than a header is buffered, and only while no packet is begun |
| TcpReader.HandedUnlessLost | base/tcp_connection_manager.cpp:210-242 | over any rounds, the first packets of what was received have been handed over, and all of them if and only if nothing complete is buffered |
| TcpReader.LossIsTight | base/tcp_connection_manager.cpp:216-239 | if a run ends with a complete packet buffered, the buffer can hold the end of one packet together with what must be behind it |
| TcpReader.Loses | base/tcp_connection_manager.cpp:216-239 | where it can, there are answers of the socket that lose a packet |
| TcpReader.LosesExactly | base/tcp_connection_manager.cpp:210-242 | from any state between two events: some behaviour of the socket loses a packet if and only if the connection may end and the buffer can hold that much |
| TcpReader.FreshLosesExactly | base/tcp_connection_manager.cpp:210-242 | in particular on a fresh connection, for everything that the peer will ever send |
| TcpReader.ClosingIsTight | water/net/buffered_connection.cpp:94-97 | for a peer that closes behind its last byte this is about the last two packets and the rest only |
| TcpReader.CutLosesPacket | base/tcp_connection_manager.cpp:216-239 | two packets of a byte: in one piece only the first is handed over before the close is seen, one by one both are |
| TcpConnection.Connection.TrySend | water/net/buffered_connection.cpp:73-86 | offers exactly the unread bytes to the socket if there are any, drops exactly what it took, and tells whether the buffer is empty |
| TcpConnection.Connection.FillFromQueue | base/tcp_connection_manager.cpp:254-269 | moves bytes from the queue to the buffer in order, ends, and makes progress unless the buffer has size 0; then it changes nothing |
| TcpConnection.Connection.HandleWrite | base/tcp_connection_manager.cpp:243-272 | the write event keeps socket ++ buffer ++ queue, for every pattern of partial sends; it ends with everything in the socket and the watch for room given up, or because the socket did not take all of the last offer; with a socket that takes what it is offered everything goes out |
| TcpConnection.Connection.SendPacket | base/tcp_connection_manager.cpp:403-452 | refused if and only if more than 512 packets wait, and then nothing changes; else the packet goes out once if and only if others wait, or it is empty, or it cannot be laid in twice, or the socket takes everything at once; it is offered at once if nothing waits and it fits, and what is left waits with the socket watched |
| TcpConnection.SureToGoOutOnce | base/tcp_connection_manager.cpp:403-452 | whatever the socket does the packet goes out once, if and only if others wait, or it is empty, or it cannot be laid in twice |
| TcpConnection.SentTwice | base/tcp_connection_manager.cpp:403-452 | a fresh connection and a packet of one byte: unless the socket takes it at once, something else goes out |
| GameLedger.TakenIsPaid | processes/lobby/game13.cpp:1227-1240 | what the winners take from the losers is what the losers pay |
| GameLedger.RoundIsZeroSum | processes/lobby/game13.cpp:1206-1243 | the prizes of a round add up to 0 for any number of players and any scoring |
| GameLedger.FinalIsZeroSum | processes/lobby/game13.cpp:754-770 | so do the totals over all rounds |
| GameLedger.SettleRound | processes/lobby/game13.cpp:1206-1243 | the loop computes these prizes |
| GameLedger.SettleWinner | processes/lobby/game13.cpp:1227-1240 | one winner takes from each of its losers what that loser pays, doubled for a gun |
| GameLedger.GrandSlam | processes/lobby/game13.cpp:1211-1225 | the grand-slam flag is never set |
| GameLedger.GrandSlamsMissing | processes/lobby/game13.cpp:1206-1243 | for any scoring, the prizes of the written rule are those of the code plus what the grand slams alone would move; so they agree if and only if that is nothing |
| GameLedger.GrandSlamExactly | processes/lobby/game13.cpp:1206-1243 | with one grand slam at most they agree if and only if it takes nothing from any other seat |
| GameLedger.GrandSlamLost | processes/lobby/game13.cpp:1213-1225 | three players, two guns of one point: 4 where the rule gives 8 |
| GameLedger.FinalCount | processes/lobby/game13.cpp:745-770 | the loop computes the totals: the rank of a seat is the sum of its prizes |
| GameLedger.SumAppend | processes/lobby/game13.cpp:768 | sums are taken entry by entry |
| GameLedger.OneWinMoves | processes/lobby/game13.cpp:1230-1240 | a single win moves its points from the loser to the winner, twice as many with a gun, and nothing else |
| GameRoom.EnteredInv | processes/lobby/game13.cpp:365-427 | entering keeps the invariant |
| GameRoom.RemovedInv | processes/lobby/game13.cpp:532-550 | removing a player from a waiting or finished room keeps the invariant |
| GameRoom.ReadyInv | processes/lobby/game13.cpp:214-277 | a ready flag keeps it, starting the first round or not |
| GameRoom.BroughtOutInv | processes/lobby/game13.cpp:279-356 | a hand laid keeps it, ending the round and starting the next or not |
| GameRoom.SettledInv | processes/lobby/game13.cpp:699-791 | settling adds one entry and keeps it |
| GameRoom.CountedInv | processes/lobby/game13.cpp:813-881 | counting the ballots leaves no ballot against and not all in favour, or ends the vote |
| GameRoom.GaveUpInv | processes/lobby/game13.cpp:98-170 | giving up keeps it in every phase |
| GameRoom.VotedInv | processes/lobby/game13.cpp:172-212 | a ballot keeps it |
| GameRoom.TickedInv | processes/lobby/game13.cpp:883-933 | a timer tick keeps it |
| GameRoom.StepInv | processes/lobby/game13.cpp:98-933 | every message, tick and reset from outside keeps the invariant |
| GameRoomTheorems.EveryRun | processes/lobby/game13.cpp:98-933 | in every reachable room with a seat, resets from outside included: waiting means no round and no settlement; play and vote have rounds - 1 settlements and a player on every seat, each sorting or done and one still sorting; the end has max(1, configured) settlements; rounds never exceed that; whoever is recorded in an open room holds a seat; ballots are only there in a vote, none against and not all in favour |
| GameRoomTheorems.FinalRanksCancel | processes/lobby/game13.cpp:742-786 | the final ranks of every run add up to 0 |
| GameRoomPlayers.EntersExactly | processes/lobby/game13.cpp:365-427 | a newcomer takes the first free seat of a waiting room and nothing else changes; it is recorded in the room if and only if it can pay |
| GameRoomPlayers.TurnedAwayBlocks | processes/lobby/game13.cpp:392-419 | a client that is turned away holds a seat that is not ready and that its ready flag cannot reach |
| GameRoomPlayers.BlockedForGood | processes/lobby/game13.cpp:98-427 | from then on the game never starts, over any run of any messages |
| GameRoomPlayers.StartableExactly | processes/lobby/game13.cpp:365-585 | a waiting room can be brought to start by some run if and only if nobody holds such a seat |
| GameRoomPlayers.LostRoom | processes/lobby/game13.cpp:392-419 | a new room with one seat, and one client that is turned away: no run starts a game |
| GameRoomPlayers.TidyExactly | processes/lobby/game13.cpp:98-933 | ready seats of a waiting room and all seats of a game belong to distinct recorded clients; a message keeps that if and only if it does not reset the number of a holder of such a seat |
| GameRoomPlayers.TidyRuns | processes/lobby/game13.cpp:98-933 | so it holds all along a run if and only if no such reset happens in it |
| GameRoomPlayers.TidyFromNew | processes/lobby/game13.cpp:32-933 | in particular from a new room on |
| GameRoomPlayers.TidyPlayers | processes/lobby/game13.cpp:98-933 | then the recorded clients of a game are exactly its players, and no client sits twice |
| GameLobby.LobbyStepInv | processes/lobby/game13.cpp:32-427 | creating a room, any message to any room with the resets it causes in the others, and the resets that follow when a room is gone, keep every room's invariant and nobody recorded in two rooms |
| GameLobby.LobbyRunInv | processes/lobby/game13.cpp:32-933 | so this holds in every reachable lobby |
| GameLobby.KeptExactly | processes/lobby/game13.cpp:98-933 | a message from a client or the timer leaves every taken seat the only one of a recorded client if and only if it turns nobody away |
| GameLobby.ActKeepsExactly | processes/lobby/game13.cpp:32-427 | the same over all rooms, resets by other rooms and resets behind a room that is gone included |
| GameLobby.KeptRunsExactly | processes/lobby/game13.cpp:32-933 | all along a run of the lobby every taken seat is the only one of a recorded client, if and only if the run turns nobody away |
| GameLobby.PlayedByDistinct | processes/lobby/game13.cpp:32-933 | after a run that turns nobody away every game is played by distinct clients, who are exactly those recorded in its room |
| GameLobby.DoubleSeat | processes/lobby/game13.cpp:552-565 | a run from the empty lobby that ends in a game with one client on two seats |
| GameRoomTheorems.StartsExactly | processes/lobby/game13.cpp:567-585 | the first round starts if and only if all are online and the message is the last ready flag or a tick with all ready, and then every seat is sorting; only the owner calls the game off |
| GameRoomTheorems.EndsExactly | processes/lobby/game13.cpp:699-791 | a round is settled with its last hand and only then, the next starts at once unless it was the last; giving up opens a vote, or ends a game of one |
| GameRoomTheorems.VoteEndsExactly | processes/lobby/game13.cpp:813-912 | a vote ends if and only if one says no, which resumes the same round with ballots cleared, or the last one says yes or 300 seconds are over, which closes the room |
| GameRoomTheorems.FinishedRoomCloses | processes/lobby/game13.cpp:915-925 | a finished room closes by a tick 120 seconds later and by nothing else |
| GameRoomTheorems.LeavesFinished | processes/lobby/game13.cpp:160-168 | who leaves a finished room gives up its first seat and is no longer recorded; the others keep their seats |
| GameRoomTheorems.ClosingReleases | processes/lobby/game13.cpp:552-565 | a closing room resets the numbers of exactly those who are online and hold a seat; whoever is still recorded in it was offline |
| GameRoomTheorems.OnlyOwnSeat | processes/lobby/game13.cpp:98-427 | unless the phase or the round changes, a message touches no seat but its sender's |
| GameRoomTheorems.SettlementsAreFinal | processes/lobby/game13.cpp:699-791 | over any run settled rounds stay as they are, rounds never count back, and a closed room stays closed |
| GameRoomTheorems.OneHandARound | processes/lobby/game13.cpp:306-351 | over any run every seat has laid at least one hand in each settled round and at most one more; until the room closes exactly one in each settled round and one more if it has laid in the running round |
| Game13Object.Game13.constructor | processes/lobby/game13.cpp:32-80 | a new room waits, with empty seats |
| Game13Object.Game13.IndexOf | processes/lobby/game13.cpp:793-811 | the first seat of a client, or the first empty one |
| Game13Object.Game13.AbortGame | processes/lobby/game13.cpp:552-565 | closes the room, empties the seats and resets the room number of every online client with a seat, whichever room it names |
| Game13Object.Game13.RemovePlayer | processes/lobby/game13.cpp:532-550 | clears the first seat of the client and nothing else |
| Game13Object.Game13.TryStartRound | processes/lobby/game13.cpp:567-697 | starts a round if and only if the phase allows it: all ready and online, just settled, or all done |
| Game13Object.Game13.TrySettleGame | processes/lobby/game13.cpp:699-791 | settles if and only if all hands are there, and announces the totals after the last round |
| Game13Object.Game13.CountBallots | processes/lobby/game13.cpp:822-838 | finds an opponent if and only if the first ballot against comes from a taken seat, else counts whether all are in favour |
| Game13Object.Game13.CheckAllVotes | processes/lobby/game13.cpp:813-881 | resumes play with all ballots cleared if there is an opponent, closes the room if all are in favour, else changes nothing |
| Game13Object.Game13.OnGiveUp | processes/lobby/game13.cpp:98-170 | in each phase: closes or leaves a waiting room, opens or joins a vote, leaves a finished room |
| Game13Object.Game13.OnBringOut | processes/lobby/game13.cpp:279-356 | accepts 13 cards of a sorting player only, and settles and starts again if that was the last hand |
| Game13Object.Game13.ClientOnline | processes/lobby/game13.cpp:429-440 | a client whose seat is gone is no longer recorded here; in a closed room nothing happens |
| Game13Object.Game13.TimerExec | processes/lobby/game13.cpp:883-933 | tries to start a waiting room and closes a vote of 300 seconds or a finished room of 120 |
| Game13Object.Game13.Receive | processes/lobby/game13.cpp:98-933 | the object follows the state machine over whole runs and keeps its invariant |
| AStar.WayLeads | water/componet/astar.h:144-147 | following the predecessors back gives a walk from the start without repetition whose cost is the recorded cost |
| AStar.Complete | water/componet/astar.h:98-142 | an empty frontier means that everything reachable was found and the goal is not reachable |
| AStar.Promise | water/componet/astar.h:98-147 | either way of ending the search gives the promised walk |
| AStar.Search.Pop | water/componet/astar.h:38-43 | takes an entry of least key |
| AStar.Search.Expand | water/componet/astar.h:108-141 | finds all enterable neighbours, keeps the tree of predecessors and the nearest position, and touches the frontier only for new positions |
| AStar.Search.FindPath | water/componet/astar.h:87-148 | ends; returns a walk of enterable neighbour steps without repetition, to the goal if that can be reached and else to a reachable position of least heuristic; its recorded cost is the sum of its step costs; a single step to the goal is always preferred, and then the walk is a cheapest one if and only if no walk to the goal costs less than that step; no walk to its end is cheaper if no step costs less than the heuristic gains by it and how much more depends only on the position entered |
| AStar.NoCheaperWalk | water/componet/astar.h:98-141 | under that condition, when the goal leaves the frontier no walk from the start to it costs less than recorded |
| AStar.PromiseCheapest | water/componet/astar.h:98-147 | so either way of ending the search gives a cheapest walk |
| AStar.NotTheCheapest | water/componet/astar.h:122-123 | three positions on which the search returns a walk of cost 10 where one of cost 2 exists |
| Scheduler.CreatedInv | water/coroutine/coroutine.cpp:53-71 | a new coroutine gets a free id and touches no other; the free list stays exactly the empty slots without repeats |
| Scheduler.SwitchInv | water/coroutine/coroutine.cpp:73-197 | resuming, yielding and returning keep each coroutine at its own id and at most one running |
| Scheduler.ResumedKeeps | water/coroutine/coroutine.cpp:94-143 | one resumption advances its coroutine by one slice and changes no other that is alive, whatever the slice creates |
| Scheduler.ResumedLoad | water/coroutine/coroutine.cpp:180-197 | a pass comes nearer its end with every resumption although the table may grow |
| Scheduler.PassResumesAll | water/coroutine/coroutine.cpp:173-199 | a pass resumes every coroutine that was live at its start exactly once, in the order of the ids, although others finish, are created and reuse ids |
| Scheduler.PassBalance | water/coroutine/coroutine.cpp:173-199 | resumptions plus coroutines created behind the pass equal coroutines live at its end plus those that returned |
| Scheduler.CountsExactly | water/coroutine/coroutine.h:24-25 | the returned number is the number of coroutines if and only if as many returned in the pass as were created under ids it had passed |
| Scheduler.CountsPlainly | water/coroutine/coroutine.h:24-25 | if the next slices create nothing, it is so if and only if each of them ends in a yield |
| Scheduler.CountedButGone | water/coroutine/coroutine.h:24-25 | one that returns at once is counted and gone |
| Scheduler.FairShares | water/coroutine/coroutine.cpp:173-199 | after m passes every coroutine has run exactly m slices under its own id, or is gone because it returned |
| Scheduler.Scheduler.Create | water/coroutine/coroutine.cpp:53-71 | the new coroutine gets the id that was freed first, or a new one, and is ready |
| Scheduler.Scheduler.Destroy | water/coroutine/coroutine.cpp:73-86 | empties the slot and frees its id last |
| Scheduler.Scheduler.YieldRunningCorot | water/coroutine/coroutine.cpp:145-171 | the running coroutine sleeps and nothing runs |
| Scheduler.Scheduler.ResumeCorot | water/coroutine/coroutine.cpp:94-143 | runs one slice; afterwards the coroutine sleeps with the rest of its script or, if it returned, its slot is empty and its id free |
| Scheduler.Scheduler.DoSchedule | water/coroutine/coroutine.cpp:173-199 | one pass, counting the resumptions; the count is the number of coroutines if and only if the balance of CountsExactly holds; refuses inside a coroutine |
| SerializeCodec.BytesBack | water/componet/serialize.h:225-237 | a length survives being written as bytes |
| SerializeCodec.InsertAscending | water/componet/serialize.h:480-495 | inserting the members of a set in their order at the end gives that set |
| SerializeCodec.RoundTrip | water/componet/serialize.h:95-507 | reading what was written gives the value merged with what the target held, for any bytes before and behind, and stops where the writer stopped |
| SerializeCodec.MergedExactly | water/componet/serialize.h:421-441 | the merge is the value if and only if no forward list in a surviving place held anything |
| SerializeCodec.UndoesExactly | water/componet/serialize.h:303-507 | reading gives back the value if and only if that is so, and always succeeds |
| SerializeCodec.DeserializeUndoesSerialize | water/componet/serialize.h:95-507 | a default-constructed object always gets the value back |
| SerializeCodec.Serialize.Put | water/componet/serialize.h:95-237 | appends the coding of the value and advances the position by its length |
| SerializeCodec.Serialize.PutContainer | water/componet/serialize.h:252-261 | the length, then the items in order |
| SerializeCodec.Deserialize.GetTrivial | water/componet/serialize.h:443-461 | overwrites as many bytes as the buffer still has |
| SerializeCodec.Deserialize.Get | water/componet/serialize.h:303-461 | reads what Decode says of any bytes, well formed or not, into any object |
| SerializeCodec.Deserialize.GetItems | water/componet/serialize.h:480-507 | reads the length and so many items, each into what was at its place |
| LruCache.RunAgrees | water/componet/limited_size_unordered_map_cache.h:71-131 | after any run the list is the map with time stamps that drops its oldest entry, in the order of last successful insert or find |
| LruCache.NeverTooLarge | water/componet/limited_size_unordered_map_cache.h:82-87 | the size never exceeds maxSize, and list and map agree on it |
| LruCache.EvictsLeastRecent | water/componet/limited_size_unordered_map_cache.h:82-87 | an insertion into a full cache drops exactly the entry with the oldest stamp |
| LruCache.LimitedSizeUnorderedMapCache.Insert | water/componet/limited_size_unordered_map_cache.h:71-90 | succeeds if and only if the key is new; the new node comes first and the last one goes if there are too many; after success the key is there if and only if maxSize is not 0; every key still leads to its only node |
| LruCache.LimitedSizeUnorderedMapCache.Find | water/componet/limited_size_unordered_map_cache.h:92-103 | moves the node to the front if and only if the key is there |
| LruCache.LimitedSizeUnorderedMapCache.Erase | water/componet/limited_size_unordered_map_cache.h:118-131 | removes exactly that key |
| FastTravelMap.ErasedContents | water/componet/fast_travel_unordered_map.h:115-140 | moving the last entry into the gap removes exactly the erased key from the map that the table stands for |
| FastTravelMap.ExaminesOnce | processes/gateway/anysdk_login_manager.cpp:130-142 | erasing while iterating examines every entry exactly once |
| FastTravelMap.SweepLeaves | processes/gateway/anysdk_login_manager.cpp:130-142 | and leaves exactly the unexpired entries |
| FastTravelMap.DropExpired | processes/gateway/anysdk_login_manager.cpp:130-142 | the loop does both |
| FastTravelMap.FastTravelUnorderedMap.Insert | water/componet/fast_travel_unordered_map.h:68-78 | adds the key if and only if it is new |
| FastTravelMap.FastTravelUnorderedMap.Find | water/componet/fast_travel_unordered_map.h:85-101 | finds the entry, or the end if there is none |
| FastTravelMap.FastTravelUnorderedMap.Erase | water/componet/fast_travel_unordered_map.h:115-140 | removes exactly that key; the last entry takes its place |
| FastTravelMap.FastTravelUnorderedMap.CloseGap | water/componet/fast_travel_unordered_map.h:127-139 | the entry that is moved is indexed already |
| FastTravelMap.FastTravelUnorderedMap.EraseAt | water/componet/fast_travel_unordered_map.h:103-113 | the same place then holds the next entry to look at |

## Left out

- Weak memory ordering and the 2^32 wrap of the ring's counters: memory is sequentially consistent and the counters are unbounded.
- Sockets, epoll, locks, timers and clocks as system calls: bytes, times and who is online are parameters or an environment that may do anything legal.
- HTTP request lines, status lines and header fields, upgrades and pausing: a byte that belongs to them stops the model with its own error value. Callbacks are set and return 0.
- The header-size counter at buffer cuts: only its use in the body states is modelled.
- Lenient mode of the URL parser.
- ParseUrl: URLs of 65536 bytes and more, whose fields keep only their low 16 bits; that they stay inside the buffer is proved for all lengths.
- `strtoul` behind the port field: it is modelled as the value of the leading digits.
- Packets shared between connections by a broadcast: each connection owns its packets.
- A send that fails with the connection: the socket is busy or takes bytes, and the exception that drops the connection with what is queued does not occur.
- A full `m_recvQueue` whose `push` fails: the queue accepts every packet.
- SetContent: contents of 2^32 - 4 bytes and more, for which the 32-bit size wraps and the code copies behind its buffer.
- HandleWrite: a send buffer of size 0 with something queued, on which the code never ends; FillFromQueue says that it changes nothing then.
- HandleRead: a stream that announces an impossible length is followed only up to 4 GiB.
- Cards, the deck and the pairwise scoring of hands: who beats whom for how much is a parameter.
- Money, names, notices and the packets that the room sends, except the final ranks.
- Rooms that are destroyed: a closed room stays in the model but does nothing, and its number can be reset from then on (`Forget`), not only once the room is erased. Room numbers are not used again, in the code neither.
- Rooms without seats are not in the model of the lobby, and a client that nobody has recorded yet has no room number, although `m_roomId` is not initialised.
- ClientOnline: only the reset of a stale room number; the packets sent to the client are not modelled.
- FindPath: costs are unbounded integers, step costs are not negative and the reachable positions are finite. Where no step leads straight to the goal, the condition for a cheapest walk is sufficient; other grids may give one too.
- Pop: among entries of equal key any may come first; the code takes the least position.
- Stack copying and `ucontext` switches: context calls succeed, and a resumed coroutine is a script that creates coroutines, calls the scheduler and then yields or returns. Scripts are finite, so a pass in which every new coroutine creates another does not occur.
- `run`, and resuming a coroutine from inside another, which the public header does not offer.
- Put: `unordered_*`, `multi*` and map containers; sets, lists, vectors, pairs, strings and forward lists are there. Lengths are 8 bytes, least significant first.
- Get: a string length that points behind the buffer, which the code does not check, ends the reading with no result; what an uninitialised trivial object holds is taken to be zeros.
- Iterators of the cache and the map are modelled by node numbers and positions; hash tables as finite maps.
- TinyXML, logging, configuration, redis and mysql adapters, code generators, the robot tool and the process glue.

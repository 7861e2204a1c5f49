# Verified models of the STM32Ethernet network stack

This project models the stateful core of an Arduino Ethernet library for STM32 boards and of the
HTTP programs that come with it, and proves what their steps keep over whole runs:

- the **response sender of the HTTP server** (`examples/LwipHttp/httpd.c`): `http_write` with its
  retries, the five-state tag scanner `http_send_data_ssi`, header strings, `http_send`. Whatever
  the stack refuses and however writes are cut, the wire holds a prefix of one pure function of the
  file, and the project says exactly when it ends up holding all of it;
- the **receiving side of the HTTP server** (same file): requests in any segments of any pbufs,
  POST accounting, reference counts, and every way a connection can end;
- the **zero-copy Ethernet driver** (`src/utility/ethernetif.cpp` on the ring of
  `src/utility/queue.c`): buffer conservation, ownership, reference counts and framing over
  unbounded runs of driver, DMA and stack steps, and the multicast hash filter;
- the **TCP receive stream** (`src/utility/stm32_eth.cpp`): current pbuf, offset, queue and byte
  counter as one byte stream;
- the **HTTP client parser** (`examples/LwipHttp/http_client.c`): independence of segmentation;
- the **file system image** (`makefsdata.c` printing, `fs.c` reading) and **URI parameters**: round
  trips.

Objects that the program updates in place are classes here; every method is proved against a
specification on values, and the laws are lemmas about those specifications. What the hardware,
the TCP stack and the application answer is arbitrary: a nondeterministic choice, or a parameter of
the step. Machine widths are written out where they matter: 32-bit counters, 16-bit lengths and
casts, the 16-bit byte count of the stream.

The code departs from what one would expect in these places. The models keep the code as it is, and
the project proves when it behaves and when it does not:

- `is_full` (queue.c:24) is one too low once the put counter has wrapped and the get counter has
  not. `RingQueue.FullTestExact` says exactly when the test is right. The receive ring never
  notices, because it never reaches that state (`RxPath.RxDriver.FreePbuf`). The transmit queue
  does: `TxPath.TxDriver.Output` says exactly which call goes wrong, and `TxPath.ReachOverflow` is
  a run that gets there.
- A tag of 65536 bytes or more, in a build without INCLUDE_TAG, is stepped over by its length
  modulo 65536 (httpd.c:1422, 1466). `ResponseRuns.DeliverFile`: a file is delivered whole exactly
  when no tag is that long; with INCLUDE_TAG that is every file (`SsiTags.TagsIncludedFit`).
- End of file is declared on `left == 0` even while an insert is being sent (httpd.c:1614).
  Whether that can cut a response short depends on the file alone: it must end in a tag with
  something to put in for it (`SsiTags.EndsInInsert`). For every other file a closed connection has
  delivered the whole response, whatever the send buffers and refusals
  (`HttpResponse.HttpState.Send`, `ResponseRuns.AnyRun`), and for every file that does end so there
  is a run that closes without the end of the insert (`ResponseRuns.Truncate`).
- A multi-byte read that finishes a pbuf while another is queued steps over bytes of the next one
  (stm32_eth.cpp:686, 691). `RecvStream.PbufData.GetData`: the stream stays exact exactly when the
  read is of at most one byte or does not cross. The byte count of the stream has 16 bits, and
  arrivals can take it past them (`RecvStream.CountOverflows`).
- A Content-Length in a POST request is accepted exactly when it has at most eight digits (the end
  of the line must lie in the first ten bytes) and is not a zero of several digits
  (`HttpPostHead.PostLengthOfDigits`); the constant in httpd.c:1796 speaks of ten.
- An HTTP/0.9 request is answered differently when a space follows in the same segment
  (`HttpRequest.GetSettled` gives the exact case).
- `fix_filename_for_c` (makefsdata.c:707, 728) has room for one digit behind the path. The eleventh
  file whose path gives the same C name is printed past the end of the block, and so are long paths
  past the 256 bytes of the name. `FsImage.FixFilename` says exactly when, and
  `FsImage.EleventhOverruns` is an image of eleven files for which it happens.
- A blank line ahead of the second space of a POST line does not end the headers, and the server
  goes on waiting (`HttpRequest.Verdicts`).
- `HASH_BITS`, the number of bits of the hash, is also passed as the length of the address
  (ethernetif.cpp:824); both are six. `HashFilter.Hash` keeps that.
- An accepted POST is never finished when the connection is lost, because `http_err` frees the state
  without a call (httpd.c:2424-2435). In every other ending it is finished exactly once
  (`HttpRequestRuns.Run`).

## Files

| file | models |
|---|---|
| Prelude.dfy, Bytes.dfy | machine types, searching and reading numbers in text |
| Queue.dfy | queue.c |
| SsiTags.dfy, SsiScan.dfy, SsiDocument.dfy | the tag grammar and the document it defines; the scanner's states as statements about the matcher; the document in plain terms |
| Pcb.dfy, FileSender.dfy, HttpState.dfy, ResponseRuns.dfy | the response sender, and whole responses |
| UriParams.dfy | parameter extraction |
| RequestParse.dfy, RequestPost.dfy | what is made of request bytes |
| PbufRefs.dfy, RequestConn.dfy, RequestRuns.dfy | pbuf references, the receiving connection, whole requests |
| RxDriver.dfy, TxFraming.dfy, TxDriver.dfy, EthernetCrc.dfy, HashFilter.dfy | the Ethernet driver |
| RecvStream.dfy | the TCP receive stream |
| HttpClient.dfy | the HTTP client |
| HexText.dfy, FsImage.dfy | the file system image |

## Model

| member | source | states |
|---|---|---|
| RingQueue.FullTestExact | src/utility/queue.c:22-26 | for every pair of counters a queue can hold, the full test is right exactly when the queue is below capacity or the put counter is not the one that has wrapped |
| RingQueue.FullTestMissesWrappedQueue | src/utility/queue.c:24 | a full queue of four for which the test finds room |
| RingQueue.AroundPut | src/utility/queue.c:36-38 | writing the slot behind the last item appends; with every slot taken it also replaces the first item |
| RingQueue.Queue.constructor | src/utility/queue.h:26-32 | an initialised queue is empty, with consistent cursors |
| RingQueue.Queue.Put | src/utility/queue.c:32-40 | appends below capacity, refuses at capacity unless the counters have wrapped, and what the contents are in that case |
| RingQueue.Queue.Get | src/utility/queue.c:42-49 | takes the oldest item and fails exactly when empty |
| RingQueue.Replay | src/utility/queue.c:22-49 | any run of puts and gets that ends before the put counter wraps agrees, reply by reply, with a bounded first-in first-out queue |
| SsiTags.WrittenTagIsFound | examples/LwipHttp/httpd.c:1262-1407 | a tag written as lead-in, blanks, name, blanks, lead-out is found wherever it stands, with its name and end |
| SsiTags.FoundTagIsWritten | examples/LwipHttp/httpd.c:1262-1407 | the matcher finds a tag of some name and end exactly when the text in between is a written tag of that name |
| SsiTags.PlainText | examples/LwipHttp/httpd.c:1262-1283 | text without the first byte of a lead-in goes out as it is |
| SsiTags.DeliverableIsPrefix | examples/LwipHttp/httpd.c:1416-1428 | what can be delivered is a prefix of the expanded document, and all of it when every tag fits 16 bits |
| SsiTags.TagsIncludedFit | examples/LwipHttp/httpd.c:1416-1428 | in a build that includes tags every tag of every file fits |
| SsiTags.TagPassed | examples/LwipHttp/httpd.c:1377-1407 | behind a tag, the rest of the file decides what insert it ends in, and the tag and the rest whether the tags fit |
| SsiTags.InsertComes | examples/LwipHttp/httpd.c:1377-1407 | from anywhere in a file that ends in an insert, at least that insert is still to be delivered, and the bytes of the file where tags are included |
| SsiDocument.TagReplaced | examples/LwipHttp/httpd.c:758-835 | in any file, what a client gets for a tag of either kind, wherever it stands and whatever follows: what the handler answers for its name, or the unknown-tag message with the name cut to fit, behind the tag itself in a build with INCLUDE_TAG; the rest of the file is treated as if it stood alone |
| SsiDocument.OneTagReplaced | examples/LwipHttp/httpd.c:758-835 | the whole text a client gets for a file with one tag, and that it fits exactly with INCLUDE_TAG or up to 65535 bytes |
| SsiDocument.MatchBehind | examples/LwipHttp/httpd.c:1262-1407 | what is matched does not depend on the text ahead of it |
| SsiDocument.NameBytes | examples/LwipHttp/httpd.c:1310-1407 | which bytes are blanks, and which may stand in the names of the two kinds of tags |
| SsiDocument.TagsWritten | examples/LwipHttp/httpd.c:1262-1407 | how the two kinds of tags are written |
| SsiScan.LeadInRuledOut | examples/LwipHttp/httpd.c:1284-1308 | a byte that breaks a lead-in settles the match as no tag, with scanning going on behind that byte |
| SsiScan.NameMissing | examples/LwipHttp/httpd.c:1310-1362 | a lead-out right after the lead-in is no tag |
| SsiScan.NameTooLong | examples/LwipHttp/httpd.c:1310-1362 | a name longer than the limit is no tag |
| SsiScan.NameTaken | examples/LwipHttp/httpd.c:1310-1362 | the first byte of a lead-out ends the name |
| SsiScan.LeadOutRuledOut | examples/LwipHttp/httpd.c:1364-1442 | a byte that breaks a lead-out settles the match as no tag |
| SsiScan.LeadOutTaken | examples/LwipHttp/httpd.c:1364-1407 | the last byte of a lead-out completes a tag that ends there, with the collected name |
| SsiScan.OpenAtEnd | examples/LwipHttp/httpd.c:1519-1549 | a tag still open at the end of the file is plain text |
| TcpOut.Pcb.Write | examples/LwipHttp/httpd.c:555-560 | the stack takes all of the bytes or none |
| TcpOut.Pcb.HttpWrite | examples/LwipHttp/httpd.c:532-586 | the retry loop ends, with a prefix of the request no longer than the send buffer on the wire, all of it when nothing is short, nothing on an error; when the stack takes writes up to some length, the prefix is the first of the halves that fits |
| TcpOut.FittingMeans | examples/LwipHttp/httpd.c:555-571 | the first of the halves that fits, and when there is none of two bytes or more |
| FileSending.FileSender.GetTagInsert | examples/LwipHttp/httpd.c:758-835 | the insert is the handler's text for the name as a C string, or the unknown-tag message with the name cut to fit |
| FileSending.FileSender.ScanText | examples/LwipHttp/httpd.c:1262-1283 | one byte of plain text: what is still to be sent does not change, the invariant is kept |
| FileSending.FileSender.RuleOut | examples/LwipHttp/httpd.c:1284-1308 | giving a tag up turns it back into text: what is still to be sent does not change |
| FileSending.FileSender.ScanLeadIn | examples/LwipHttp/httpd.c:1284-1308 | the same for a lead-in byte |
| FileSending.FileSender.ScanName | examples/LwipHttp/httpd.c:1310-1362 | the same for a name byte |
| FileSending.FileSender.ScanLeadOut | examples/LwipHttp/httpd.c:1364-1442 | the same for a lead-out byte, with the cursor not past the tag when it is completed |
| FileSending.FileSender.CompleteTag | examples/LwipHttp/httpd.c:1377-1407 | a completed tag puts its insert in front of what is still to be sent, in place of the tag when tags are not included |
| FileSending.FileSender.SendBeforeTag | examples/LwipHttp/httpd.c:1408-1428 | file text ahead of the insert: bytes move from what is pending to the wire, also when the tag itself is stepped over |
| FileSending.FileSender.SendTag | examples/LwipHttp/httpd.c:1444-1516 | one round of the sending state moves pending bytes to the wire or makes progress in a terminating measure; the assertion on the tag start fails only for a tag that is too long |
| FileSending.FileSender.Round | examples/LwipHttp/httpd.c:1253-1516 | one round of the scanning loop: bytes move from what is pending to the wire, and every round but one that stops at the assertion lowers a terminating measure |
| FileSending.FileSender.SendDataSsi | examples/LwipHttp/httpd.c:1218-1549 | for every state between calls and every outcome of the writes, wire and pending text together never change, the invariant on cursors and counters is kept, the loop ends, and with memory to spare a call either fills the send buffer or finishes the file |
| FileSending.FileSender.SendDataNonSsi | examples/LwipHttp/httpd.c:1191-1210 | the same for a plain file |
| FileSending.FileSender.PendingAtEnd | examples/LwipHttp/httpd.c:1614 | with no file byte left, nothing is pending but the rest of an insert |
| FileSending.FileSender.DueAtEnd | examples/LwipHttp/httpd.c:1614 | with no file byte left every tag has fitted, and an insert is due only if the file ends in one |
| FileSending.FileSender.InsertToCome | examples/LwipHttp/httpd.c:1377-1516 | while such a file has unsent bytes, its last insert is still to be sent |
| FileSending.FileSender.DoneIsComplete | examples/LwipHttp/httpd.c:1519-1549 | once nothing is left to parse or send and no tag is being sent, every tag fitted and nothing is pending |
| HttpResponse.HttpState.constructor | examples/LwipHttp/httpd.c:2304-2390 | a new response: everything is pending, and the header strings that will be sent are known |
| HttpResponse.HttpState.GetContentLength | examples/LwipHttp/httpd.c:947-987 | a length is added exactly for plain persistent files whose length has at most nine digits |
| HttpResponse.HttpState.SendHeaders | examples/LwipHttp/httpd.c:997-1082 | any number of calls sends the non-NULL strings in order, byte by byte where the last call stopped, and no body byte before them |
| HttpResponse.HttpState.HeaderRound | examples/LwipHttp/httpd.c:1010-1060 | one round of the header loop: a non-empty prefix of the current string goes out where there is room and memory, and the next string is due when it is finished |
| HttpResponse.HttpState.NextHeader | examples/LwipHttp/httpd.c:1049-1059 | NULL strings are passed over without changing what is pending |
| HttpResponse.HeaderOrder | examples/LwipHttp/httpd.c:947-1082 | the header strings in order: status, server, the length if one is added, content type |
| HttpResponse.HttpState.Send | examples/LwipHttp/httpd.c:1558-1624 | wire and pending bytes are always the response; a call with room and memory makes progress or closes; what is answered after headers, body or the end; when the connection is closed, the wire holds the whole response for every file that does not end in an insert, and otherwise exactly when no insert was due |
| ResponseRuns.AnyRun | examples/LwipHttp/httpd.c:1558-1624 | after any calls with any send buffer sizes and refusals, the wire is a prefix of headers and document, headers first; it stops early only when closed or at a tag that does not fit; with tags that fit, the calls that had room and memory are no more than the bytes sent and the header strings finished; and when closed it is everything unless the file ends in an insert |
| ResponseRuns.ResponseIsPrefix | examples/LwipHttp/httpd.c:1558-1624 | the response is a prefix of headers and expanded document, and all of it when the tags fit |
| ResponseRuns.SendFile | examples/LwipHttp/httpd.c:947-1082 | a plain file over any send buffers and refusals, in plain terms: the client gets a prefix of status, server, length, content type and file, all of it when closed; the length is there exactly for a persistent file below 1,000,000,000 bytes |
| ResponseRuns.DeliverFile | examples/LwipHttp/httpd.c:1218-1549 | with memory to spare, enough calls of any buffer sizes deliver the expanded document exactly when every tag fits |
| ResponseRuns.DeliverTag | examples/LwipHttp/httpd.c:1218-1549 | a file with one tag that fits arrives with the handler's answer, or the message, in place of the tag or behind it, through send buffers of any sizes |
| ResponseRuns.LongTagDoesNotFit | examples/LwipHttp/httpd.c:1422 | of tags written with any number of blanks, exactly those of 65536 bytes or more do not fit a build without INCLUDE_TAG |
| ResponseRuns.Truncate | examples/LwipHttp/httpd.c:1614 | every file that ends in an insert and whose tags fit is closed without the end of it by a run with send buffers of one byte; a refusal is needed only for a one-byte insert where tags are not included |
| ResponseRuns.CutShort | examples/LwipHttp/httpd.c:1614 | without any refusal: a file that is a single tag with a one-byte insert, and a send buffer that holds just the tag, is closed after one call with the tag on the wire and the insert missing |
| ResponseRuns.TruncatedResponse | examples/LwipHttp/httpd.c:1614 | such a file exists |
| UriParams.ParamsOfJoined | examples/LwipHttp/httpd.c:687-744 | names and values without ampersands, names without equals signs, and no space in the last one: joined and followed by a space or nothing, they are read back as they were, in order, as many as there is room for |
| UriParams.JoinedOfParams | examples/LwipHttp/httpd.c:687-744 | the other way round: the parameters of any text, printed again, are that text up to a space behind its last ampersand |
| UriParams.StringAtMeans | examples/LwipHttp/httpd.c:731-740 | what stands at a stored pointer is the C string read from there |
| UriParams.SplitPair | examples/LwipHttp/httpd.c:731-740 | the first equals sign becomes the end of the name, in place, and only the string itself is touched |
| UriParams.NextParam | examples/LwipHttp/httpd.c:702-740 | one parameter is cut off at its ampersand, or at its space when it is the last; its strings stand where the pointers say |
| UriParams.ExtractUriParameters | examples/LwipHttp/httpd.c:687-744 | the in-place loop leaves, at the stored pointers, exactly the parameters of the text as a value, and never leaves the string |
| UriParams.ExtractPrinted | examples/LwipHttp/httpd.c:687-744 | the round trip in place: parameters printed into a buffer and extracted are the C strings read at the stored pointers; only one empty parameter with nothing behind it gives none, and nothing beyond the text is touched |
| HttpRequest.Verdicts | examples/LwipHttp/httpd.c:2008-2107 | exactly which requests are of an unsupported method, when a GET is acted on, and for a POST without its second space or without a blank line behind it whether it is bad, waits, or waits with its line |
| HttpRequest.UnsupportedStays | examples/LwipHttp/httpd.c:2020-2040 | a request of an unsupported method stays one, whatever follows |
| HttpRequest.GetWaitsForBlankLine | examples/LwipHttp/httpd.c:2008-2104 | a GET request is not acted on before its blank line is there, and then it is, with the URI up to the second space or as HTTP/0.9 |
| HttpRequest.GetLineParsed | examples/LwipHttp/httpd.c:2042-2104 | with both spaces in the request line the URI is the one between them, whatever follows |
| HttpRequest.ShortFormParsed | examples/LwipHttp/httpd.c:2044-2055 | without a second space a GET is one of HTTP/0.9, for what stands ahead of the end of the line |
| HttpRequest.GetSettled | examples/LwipHttp/httpd.c:2042-2104 | bytes behind the blank line change what is asked for exactly when there was no space yet and they bring one |
| HttpRequest.ShortFormUnsettled | examples/LwipHttp/httpd.c:2044-2055 | an HTTP/0.9 request whose answer depends on one byte more |
| HttpPostHead.PostLengthOfDigits | examples/LwipHttp/httpd.c:1795-1812 | exactly which lengths are accepted, and that the value is the one written |
| Bytes.NumberOfDigits | examples/LwipHttp/httpd.c:1805 | the value of digits does not depend on what follows, and has no more digits than were written |
| Bytes.NumberGrows | examples/LwipHttp/httpd.c:1805 | numbers are decimal: one more digit counts once, and everything before it ten times |
| Bytes.DigitsRead | examples/LwipHttp/httpd.c:962-963 | a number that is printed is read as itself, and printed without leading zeros |
| Bytes.DigitsWritten | examples/LwipHttp/httpd.c:962-963 | digits without leading zeros are the ones printed for their value |
| Bytes.AtoiRead | examples/LwipHttp/httpd.c:1805 | atoi reads blanks, a sign and a number up to what is no digit, with the sign's meaning |
| HttpPostHead.HeadersRead | examples/LwipHttp/httpd.c:1790-1822 | headers followed by any body: the first Content-Length decides, and the headers handed on end at the first blank line |
| HttpPostHead.PostParsed | examples/LwipHttp/httpd.c:1784-1822 | a complete POST head gives the same offer to the application however much of the body came with it, or is bad exactly when its length is not accepted |
| HttpPostHead.PostOfLength | examples/LwipHttp/httpd.c:1784-1822 | in plain numbers: a length written without leading zeros is offered as the number it is below 100,000,000, and makes the request bad from there on |
| HttpPostHead.PostWithoutLength | examples/LwipHttp/httpd.c:1790-1868 | a complete head without a Content-Length is bad |
| HttpPostHead.NotALength | examples/LwipHttp/httpd.c:1803-1812 | so is a length that is negative or starts with something other than a number |
| HttpPostHead.PostWaits | examples/LwipHttp/httpd.c:2008-2107 | every proper part of a POST head makes the server wait |
| PbufRefs.FreedRun | examples/LwipHttp/httpd.c:2569-2575 | freeing a chain goes as far as the first pbuf that someone else holds |
| PbufRefs.Balanced | examples/LwipHttp/httpd.c:1983-1992 | after the list and the newest chain have been freed, exactly the pbufs handed to the application remain, once each, wherever in the list the body starts |
| HttpReceive.FinishedOnce | examples/LwipHttp/httpd.c:595-622 | in every call history that follows the protocol, accepted POSTs and finish calls agree but for the one that is under way |
| HttpReceive.BodySeen | examples/LwipHttp/httpd.c:1728-1768 | handing over body bytes either leaves the POST under way with those bytes added, or finishes it, exactly when the data is refused or complete |
| HttpReceive.AnswerSeen | examples/LwipHttp/httpd.c:1784-1868 | what the application has seen after each possible answer to a request |
| HttpReceive.AnswerCalls | examples/LwipHttp/httpd.c:1784-1868 | the calls for every verdict one by one: pages 400 and 501, look-ups, a POST refused, accepted, refused later, complete or under way |
| HttpReceive.BodyStep | examples/LwipHttp/httpd.c:1728-1768 | the counter of missing bytes stays in step with what the application has got |
| HttpReceive.AnswerStep | examples/LwipHttp/httpd.c:1784-1868 | so does acting on a request, whatever the verdict |
| HttpReceive.HeaderHidden | examples/LwipHttp/httpd.c:1836-1848 | what is handed over after the header has been hidden are the bytes behind the head |
| HttpReceive.GiveBack | examples/LwipHttp/httpd.c:2563-2575 | after a request has been acted on, every reference is accounted for |
| HttpReceive.Connection.PostRxPbuf | examples/LwipHttp/httpd.c:1728-1768 | the calls made, one by one, and the bytes still missing, for data that is too short, exact, too long, refused or absent |
| HttpReceive.Connection.FindBody | examples/LwipHttp/httpd.c:1831-1835 | the loop finds the pbuf and the place where the body starts |
| HttpReceive.Connection.PostAccepted | examples/LwipHttp/httpd.c:1822-1858 | an accepted POST: what came with the head is handed over with a reference of its own |
| HttpReceive.Connection.ParseRequest | examples/LwipHttp/httpd.c:1951-2123 | the calls, the counter and the references after a chain has joined the list, for every verdict and both sides of the list's limits |
| HttpReceive.Connection.RecvBody | examples/LwipHttp/httpd.c:2546-2558 | data for a POST under way goes to the application whole and in order |
| HttpReceive.Connection.RecvRequest | examples/LwipHttp/httpd.c:2559-2588 | a chain of a request: the server waits with the list kept, or acts with the list freed; the invariant on references and accounting is kept |
| HttpReceive.Connection.Recv | examples/LwipHttp/httpd.c:2515-2596 | every chain, in every state, has the effect on list, counter, response and calls that the pure step gives, and leaves references and POST accounting valid |
| HttpReceive.Connection.CloseConn | examples/LwipHttp/httpd.c:595-635 | a POST under way is told of the end exactly when bytes are missing |
| HttpReceive.Connection.Fail | examples/LwipHttp/httpd.c:2423-2435 | a lost connection tells the application nothing: a POST stays unfinished exactly when bytes were missing |
| HttpRequestRuns.Run | examples/LwipHttp/httpd.c:2515-2596 | over any callbacks and answers the connection is where the pure steps lead, call by call; each accepted POST is finished at most once, and exactly once unless the connection is still open or was lost, which is told apart by the events |
| HttpRequestRuns.ReceiveGet | examples/LwipHttp/httpd.c:1951-2123 | a GET request in any segments within the limits: nothing happens before the blank line, then one look-up of the URI between the spaces, and no pbuf is held any more |
| HttpRequestRuns.AnswerFirst | examples/LwipHttp/httpd.c:1951-2123 | a first chain without a line waits within the list's limits; an unsupported method gets page 501, a POST line without a second space or a list beyond its limits page 400; what is then open, closed and still held |
| HttpRequestRuns.ReceivePost | examples/LwipHttp/httpd.c:1784-1868 | a POST in any segments: one offer with URI, headers and the length as a plain number, then the bytes behind the head in order until there are as many as announced, then the end and the look-up of what is to be sent; the connection is closed exactly when all are there and sending the response ends it |
| RxPath.ConservedMeans | src/utility/ethernetif.cpp:199-204 | conservation buffer by buffer: no buffer in two places, none lost |
| RxPath.SwapConserves | src/utility/ethernetif.cpp:514-524 | exchanging a filled buffer for a spare one keeps conservation |
| RxPath.FreeConserves | src/utility/ethernetif.cpp:122-133 | so does freeing any held pbuf |
| RxPath.RxDriver.constructor | src/utility/ethernetif.cpp:191-230 | after initialisation every buffer is in a descriptor or spare |
| RxPath.RxDriver.Input | src/utility/ethernetif.cpp:468-547 | a reported frame is refused as bad exactly when it is empty, longer than 1524 bytes or not in one descriptor; any other is handed over exactly when a pbuf and a spare buffer are left, in its own buffer, with its length, and replaced by the oldest spare one; every other way out moves no buffer; in all cases the descriptors go back to the engine; the pool is never empty |
| RxPath.RxDriver.TakeFrame | src/utility/ethernetif.cpp:485-525 | the same for the middle part |
| RxPath.RxDriver.ReleaseToDma | src/utility/ethernetif.cpp:527-537 | exactly the descriptors of the frame get the own bit, and nothing else changes |
| RxPath.RxDriver.FreePbuf | src/utility/ethernetif.cpp:122-133 | the spare ring is never full, even across counter wrap, and gets the buffer at its end |
| RxPath.RxDriver.DmaFill | src/utility/ethernetif.cpp:480-483 | the engine writes the buffer of its descriptor and no other, so none that the stack holds |
| RxPath.RxDriver.TakeStep | src/utility/ethernetif.cpp:468-578 | one step with everything that is reported to it: what is answered, and what descriptors, buffers, held pbufs and spare ring are afterwards |
| RxPath.RxDriver.Run | src/utility/ethernetif.cpp:468-578 | any run of frames, polls with any reports and frees, answer by answer; the stack holds what it was handed and has not freed, each with the bytes that were handed over, and the spare ring is first in, first out |
| TxFraming.RegroupMarked | src/utility/ethernetif.cpp:311-336 | the first and last bits carry the chains: reading marked descriptors gives the chains back |
| TxFraming.RegroupPart | src/utility/ethernetif.cpp:311-336 | reading any part of them gives only chains that were sent |
| TxFraming.MarkedAt | src/utility/ethernetif.cpp:311-336 | which entry of a chain has which bits |
| TxPath.TxDriver.constructor | src/utility/ethernetif.cpp:191-230 | an idle ring with nothing referenced |
| TxPath.TxDriver.DmaTake | src/utility/ethernetif.cpp:380-390 | the engine takes the next descriptor under way, one fewer is under way, and the pbuf it reads is alive |
| TxPath.TxDriver.FreeSent | src/utility/ethernetif.cpp:380-399 | with every descriptor idle all queued references are dropped, otherwise none |
| TxPath.TxDriver.TransmitFrame | src/utility/ethernetif.cpp:280-343 | the staged descriptors become one marked chain under way, or nothing changes |
| TxPath.TxDriver.Stage | src/utility/ethernetif.cpp:407-440 | staging changes nothing that is under way, takes exactly one reference when it reaches the queue, and tells a descriptor in use from a segment that is too long or a full queue |
| TxPath.TxDriver.Output | src/utility/ethernetif.cpp:371-458 | a chain is accepted, whole and in order with its lengths, exactly when it fits; a refused one sends nothing, and the error says whether a descriptor was in use; what is under way, the queue, its counters and the references are given in every case, and stay consistent exactly unless a put meets a full queue whose counters have wrapped |
| TxPath.TxDriver.Conditions | src/utility/ethernetif.cpp:371-458 | in numbers: when an output call is accepted, when a descriptor is in use, when the queue takes the chain, and when it overflows |
| TxPath.TxDriver.UnderWayAlive | src/utility/ethernetif.cpp:380-440 | no pbuf is released while the engine is still to read it |
| TxPath.TxDriver.FramesArrive | src/utility/ethernetif.cpp:311-336 | what the engine has taken is a prefix of the accepted chains, and all of them when it is idle |
| TxPath.OutputExpected | src/utility/ethernetif.cpp:371-458 | what a call needs and leaves, in counts of descriptors and queued pbufs, is what the driver's own conditions say |
| TxPath.TakeStep | src/utility/ethernetif.cpp:371-458 | one step of a run answers and counts as the pure step does |
| TxPath.Run | src/utility/ethernetif.cpp:371-458 | over any interleaving before the put counter wraps, every call answers as two counts say, the accepted chains are those whose call succeeded, what the engine has taken is made of them only, and nothing under way has been released |
| TxPath.ReachOverflow | src/utility/ethernetif.cpp:407-440 | a run from an idle ring of two descriptors to a valid state in which the next output call meets the full queue with wrapped counters |
| RecvStream.CopiedInside | src/utility/stm32_eth.cpp:676-696 | a read that does not cross returns the next bytes of the stream |
| RecvStream.CopiedAcross | src/utility/stm32_eth.cpp:686-691 | two pbufs and a read that returns the wrong third byte |
| RecvStream.PbufData.Arrive | src/utility/stm32_eth.cpp:884-904 | data joins the stream, and the stream stays exact exactly unless the count leaves 16 bits or a full queue in its wrapped window takes it |
| RecvStream.PbufData.GetData | src/utility/stm32_eth.cpp:650-696 | what a read returns in all cases, and that the stream stays exact exactly when the read is of at most one byte or does not cross |
| RecvStream.PbufData.CopyRound | src/utility/stm32_eth.cpp:678-693 | one round of the loop: bytes copied, bytes stepped over, and what is still to be copied |
| RecvStream.PbufData.GetSingly | src/utility/stm32_eth.cpp:660-674 | as many reads of one byte return the next bytes of the stream, so a read that does not cross equals them |
| RecvStream.TakeStep | src/utility/stm32_eth.cpp:650-904 | one exact step does on the pbufs what the pure step does: what is kept, what is read and what is left |
| RecvStream.InexactMeans | src/utility/stm32_eth.cpp:650-904 | which steps are not exact, in terms of the bytes and pbufs that are buffered |
| RecvStream.Run | src/utility/stm32_eth.cpp:650-904 | a run stops early only at a step that is not exact; until then every answer is that of the pure steps on the buffered pbufs, and bytes read and bytes buffered are the bytes kept |
| RecvStream.CountOverflows | src/utility/stm32_eth.cpp:884-904 | two arrivals of 65536 bytes together leave a byte count of zero |
| HttpClient.StatusLineParsed | examples/LwipHttp/http_client.c:206-241 | a status line is read the same whatever follows it |
| HttpClient.StatusRead | examples/LwipHttp/http_client.c:206-241 | in plain numbers: version and three-digit status are read as written, whatever the reason and whatever follows |
| HttpClient.LengthRead | examples/LwipHttp/http_client.c:247-276 | the number behind the first Content-Length is the length |
| HttpClient.LengthSettled | examples/LwipHttp/http_client.c:247-276 | with the first Content-Length in the header block, body bytes in the same segment make no difference |
| HttpClient.LengthUnsettled | examples/LwipHttp/http_client.c:247-276 | with the first one in the body they do |
| HttpClient.Announced | examples/LwipHttp/http_client.c:247-276 | what a conforming response announces is the number in its header block, or nothing without one |
| HttpClient.ConformingWritten | examples/LwipHttp/http_client.c:206-276 | responses written with any status, length and body conform |
| HttpClient.Settled | examples/LwipHttp/http_client.c:298-340 | parsing any part of a conforming response gives nothing or the final answer |
| HttpClient.HttpcState.Receive | examples/LwipHttp/http_client.c:279-349 | after every segment the client's report is a function of the bytes received so far, unless the collected headers leave 16 bits, and it says exactly when they do |
| HttpClient.HttpcState.Close | examples/LwipHttp/http_client.c:284-297 | at the end: a closed-early error exactly when the blank line has not come; otherwise success exactly when no length was announced or as many bytes came behind it, modulo 2^32, and a length error in the rest |
| HttpClient.StateTold | examples/LwipHttp/http_client.c:298-340 | a report is in the data state exactly when the blank line has come |
| HttpClient.ReceiveAll | examples/LwipHttp/http_client.c:279-349 | any segmentation of any part of a conforming response gives the same version, status, length and body; the only exceptions are exactly those with a segment that takes the header block beyond 16 bits |
| HttpClient.Fetch | examples/LwipHttp/http_client.c:279-349 | a response from first segment to close, in any segments: version, status and body as received, and the result of the close in terms of the bytes |
| EthernetCrc.EthCrc | src/utility/ethernetif.cpp:799-816 | the nested loop computes the check sequence that the laws are about |
| EthernetCrc.ShiftLinear | src/utility/ethernetif.cpp:804-812 | one shift of the register is linear over GF(2) |
| EthernetCrc.RegisterAffine | src/utility/ethernetif.cpp:799-816 | so is the register after messages of one length, up to its start value |
| EthernetCrc.CrcAffine | src/utility/ethernetif.cpp:799-816 | the CRC of the sum of three messages of one length is the sum of their CRCs, as section 3.2.9 of IEEE 802.3 has it |
| EthernetCrc.Residue | src/utility/ethernetif.cpp:799-816 | after any message followed by its own CRC, the highest bit first, the register holds 0xC704DD7B |
| EthernetCrc.BurstFound | src/utility/ethernetif.cpp:799-816 | two different messages of one length that agree outside 32 bits in a row have different CRCs |
| EthernetCrc.WrongOctetFound | src/utility/ethernetif.cpp:799-816 | one wrong octet, so one wrong bit, always changes the CRC |
| HashFilter.KnownHashes | src/utility/ethernetif.cpp:818-830 | the CRCs and hashes of two multicast addresses in numbers |
| HashFilter.Filter.RegisterAddress | src/utility/ethernetif.cpp:818-839 | the filter gains the hash of the address and nothing else |
| HashFilter.Filter.RegisterAll | src/utility/ethernetif.cpp:818-839 | after any registrations the filter is the initial table and the registered hashes, so every registered address passes |
| HashFilter.AllHostsOnly | src/utility/ethernetif.cpp:818-839 | a filter for one of them: which bit of which register |
| HexText.ReadPrinted | examples/LwipHttp/makefsdata/makefsdata.c:1224-1235 | reading printed bytes gives them back, wherever lines were broken |
| HexText.HexWritten | examples/LwipHttp/makefsdata/makefsdata.c:1224-1235 | a byte is printed as two digits in base 16, high one first, and every sixteenth ends a line |
| HexText.FilePutAscii | examples/LwipHttp/makefsdata/makefsdata.c:1224-1235 | the text printed is the one that is read back, and the count goes on |
| HexText.ProcessFileData | examples/LwipHttp/makefsdata/makefsdata.c:630-652 | printing through the buffer gives the same text wherever the buffer is written out, and never overruns it |
| FsImage.FixFilename | examples/LwipHttp/makefsdata/makefsdata.c:703-739 | the name is the first candidate that is not taken; the program gives up exactly for one path length, and writes past its buffers exactly for a taken name that has ten taken candidates or no room for a digit in 256 bytes |
| FsImage.CandidateWritten | examples/LwipHttp/makefsdata/makefsdata.c:692-729 | names have letters, digits and underscores only: what may stand in a C name is kept, all else becomes an underscore, the number is behind |
| FsImage.ReadBehind | examples/LwipHttp/makefsdata/makefsdata.c:933-945 | printed texts put one behind the other are read one behind the other |
| FsImage.EntryResolved | examples/LwipHttp/makefsdata/makefsdata.c:967-974 | because names differ, every name in an entry means the declaration printed with it |
| FsImage.PathRead | examples/LwipHttp/makefsdata/makefsdata.c:937-945 | the path is read up to its zero, and behind the padding stands the payload |
| FsImage.Tool.PutPath | examples/LwipHttp/makefsdata/makefsdata.c:937-945 | path, zero and padding up to the alignment |
| FsImage.Tool.PutArray | examples/LwipHttp/makefsdata/makefsdata.c:937-1017 | the text of an array stands for path, padding, headers and file bytes |
| FsImage.Tool.ProcessFile | examples/LwipHttp/makefsdata/makefsdata.c:905-1017 | a file joins the image with the first free name, linked to the one before; names stay distinct; it gives up or overruns a name buffer exactly for the given path lengths and collisions |
| FsImage.Tool.FsOpen | examples/LwipHttp/fs.c:57-91 | a path opens exactly the header strings, bytes and flags of the latest file processed under it, and nothing when there is none |
| FsImage.MakeImage | examples/LwipHttp/makefsdata/makefsdata.c:470-524 | a whole image holds all files, in order, up to the first at which the program gives up or overruns a name buffer, and which of the two it is follows from that file's path and the names so far |
| FsImage.EleventhOverruns | examples/LwipHttp/makefsdata/makefsdata.c:703-739 | eleven short paths for which the name of the last one is written past its block |
| FsImage.LatestOfDistinct | examples/LwipHttp/fs.c:73-91 | with different paths every file is the one found under its path |

## Left out

- Hardware abstraction, PHY, interrupts, link status, DHCP and DNS polling, timers: outside the modelled files.
- The TCP/IP stack itself: `tcp_write`, `pbuf_*`, `lwip_strnstr`, memory pools are small assumed contracts, as they are not part of this repository.
- Dynamic and asynchronous file reads, multipart SSI inserts and the reset at httpd.c:1527-1535: separate build configurations.
- The tag name and insert buffers are sequences of bounded length; `tag_name_len` and the terminating zero in the buffer are part of that.
- Manual window updates for POST, keep-alive, the request list switched off: separate build configurations.
- The connection list and the killing of the oldest connection (httpd.c:340-410): relinking of a list that no other property needs.
- HttpReceive.Connection.Send: only whether sending ends the connection is modelled here; what is sent is the response sender's part.
- HttpReceive.Connection.Recv: the pbuf that is allocated for an empty POST body is not counted among the pbufs that came in, and a request longer than 65535 bytes, beyond the 16-bit length of a pbuf chain, is excluded.
- HttpResponse.HttpState.constructor: which header strings a response gets, and that an HTTP/0.9 response has none, are parameters.
- ResponseRuns.DeliverFile: one file with memory that does not run short; refusals and headers are in ResponseRuns.AnyRun.
- HttpRequest.Verdicts: requests without zero bytes; what is made of the length of a POST is in HttpPostHead.
- HttpRequest.Parse: a request with an empty Content-Length makes atoi read on into the next lines; where that would leave the received bytes, the model reads a zero byte. atoi is taken to clamp to the range of int.
- HttpRequestRuns.ReceiveGet: requests without zero bytes, all of whose bytes fit the request buffer.
- Writes of the terminating zeros into the request bytes: they are undone before the bytes are read again, or the bytes are freed.
- RxPath.RxDriver.Run: what HAL_ETH_GetReceivedFrame_IT reports is a parameter, about descriptors of the ring; driver steps, DMA steps and frees are atomic with respect to each other; the HAL lock is not modelled.
- TxPath.Run: the same, and runs end before the put counter of the queue wraps; TxPath.TxDriver.Output says what happens then, and TxPath.ReachOverflow gets there.
- TxPath.TxDriver.Output: reference counts are unbounded; of the bytes of a pbuf only the lengths matter.
- RecvStream.Run: the run ends at the first step that is not exact, among which is the arrival of an empty pbuf; RecvStream.PbufData.GetData and RecvStream.PbufData.Arrive say what such a step leaves.
- HttpClient.ReceiveAll: conforming responses, whose numbers fit an int; what happens after a header block has left 16 bits is not modelled; the receive callback takes all data.
- HashFilter.Filter.RegisterAddress: an address has at least six octets, which are those that the code reads; the hardware registers repeat the two variables.
- UDP, `peek`, `stm32_free_data`, `EthernetServer::write`: thin wrappers.
- HexText.ReadPrinted: comments between the printed bytes are left out, so a path that contains the end of a comment is not noticed.
- FsImage.Tool.ProcessFile: what a write past a name buffer does to the rest of the program is not modelled; the run ends there.
- Checksums, compression, directory walking and the choice of header strings in makefsdata.c: input and output, or external code; the header strings are a parameter.
- lwiperf.c, altcp_proxyconnect.c, socket_examples.c, sketches and scripts: benchmarks, forwarding and clients.

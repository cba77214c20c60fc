# Verification of the SIP stack under the call client

The program is a SIP call client; nearly all of its state and arithmetic is in the SIP stack it carries
with it, libeXosip2 5.3.0. This project models the parts of that stack in which the order of steps, the
bounds of a buffer or the arithmetic of a window decide whether the outcome is right, and proves what
they promise for all inputs, all runs and all ways in which the network can cut up its data.

`dafny verify dfyconfig.toml` checks the whole project.

## How the project is laid out

| files | part of the stack |
|---|---|
| `Basics.dfy`, `CText.dfy`, `Numerals.dfy` | the C string functions and number formats that the other modules share |
| `Framing.dfy`, `FramingChunks.dfy`, `SipMessage.dfy`, `FramingTheorems.dfy`, `TcpStream.dfy` | cutting SIP messages out of a TCP or TLS byte stream |
| `SendQueue.dfy` | the send buffer of a connection and the partial-write loops |
| `CounterWindow.dfy`, `Counters.dfy` | the sliding-window event counter |
| `Ipv6Text.dfy`, `Ipv6Printer.dfy` | the IPv6 address printer |
| `CSeq.dfy`, `Registration.dfy` | one registration: its REGISTER requests, refreshes and back-off |
| `LostAck.dfy` | retransmission of 200 OK responses that are not acknowledged |
| `Base64.dfy`, `NonceTable.dfy` | the Base64 decoder and the table of digest nonces with their counts |
| `SrvRecord.dfy`, `EnumName.dfy` | order and rotation of SRV targets; the ENUM domain name of a number |
| `Ids.dfy` | the one counter from which calls, dialogs, subscriptions and notifications get their ids |

What the C code updates in place is a class or an array here, changed by methods of the same structure
as the C functions; each method is proved against a function of the old state, and the lemmas are about
these functions. What comes from outside (bytes received, how much a socket takes, clock readings,
responses) is a parameter, so that a theorem for all parameters holds for all behaviours of the network
and the clock.

## What the proofs show about the code

Some of the expected properties hold only under a condition. The code is modelled as it is, and the
condition is proved to be exact.

- **Message framing.** What is delivered does not depend on how the stream is cut into reads exactly for
  the streams called `Benign`: a negative Content-Length is the last thing in the stream, and no complete
  frame that a CRLF precedes is read with another length while that CRLF is still in the buffer. For
  well-formed messages with keep-alives between them this comes down to the start line: behind a CRLF,
  a start line that begins like a length header (a request with the method `L`, say) is taken for one,
  if no label that the search tries earlier stands in the message. `DeliveryTheorem` says that all
  messages come out, for all ways of cutting the stream, exactly when no such start line is followed by
  another number than the length of the body. The four spellings searched for allow a space between the
  name and the colon but not a tab, which the grammar in section 25.1 of RFC 3261 also allows: such a
  message loses its body. A label without a colon behind it makes the C code add one to NULL, and a number
  beyond `int` is undefined for `atoi`; both are the outcome `Fault`, after which nothing is claimed.
- **Sending.** A flush empties the send buffer whatever the socket took. The wire carries the queued
  messages exactly when each flush found room for all that waited.
- **Event counter.** An event younger than the period less the interval is always counted if and only if
  `period % interval <= period / interval`; otherwise the table is too small for some runs. The defaults
  (3600 and 60) satisfy it. Buckets are 16-bit words: the running total is the live count exactly when no
  bucket dropped so far had counted 65536 or more.
- **Registration.** Of all transactions that a registration ever begins, at most one is open, whatever is
  built, sent, answered or lost. Requests built from one another form series with one Call-ID, in which
  the CSeq numbers count up by one exactly as long as they stay below 2^31; the text of the next number
  always fits. The requests are followed from where they are built to where they are sent.
- **Refresh.** The period follows the time granted to the contact only when that is shorter by more than 15
  seconds, or longer. So a refresh can come after the registration has run out: it is in time for every
  period asked for exactly when at least 145 seconds are granted.
- **Lost ACK.** Passes that are far enough apart send the response nine times and then give it up. The pass sets its cursor back to the first dialog before it hands a response to the
  transport, so what is sent is the response that the first dialog of the call holds, which may be NULL.
  That is the right one if and only if all dialogs that are due hold the response of the first: when no
  two dialogs share one, if and only if no other dialog is due. The log
  message says 20 seconds; the call is dropped no earlier than 35 seconds after the first transmission.
- **Back-off.** After a connection failure, the refresh comes exactly when the failover counter says,
  for the periods and states that `BackOff` lists and for no others.
- **Nonce counts** are printed with decimal digits, cut at eight characters, and read by the server as
  hexadecimal: they increase for the server as long as they stay below 10^8, and not beyond.
- **Nonce table.** No two live slots are for the same Call-ID and realm, unless a Call-ID of 64 characters
  or more is cut to one that has a slot already. A challenge can be used again if and only if its Call-ID
  and realm had a slot, or one was free and the Call-ID has less than 64 characters; requests then count up
  from it without a gap.
- **SRV records.** The record is at all times the stable sort of the targets that came, if and only if no
  answer without a name came while there was room and a target with a higher priority number. Such an
  answer (the target `.` of RFC 2782) makes the record seem empty, and later ones come out of order.
- **Ids** are distinct until the counter reaches the greatest `int`; when it starts again from 1, they
  stay distinct over a run exactly as long as no id in use lies in the range that a pass hands out.
- **ENUM names** tell the number's digits and the zone if and only if the zone does not begin with a digit
  and a dot. In one zone, two names are equal exactly when the digits are; across zones, exactly when one
  zone is the other with digits in front that the other number has in front. A number or a zone too long
  for its buffer overruns it; the methods say exactly when.

## Model

| member | source | states |
|---|---|---|
| FramingChunks.ChunkingTheorem | 3rd/libexosip2-5.3.0/src/eXtl_tcp.c:437-600 | For every stream: all ways of cutting it into reads deliver the same messages and keep the same bytes (CRLFs in front aside), namely those of reading the stream as one batch, if and only if the stream is benign |
| FramingChunks.ReceiveParses | 3rd/libexosip2-5.3.0/src/eXtl_tcp.c:437-518 | Any reads of a benign stream, on top of any bytes kept from before, deliver what the batch reading of the stream does |
| FramingChunks.TwoCuts | 3rd/libexosip2-5.3.0/src/eXtl_tcp.c:480-493 | Every stream that is not benign has two cuts that deliver different messages or keep different bytes |
| FramingChunks.DrainParses | 3rd/libexosip2-5.3.0/src/eXtl_tcp.c:447-518 | One pass over the buffer does the first part of the batch reading of whatever the stream turns out to be |
| FramingChunks.DrainSettles | 3rd/libexosip2-5.3.0/src/eXtl_tcp.c:447-518 | What a pass leaves in the buffer holds no message it could have taken |
| FramingChunks.LoneCrlf | 3rd/libexosip2-5.3.0/src/eXtl_tcp.c:449-456 | A blank line found behind the very front of the buffer has at most one CRLF in front of its frame, however many the stream had |
| FramingTheorems.DeliveryTheorem | 3rd/libexosip2-5.3.0/src/eXtl_tcp.c:410-600 | For any well-formed messages, any number of keep-alive CRLFs before each, and nothing, half a CRLF or the beginning of a message behind them: all ways of cutting the stream deliver exactly these messages, once each, in order, up to CRLFs in front, and keep what is behind them, if and only if no start line behind a CRLF passes for a length header with another number (section 18.3 of RFC 3261, section 4.4.1 of RFC 5626) |
| FramingTheorems.DeliveredWhole | 3rd/libexosip2-5.3.0/src/eXtl_tcp.c:461-475 | A well-formed message comes out whole if and only if no tab stands behind the name of its length field, or its body is empty; otherwise its header section comes out as a message |
| FramingTheorems.TabLosesBody | 3rd/libexosip2-5.3.0/src/eXtl_tcp.c:461-475 | A concrete message with a tab behind the name, and what comes out of it |
| FramingTheorems.OrdinaryMessages | 3rd/libexosip2-5.3.0/src/eXtl_tcp.c:461-475 | A BYE request with a body of one character, its text written out, its length field spelled as Content-Length or as l, in any mixture of capital and small letters, with or without a blank before the colon, comes out whole, and nothing is kept |
| FramingTheorems.OrdinaryMessage | 3rd/libexosip2-5.3.0/src/eXtl_tcp.c:461-475 | The same message with its field spelled `Content-Length: 1`, its whole text given |
| FramingTheorems.LengthFieldIs | 3rd/libosip2-5.3.1/src/osipparser2/osip_port.c:476-498 | A field is a length field exactly when each character of its name is the small or the capital letter of one of the two names |
| FramingTheorems.LabelsInOrder | 3rd/libexosip2-5.3.0/src/eXtl_tcp.c:461-470 | Which of the four labels, by its number in the order of the search, the line of a field carries: told from the letters of its name and the first character behind it; none with a tab |
| FramingTheorems.LengthTaken | 3rd/libexosip2-5.3.0/src/eXtl_tcp.c:485-505 | For any value of a compact length field: a negative one empties the buffer, one above what has arrived keeps everything, and one beyond `int` is undefined |
| FramingTheorems.KeepAlivesBefore | 3rd/libexosip2-5.3.0/src/eXtl_tcp.c:449-456 | Any number of CRLFs before a message are taken two at a time, and when their number is odd the last is handed on in front of the message |
| FramingTheorems.KeepAlivesEaten | 3rd/libexosip2-5.3.0/src/eXtl_tcp.c:508-514 | Any number of CRLFs alone are eaten without a trace |
| FramingTheorems.StreamParses | 3rd/libexosip2-5.3.0/src/eXtl_tcp.c:447-518 | The batch reading of such a stream is its messages, and the stream is benign exactly when no start line misleads |
| FramingTheorems.NegativeLengthIsNotBenign | 3rd/libexosip2-5.3.0/src/eXtl_tcp.c:492-493 | A concrete stream with a negative length in the middle, whose reading depends on the cuts |
| FramingTheorems.LabelledStartIsNotBenign | 3rd/libexosip2-5.3.0/src/eXtl_tcp.c:461-470 | A concrete stream whose first line counts as a length header only while a CRLF before it is still in the buffer |
| FramingTheorems.LegalStartMisleads | 3rd/libexosip2-5.3.0/src/eXtl_tcp.c:461-475 | A legal request whose method is the compact label, and whose reading behind a keep-alive depends on the cuts |
| SipMessage.MessageMeasured | 3rd/libexosip2-5.3.0/src/eXtl_tcp.c:447-490 | In the text of any message with one Content-Length field, under either name, in any letter case, among any other and folded fields, the end of the headers is found and the length of the body is read, alone and behind a CRLF, except that behind a CRLF a start line with an earlier label wins |
| SipMessage.FirstLabelOfTwo | 3rd/libexosip2-5.3.0/src/eXtl_tcp.c:461-470 | Of a start line and one field line with labels, the search in its four steps finds the one whose label it tries first |
| SipMessage.FindTag | 3rd/libosip2-5.3.1/src/osipparser2/osip_port.c:476-498 | The case-blind search for a header label finds the end of the line before the first line that starts with it, and nothing inside lines or folds |
| SipMessage.LineStarts | 3rd/libexosip2-5.3.0/src/eXtl_tcp.c:428-432 | A field line carries a label exactly when the field has that name, in any letter case, and the label's last character comes next |
| CText.FindIsFirst | 3rd/libexosip2-5.3.0/src/eXtl_tcp.c:410-426 | The search result is the first place where the bytes stand, and the only such result |
| CText.FindNoCaseIsFirst | 3rd/libosip2-5.3.1/src/osipparser2/osip_port.c:476-498 | The same for the case-blind search |
| CText.LowerIs | 3rd/libosip2-5.3.1/src/osipparser2/osip_port.c:476-498 | What letter case aside means: each of the twenty-six capital letters, written out, counts as its small letter, and no other character as another |
| CText.AtoiReadsNumber | 3rd/libexosip2-5.3.0/src/eXtl_tcp.c:490 | A number between white space and anything that is not a digit is read for its value |
| CText.AtoiReadsSigned | 3rd/libexosip2-5.3.0/src/eXtl_tcp.c:490 | The same with a plus or a minus sign before the digits, which gives the value its sign |
| TcpStream.BufferFind | 3rd/libexosip2-5.3.0/src/eXtl_tcp.c:410-426 | The search over the raw buffer returns the first match, and none when there is none |
| TcpStream.StuffedNul | 3rd/libexosip2-5.3.0/src/eXtl_tcp.c:458-459 | The NUL put over the blank line limits the C searches to the header section, up to a NUL that was already in it |
| TcpStream.Stream.Turn | 3rd/libexosip2-5.3.0/src/eXtl_tcp.c:447-506 | One turn of the loop on the real buffer takes the step specified, and puts the stuffed NUL back whenever it goes on |
| TcpStream.Stream.HandleMessages | 3rd/libexosip2-5.3.0/src/eXtl_tcp.c:437-518 | The extraction loop on the buffer delivers what the recursive reading of its bytes does, and the bytes behind the count it returns are those to keep |
| TcpStream.Stream.MakeRoom | 3rd/libexosip2-5.3.0/src/eXtl_tcp.c:525-554 | Growing a full buffer (by 1000 places, or 5000 over TLS) and shrinking an empty one to 8000 lose no byte and leave room for a read |
| TcpStream.Stream.Recv | 3rd/libexosip2-5.3.0/src/eXtl_tcp.c:521-600 | A read event takes as many of the bytes pending as the socket gives out and the buffer has room for, and turns the bytes held into those the specification keeps of the bytes held and received; closing forgets them, and waiting changes nothing |
| TcpStream.Stream.Compact | 3rd/libexosip2-5.3.0/src/eXtl_tls.c:2125-2133 | What was not consumed is afterwards at the front of the buffer |
| TcpStream.ReceiveAll | 3rd/libexosip2-5.3.0/src/eXtl_tls.c:2055-2136 | Over a whole connection, for every size of the reads and either growth step, the buffer code delivers what some cut of the input does; for a benign input, what the batch reading does |
| SendQueue.TakenIs | 3rd/libexosip2-5.3.0/src/eXtl_tcp.c:1423-1521 | The partial-write loop gets through as many bytes as the socket offers to take, up to all; and with no empty write it fails exactly when not all got through |
| SendQueue.AnswerMeans | 3rd/libexosip2-5.3.0/src/eXtl_tcp.c:1423-1521 | What each answer of the socket adds to what it offers to take, and which of them end the loop with an error |
| SendQueue.Sender.Send | 3rd/libexosip2-5.3.0/src/eXtl_tcp.c:1423-1521 | The bytes the socket has taken grow by a prefix of the message, as long as the answers allow, in order |
| SendQueue.Sender.SendTls | 3rd/libexosip2-5.3.0/src/eXtl_tls.c:2898-2920 | The same over TLS, and the result is an error exactly when the message did not get through whole |
| SendQueue.Sender.Append | 3rd/libexosip2-5.3.0/src/eXtl_tcp.c:1886-1891 | A queued message comes behind what waits already, with room for its NUL kept |
| SendQueue.Sender.Flush | 3rd/libexosip2-5.3.0/src/eXtl_tcp.c:785-790 | A flush sends what the socket has room for, in order, and drops all the rest |
| SendQueue.Run | 3rd/libexosip2-5.3.0/src/eXtl_tcp.c:738-741 | Over every run of messages queued and flushes: the bytes on the wire and those that wait are the messages, in order, if and only if every flush found room for all that waited |
| CounterWindow.WindowTheorem | 3rd/libexosip2-5.3.0/src/eXconf.c:1482-1526 | Over every run under a clock that does not go back: what is counted is an end of the log of all events, holds every event younger than the horizon, none as old as period and interval together, and after an eviction none as old as the period |
| CounterWindow.UpdateKeeps | 3rd/libexosip2-5.3.0/src/eXconf.c:1482-1526 | Every update keeps buckets more than an interval apart, no more than the table has places, and hits within an interval of the start of their bucket |
| CounterWindow.HorizonTight | 3rd/libexosip2-5.3.0/src/eXconf.c:1500-1508 | For every period and interval some run drops an event of exactly the age of the horizon |
| CounterWindow.YoungEventsCounted | 3rd/libexosip2-5.3.0/src/eXconf.c:1482-1526 | Every event younger than the period less the interval is counted in every run, if and only if the remainder of their division is at most its quotient |
| CounterWindow.CapacityIsEnough | 3rd/libexosip2-5.3.0/src/eXconf.c:1450 | The size of the table never forces out a bucket younger than the period, under the same condition and no other |
| CounterWindow.ClockGoesBack | 3rd/libexosip2-5.3.0/src/eXconf.c:1482-1526 | When the clock has gone back behind all buckets, an update drops them all and begins anew |
| Counters.Counter.constructor | 3rd/libexosip2-5.3.0/src/eXconf.c:1440-1455 | An empty window, for the given period and interval cut to 16 bits, or for the defaults in place of zero; with an interval longer than the period, arrays without places |
| Counters.FieldIs | 3rd/libexosip2-5.3.0/src/eXconf.c:1440-1455 | A field of the configuration is kept from 1 to 65535, zero stands for the default, and anything else counts modulo 65536 |
| Counters.DefaultsSuffice | 3rd/libexosip2-5.3.0/src/eXosip2.h:787-792 | With zero for both fields a counter covers 3600 seconds in 60 steps of 60, meets that condition, and counts every event younger than 3540 seconds |
| Counters.Counter.DropOld | 3rd/libexosip2-5.3.0/src/eXconf.c:1498-1508 | The eviction loop on the arrays drops the buckets the window drops, and takes them off the total |
| Counters.Counter.Push | 3rd/libexosip2-5.3.0/src/eXconf.c:1510-1518 | Shifting both arrays makes room for a bucket in front and keeps all others in order |
| Counters.Counter.Update | 3rd/libexosip2-5.3.0/src/eXconf.c:1482-1526 | The arrays, words and running total refine the window over the event log, and the total is the sum of the live events and of what the words of the buckets dropped so far did not show |
| Counters.CarriesNone | 3rd/libexosip2-5.3.0/src/eXconf.c:1506 | The words of some buckets show all their events exactly when each counted less than 65536 |
| Counters.Count | 3rd/libexosip2-5.3.0/src/eXconf.c:1482-1526 | Over every run, the total is the number of events in the window if and only if no bucket dropped in the run had counted 65536 or more |
| Ipv6Text.RoundTrip | 3rd/libexosip2-5.3.0/src/inet_ntop.c:208-243 | Reading the text of any address, with any zero run of two words or more compressed, by the grammar of section 2.2 of RFC 4291 gives the address back, dotted tails included |
| Ipv6Text.BestIsUnique | 3rd/libexosip2-5.3.0/src/inet_ntop.c:177-206 | There is one best run: the leftmost of the longest, of two words or more (section 4.2 of RFC 5952) |
| Ipv6Text.LeftmostLongest | 3rd/libexosip2-5.3.0/src/inet_ntop.c:177-206 | The run is of zero words, as many begin nowhere before it, and more nowhere at all |
| Ipv6Text.TwoZerosCompressed | 3rd/libexosip2-5.3.0/src/inet_ntop.c:202-206 | Some run is left out exactly when two words next to each other are zero |
| Ipv6Text.DottedTail | 3rd/libexosip2-5.3.0/src/inet_ntop.c:226-233 | Told from the sixteen bytes: ten zeros and 255, 255 print as `::ffff:` and four decimal numbers with dots, twelve zeros and two bytes not both zero as `::` and four such numbers, and the text of no other address has a dot |
| Ipv6Text.DocumentationAddress | 3rd/libexosip2-5.3.0/src/inet_ntop.c:170-241 | The bytes of one address with two zero runs, and its text, 2001:db8:0:1::1 |
| Ipv6Text.DoubleColonOnce | 3rd/libexosip2-5.3.0/src/inet_ntop.c:211-241 | The text has a double colon where the run stood, and nowhere else |
| Ipv6Printer.FindBest | 3rd/libexosip2-5.3.0/src/inet_ntop.c:177-206 | The scan finds the best run, or that there is none |
| Ipv6Printer.PiecesAreText | 3rd/libexosip2-5.3.0/src/inet_ntop.c:211-241 | The pieces written word by word, and the colon behind a trailing run, join to the specified text |
| Ipv6Printer.PiecesAreEncapsulated | 3rd/libexosip2-5.3.0/src/inet_ntop.c:226-233 | The same where the last two words are written as an IPv4 address |
| Ipv6Printer.Format | 3rd/libexosip2-5.3.0/src/inet_ntop.c:208-241 | The formatting loop writes the text, and never comes to the end of its 46 places |
| Ipv6Printer.InetNtop6 | 3rd/libexosip2-5.3.0/src/inet_ntop.c:149-257 | The text for the best run and its NUL, or, exactly when they do not fit, nothing |
| Ipv6Printer.PrintedReadsBack | 3rd/libexosip2-5.3.0/src/inet_ntop.c:149-257 | What is printed for any address reads back as that address |
| CSeq.NextCSeqIsNext | 3rd/libexosip2-5.3.0/src/eXregister_api.c:236-267 | The CSeq written for the next request is a number one higher, whatever the number of its digits, if and only if the old one is below 2^31 - 1 |
| CSeq.NextCSeqAround | 3rd/libexosip2-5.3.0/src/eXregister_api.c:236-267 | The CSeq written for any other number: the next one in 32 bits with a sign, and 0 from 2^63 - 1 on |
| CSeq.CSeqFits | 3rd/libexosip2-5.3.0/src/eXregister_api.c:236-267 | Whatever stands for the old number, the text of the next fits into the two bytes more that it gets |
| Registration.SeriesNumbers | 3rd/libexosip2-5.3.0/src/eXregister_api.c:199-394 | Of requests linked to those they were built from, number n of a series has the Call-ID of the first and its CSeq and n, if and only if that fits an `int` (section 10.2 of RFC 3261) |
| Registration.Run | 3rd/libexosip2-5.3.0/src/eXregister_api.c:199-565 | Over every run of builds, requests sent (built then, built before, the caller's own), moves of any transaction, timer passes and failures: at most one transaction of all that ever began is open, each request built from another has its Call-ID and the next CSeq, and no two are built from the same |
| Registration.AtMostOneOpen | 3rd/libexosip2-5.3.0/src/eXregister_api.c:532-537 | When all but the last transaction are finished, the count of open ones over all that ever began is at most one |
| Registration.Register.Begin | 3rd/libexosip2-5.3.0/src/eXregister_api.c:547-555 | A transaction may begin only when the last one is finished; it is added to all that began, with the one its request was built from |
| Registration.Register.Progress | 3rd/libexosip2-5.3.0/src/jcallback.c:1007-1050 | Any transaction may move on; only a final response to the last one changes the registration: a success sets the period and ends the removal of a contact, and either kind may call for such a removal |
| Registration.MovedTells | 3rd/libexosip2-5.3.0/src/jcallback.c:1007-1050 | The status and the Min-Expires of a response are kept while there was no final one; when a transaction began, and with which request, never changes |
| Registration.Register.ContactModified | 3rd/libexosip2-5.3.0/src/jcallback.c:40-130 | The removal of a contact is called for when the response shows another address, the registration is wanted, and no removal was called for lately; nothing else changes |
| Registration.PeriodFollows | 3rd/libexosip2-5.3.0/src/jcallback.c:1014-1035 | After a success the period is at least the time granted to the contact and at most 15 seconds more, whatever it was before |
| Registration.PeriodCases | 3rd/libexosip2-5.3.0/src/jcallback.c:1014-1035 | When the Expires header counts, with and without a time for the contact: exactly when it is positive and shorter than the period by more than 15 seconds; and what the time for the contact makes of that |
| Registration.GrantedInTime | 3rd/libexosip2-5.3.0/src/jcallback.c:934-943 | The timer refreshes within the time granted to the contact, for every period asked for and every Expires header, if and only if at least 145 seconds were granted |
| Registration.LateRefresh | 3rd/libexosip2-5.3.0/src/jcallback.c:934-943 | 60 seconds granted where 75 were asked for: the timer does nothing before they are over |
| Registration.BackOff | 3rd/libexosip2-5.3.0/src/eXosip.c:839-857 | With the birth time rewritten for a failure, the timer does nothing for as many seconds as the failover counter says and refreshes in the next, if and only if the period and the last status are among those listed |
| Registration.TimerDecides | 3rd/libexosip2-5.3.0/src/eXosip.c:839-882 | For every last transaction, by its age, from 0 on, and the period, in numbers: the timer refreshes if and only if the registration has a period and one of three ages is passed; else it tries again if and only if the status is 401, 407, 423 or 606, fewer than three retries were made and the age is below 120; else it removes or registers a contact after a success in step 2 or 4; and with a Retry-After pending it does nothing |
| Registration.ChallengeAnswered | 3rd/libexosip2-5.3.0/src/eXosip.c:859-868 | A 401 is answered at every age from 0 to 119 seconds, whether the period is an hour or none |
| Registration.Register.MarkExpired | 3rd/libexosip2-5.3.0/src/eXosip.c:1573-1624 | A failed connection raises the failover counter, up to 60, and sets the birth time that the back-off needs |
| Registration.Register.BuildNext | 3rd/libexosip2-5.3.0/src/eXregister_api.c:199-394 | A request continues the last one, from which nothing was built before and which is put away, only when that is finished; a 423 sets the expiry to its Min-Expires, and without one leaves no last request |
| Registration.Register.Send | 3rd/libexosip2-5.3.0/src/eXregister_api.c:514-565 | Sending is refused while the last transaction is open; otherwise exactly one transaction begins, with the request given or the one built from the last, and is linked to the one its request was built from |
| Registration.Register.Build | 3rd/libexosip2-5.3.0/src/eXregister_api.c:471-512 | A refused build still changes the period, but no request; a request built is kept with the transaction it continues, until it is sent |
| Registration.Register.constructor | 3rd/libexosip2-5.3.0/src/eXregister_api.c:428-450 | The period of a new registration is none, or at least 30 |
| Registration.Register.Timer | 3rd/libexosip2-5.3.0/src/eXosip.c:839-882 | The timer does the action that `TimerDecides` pins down: at most one request, with the next CSeq, and the step goes back when it could not be sent |
| LostAck.Call.RetransmitPass | 3rd/libexosip2-5.3.0/src/eXosip.c:621-655 | The pass ends although it goes back to the first dialog after each transmission; each dialog that is due is served once, by a clock read in the pass, in the way that `PassedTells` puts into numbers, and what is sent is each time the response of the first dialog |
| LostAck.PassedTells | 3rd/libexosip2-5.3.0/src/eXosip.c:622-652 | What one pass makes of a dialog: nothing unless it waits, and its time has come or nine were sent; after nine its response is gone; else one more is counted and the next is due 1, 2, then 4 seconds after a reading of the clock, but behind the first dialog of the call the ninth takes the response at once |
| LostAck.OwnResponseSent | 3rd/libexosip2-5.3.0/src/eXosip.c:650-652 | Every due dialog gets its own response if and only if they all hold the response of the first dialog |
| LostAck.OwnResponsesApart | 3rd/libexosip2-5.3.0/src/eXosip.c:650-652 | When no two dialogs hold the same response, the right ones are sent if and only if no dialog but the first is due |
| LostAck.NullSent | 3rd/libexosip2-5.3.0/src/eXosip.c:650-652 | Two dialogs, the first acknowledged: a NULL message is sent instead of the response of the second |
| LostAck.WrongSent | 3rd/libexosip2-5.3.0/src/eXosip.c:650-652 | Two dialogs, the second due: the response of the first is sent while that still waits, and a NULL message when the pass has just dropped it |
| LostAck.GivenUpAfterNine | 3rd/libexosip2-5.3.0/src/eXosip.c:622-652 | Over every run of passes, at any place of the call's list, a response never acknowledged is served exactly nine times before the call is dropped, 35 seconds or more after the first |
| LostAck.RunSingle | 3rd/libexosip2-5.3.0/src/eXosip.c:612-660 | Over every run of passes over a call with one dialog: while its response waits for the ACK, as many copies of it have been sent as the dialog counts, nine at most; once it is given up, nine have, the first 35 seconds earlier or more; and when each pass begins more than 1, 2 and then 4 seconds after the readings of the clock in the one before, pass n sends copy n, up to nine, and the tenth gives the response up |
| Base64.RoundTrip | 3rd/libexosip2-5.3.0/src/jauth.c:593-671 | Decoding the standard encoding of any bytes gives them back, in all three cases of padding (section 4 of RFC 4648) |
| Base64.AlphabetIs | 3rd/libexosip2-5.3.0/src/jauth.c:331-530 | The letters and their values are those of section 4 of RFC 4648 |
| Base64.ManEncoded | 3rd/libexosip2-5.3.0/src/jauth.c:593-671 | The word "Man" and its two beginnings, encoded, with their padding |
| Base64.ManDecoded | 3rd/libexosip2-5.3.0/src/jauth.c:532-589 | Short last quads without padding are read alike, and padding that is not at the end stands for bits that are one |
| Base64.DecodeString | 3rd/libexosip2-5.3.0/src/jauth.c:532-589 | The decoding loop and the special last quad write the decoded bytes and a zero, within the space allocated |
| NonceTable.PrintedIncreases | 3rd/libexosip2-5.3.0/src/jauth.c:927 | Of any two counts below a limit the greater is read as the greater hexadecimal number, if and only if the limit is at most 10^8 (section 3.2.2 of RFC 2617) |
| NonceTable.PrintedReads | 3rd/libexosip2-5.3.0/src/jauth.c:927 | A count below 10^8 is printed in eight characters and read by its decimal digits |
| NonceTable.StoredUnique | 3rd/libexosip2-5.3.0/src/jauth.c:1035-1079 | Storing keeps one slot per Call-ID and realm, letter case aside, if and only if no cut Call-ID meets a slot of its own |
| NonceTable.StoredTells | 3rd/libexosip2-5.3.0/src/jauth.c:1035-1079 | Where a challenge goes: it replaces the one in the first slot for its Call-ID and realm and begins with count 1; else it takes the first free slot, with up to 63 characters of the Call-ID and the code; else nothing changes |
| NonceTable.SlotMeaning | 3rd/libexosip2-5.3.0/src/jauth.c:1043-1046 | A slot is for a Call-ID and realm when both agree character by character, letter case aside, and is used by every request of its Call-ID |
| NonceTable.Answered | 3rd/libexosip2-5.3.0/src/eXosip.c:1255-1384 | From every state that a run can reach, a challenge that is kept and n requests after it send the counts 1 to n + 1 for it; it is kept if and only if its Call-ID and realm had a slot, or one was free and the Call-ID has 1 to 63 characters; otherwise count 1 is all that is ever sent |
| NonceTable.LongCallIdTwice | 3rd/libexosip2-5.3.0/src/jauth.c:1043-1064 | A Call-ID of 64 characters that is challenged twice has two slots |
| NonceTable.Run | 3rd/libexosip2-5.3.0/src/jauth.c:1035-1100 | Over every run of challenges, requests and deletions, the counts sent for one challenge increase; with Call-IDs below 64 characters no Call-ID and realm have two slots |
| NonceTable.StoredUpToDate | 3rd/libexosip2-5.3.0/src/jauth.c:1035-1079 | Storing a challenge, where `StoredTells` says, starts its count at 1 and leaves every other slot with a count no request has gone beyond |
| NonceTable.Auths.Store | 3rd/libexosip2-5.3.0/src/jauth.c:1035-1079 | The two searches over the table in place store the challenge in its slot, else in the first free one, and fail exactly when there is neither: the slot then holds this realm and challenge with count 1, and every other slot is as it was |
| NonceTable.Auths.Challenge | 3rd/libexosip2-5.3.0/src/eXosip.c:1343-1384 | A new challenge is answered with count 1 and, when it may be used again, stored; counts sent for one challenge keep increasing, and slots stay unique |
| NonceTable.Auths.Reuse | 3rd/libexosip2-5.3.0/src/eXosip.c:1255-1305 | A request without a challenge uses every slot of its Call-ID, each with a count one higher, up to the first realm without credentials; no slot gets a duplicate |
| NonceTable.Auths.Delete | 3rd/libexosip2-5.3.0/src/jauth.c:1081-1100 | The first slot of the Call-ID, and no other, becomes free |
| NonceTable.Auths.CountsReadIncreasing | 3rd/libexosip2-5.3.0/src/jauth.c:927 | Over every run, the server reads the counts of one challenge as strictly increasing, below 10^8 |
| SrvRecord.SortedIsUnique | 3rd/libexosip2-5.3.0/src/eXutils.c:1447-1469 | There is one list in order of priority that has the same entries, equal priorities in the order they came |
| SrvRecord.StableSortIs | 3rd/libexosip2-5.3.0/src/eXutils.c:1447-1469 | The sort by insertion is that list, and nothing else is |
| SrvRecord.SwapImproves | 3rd/libexosip2-5.3.0/src/eXutils.c:1456-1467 | Swapping neighbours in the wrong order leaves one wrong pair less |
| SrvRecord.Sort | 3rd/libexosip2-5.3.0/src/eXutils.c:1447-1469 | Swapping until nothing is swapped ends, and the array is then the stable sort of what it was |
| SrvRecord.Record.Save | 3rd/libexosip2-5.3.0/src/eXutils.c:1895-1926 | An answer goes behind the entries before the first free place, sorted with them, or nowhere; the places are those that all answers so far lead to |
| SrvRecord.PutNamed | 3rd/libexosip2-5.3.0/src/eXutils.c:1895-1926 | A target with a name is sorted into the stable sort of those before it |
| SrvRecord.PutNameless | 3rd/libexosip2-5.3.0/src/eXutils.c:1895-1926 | An answer without a name leaves the record in order exactly when no target in it has a higher priority number |
| SrvRecord.RecordHolds | 3rd/libexosip2-5.3.0/src/eXutils.c:1895-1926 | Over every run of answers, the record is at all times the stable sort of the targets that came, if and only if every nameless answer met that condition |
| SrvRecord.NamelessSpoils | 3rd/libexosip2-5.3.0/src/eXutils.c:1895-1926 | Three concrete answers, one without a name, after which the record seems empty and then stands in the wrong order |
| SrvRecord.Record.Rotate | 3rd/libexosip2-5.3.0/src/eXutils.c:1588-1609 | The index moves to the next target, from the last to the first, and the result is the number of the other targets; the place behind the tenth is read exactly when the index stands on the tenth |
| SrvRecord.RotationVisitsAll | 3rd/libexosip2-5.3.0/src/eXutils.c:1588-1609 | In as many steps as there are targets each has its turn exactly once, and the first is back |
| SrvRecord.RotateRound | 3rd/libexosip2-5.3.0/src/eXutils.c:1588-1609 | As many rotations of a record in order as it has targets put the index on every target once, in their order, and back where it was; a read behind the last place happens if and only if there are ten targets |
| EnumName.NameTells | 3rd/libexosip2-5.3.0/src/eXutils.c:3231-3241 | Digits and zone can be read from the name if and only if the zone does not begin like a label (section 2.4 of RFC 3761) |
| EnumName.NamesMeet | 3rd/libexosip2-5.3.0/src/eXutils.c:3231-3241 | Two names are equal exactly when one zone is the other with digits in front that the other number has in front; in one zone exactly when the numbers' digits agree |
| EnumName.NameConfuses | 3rd/libexosip2-5.3.0/src/eXutils.c:3231-3241 | Two numbers in two zones with the same name, where one zone begins with a digit and a dot |
| EnumName.KeptOf | 3rd/libexosip2-5.3.0/src/eXutils.c:3222-3241 | Character by character, in order: the application unique string keeps the ten digits and the plus sign, the name the digits alone |
| EnumName.DialledNumber | 3rd/libexosip2-5.3.0/src/eXutils.c:3222-3241 | A number as it is dialled, with what the two loops make of it |
| EnumName.SplitIs | 3rd/libexosip2-5.3.0/src/eXutils.c:3200-3219 | From a zone, an exclamation mark and a number, with or without the name of a server behind another mark, the zone and the number are told |
| EnumName.NotSplit | 3rd/libexosip2-5.3.0/src/eXutils.c:3200-3219 | There is no number exactly when there is no exclamation mark, or the first is the last character |
| EnumName.FillAus | 3rd/libexosip2-5.3.0/src/eXutils.c:3222-3229 | The buffer holds the digits and plus signs of the number, in order, or is overrun, exactly when there are 64 or more |
| EnumName.FillName | 3rd/libexosip2-5.3.0/src/eXutils.c:3231-3241 | The buffer holds the digits from the last to the first, a dot behind each, and then the zone, or is overrun, exactly when the name is too long |
| EnumName.EnumQuery | 3rd/libexosip2-5.3.0/src/eXutils.c:3200-3241 | For text with a mark and something behind it, both buffers are those of its zone and number, unless one is overrun |
| Ids.AssignedDistinct | 3rd/libexosip2-5.3.0/src/eXosip.c:1024-1094 | A pass keeps all ids distinct if and only if no id in use lies in the range it hands out |
| Ids.AssignedUnder | 3rd/libexosip2-5.3.0/src/eXosip.c:1024-1094 | After a pass every live object has an id below the counter, the one it had if it had one; a finished dialog has none |
| Ids.AssignedInOrder | 3rd/libexosip2-5.3.0/src/eXosip.c:1024-1094 | What becomes of each id: a finished dialog gets -1, an id that is there stays, the first object without one gets the number of the counter, and each one after it one more than the one before it |
| Ids.FirstPass | 3rd/libexosip2-5.3.0/src/eXosip.c:1024-1094 | The ids that a first pass gives to a call with two dialogs, a subscription and a notification |
| Ids.UpdateDialogs | 3rd/libexosip2-5.3.0/src/eXosip.c:1043-1052 | The inner loop gives out ids as the specification does from where the outer loop has come to |
| Ids.UpdateSessions | 3rd/libexosip2-5.3.0/src/eXosip.c:1037-1053 | The loop over one list and its dialogs gives out ids to the whole list in order |
| Ids.Registry.Update | 3rd/libexosip2-5.3.0/src/eXosip.c:1024-1094 | After a pass no two objects in the three lists share an id, if and only if the range handed out was free; it is, and ids stay below the counter, as long as the counter has not come to its end |
| Ids.Run | 3rd/libexosip2-5.3.0/src/eXosip.c:1024-1094 | Over every run in which objects come and go and passes hand out ids, also beyond the start of the counter from 1, no two objects share an id as long as passes find their range free; the first that does not would give two objects the same id, and before the counter comes to its end there is none |
| Ids.Registry.AddSession | 3rd/libosip2-5.3.1/include/osipparser2/osip_port.h:316-326 | A call, subscription or notification added in front, without ids, leaves all ids distinct |
| Ids.Registry.AddDialog | 3rd/libexosip2-5.3.0/src/jcallback.c:542-557 | The same for a dialog added to one of them |
| Ids.Registry.RemoveSession | 3rd/libosip2-5.3.1/include/osipparser2/osip_port.h:303-314 | Taking a call, subscription or notification out of its list leaves all ids distinct |
| Ids.Registry.RemoveDialog | 3rd/libosip2-5.3.1/include/osipparser2/osip_port.h:303-314 | The same for a dialog of one of them |
| Ids.Registry.FinishDialog | 3rd/libexosip2-5.3.0/src/eXosip.c:1043-1050 | A dialog that ends keeps its id until the next pass, and no other object has it |
| Ids.Registry.FindCall | 3rd/libexosip2-5.3.0/src/jcall.c:35-47 | The call found is the only object with the id, in all three lists; none is found exactly when no call has it |
| Ids.Registry.FindDialog | 3rd/libexosip2-5.3.0/src/jdialog.c:35-49 | The same for the dialogs of calls |
| Ids.Registry.FindSubscription | 3rd/libexosip2-5.3.0/src/jdialog.c:69-87 | A subscription is found by its own id or by that of a dialog, and nothing else has the id |

## Left out

- Sockets, `select` and `epoll`, TLS, DNS, locks, clocks and failing allocations: their results are parameters. A read event is the bytes pending and a limit; a write is the list of answers of the socket; a clock is a number or a function.
- What becomes of a message once it is handed to the transaction layer, and the transaction machines themselves: a registration is told the progress of its transactions and what is in their responses.
- The ping and pong flags, the connection timeouts and the traces of the stream code; `SSL_pending`, which only asks for another read.
- The undefined outcomes of the framing code (no colon behind a label, a number beyond `int`): after them the state of the buffer is not described.
- The order of reads on several connections, and connections sharing the tables of the stack.
- Counter averages (`float`), microseconds of the clock, and an overflow of the 32-bit running total.
- Contact rewriting, the comparison of addresses behind a contact that was modified and the choice of the contact whose time counts (their outcomes are parts of a response), dates and authorization headers of REGISTER requests; an Expires header is taken to be present in the last request, and its value is a number, not its text in eight characters.
- The addition that makes a CSeq of 2^31 overflows in C; the model wraps it around, as compilers commonly do, and says that the number is then not the next one.
- A retry of a REGISTER with credentials on the caller's request, and the expiry of all registrations at once: the first is a request sent and a counter, the second a change of birth times.
- Updates of a counter whose interval is longer than its period: its arrays have no places, and the C code reads and writes outside them.
- Several registrations in one list and the search for them by id; a registration is one object here.
- What `eXosip_call_terminate` does when a call is dropped, and the loop over all calls around the pass over the dialogs of one.
- The value of a challenge apart from its realm (nonce, algorithm, quality of protection), the computation of digests, and a request header that cannot be built: the count of a slot is then used up without being sent.
- Base64.DecodeString: the length times three is taken not to overflow 32 bits.
- The random weights of SRV targets, which the sort does not look at, and the resolver's callbacks.
- Record.Rotate: where the place behind the tenth is read, what follows in memory decides; the model reports a fault and claims nothing more.
- Registry.Update: a pass in which the counter would go beyond the greatest `int` is excluded, for the C addition overflows there.
- The C++ client itself, hash functions, certificate handling, UDP and DTLS transports.

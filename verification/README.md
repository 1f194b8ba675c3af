# Verified models of an Arduino library collection

The repository is a collection of independent Arduino libraries. This project models the algorithms and protocols in
it that are more than plumbing, and proves what they are for. Each component is a module (or a few) of its own: the
source's loops and classes appear as Dafny methods and classes, each tied to a specification function or predicate,
and the lemmas beside them say what that specification means. Sockets, flash chips, SPI registers and display memory
are byte sequences and fields.

| files | component |
|---|---|
| `Mdns.dfy`, `MdnsAnswers.dfy`, `MdnsForeign.dfy`, `MdnsQuery.dfy`, `MdnsResponder.dfy` | the multicast DNS responder: services and replies, its reading of its own and of foreign replies, queries and how it understands them, and its methods |
| `Dns.dfy` | the Ethernet DNS client and the DNS server, as one exchange |
| `Chunked.dfy` | the web server's chunk writer and the HTTP client's chunk reader |
| `Upload.dfy` | the multipart upload scanner |
| `Arguments.dfy` | the web server's argument splitter and percent-decoding |
| `SpiClock.dfy`, `SpiPattern.dfy` | the SPI clock search and its cache; the pattern writer |
| `Line.dfy`, `Circle.dfy` | the two rasterisers of the TFT shield |
| `AvrIsp.dfy` | AVR in-system programming of flash and EEPROM |
| `Mqtt.dfy` | publishing and receiving with the MQTT client |
| `DhcpTimer.dfy`, `Dhcp.dfy` | the DHCP lease machine and its timer |
| `SerialFrame.dfy` | the serial frames of the servo controller |
| `Eeprom.dfy` | the EEPROM emulation over flash that may fail |
| `Wrappers.dfy`, `Bytes.dfy`, `Division.dfy`, `Checksum.dfy`, `NorFlash.dfy` | optional values, bytes, integer functions and floor division, exclusive or, flash cells |

`dafny verify dfyconfig.toml` checks everything.

## What does not hold

Some properties one would expect are false of the code. The model keeps the code as it is, and a lemma or contract
gives the exact condition or the input that shows the failure.

- SPI: `setFrequency(0)` on a zeroed register as the very first call is taken for a repetition and changes nothing
  (`SpiClock.SpiClass.SetFrequency`). `writePattern` sends 64 bytes too many exactly when nothing is left over for the
  last burst, because a length of zero wraps (`SpiPattern.LengthWraps`, `SpiPattern.SpiFifo.WritePattern`). When the
  size of the whole wraps at 32 bits to 64 or less, it sends too little or overruns its buffer.
- Uploads: after CR LF "--" the scanner takes as many bytes as the boundary has without looking for a delimiter among
  them. A part arrives exactly if and only if its content is clean of that (`Upload.ReceivedExactly`); a content that
  ends too soon after such a marker is not (`Upload.LateMarkerIsUnclean`, `Upload.MarkerHidesDelimiter`).
- Serial frames: the decoder does not take a repeated first header byte for a new start. After noise without the second
  one, a frame arrives exactly if the noise ends in an even number of them (`SerialFrame.EvenHeadersKeepFrame`). A
  response that is complete on the first poll is refused if the one before it was (`SerialFrame.Link.GetResponse`). When
  a wait times out inside the head of a frame, the next one completes it with parts of the request
  (`SerialFrame.InterruptedHead`).
- EEPROM: a commit erases the rest of the sector, which survives exactly if nothing was to be written or it was erased
  before (`Eeprom.CommitErasesTail`). So a committed byte can get lost (`Eeprom.CommittedByteLost`).
- DHCP: a call of `checkLease` stays on the timer's grid exactly if the clock does not read zero then; otherwise the next
  call starts a new one (`DhcpTimer.ZeroClockRestartsGrid`). A request that runs out of time leaves the client in a state
  `checkLease` ignores, unless its last turn happens to end in the start state or in a lease (`Dhcp.EndsStranded`); on
  a silent network that depends on the parity of the number of turns (`Dhcp.SilenceStrandsEveryOther`). A renewal that
  finds no free socket does the same (`Dhcp.RenewalWithoutSocket`). It is for ever (`Dhcp.StrandedForEver`). Timers of
  2^31 seconds and more, and so an infinite lease, start out negative (`Dhcp.GrantedCounters`,
  `Dhcp.InfiniteLeaseRebinds`).
- MQTT: the topic's length is always read from the fourth byte, so a message whose remaining length takes more than
  one byte never reaches its slot (`Mqtt.ArrivesExactly`). A remaining length of four bytes, which section 2.2.3 of
  MQTT 3.1.1 allows, is refused (`Mqtt.DecodeInverts`).
- DNS: the codes of `ProcessResponse` are cut to 16 unsigned bits, so a time-out is not recognised and the three tries
  are one (`Dns.DnsClient.AwaitResponse`). The server removes "www." wherever it occurs: no more than the prefix goes
  exactly if it does not occur behind it (`Dns.OnlyPrefixRemoved`), so a query for one name can be answered with the
  address of another (`Dns.OtherNameServed`). A reply cut off inside the name of its question keeps the client's loop
  turning for ever (`Dns.CutName`, `Dns.SkippedOrNever`, `Dns.CutReplyHangs`).
- mDNS: a text of 255 bytes modulo 256 is counted as nothing and sent as 256 bytes, so a text record's length is right
  exactly if its data are below 256 bytes (`Mdns.RunKeepsAccounts`, `Mdns.TextLengthExact`). A registered service is
  found again exactly if its name is shorter than 32 bytes, though 32 are accepted (`Mdns.RegisteredIsFound`). A query
  is also answered by the name of the protocol, or by an instance or host whose name is the service's after an
  underscore (`MdnsAnswers.HeardExactly`).
- mDNS, replies of others: a text record is skipped exactly if it has at most 255 bytes (`MdnsAnswers.TextSkipped`). Of a
  longer one the last byte is left. If that is zero or at least 64, a next record whose name does not begin with a zero
  byte is lost (`MdnsAnswers.RecordAfterLongTextLost`); from 32 to 63 an array is overrun
  (`MdnsAnswers.RecordAfterLongTextUnread`); and if it is one more than the length of that record's first label, the
  record is read whole (`MdnsAnswers.RecordAfterLongTextRead`). For the other bytes below 32 nothing is proved.
- mDNS, compressed names: what is meant to detect one in a pointer record takes an ordinary name for it exactly if its
  last label ends in a byte of 64 or more, such as a letter (`MdnsForeign.OrdinaryNameRead`). The host name so kept is
  replaced by the service record's exactly if the host is not compressed there (`MdnsForeign.SrvHost`); otherwise an
  answer gets a wrong host name (`MdnsForeign.ForeignReplyRead`, `MdnsForeign.Misnamed`, `MdnsForeign.MisnamedHost`).
- Arguments: only values are percent-decoded, not keys, so an encoded key arrives under its own name exactly if the
  encoding is the key itself (`Arguments.EncodedKey`, `Arguments.EncodedKeyStays`).

## Model

| member | source | states |
|---|---|---|
| Mdns.ReplyIsWellFormed | ESP8266mDNS/ESP8266mDNS.cpp:1031-1189 | every reply, for all question and response masks, can be walked by its record lengths to its exact end and holds as many records as its header announces |
| Mdns.RepliesAreWellFormed | ESP8266mDNS/ESP8266mDNS.cpp:227-280 | the same after any run of service and text registrations, if the service's texts take less than 256 bytes |
| Mdns.TextLengthExact | ESP8266mDNS/ESP8266mDNS.cpp:1101-1118 | after any run, the length byte of a text record is that of its data if and only if the data are shorter than 256 bytes |
| Mdns.StepKeepsAccounts | ESP8266mDNS/ESP8266mDNS.cpp:227-280 | each registration keeps the text length equal to what the texts take on the wire, less 256 for each text of length 255 modulo 256 |
| Mdns.RunKeepsAccounts | ESP8266mDNS/ESP8266mDNS.cpp:227-260 | the same over every run of registrations |
| Mdns.FoundIsAccounted | ESP8266mDNS/ESP8266mDNS.cpp:417-451 | what is looked up about a service after any run is accounted for in this way |
| Mdns.CountedSize | ESP8266mDNS/ESP8266mDNS.cpp:230-231 | the 8-bit count of a text is its size on the wire except for wide texts, where it is 256 too small |
| Mdns.RegisteredIsFound | ESP8266mDNS/ESP8266mDNS.cpp:262-280 | a service registered under a new name is found under it if and only if the name has fewer than 32 bytes |
| Mdns.AfterRecordOf | ESP8266mDNS/ESP8266mDNS.cpp:1055-1086 | a record whose length is that of its data is walked over exactly, whatever follows |
| Mdns.NameSizes | ESP8266mDNS/ESP8266mDNS.cpp:1067-1067 | the constants added to the label lengths give the sizes of the names that are sent |
| Mdns.SectionsOf | ESP8266mDNS/ESP8266mDNS.cpp:873-889 | for every list of question types: the answers are exactly what was asked, and the additional records those that section 12 of RFC 6763 adds to a pointer and to a service record |
| Mdns.QuestionsRead | ESP8266mDNS/ESP8266mDNS.cpp:832-850 | the question loop reads back the types of any number of questions about one name |
| MdnsAnswers.PointerReplyReadBack | ESP8266mDNS/ESP8266mDNS.cpp:503-709 | the reply to a pointer question, whatever else was asked, is read back into exactly one answer with the responder's address, port and host name, if and only if a label names the service asked for |
| MdnsAnswers.QuestionsAnswered | ESP8266mDNS/ESP8266mDNS.cpp:503-709 | for every list of questions, the reply gives an answer if and only if a pointer was asked for and the name is heard; otherwise none |
| MdnsAnswers.RegisteredServiceReadBack | ESP8266mDNS/ESP8266mDNS.cpp:994-1195 | the same after any registrations, for labels up to 31 bytes, service names up to 30 and texts below 256 bytes |
| MdnsAnswers.HeardExactly | ESP8266mDNS/ESP8266mDNS.cpp:565-572 | which names a query is answered by: the service, the protocol, or an instance or host with an underscore before it |
| MdnsAnswers.SectionRead | ESP8266mDNS/ESP8266mDNS.cpp:537-705 | the records of a section, read one after the other, leave exactly their effects on what is collected |
| MdnsAnswers.ReadNameOf | ESP8266mDNS/ESP8266mDNS.cpp:538-574 | a name of up to four labels of up to 31 bytes is read to its end |
| MdnsAnswers.SrvRead | ESP8266mDNS/ESP8266mDNS.cpp:628-659 | a service record is read back into its port and host name and skipped to its end |
| MdnsAnswers.ShortReplyIgnored | ESP8266mDNS/ESP8266mDNS.cpp:503-511 | a reply of fewer than four records leads to no answer |
| MdnsAnswers.TextSkipped | ESP8266mDNS/ESP8266mDNS.cpp:584-627 | a text record that is there in full is skipped if and only if it has at most 255 bytes; of a longer one the last byte is left, and from 1460 bytes on the packet is given up |
| MdnsAnswers.RecordAfterLongTextLost | ESP8266mDNS/ESP8266mDNS.cpp:538-673 | if that byte is zero or at least 64, nothing is collected from a next record whose name begins with an ordinary label |
| MdnsAnswers.RecordAfterLongTextUnread | ESP8266mDNS/ESP8266mDNS.cpp:538-574 | a byte from 32 to 63 is taken for a label that does not fit its array |
| MdnsAnswers.RecordAfterLongTextRead | ESP8266mDNS/ESP8266mDNS.cpp:538-673 | a byte one more than the length of the next record's first label, of at most 30 bytes, leaves that record to be read whole |
| MdnsForeign.OrdinaryNameRead | ESP8266mDNS/ESP8266mDNS.cpp:600-614 | an uncompressed name in a pointer record is kept for a host name if and only if its last label ends in a byte of 64 or more |
| MdnsForeign.SrvHost | ESP8266mDNS/ESP8266mDNS.cpp:628-659 | after a service record the host name is the record's, whatever was kept before, if and only if the host is not compressed |
| MdnsForeign.ForeignReplyRead | ESP8266mDNS/ESP8266mDNS.cpp:503-709 | any reply of four records with ordinary owner names is appended if and only if one of them names the service, with its address, its port, and the target's first label or else what the pointer record left |
| MdnsForeign.Misnamed | ESP8266mDNS/ESP8266mDNS.cpp:600-659 | an ordinary pointer name that ends in a letter and a compressed target give a host name that holds length bytes |
| MdnsForeign.MisnamedHost | ESP8266mDNS/ESP8266mDNS.cpp:503-709 | one such packet, with the answer it leads to |
| MdnsQuery.QueryUnderstood | ESP8266mDNS/ESP8266mDNS.cpp:711-826 | the name of a query for a registered service is understood as that service and protocol, whatever host and instance are called |
| MdnsQuery.QueryAnswered | ESP8266mDNS/ESP8266mDNS.cpp:282-370 | the packet sent for such a query gets exactly one reply, the one for a pointer question |
| MdnsQuery.QueryToAnswer | ESP8266mDNS/ESP8266mDNS.cpp:282-709 | after any registrations, a query for a registered service is answered by one packet, and the asking side reads one answer out of it: the address, the port and the host name |
| MdnsQuery.TypeRepliesAreWellFormed | ESP8266mDNS/ESP8266mDNS.cpp:904-992 | every packet of the enumeration of service types can be walked to its exact end |
| MdnsQuery.HostAddressDetermined | ESP8266mDNS/ESP8266mDNS.cpp:829-892 | the reply to a question for a host address depends on host name and address alone |
| MdnsResponder.Responder.AddService | ESP8266mDNS/ESP8266mDNS.cpp:262-280 | registers the service unless it has a port already or its name or protocol does not fit |
| MdnsResponder.Responder.AddServiceTxt | ESP8266mDNS/ESP8266mDNS.cpp:227-260 | appends the text to the first service so named, or refuses it beyond 1300 bytes or when there is none |
| MdnsResponder.Responder.GetServicePort | ESP8266mDNS/ESP8266mDNS.cpp:443-451 | the port of the first service with this name, protocol and a port |
| MdnsResponder.Responder.GetServiceTxtLen | ESP8266mDNS/ESP8266mDNS.cpp:430-441 | the kept text length of that service, zero without texts |
| MdnsResponder.Responder.AppendTexts | ESP8266mDNS/ESP8266mDNS.cpp:1111-1118 | the text loop appends each text behind its length, both cut to a byte |
| MdnsResponder.Responder.AppendSection | ESP8266mDNS/ESP8266mDNS.cpp:1053-1189 | a section is its records in the fixed order |
| MdnsResponder.Responder.ReplyToInstanceRequest | ESP8266mDNS/ESP8266mDNS.cpp:994-1195 | sends exactly the reply the lemmas are about, or nothing for an empty mask |
| MdnsResponder.Responder.ReadQuestions | ESP8266mDNS/ESP8266mDNS.cpp:832-850 | the question loop takes in the types of at most four questions and stops at another name |
| MdnsResponder.Responder.Masks | ESP8266mDNS/ESP8266mDNS.cpp:873-889 | the mask loop gathers what is asked for and what answers it |
| MdnsResponder.Responder.AnswerQuestions | ESP8266mDNS/ESP8266mDNS.cpp:829-892 | a request about a registered service, or about the host, leads to the reply for its questions |
| MdnsResponder.Responder.ReadRecordName | ESP8266mDNS/ESP8266mDNS.cpp:538-574 | the name loop, with its pointer, its limit of four labels and its array of 32 bytes |
| MdnsResponder.Responder.ReadData | ESP8266mDNS/ESP8266mDNS.cpp:584-673 | the branches on the record's type consume what the specification says |
| MdnsResponder.Responder.ReadRecords | ESP8266mDNS/ESP8266mDNS.cpp:537-708 | the record loop stops at the first record with which everything has been collected |
| MdnsResponder.Responder.ParseAnswers | ESP8266mDNS/ESP8266mDNS.cpp:490-709 | appends at most one answer to the list, which a new query empties first, and only while answers are waited for, for a packet of any length |
| MdnsResponder.Responder.TakeRequest | ESP8266mDNS/ESP8266mDNS.cpp:711-826 | the label-by-label reading of a request gives the service, the host, the enumeration or a refusal, as specified |
| MdnsResponder.Responder.ReplyToTypeEnumRequest | ESP8266mDNS/ESP8266mDNS.cpp:904-992 | sends one packet for each service with a port, in order |
| MdnsResponder.Responder.ParsePacket | ESP8266mDNS/ESP8266mDNS.cpp:477-892 | what a packet of any length does: a response brings at most one answer and sends nothing, a request sends exactly its replies and changes nothing else |
| MdnsResponder.Responder.QueryService | ESP8266mDNS/ESP8266mDNS.cpp:282-370 | sends the query packet on each interface and from then on waits for answers to it |
| Dns.Exchange | Ethernet/src/Dns.cpp:175-421 | for every name whose labels fit a length byte, query, reply and parse give exactly the server's address when it answers for every name or for this one, and otherwise the error its code stands for |
| Dns.LabelsOfJoin | Ethernet/src/Dns.cpp:219-238 | splitting a name at its dots undoes joining labels |
| Dns.LabelsAreLabels | Ethernet/src/Dns.cpp:219-238 | what is written as labels is never empty and holds no dot |
| Dns.WalkReadsLabels | DNSServer/src/DNSServer.cpp:86-115 | the server reads the labels the client wrote back, joined by dots |
| Dns.SkipLabelsSkipsName | Ethernet/src/Dns.cpp:315-335 | the client's skip loop passes over the name it wrote, whatever follows |
| Dns.ServesQuery | DNSServer/src/DNSServer.cpp:49-76 | the server's reply to such a query: the address if it answers for the name, else the error code |
| Dns.AddressArrives | Ethernet/src/Dns.cpp:278-421 | the client takes the server's address out of the reply |
| Dns.ErrorArrives | Ethernet/src/Dns.cpp:294-310 | an error reply is never a success, whatever the code |
| Dns.CutName | Ethernet/src/Dns.cpp:317-329 | of a written name cut anywhere, an end is found if and only if its terminator is still there |
| Dns.SkippedOrNever | Ethernet/src/Dns.cpp:317-329 | for every input: where an end is found the loop reaches it after finitely many turns, and otherwise its counter is at 255 after every number of turns |
| Dns.CutReplyHangs | Ethernet/src/Dns.cpp:313-336 | a reply whose question is cut keeps the client in that loop for ever if and only if at least one byte of the name and not all of it is there |
| Dns.OnlyPrefixRemoved | DNSServer/src/DNSServer.cpp:43-47 | just the prefix is removed from a name if and only if "www." does not occur in what remains |
| Dns.OtherNameServed | DNSServer/src/DNSServer.cpp:43-76 | a client that asks for awww.b gets the address of ab |
| Dns.DnsClient.PutName | Ethernet/src/Dns.cpp:216-238 | the pointer-walking loop writes exactly the labels of the name, each after its length |
| Dns.DnsClient.BuildRequest | Ethernet/src/Dns.cpp:195-251 | the whole query, for every name without a zero byte |
| Dns.DnsClient.SkipLabel | Ethernet/src/Dns.cpp:324-327 | the counted loop takes as many bytes as the label has and leaves its counter wrapped to 255 |
| Dns.DnsClient.SkipQuestionName | Ethernet/src/Dns.cpp:315-329 | skips one name, relying on that counter to go on |
| Dns.DnsClient.SkipName | Ethernet/src/Dns.cpp:345-377 | skips an answer's name, labels or pointer |
| Dns.DnsClient.FindAnswer | Ethernet/src/Dns.cpp:343-421 | finds the first address record, and refuses one whose length is not four |
| Dns.DnsClient.ProcessResponse | Ethernet/src/Dns.cpp:255-421 | the checks in their order, with their codes, for every packet |
| Dns.DnsClient.AwaitResponse | Ethernet/src/Dns.cpp:154-161 | the loop meant to try three times settles on the first arrival |
| Dns.DnsServer.GetDomainName | DNSServer/src/DNSServer.cpp:86-115 | the name loop gives the labels joined by dots, normalised |
| Dns.DnsServer.ReplyWithIp | DNSServer/src/DNSServer.cpp:117-143 | the request edited in place, with the address record behind it |
| Dns.DnsServer.ReplyWithCustomCode | DNSServer/src/DNSServer.cpp:161-171 | the edited header alone, without its question |
| Dns.DnsServer.ProcessNextRequest | DNSServer/src/DNSServer.cpp:49-76 | what is sent for every packet, or that the name runs past its end |
| Chunked.HexReadsBack | ESP8266WebServer/src/ESP8266WebServer.cpp:329-333 | a printed chunk length is read back as that number if and only if it is at most 2^31-1; a larger one is read as that |
| Chunked.ChunkReads | ESP8266HTTPClient/src/ESP8266HTTPClient.cpp:602-649 | reading one written chunk gives its content and goes on behind it; an empty one ends the body |
| Chunked.ChunksReadBack | ESP8266HTTPClient/src/ESP8266HTTPClient.cpp:603-652 | any contents, sent chunk by chunk and closed by an empty one, are read back as their concatenation |
| Chunked.ChunksSnoc | ESP8266WebServer/src/ESP8266WebServer.cpp:327-342 | one more call appends one more chunk |
| Chunked.ESP8266WebServer.SendContent | ESP8266WebServer/src/ESP8266WebServer.cpp:327-342 | what one call writes, chunked or not |
| Chunked.HttpClient.WriteBuffer | ESP8266HTTPClient/src/ESP8266HTTPClient.cpp:1032-1073 | a block goes to the stream in one or two writes; the error is told exactly if the first takes all but an error is or was flagged, or the second leaves something over or flags one |
| Chunked.HttpClient.WriteToStreamDataBlock | ESP8266HTTPClient/src/ESP8266HTTPClient.cpp:997-1101 | copies exactly the announced block, however the bytes become available |
| Chunked.HttpClient.CopyChunk | ESP8266HTTPClient/src/ESP8266HTTPClient.cpp:602-649 | one turn of the chunk loop, with its errors |
| Chunked.HttpClient.WriteToStream | ESP8266HTTPClient/src/ESP8266HTTPClient.cpp:581-662 | a willing stream gets exactly the body, the result is its length, and a result of zero or more is never given for less |
| Chunked.Transfer | ESP8266HTTPClient/src/ESP8266HTTPClient.cpp:581-662 | server and client together: any contents sent one by one and closed by an empty one arrive in the stream as their concatenation, however the bytes become available, and the result is its length unless another one had been announced |
| Upload.ReceivedExactly | ESP8266WebServer/src/Parsing.cpp:470-543 | a part is received exactly, whatever follows its delimiter, if and only if its content is clean |
| Upload.LateMarkerIsUnclean | ESP8266WebServer/src/Parsing.cpp:484-528 | any content that ends fewer bytes behind a marker than the boundary has is unclean |
| Upload.MarkerHidesDelimiter | ESP8266WebServer/src/Parsing.cpp:484-528 | so the content CR LF "--" is not received, for every boundary |
| Upload.NoMarkerIsClean | ESP8266WebServer/src/Parsing.cpp:470-543 | content without CR LF "--" is clean |
| Upload.NothingLost | ESP8266WebServer/src/Parsing.cpp:470-543 | a part that ends is everything before its delimiter, for every stream |
| Upload.AbortLosesLittle | ESP8266WebServer/src/Parsing.cpp:472-538 | an upload cut off by the client has written all but at most four of the bytes that came, and nothing else |
| Upload.BlocksOfContent | ESP8266WebServer/src/Parsing.cpp:347-355 | the blocks a content is handed over in are together the content, all but the last have exactly 2048 bytes, and the last at most that |
| Upload.BlocksSnoc | ESP8266WebServer/src/Parsing.cpp:347-355 | one more byte goes into the last block, or opens a new one exactly behind a full one |
| Upload.UploadServer.UploadWriteByte | ESP8266WebServer/src/Parsing.cpp:347-355 | a byte is appended; the callback fires exactly on a full buffer, with that buffer, and earlier callbacks stay |
| Upload.UploadServer.Flush | ESP8266WebServer/src/Parsing.cpp:348-353 | one callback, with what the buffer holds, is added behind the earlier ones, and the total grows by its size |
| Upload.UploadServer.ScanFile | ESP8266WebServer/src/Parsing.cpp:456-545 | the goto machine ends with exactly the outcome of the scan: content, status, total size, and the callbacks, which are the blocks of the content; on an abort the full ones so far |
| Arguments.WebServer.ParseArguments | ESP8266WebServer/src/Parsing.cpp:272-345 | the index-chasing loops produce exactly the '&'-segments with an '=', in order, split at the first one, the value decoded |
| Arguments.WebServer.CountSegments | ESP8266WebServer/src/Parsing.cpp:285-293 | the counting loop gives the number of segments, so the array allotted suffices |
| Arguments.FoundFromIsSegments | ESP8266WebServer/src/Parsing.cpp:300-339 | walking the text by the two index searches is splitting it into segments |
| Arguments.SegmentsOfJoin | ESP8266WebServer/src/Parsing.cpp:303-338 | splitting undoes joining segments free of '&' |
| Arguments.JoinOfSegments | ESP8266WebServer/src/Parsing.cpp:303-338 | joining undoes splitting, for every text |
| Arguments.DecodeInverts | ESP8266WebServer/src/Parsing.cpp:575-604 | decoding undoes every percent-encoding of a text in the sense of section 2.1 of RFC 3986 |
| Arguments.EncodeAllEncodes | ESP8266WebServer/src/Parsing.cpp:575-604 | every text has such an encoding without the two separators |
| Arguments.UrlDecode | ESP8266WebServer/src/Parsing.cpp:575-604 | the loop computes the decoding, and never a longer text |
| Arguments.FormRoundTrip | ESP8266WebServer/src/Parsing.cpp:272-345 | a form whose fields are encoded and joined arrives as its fields |
| Arguments.EncodedKey | ESP8266WebServer/src/Parsing.cpp:303-338 | a field whose key and value are encoded arrives with its value decoded and its key not, so under its key if and only if the encoding is the key itself |
| Arguments.EncodedKeyStays | ESP8266WebServer/src/Parsing.cpp:303-338 | the key a, sent as %61, arrives as %61 |
| SpiClock.VariantsSuffice | SPI/SPI.cpp:235-262 | the prescalers tried for one N are as close from below as any of the 8192 |
| SpiClock.Search | SPI/SPI.cpp:220-271 | the register found is at or below the request, and no N in 1..63 with any prescaler is closer |
| SpiClock.BestFrequencyUnique | SPI/SPI.cpp:217-270 | any two best registers run the bus equally fast |
| SpiClock.FieldsOfValue | SPI/SPI.cpp:31-40 | the register's fields are read back from its value |
| SpiClock.SlowestFeasible | SPI/SPI.cpp:210-218 | from the slowest frequency on there is always a setting at or below the request |
| SpiClock.SpiClass.SetFrequency | SPI/SPI.cpp:196-277 | below the clock the register ends up right whatever the cache held, if and only if the request is not the zero one on a zeroed register with a fresh cache |
| SpiClock.SpiClass.SetClockDivider | SPI/SPI.cpp:279-286 | register and system-clock bit agree |
| SpiPattern.LongCovers | SPI/SPI.cpp:456-487 | the full bursts and the start of the block still in the FIFO together are the whole repetition |
| SpiPattern.SpiFifo.FillBuffer | SPI/SPI.cpp:456-467 | the block buffer holds the pattern as often as it fits |
| SpiPattern.SpiFifo.SetDataBits | SPI/SPI.cpp:288-292 | the command then sends as many bits as asked for, and 512 for a count of zero |
| SpiPattern.LengthWraps | SPI/SPI.cpp:288-292 | the nine-bit field of the count less one stands for the count if and only if that is between 1 and 512; for zero it stands for 512 |
| SpiPattern.SpiFifo.WritePattern | SPI/SPI.cpp:421-490 | the wire carries exactly the repetition if and only if its size does not wrap at 32 bits to 64 or less and something is left for the last burst; what it carries otherwise, and when the buffer is overrun |
| SpiPattern.WrapsTo | SPI/SPI.cpp:435-451 | where the size wraps, it is that of as many patterns as the 8-bit counter counts, if they fit the buffer |
| Line.Accuracy | TFT_Touch_Shield_V2/TFTv2.cpp:328-349 | every pixel is within half a pixel of the line |
| Line.PixelsConnect | TFT_Touch_Shield_V2/TFTv2.cpp:328-349 | first pixel, last pixel, and consecutive ones are neighbours |
| Line.OnLineIsRounded | TFT_Touch_Shield_V2/TFTv2.cpp:336-347 | the positions the error term allows are the rounded ones of the closed form |
| Line.EndsTogether | TFT_Touch_Shield_V2/TFTv2.cpp:338-346 | neither of the two exits can fire before both axes have ended |
| Line.Advance | TFT_Touch_Shield_V2/TFTv2.cpp:336-347 | one turn of the loop stops exactly at the far end and otherwise takes one step along the longer axis |
| Line.Canvas.DrawLine | TFT_Touch_Shield_V2/TFTv2.cpp:328-349 | for all endpoints, exactly the pixels of the closed form, as many as the longer difference and one, in order |
| Circle.Accuracy | TFT_Touch_Shield_V2/TFTv2.cpp:368-383 | every plotted offset misses the squared radius by at most the radius and stays in the square |
| Circle.NearestIsHalfPixel | TFT_Touch_Shield_V2/TFTv2.cpp:368-383 | the plotted offsets are those the true circle passes within half a pixel of |
| Circle.AxisPoints | TFT_Touch_Shield_V2/TFTv2.cpp:368-383 | the four axis points are plotted |
| Circle.NothingSkipped | TFT_Touch_Shield_V2/TFTv2.cpp:372-382 | no nearest offset is lost where the walk crosses the diagonal |
| Circle.StepStays | TFT_Touch_Shield_V2/TFTv2.cpp:376-381 | each step leads from one nearest offset to the next |
| Circle.Canvas.Advance | TFT_Touch_Shield_V2/TFTv2.cpp:376-381 | the body keeps the error term's meaning and advances |
| Circle.Canvas.DrawCircle | TFT_Touch_Shield_V2/TFTv2.cpp:368-383 | for every radius the loop ends, and the pixels set are exactly the nearest offsets in all four quadrants |
| AvrIsp.BurnedReadsBack | ESP8266AVRISP/src/ESP8266AVRISP.cpp:364-375 | reading the flash from where writing began gives the bytes written |
| AvrIsp.ProgressTurnsPage | ESP8266AVRISP/src/ESP8266AVRISP.cpp:284-290 | a page is left only when it is full, and nothing of it stays in the buffer |
| AvrIsp.PageBounds | ESP8266AVRISP/src/ESP8266AVRISP.cpp:246-255 | for the four page sizes, the mask gives the start of the page the address is in |
| AvrIsp.Programmer.WriteFlashPages | ESP8266AVRISP/src/ESP8266AVRISP.cpp:281-296 | exactly the words from the current address on are programmed, each touched page is committed once, in increasing order, and the buffer ends up clear |
| AvrIsp.Programmer.FlashReadPage | ESP8266AVRISP/src/ESP8266AVRISP.cpp:364-375 | sends the flash bytes from the current address on, then OK |
| AvrIsp.SplicedAppend | ESP8266AVRISP/src/ESP8266AVRISP.cpp:307-313 | chunks written one behind the other are one write |
| AvrIsp.Programmer.WriteEepromChunk | ESP8266AVRISP/src/ESP8266AVRISP.cpp:317-330 | the bytes taken from the client are in the EEPROM at their addresses, and nothing else changed |
| AvrIsp.Programmer.WriteEeprom | ESP8266AVRISP/src/ESP8266AVRISP.cpp:298-315 | a request larger than the EEPROM is refused; any other is written whole, in chunks |
| AvrIsp.Programmer.EepromReadPage | ESP8266AVRISP/src/ESP8266AVRISP.cpp:377-391 | sends the EEPROM bytes from twice the word address, then OK |
| Mqtt.DecodeInverts | Adafruit_MQTT_Library/Adafruit_MQTT.cpp:237-254 | the written remaining length is read back for every number of up to three bytes, and any longer one is refused |
| Mqtt.FetchesPublished | Adafruit_MQTT_Library/Adafruit_MQTT.cpp:224-267 | of any published packet of 16-bit length, the reader takes all or as much as its buffer holds |
| Mqtt.ArrivesExactly | Adafruit_MQTT_Library/Adafruit_MQTT.cpp:453-518 | a published message reaches the first slot whose topic is the same ignoring case if and only if its remaining length is at most 127; it is then kept whole up to 100 bytes, else its first 99, and acknowledged with the sender's id |
| Mqtt.AckAccepted | Adafruit_MQTT_Library/Adafruit_MQTT.cpp:307-322 | the sender accepts an acknowledgement if and only if it carries the id of the packet just published |
| Mqtt.NothingHeard | Adafruit_MQTT_Library/Adafruit_MQTT.cpp:463-482 | an empty topic, or one that starts with a zero byte, finds no slot with a topic |
| Mqtt.Mqtt.ReadLength | Adafruit_MQTT_Library/Adafruit_MQTT.cpp:237-254 | the length loop computes the decoding, with its limit |
| Mqtt.Mqtt.ReadFullPacket | Adafruit_MQTT_Library/Adafruit_MQTT.cpp:224-267 | what is taken from the stream, what is in the buffer, and the length returned |
| Mqtt.Mqtt.FindSubscription | Adafruit_MQTT_Library/Adafruit_MQTT.cpp:467-482 | the slot loop finds the first slot with the packet's topic |
| Mqtt.Mqtt.SameTopic | Adafruit_MQTT_Library/Adafruit_MQTT.cpp:34-43 | the comparison is equality ignoring case over the length |
| Mqtt.Mqtt.StoreMessage | Adafruit_MQTT_Library/Adafruit_MQTT.cpp:484-514 | what the slot holds and what is sent back |
| Mqtt.Mqtt.ReadSubscription | Adafruit_MQTT_Library/Adafruit_MQTT.cpp:453-518 | one call delivers as the specification says and leaves every other slot alone |
| Mqtt.Mqtt.PutLength | Adafruit_MQTT_Library/Adafruit_MQTT.cpp:655-664 | the do-while loop writes the length, low seven bits first |
| Mqtt.Mqtt.StringPrint | Adafruit_MQTT_Library/Adafruit_MQTT.cpp:77-95 | a string behind its 16-bit length |
| Mqtt.Mqtt.PublishPacket | Adafruit_MQTT_Library/Adafruit_MQTT.cpp:636-684 | the packet built through the moving pointer, and the id moved on |
| Mqtt.Mqtt.PublishMessage | Adafruit_MQTT_Library/Adafruit_MQTT.cpp:300-326 | success means quality of service 0 or the right acknowledgement; the packet is too long for the buffer exactly beyond 150 bytes |
| DhcpTimer.NoDrift | Ethernet/src/Dhcp.cpp:394-441 | over any calls less than half a wrap apart the timeout stays on one grid, and a counter is its start less the grid seconds gone, cleared early only within one longest deduction and never negative |
| DhcpTimer.TickStaysOnGrid | Ethernet/src/Dhcp.cpp:399-423 | one call advances the timeout by 1000 times the seconds it deducts |
| DhcpTimer.ZeroClockRestartsGrid | Ethernet/src/Dhcp.cpp:396-443 | a call stays on the grid if and only if the clock does not read zero; after a zero reading the next call deducts nothing and starts a new grid |
| Dhcp.OptionsKeep | Ethernet/src/Dhcp.cpp:292-376 | no option touches state, transaction, address or hardware address |
| Dhcp.TurnKeeps | Ethernet/src/Dhcp.cpp:59-121 | one turn leases only by taking an acknowledgement, and takes at most one reply |
| Dhcp.LeasedOnlyByAck | Ethernet/src/Dhcp.cpp:36-129 | a run ends with 1 if and only if it ends leased, and then the last reply taken was an acknowledgement from the server port, to our hardware address, with a transaction id in range, whose address is now in use |
| Dhcp.AskedOnlyByAck | Ethernet/src/Dhcp.cpp:36-129 | the same for a whole request, with its fresh transaction id |
| Dhcp.OfferThenAckLeases | Ethernet/src/Dhcp.cpp:59-121 | an acceptable offer and then an acceptable acknowledgement do lead to a lease, whatever unacceptable datagrams come before each and whatever comes after |
| Dhcp.EndsStranded | Ethernet/src/Dhcp.cpp:36-129 | for every inbox and number of turns: the loop leaves the client waiting unless its last turn timed out waiting, or took the refusal or the acknowledgement of its request |
| Dhcp.SilenceStrandsEveryOther | Ethernet/src/Dhcp.cpp:59-121 | on a silent network the state after every number of turns, which is a waiting one if and only if that number is even |
| Dhcp.AskedEndsStranded | Ethernet/src/Dhcp.cpp:26-44 | a whole request strands the client as its loop does, and without a socket if and only if it was to renew a lease |
| Dhcp.StrandedForEver | Ethernet/src/Dhcp.cpp:394-445 | over any list of checkLease calls a waiting client stays as it is, sends nothing and takes no reply |
| Dhcp.RenewalWithoutSocket | Ethernet/src/Dhcp.cpp:425-432 | one renewal that gets no socket strands the client over any later calls, with its address kept |
| Dhcp.GrantedCounters | Ethernet/src/Dhcp.cpp:92-108 | the counters of a granted lease start non-negative if and only if the timers received, or what replaces those that are missing, are below 2^31 |
| Dhcp.InfiniteLeaseRebinds | Ethernet/src/Dhcp.cpp:95-108 | an infinite lease without timers is due for a rebind at once |
| Dhcp.CheckedOutcome | Ethernet/src/Dhcp.cpp:425-444 | what the code returned by checkLease tells, and that a waiting client is never woken |
| Dhcp.DhcpClass.ParseAllOptions | Ethernet/src/Dhcp.cpp:292-376 | the option loop computes the specification for every packet |
| Dhcp.DhcpClass.ParseResponse | Ethernet/src/Dhcp.cpp:253-383 | which replies are accepted and what they change |
| Dhcp.DhcpClass.RequestLease | Ethernet/src/Dhcp.cpp:36-129 | the state machine's loop, turn by turn, for every sequence of replies |
| Dhcp.DhcpClass.CheckLease | Ethernet/src/Dhcp.cpp:394-445 | the whole state after a call: the tick, then the renewal, then the rebind, as they are due |
| SerialFrame.StreamDecodes | ZerooneSupermodified_T3X_Wire/ZerooneSupermodified_T3X_Wire.cpp:1142-1212 | any list of packets to the local node, with harmless noise before each, is decoded to exactly that list |
| SerialFrame.HarmlessIsEven | ZerooneSupermodified_T3X_Wire/ZerooneSupermodified_T3X_Wire.cpp:1155-1167 | noise without the second header byte is harmless if and only if it ends in an even number of the first |
| SerialFrame.EvenHeadersKeepFrame | ZerooneSupermodified_T3X_Wire/ZerooneSupermodified_T3X_Wire.cpp:1155-1167 | after such noise any frame to the local node is delivered if and only if that number is even |
| SerialFrame.BytesNeeded | ZerooneSupermodified_T3X_Wire/ZerooneSupermodified_T3X_Wire.cpp:1142-1212 | a packet is delivered only once as many bytes have come as its frame has |
| SerialFrame.StrayHeadersLoseFrame | ZerooneSupermodified_T3X_Wire/ZerooneSupermodified_T3X_Wire.cpp:1155-1167 | a frame that holds no further first header byte is delivered if that number is even, and otherwise nothing at all is |
| SerialFrame.AwaitIsFeed | ZerooneSupermodified_T3X_Wire/ZerooneSupermodified_T3X_Wire.cpp:940-952 | the polling loop returns the first packet that the bytes deliver as they arrive, with empty polls anywhere, and none only if they deliver none in time |
| SerialFrame.ResponseArrives | ZerooneSupermodified_T3X_Wire/ZerooneSupermodified_T3X_Wire.cpp:940-952 | a response complete in time is the packet received, however its bytes are spread over the polls, and nothing is overrun |
| SerialFrame.AwaitAgrees | ZerooneSupermodified_T3X_Wire/ZerooneSupermodified_T3X_Wire.cpp:933-952 | what the packet held before does not matter for a response that begins in this wait |
| SerialFrame.InterruptedHead | ZerooneSupermodified_T3X_Wire/ZerooneSupermodified_T3X_Wire.cpp:933-952 | a frame cut by a timeout inside its head is completed by the next wait with the request's bytes for those read before |
| SerialFrame.DamageUnnoticed | ZerooneSupermodified_T3X_Wire/ZerooneSupermodified_T3X_Wire.cpp:974-986 | damage to command and data passes the check if and only if its bits cancel |
| SerialFrame.SingleByteDetected | ZerooneSupermodified_T3X_Wire/ZerooneSupermodified_T3X_Wire.cpp:956-960 | changing one command or data byte makes the check fail |
| SerialFrame.Link.PutPacketSerial | ZerooneSupermodified_T3X_Wire/ZerooneSupermodified_T3X_Wire.cpp:1107-1140 | writes the encoding of the packet |
| SerialFrame.Link.GetPacketSerial | ZerooneSupermodified_T3X_Wire/ZerooneSupermodified_T3X_Wire.cpp:1142-1212 | one poll takes the decoder one step if a byte has come, and otherwise leaves it alone; a byte count above 22, and only that, leads to an overrun |
| SerialFrame.Link.CalcLrc | ZerooneSupermodified_T3X_Wire/ZerooneSupermodified_T3X_Wire.cpp:974-986 | the loop computes the exclusive or of command, count and data |
| SerialFrame.Link.GetResponse | ZerooneSupermodified_T3X_Wire/ZerooneSupermodified_T3X_Wire.cpp:933-972 | a response is accepted, into the packet of the request, if and only if a packet completes in time, its check is right, it is no error report, and the flag was set or an unsuccessful poll set it, unless more data than fit are announced |
| Eeprom.RunKeepsInv | EEPROM/EEPROM.cpp:51-127 | over any run, with erasing and programming failing at any time, a clear dirty flag means that RAM is the sector's start |
| Eeprom.CommittedBytesReadBack | EEPROM/EEPROM.cpp:51-127 | after a commit that returned true, every later read of a byte that was in RAM gives it back until something is written, across closing and opening with any size |
| Eeprom.CommitErasesTail | EEPROM/EEPROM.cpp:108-127 | a successful commit keeps the rest of the sector if and only if nothing was to be written or it was erased; otherwise it erases it |
| Eeprom.CommittedByteLost | EEPROM/EEPROM.cpp:51-127 | a run in which a committed byte is lost: it lies beyond the size with which the emulation is opened next |
| Eeprom.RoundedSize | EEPROM/EEPROM.cpp:51-58 | sizes are clamped to the sector and rounded up to words |
| Eeprom.EepromClass.Open | EEPROM/EEPROM.cpp:51-69 | begin: RAM is the sector's start, the dirty flag as it was |
| Eeprom.EepromClass.Put | EEPROM/EEPROM.cpp:93-106 | write: sets the flag exactly when a byte changes |
| Eeprom.EepromClass.WriteBack | EEPROM/EEPROM.cpp:108-127 | commit: success means that the sector holds RAM, failure keeps the flag |
| Eeprom.EepromClass.Close | EEPROM/EEPROM.cpp:71-82 | end: a write-back, then RAM is gone |

## Left out

- The AT-command drivers, WiFi, TLS, TCP contexts, firmware updates, register pokes, display initialisation and fonts: they depend on external firmware or hardware, or would add only easy members.
- `fillCircle` of the TFT shield is the loop of `drawCircle` with lines for pixels; the driver's vertical and horizontal line primitives are not modelled.
- Circle.Canvas.DrawCircle: pixels are unbounded integers; that the driver cuts coordinates to 16 bits is not modelled. The same holds for Line.Canvas.DrawLine.
- SpiClock.SpiClass.SetFrequency: the system clock is a parameter from 2^19 up to 2^31, because its value is not part of the modelled files.
- Chunked.HttpClient.WriteToStream: chunk lengths are unbounded integers; sums of 2^31 and more, which overflow in the source, and bodies that are not chunked are not modelled. A connection is open while bytes are left.
- `sendContent_P` of the web server differs from `sendContent` only in where the content lies.
- Upload.UploadServer.ScanFile: the headers of a part, its text fields and what follows the last delimiter are not modelled; where the source compares bytes it never read, the outcome is left open from there on.
- Upload.UploadServer.AfterDashes: the source searches for the boundary in a buffer without a terminating zero; what lies in memory behind the buffer is taken not to complete a boundary that begins inside it.
- Arguments.WebServer.ParseArguments: texts are taken to be free of zero characters, which the source's strings cannot hold.
- AvrIsp.Programmer.WriteFlashPages: for page sizes other than 32, 64, 128 and 256, odd lengths and 16-bit address overflow nothing is claimed. The target chip and its page buffer are a model of the hardware, and waiting for it is left out.
- Mqtt.Mqtt.ReadFullPacket: a remaining length of zero, with which the source's read call takes whatever has come, is modelled as taking nothing; timeouts and lost connections are not modelled.
- Mqtt.Mqtt.PublishMessage: a message that does not fit the 150-byte buffer overruns it in the source; what happens then is not followed. Excluded are topics of more than 144 bytes in a slot. Connecting, subscribing and pinging are not modelled.
- Dhcp.DhcpClass.ParseResponse: what a reply shorter than the fixed part leaves unread on the stack is a parameter. Random transaction ids, free sockets and the number of turns before a timeout are parameters too.
- DhcpTimer.NoDrift: requires gaps below half a wrap of the clock, as the source's signed comparison does.
- SerialFrame.Link.GetPacketSerial: what is overwritten when more than 22 data bytes are announced is not followed; time is counted in polls; the same protocol over the two-wire bus is not modelled.
- SerialFrame.Link.GetResponse: a wait that goes on inside the data of a frame longer than the request writes before the start of the data in the source and is excluded.
- Eeprom.EepromClass.Open: reading the flash succeeds; in the source a failed read goes unnoticed and leaves RAM arbitrary.
- Eeprom.EepromClass.Put: writes through a pointer kept from `getDataPtr` bypass the dirty flag and are not modelled. Allocation does not fail.
- Dns.DnsClient.ProcessResponse: when a first length or a type is read past the end of the packet the source goes on with what the variable held; the outcome is then undetermined. Parsing of numeric addresses is not modelled.
- Dns.DnsServer.ProcessNextRequest: reading a name past the end of the packet is reported, not followed.
- MdnsResponder.Responder.ParseAnswers: a name cut off inside a label, or a label of more than 31 bytes, which writes past an array in the source, has no determined outcome. A 16-bit number is taken to be read high byte first, as its two reads are written.
- MdnsResponder.Responder.TakeRequest: a label cut off or too long for its array leaves the source comparing what its arrays held; the request is then taken to be unread and gets no reply.
- MdnsResponder.Responder.ParsePacket: the address to give and the two bytes in memory behind an empty protocol are parameters; the choice of network interface and the wait for answers are not modelled.
- SpiPattern.SpiFifo.WritePattern: what an overrun of the buffer overwrites is not followed.
- The responder's linked lists of services, texts and answers are sequences reassigned by the methods, so sharing and freeing of their nodes is not captured.
- NetBIOS names, Dynamixel checksums, tickers, hashes and the thin wrappers of the repository would add only easy members.

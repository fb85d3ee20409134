# Verified model of the DNS forwarder

The program is a DNS server that answers local zones itself and forwards everything else over
HTTPS, with a cache in between. These Dafny modules model the parts of it that turn bytes into
meaning and back, and prove what those parts promise each other:

* `Wire`, `Names`, `Messages`, `Frames`, `RoundTrip`, `RawRdata`: the message format of section 4.1
  of RFC 1035 with name compression. `Names.Walk` says what a name in a message is; the parser finds
  exactly the walks with at most 16 jumps. Parsing and printing are inverse, and printing what was
  parsed changes bytes but not meaning, under a condition that is proved to be exact.
* `Grammar`: the same format once more, as a relation between bytes and packets that mentions no parser,
  and the proof that the parsers decide exactly that relation.
* `Buffers`, `Packets`, `Requests`, `RequestMeaning`: the classes and in-place loops that do the parsing and printing.
  Every method is proved against the functions of `Messages`. A query with printed additional records
  means its header, its questions and a verdict on those records.
* `Edns`: the additional-section walk of the request parser (section 6.1 of RFC 6891) as a state
  machine, and a closed form of the status it ends in.
* `CacheWalk`, `Cache`, `CacheRuns`, `CacheMeaning`, `HitExactly`, `HitWitness`: the two TTL walkers of the cache,
  the cache as a class, its runs as sequences of events, which insertion a hit goes back to, what a hit means as a parsed message, the
  exact condition for that, and a stored message that does not meet it.
* `Responses`, `RdataMeaning`, `BuilderMeaning`, `OptRecords`: the builders for local answers and the
  OPT appender, what their record data says when it is read on its own, and what their output parses
  back to.
* `Text`, `NameText`, `Ipv6Text`, `LocalZones`, `Base64Url`, `Failover`: dotted names, IPv6 text,
  local zone lookup with the bounded CNAME chase, base64url, and the resolver failover budget.

Bytes are 0..255 in sequences; buffers that are written in place are arrays or the `Buffer` class.
16-bit and 32-bit fields are bounded integers in big-endian order, so host order does not appear.
Where the source adds in 16 bits (the three counts of the cache walkers, ARCOUNT + 1, RDLENGTH of an
oversized RDATA) the model wraps too.

How to read a proof: a method's `ensures` ties it to a function (`ParseResponse`, `PrintResponse`,
`WithOpt`, `Run`, `Slots`, ...) or to a relation over states (`Step`), and the lemmas below state
what that function or relation is worth.

## Model

| member | source | states |
|---|---|---|
| Names.ParseDomainName | src/dns_packet_answer.cc:1024-1075 | terminates on every buffer (hops left, bytes left); succeeds exactly when a walk with at most 16 jumps spells a name at the offset; returns that walk's labels and the offset past its zero byte or first pointer |
| Names.ParseNameExact | src/dns_packet_answer.cc:1024-1075 | for any hop budget: parsing succeeds iff a walk within the budget exists, and every such walk is the result |
| Names.ParseNameUnique | src/dns_packet_answer.cc:1024-1075 | what is parsed is the only reading of the name, whatever its number of jumps |
| Names.WalkIsUnique | src/dns_packet_answer.cc:1024-1075 | the bytes determine the walk, pointer cycles included |
| Names.PointerMask | src/dns_packet_answer.cc:1040-1056 | the mask test for a pointer and the mask of its offset, on every byte, are the comparison and subtraction used here |
| Names.TargetIsLowBits | src/dns_packet_answer.cc:1055 | the offset a pointer names is the low 14 bits of its two bytes read as one big-endian word |
| Names.TargetBits | src/dns_packet_answer.cc:1055 | the source's mask, shift and disjunction give those 14 bits |
| Names.PointerToPrintedName | src/dns_packet_answer.cc:1041-1056 | for every offset below 0x4000, a name printed there is what a pointer to it stands for, anywhere in the message |
| Names.ParsedLabelsAreValid | src/dns_packet_answer.cc:1059-1072 | every returned label has 1 to 63 bytes |
| Names.NameFrame | src/dns_packet_answer.cc:1024-1075 | a name parses the same in any buffer that agrees on the bytes its resolution reads |
| Names.PrintedNameParses | src/dns_packet_answer.cc:931-953 | a printed name parses back, inside any message, at its own size, reading nothing but itself |
| Names.SkipDnsName | src/dns_cache.cc:116-135 | the loop computes the cheap skip, 0 for failure |
| Names.SkippersAgreeWithParser | src/dns_cache.cc:116-135 | whenever the full parser succeeds, the cache's skipper and the owner walk of the EDNS loop end where it ends |
| Edns.OwnerEndAgrees | src/dns_packet.cc:258-311 | on any record the answer parser accepts, the EDNS loop finds room and moves to the same next record |
| Frames.DecompressFrame | src/dns_packet_answer.cc:800-870 | RDATA expands the same in any buffer that agrees on the bytes its names' resolution reads |
| Frames.AnswersFrame | src/dns_packet_answer.cc:872-929 | if only TTL fields change, a section parses to the same records with those TTLs |
| Packets.EncodeDomainLabels | src/dns_packet_answer.cc:789-795 | every label behind its length cast to a byte, and the zero byte; for labels of 1 to 63 bytes that is the wire form |
| Packets.DecompressRdata | src/dns_packet_answer.cc:800-870 | per type: prefix, expanded names, suffix; on failure the RDATA passed in is untouched |
| Packets.QuestionFromWire | src/dns_packet_question.cc:440-463 | one question as `ParseQuestion` defines it, or failure |
| Packets.AnswerFromWire | src/dns_packet_answer.cc:872-929 | one record as `ParseAnswer` defines it; raw RDATA is kept when decompression fails |
| Packets.NameToWire | src/dns_packet_answer.cc:944-953 | the name is written at the offset and no byte around it changes |
| Packets.QuestionToWire | src/dns_packet_question.cc:465-498 | 0 and an untouched buffer if the question does not fit, else its bytes in place |
| Packets.AnswerToWire | src/dns_packet_answer.cc:931-976 | 0 and an untouched buffer if the record does not fit, else its bytes in place |
| Packets.DnsResponsePacket.FromWire | src/dns_packet.cc:699-771 | accepts exactly the buffers that mean a response, and then holds that response |
| Packets.DnsResponsePacket.ToWire | src/dns_packet.cc:773-830 | writes exactly WireSize bytes of the printed packet, or nothing if they do not fit |
| Messages.PrintResponse | src/dns_packet.cc:680-697 | the printed packet is as long as the WireSize fold says |
| Messages.ResponseParts | src/dns_packet.cc:699-771 | the sections of an accepted message lie one behind the other, each parsed from where the one before ended |
| Wire.BigEndian | src/dns_cache.cc:137-143 | 16-bit and 32-bit fields are read with the most significant byte first |
| Grammar.ResponseExactly | src/dns_packet.cc:699-771 | the response parser accepts a buffer exactly when it is a message of section 4.1 of RFC 1035, field by field and byte by byte, and returns what it says |
| Grammar.RequestExactly | src/dns_packet.cc:207-417 | the request parser too; its EDNS walk starts where the questions end and covers ARCOUNT records |
| Grammar.RecordExactly | src/dns_packet_answer.cc:872-929 | one record: owner name, TYPE, CLASS, TTL, RDLENGTH, and RDATA expanded if it resolves and raw if not |
| Grammar.ExpandedExactly | src/dns_packet_answer.cc:800-870 | names are expanded in the RDATA of types 2, 5, 6, 12, 15 and 33, each in its place, and of no other type |
| Grammar.FlagBits | src/dns_packet_header.cc:133-160 | QR, RD and Z are these bits of the third and fourth byte |
| RoundTrip.SelfContainedDecompresses | src/dns_packet_answer.cc:800-870 | RDATA holding whole uncompressed names expands to itself wherever it lies |
| RoundTrip.SelfContainedIffDecompressed | src/dns_packet_answer.cc:907-929 | the stored RDATA is self-contained iff decompression succeeded |
| RoundTrip.RoundTripExactly | src/dns_packet.cc:699-830 | for every packet with right RDLENGTHs: FromWire after ToWire returns it iff it is a well-formed response and no RDATA changes when expanded in the printed message |
| RoundTrip.SelfContainedRoundTrip | src/dns_packet.cc:773-830 | QR=1, Z=0, matching counts, labels of 1 to 63 bytes, self-contained RDATA: the packet comes back and all bytes are consumed |
| RoundTrip.ParsedIsWellFormed | src/dns_packet.cc:699-771 | whatever FromWire accepts satisfies the round trip's conditions on header, counts and labels, whatever its RDATA sizes |
| RoundTrip.RecordEndsExactly | src/dns_packet_answer.cc:1077-1080 | without the assertion, a printed record whose RDLENGTH wrapped still parses, but the next record is looked for where it is iff the RDATA fits 65535 bytes |
| RoundTrip.ResponseSelfContained | src/dns_packet_answer.cc:907-929 | a parsed packet has self-contained RDATA throughout iff no DecompressRDATA call failed |
| RoundTrip.ParsePrintParse | src/dns_packet.cc:699-830 | an accepted message whose RDATA all decompressed and fits: the printed packet, now without pointers, parses to the same packet |
| RawRdata.ParsePrintParseExactly | src/dns_packet_answer.cc:907-929 | without that condition: the packet comes back iff whatever failed to decompress fails again in the printed message |
| RawRdata.PrintingCanChangeMeaning | src/dns_packet_answer.cc:907-929 | a 33-byte response whose raw RDATA starts to resolve once printed, so that the packet does not come back |
| Requests.DnsRequestPacket.FromWire | src/dns_packet.cc:207-417 | accepts exactly the buffers with a request header and readable questions, and classifies their additional section |
| Requests.DnsRequestPacket.ReadAdditional | src/dns_packet.cc:250-416 | the loop with its early returns is the state machine `Run` |
| Requests.SkipOwner | src/dns_packet.cc:265-302 | the inline name walk |
| Requests.ReadOptions | src/dns_packet.cc:369-391 | the options returned are the consecutive TLVs of the RDATA with fewer than 4 bytes left over; failure iff a length runs out of bounds |
| Requests.DnsRequestPacket.ToWire | src/dns_packet.cc:419-449 | header and questions are written, or nothing if they do not fit |
| Requests.RequestRoundTripExactly | src/dns_packet.cc:207-449 | a request comes back iff it is well formed; with ARCOUNT above 0, which ToWire prints without any record, the EDNS status becomes Malformed |
| Edns.OptionsExact | src/dns_packet.cc:369-391 | option parsing returns xs iff xs, printed, fill the RDATA up to fewer than 4 bytes |
| Grammar.OptionsExactly | src/dns_packet.cc:369-391 | the options returned are code, length and data one after the other, on the bytes |
| Edns.RunClassifies | src/dns_packet.cc:248-416 | the status the state machine ends in, in closed form, for every buffer and count |
| Edns.RunAfterOpt | src/dns_packet.cc:248-416 | after the first OPT record no later record can return the status to Ok |
| Edns.OkExactly | src/dns_packet.cc:248-416 | Ok iff the walk reaches the end of all ARCOUNT records, exactly one is OPT, its owner is the root, its version is 0 and its options are in bounds; then its contents are what is stored |
| Edns.StoredIsFirstOpt | src/dns_packet.cc:314-403 | when the walk reaches the end, the stored EDNS data are those of the first OPT record, if it can be decoded |
| Edns.RunStoresFittingOptions | src/dns_packet.cc:357-393 | stored options never print to more than 65535 bytes |
| RequestMeaning.QueryMeaning | src/dns_packet.cc:207-417 | a printed query with any printed additional records parses to its header, its questions and the verdict on those records |
| RequestMeaning.RecordsJudged | src/dns_packet.cc:250-416 | wherever printed records lie, the walk over them ends in their verdict |
| RequestMeaning.OneOptIsOk | src/dns_packet.cc:314-403 | exactly one OPT record, owned by the root, of version 0 and with readable options: Ok, and its payload size of at least 512, extended RCODE, version, DO bit and options are stored |
| RequestMeaning.OtherVerdicts | src/dns_packet.cc:314-326 | no OPT record: no EDNS data; two of them, the first not malformed: DuplicateOpt |
| CacheWalk.ExtractMinTtl | src/dns_cache.cc:160-214 | the smallest TTL at the visited slots, 0 if there is none |
| CacheWalk.MinTtlMeaning | src/dns_cache.cc:160-214 | a positive result is attained and minimal; 0 iff a visited TTL is 0 or none below 2^32-1 is visited |
| CacheWalk.SlotsTruncated | src/dns_cache.cc:160-214 | cutting any message short keeps exactly the slots of the records whose fixed fields are still there |
| CacheWalk.AdjustTtls | src/dns_cache.cc:219-274 | although the loop reads the buffer it rewrites, exactly the slots ExtractMinTtl visits in the original are rewritten, truncated messages included, and no other byte changes |
| Cache.SlotsIgnoreId | src/dns_cache.cc:39-53 | patching the ID moves no slot |
| Cache.RewrittenIsServed | src/dns_cache.cc:39-53 | for an entry younger than its least TTL every slot becomes TTL minus elapsed, at least 1, so the clamp to 1 is never used |
| Cache.DnsCache.Lookup | src/dns_cache.cc:27-56 | a step of the cache: miss, lazy expiry, or a hit that serves the stored message |
| Cache.DnsCache.Insert | src/dns_cache.cc:58-85 | a step of the cache: nothing for an uncacheable message, else eviction and then the entry |
| Cache.DnsCache.MakeRoom | src/dns_cache.cc:70-83 | evicts only when full and the key is new: first the expired, then one oldest |
| Cache.DnsCache.EvictExpired | src/dns_cache.cc:95-105 | exactly the live entries stay |
| Cache.DnsCache.Clear | src/dns_cache.cc:91-93 | the cache becomes empty |
| Cache.EvictionDiscipline | src/dns_cache.cc:70-83 | if anything had expired then exactly the expired go; a live entry goes only if nothing had, and then exactly one of minimal insertion time; overwriting evicts nothing |
| Cache.StepKeepsGood | src/dns_cache.cc:27-93 | every operation keeps the capacity bound and the soundness of entries |
| Cache.RunHoldsLatest | src/dns_cache.cc:27-93 | in every reachable state each entry is the latest cacheable insertion for its key |
| CacheRuns.KeysAgreeExactly | src/dns_cache.cc:28 | two queries share an entry iff their types are equal and their names differ at most in the case of ASCII letters |
| CacheRuns.LiveExactly | src/dns_cache.cc:34-41 | an entry is live for exactly its least TTL, to the tick |
| CacheRuns.HitsAreLatest | src/dns_cache.cc:27-93 | over all runs: a hit serves the response of the last cacheable insertion for the same name, letter case aside, and the same type, with nothing cleared since, lowered by the whole seconds since then, which are fewer than its least TTL; the entry count stays within capacity |
| CacheRuns.HitsAreComplete | src/dns_cache.cc:27-93 | over all runs that insert for no more queries than fit: a lookup hits iff such an insertion exists and is less than its least TTL old |
| CacheMeaning.QuestionsSkipped | src/dns_cache.cc:172-181 | on a message the parser accepts, the walkers pass the questions where the parser does |
| CacheMeaning.SlotsAreTtlFields | src/dns_cache.cc:183-209 | in a section the parser accepts, the walker stops at exactly the TTL fields of the parser's non-OPT records, in order, and reads the TTLs the parser reads |
| CacheMeaning.SlotsOfResponse | src/dns_cache.cc:160-214 | on such a message with counts summing below 65536, the slots are the TTL fields of the parser's non-OPT records, section by section |
| HitExactly.HitCommutesExactly | src/dns_cache.cc:27-56 | for every accepted message of at most 65535 bytes: parsing what a hit serves gives the stored packet with the ID replaced and every non-OPT TTL lowered by the elapsed seconds, iff every question name, owner name and name-bearing RDATA resolves in the served bytes as in the stored ones |
| HitExactly.HitCommutesWithParsing | src/dns_cache.cc:27-56 | a condition on the stored message alone that is enough for every hit: no name resolution reads an ID or TTL byte |
| HitExactly.CountsFit | include/constants.h:92 | within the size cap on upstream responses the three counts of an accepted message cannot wrap around |
| HitExactly.StoredExactly | src/dns_packet_answer.cc:907-929 | a record's stored RDATA is the same in two buffers with the same raw RDATA iff decompression comes out the same |
| HitWitness.HitCanChangeMeaning | src/dns_cache.cc:39-53 | a stored message, accepted by the parser, whose name points at the ID: what a hit serves at once is not accepted, and the exact condition fails |
| Text.SplitText | src/local_dns.cc:118-129 | the find and substr loop is the split at the separator |
| Text.SplitJoin | src/dns_packet_question.cc:177-240 | splitting undoes joining |
| Text.JoinSplit | src/dns_packet_question.cc:177-240 | joining undoes splitting, on every text |
| Responses.CheckLabels | src/dns_response.cc:354-373 | labels are accepted iff each has 1 to 63 bytes and the whole name fits 255 |
| Responses.TextToQuestion | src/dns_response.cc:388-414 | appends the name's wire form, or fails and leaves the buffer as it was |
| Responses.WriteStandardHeader | src/dns_response.cc:64-83 | clears the buffer and leaves exactly the 12 header bytes |
| Responses.WriteAnswerName | src/dns_response.cc:117-128 | the pointer 0xC00C for an empty name, else the name |
| Responses.AppendAnswerSOA | src/dns_response.cc:183-224 | appends the whole record, or fails |
| Responses.AppendAnswerMX | src/dns_response.cc:226-252 | appends the whole record, or fails |
| Responses.AppendAnswerTXT | src/dns_response.cc:254-282 | appends the whole record, or fails, also for strings over 255 bytes |
| Responses.AppendAnswerSRV | src/dns_response.cc:284-319 | appends the whole record, or fails |
| Responses.AppendAnswerDomain | src/dns_response.cc:161-181 | appends the whole record, or fails |
| Responses.DispatchAppendAnswer | src/dns_response.cc:321-351 | appends the record of the named type, or fails |
| Responses.MultiAnswer | src/dns_response.cc:906-924 | returns 0 exactly when every piece can be encoded, and then the output is that message |
| Responses.NXDOMAIN | src/dns_response.cc:469-510 | the reply with the zone's SOA record, or with the record dropped and NSCOUNT patched back to 0 |
| Responses.PlainReply | src/dns_response.cc:512-537 | the reply without records, or failure when there is no question or its name does not fit |
| RdataMeaning.RdataHolds | src/dns_response.cc:131-319 | read on its own, the RDATA built from zone data gives it back: addresses, names from where to where, priority, weight, port and preference in their places, the five SOA words, and the TXT strings |
| RdataMeaning.RdataAcceptedExactly | src/dns_response.cc:131-351 | which zone data is taken for each type, and which is refused |
| RdataMeaning.NameAcceptedExactly | src/dns_response.cc:354-414 | a text is taken iff it has at most 253 characters and its non-empty parts fit a name of labels of 1 to 63 bytes and 255 bytes in all |
| RdataMeaning.TextLabelsExactly | src/dns_response.cc:399-411 | text is cut at every dot and empty parts are dropped |
| RdataMeaning.ZoneSoaHolds | src/dns_response.cc:476-507 | the SOA record of a negative answer names ns and hostmaster under the zone's labels and holds 1, 86400, 3600, 604800 and the TTL |
| BuilderMeaning.BuiltRdataIsSelfContained | src/dns_response.cc:131-319 | all RDATA built from zone data holds whole uncompressed names |
| BuilderMeaning.PieceParses | src/dns_response.cc:115-351 | a built record parses back as given, an empty name resolving through 0xC00C to the question's name |
| BuilderMeaning.HeaderMeaning | src/dns_response.cc:64-83 | a reply's header: the request's ID and RD, one question, the given counts, QR and RA set, AA as asked, RCODE in the low four bits, all other flags 0 |
| BuilderMeaning.MultiAnswerSucceeds | src/dns_response.cc:906-924 | MultiAnswer returns 0 iff there is a question whose name fits, between 1 and 65535 records, and every record's owner and data can be written |
| BuilderMeaning.RepliesSucceed | src/dns_response.cc:469-537 | NXDOMAIN and the replies without records succeed iff there is a question whose name fits; the SOA record is there iff its three names fit |
| BuilderMeaning.MultiAnswerMeaning | src/dns_response.cc:906-924 | whenever MultiAnswer returns 0, parsing its output consumes every byte and yields a reply header to the request, the question and exactly the given records in order, whose RDATA reads back as the zone data |
| BuilderMeaning.NxDomainMeaning | src/dns_response.cc:469-510 | NXDOMAIN's output parses to a reply header with RCODE 3, the question and the zone's SOA record, or no record, with NSCOUNT matching; the record's two names and five timers read back |
| BuilderMeaning.PlainMeaning | src/dns_response.cc:512-537 | a reply without records parses to a reply header with the given RCODE and the question |
| OptRecords.AppendOpt | src/dns_response.cc:975-1024 | the OPT record is appended and ARCOUNT raised by one, in 16 bits |
| OptRecords.AppendOptMeaning | src/dns_response.cc:975-1024 | on any complete message in which no name resolution reads the header: same questions, answers and authority, plus exactly one additional record |
| OptRecords.EchoNeverOverflows | src/dns_response.cc:1004-1012 | for EDNS data the request parser stored, the overflow branch is unreachable |
| OptRecords.EchoedOptionsDecode | src/dns_response.cc:976-1012 | the record's RDATA decodes to the request's COOKIE options of 8 to 40 bytes, in order |
| OptRecords.CookiesExactly | src/dns_response.cc:976-988 | an option is echoed, in its turn, iff it is a COOKIE of 8 to 40 bytes |
| OptRecords.OptAnswerHolds | src/dns_response.cc:990-1012 | the record is owned by the root, of type 41, payload size 1232, extended RCODE in the top byte of the TTL and nothing else there, and holds those options |
| OptRecords.AnsweredWithOpt | src/dns_response.cc:975-1024 | MultiAnswer and then AppendOpt, for a request parsed from any bytes: the same packet with one OPT record and ARCOUNT 1 |
| OptRecords.DeniedWithOpt | src/dns_response.cc:469-510 | NXDOMAIN and then AppendOpt, for a request parsed from any bytes: the same packet with one OPT record and ARCOUNT 1 |
| OptRecords.BADVERS | src/dns_response.cc:1042-1050 | header, question, and OPT with extended RCODE 1 |
| OptRecords.BadversMeaning | src/dns_response.cc:1042-1050 | its output parses to a reply header with RCODE 0 and ARCOUNT 1, the question, and one OPT record with extended RCODE 1 and the request's cookies |
| NameText.SetQnameFromString | src/dns_packet_question.cc:209-240 | the valid labels of the text, invalid parts dropped |
| NameText.QnameAsString | src/dns_packet_question.cc:177-192 | the joined labels; for valid labels, text that is read back as them |
| NameText.TextRoundTrip | src/dns_packet_question.cc:177-240 | for labels accepted by IsValidLabel, the dotted text gives them back, with or without a trailing dot |
| NameText.ValidLabelExactly | src/dns_packet_question.cc:518-531 | the valid labels: letters, digits, hyphen and underscore, 1 to 63 of them, no hyphen at either end |
| NameText.ValidExactly | src/dns_packet_question.cc:222-239 | exactly the valid parts are kept, in order |
| NameText.LabelsOfExactly | src/dns_packet_question.cc:209-240 | any text is cut at its dots, a trailing one aside |
| Ipv6Text.ReverseIpv6Components | src/local_dns.cc:112-153 | the parts reversed, grouped by four and joined with colons |
| Ipv6Text.GroupedExactly | src/local_dns.cc:132-140 | every group holds four parts in a row, the last one as many as are left |
| Ipv6Text.FindLongestZeroRun | src/local_dns.cc:173-194 | the first of the longest runs of 0 groups |
| Ipv6Text.SimplifyIpv6 | src/local_dns.cc:155-222 | leading zeros dropped and the first longest zero run of two or more groups compressed (section 4.2 of RFC 5952), for every input text |
| Ipv6Text.SimplifiedIsUnique | src/local_dns.cc:155-222 | that determines the text |
| Ipv6Text.SetPTRFromIp | src/dns_packet_question.cc:593-694 | the reverse-lookup labels of an IPv4 or IPv6 address; none if an IPv6 address is malformed |
| Ipv6Text.SetRdataIpv6 | src/dns_packet_answer.cc:437-521 | the 16 bytes of an address, or failure where the source throws |
| Ipv6Text.ExpandCompressed | src/dns_packet_question.cc:593-650 | expansion undoes compression, wherever the double colon stands |
| Ipv6Text.ExpandExactly | src/dns_packet_question.cc:600-650 | groups around a double colon expand iff there are at most eight, zeros filling the gap; without one iff there are exactly eight |
| Ipv6Text.Ipv4Labels | src/dns_packet_question.cc:671-693 | the octets of an IPv4 address, last one first, then in-addr and arpa; a trailing dot changes nothing |
| Ipv6Text.NoLabelsExactly | src/dns_packet_question.cc:624-655 | an IPv6 address has no labels iff it does not expand or a group has more than four characters |
| Ipv6Text.RdataExactly | src/dns_packet_answer.cc:498-514 | an address has RDATA iff it expands and every group reads as a 16-bit number |
| Ipv6Text.StoiReads | src/dns_packet_answer.cc:504 | what std::stoi takes in base 16: white space, a sign, 0x, digits, and ignored characters |
| Ipv6Text.HexDigits | src/dns_packet_answer.cc:504 | the hexadecimal digits of both cases, in order |
| Ipv6Text.GroupMeans | src/dns_packet_answer.cc:502-514 | a group of up to four hexadecimal digits, in either case, is read as its two bytes |
| Ipv6Text.NibblesReversed | src/local_dns.cc:112-153 | reversing the nibble labels of a full address gives its colon form |
| Ipv6Text.AddressRoundTrip | src/local_dns.cc:112-222 | from any text of an IPv6 address: the 32 nibbles in reverse with ip6 and arpa, the 16 bytes group by group, and a reversal and simplification that lead to a text with the same labels and bytes |
| LocalZones.LookupLocalRecord | src/local_dns.cc:224-311 | the loops and early returns compute `LocalRecord` |
| LocalZones.LookupMeaning | src/local_dns.cc:277-310 | the record that answers is the apex, else the first matching key, else the wildcard; its value is found, unless there is none or it is the forward text |
| LocalZones.LocalRecordMeaning | src/local_dns.cc:224-311 | for any dotted name, with or without a trailing dot: the last two parts name the zone, the ones before them the subdomain whose record of the type answers; nothing for fewer than two parts, an unknown zone or a missing type |
| LocalZones.ChaseCname | src/local_dns.cc:407-437 | for every zone, cyclic or not: at most 9 CNAMEs, each owned by the previous target and what looking that target up gives; then the queried type's records, exactly when that lookup succeeds, the query is not ANY and at most 8 CNAMEs came before; a JSON exception only if the first value, or one that such a chain leads to, is not a string |
| LocalZones.ChaseIsUnique | src/local_dns.cc:407-437 | those conditions leave only one list of answers |
| LocalZones.ChaseOnTheWire | src/local_dns.cc:407-437 | once built and parsed, the CNAME records start at the question's name, each is owned by the name in the RDATA of the one before, and the closing records by the last |
| Base64Url.Base64UrlEncode | src/dns_over_https.cc:495-522 | the loop's output decodes to its input |
| Base64Url.RoundTrip | src/dns_over_https.cc:495-522 | ceil(4n/3) characters of the alphabet, no padding, and the standard decoder (section 5 of RFC 4648) recovers the bytes |
| Base64Url.EncodedBits | src/dns_over_https.cc:503-518 | every character stands for the next six bits of the input, most significant first, missing bits being 0 |
| Base64Url.TableExactly | src/dns_over_https.cc:496 | the 64-character table, entry by entry |
| Base64Url.Injective | src/dns_over_https.cc:495-522 | different queries never share a URL |
| Failover.Resolve | src/dns_over_https.cc:369-446 | empty input and a missing multi handle are refused at once; otherwise the loop over the resolvers; success only if some attempt got status 200 |
| Failover.HttpCodeToResult | src/dns_over_https.cc:470-493 | 200 and only 200 is success; which result every other code gives, and that 429, 500, 502 and 504 are the retryable ones |
| Failover.RunShape | src/dns_over_https.cc:386-445 | each position is tried at most once, in order and within the budget; every transfer before the last failed or got 429, 500, 502 or 504; success is reported iff the last got 200; after such a failure the run ends only when every resolver with a handle was tried or the budget was used up |
| Failover.RunEndsInTime | src/dns_over_https.cc:270-282 | if transfers keep their whole-second timeouts and other work takes no time, the call ends within the budget plus 999 ms |

## Left out

- Sockets, timers, threads, locks, logging, TLS, libcurl, configuration and zone-file loading: input and output. A transfer is a result and a duration, the shuffle is whatever order the plan has.
- Null-pointer arguments of the wire functions: buffers are values here.
- The contents of a packet object after a failed FromWire, and the output of a builder after a failure: unspecified.
- Packet setters, header setters, accessors, comparison, hashing, streaming, iterators: easy members.
- The single-record builders (A, NS, CNAME, ...), FORMERR and CallResponseFunction: they repeat what MultiAnswer and the reply without records do.
- JSON: values are null, whole numbers, text, lists and objects; floats and booleans used as numbers are not modelled, and a JSON exception counts as failure.
- Regular expressions: an abstract predicate that matches a subdomain against a key, with every pattern compiling; the compiled-pattern cache is not part of the model.
- CheckLocalMatch around the chase: the direct matches before it, and its discarded return codes.
- IPv4 text: only the name labels of SetPTRFromIp.
- UDP size limits: the server sets TC without shortening the message.
- The hash table's order: where several entries are equally old, any one of them may be evicted.
- Cache.DnsCache.constructor: asks for a capacity of at least 1, which the source assumes when it takes the oldest entry of a full cache.
- Cache.DnsCache.Lookup: the clock is a parameter and must not run backwards, as a steady clock does not; times are in its ticks.
- CacheWalk.MinTtlMeaning: a TTL of 2^32-1 counts as no TTL, as in the source, so a message with no other TTL is not cached.
- HitExactly.HitCommutesExactly: messages over 65535 bytes, which no upstream response may be; `ServedExactly` covers them as long as their three record counts do not wrap around.
- RoundTrip.ParsePrintParse: needs decompressed RDATA to fit 16 bits, which the source asserts in UpdateRDLENGTH. In a release build RDLENGTH wraps, and so it does in `ParseAnswer`; `RecordEndsExactly` says what that does to one printed record, and what a whole message with such a record parses to is not stated.
- OPT uniqueness on forwarded responses: the appender does not look for an OPT record that an upstream server sent.

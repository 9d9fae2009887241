# DNS record codec, URL coding and the SDP header list

A Dafny model of three cores of the doubango telephony stack, each with
proofs of what it promises.

- **The DNS resource-record wire codec** (`tnet_dns_rr.c`). It covers:
  - domain names as length-prefixed labels, with the message-compression pointers of section 4.1.4 of RFC 1035;
  - the `<character-string>` decoder of section 3.3 of RFC 1035;
  - the fixed record header TYPE, CLASS, TTL, RDLENGTH of section 3.2.1 of RFC 1035, in network byte order;
  - the TYPE dispatch of the record decoder;
  - the serializer of name and header;
  - the two-state init/deinit guard of a record object.
- **URL percent-encoding and decoding** (`tsk_url.c`). Unreserved characters are copied, a space becomes `+`, and any other character becomes `%XY`. The decoder inverts this.
- **The header list of an SDP message** (`tsdp_message.c`). Headers are kept in ascending rank order. The model covers insertion, lookup by type and position, lookup by one-letter name, rendering, cloning and removal of an "m=" header by media name.

## Files and modules

| file | module | contents |
|---|---|---|
| `wrappers.dfy` | `Wrappers` | `Option` |
| `buffers.dfy` | `Buffers` | `Buffer<T>`, the growable output buffer (`tsk_buffer_t`): a `seq` field that `Append` extends |
| `dns_name.dfy` | `DnsName` | name decoder and encoder, their specification functions, round trip |
| `dns_rr.dfy` | `DnsRr` | byte order, record types, record object lifecycle, character strings, record header codec |
| `url.dfy` | `Url` | encoder and decoder over fixed-size `array<char>` buffers, specification functions, round trip |
| `sdp_message.dfy` | `SdpMessage` | `Message` class holding `headers: seq<Header>`, its operations, list lemmas |

The C functions that move a cursor or fill a buffer are modelled as Dafny
methods: the offset in and out, loops with invariants, `Buffer` appends,
array writes. Each method is proved against a specification function, for
example `DecodeName`, `EncodeName`, `Encoded`, `Decoded`, `InsertAscending`
or `RemoveFirstMedia`. The laws of those functions are proved as lemmas.

The name decoder takes a precondition that the C code lacks.
`WellFormedName(data, offset)` says two things:
- every octet the decoder reads lies inside `data`;
- every compression pointer leads strictly before the offset at which the current decoding call began.

Under this precondition the pointer recursion terminates. A pointer to the name's own start or to any later position is excluded: `SelfOrForwardPointerRejected` shows this for a name that starts with the pointer, and `LabelsThenBadPointer` for a pointer after any number of labels. `PointerCycleRejected` shows that a name starting at one of two pointers leading to each other is excluded.

## Model

| member | source | states |
|---|---|---|
| DnsName.Chain | trunk/tinyNET/src/dns/tnet_dns_rr.c:136-165 | the decoder's path from an offset stays inside the message, and each pointer on it leads before the offset at which its decoding call began; the decoder has no such check |
| DnsName.Walk | trunk/tinyNET/src/dns/tnet_dns_rr.c:136-165 | what the decoder computes from an offset on a well-formed path: the accumulated name and an offset past the current one and within the message |
| DnsName.DecodeName | trunk/tinyNET/src/dns/tnet_dns_rr.c:123-168 | the name decoded at an offset and the offset after it, which lies past the start and within the message |
| DnsName.IsPointer | trunk/tinyNET/src/dns/tnet_dns_rr.c:138 | a marker starts a compression pointer when both of its high bits are set |
| DnsName.AppendLabel | trunk/tinyNET/src/dns/tnet_dns_rr.c:152-160 | the next label is appended after a '.' when the name is not empty, and alone otherwise |
| DnsName.AppendLabelShape | trunk/tinyNET/src/dns/tnet_dns_rr.c:152-160 | appending keeps the name so far as a prefix, puts one '.' after it when it is not empty, and ends with the label |
| DnsName.PointerTarget | trunk/tinyNET/src/dns/tnet_dns_rr.c:142-143 | the pointer target, the low six bits of the marker then the next octet, is a 14-bit offset below 0x4000 |
| Buffers.Buffer.Append | trunk/tinyNET/src/dns/tnet_dns_rr.c:235 | tsk_buffer_append: the buffer afterwards holds its old contents followed by the appended octets |
| DnsName.QnameDeserialize | trunk/tinyNET/src/dns/tnet_dns_rr.c:123-168 | on a well-formed name, returns 0 with the name and offset that `DecodeName` specifies: labels appended with '.', offset past the terminator, or 2 past a pointer with the rest decoded at the target |
| DnsName.WalkStep | trunk/tinyNET/src/dns/tnet_dns_rr.c:136-165 | one decoder step: a zero octet ends the name one octet on; a pointer moves the offset by exactly 2 and appends the name at its earlier target to the same accumulator; a label octet appends that many bytes |
| DnsName.LabelAt | trunk/tinyNET/src/dns/tnet_dns_rr.c:148-162 | a label octet is consumed with the label it announces, appended after a '.' when the name is not empty |
| DnsName.PointerAt | trunk/tinyNET/src/dns/tnet_dns_rr.c:138-146 | a pointer's target precedes the call's start, names a well-formed name, and the result is the target's decoding with the caller's offset moved by 2 |
| DnsName.PlainName | trunk/tinyNET/src/dns/tnet_dns_rr.c:136-165 | labels of 1 to 63 bytes, whatever their bytes, then a zero octet decode to the labels joined by '.' with no leading dot, and the offset moves by the sum of 1+length plus 1 |
| DnsName.WalkLabels | trunk/tinyNET/src/dns/tnet_dns_rr.c:148-162 | walking over encoded valid labels appends them one at a time and neither adds nor removes a way to go out of bounds |
| DnsName.LabelsThenPointer | trunk/tinyNET/src/dns/tnet_dns_rr.c:138-146 | labels of 1 to 63 bytes, whatever their bytes, followed by a pointer decode to those labels plus the name at the target; the offset ends 2 past the pointer, with no terminator consumed |
| DnsName.SelfOrForwardPointerRejected | trunk/tinyNET/src/dns/tnet_dns_rr.c:140-146 | in any message, a name that starts with a pointer to its own position or to a later one is not well formed |
| DnsName.LabelsThenBadPointer | trunk/tinyNET/src/dns/tnet_dns_rr.c:138-162 | in any message, labels followed by a pointer to the name's own start or later are not a well-formed name |
| DnsName.PointerCycleRejected | trunk/tinyNET/src/dns/tnet_dns_rr.c:140-146 | in any message, two pointers leading to each other are not a well-formed name |
| DnsName.TwoPointerCycleExample | trunk/tinyNET/src/dns/tnet_dns_rr.c:140-146 | C0 02 C0 00 is not a well-formed name at either pointer |
| DnsName.WwwExample | trunk/tinyNET/src/dns/tnet_dns_rr.c:136-165 | 3 "www" 0 decodes to "www" with the offset 5 on |
| DnsName.Tokens | trunk/tinyNET/src/dns/tnet_dns_rr.c:230-238 | strtok's tokens are non-empty and contain no '.' |
| DnsName.TokenLength | trunk/tinyNET/src/dns/tnet_dns_rr.c:230-238 | the token at the front runs up to the first '.' or the end |
| DnsName.LengthOctet | trunk/tinyNET/src/dns/tnet_dns_rr.c:234 | the length octet is the label's length stored in a uint8_t; it equals the length for labels under 256 bytes |
| DnsName.EncodeLabels | trunk/tinyNET/src/dns/tnet_dns_rr.c:230-239 | each label as its length octet followed by its bytes, in order |
| DnsName.EncodeName | trunk/tinyNET/src/dns/tnet_dns_rr.c:223-247 | the serializer's bytes always end with the zero octet, and a null name is that octet alone |
| DnsName.QnameSerialize | trunk/tinyNET/src/dns/tnet_dns_rr.c:213-248 | returns 0 and appends, for each token, its length octet and its bytes, then one zero octet; a null name appends only the zero octet |
| DnsName.EncodeLabelsSnoc | trunk/tinyNET/src/dns/tnet_dns_rr.c:232-239 | encoding one more label appends its length octet and its bytes |
| DnsName.ShortLengthOctet | trunk/tinyNET/src/dns/tnet_dns_rr.c:150-157 | a label of 1 to 63 bytes gets a length octet equal to its length, read back as a label, not as the terminator or a pointer |
| DnsName.TokensOfJoin | trunk/tinyNET/src/dns/tnet_dns_rr.c:230-238 | strtok of labels joined by '.' gives back the labels |
| DnsName.AppendAllJoin | trunk/tinyNET/src/dns/tnet_dns_rr.c:152-160 | appending labels with a '.' between them appends their join |
| DnsName.JoinByAppending | trunk/tinyNET/src/dns/tnet_dns_rr.c:152-160 | appending labels onto an empty name spells out their join, with no leading dot |
| DnsName.NameRoundTrip | trunk/tinyNET/src/dns/tnet_dns_rr.c:123-248 | a name of labels of 1 to 63 bytes, encoded anywhere in a message, is well formed there; it decodes to itself, and the offset moves by exactly the bytes emitted |
| DnsName.DoubangoExample | trunk/tinyNET/src/dns/tnet_dns_rr.c:223 | "doubango.com" is encoded as 8doubango3com and a zero octet |
| DnsName.DoubangoTokens | trunk/tinyNET/src/dns/tnet_dns_rr.c:230-238 | strtok splits "doubango.com" into "doubango" and "com" |
| DnsRr.U16Bytes | trunk/tinyNET/src/dns/tnet_dns_rr.c:393-416 | htons: the two octets of a 16-bit value, most significant first |
| DnsRr.U32Bytes | trunk/tinyNET/src/dns/tnet_dns_rr.c:407-409 | htonl: the four octets of a 32-bit value, most significant first |
| DnsRr.ReadU16 | trunk/tinyNET/src/dns/tnet_dns_rr.c:277 | ntohs of two octets is the value whose big-endian bytes they are |
| DnsRr.ReadU32 | trunk/tinyNET/src/dns/tnet_dns_rr.c:285 | ntohl of four octets is the value whose big-endian bytes they are |
| DnsRr.U16RoundTrip | trunk/tinyNET/src/dns/tnet_dns_rr.c:393-417 | reading the two bytes written for a 16-bit value gives it back |
| DnsRr.U32RoundTrip | trunk/tinyNET/src/dns/tnet_dns_rr.c:393-417 | reading the four bytes written for a 32-bit value gives it back |
| DnsRr.QTypeCode | trunk/tinyNET/src/dns/tnet_dns_rr.c:292-366 | the TYPE code of each record type the decoder dispatches on |
| DnsRr.QTypeOf | trunk/tinyNET/src/dns/tnet_dns_rr.c:292-366 | a recognised code names the type with that code; None exactly when no type has that code |
| DnsRr.QTypeOfCode | trunk/tinyNET/src/dns/tnet_dns_rr.c:292-366 | every type the decoder implements is recognised from its own code |
| DnsRr.ResourceRecord.constructor | trunk/tinyNET/src/dns/tnet_dns_rr.c:58-73 | a new record is not initialized and its fields are zero |
| DnsRr.InitStep | trunk/tinyNET/src/dns/tnet_dns_rr.c:58-73 | afterwards the record is initialized; 0 exactly when it was not, with TYPE and CLASS set; otherwise -2 and the state unchanged |
| DnsRr.DeinitStep | trunk/tinyNET/src/dns/tnet_dns_rr.c:80-95 | afterwards the record is not initialized; 0 exactly when it was, with name and RDATA released; otherwise -2 and the state unchanged |
| DnsRr.Init | trunk/tinyNET/src/dns/tnet_dns_rr.c:58-73 | -1 for a null record; otherwise the return code and new state are InitStep's: -2 and no change when the record is already initialized, else TYPE and CLASS set, initialized, 0 |
| DnsRr.Deinit | trunk/tinyNET/src/dns/tnet_dns_rr.c:80-95 | -1 for a null record; otherwise DeinitStep's: -2 and no change when the record is not initialized, else name and RDATA released, flag cleared, 0 |
| DnsRr.Lifecycle | trunk/tinyNET/src/dns/tnet_dns_rr.c:58-95 | init succeeds exactly on an uninitialized record and deinit exactly on an initialized one; a refused call returns -2 and changes nothing; success moves to the other state |
| DnsRr.InitThenDeinit | trunk/tinyNET/src/dns/tnet_dns_rr.c:58-95 | init then deinit both succeed and leave the record uninitialized with TYPE and CLASS set and nothing held; a second init in a row is refused |
| DnsRr.CharstringDeserialize | trunk/tinyNET/src/dns/tnet_dns_rr.c:100-118 | succeeds exactly when the length octet is below `size`; then the string is exactly the `length` octets after it and the offset moves by 1+length; otherwise -1 with output and offset untouched |
| DnsRr.EncodeCharstring | trunk/tinyNET/src/dns/tnet_dns_rr.c:102-105 | a character string takes one octet more than its length |
| DnsRr.CharstringRoundTrip | trunk/tinyNET/src/dns/tnet_dns_rr.c:107-117 | an encoded string placed anywhere is accepted once `size` exceeds its length, and the octets after its length octet are exactly the string |
| DnsRr.NameEnd | trunk/tinyNET/src/dns/tnet_dns_rr.c:273-274 | the offset after the record's name lies past its first octet and within the message |
| DnsRr.RrDeserialize | trunk/tinyNET/src/dns/tnet_dns_rr.c:253-373 | reads TYPE, CLASS, TTL, RDLENGTH big-endian after the name; the offset ends at name end + 10 + RDLENGTH whatever the type; no record for an unknown type; OPT gets CLASS as payload size; any other type gets name, CLASS, TTL, RDLENGTH and the RDATA offset |
| DnsRr.RecordBytes | trunk/tinyNET/src/dns/tnet_dns_rr.c:385-417 | the serialized record is the encoded name followed by ten header octets |
| DnsRr.RrSerialize | trunk/tinyNET/src/dns/tnet_dns_rr.c:378-498 | always returns -1; writes nothing for a null record; otherwise appends the encoded name and the ten header bytes in network order |
| DnsRr.HeaderBytes | trunk/tinyNET/src/dns/tnet_dns_rr.c:393-417 | the header after the name takes ten octets |
| DnsRr.HeaderRoundTrip | trunk/tinyNET/src/dns/tnet_dns_rr.c:277-290 | the decoder's four header reads give back what the serializer wrote, wherever the header sits |
| DnsRr.HeaderAt | trunk/tinyNET/src/dns/tnet_dns_rr.c:277-290 | ten octets holding an encoded header read back as its TYPE, CLASS, TTL and RDLENGTH |
| DnsRr.RecordRoundTrip | trunk/tinyNET/src/dns/tnet_dns_rr.c:253-417 | a serialized record followed by its RDATA meets the decoder's preconditions; the decoder reads back its name, TYPE, CLASS, TTL and RDLENGTH and ends just past the RDATA |
| DnsRr.RootARecord | trunk/tinyNET/src/dns/tnet_dns_rr.c:273-371 | a root-name A record with TTL 60 and 127.0.0.1: the name ends after one octet and the offset ends 1 + 10 + 4 = 15 octets on |
| Url.IsUnreserved | tinySAK/src/tsk_url.c:57 | the characters copied unchanged: ASCII letters and digits, '-', '_', '.' and '~' |
| Url.HexDigit | tinySAK/src/tsk_url.c:62 | the digit of a nibble is 0-9 or a-f |
| Url.HexValue | tinySAK/src/tsk_url.c:83 | the value of a digit is a nibble |
| Url.DecodeHex | tinySAK/src/tsk_url.c:83 | the high and the low nibble combine into a single byte |
| Url.EncodeChar | tinySAK/src/tsk_url.c:57-62 | one character becomes one character or three, and the encoding starts with '%' exactly when the character is neither unreserved nor a space |
| Url.Encoded | tinySAK/src/tsk_url.c:55-65 | the encoding is between n and 3n characters long, so it fits the 3n+1 buffer |
| Url.Decoded | tinySAK/src/tsk_url.c:78-91 | the decoding is never longer than the input |
| Url.UrlEncode | tinySAK/src/tsk_url.c:54-67 | writes into a 3n+1 buffer without overrunning it; the result is `Encoded(url)` |
| Url.PutEncoded | tinySAK/src/tsk_url.c:57-62 | one input character writes its encoding, at most three characters |
| Url.UrlDecode | tinySAK/src/tsk_url.c:78-95 | writes into an n+1 buffer without overrunning it; the result is `Decoded(url)` |
| Url.PutDecoded | tinySAK/src/tsk_url.c:81-91 | one step consumes one or three characters, writes no more than it consumes, and keeps output plus the rest's decoding unchanged |
| Url.DecodedStep | tinySAK/src/tsk_url.c:81-91 | "%XY" becomes the byte with nibbles X and Y and consumes three; a '%' without two more characters is dropped; '+' becomes a space; any other character is copied |
| Url.EncodedIsSafe | tinySAK/src/tsk_url.c:57-62 | an encoding contains only unreserved characters, '+' and '%' |
| Url.EncodedConcat | tinySAK/src/tsk_url.c:56-64 | the encoding of a concatenation is the concatenation of the encodings |
| Url.HexNibble | tinySAK/src/tsk_url.c:62-83 | the hex helpers are inverse on nibbles |
| Url.DecodeEncodeChar | tinySAK/src/tsk_url.c:57-89 | decoding one character's encoding, followed by any text, gives that character first |
| Url.DecodeEncode | tinySAK/src/tsk_url.c:54-95 | decoding the encoding of an ASCII string gives the string back |
| Url.EncodeExample | tinySAK/src/tsk_url.c:57-62 | "a b&" is encoded as "a+b%26" |
| Url.DecodeExample | tinySAK/src/tsk_url.c:81-89 | "a+b%26" decodes to "a b&" |
| Url.StrayPercentExample | tinySAK/src/tsk_url.c:82-85 | "ab%4" decodes to "ab4": the stray '%' is dropped |
| SdpMessage.Message.constructor | trunk/tinySDP/src/tsdp_message.c:170 | a new message has no header |
| SdpMessage.MatchesType | trunk/tinySDP/src/tsdp_message.c:34-43 | a header matches a type when it is of that type |
| SdpMessage.MatchesName | trunk/tinySDP/src/tsdp_message.c:46-54 | a header matches a letter when that letter is its name |
| SdpMessage.MatchesMedia | trunk/tinySDP/src/tsdp_message.c:57-67 | a header that is not "m=" never matches; a matching one has a media string as long as the name |
| SdpMessage.EqualsIgnoreCase | trunk/tinySDP/src/tsdp_message.c:63 | tsk_stricmp returning 0: the same length and the same characters up to ASCII case |
| SdpMessage.MatchesMediaIgnoresCase | trunk/tinySDP/src/tsdp_message.c:57-67 | matching a media name ignores ASCII case |
| SdpMessage.Lower | trunk/tinySDP/src/tsdp_message.c:62-63 | ASCII tolower turns a capital into the small letter at the same place in the alphabet and leaves every other character alone |
| SdpMessage.Sorted | trunk/tinySDP/src/tsdp_message.c:75 | the headers are in ascending rank order, the order the ascending push keeps |
| SdpMessage.InsertionPoint | trunk/tinySDP/src/tsdp_message.c:75 | the ascending insert goes after every header of rank no greater and before the first of greater rank |
| SdpMessage.InsertAscending | trunk/tinySDP/src/tsdp_message.c:75 | the list after the insert is one header longer and holds the header |
| SdpMessage.InsertKeepsSorted | trunk/tinySDP/src/tsdp_message.c:75 | the ascending insert keeps a sorted list sorted |
| SdpMessage.InsertAddsOne | trunk/tinySDP/src/tsdp_message.c:75 | the insert adds exactly the header, at the insertion point, and keeps the others in their order |
| SdpMessage.AddHeader | trunk/tinySDP/src/tsdp_message.c:70-80 | -1 and no change for a null message or header; otherwise 0 and the ascending insert of the header |
| SdpMessage.FirstIndex | trunk/tinySDP/src/tsdp_message.c:136 | the first index whose element satisfies the predicate, or None when none does |
| SdpMessage.OfType | trunk/tinySDP/src/tsdp_message.c:114-121 | the headers of a type, all of that type |
| SdpMessage.OfTypePrefix | trunk/tinySDP/src/tsdp_message.c:114-121 | the headers of a type in a prefix are the first ones of that type in the list |
| SdpMessage.OfTypeSnoc | trunk/tinySDP/src/tsdp_message.c:116-118 | counting one more header adds it exactly when it is of the type |
| SdpMessage.FoundAt | trunk/tinySDP/src/tsdp_message.c:117-119 | a header of the type at a position is the next of that type after those before it |
| SdpMessage.OfTypeMembers | trunk/tinySDP/src/tsdp_message.c:114-121 | the headers of a type are exactly the list's headers with that type |
| SdpMessage.OfTypeNone | trunk/tinySDP/src/tsdp_message.c:114-124 | no header of a type is found exactly when the list has none of that type |
| SdpMessage.OfTypeFirst | trunk/tinySDP/src/tsdp_message.c:127-130 | the first header of a type is the first header of the list having that type |
| SdpMessage.GetHeaderAt | trunk/tinySDP/src/tsdp_message.c:104-125 | None for no message; the `index`-th (from 0) header of the type in list order; None when there are not that many |
| SdpMessage.GetHeader | trunk/tinySDP/src/tsdp_message.c:127-130 | the same as the header at index 0: the first header of the type, or None when there is none |
| SdpMessage.GetHeaderByName | trunk/tinySDP/src/tsdp_message.c:132-141 | the first header with that one-letter name, or None when no header has it |
| SdpMessage.Rendered | trunk/tinySDP/src/tsdp_message.c:151-156 | the text of a list: each header's text, in list order |
| SdpMessage.RenderedConcat | trunk/tinySDP/src/tsdp_message.c:151-156 | the text of a list is the texts of its parts in order |
| SdpMessage.ToString | trunk/tinySDP/src/tsdp_message.c:143-159 | -1 for a null message or buffer; otherwise 0 and every header's text appended in list order, whatever each header's rendering returns |
| SdpMessage.Clone | trunk/tinySDP/src/tsdp_message.c:161-180 | null for null; otherwise a new message with the same headers in the same order |
| SdpMessage.FirstMedia | trunk/tinySDP/src/tsdp_message.c:230 | the first header whose media matches, or None when none does |
| SdpMessage.RemoveFirstMedia | trunk/tinySDP/src/tsdp_message.c:230 | one header shorter when some header matches the media name, unchanged when none does |
| SdpMessage.RemoveAt | trunk/tinySDP/src/tsdp_message.c:230 | taking out one header removes exactly that one |
| SdpMessage.RemoveAtSorted | trunk/tinySDP/src/tsdp_message.c:230 | taking out one header keeps a sorted list sorted |
| SdpMessage.RemoveFirstMediaSpec | trunk/tinySDP/src/tsdp_message.c:56-234 | removal takes out exactly the first matching "m=" header and keeps the rest in order; nothing changes when none matches |
| SdpMessage.RemoveKeepsSorted | trunk/tinySDP/src/tsdp_message.c:222-234 | removal by media name keeps a sorted list sorted |
| SdpMessage.RemoveMedia | trunk/tinySDP/src/tsdp_message.c:222-234 | always returns -1; the list loses its first header matching the media name, and is unchanged for a null name |
| SdpMessage.OperationsKeepSorted | trunk/tinySDP/src/tsdp_message.c:70-234 | insertion and removal keep the list in ascending rank order |

## Left out

- DnsName.QnameDeserialize: the added `WellFormedName` precondition. The C decoder checks no bound and follows any pointer, so a pointer cycle makes it recurse forever. The model requires every read to be in bounds and every pointer to lead before the start of the current call.
- DnsName.QnameDeserialize: `size` and the computed `dataEnd` are never used by the code. They are left out.
- DnsName.QnameDeserialize: `tsk_strncat` stops at a NUL inside a label. The model appends all `length` bytes. DnsRr.CharstringDeserialize likewise ignores the truncation `tsk_strndup` makes at a NUL.
- DnsName.QnameSerialize: strtok on a string with an embedded NUL, and labels of 256 bytes or more, are not distinguished. The length octet is stored modulo 256 as the `uint8_t` cast does, and the round trip is proved only for labels of 1 to 63 bytes.
- DnsRr.RrDeserialize: requires `size != 0`. With `size == 0` the code jumps to its bail label and reads RDLENGTH uninitialized before it moves the offset. It also requires the name and the ten header octets to be inside the message, because the unaligned `ntohs`/`ntohl` reads in the code are unchecked.
- DnsRr.RrDeserialize: the per-type RDATA constructors (A, NS, CNAME, SOA, PTR, MX, TXT, AAAA, SRV, NAPTR) are not part of this model. The record value holds the arguments each constructor is given: the whole message and the RDATA offset among them.
- DnsRr.CharstringDeserialize: requires the length octet, and the string when it is accepted, to lie inside `data`. The C code reads both without checking bounds.
- DnsRr.RrDeserialize: its result is a `Record` value, while init, deinit and serialize work on the `ResourceRecord` object. The model does not convert one into the other; the per-type objects that would join them are not part of this model.
- DnsRr.RrSerialize: RDATA is not written. The code has no RDATA serialization and returns -1; the model follows that.
- DnsRr.QTypeCode: the numeric TYPE codes are the IANA ones. The header defining `tnet_dns_qtype_t` is not part of this model.
- DnsRr.ResourceRecord.constructor: it models zeroed memory. `tnet_dns_rr_create`/`destroy`, the object definition tables, reference counting and logging are not part of this model.
- The commented-out older name decoder is not modelled.
- Allocation failure is not modelled: `tsk_malloc`, `tsk_strndup` and `TSDP_MESSAGE_CREATE` always succeed.
- Url.HexDigit and Url.HexValue: `tsk_b10tob16` and `tsk_b16tob10` are not part of this model. The digit is assumed lowercase, and a non-hexadecimal character is assumed to count as 0.
- Url.UrlEncode: modelled on ASCII input only. The locale-dependent `isalnum` and the signed-char shifts for bytes of 0x80 or more are left out.
- Url.UrlDecode: "%00" gives an embedded NUL. That NUL would end the C string; the model keeps it as a character.
- SdpMessage.InsertionPoint: `tsk_list_push_ascending_data` and its comparator are not part of this model. A header is assumed to go before the first header of strictly greater rank, which is an abstract integer standing for the header's place in the total order.
- SdpMessage.FirstIndex: `tsk_list_find_item_by_pred` is not part of this model. It is assumed to return the first item whose predicate gives 0; GetHeaderByName relies on this.
- SdpMessage.EqualsIgnoreCase: `tsk_stricmp` is not part of this model. A result of 0 is assumed to mean the same length and the same characters after ASCII lower-casing.
- SdpMessage.RemoveFirstMedia: `tsk_list_remove_item_by_pred` is not part of this model. It is assumed to remove the first matching header.
- SdpMessage.Clone: each header's `clone` is modelled as an equal value. Header objects, their `tostring` (the `render` parameter of ToString) and `tsdp_header_get_nameex` (the `name` field) are left out.
- SdpMessage.GetHeaderAt: a message whose `headers` list is null is not modelled; a message always has a list.
- `tsdp_message_add_headers`, `tsdp_message_add_media` and `thttp_action.c` are left out. They are variadic construction and HTTP session plumbing.
- The SIP test fixtures drive a parser that is not part of this model.

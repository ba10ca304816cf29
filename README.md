# DNS wire-format codec, modelled in Dafny

This project models the message codec of a small Go DNS library (package
`dns`). The codec turns a `Msg` into DNS wire bytes and back. The parts
modelled are:

- the 12-byte header and its flag word;
- the question section;
- the answer, authority and additional sections of resource records;
- domain names, including name compression: a map from name suffixes to
  the offsets where they were written, and two-byte backward pointers;
- the big-endian 16- and 32-bit helpers and the A/AAAA address codecs;
- the registry from type codes to record variants.

Values become datatypes: `MsgHdr`, `Header`, `Question`, `RRHeader`,
`Payload` and `Record`. The objects the Go code updates in place become
classes: `Message.Msg` has its sections as fields, and `Records.RR`
holds a header and a payload. Writers work on `array<byte>` in place and
are proved equal to pure functions on `seq<byte>`. Readers work on
`seq<byte>`. A Go `error` becomes a `Status` (`Ok` or `Fail(kind)`)
returned next to the offset. Go strings are byte sequences (`Text`).

The compression map, a Go map passed by reference, is threaded through
as a value: each writer takes a map and returns the updated one.

The code's quirks are kept as written:

- A pointer's target is read from six bits of its second byte only.
  `DomainName.PointerAbove63Encoded` and `DomainName.PointerAbove63Lost`
  show a name that points at offset 70 and reads back wrong.
- `packDataAAAA` checks room for 4 bytes, copies `To4` of the address and
  advances by 16. `MsgHelper.DataAAAALosesAddress` shows an IPv6 address
  that does not survive.
- The Opcode is shifted into the flag word without a mask.
  `Message.OpcodeSpillsIntoQR` shows an Opcode of 16 or more setting the
  QR bit.
- Length bytes whose top bits are `01` or `10` are skipped by the name
  decoder.

RFC 1035 section 4.1.4 specifies a 14-bit pointer offset and RFC 3596
section 2.2 a 16-byte AAAA address; the code keeps six bits and copies
`To4`, and the model follows the code. RFC 1035 section 4.1.1 gives the
Opcode four bits of the flag word; the code shifts it in without a mask,
and the model follows the code there too. When a later part of `Unpack`
fails, the code has already set the header fields and appended the
questions it read, and `Message.UnpackMsg` models exactly that.

The main results:

- `MessageRoundTrip.MsgRoundTrip`: packing a message and unpacking the
  bytes gives the message back. Its names may share suffixes through the
  compression map across all sections.
- `RoundTrip.SectionRoundTrip`: the same for one resource-record
  section.
- `DomainName.NameRoundTripPlain`, `DomainName.NameRoundTripCompressed`
  and `Compression.NameReads`: the same for a single domain name.
- `Compression.NameKeepsMapValid`: the map that packing leaves stays
  sound for the bytes written so far. Every entry a pointer can reach
  decodes to its suffix.
- `DomainName.UnpackDomainName` and `Sections.UnpackRRSlice`: the
  decoder loops are proved equal to their specification functions.
  Lemmas cover the 126-hop limit, self-pointers and the resume offset
  after the first pointer.

## Model

| member | source | states |
|---|---|---|
| MsgHelper.Uint16Write | msg_helper.go:152-159 | writing a 16-bit value succeeds exactly when off+2 fits the buffer, and then returns off+2; otherwise the buffer is untouched and the result is len(buf) with the packing-overflow error |
| MsgHelper.PackUint16 | msg_helper.go:152-159 | the in-place writer leaves exactly the buffer, offset and status of `Uint16Write` |
| MsgHelper.Uint32Write | msg_helper.go:161-168 | the same for 32-bit values, with four bytes and off+4 |
| MsgHelper.PackUint32 | msg_helper.go:161-168 | the in-place writer leaves exactly the buffer, offset and status of `Uint32Write` |
| MsgHelper.UnpackUint16 | msg_helper.go:170-175 | the read succeeds exactly when off+2 fits, and then returns off+2; otherwise it returns 0, len(buf) and the unpacking-overflow error |
| MsgHelper.UnpackUint32 | msg_helper.go:177-182 | the same for four bytes and off+4 |
| MsgHelper.Uint16Reads | msg_helper.go:174 | the value read re-encodes to the two bytes it was read from |
| MsgHelper.Uint32Reads | msg_helper.go:181 | the value read re-encodes to the four bytes it was read from |
| MsgHelper.Uint16RoundTrip | msg_helper.go:152-175 | a 16-bit value written big-endian at off reads back, with offset off+2 |
| MsgHelper.Uint32RoundTrip | msg_helper.go:161-182 | a 32-bit value written big-endian at off reads back, with offset off+4 |
| MsgHelper.Be16Injective | msg_helper.go:157 | two different 16-bit values never write the same bytes |
| MsgHelper.Be32Injective | msg_helper.go:166 | two different 32-bit values never write the same bytes |
| MsgHelper.PutBytesFrame | msg_helper.go:84 | a copy into the buffer at off changes exactly the bytes it copies |
| MsgHelper.Zeros | msg.go:126 | a new buffer has the requested length and holds only zero bytes |
| MsgHelper.To4 | msg_helper.go:30 | the IPv4 form of an address: a 4-byte address stays itself, and lengths other than 4 and 16 give nothing |
| MsgHelper.CopyInto | msg_helper.go:30 | `copy(msg[off:], src)` writes src at off and changes nothing else |
| MsgHelper.UnpackDataA | msg_helper.go:10-15 | succeeds exactly when 4 bytes remain, and returns those 4 bytes and off+4; otherwise nil, len(msg) and the overflow error |
| MsgHelper.UnpackDataAAAA | msg_helper.go:17-22 | succeeds exactly when 16 bytes remain, and returns those 16 bytes and off+16; otherwise nil, len(msg) and the overflow error |
| MsgHelper.DataAWrite | msg_helper.go:24-39 | an empty address writes nothing and succeeds; a 4- or 16-byte address succeeds exactly when 4 bytes fit and advances by 4; any other length fails; a failure returns len(msg) and leaves the buffer |
| MsgHelper.DataAAAAWrite | msg_helper.go:41-56 | an empty address writes nothing; a 16-byte address succeeds exactly when 4 bytes fit, yet advances by 16; any other length fails with len(msg) |
| MsgHelper.DataAWrites | msg_helper.go:24-39 | packing an address changes only the 4 bytes from off, and a 4-byte address reads back with `unpackDataA` |
| MsgHelper.DataAAAAWrites | msg_helper.go:41-56 | packing an IPv6 address changes only 4 bytes, and none at all when it is not IPv4-mapped |
| MsgHelper.PackDataA | msg_helper.go:24-39 | the in-place writer leaves exactly the result of `DataAWrite` |
| MsgHelper.PackDataAAAA | msg_helper.go:41-56 | the in-place writer leaves exactly the result of `DataAAAAWrite` |
| MsgHelper.DataAAAALosesAddress | msg_helper.go:41-56 | an IPv6 address that is neither IPv4-mapped nor all zero packs successfully, but `unpackDataAAAA` reads back a different address |
| Types.TypeToRR | types.go:41-50 | a type code the registry knows maps to the variant that carries that code |
| Types.RegistryKeys | types.go:41-50 | the registry knows exactly the codes 1, 2, 5, 6, 12, 15, 16 and 28, and not TypeNone |
| Types.RegistryConstructsNamedVariant | types.go:41-50 | the registry maps a code to a variant if and only if that variant's type constant is the code |
| Types.FlagBitsDisjoint | types.go:7-11 | the five flag bits have their stated values and overlap neither each other nor the Opcode and Rcode fields |
| Util.CloneSlice | util.go:3-9 | a clone has the same length and elements; nil stays nil, and an empty non-nil slice also becomes nil |
| Util.AppendToNil | util.go:8 | appending elements to a nil slice gives those elements, and nil when there are none |
| DomainName.LabelBytes | msg_helper.go:81-84 | a label is written as its length byte followed by its bytes |
| DomainName.DotFrom | msg_helper.go:63-66 | the scan from j stops at the next '.' or at the end of the name |
| DomainName.IsRootLabel | msg_helper.go:104-106 | the range is the root label exactly when it is the one byte '.' |
| DomainName.PointerBytes | msg_helper.go:96 | a pointer is two bytes whose first has its top two bits set; below 0x4000 they are the big-endian value 0xC000 or the target |
| DomainName.EncFrom | msg_helper.go:58-89 | the label loop stops at or after where it started, with no pointer or a 16-bit pointer |
| DomainName.EncStep | msg_helper.go:66-87 | a label whose suffix is not in the map is recorded under the current offset, written, and the loop goes on after its '.' with the offset advanced by 1 plus its length |
| DomainName.RunSplit | msg_helper.go:62-89 | the labels the loop writes, followed by the labels from where it stopped, are the labels of the name |
| DomainName.HitIsOld | msg_helper.go:70-74 | when the loop stops at a pointer, it is the entry the caller's map already held for the remaining suffix, not one the same name added |
| DomainName.EncFromKeeps | msg_helper.go:72-77 | every entry the map held before is still there with its offset |
| DomainName.EncFromMap | msg_helper.go:69-78 | the map after the loop holds exactly the old entries plus each new non-root suffix of the written labels, under the offset of its label truncated to 16 bits |
| DomainName.EncName | msg_helper.go:58-102 | `packDomainName`'s bytes are never empty: they end in a zero byte when no suffix was found in the map, and otherwise in a pointer whose first byte has its top two bits set and whose second byte is the low byte of the suffix's offset |
| DomainName.EncNameMap | msg_helper.go:58-102 | the map `packDomainName` returns is the one the label loop leaves, as `EncFromMap` states it |
| DomainName.EncNameKeeps | msg_helper.go:76 | `packDomainName` keeps every entry of the map it is given |
| DomainName.RootLabels | msg_helper.go:91-93 | a name whose first label is the root is exactly ".", never uses a pointer, and writes one empty label |
| DomainName.EncNameLen | msg_helper.go:58-102 | the encoding is never longer than the uncompressed one, the labels and a closing zero byte; without a pointer it is exactly that, and for the root only its one empty label |
| DomainName.NameWrite | msg_helper.go:58-102 | succeeds exactly when the encoding fits from off, and then returns off plus its length; an out-of-range write is an index error with offset 0 and an unchanged buffer |
| DomainName.PackDomainName | msg_helper.go:58-102 | the in-place writer leaves exactly the result of `NameWrite`, and returns the encoder's map, or the old map on failure |
| DomainName.WriteName | msg_helper.go:58-102 | with room for the encoding, the buffer holds it at off, and the new offset and map are the encoder's |
| DomainName.PackLabels | msg_helper.go:62-89 | the loop writes exactly the encoder's labels at off, and returns their end, the encoder's map and its pointer |
| DomainName.PackNameEnd | msg_helper.go:91-101 | after the labels: nothing for the root, else the pointer, else a zero byte |
| DomainName.LabelHit | msg_helper.go:72-74 | a suffix found in the map stops the loop with that entry as the pointer |
| DomainName.LabelNext | msg_helper.go:75-87 | a suffix not in the map is recorded, and its label joins the labels written |
| DomainName.Step | msg_helper.go:114-139 | one decoder step: a failure returns offset 0; the pointer count never passes 126; each step follows one more pointer or moves forward; the resume offset is set at the first pointer only |
| DomainName.NameLoop | msg_helper.go:113-150 | the decoder fails with offset 0, or ends past its start when no pointer was followed, or at the offset after the first pointer |
| DomainName.UnpackName | msg_helper.go:108-150 | a decoded name is never empty and ends past off; a failure gives the empty name and offset 0 |
| DomainName.UnpackDomainName | msg_helper.go:108-150 | the decoder loop returns exactly `UnpackName`'s name, offset and error |
| DomainName.AppendLabel | msg_helper.go:123-125 | the copy loop appends exactly the label's bytes to the name read so far |
| DomainName.RootDecodes | msg_helper.go:120-121 | a zero byte decodes as "." and ends one byte later |
| DomainName.SelfPointerFails | msg_helper.go:128-138 | a pointer to itself fails with the infinite-loop error after the hop limit |
| DomainName.PointerJump | msg_helper.go:128-138 | a pointer continues at six bits of its second byte, counts one hop, and remembers off+2 at the first hop |
| DomainName.ResumeAfterPointer | msg_helper.go:132-134 | a name that starts with a pointer ends just after the pointer, wherever the pointer leads |
| DomainName.ReservedLengthSkipped | msg_helper.go:117-139 | a length byte with top bits 01 or 10 is skipped without effect |
| DomainName.DecodeLabels | msg_helper.go:118-127 | labels stored from off are read one by one, each followed by '.' |
| DomainName.JoinPlain | msg_helper.go:62-89 | a valid name is the '.'-join of its labels |
| DomainName.NameRoundTripPlain | msg_helper.go:58-150 | a valid name written without a pointer reads back, ending just past its encoding |
| DomainName.RootRoundTrip | msg_helper.go:91-93 | "." written as one zero byte reads back as "." |
| DomainName.FreshMapRoundTrip | msg_helper.go:58-150 | with the empty map of a new message, a valid name reads back |
| DomainName.CompressedDecodes | msg_helper.go:113-150 | labels, then a pointer to stored labels and a zero byte, decode to the text of both and end after the pointer |
| DomainName.NameRoundTripCompressed | msg_helper.go:58-150 | a name whose suffix hits the map at a target below 64, with that suffix stored there, reads back and ends just past the pointer |
| DomainName.PointerAbove63Encoded | msg_helper.go:95-97 | a suffix recorded at offset 70 is written as the pointer bytes C0 46 |
| DomainName.PointerAbove63Lost | msg_helper.go:138 | those bytes decode by jumping to offset 6 (70 masked to six bits) and give a different name |
| Compression.LoopExtends | msg_helper.go:113-150 | a name that decodes within a prefix decodes the same in any longer buffer |
| Compression.EmptyMapValid | msg.go:135 | the new, empty map of a message is sound |
| Compression.NameReads | msg_helper.go:58-150 | with a map sound for the bytes before off, a valid name whose pointer target, if any, is below 64 reads back from any buffer holding its encoding |
| Compression.NameKeepsMapValid | msg_helper.go:69-78 | the map `packDomainName` leaves is sound for the bytes up to the end of the name: each entry a pointer can reach decodes to its suffix |
| Compression.RunEntries | msg_helper.go:69-78 | every suffix the label loop records is an entry the decoder resolves |
| Records.Zero | types.go:41-50 | the registry's constructor gives an empty record of the requested variant |
| Records.NamePack | rr_imp.go:47-54 | the NS and CNAME payload writer keeps the old map entries; on failure it returns offset 0 and leaves buffer and map; on success it advances |
| Records.PayloadPack | rr_imp.go:7-54 | each variant's `pack` keeps the buffer length and the old map entries, and never moves backward |
| Records.PayloadPackFrame | resource_record.go:23-25 | a failed payload write leaves buffer and map; nothing before off changes; a bare header writes nothing and succeeds; NS failures return 0 |
| Records.PayloadUnpack | rr_imp.go:15-62 | each variant's `unpack` keeps the variant; A advances 4, AAAA 16, NS and CNAME past the name; NS failures return 0 |
| Records.NameKeepsAll | msg_helper.go:76 | encoding a name keeps every old map entry |
| Records.PayloadRoundTrip | rr_imp.go:7-62 | a payload that survives, packed with a sound map, unpacks into a fresh record of its variant as itself, ending where `pack` ended |
| Records.NamePackRoundTrip | rr_types.go:31-47 | an NS or CNAME target written with a sound map reads back |
| Records.RR.constructor | types.go:41-50 | a new record of a variant has a zero header and an empty payload |
| Records.RR.FromHeader | resource_record.go:11-17 | a bare header record holds the header and no payload |
| Records.RR.SetHeader | msg_helper.go:237 | `*rr.Header() = rh` replaces the header and keeps the payload |
| Records.RR.Pack | resource_record.go:3-9 | a record's `pack` leaves exactly the result of `PayloadPack` on its payload |
| Records.RR.Unpack | resource_record.go:3-9 | a record's `unpack` keeps the header and leaves exactly the result of `PayloadUnpack` |
| Sections.Values | rr_imp.go:65 | the values of records are taken one by one, in order |
| Sections.FieldsWrite | rr_imp.go:71-84 | Rrtype, Class and Ttl take 8 bytes |
| Sections.HeaderPack | rr_imp.go:66-84 | the record header writer keeps the old map entries and advances past the name and 8 bytes |
| Sections.RdataPack | rr_imp.go:86-99 | the payload with its Rdlength slot keeps the old map entries and advances at least past the slot |
| Sections.RdataPackSteps | rr_imp.go:86-99 | a failed payload is returned as is; otherwise the length of the payload, truncated to 16 bits, is written back into the slot and the offset stays at the payload's end |
| Sections.RecordPack | rr_imp.go:65-99 | one record's writer keeps the old map entries and advances |
| Sections.PackSection | rr_imp.go:64-103 | `packRRSlice` keeps the buffer length and the old map entries, and advances when there are records |
| Sections.PackSectionStep | rr_imp.go:64-103 | the first failing record ends the section with its result; otherwise the rest are packed after it |
| Sections.PackSectionAppend | rr_imp.go:64-103 | packing two runs of records one after the other is packing them as one |
| Sections.PackRRSlice | rr_imp.go:64-103 | the in-place loop leaves exactly the result of `PackSection` on the records' values |
| Sections.PackRecord | rr_imp.go:65-99 | one turn of the loop leaves exactly the result of `RecordPack` |
| Sections.PackFields | rr_imp.go:71-84 | the fixed fields leave exactly the result of `FieldsWrite` |
| Sections.PackRdata | rr_imp.go:86-99 | the payload and its backfilled length leave exactly the result of `RdataPack` |
| Sections.Backfill | rr_imp.go:95-99 | the Rdlength slot receives the payload length as a 16-bit value |
| Sections.HeaderAt | msg_helper.go:189-209 | a record header read succeeds only if its name decodes, and then holds that name and ends 10 bytes after it |
| Sections.RRFrom | msg_helper.go:231-253 | an unregistered type skips Rdlength bytes and gives no record; a registered one gives a record of its variant with the header read; a failure gives no record |
| Sections.RecordAt | msg_helper.go:189-225 | a record read ends exactly Rdlength bytes after its header, or fails; a record it gives has the variant its type code names |
| Sections.Section | msg_helper.go:184-229 | a failure returns no records; success keeps at most one record per count |
| Sections.SectionFrom | msg_helper.go:184-229 | from an empty result: no records on failure, at most `count` on success |
| Sections.Kept | msg_helper.go:223-225 | a record is appended only when there is one |
| Sections.UnpackRRSlice | msg_helper.go:184-229 | the loop returns exactly `SectionFrom`'s records, offset and error; a negative count reads nothing |
| Sections.ReadRecords | msg_helper.go:188-226 | the loop's records have exactly the values the specification reads |
| Sections.ReadRecord | msg_helper.go:189-225 | one turn gives exactly `RecordAt`'s record, offset and error |
| Sections.ReadHeader | msg_helper.go:189-209 | the header reads give exactly `HeaderAt` |
| Sections.UnpackRR | msg_helper.go:231-253 | `unpackRR` gives exactly `RRFrom` |
| Sections.ValueOf | msg_helper.go:223 | a record is present exactly when the pointer is non-nil |
| Message.Words | msg.go:55-82 | the header is six 16-bit words |
| Message.RcodeNibble | msg.go:105 | `uint16(Rcode & 0xF)` has no bit set above its low four |
| Message.FlagBits | msg.go:105-120 | the flag word `Pack` builds holds the Opcode word's low four bits in bits 11-14 and Rcode's low four bits in bits 0-3, has each of AA, TC, RD and RA exactly when set, and has QR when Response is set or Opcode bit 4 is |
| Message.FlagWord | msg.go:105-120 | the flag word carries Opcode in bits 11-14, Rcode in bits 0-3, and each of QR, AA, TC, RD and RA exactly when set; Opcode bit 4 also sets QR |
| Message.FlagsInto | msg.go:188-195 | unpacking the flag word sets Id, keeps Zero, and gives Opcode and Rcode in 0..15 |
| Message.FlagsFromBits | msg.go:188-195 | the flags read back from a packed flag word are the ones packed, with Opcode masked to 4 bits |
| Message.FlagsRoundTrip | msg.go:105-120 | for any Opcode and Rcode, unpacking the packed flags gives the header back with Rcode mod 16, Opcode masked to 4 bits, and QR also set by Opcode bit 4 |
| Message.FlagsRoundTripInRange | msg.go:105-195 | with Opcode and Rcode in 0..15, the flags round-trip exactly, except for Zero, which is kept |
| Message.OpcodeSpillsIntoQR | msg.go:105 | an Opcode from 16 to 31 reads back as a response with Opcode minus 16 |
| Message.WordsWrite | msg.go:55-82 | writing the words keeps the buffer length and advances 2 bytes per word |
| Message.WordsWrites | msg.go:55-82 | the words are written big-endian exactly when they fit; otherwise it fails with len(buf) and the overflow error |
| Message.PackHeader | msg.go:55-82 | `Header.pack` leaves exactly the result of `WordsWrite` on the six words |
| Message.WordsRead | msg.go:164-187 | reading words succeeds exactly when they fit, and then gives that many and advances 2 bytes each |
| Message.HeaderRead | msg.go:164-187 | reading the header succeeds exactly when 12 bytes remain, and then ends 12 bytes later |
| Message.HeaderAtReads | msg.go:164-187 | a header's 12 bytes read back as that header |
| Message.HeaderRoundTrip | msg.go:55-82 | writing a header succeeds exactly when 12 bytes fit, and then it reads back |
| Message.QuestionBytes | msg.go:35-49 | a question is its name's encoding plus 4 bytes |
| Message.QuestionPack | msg.go:35-49 | `Question.pack` keeps the old map entries and advances past the name and 4 bytes |
| Message.QuestionWrites | msg.go:35-49 | `Question.pack` succeeds exactly when its bytes fit, and then writes them and returns the name's map |
| Message.PackQuestion | msg.go:35-49 | the in-place writer leaves exactly the result of `QuestionPack` |
| Message.QuestionsPack | msg.go:136-141 | the question loop keeps the old map entries and writes at least 4 bytes per question |
| Message.PackQuestions | msg.go:136-141 | the in-place loop leaves exactly the result of `QuestionsPack` |
| Message.QuestionAt | msg.go:199-211 | a question read ends 4 bytes after its name |
| Message.QuestionReads | msg.go:199-211 | a question written with a sound map, whose name's pointer target is below 64, reads back |
| Message.QuestionsFrom | msg.go:198-213 | the question loop reads at most its count, and exactly the count on success |
| Message.ReadQuestion | msg.go:199-211 | one turn gives exactly `QuestionAt` |
| Message.PackMsg | msg.go:102-159 | a failure returns no bytes; success returns the header and at least 4 bytes per question, within the buffer size |
| Message.PackBody | msg.go:135-158 | questions then sections: no bytes on failure, within the buffer on success |
| Message.PackRecords | msg.go:143-158 | answer, authority and additional sections in turn: no bytes on failure |
| Message.HeaderOf | msg.go:103-124 | the wire header carries Id and the flag word `FlagBits` builds, and each count is its section's length mod 65536 |
| Message.UnpackMsg | msg.go:161-230 | data shorter than 12 bytes fails and leaves the message as it was; otherwise Id is the header's, Zero is kept, and Opcode and Rcode are in 0..15; the message's earlier questions stay in front, even when a later part fails; on success exactly Qdcount questions are appended and each record section holds at most its count |
| Message.UnpackBody | msg.go:197-229 | the header fields are untouched and the questions read are appended, at most Qdcount of them; fewer than Qdcount means the read failed and the record sections are as they were; on success each record section holds at most its count |
| Message.UnpackRecords | msg.go:215-229 | only the record sections change; on failure the section that failed is empty and those after it are as they were; on success each holds at most its count |
| Message.NewWithHeader | msg.go:126-133 | the new zero buffer of the given size holds the header words |
| Message.PackBodyInto | msg.go:135-158 | the in-place body writer gives exactly `PackBody` |
| Message.PackSections | msg.go:143-158 | the in-place section writer gives exactly `PackRecords` |
| Message.Msg.constructor | msg.go:3-9 | a new message has a zero header and empty sections |
| Message.Msg.SetQuestion | msg.go:232-238 | appends one question of class INET and changes nothing else |
| Message.Msg.Pack | msg.go:102-159 | `Msg.Pack` gives exactly `PackMsg` of the message's value |
| Message.Msg.Unpack | msg.go:161-230 | `Msg.Unpack` leaves exactly the message and error `UnpackMsg` gives |
| Message.Msg.SetFlags | msg.go:188-195 | sets Id and the flags from the flag word and changes nothing else |
| Message.Msg.ReadQuestions | msg.go:197-213 | appends the questions read to those already there and changes nothing else |
| Message.Msg.ReadBody | msg.go:197-229 | questions then sections leave exactly `UnpackBody` |
| Message.Msg.ReadSections | msg.go:215-229 | the three sections leave exactly `UnpackRecords` |
| Message.Msg.ReadAnswer | msg.go:216-219 | Answer becomes the section read, or nil on failure; nothing else changes |
| Message.Msg.ReadNs | msg.go:220-223 | Ns becomes the section read, or nil on failure; nothing else changes |
| Message.Msg.ReadExtra | msg.go:224-227 | Extra becomes the section read, or nil on failure; nothing else changes |
| RoundTrip.NameWrites | msg_helper.go:58-102 | packing a name writes exactly its layout: bytes and new map |
| RoundTrip.PayloadWrites | rr_imp.go:7-54 | packing a surviving payload writes exactly its layout; an empty A or AAAA address writes nothing and succeeds within the buffer |
| RoundTrip.PayloadReads | rr_imp.go:15-62 | a surviving payload's layout reads back as the payload |
| RoundTrip.PayloadKeepsMapValid | rr_imp.go:47-54 | the map after a payload stays sound |
| RoundTrip.FieldsWrites | rr_imp.go:71-84 | the fixed fields are written big-endian exactly when they fit |
| RoundTrip.HeaderWrites | rr_imp.go:66-84 | a record header writes exactly its layout |
| RoundTrip.RdataWrites | rr_imp.go:86-99 | the Rdlength slot and payload write exactly their layout, with the true payload length in the slot (0 for an empty address) |
| RoundTrip.RecordWrites | rr_imp.go:65-99 | one record writes exactly its layout |
| RoundTrip.HeaderReads | msg_helper.go:189-209 | a record header's layout reads back as the header |
| RoundTrip.RecordReads | msg_helper.go:189-253 | a surviving record's layout reads back as the record, ending at its end; an A or AAAA record with no address comes back through `unpackRR`'s Rdlength-0 return |
| RoundTrip.RecordKeepsMapValid | rr_imp.go:65-99 | the map after a record stays sound for the bytes up to its end |
| RoundTrip.SectionWrites | rr_imp.go:64-103 | `packRRSlice` on surviving records writes their chained layout |
| RoundTrip.SectionReads | msg_helper.go:184-229 | `unpackRRSlice` reads the chained layout back as the records |
| RoundTrip.SectionKeepsMapValid | rr_imp.go:64-103 | the map after a section stays sound for the bytes up to its end |
| RoundTrip.SectionRoundTrip | rr_imp.go:64-103 | what `packRRSlice` wrote for surviving records (A, NS and CNAME, and A or AAAA with no address) reads back through `unpackRRSlice` as the same records, ending where packing ended, and the map it leaves is sound |
| MessageRoundTrip.QuestionsWrites | msg.go:136-141 | the question loop writes the questions' chained layout |
| MessageRoundTrip.QuestionsReads | msg.go:198-213 | the question loop reads the chained layout back as the questions |
| MessageRoundTrip.MsgPacks | msg.go:102-159 | packing a surviving message into a buffer that holds it succeeds and gives exactly the header, questions and sections laid out |
| MessageRoundTrip.MsgUnpacks | msg.go:161-230 | unpacking those bytes into a message gives the header (Zero kept), the questions appended, and the three sections |
| MessageRoundTrip.MsgRoundTrip | msg.go:102-230 | packing succeeds, and unpacking the packed bytes into any message gives the message back: its flags, Opcode, Rcode, questions and records, with the receiving message's Zero flag and earlier questions kept |

## Left out

- DomainName.NameWrite, DomainName.UnpackName, Message.PackRecords: Go
  panics become errors. An out-of-range write in `packDomainName`, a read
  past the end in `unpackDomainName`, and `buf[:off]` past the end in
  `Pack` become `Fail(IndexOutOfRange)`. The name functions return offset
  0 and an unchanged buffer. Go would panic and return nothing.
- Message.PackMsg: `Msg.len` and `Question.len` are not modelled.
  `getDomainNameLen` and the records' `len` are not part of this model.
  The buffer size is a parameter, and the round trip requires it to hold
  the message.
- Records.PayloadPack, Records.PayloadUnpack, Records.RR.Pack and
  Records.RR.Unpack: the SOA, PTR, MX and TXT types are registered, but
  their payload layouts are not part of this model. They are carried as
  `Unseen`: raw Rdlength bytes, copied on pack and sliced on unpack.
  `Records.RoundTrips` is false for them, so no round trip covers them.
- Records.RR.Unpack requires a payload variant: `RR_Header.unpack` panics
  and is never reached from `unpackRR`, which calls `unpack` only for a
  registered type.
- RoundTrip.SectionRoundTrip: the round trip excludes AAAA records with
  a 16-byte address, which `packDataAAAA` loses; A records with a 16-byte
  address, which come back as 4 bytes; addresses of any other length,
  which fail to pack; pointer targets of 64 or more, which the decoder
  masks to six bits; owner names that are not valid names; a type code
  that the registry does not map to the payload's variant; an Rdlength
  other than the payload's length, which `pack` overwrites; and sections
  ending past 65536 bytes, past which the map's 16-bit offsets wrap. A
  and AAAA records with no address are covered.
- MessageRoundTrip.MsgRoundTrip: the same records as
  RoundTrip.SectionRoundTrip are excluded, and so are question names that
  are not valid names, an Opcode or Rcode outside 0..15, a section of
  65536 entries or more, whose count wraps, and messages longer than
  65536 bytes.
- Util.CloneSlice: the copy's own backing array is not modelled. Slices
  are values, so neither the independence of a clone nor `append`
  aliasing in `Unpack` and `SetQuestion` can be expressed.
- Sections.UnpackRRSlice, Sections.ReadRecords: these do not state that
  the records returned are newly allocated. `Sections.ReadRecord` and
  `Sections.UnpackRR` do.
- The log line for an unsupported type, the `fmt` error texts (only the
  error kind is kept), and the Redis and RabbitMQ code around the codec
  are not modelled.

# AllJoyn thin client core, verified

A Dafny model of the AllJoyn thin client core, with proofs of what its parts are for. Each
module follows one source file or one layer of it. Code that changes state is modelled as
classes and methods over arrays; what it should do is a function or a predicate on octets, maps
or sequences, and the methods are proved against that.

* **Wire format** (`Wire`, `Layout`, `Args`, `IoBuf`, `Marshal`, `MarshalClient`, `Unmarshal`,
  `Decoding`, `UnmarshalClient`, `Skip`, `Headers`, `Framing`, `Session`, `Transport`, `RawBody`).
  `Wire.Enc` is the encoding of a tree of values at an offset, and `Layout` says in numbers what
  that is; `Unmarshaling.ParseArg` is a reference parser of one argument. The marshaling methods
  write exactly the encoding, the unmarshaling methods read exactly what the parser finds, and
  `Session.RoundTrip` puts the two together: any well-formed tree comes back.
  `Transport.SendReceive` does the same for whole messages, header fields included.
  The link is a list of receive events of any size, so every statement holds for every way the
  octets are handed over. A link that fails sets the ghost flag `failed`.
* **Encryption** (`AesTables`, `Aes`, `AesInverse`, `AesEngine`, `Ccm`, `CcmCode`, `SecureMsg`,
  `SecureBuffers`, `SecureTransport`, `Octets`). The table-driven AES-128 is the cipher of
  FIPS 197, which can be undone. CCM is treated over an arbitrary block function: opening undoes
  sealing, and sealing is RFC 3610 within stated bounds. `SecureTransport.SendReceiveEncrypted`
  is the round trip of a whole encrypted message.
* **Storage** (`Nvram`, `NvramStore`, `NvramChunks`, `CredLayout`, `CredStore`). The memory is a
  chain of entries that stands for a map from id to octets; on it, credentials are a map by type
  and id.
* **Memory pools** (`PoolLayout`, `Pool`). Free lists are threaded through the memory they manage.
* **Message identification** (`Signatures`, `Identify`, `Replies`), **CRC** (`Crc16`).
* **Introspection** (`Introspect`, `IntrospectText`, `XmlWriter`, `XmlGenerator`, `IntrospectReply`).
  The XML generator is proved against the sequence of pieces it hands to its writer, whichever
  writer that is; so the size it announces is the size it writes. For described interfaces the
  pieces read as the XML of the D-Bus Specification.

Conventions: an octet is a number below 256, except in the encryption and CRC modules, where it
is an eight-bit vector; the host is little-endian with 32-bit pointers; `Status` lists the status
codes that occur. Receive events, time-outs, the outcome of message identification and of key
look-ups, and the junk in the unused part of a patched word are parameters.

What the proofs brought to light, each stated in a contract or a lemma:

* A variant signature of 255 octets, which the format allows, is forgotten as soon as it is
  written, because its length plus one is kept in 8 bits (`Marshaling.Message.MarshalVariant`).
  `Wire.LongSignature` is one such; `Wire.WellFormed` therefore asks for at most 254.
* Skipping, and with it resetting, goes wrong exactly when a variant sits directly inside a
  variant (`Skipping.SkipArg`, `Session.ResetArgs`; `Skipping.WrappedTwice` is the smallest case).
* A raw body announced with 2^16 octets or more is counted in 16 bits: what is delivered is then
  not a whole message (`RawBody.SendRawBody`; `RawBody.OneOctetForMany` runs one). For the same
  reason introspection gets no whole reply from 65531 octets of XML on
  (`IntrospectReply.HandleIntrospectRequest`, `XmlWriter.LongXml`).
* An encrypted introspection request gets no reply, however small the XML: the reply is to be
  encrypted too, and raw bodies cannot be (`IntrospectReply.HandleIntrospectRequest`,
  `IntrospectReply.EncryptedRequest`, `RawBody.EncryptedBody`).
* A received body of 2^16 octets or more is counted in 16 bits too: the stream is then left
  inside it (`Framing.ReceiveAndClose`, `Framing.LongBody`).
* A compressed header, which this peer cannot read, is refused only if its token is the last
  field; otherwise the next field's status takes the place of the refusal
  (`Framing.TokenLast`, `Framing.TokenFirst`).
* With 32768 octets or more left in a data set a write writes nothing
  (`NvramStore.Store.Write`, `NvramStore.LongDataSet`), so no credential longer than 32764 octets can be stored.
* Id 0xFFFF, which marks the erased tail, is not ruled out. Deleting it leaves no chain of
  entries if and only if there is a tail, and creating it leaves none if and only if it succeeds,
  for which there must be no tail (`NvramStore.Store.Delete`, `NvramStore.Store.Create`).
* Storing a credential may never end (`CredStore.Evict` has the exact condition,
  `CredStore.NeverEndsExample` is a run).
* Storing a credential that is too long fails and may leave an erased slot, which reads as a broken
  credential: from then on nothing can be evicted (`CredStore.StoreCredential`,
  `CredStore.WipedExample`).
* The test of a variant's signature lets unfinished signatures through (`Wire.PassesTest`,
  `Wire.UnfinishedPass`).
* A credential with an empty id is stored and never found (`CredStore.StoreThenGet`).
* The counter of counter mode is wrong after 511, not only beyond 2^16 as the comment says
  (`Ccm.CounterNext`, `Ccm.CounterWraps`).
* The single-block function encrypts the input added to the key. That is AES-128 of the input if
  and only if the key is sixteen zero octets (`CcmCode.EcbMeets`, `CcmCode.EcbDiffers`).
* A decrypted message keeps the eight octets of its MAC in its body length
  (`SecureMsg.Exchange`). Closing it takes them into account, but resetting one that has
  arguments always fails (`SecureTransport.ResetOpened`).
* Initialising the pools does not count their records: a heap that is too small by no more than
  these is accepted (`Pool.Heap.Init`, `PoolLayout.RecordsNotCounted`).
* A method entry may start with `<` instead of `?`; a call made from one is refused by its own
  receiver if the member has a name (`Identify.InitThenLookup`, `Identify.DirectionFirst`).
* An object registered behind an object below it is introspected as an empty parent
  (`Introspect.Selected`, `Introspect.ParentBehind`).

## Model

| member | source | states |
|---|---|---|
| Wire.PadAligns | components/alljoyn/core/ajtcl/src/aj_msg.c:151-225 | The padding inserted before a value brings its offset to the alignment of its type, and no smaller padding does. |
| Wire.ScanStops | components/alljoyn/core/ajtcl/src/aj_msg.c:538-575 | The signature scan stops exactly behind the first complete type, whatever follows it. |
| Wire.CompleteSigLen | components/alljoyn/core/ajtcl/src/aj_msg.c:538-575 | For every complete type followed by anything, the length the scan returns is the type's own length. |
| Wire.PassesTest | components/alljoyn/core/ajtcl/src/aj_msg.c:2056-2062 | Exactly which signatures the length test lets through: at most 255 octets of array marks and behind them nothing, one octet that is no bracket, or an opening bracket not closed before the end; every complete type of that length is among them. |
| Wire.UnfinishedPass | components/alljoyn/core/ajtcl/src/aj_msg.c:2056-2062 | The empty signature, an array mark and an opening bracket pass the test and are no complete types. |
| Wire.LongSignature | components/alljoyn/core/ajtcl/src/aj_msg.c:538-575 | A struct of 253 octets has a signature of 255 octets, which the scan accepts whole and whose length plus one is 0 in 8 bits. |
| Wire.SigPrefixFree | components/alljoyn/core/ajtcl/src/aj_msg.c:538-575 | Complete types form a prefix code: two that start the same string are the same. |
| Wire.EncNonEmpty | components/alljoyn/core/ajtcl/src/aj_msg.c:1486-1600 | Every value takes room on the wire, at every offset; counting octets can therefore end an array. |
| Wire.EncUnique | components/alljoyn/core/ajtcl/src/aj_msg.c:1486-1600 | Unique decodability: two well-formed values of one signature whose encodings at one offset start the same octets are the same value, with the same rest. |
| Layout.PadStands | components/alljoyn/core/ajtcl/src/aj_msg.c:98-225 | The octets that are types, and the only place a value of each can start: at once for y g v, at the next multiple of 2 for n q, of 4 for a b h i o s u, of 8 for d t x and structs; the code's padding leads there. |
| Layout.KindsAre | components/alljoyn/core/ajtcl/src/aj_msg.c:98-156 | Which octets are numbers and of which size, which are strings, containers and variants. |
| Layout.SigInjective | components/alljoyn/core/ajtcl/src/aj_msg.c:538-575 | A signature is that of one type only. |
| Layout.FormedIff | components/alljoyn/core/ajtcl/src/aj_msg.c:1486-1600 | The values the model calls well formed are exactly the values of some type, numbers of 1, 2, 4 or 8 octets by their type and lengths in their fields, and their signature is the type's. |
| Layout.EncStands | components/alljoyn/core/ajtcl/src/aj_msg.c:217-225 | What the encoding of a value is at an offset, in numbers: zeros up to the one place its type can start at, then its octets, its length and text, its length and elements from where their type can start, its fields, or its signature and value. |
| Args.CStrAt | components/alljoyn/core/ajtcl/src/aj_msg.c:1162-1180 | A NUL-free signature is read back from the place in the buffer it was written to. |
| Args.SigNoNul | components/alljoyn/core/ajtcl/src/aj_msg.c:538-575 | The signature of a well-formed value has no NUL in it. |
| IoBuf.IoBuffer.Recv | components/alljoyn/core/ajtcl/target/linux/aj_net.c:156-220 | However the link hands octets over, what has been received plus what is still to come is the same stream, and the indices stay in the buffer; it succeeds if and only if the link has octets to hand over and there is room. |
| IoBuf.IoBuffer.LoadBytes | components/alljoyn/core/ajtcl/src/aj_msg.c:407-447 | Loading makes the wanted octets available behind the padding or reports why not, without consuming or losing any octet of the stream. |
| IoBuf.IoBuffer.Send | components/alljoyn/core/ajtcl/target/linux/aj_net.c:109-133 | A send puts all of the buffer on the link, in order, or reports a failure. |
| IoBuf.IoBuffer.WriteBytes | components/alljoyn/core/ajtcl/src/aj_msg.c:452-500 | With the header still in the buffer a write succeeds if and only if it fits, and appends padding and octets; afterwards, sent plus buffered octets grow by exactly those. |
| IoBuf.IoBuffer.Rebase | components/alljoyn/core/ajtcl/src/aj_bufio.c:49-61 | Moving unread octets in the buffer keeps them, and what is preserved in front of them. |
| Marshaling.Message.MarshalScalar | components/alljoyn/core/ajtcl/src/aj_msg.c:1515-1560 | A scalar is written if and only if it is what the signature asks for and there is room; its 1, 2, 4 or 8 octets then stand at the next multiple of their number, behind zeros; the signature moves on by one. |
| Marshaling.Message.MarshalFlatArray | components/alljoyn/core/ajtcl/src/aj_msg.c:1525-1550 | An array of scalars passed in one piece is written if and only if there is room: its length at the next multiple of 4, its octets at the next multiple of their type's size. |
| Marshaling.Message.MarshalString | components/alljoyn/core/ajtcl/src/aj_msg.c:1560-1592 | A string or path is written with its length at the next multiple of 4, a signature with one octet of length at once, both with their NUL, if and only if there is room. |
| Marshaling.Message.MarshalContainerArg | components/alljoyn/core/ajtcl/src/aj_msg.c:1486-1513 | Opening a container writes its padding and, for an array, room for the length and the padding of the first element. |
| Marshaling.Message.Marshal | components/alljoyn/core/ajtcl/src/aj_msg.c:1515-1600 | One argument: exactly its octets are appended when it matches the signature and fits, and the signature is passed by exactly its type. |
| Marshaling.Message.MarshalArg | components/alljoyn/core/ajtcl/src/aj_msg.c:1758-1805 | An argument is accepted if and only if it matches the next type and fits; the body length grows by exactly the octets written, and the innermost signature moves on. |
| Marshaling.Message.MarshalContainer | components/alljoyn/core/ajtcl/src/aj_msg.c:1998-2009 | A container is opened if and only if the signature asks for it and it fits; zeros lead to the next multiple of 8 for a struct or dictionary entry, and for an array to its length at the next multiple of 4 and from there to where its first element can start; it becomes the innermost container. |
| Marshaling.Message.MarshalCloseContainer | components/alljoyn/core/ajtcl/src/aj_msg.c:2011-2054 | Closing an array writes its length, not counting the padding in front of 8-aligned elements, into the place kept for it; a struct must be at its closing bracket. |
| Marshaling.ClosedLenIsElements | components/alljoyn/core/ajtcl/src/aj_msg.c:2026-2040 | The length that closing an array computes from the two positions is the length of its elements, whatever their alignment. |
| Marshaling.Message.MarshalVariant | components/alljoyn/core/ajtcl/src/aj_msg.c:2056-2069 | A variant's signature is written if and only if the scan takes all of it for one type and it fits; it is what the next argument is marshaled against if and only if it is at most 254 octets long. |
| Marshaling.Message.DeliverMsg | components/alljoyn/core/ajtcl/src/aj_msg.c:357-402 | For a message that is not to be encrypted, what is sent is the header with its length field equal to the octets behind the header, then those octets; a partial body that is not complete is refused and nothing is sent. |
| Marshaling.Message.DeliverMsgPartial | components/alljoyn/core/ajtcl/src/aj_msg.c:1921-1979 | The status is exact: nothing announced, encryption asked for, no argument left and no room for padding are refused, in this order, and nothing is sent; otherwise the header with the announced body length and the padding is in the buffer, and the count of what is to follow is the announcement cut to 16 bits. |
| Marshaling.Message.MarshalRaw | components/alljoyn/core/ajtcl/src/aj_msg.c:1981-1996 | Raw octets are accepted if and only if they do not exceed what is left of the announcement, and are then put on the link in order. |
| MarshalClient.FlatArrayIsArray | components/alljoyn/core/ajtcl/src/aj_msg.c:1525-1550 | An array of scalars passed in one piece and the same array marshaled element by element put the same octets on the wire. |
| MarshalClient.Put | components/alljoyn/core/ajtcl/src/aj_msg.c:1758-1805 | Any value tree is marshaled, argument by argument, if and only if its encoding fits, and exactly its encoding is appended. |
| MarshalClient.PutAll | components/alljoyn/core/ajtcl/src/aj_msg.c:1758-1805 | A list of values is marshaled if and only if all of it fits; exactly the encodings are appended and the signature is passed by all their types. |
| MarshalClient.PutArray | components/alljoyn/core/ajtcl/src/aj_msg.c:1998-2054 | Container open, elements, container close produce exactly the encoding of the array, length field included. |
| MarshalClient.CloseArray | components/alljoyn/core/ajtcl/src/aj_msg.c:2011-2054 | Back-patching turns the octets in the buffer into the array's encoding and restores the enclosing container. |
| MarshalClient.PutStruct | components/alljoyn/core/ajtcl/src/aj_msg.c:1998-2054 | A struct or dictionary entry marshaled field by field is its encoding, and the enclosing container is the innermost again. |
| MarshalClient.PutVariant | components/alljoyn/core/ajtcl/src/aj_msg.c:2056-2069 | A variant's signature followed by its value, marshaled against the signature read back from the buffer, is the variant's encoding. |
| Unmarshaling.Message.UnmarshalScalar | components/alljoyn/core/ajtcl/src/aj_msg.c:672-690 | A scalar is read if and only if it is there, whatever way the octets arrive; the link is the only other thing that can fail. |
| Unmarshaling.Message.UnmarshalString | components/alljoyn/core/ajtcl/src/aj_msg.c:691-730 | A length-prefixed string is what stands at the read position; for a variant the place of its signature is remembered in 8 bits. |
| Unmarshaling.Message.UnmarshalArray | components/alljoyn/core/ajtcl/src/aj_msg.c:605-652 | The whole array is loaded; an array of scalars is returned in one piece, any other is opened with the position and length its end is checked by. |
| Unmarshaling.Message.UnmarshalStruct | components/alljoyn/core/ajtcl/src/aj_msg.c:577-603 | A struct or dictionary entry is opened behind its padding, with its fields as signature. |
| Unmarshaling.Message.Unmarshal | components/alljoyn/core/ajtcl/src/aj_msg.c:658-735 | One argument is read as the reference parser reads it, and the signature moves on by one complete type; nothing else is taken for one, except where a length does not fit the 16 bits in which what is to be loaded is counted, or is that of an array of nothing. |
| Unmarshaling.Message.UnmarshalArg | components/alljoyn/core/ajtcl/src/aj_msg.c:1187-1231 | At the end of an array no more is reported and nothing changes; otherwise the argument is the parser's, the body shrinks by exactly what was consumed, and only the right signature moves on. |
| Unmarshaling.Message.UnmarshalContainer | components/alljoyn/core/ajtcl/src/aj_msg.c:1415-1434 | A container of the wanted kind becomes the innermost one and is read element by element; with any other status the innermost container stays the same. |
| Unmarshaling.Message.UnmarshalCloseContainer | components/alljoyn/core/ajtcl/src/aj_msg.c:1436-1467 | An array closes if and only if exactly its length has been consumed; a struct if and only if its closing bracket is next. |
| Decoding.ScalarParsed | components/alljoyn/core/ajtcl/src/aj_msg.c:672-690 | The reference parser finds a scalar where its encoding stands. |
| Decoding.StrParsed | components/alljoyn/core/ajtcl/src/aj_msg.c:691-730 | The reference parser finds a string where its encoding stands. |
| Decoding.VariantParsed | components/alljoyn/core/ajtcl/src/aj_msg.c:691-730 | The reference parser finds a variant's signature where its encoding stands, and its value behind it. |
| Decoding.ArrayParsed | components/alljoyn/core/ajtcl/src/aj_msg.c:605-652 | The reference parser finds an array where its encoding stands, in one piece or as a container whose length is that of its elements. |
| Decoding.StructParsed | components/alljoyn/core/ajtcl/src/aj_msg.c:577-603 | The reference parser finds a struct where its encoding stands, its fields behind the padding. |
| UnmarshalClient.Get | components/alljoyn/core/ajtcl/src/aj_msg.c:1187-1231 | Any well-formed value that stands in the stream is unmarshaled to exactly that value, consuming exactly its octets, unless the link fails. |
| UnmarshalClient.GetFields | components/alljoyn/core/ajtcl/src/aj_msg.c:1187-1231 | All arguments up to the end of the signature are returned, with exactly their octets consumed. |
| UnmarshalClient.GetElems | components/alljoyn/core/ajtcl/src/aj_msg.c:1187-1231 | The elements of an array are returned until the end is reported, which is exactly behind the last one. |
| UnmarshalClient.GetArray | components/alljoyn/core/ajtcl/src/aj_msg.c:1415-1467 | An array read as a container gives its elements back and closes. |
| UnmarshalClient.GetFlat | components/alljoyn/core/ajtcl/src/aj_msg.c:605-652 | An array of scalars returned in one piece has exactly the octets of its elements. |
| UnmarshalClient.GetStruct | components/alljoyn/core/ajtcl/src/aj_msg.c:1415-1467 | A struct or dictionary entry read as a container gives its fields back and closes. |
| UnmarshalClient.GetVariant | components/alljoyn/core/ajtcl/src/aj_msg.c:1469-1484 | A variant gives back its value, read against the signature found in the buffer. |
| Session.RoundTrip | components/alljoyn/core/ajtcl/src/aj_msg.c:1187-1231 | Marshaling any list of well-formed values and unmarshaling what was written, however it arrives, gives the same values; exactly the octets written are consumed, nothing is left of the body or of the signature, and what follows is untouched. |
| Skipping.SkipArg | components/alljoyn/core/ajtcl/src/aj_msg.c:1105-1160 | Skipping an argument ends where unmarshaling it in full would have ended, with the same signature position, body count and container stack, if and only if no variant sits directly inside a variant in it. |
| Skipping.SkipRest | components/alljoyn/core/ajtcl/src/aj_msg.c:1125-1160 | The contents of a container are skipped to its end under the same condition. |
| Skipping.SkipFields | components/alljoyn/core/ajtcl/src/aj_msg.c:1130-1150 | The fields of a struct are skipped one by one up to its closing bracket under the same condition. |
| Skipping.WrappedTwice | components/alljoyn/core/ajtcl/src/aj_msg.c:1105-1125 | An octet in a variant in a variant is well formed and is not skipped. |
| Session.ResetArgs | components/alljoyn/core/ajtcl/src/aj_msg.c:788-828 | From any argument boundary of a message with arguments, resetting succeeds if and only if the arguments still to come can be skipped and no octets of a MAC are counted behind them, and then the message is as it was before its first argument. |
| Session.TakeArgs | components/alljoyn/core/ajtcl/src/aj_msg.c:1187-1231 | After the first k arguments the message stands exactly at the next one. |
| Framing.CloseMsg | components/alljoyn/core/ajtcl/src/aj_msg.c:502-533 | Closing consumes exactly what is left of the body, unless the link fails, and closing twice changes nothing. |
| Framing.Discard | components/alljoyn/core/ajtcl/src/aj_msg.c:511-526 | Each turn discards at least one octet of the body and no octet behind it. |
| Framing.ReadField | components/alljoyn/core/ajtcl/src/aj_msg.c:953-1039 | One header field with a string or number for its value is read, whatever its id: it is set if it has its id's type, and otherwise ends the reading, unless the link fails; the token of a compressed header sets a bad status and does not end it. Anything else leaves stream and buffer intact. |
| Framing.ReadFields | components/alljoyn/core/ajtcl/src/aj_msg.c:944-1040 | If fields of strings and numbers stand between the two offsets, the status is a bad one if and only if one of them has not its id's type or the last is a compression token; with a good one exactly they are what the message says, and reading ends where they end. In any case no octet of the stream is lost. |
| Framing.LeaveHeader | components/alljoyn/core/ajtcl/src/aj_msg.c:1046-1103 | Behind the header the message is ready, its flags turned back, or discarded whole; the status is the header's if that failed, else the identification's. |
| Framing.ReceiveAndClose | components/alljoyn/core/ajtcl/src/aj_msg.c:502-533 | A message that is all there and is closed leaves the stream at the next message if and only if its body is below 2^16 octets. |
| Framing.NextMessage | components/alljoyn/core/ajtcl/src/aj_msg.c:906-911 | The size the receiver takes a message to have is its size if and only if the body is below 2^16 octets. |
| Framing.LongBody | components/alljoyn/core/ajtcl/src/aj_msg.c:906-911 | A body of 2^16 octets behind a header without fields is taken to be empty. |
| Framing.FieldsBack | components/alljoyn/core/ajtcl/src/aj_msg.c:976-1039 | What the fields written for a description say when they are read is that description: path or reply serial, member or error, interface, sender, destination, session id, signature. |
| Framing.DescribedSays | components/alljoyn/core/ajtcl/src/aj_msg.c:976-1039 | What is received of a description says it field by field: for calls and signals the path, for replies the serial number, for errors the error name, for all others the name the member starts with; nothing else says that, and the fields a description must have are those a message of types 1 to 4 must have. |
| Framing.Validated | components/alljoyn/core/ajtcl/src/aj_msg.c:727-768 | What a message must have: a sender and a path or reply serial, and for a call destination, interface and member, for a return destination, for an error destination and error name, for a signal interface and member; an error without its fields is a rejection. |
| Framing.GoodVerdict | components/alljoyn/core/ajtcl/src/aj_msg.c:977-1046 | Fields of their ids' types without a compression token leave only the question whether all required ones are there. |
| Framing.TokenLast | components/alljoyn/core/ajtcl/src/aj_msg.c:1027-1046 | A header with a compression token, all types right, is refused for the token if and only if the token comes last. |
| Framing.TokenFirst | components/alljoyn/core/ajtcl/src/aj_msg.c:1027-1046 | A signal with a compression token in front of its fields is accepted. |
| Headers.MemberField | components/alljoyn/core/ajtcl/src/aj_msg.c:1667-1672 | The member that is sent is the name the member string starts with: up to its first space, or all of it if it has none or starts with one; errors send none. |
| Headers.NameSent | components/alljoyn/core/ajtcl/src/aj_msg.c:1667-1672 | That name is the one value sent: no other prefix of the member meets the description. |
| Headers.HeaderLayout | components/alljoyn/core/ajtcl/src/aj_msg.c:1602-1755 | The octets of a header: 'l', the type, the flags with bit 1 turned round, 0, body length, serial number and length of the fields as 32-bit numbers, the fields from octet 16 on, and zeros up to the next multiple of 8. |
| Headers.FieldTypes | components/alljoyn/core/ajtcl/src/aj_msg.c:69-90 | The type each header field must have, by its id: a path, strings, a signature, numbers of 16 and 32 bits; no field has the id 0, and unknown ids may have any type. |
| Headers.FieldEnc | components/alljoyn/core/ajtcl/src/aj_msg.c:1732-1743 | The hand-made form of a header field is the encoding of a struct of an octet and a variant, as the D-Bus Specification has it. |
| Headers.WriteField | components/alljoyn/core/ajtcl/src/aj_msg.c:1732-1743 | A field is appended in that form whenever it fits. |
| Headers.WriteFields | components/alljoyn/core/ajtcl/src/aj_msg.c:1641-1744 | The fields a message of its type has are written in the order of their ids whenever they fit. |
| Headers.MarshalMsg | components/alljoyn/core/ajtcl/src/aj_msg.c:1602-1755 | Whenever the header fits the buffer, the buffer holds exactly the fixed header, with its length, the fields and the padding, and the body count starts at 0. |
| Transport.HeaderRead | components/alljoyn/core/ajtcl/src/aj_msg.c:880-951 | The octets of a whole message, followed by anything, are framed as that message: header values, fields and body are where the receiver looks for them. |
| Transport.Send | components/alljoyn/core/ajtcl/src/aj_msg.c:357-402 | Without encryption, nothing is sent before delivery, and delivery sends exactly the message: header with the body's length, fields, padding, arguments. |
| Transport.ReceiveHeader | components/alljoyn/core/ajtcl/src/aj_msg.c:830-1103 | A message that was put on the link is ready with the header values, the fields and the signature it was described by, its body next. |
| Transport.SendReceive | components/alljoyn/core/ajtcl/src/aj_msg.c:830-1103 | End to end: for every description with the fields its type must have and every argument list that fits, and every way the link splits the octets, the receiver gets the same type, flags, serial number, fields, member name, signature and arguments, and after closing the stream stands at what follows. |
| Framing.UnmarshalMsg | components/alljoyn/core/ajtcl/src/aj_msg.c:830-1103 | For every stream that starts with a message in the host's byte order and without encryption, the message is either ready with the read position at its body, or has been discarded, with as much of its body as the 16-bit count holds. It is accepted only with the fields its type must have; if its fields are strings and numbers and the link holds, the status is exactly what the fields' types, the fields that are missing and then identification say. |
| Session.TakeAndClose | components/alljoyn/core/ajtcl/src/aj_msg.c:502-533 | However many arguments have been taken, closing leaves the stream exactly where the next message starts, the octets of a MAC included. |
| RawBody.WriteChunks | components/alljoyn/core/ajtcl/src/aj_msg.c:1981-1996 | Raw pieces are accepted as long as they do not exceed the announcement; what is sent and buffered grows by exactly the pieces. |
| RawBody.SendRawBody | components/alljoyn/core/ajtcl/src/aj_msg.c:1921-1996 | A raw body is delivered if and only if the message is not to be encrypted, something is announced that has an argument and room for its padding, and as many octets are written as the 16-bit count holds; what was sent is the header with the announcement in it and then the pieces, which is a whole message if and only if the announcement was below 2^16. An encrypted message is refused with nothing sent. |
| RawBody.EncryptedBody | components/alljoyn/core/ajtcl/src/aj_msg.c:1936-1939 | A message that is to be encrypted, with a body of one octet, is refused and nothing is sent. |
| RawBody.OneOctetForMany | components/alljoyn/core/ajtcl/src/aj_msg.c:1957-1996 | A body of one octet, announced as 65537, is delivered without an error, as a header that counts 65536 octets more than follow it. |
| SecureMsg.EncryptMessage | components/alljoyn/core/ajtcl/src/aj_msg.c:319-355 | Encrypting needs room for eight octets of MAC and a key; the header then counts the MAC, and the buffer holds the message sealed under the nonce of the role and the serial number. |
| SecureMsg.DecryptMessage | components/alljoyn/core/ajtcl/src/aj_msg.c:285-317 | Decrypting uses the nonce of the other role for a session key and of the same one for the group's, with the serial number; it accepts exactly what the CCM opening accepts. |
| SecureMsg.NonceIs | components/alljoyn/core/ajtcl/src/aj_msg.c:275-283 | The nonce is the role and the four octets of the serial number, most significant first, and the only such five octets. |
| SecureMsg.NoncesDiffer | components/alljoyn/core/ajtcl/src/aj_msg.c:275-283 | Messages of different roles or serial numbers have different nonces. |
| SecureMsg.SealedMessageIsRfc | components/alljoyn/core/ajtcl/src/aj_msg.c:319-355 | Within stated bounds the sealed message is CCM of RFC 3610 with AES-128, the nonce filled up with zeros, the header that counts the MAC, and a tag of eight octets. |
| SecureMsg.Exchange | components/alljoyn/core/ajtcl/src/aj_msg.c:275-355 | A message encrypted by one peer and decrypted by the other, with opposite roles or the group key, is accepted and comes out as it was but for a body length that counts the MAC. |
| SecureBuffers.Seal | components/alljoyn/core/ajtcl/src/aj_msg.c:319-355 | Encrypting the transmit buffer needs room for the MAC and a key; the buffer then holds the sealed message. |
| SecureBuffers.Unseal | components/alljoyn/core/ajtcl/src/aj_msg.c:285-317 | Decrypting the receive buffer accepts exactly what opening accepts, puts the opened octets in place and touches nothing behind the message. |
| SecureBuffers.OpenedBack | components/alljoyn/core/ajtcl/src/aj_msg.c:285-355 | Opening a sealed message in the same role gives the message with the MAC counted in its body length. |
| SecureTransport.DeliverEncrypted | components/alljoyn/core/ajtcl/src/aj_msg.c:357-402 | Delivery of an encrypted message sends exactly its sealed octets, or nothing if there is no key or no room for the MAC. |
| SecureTransport.UnmarshalEncrypted | components/alljoyn/core/ajtcl/src/aj_msg.c:830-1103 | For every stream that starts with an encrypted message, the message is either ready, opened in the buffer with the read position at its body and with the fields its type must have, or has been discarded whole; missing fields give ErrRejected or ErrUnmarshal, and otherwise it is refused only if it does not fit or opening does not accept it. |
| SecureTransport.WireRead | components/alljoyn/core/ajtcl/src/aj_msg.c:319-402 | The octets of an encrypted message on the link, followed by anything, are framed by their clear header, and opened hold the arguments where they were marshaled. |
| SecureTransport.ReceiveOpened | components/alljoyn/core/ajtcl/src/aj_msg.c:1046-1103 | A received encrypted message stands at its arguments, the eight octets of the MAC behind them and counted in the body. |
| SecureTransport.SendReceiveEncrypted | components/alljoyn/core/ajtcl/src/aj_msg.c:275-402 | End to end with encryption: with one key and opposite roles, or the group's key, the receiver gets the same header values, fields and arguments for every message that fits with its MAC, and after closing the stream stands at what follows. |
| SecureTransport.ResetOpened | components/alljoyn/core/ajtcl/src/aj_msg.c:788-828 | Resetting an encrypted message fails unless it has no arguments, because the MAC is still counted when they are used up. |
| NvramLayout.EntryAt | components/alljoyn/core/ajtcl/src/aj_nvram.c:42-57 | Every entry of the chain is 4-aligned, inside the memory, and has its header and data where the chain says. |
| NvramLayout.TailAt | components/alljoyn/core/ajtcl/src/aj_nvram.c:90-111 | Behind the last entry there is nothing but erased octets, which no entry's header can be mistaken for. |
| NvramLayout.Look | components/alljoyn/core/ajtcl/src/aj_nvram.c:42-57 | A walk from octet 4 on, over headers of a 16-bit id and a 16-bit capacity, meets every entry and then, unless the memory is full, the id 0xFFFF. |
| NvramLayout.ContentsIff | components/alljoyn/core/ajtcl/src/aj_nvram.c:320-329 | The map of data sets has exactly the live entries, each with its data. |
| NvramLayout.CompactedKeeps | components/alljoyn/core/ajtcl/target/linux/aj_target_nvram.c:99-125 | Compaction keeps every data set, its id, its data and the order. |
| NvramStore.CreateKeepsChain | components/alljoyn/core/ajtcl/src/aj_nvram.c:115-142 | A header written at the front of the tail makes a well-formed chain with one more entry, for every id but 0xFFFF. |
| NvramStore.ReplaceKeepsChain | components/alljoyn/core/ajtcl/src/aj_nvram.c:144-162 | Overwriting an entry by one of its size leaves all others alone. |
| NvramStore.Store.constructor | components/alljoyn/core/ajtcl/target/linux/aj_target_nvram.c:64-69 | A cleared memory is a sentinel, an empty chain and an erased tail. |
| NvramStore.Store.FindNVEntry | components/alljoyn/core/ajtcl/src/aj_nvram.c:90-111 | The search finds the entry of an id if and only if there is one; for 0xFFFF it finds the front of the erased tail if there is one. |
| NvramStore.Store.Exist | components/alljoyn/core/ajtcl/src/aj_nvram.c:320-329 | An id exists if and only if the map has it; 0xFFFF if and only if there is an erased tail. |
| NvramStore.Store.GetSize | components/alljoyn/core/ajtcl/src/aj_nvram.c:42-57 | The size is 4 plus header and capacity of every live entry. |
| NvramStore.Store.GetSizeRemaining | components/alljoyn/core/ajtcl/src/aj_nvram.c:58-61 | What remains is the memory less that. |
| NvramStore.Store.Compact | components/alljoyn/core/ajtcl/target/linux/aj_target_nvram.c:99-125 | Compaction in place leaves a well-formed chain of exactly the live entries and the same map. |
| NvramStore.Store.Create | components/alljoyn/core/ajtcl/src/aj_nvram.c:115-142 | For every id, creating succeeds if and only if the capacity is not 0, the id is free and there is room once tombstones are gone; only that id changes. A chain of entries remains unless 0xFFFF was created, which is free only when there is no tail. |
| NvramStore.Store.Delete | components/alljoyn/core/ajtcl/src/aj_nvram.c:144-162 | For every id, deleting succeeds if and only if the id is there; only that id goes, and its header and capacity are given back. A chain of entries remains if and only if the id is not 0xFFFF or there is no erased tail, in which case nothing is found and nothing changes. |
| NvramStore.Store.Open | components/alljoyn/core/ajtcl/src/aj_nvram.c:164-232 | Opening to read succeeds if and only if the id exists, 0xFFFF opening the erased tail; opening to write replaces the data set if and only if there is room in its place, and otherwise it is gone. |
| NvramStore.Store.Write | components/alljoyn/core/ajtcl/src/aj_nvram.c:234-277 | A write appends as much as is left, exactly at the position, with only the rest of the word it ends in undefined and only if it did not start on a word; nothing outside the entry changes. With 32768 octets or more left, nothing is written and the result is negative. |
| NvramStore.Store.Patch | components/alljoyn/core/ajtcl/src/aj_nvram.c:257-270 | The unaligned patch keeps what is in front of the position in its word. |
| NvramStore.Store.Read | components/alljoyn/core/ajtcl/src/aj_nvram.c:279-304 | A read returns the data set from the position on, as much as there is. |
| NvramStore.WrittenThen | components/alljoyn/core/ajtcl/src/aj_nvram.c:255-276 | Two writes in a row, the second on a word, are one write of both. |
| NvramStore.TailDeleted | components/alljoyn/core/ajtcl/src/aj_nvram.c:144-162 | Clearing the id at the front of an erased tail leaves a tombstone of 65535 octets, and no chain of entries is in that memory. |
| NvramStore.TailNamed | components/alljoyn/core/ajtcl/src/aj_nvram.c:115-142 | A header with id 0xFFFF at the front of the tail leaves no chain of entries. |
| NvramStore.LongDataSet | components/alljoyn/core/ajtcl/src/aj_nvram.c:234-277 | In a fresh store with a data set of 32768 octets, a first write returns -32768 and writes nothing. |
| NvramChunks.WriteAll | components/alljoyn/core/ajtcl/src/aj_nvram.c:234-277 | Any sequence of writes that fits leaves the concatenation at the front of the data set. |
| NvramChunks.ReadAll | components/alljoyn/core/ajtcl/src/aj_nvram.c:279-304 | Any sequence of reads that does not run off the end returns the front of the data set. |
| NvramChunks.WriteThenRead | components/alljoyn/core/ajtcl/src/aj_nvram.c:164-304 | What is written in some pieces is read back in any other pieces, and no other data set changes; opening succeeds if and only if there is room. |
| CredLayout.ParseSer | components/alljoyn/core/ajtcl/src/aj_creds.c:244-252 | A credential written field by field is read back field by field, whatever follows it in the data set. |
| CredLayout.SlotIs | components/alljoyn/core/ajtcl/src/aj_creds.c:134-229 | With no key in two slots, the first slot of a key is its only one. |
| CredLayout.StoreLookup | components/alljoyn/core/ajtcl/src/aj_creds.c:433-464 | Writing a credential into a slot changes the look-up of its own key and of the keys that were evicted, and of no other; no key gets into two slots. |
| CredLayout.DeletedKey | components/alljoyn/core/ajtcl/src/aj_creds.c:487-499 | Deleting the slot of a key takes that key away and no other. |
| CredLayout.EvictableLess | components/alljoyn/core/ajtcl/src/aj_creds.c:424-427 | Evicting one credential makes what is left to evict smaller by exactly its footprint. |
| CredStore.ReadRemainder | components/alljoyn/core/ajtcl/src/aj_creds.c:78-132 | The fields behind the id are read if and only if all of them are there. |
| CredStore.FindCredential | components/alljoyn/core/ajtcl/src/aj_creds.c:134-229 | The first slot with the type and id is found, and in a full query its credential if it is whole. |
| CredStore.GetCredential | components/alljoyn/core/ajtcl/src/aj_creds.c:231-242 | Exactly what is stored under the key is returned, or a failure if nothing is. |
| CredStore.DeleteCredential | components/alljoyn/core/ajtcl/src/aj_creds.c:487-499 | The key goes if it was there; every other key keeps its credential. |
| CredStore.WriteCred | components/alljoyn/core/ajtcl/src/aj_creds.c:274-332 | Eight writes one after the other leave the serialised credential, if and only if it fits and is short enough for a signed length; if it is not, a long data set stays erased, and a short one has the credential's key if type and id fit and no key otherwise. |
| CredStore.UpdateCred | components/alljoyn/core/ajtcl/src/aj_creds.c:254-341 | Succeeds if and only if the serialised credential has at most 32764 octets and there is room in place of what the slot holds; no other data set changes, and what a failure leaves in the slot is stated for every size. |
| CredStore.DeleteOldest | components/alljoyn/core/ajtcl/src/aj_creds.c:348-431 | If some slot of 2 to 41 breaks off, nothing is deleted and an error is returned; otherwise exactly one credential of type 1 with the least expiration goes (the last such slot), and its footprint is gained; with none, nothing changes and success is returned. |
| CredStore.FindEmptySlot | components/alljoyn/core/ajtcl/src/aj_creds.c:63-76 | The first free slot, or 0 if and only if all are taken. |
| CredStore.Evict | components/alljoyn/core/ajtcl/src/aj_creds.c:449-453 | The loop evicts the oldest first and no more than it must; it never ends if and only if it starts, no slot is broken and there is no generic credential or all of them together are not enough. |
| CredStore.EvictedRoom | components/alljoyn/core/ajtcl/src/aj_creds.c:447-450 | The strict test on word-aligned sizes leaves room for the header as well. |
| CredStore.StoreCredential | components/alljoyn/core/ajtcl/src/aj_creds.c:433-464 | Succeeds exactly under a condition on the state before; then the key's look-up is the new credential, every surviving other key is unchanged and data sets that are not credentials are untouched. Whatever the outcome, no key is in two slots afterwards, unless the store wiped its slot and another slot has the key that erased octets read as; a wiped slot stops every later eviction. |
| CredStore.FailedStore | components/alljoyn/core/ajtcl/src/aj_creds.c:433-464 | What a store leaves of the uniqueness of keys, for every way it can end. |
| CredStore.WipedExample | components/alljoyn/core/ajtcl/src/aj_creds.c:433-464 | In a new store of 65532 octets, storing a credential of 32779 octets fails and leaves a slot that reads as a broken credential. |
| CredStore.StoreThenGet | components/alljoyn/core/ajtcl/src/aj_creds.c:231-242 | After a successful store of a credential with a non-empty id, getting it returns every field unchanged; with an empty id it is never found. |
| CredStore.NeverEndsExample | components/alljoyn/core/ajtcl/src/aj_creds.c:449-453 | In a new store of 96 octets, storing a credential of 100 octets never ends. |
| AesTables.SBoxMeaning | components/alljoyn/core/ajtcl/crypto/aj_sw_crypto.c:47-65 | Every S-box entry is the affine image of the multiplicative inverse, as section 5.1.1 of FIPS 197 defines it. |
| AesTables.FTableMeaning | components/alljoyn/core/ajtcl/crypto/aj_sw_crypto.c:67-100 | Every round table entry is the column (2, 1, 1, 3) of MixColumns times the S-box entry. |
| Aes.RoundColumnIs | components/alljoyn/core/ajtcl/crypto/aj_sw_crypto.c:108-109 | Four table look-ups, rotated and added, are MixColumn of the four substituted octets. |
| Aes.LastRoundColumnIs | components/alljoyn/core/ajtcl/crypto/aj_sw_crypto.c:120-121 | The last round's column is the four substituted octets. |
| AesEngine.RoundQuadIs | components/alljoyn/core/ajtcl/crypto/aj_sw_crypto.c:111-118 | A round by tables is MixColumns after ShiftRows after SubBytes of section 5.1 of FIPS 197. |
| AesEngine.RconstIs | components/alljoyn/core/ajtcl/crypto/aj_sw_crypto.c:102-105 | The constants are the powers of x in GF(2^8). |
| AesEngine.ScheduleStep | components/alljoyn/core/ajtcl/crypto/aj_sw_crypto.c:200-205 | The four assignments of a turn are the recurrence of section 5.2 of FIPS 197. |
| AesEngine.Engine.Enable | components/alljoyn/core/ajtcl/crypto/aj_sw_crypto.c:194-206 | All 48 words written are the key expansion of section 5.2 of FIPS 197, of which the cipher needs 44; no word outside the schedule is touched. |
| AesEngine.Engine.EncryptRounds | components/alljoyn/core/ajtcl/crypto/aj_sw_crypto.c:168-192 | On the whitened state the ten rounds are the cipher of section 5.1 of FIPS 197. |
| AesEngine.Engine.EncryptQuad | components/alljoyn/core/ajtcl/crypto/aj_sw_crypto.c:222-228 | Whitening and rounds over four words are AES-128 on sixteen octets. |
| CcmCode.Ctr | components/alljoyn/core/ajtcl/crypto/aj_sw_crypto.c:213-251 | Counter mode in place: exactly the given range is added to the key stream, and the counter block is advanced by the blocks used. |
| CcmCode.CbcEncrypt | components/alljoyn/core/ajtcl/crypto/aj_sw_crypto.c:253-274 | CBC mode of whole blocks; the last cipher block is left as the next vector. |
| AesInverse.SBoxBack | components/alljoyn/core/ajtcl/crypto/aj_sw_crypto.c:47-65 | The inverse S-box of section 5.3.2 of FIPS 197 undoes every S-box entry. |
| AesInverse.MixColumnBack | components/alljoyn/core/ajtcl/crypto/aj_sw_crypto.c:111-118 | Mixing a column four times gives the column back. |
| AesInverse.CipherBack | components/alljoyn/core/ajtcl/crypto/aj_sw_crypto.c:168-192 | The inverse cipher undoes the cipher for every key and every block. |
| AesInverse.CipherInjective | components/alljoyn/core/ajtcl/crypto/aj_sw_crypto.c:168-192 | Under a key, different blocks have different cipher text. |
| CcmCode.EcbEncrypt | components/alljoyn/core/ajtcl/crypto/aj_sw_crypto.c:276-284 | The single-block function leaves the first round key out: its result is AES-128 of the input added to the key, and AES-128 of the input if and only if the key is sixteen zero octets. |
| CcmCode.EcbMeets | components/alljoyn/core/ajtcl/crypto/aj_sw_crypto.c:276-284 | For every key and input, AES-128 of the input added to the key is AES-128 of the input if and only if the key is zero. |
| CcmCode.EcbDiffers | components/alljoyn/core/ajtcl/crypto/aj_sw_crypto.c:276-284 | At the key and plain text of appendix B of FIPS 197 the two differ. |
| CcmCode.Context.constructor | components/alljoyn/core/ajtcl/src/aj_crypto.c:144-173 | The first counter block and B_0 are set up from nonce and lengths. |
| CcmCode.Context.CbcMac | components/alljoyn/core/ajtcl/src/aj_crypto.c:74-88 | The MAC is continued over the octets in blocks, the last one padded with zeros. |
| CcmCode.Context.AuthTag | components/alljoyn/core/ajtcl/src/aj_crypto.c:93-142 | The authentication block is the CBC-MAC of B_0, the length-prefixed header and the body. |
| CcmCode.HeaderBlocksAre | components/alljoyn/core/ajtcl/src/aj_crypto.c:108-134 | The length block with up to fourteen header octets and the rest of the header are the blocks of the length-prefixed header. |
| CcmCode.EncryptCcm | components/alljoyn/core/ajtcl/src/aj_crypto.c:178-221 | The buffer holds the header as it was, the encrypted body and the encrypted tag; nothing behind them changes. |
| CcmCode.DecryptCcm | components/alljoyn/core/ajtcl/src/aj_crypto.c:226-276 | The plain text if the tag matches; otherwise an error and nothing but zeros. |
| CcmCode.EncryptThenDecrypt | components/alljoyn/core/ajtcl/src/aj_crypto.c:178-276 | Decrypting what was encrypted in the same buffer succeeds, and restores header and body; nothing behind the tag changes. |
| Ccm.OpenedSealed | components/alljoyn/core/ajtcl/src/aj_crypto.c:178-276 | Opening undoes sealing for every block function, nonce, header, body and tag length up to 16, and accepts. |
| Ccm.OpenedOnlySealed | components/alljoyn/core/ajtcl/src/aj_crypto.c:259-270 | A message is accepted if and only if it is what sealing some body of that length under the same nonce and header gives. |
| Ccm.CounterNext | components/alljoyn/core/ajtcl/crypto/aj_sw_crypto.c:237-244 | The counter's increment yields the next counter block if and only if the last octet does not overflow or the counter is 255. |
| Ccm.CounterWraps | components/alljoyn/core/ajtcl/crypto/aj_sw_crypto.c:237-244 | After 511 the counter is 256 again. |
| Ccm.StreamIs | components/alljoyn/core/ajtcl/crypto/aj_sw_crypto.c:213-251 | As long as the counter stays within 511, the key stream is S_i, S_i+1, ... of section 2.3 of RFC 3610. |
| Ccm.CbcIsRfcX | components/alljoyn/core/ajtcl/src/aj_crypto.c:74-88 | CBC with a zero vector is the recurrence X_1 = E(B_0), X_i+1 = E(X_i xor B_i) of section 2.2 of RFC 3610. |
| Ccm.FirstBlockIs | components/alljoyn/core/ajtcl/src/aj_crypto.c:149-171 | B_0 is flags, nonce padded to 11 octets and big-endian length, as section 2.2 of RFC 3610 has it for L = 4. |
| Ccm.BlocksAre | components/alljoyn/core/ajtcl/src/aj_crypto.c:74-147 | Octets are cut into as few blocks of sixteen as hold them, in order, with zeros behind the last. |
| Ccm.HeaderOctetsAre | components/alljoyn/core/ajtcl/src/aj_crypto.c:106-147 | What is authenticated of a header is its length in two octets, the higher one first, and the header; nothing for none. |
| Ccm.IvecIs | components/alljoyn/core/ajtcl/src/aj_crypto.c:160-161 | The first counter block is A_0 of section 2.3 of RFC 3610 for L = 4. |
| Ccm.SealedIsRfc | components/alljoyn/core/ajtcl/src/aj_crypto.c:178-221 | For nonces of at most 11 octets, the standard's tag lengths, headers below 0xFF00 octets and at most 511 blocks, sealing is CCM of RFC 3610 over any block function. |
| Crc16.TableStepIs | components/alljoyn/core/ajtcl/src/aj_crc16.c:50 | One turn of the table loop is eight shifts of the bitwise division. |
| Crc16.TableIsBits | components/alljoyn/core/ajtcl/src/aj_crc16.c:43-53 | For every buffer and start value the table loop is the bit-by-bit division of Appendix C of RFC 1662. |
| Crc16.Compute | components/alljoyn/core/ajtcl/src/aj_crc16.c:43-53 | The loop returns the bit-by-bit remainder. |
| Crc16.FoldDiffer | components/alljoyn/core/ajtcl/src/aj_crc16.c:43-53 | How two remainders differ depends only on how the messages differ. |
| Crc16.BitBurst | components/alljoyn/core/ajtcl/src/aj_crc16.c:43-53 | Messages that differ only within sixteen consecutive bits have different remainders, from every start value. |
| Crc16.TwoOctets | components/alljoyn/core/ajtcl/src/aj_crc16.c:43-53 | Buffers of one length that differ, but only within two adjacent octets, have different running CRCs. |
| Crc16.SeventeenBitsVanish | components/alljoyn/core/ajtcl/src/aj_crc16.c:43-53 | Sixteen is the limit: a burst of seventeen bits exists that changes nothing. |
| Crc16.Complete | components/alljoyn/core/ajtcl/src/aj_crc16.c:56-62 | The check octets are the CRC's octets with their bits reversed, low octet first, and the CRC can be read back from them. |
| PoolLayout.PoolRequired | components/alljoyn/core/ajtcl/malloc/aj_malloc.c:61-72 | The required size is sixteen octets of record for each pool and the room of all blocks, which is the end of the last block. |
| PoolLayout.BlockIn | components/alljoyn/core/ajtcl/malloc/aj_malloc.c:96-116 | Every block lies inside its pool, is word-aligned and is not the null pointer. |
| PoolLayout.Disjoint | components/alljoyn/core/ajtcl/malloc/aj_malloc.c:96-116 | Different blocks do not overlap, and no block is in two pools. |
| PoolLayout.BlockListIs | components/alljoyn/core/ajtcl/malloc/aj_malloc.c:99-112 | The list initialisation builds has each block of the pool exactly once. |
| Pool.Serve | components/alljoyn/core/ajtcl/malloc/aj_malloc.c:140-164 | The pool that serves a request is the first that is large enough, passing over empty pools that may borrow. |
| Pool.Heap.Init | components/alljoyn/core/ajtcl/malloc/aj_malloc.c:79-124 | For every heap size, initialising succeeds if and only if the blocks of all pools fit, the records not counted; then every block of every pool is free, linked and accounted for, and nothing behind the pools is touched. |
| PoolLayout.AllFit | components/alljoyn/core/ajtcl/malloc/aj_malloc.c:61-124 | Records and blocks all lie in the heap if and only if it has the size AJ_PoolRequired gives. |
| PoolLayout.RecordsNotCounted | components/alljoyn/core/ajtcl/malloc/aj_malloc.c:79-124 | A pool of one block of eight octets: a heap of eight octets passes the test, and the block starts behind it. |
| Pool.Heap.Alloc | components/alljoyn/core/ajtcl/malloc/aj_malloc.c:131-168 | Returns the first free block of the serving pool, which was free, is large enough and is not live, or null if and only if no pool serves; the pools stay well formed. |
| Pool.Heap.Free | components/alljoyn/core/ajtcl/malloc/aj_malloc.c:170-194 | A live block goes back in front of the list of the pool it came from; only its first word of memory changes. |
| Pool.Heap.WriteLive | components/alljoyn/core/ajtcl/malloc/aj_malloc.c:51-54 | A write by a block's owner disturbs no pool. |
| Pool.Heap.Realloc | components/alljoyn/core/ajtcl/malloc/aj_malloc.c:196-239 | The block returned starts with what the old one held, as far as the old class size and the new size both reach; on failure the old block stays; only the two blocks' memory changes. |
| Pool.NoOverlap | components/alljoyn/core/ajtcl/malloc/aj_malloc.c:79-239 | In every state that meets the invariant, live blocks overlap neither each other nor free blocks and lie inside the heap. |
| Signatures.ComposeSignature | components/alljoyn/core/ajtcl/src/aj_introspect.c:793-814 | The signature is composed if and only if it fits the buffer with its terminator. |
| Signatures.CheckSignature | components/alljoyn/core/ajtcl/src/aj_introspect.c:755-788 | A signature without a leading '*' and without spaces is accepted if and only if it equals the composed one; a leading '*' is accepted. |
| Signatures.ComposedNotation | components/alljoyn/core/ajtcl/src/aj_introspect.c:793-814 | From a member's notation come exactly the types of the arguments in the direction asked for, in order. |
| Identify.EntryMeans | components/alljoyn/core/ajtcl/src/aj_introspect.c:86-107 | From an entry of '?' or '!', an optional '&', a name and arguments come the kind, the name, and the types of the '<' arguments of a method and of the '>' arguments of a signal, in order. |
| Identify.MatchesMeans | components/alljoyn/core/ajtcl/src/aj_introspect.c:842-861 | A message is for such an entry if and only if it is of its kind and has its name. |
| Identify.HitMeans | components/alljoyn/core/ajtcl/src/aj_introspect.c:905-945 | An object takes a message only if it is enabled, has the message's path or that of all calls or signals, and has the member in an interface of the name, marked '$' or '#' or not; it passes one on only if its first interface of that name has no such member. |
| Identify.MatchMember | components/alljoyn/core/ajtcl/src/aj_introspect.c:842-861 | A member matches if and only if it is of the message's kind and its name is the message's. |
| Identify.FindInterface | components/alljoyn/core/ajtcl/src/aj_introspect.c:863-886 | The first interface of that name, its security mark not counted. |
| Identify.LookupMessageId | components/alljoyn/core/ajtcl/src/aj_introspect.c:905-945 | The first enabled object that takes the message gives the id, which stands for a member of the message's kind, interface and name; a signature without '*' and spaces is accepted if and only if it is the types of the '<' arguments for a call and of the '>' arguments for a signal; with no such object, no match is reported. |
| Identify.UnpackMsgId | components/alljoyn/core/ajtcl/src/aj_introspect.c:967-1023 | An id is unpacked if and only if each index is in its table and the object is enabled. |
| Identify.UnpackPack | components/alljoyn/core/ajtcl/src/aj_introspect.c:967-1023 | Unpacking undoes packing for every member there is. |
| Identify.InitMessage | components/alljoyn/core/ajtcl/src/aj_introspect.c:1070-1142 | A call or signal is made from an id with the path, interface and name of the member it stands for, and the types of its '<' arguments for a call and of its '>' arguments for a signal, or fails for exactly the stated reasons: a path that is none, or 32 octets of signature. |
| Identify.InitThenLookup | components/alljoyn/core/ajtcl/src/aj_introspect.c:905-1142 | In tables with distinct enabled paths, interfaces and members, a call or signal made from an id is looked up to that id whenever its signature fits its buffer; the signature is accepted unless the entry is a method entry that starts with the direction character and has a name. |
| Identify.OwnSignatureIs | components/alljoyn/core/ajtcl/src/aj_introspect.c:761-814 | Composing a member's signature from its name on gives what composing from the whole entry gives, if and only if the entry does not start with the direction character or has no name. |
| Identify.DirectionFirst | components/alljoyn/core/ajtcl/src/aj_introspect.c:761-814 | A method entry without arguments that starts with the direction character is misread. |
| Introspect.ChildrenAre | components/alljoyn/core/ajtcl/src/aj_introspect.c:516-541 | Every child of a node is listed once, in the order of the objects: the first object shown with its name. |
| Introspect.ChildNameIs | components/alljoyn/core/ajtcl/src/aj_introspect.c:382-424 | Which child of a path an object stands for: the next part of its path, unless it is a proxy, or hidden or disabled in another list than the proxies'. |
| Introspect.Selected | components/alljoyn/core/ajtcl/src/aj_introspect.c:650-673 | A registered object is the one described if and only if no object below it comes first; otherwise a parent without interfaces is. |
| Introspect.ParentBehind | components/alljoyn/core/ajtcl/src/aj_introspect.c:650-673 | An object registered behind an object below it is not described. |
| XmlWriter.Writer.Write | components/alljoyn/core/ajtcl/src/aj_introspect.c:613-639 | A sizing writer adds up the octets in 32 bits; a marshaling writer puts them out as long as they do not exceed the announcement. |
| XmlGenerator.WriteAttribute | components/alljoyn/core/ajtcl/src/aj_introspect.c:161-181 | An attribute is written up to the first direction character or separator, which is returned with what follows it. |
| XmlGenerator.WriteArgs | components/alljoyn/core/ajtcl/src/aj_introspect.c:327-362 | The arguments of a member are written one by one until its notation ends, or it is refused. |
| XmlGenerator.ExpandInterfaces | components/alljoyn/core/ajtcl/src/aj_introspect.c:226-376 | What any writer is handed for a list of interfaces is a function of the list, the descriptions and the language alone. |
| XmlGenerator.FindChild | components/alljoyn/core/ajtcl/src/aj_introspect.c:382-408 | The name of the next node on the way from one path to another, if there is one. |
| XmlGenerator.GenXML | components/alljoyn/core/ajtcl/src/aj_introspect.c:461-549 | Whatever the writer, the generator fails for the same objects and hands over the same pieces: the two passes agree. |
| IntrospectText.MemberMeans | components/alljoyn/core/ajtcl/src/aj_introspect.c:277-370 | The text of a method, signal or property is the element of its kind with its name, and in it its arguments with name, type and direction, or its type and access, as the D-Bus Specification has them. |
| IntrospectText.IfaceMeans | components/alljoyn/core/ajtcl/src/aj_introspect.c:226-376 | The text of an interface is its element with its name without the mark, the annotation the mark asks for unless the interface is a standard one, and its members in order. |
| IntrospectText.ObjectMeans | components/alljoyn/core/ajtcl/src/aj_introspect.c:461-549 | For an object whose interfaces are described, and no language, what is handed over is the text of the node, its interfaces and its children in order, and the octets sent are those of that text. |
| XmlGenerator.FindTarget | components/alljoyn/core/ajtcl/src/aj_introspect.c:650-673 | The search stops at the first object that has the path or is below it. |
| IntrospectReply.SecondPass | components/alljoyn/core/ajtcl/src/aj_introspect.c:699-715 | If the XML and its NUL fit what is left of the announcement, all of it is written, in order. |
| IntrospectReply.HandleIntrospectRequest | components/alljoyn/core/ajtcl/src/aj_introspect.c:641-729 | The reply to an introspection request goes out if and only if it is not to be encrypted and the XML is below 65531 octets, and then it is octet for octet the message with the XML as its one string argument; an encrypted reply is refused with nothing sent, and an object whose description cannot be generated gets no reply. |
| IntrospectReply.EncryptedRequest | components/alljoyn/core/ajtcl/src/aj_introspect.c:693-699 | The encrypted reply about a root of at most 48 octets of XML is refused and nothing is sent. |
| XmlWriter.LongXml | components/alljoyn/core/ajtcl/src/aj_introspect.c:613-639 | An object whose XML reaches 65531 octets. |
| Replies.ReplyTable.NextSerial | components/alljoyn/core/ajtcl/src/aj_msg.c:1640 | Serial numbers are never 0 and never repeat before they wrap. |
| Replies.ReplyTable.Find | components/alljoyn/core/ajtcl/src/aj_introspect.c:1173-1181 | A serial is found if and only if its call is outstanding, with the call's message id. |
| Replies.ReplyTable.AllocReplyContext | components/alljoyn/core/ajtcl/src/aj_introspect.c:1359-1382 | A context is taken if and only if one is free; it then holds the serial, the message id, the timeout or 20000 and the time, the call is outstanding, and no other context changes. |
| Replies.ReplyTable.IdentifyReply | components/alljoyn/core/ajtcl/src/aj_introspect.c:1300-1309 | A reply completes the outstanding call with its serial, at most once, and gets that call's id with the highest of 32 bits set; otherwise nothing changes and the id is 0xFFFFFFFF. |
| Replies.ReplyTable.TimedOut | components/alljoyn/core/ajtcl/src/aj_introspect.c:1394-1413 | A timeout is reported if and only if some outstanding call's time is up; it completes that call and gives its serial and the id of its reply. |
| Replies.ReplyTable.Release | components/alljoyn/core/ajtcl/src/aj_introspect.c:1384-1392 | Releasing completes the call if it is outstanding and changes nothing else. |
| Replies.ReplyTable.ReleaseAll | components/alljoyn/core/ajtcl/src/aj_introspect.c:1415-1418 | After releasing all, every call is completed. |
| Replies.ReplyTable.MethodCall | components/alljoyn/core/ajtcl/src/aj_msg.c:2071-2084 | A method call gets a serial no call has had. |

## Left out

- Headers.MarshalMsg: says what the buffer holds if the header fits; if it does not, the source, which does not look at the results of the field writes, leaves fields out, and the model says nothing. The look-up of the message id before it is in Identify.
- Framing.UnmarshalMsg: is stated for messages in the host's byte order without encryption; encrypted ones are in SecureTransport.UnmarshalEncrypted. Header fields with a container for their value are read by the same code and not described.
- SecureTransport.UnmarshalEncrypted: asks for a body of at least eight and fewer than 2^16 octets; the source checks neither before it decrypts, and what it does then reaches behind the message or in front of its body.
- SecureTransport.DeliverEncrypted: the octets of the buffer are copied to the eight-bit vectors of the crypto code and back, where the source works in the buffer itself.
- Framing.Framed: also asks that the header fits the receive buffer; longer headers are refused by the code before this point matters.
- Skipping.SkipArg: when the read of a variant's value fails the model returns at once, where the source goes on with whatever the failed read left in the argument.
- NvramStore.Store.Open: does not say what opening 0xFFFF to write does, which deletes the tail and compacts a memory that is no chain.
- IoBuf.IoBuffer.Send: a send that reports success has sent all of the buffer; the source's one call may send less, report success and leave octets behind.
- NvramStore.Store.MoveDown: the copy of an entry onto its own tail during compaction is taken to be a memmove, where the source calls memcpy.
- CredStore.Evict: a loop that never ends is modelled as stopping with a flag, in a state that is the one the loop repeats.
- CredStore.WriteShort: the junk of a patched word is the same for a length octet and the octets behind it; no contract depends on it.
- SecureMsg.DecryptMessage: asks for a body of at least eight octets, which the source takes for granted.
- Pool.Heap.Init: memory goes on behind a heap that is too small; what the blocks behind its end overwrite there is not modelled.
- Pool.Heap.Free: asks for a live block or null, as the source's assertions do.
- Replies.ReplyTable.NextSerial: is stated for runs in which the 32-bit serial number does not wrap.
- Replies.ReplyTable.IdentifyReply: asks for a reply serial other than 0, which header validation has checked before; the signature check of the reply is a parameter.
- Identify.InitThenLookup: is stated for objects with a path that starts with '/'; the '*' path is replaced by "/" and is not looked up again.
- Messages in the other byte order: the source swaps arrays by octets where elements are meant.
- The time stamp and time-to-live header fields, the second of which is written as 16 bits and read as 32, and sending compressed headers.
- The variable-argument front ends (AJ_MarshalArgs, AJ_UnmarshalArgs) and AJ_UnmarshalRaw.
- Octets beyond the end of the receive buffer: the source may point behind it before it checks; here such reads are empty.
- Failure of memory allocation, in every component.
- AJ_ClearCredentials, the local GUID, session and group keys: easy members over the same store.
- Writing the NVRAM image to a file and loading it at start.
- Introspect.XmlOf: is read as text only where no language is asked for; that names need no escaping is not checked, as in the source. The error reply for an unknown path is not modelled.
- Properties, the security of a single interface, and object iteration for announcements.
- Elliptic curves, hashes, key authentication, certificate chains.
- Sockets, discovery, Wi-Fi, RTOS and SPI code.

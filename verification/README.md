# A model of whatsmeow's codec, app state and caches

The Home Assistant add-on in this repository wraps a copy of whatsmeow, a client for the WhatsApp multi-device
protocol. This project models the parts of that client whose correctness rests on more than one function and proves
what they are for.

| module | what it models |
|---|---|
| ByteStrings, Collections, Decimal | bytes, big-endian numbers, sequences and sets, decimal text |
| Jids | user identifiers, their text form and its parser |
| Tokens, Encoder, Decoder, RoundTrip | the binary XML codec: token tables, writer, reader, and which nodes survive the trip |
| WireFormat | the bytes of each form of length, list, text and identifier, and what the readers can bring back |
| LTHash, HashStates, Integrity | the additive hash over app state, MAC preimages, and when the hash stays the sum over the stored MACs |
| Decoded | what decoding yields and what it checks, spelled out; what one patch, one answer and a whole fetch apply |
| AppState, Processors, SyncRuns | decoding patch lists against the database, the fetch loop, and what whole runs keep |
| Encoding, Patches | the patches the client sends, and that receivers accept them |
| Varints, Reporting, Projection, Groups | the protobuf scanner behind reporting tokens, as a projection of message trees, and what groups do to it |
| Configured | extracts hold only what the configuration names, and all of it |
| Frames, Reassembly | length-prefixed frames over a websocket, and which cuttings of the stream are put back together |
| RecentMessages, GroupCache, SessionCache | the recent-message ring, the group member lists, the write-back session cache |
| ResponseWaiters | the table of response channels, over every interleaving |
| DecryptBuffer | the buffer that makes decryption happen once per ciphertext |

Code that updates fields in place is a class here, each of whose methods is proved against a function or a step of a
state machine; the main theorems are about those.

## What turned out not to hold

Where the code does less than it seems meant to, the exact condition is proved.

- **Frames.** `processData` counts the three prefix bytes as received body bytes (socket/framesocket.go:175). It
  delivers what was sent if and only if no websocket message ends behind a prefix or inside a body
  (`Reassembly.SourceReassemblesExactly`); with body bytes counted any cutting would do (`BodyCountReassembles`).
- **App state.** The in-patch lookup ignores operations and all removals are stored before all additions
  (appstate/decode.go:177-190, 267-283). The hash stays the sum over the stored MACs if and only if an index that is
  removed occurs once in its patch (`Integrity.PatchTidyExactly`). A snapshot starts from the incoming hash
  (appstate/decode.go:206), so it needs distinct indexes that are not stored yet (`SnapshotTidyExactly`).
- **Patches.** A receiver refuses a patch that repeats an index, whether or not the store holds it
  (`Encoding.AcceptedUnlessRepeated`). No patch the client builds does (`Patches.BuiltPatchAccepted`).
- **Reporting tokens.** The scanner has no case for the wire types of groups and gives up the level a group stands at
  (reportingtoken.go:125-126, 164-165), so it extracts what it is asked for if and only if groups stand only where
  nothing configured is found (`Groups.ExtractsAllExactly`).
- **Decrypted events.** Two deliveries of one message can hand off a plaintext after it was cleared: if and only if
  one holds it while the other clears it (`DecryptBuffer.LateExactly`).
- **Frames sent.** If the first write fails, the connection header is not sent again (`Frames.FrameSender.SendFrame`).
- **JIDs.** The text form loses integrators and is ambiguous around its separators (`Jids.RoundTrip`); the AD form of
  the codec keeps eight bits of the device, and no form keeps a raw agent (`RoundTrip.WireJIDExact`).
- **Recent messages.** A key sent again is forgotten when its first slot is reused (`RepeatLostEarly`).
- **Group cache.** A member listed twice survives one leave (`GroupCache.UpdateSetExactly`).

## Model

| member | source | states |
|---|---|---|
| RoundTrip.NodeRoundTrip | whatsapp_addon/app/whatsmeow/binary/node.go:123-139 | a written node followed by any bytes reads back as its normal form and leaves exactly those bytes, if and only if no tag is empty or "0", every list size is below 65536 and every JID fits the form it is written in |
| RoundTrip.NodeReadsBack | whatsapp_addon/app/whatsmeow/binary/encoder.go:81-133 | the sufficient half for all encodable nodes, also those with node lists as attribute values |
| RoundTrip.WriteThenRead | whatsapp_addon/app/whatsmeow/binary/unpack.go:21-31 | writing, dropping the flag byte and reading gives the normal form if and only if tags, lists and JIDs are acceptable; writing fails exactly on the nodes the encoder panics on |
| RoundTrip.EncodingPrefixFree | whatsapp_addon/app/whatsmeow/binary/node.go:123-127 | two acceptable nodes written alike up to what follows have one normal form and the same rest: no encoding is a proper prefix of another's |
| RoundTrip.AttributeOrderIrrelevant | whatsapp_addon/app/whatsmeow/binary/encoder.go:190-199 | two orders of one attribute map have the same normal form, so the map iteration order never shows in what is read |
| RoundTrip.NormalAttributes | whatsapp_addon/app/whatsmeow/binary/decoder.go:306-330 | every attribute that is not dropped is read back under its own key with its own text |
| RoundTrip.ReadEncNode | whatsapp_addon/app/whatsmeow/binary/decoder.go:352-384 | a written node with acceptable tags and lists reads back as its image, in which JIDs keep what their form carries, whatever follows |
| RoundTrip.UnframedNode | whatsapp_addon/app/whatsmeow/binary/decoder.go:361-375 | a node with a tag the reader refuses or an oversized list anywhere, in attributes too, is not read back |
| RoundTrip.ParsedNodeReadable | whatsapp_addon/app/whatsmeow/binary/decoder.go:352-384 | whatever the reader returns has non-empty tags, fewer than 32768 attributes and lists below 65536, at every depth |
| RoundTrip.ReadableIsNear | whatsapp_addon/app/whatsmeow/binary/decoder.go:352-384 | a node whose normal form has those bounds keeps all its own sizes, except that one may be exactly 65536 and a tag may be "0" |
| RoundTrip.NearNodeFails | whatsapp_addon/app/whatsmeow/binary/decoder.go:361-375 | such a node, if it is not acceptable, makes the reader fail, since both flaws read as size zero |
| RoundTrip.ReadEncValue | whatsapp_addon/app/whatsmeow/binary/decoder.go:168-223 | any written value, followed by anything, reads back as its image and leaves what followed |
| RoundTrip.ReadEncNodes | whatsapp_addon/app/whatsmeow/binary/decoder.go:332-350 | the nodes of a written list are read back one by one |
| RoundTrip.ReadEncAttributes | whatsapp_addon/app/whatsmeow/binary/decoder.go:306-330 | the written attributes are read back into a map, later keys over earlier ones |
| RoundTrip.ReadEncString | whatsapp_addon/app/whatsmeow/binary/decoder.go:168-211 | a string written as single-byte token, double-byte token, nibble-packed, hex-packed or raw reads back unchanged |
| RoundTrip.UnpackPack | whatsapp_addon/app/whatsmeow/binary/decoder.go:83-116 | unpacking the packed nibbles or hex digits restores the text, plus the padding character of an odd length |
| RoundTrip.ReadEncPacked | whatsapp_addon/app/whatsmeow/binary/decoder.go:83-116 | with the odd-length flag the padding is dropped again |
| RoundTrip.ReadEncListStart | whatsapp_addon/app/whatsmeow/binary/decoder.go:155-166 | a list header reads back as its size modulo 65536 (as its size, if below) |
| RoundTrip.ReadEncJID | whatsapp_addon/app/whatsmeow/binary/decoder.go:225-304 | each of the four JID forms reads back as the JID it carries |
| RoundTrip.WireJIDExact | whatsapp_addon/app/whatsmeow/binary/encoder.go:161-188 | a JID survives its form if and only if it has no raw agent and the server keeps the rest: a device below 256 and no integrator on s.whatsapp.net, lid, hosted and hosted.lid; any device on msgr; any device and integrator on interop; neither on any other |
| RoundTrip.NodeImageExact | whatsapp_addon/app/whatsmeow/binary/node.go:123-139 | an image equals the normal form exactly when every JID in the node survives its form |
| WireFormat.AddressReadsBack | whatsapp_addon/app/whatsmeow/binary/encoder.go:161-170 | an address on s.whatsapp.net, lid, hosted or hosted.lid with a device below 256, no raw agent and no integrator comes back whole |
| WireFormat.JIDForm | whatsapp_addon/app/whatsmeow/binary/encoder.go:161-188 | 247, agent 0, 1, 128 or 129, device and user for those four servers, if the device is not zero or the server is hosted; otherwise 246 for msgr, 245 for interop and 250 for any other |
| WireFormat.ParsedJIDs | whatsapp_addon/app/whatsmeow/binary/decoder.go:225-304 | what each of the four readers can return at all: the pair form no device, msgr and interop only their own server, the AD form the server its agent byte names or else a raw agent |
| WireFormat.LeftoverRefused | whatsapp_addon/app/whatsmeow/binary/node.go:130-139 | bytes behind a complete node are refused, whatever they are |
| WireFormat.AttributeKeptExactly | whatsapp_addon/app/whatsmeow/binary/encoder.go:190-209 | an attribute reads back if and only if its value is neither nil nor the empty string |
| WireFormat.StringForm | whatsapp_addon/app/whatsmeow/binary/encoder.go:135-149 | a string that is no token is packed two characters to a byte if it has at most 127, all of 0-9 - . or else all of 0-9 A-F; otherwise its length and bytes are written |
| WireFormat.TokenForm | whatsapp_addon/app/whatsmeow/binary/encoder.go:135-141 | a token takes one byte from the first table, and two, the first of them 236 to 239, only if it is not there |
| WireFormat.UnpackedHalves | whatsapp_addon/app/whatsmeow/binary/decoder.go:129-153 | a half-byte unpacks if and only if it is a hex digit, or a nibble other than 12, 13 and 14, and packing it again gives it back |
| WireFormat.LengthForm | whatsapp_addon/app/whatsmeow/binary/encoder.go:64-79 | 252, 253 or 254 and two, four or five bytes, from 0, 256 and 2^20 on |
| WireFormat.ListForm | whatsapp_addon/app/whatsmeow/binary/encoder.go:211-221 | 0, 248 or 249 and one, two or three bytes, from 0, 1 and 256 on |
| WireFormat.TwentyBits | whatsapp_addon/app/whatsmeow/binary/decoder.go:69-77 | three bytes read as the number they spell, without the high four bits |
| WireFormat.TagRefused | whatsapp_addon/app/whatsmeow/binary/decoder.go:168-223 | no value starts with 240 to 244, nor with a byte behind the first token table |
| WireFormat.PackedHeader | whatsapp_addon/app/whatsmeow/binary/decoder.go:83-116 | packed text has two characters for each byte the low seven bits of its first byte announce, one less if the high bit is set, and crashes the reader if and only if that byte is 128 |
| WireFormat.NodeWritable | whatsapp_addon/app/whatsmeow/binary/encoder.go:81-99 | a node can be written if and only if its tag is 0, or its tag, content, and the keys and values of all attributes that are not left out can |
| WireFormat.ValueWritable | whatsapp_addon/app/whatsmeow/binary/encoder.go:64-79 | a text that is no token and a byte slice must be shorter than 2^31 - 1, in identifiers and lists of nodes too, and the type must be supported |
| WireFormat.BoolsReadBack | whatsapp_addon/app/whatsmeow/binary/encoder.go:121-122 | booleans read back as the texts true and false |
| Encoder.Marshal | whatsapp_addon/app/whatsmeow/binary/node.go:123-127 | returns the flag byte and the node's encoding, and fails exactly when a string or byte slice is too long or a value is of an unsupported type |
| Encoder.BinaryEncoder.constructor | whatsapp_addon/app/whatsmeow/binary/encoder.go:16-18 | a new encoder holds the flag byte zero and the index maps of the tables |
| Encoder.BinaryEncoder.PushByte | whatsapp_addon/app/whatsmeow/binary/encoder.go:24-26 | appends the byte |
| Encoder.BinaryEncoder.PushBytes | whatsapp_addon/app/whatsmeow/binary/encoder.go:28-30 | appends the bytes |
| Encoder.BinaryEncoder.PushIntN | whatsapp_addon/app/whatsmeow/binary/encoder.go:32-42 | appends the n low bytes of the value, in either byte order |
| Encoder.BinaryEncoder.PushInt20 | whatsapp_addon/app/whatsmeow/binary/encoder.go:44-46 | appends the twenty low bits in three bytes |
| Encoder.BinaryEncoder.WriteByteLength | whatsapp_addon/app/whatsmeow/binary/encoder.go:64-79 | appends the 8-, 20- or 32-bit length and panics from 2^31-1 on |
| Encoder.BinaryEncoder.WriteNode | whatsapp_addon/app/whatsmeow/binary/encoder.go:81-99 | appends the node's encoding; panics exactly on a node that is not encodable |
| Encoder.BinaryEncoder.Write | whatsapp_addon/app/whatsmeow/binary/encoder.go:101-133 | appends the value's encoding for each supported type; panics otherwise |
| Encoder.BinaryEncoder.WriteNodes | whatsapp_addon/app/whatsmeow/binary/encoder.go:101-133 | appends the nodes of a list in order |
| Encoder.BinaryEncoder.WriteString | whatsapp_addon/app/whatsmeow/binary/encoder.go:135-149 | tries single token, double token, nibbles, hex, raw, in this order |
| Encoder.BinaryEncoder.WriteBytes | whatsapp_addon/app/whatsmeow/binary/encoder.go:151-154 | appends length and bytes |
| Encoder.BinaryEncoder.WriteJID | whatsapp_addon/app/whatsmeow/binary/encoder.go:161-188 | appends the AD, msgr, interop or pair form |
| Encoder.BinaryEncoder.WriteAttributes | whatsapp_addon/app/whatsmeow/binary/encoder.go:190-199 | appends keys and values, skipping nil and empty strings |
| Encoder.BinaryEncoder.CountAttributesLoop | whatsapp_addon/app/whatsmeow/binary/encoder.go:201-209 | counts the attributes that are not skipped |
| Encoder.BinaryEncoder.WriteListStart | whatsapp_addon/app/whatsmeow/binary/encoder.go:211-221 | appends the empty, 8-bit or 16-bit header; the 16-bit one keeps only the low sixteen bits |
| Encoder.BinaryEncoder.WritePackedBytes | whatsapp_addon/app/whatsmeow/binary/encoder.go:223-250 | appends tag, rounded length with the odd flag, and the packed pairs |
| Decoder.ParseValue | whatsapp_addon/app/whatsmeow/binary/decoder.go:168-223 | reading ends on every byte string and either fails or leaves a strictly shorter rest |
| Decoder.ParseNode | whatsapp_addon/app/whatsmeow/binary/decoder.go:352-384 | reading a node ends on every byte string and either fails or leaves a strictly shorter rest |
| Decoder.ParseAttributes | whatsapp_addon/app/whatsmeow/binary/decoder.go:306-330 | reading n attributes ends and never leaves more than it was given |
| Decoder.Unmarshal | whatsapp_addon/app/whatsmeow/binary/node.go:130-139 | returns the node, or fails on a bad node or leftover bytes, exactly as the readers say |
| Decoder.ShiftedSum | whatsapp_addon/app/whatsmeow/binary/decoder.go:40-59 | the sum of the shifted bytes is the number they spell, in either byte order |
| ByteStrings.IntBytesRoundTrip | whatsapp_addon/app/whatsmeow/binary/decoder.go:40-59 | in either order the bytes of a number that fits read back as the number |
| Decoder.BinaryDecoder.constructor | whatsapp_addon/app/whatsmeow/binary/decoder.go:17-19 | a new decoder stands at the start of its data |
| Decoder.BinaryDecoder.ReadByte | whatsapp_addon/app/whatsmeow/binary/decoder.go:29-38 | returns the byte under the index and moves on, or fails at the end |
| Decoder.BinaryDecoder.ReadIntN | whatsapp_addon/app/whatsmeow/binary/decoder.go:40-59 | returns the number of n bytes in either byte order and moves past them, or fails at the end |
| Decoder.BinaryDecoder.ReadInt20 | whatsapp_addon/app/whatsmeow/binary/decoder.go:69-77 | returns the twenty-bit number of three bytes |
| Decoder.BinaryDecoder.ReadPacked8 | whatsapp_addon/app/whatsmeow/binary/decoder.go:83-116 | agrees with the reader of packed text; index stays within the data |
| Decoder.BinaryDecoder.ReadListSize | whatsapp_addon/app/whatsmeow/binary/decoder.go:155-166 | agrees with the reader of list headers and fails on other tags |
| Decoder.BinaryDecoder.Read | whatsapp_addon/app/whatsmeow/binary/decoder.go:168-223 | agrees with the reader of values; the index stays within the data and moves forward on success |
| Decoder.BinaryDecoder.ReadLeaf | whatsapp_addon/app/whatsmeow/binary/decoder.go:168-223 | the branches of read that start no list or JID |
| Decoder.BinaryDecoder.ReadJIDPair | whatsapp_addon/app/whatsmeow/binary/decoder.go:225-239 | a user that is nil or text and a server that is text; anything else fails |
| Decoder.BinaryDecoder.ReadInteropJID | whatsapp_addon/app/whatsmeow/binary/decoder.go:241-266 | user, device, integrator and the server "interop"; another server fails |
| Decoder.BinaryDecoder.ReadFBJID | whatsapp_addon/app/whatsmeow/binary/decoder.go:268-288 | user, device and the server "msgr"; another server fails |
| Decoder.BinaryDecoder.ReadADJID | whatsapp_addon/app/whatsmeow/binary/decoder.go:290-304 | agent, device and user, combined as NewADJID does |
| Decoder.BinaryDecoder.ReadAttributes | whatsapp_addon/app/whatsmeow/binary/decoder.go:306-330 | fills the map key by key; a key that is no text fails |
| Decoder.BinaryDecoder.ReadList | whatsapp_addon/app/whatsmeow/binary/decoder.go:332-350 | reads as many nodes as the header says; nil comes from the empty-list tag, which is read as a leaf |
| Decoder.BinaryDecoder.ReadNodes | whatsapp_addon/app/whatsmeow/binary/decoder.go:332-350 | reads the given number of nodes, in order |
| Decoder.BinaryDecoder.ReadNode | whatsapp_addon/app/whatsmeow/binary/decoder.go:352-384 | agrees with the reader of nodes: tag "" or "0" and size zero fail |
| Decoder.BinaryDecoder.ReadBytesOrString | whatsapp_addon/app/whatsmeow/binary/decoder.go:386-395 | returns the raw bytes, as text where asked |
| Decoder.BinaryDecoder.ReadRaw | whatsapp_addon/app/whatsmeow/binary/decoder.go:397-404 | returns length bytes and moves past them, or fails at the end |
| Tokens.Init | whatsapp_addon/app/whatsmeow/binary/token/token.go:30-43 | the two maps it fills answer exactly as the lookup functions, for every string |
| Tokens.IndexOfSingleToken | whatsapp_addon/app/whatsmeow/binary/token/token.go:58-61 | a hit is a non-zero index whose entry is the token; a miss means the token is empty or in no entry |
| Tokens.IndexOfDoubleByteToken | whatsapp_addon/app/whatsmeow/binary/token/token.go:65-68 | a hit is an entry GetDoubleToken maps back to the token; a miss means no dictionary holds it |
| Jids.RoundTrip | whatsapp_addon/app/whatsmeow/types/jid.go:158-226 | ParseJID undoes String if and only if the integrator is zero, neither part has an @, the user has no dot, and has a colon only with an agent |
| Jids.StringInjective | whatsapp_addon/app/whatsmeow/types/jid.go:216-226 | no two such identifiers print alike |
| Jids.ParseAgentForm | whatsapp_addon/app/whatsmeow/types/jid.go:166-183 | a printed user.agent:device@server parses back to its parts |
| Jids.ParseDeviceForm | whatsapp_addon/app/whatsmeow/types/jid.go:184-194 | a printed user:device@server parses back to its parts |
| Jids.ParsedForms | whatsapp_addon/app/whatsmeow/types/jid.go:158-200 | the four forms with and without agent and device, for any 64-bit numbers: the agent is cut to eight bits, the device to sixteen, a second @ ends the server, and a text without @ is a server |
| Jids.RefusedForms | whatsapp_addon/app/whatsmeow/types/jid.go:165-190 | a second dot is refused, and so is a second colon behind the dot or where there is none |
| Jids.RefusedNumbers | whatsapp_addon/app/whatsmeow/types/jid.go:174-192 | an agent or device that is no number is refused |
| Jids.PrintedForms | whatsapp_addon/app/whatsmeow/types/jid.go:216-226 | the printed forms, mark by mark; a JID without user prints as its server |
| Decimal.AtoiOfItoa | whatsapp_addon/app/whatsmeow/types/jid.go:166-194 | reading the decimal text of a number gives the number back |
| Decimal.SignedNumbers | whatsapp_addon/app/whatsmeow/types/jid.go:166-194 | numbers read with either sign, and only within 64 bits |
| Decimal.ParseDigitsExactly | whatsapp_addon/app/whatsmeow/types/jid.go:166-194 | a text is a number if and only if it holds digits and nothing else |
| LTHash.HashedTwice | whatsapp_addon/app/whatsmeow/appstate/lthash/lthash.go:34-37 | two calls in a row equal one call on the concatenated lists |
| LTHash.HashedPermuted | whatsapp_addon/app/whatsmeow/appstate/lthash/lthash.go:39-43 | permuting either list changes nothing |
| LTHash.HashedUndone | whatsapp_addon/app/whatsmeow/appstate/lthash/lthash.go:34-37 | swapping the two lists undoes the call |
| LTHash.SeparatesMultisets | whatsapp_addon/app/whatsmeow/appstate/lthash/lthash.go:27-58 | two subtracted lists shorter than 65536 give one hash under every expansion if and only if one is a permutation of the other |
| LTHash.LaneIs | whatsapp_addon/app/whatsmeow/appstate/lthash/lthash.go:45-58 | a lane is two bytes, the low one first |
| LTHash.SubtractThenAdd | whatsapp_addon/app/whatsmeow/appstate/lthash/lthash.go:27-32 | returns a fresh hash with every lane less the sum of the first list and plus that of the second, modulo 2^16; the base is untouched |
| LTHash.SubtractThenAddInPlace | whatsapp_addon/app/whatsmeow/appstate/lthash/lthash.go:34-37 | turns the base in place into that hash |
| LTHash.MultipleOp | whatsapp_addon/app/whatsmeow/appstate/lthash/lthash.go:39-43 | applies one direction for a whole list in place |
| LTHash.PerformPointwiseWithOverflow | whatsapp_addon/app/whatsmeow/appstate/lthash/lthash.go:45-58 | adds or subtracts little-endian 16-bit lanes in place with wrap-around |
| HashStates.CollectDelta | whatsapp_addon/app/whatsmeow/appstate/hash.go:36-58 | collects the found previous MACs and the SET MACs in order and fails at the first mutation whose lookup fails |
| HashStates.HashState.UpdateHash | whatsapp_addon/app/whatsmeow/appstate/hash.go:36-62 | on success the hash is the old one less the found MACs plus the set ones; on a failure it is untouched |
| HashStates.SnapshotPreimageInjective | whatsapp_addon/app/whatsmeow/appstate/hash.go:78-80 | for 128-byte hashes the snapshot preimage determines hash, version and name |
| HashStates.ContentPreimageInjective | whatsapp_addon/app/whatsmeow/appstate/hash.go:94-98 | the content preimage determines operation, key ID and data, through its length suffix |
| HashStates.PatchPreimageInjective | whatsapp_addon/app/whatsmeow/appstate/hash.go:82-92 | for one name and 32-byte MACs the patch preimage determines snapshot MAC, the whole list of value MACs and the version |
| Decoded.ContentLayout | whatsapp_addon/app/whatsmeow/appstate/hash.go:94-98 | the content MAC covers operation byte 1 or 2, key ID, ciphertext, and the length of the first two in eight bytes |
| Decoded.SnapshotLayout | whatsapp_addon/app/whatsmeow/appstate/hash.go:78-80 | the snapshot MAC covers hash, version in eight bytes and name |
| Decoded.PatchLayout | whatsapp_addon/app/whatsmeow/appstate/hash.go:82-92 | the patch MAC covers snapshot MAC, the value MACs in order, version in eight bytes and name |
| Integrity.HashFollowsLastSeen | whatsapp_addon/app/whatsmeow/appstate/hash.go:36-62 | in every lane the updated hash is the sum over the map of last-seen value MACs, less the MACs the removals themselves carry: the drift of the hash for any patch |
| Integrity.LookupIsLastSeen | whatsapp_addon/app/whatsmeow/appstate/decode.go:267-283 | the in-patch lookup, which ignores operations, returns the last value MAC seen for the index, in the patch or the store |
| Integrity.StoredIsLastSeen | whatsapp_addon/app/whatsmeow/appstate/decode.go:177-190 | after deleting all removed and putting all added MACs, the store holds the last-seen MAC of each index that is not removed, if removals stand alone |
| Integrity.RemovalsBalance | whatsapp_addon/app/whatsmeow/appstate/decode.go:177-190 | the drift is exactly what the store forgets, if every removed index occurs once |
| Integrity.PatchKeepsTidy | whatsapp_addon/app/whatsmeow/appstate/decode.go:267-309 | a patch in which every removed index occurs once keeps the hash the lane-wise sum over the stored MACs, for repeated SETs too |
| Integrity.PatchTidyExactly | whatsapp_addon/app/whatsmeow/appstate/decode.go:267-309 | a patch keeps that invariant under every expansion if and only if every removed index occurs once in it |
| Integrity.SnapshotKeepsTidy | whatsapp_addon/app/whatsmeow/appstate/decode.go:205-247 | a snapshot with distinct indexes none of which is stored keeps the invariant |
| Integrity.SnapshotTidyExactly | whatsapp_addon/app/whatsmeow/appstate/decode.go:205-247 | a snapshot, which adds to the incoming hash, keeps the invariant under every expansion if and only if its indexes are distinct and none is stored |
| Decoded.DecodedExactly | whatsapp_addon/app/whatsmeow/appstate/decode.go:120-175 | a mutation decodes if and only if its key is known, its content MAC right, its content decrypts to an action and that action's index has the mutation's MAC; the result is that action under the mutation's operation, index MAC and last 32 bytes |
| Decoded.DecodedFields | whatsapp_addon/app/whatsmeow/appstate/decode.go:165-173 | a decoded mutation has the operation, index MAC and value MAC of the one received |
| Decoded.AllDecodedExactly | whatsapp_addon/app/whatsmeow/appstate/decode.go:120-175 | a list decodes to the decodings of its mutations in order, and only if each of them decodes |
| Decoded.DecodedInOrder | whatsapp_addon/app/whatsmeow/appstate/decode.go:120-175 | the i-th decoded mutation has operation, index MAC and value MAC of the i-th received |
| Decoded.PatchAcceptedExactly | whatsapp_addon/app/whatsmeow/appstate/decode.go:285-309 | a patch is accepted if and only if its key is known, both its MACs are right for its version and the hash it leads to, and all its mutations decode; it leaves that version, hash and map |
| Decoded.SnapshotAcceptedExactly | whatsapp_addon/app/whatsmeow/appstate/decode.go:205-247 | likewise a snapshot, whose records count as set whatever operation they carry |
| Decoded.StoredExactly | whatsapp_addon/app/whatsmeow/appstate/decode.go:177-190 | an index that is set ends with the last value set, even if it is removed later; otherwise a removed index is gone, and any other is as it was |
| Decoded.DeltaExactly | whatsapp_addon/app/whatsmeow/appstate/hash.go:36-58 | the delta of a patch exists if and only if every lookup succeeds and every value set has 32 bytes; it subtracts every MAC found, whatever the operation, and adds the last 32 bytes of every value set |
| Decoded.WarningsExactly | whatsapp_addon/app/whatsmeow/appstate/hash.go:36-58 | warned about are exactly the removals of indexes that were not found |
| Decoded.ListApplied | whatsapp_addon/app/whatsmeow/appstate/decode.go:249-312 | an accepted answer is applied whole: all mutations decoded and returned in order, the version its last one, the map through snapshot and every patch |
| Decoded.FetchAppliesAll | whatsapp_addon/app/whatsmeow/appstate.go:62-82 | a fetch that succeeds stops at the first answer that says there are no more, and has applied every answer up to it |
| Processors.AppStateStore.PutAppStateVersion | whatsapp_addon/app/whatsmeow/store/store.go:72 | stores version and hash and leaves the MACs alone |
| Processors.AppStateStore.DeleteAppStateVersion | whatsapp_addon/app/whatsmeow/store/store.go:74 | clears version, hash and MACs |
| Processors.AppStateStore.PutAppStateMutationMACs | whatsapp_addon/app/whatsmeow/store/store.go:76 | puts the MACs in order, later ones over earlier ones |
| Processors.AppStateStore.DeleteAppStateMutationMACs | whatsapp_addon/app/whatsmeow/store/store.go:77 | removes exactly the given indexes |
| Processors.Processor.DecodeMutations | whatsapp_addon/app/whatsmeow/appstate/decode.go:120-175 | appends the decoded mutations and collects removed and added MACs in order, or fails at the first mutation that does not decode |
| Processors.Processor.StoreMACs | whatsapp_addon/app/whatsmeow/appstate/decode.go:177-190 | stores version and hash, deletes all removed MACs, then puts all added ones |
| Processors.Processor.DecodeAndStore | whatsapp_addon/app/whatsmeow/appstate/decode.go:120-190 | decodes all mutations before it stores anything: on a failure the database is untouched |
| Processors.Processor.ValidateSnapshotMAC | whatsapp_addon/app/whatsmeow/appstate/decode.go:192-203 | finds the keys and compares the MAC of the current state, or says why not |
| Processors.Processor.DecodeSnapshot | whatsapp_addon/app/whatsmeow/appstate/decode.go:205-247 | applies a snapshot to a copy of the incoming state; on a failure the database is untouched |
| Processors.Processor.DecodePatch | whatsapp_addon/app/whatsmeow/appstate/decode.go:266-309 | applies one patch to the state in place; on a failure the database is untouched |
| Processors.Processor.DecodePatchLoop | whatsapp_addon/app/whatsmeow/appstate/decode.go:266-312 | applies the patches in order up to the first that fails |
| Processors.Processor.DecodePatches | whatsapp_addon/app/whatsmeow/appstate/decode.go:249-312 | applies snapshot and patches in order; returns the new state and all mutations, or the first error with the database as the applied part left it |
| Processors.Processor.FetchAppState | whatsapp_addon/app/whatsmeow/appstate.go:40-90 | clears for a full sync, returns early when synced already, then applies the server's answers until one says there are no more |
| SyncRuns.FetchStaysInStep | whatsapp_addon/app/whatsmeow/appstate.go:62-82 | over every run of a fetch, finished or broken off anywhere, the stored hash is the sum over the stored MACs; after a finished one the state in memory is the stored one. Conditions: snapshots bring distinct indexes not yet stored, removed indexes occur once in their patch |
| SyncRuns.FullSyncRestores | whatsapp_addon/app/whatsmeow/appstate.go:47-82 | a full sync re-establishes this from any database, given a snapshot with distinct indexes |
| SyncRuns.ListStaysInStep | whatsapp_addon/app/whatsmeow/appstate/decode.go:249-312 | one answer of the server keeps the invariant, whether it applies or fails |
| SyncRuns.PatchesStayInStep | whatsapp_addon/app/whatsmeow/appstate/decode.go:266-312 | so does any run of patches |
| SyncRuns.FailureLeavesPrefix | whatsapp_addon/app/whatsmeow/appstate/decode.go:249-312 | a run that fails at patch k leaves the database exactly as the patches before k left it, and the error is that of patch k |
| Encoding.EncodePatch | whatsapp_addon/app/whatsmeow/appstate/encode.go:263-337 | returns the sealed patch of the encrypted mutations with the MACs of the next version, or fails on an unknown key or a failed lookup |
| Encoding.EncodesExactly | whatsapp_addon/app/whatsmeow/appstate/encode.go:263-318 | encoding fails if and only if the key is unknown or the lookup of some index MAC fails |
| Encoding.PatchUnlabelled | whatsapp_addon/app/whatsmeow/appstate/encode.go:324-328 | the patch names its key, holds one mutation for each change, and leaves the version to the server |
| Encoding.SenderCountsAlike | whatsapp_addon/app/whatsmeow/appstate/encode.go:322 | the sender authenticates the version one above the current one, as a number of 64 bits |
| Encoding.Labelled | whatsapp_addon/app/whatsmeow/appstate/encode.go:329-336 | the server's label on the patch is one above the current version; nothing else changes |
| Encoding.EncodedPatchAccepted | whatsapp_addon/app/whatsmeow/appstate/encode.go:263-337 | a patch with pairwise distinct index MACs, labelled with the version one above the receiver's, passes every check of a receiver in the sender's state and decodes to the same indexes, values and versions |
| Encoding.AcceptedExactly | whatsapp_addon/app/whatsmeow/appstate/decode.go:249-312 | unless two snapshot MACs collide, any encoded patch is accepted if and only if sender and receiver compute one hash |
| Encoding.HashesAgreeExactly | whatsapp_addon/app/whatsmeow/appstate/encode.go:312-318 | on any store, for a patch with fresh value MACs, sender and receiver compute one hash under every expansion if and only if no index repeats |
| Encoding.AcceptedUnlessRepeated | whatsapp_addon/app/whatsmeow/appstate/decode.go:249-312 | an encoded patch with fresh value MACs is accepted by a receiver in the sender's state if and only if no index repeats in it, unless one of the hash functions collides on it |
| Encoding.NewIndexesAgreeExactly | whatsapp_addon/app/whatsmeow/appstate/encode.go:312-318 | on indexes new to the store the same holds whatever the value MACs |
| Encoding.RemovalsAgreeExactly | whatsapp_addon/app/whatsmeow/appstate/decode.go:267-283 | sender and receiver subtract the same MACs, in some order, if and only if no index repeats |
| Encoding.EncodedMutationDecodes | whatsapp_addon/app/whatsmeow/appstate/decode.go:120-175 | one encoded mutation passes the content and index checks and decodes to what went in |
| Encoding.DeltasAgree | whatsapp_addon/app/whatsmeow/appstate/decode.go:267-283 | with no index repeated, the sender's lookup and the receiver's collect the same MACs |
| Patches.BuiltPatchAccepted | whatsapp_addon/app/whatsmeow/appstate/encode.go:43-260 | every patch the client can build and encode is accepted by a receiver in its state and decoded to the same changes, if the MACs of its (at most two) indexes differ |
| Patches.IndexNamesSubject | whatsapp_addon/app/whatsmeow/appstate/encode.go:43-260 | two changes with one index have the same kind, target, label and message, given printable JIDs; a star on the chat partner's own message leaves the sender out |
| Patches.BuiltVersions | whatsapp_addon/app/whatsmeow/appstate/encode.go:43-260 | every mutation carries the version of its action, by the name its index starts with; archiving a chat also unpins it, and every other change is one mutation |
| Patches.BuiltMarks | whatsapp_addon/app/whatsmeow/appstate/encode.go:165-244 | what stands behind the name in the indexes of stars and labelled messages, with 0 and 1 for the marks |
| Projection.ScanIsProjection | whatsapp_addon/app/whatsmeow/reportingtoken.go:94-176 | on every well-formed message, groups included, and configuration the scanner returns exactly the serialisation of the projected tree: configured fields, recursively, sorted by number, empty sub-messages dropped, and nothing from a level that holds a group |
| Projection.ProjectShorter | whatsapp_addon/app/whatsmeow/reportingtoken.go:137-153 | the projection is never longer than the message |
| Projection.ProjectIsFixed | whatsapp_addon/app/whatsmeow/reportingtoken.go:94-176 | projecting a projection changes nothing |
| Projection.ExtractionIdempotent | whatsapp_addon/app/whatsmeow/reportingtoken.go:94-176 | extraction of a well-formed message succeeds, never lengthens it, and applied again changes nothing |
| Projection.ScanIgnoresTail | whatsapp_addon/app/whatsmeow/reportingtoken.go:103-106 | bytes at the end that do not start with a varint change nothing |
| Configured.ProjectIsConfigured | whatsapp_addon/app/whatsmeow/reportingtoken.go:94-176 | a projection holds only fields an entry of its level names, and below a field whose entry has subfields or is a message only what those subfields name, at every depth |
| Configured.ExtractIsConfigured | whatsapp_addon/app/whatsmeow/reportingtoken.go:94-176 | so does whatever the scanner extracts |
| Configured.NamedIsKept | whatsapp_addon/app/whatsmeow/reportingtoken.go:119-168 | a field whose entry does not ask for parts of it is kept as it is |
| Configured.NamedPartsAreKept | whatsapp_addon/app/whatsmeow/reportingtoken.go:137-153 | a message whose entry asks for parts is kept with exactly those parts, unless there are none |
| Configured.SubfieldExample | whatsapp_addon/app/whatsmeow/reportingtoken.go:137-153 | of 32 04 08 01 10 05, under an entry for field 6 with subfield 1, the scanner extracts 32 02 08 01 |
| Configured.FitsExactly | whatsapp_addon/app/whatsmeow/reportingtoken.go:137-142 | what the theorems assume of a message: wherever the configuration asks for parts of a length-delimited field, the field has parts |
| Configured.FieldLayout | whatsapp_addon/app/whatsmeow/reportingtoken.go:86-91 | the trees stand for messages: wire types 0, 1, 2, 3 and 5 with their values, and a group that ends with its own number and wire type 4 |
| Groups.ExtractsAllExactly | whatsapp_addon/app/whatsmeow/reportingtoken.go:119-168 | the scanner extracts all the configuration asks for if and only if groups stand only at levels where nothing configured is found |
| Groups.GrouplessIsLossless | whatsapp_addon/app/whatsmeow/reportingtoken.go:119-168 | in particular it does if no level it enters holds a group |
| Groups.GroupEmpties | whatsapp_addon/app/whatsmeow/reportingtoken.go:125-126 | a group at the top level, configured or not, leaves nothing of the message |
| Groups.GroupExample | whatsapp_addon/app/whatsmeow/reportingtoken.go:125-126 | the bytes 08 01 13 14 hold configured field 1 and an empty group 2; nothing is extracted |
| Projection.SortIsStableSort | whatsapp_addon/app/whatsmeow/reportingtoken.go:169 | the sort returns the same fields in order of number, and equal numbers in their old order |
| Reporting.ExtractReportingTokenContent | whatsapp_addon/app/whatsmeow/reportingtoken.go:94-176 | the loop computes the recursive scan from the start, on every byte string, ending included |
| Reporting.ExtractField | whatsapp_addon/app/whatsmeow/reportingtoken.go:119-168 | what one field contributes: its bytes, a rewritten sub-message, nothing, or a crash on bad bounds |
| Reporting.SortAndConcatenate | whatsapp_addon/app/whatsmeow/reportingtoken.go:168-176 | sorts the fields by number and concatenates them |
| Reporting.SortFields | whatsapp_addon/app/whatsmeow/reportingtoken.go:169 | sorts the array in place into the stable sort of its contents |
| Reporting.ConfigIsFirst | whatsapp_addon/app/whatsmeow/reportingtoken.go:77-84 | the lookup returns the first entry with the number, and none only if no entry has it |
| Varints.UvarintOf | whatsapp_addon/app/whatsmeow/reportingtoken.go:103-106 | a varint in front of anything is read as its value and length |
| Varints.UvarintExactly | whatsapp_addon/app/whatsmeow/reportingtoken.go:103-106 | a number is read if and only if some prefix is a varint of at most 64 bits; up to ten bytes that all go on read as zero bytes, and anything else as minus ten or eleven |
| Reporting.IntsWrap | whatsapp_addon/app/whatsmeow/reportingtoken.go:137-153 | conversions to int and sums of ints are those of 64-bit two's complement |
| Varints.PutUvarintShortest | whatsapp_addon/app/whatsmeow/reportingtoken.go:143-147 | no encoding of a number is shorter than the one written |
| Varints.RewrittenIsVarint | whatsapp_addon/app/whatsmeow/reportingtoken.go:143-147 | rewriting a varint gives a varint of the same value |
| Frames.FrameSender.SendFrame | whatsapp_addon/app/whatsmeow/socket/framesocket.go:123-153 | the bytes written so far are the connection header and the length-prefixed frames sent, in order, unless the write that carried the header failed: it is not sent again; refuses frames of 2^24 bytes or more and closed sockets, changing nothing |
| Frames.FrameSocket.FrameComplete | whatsapp_addon/app/whatsmeow/socket/framesocket.go:155-162 | delivers the frame and resets the fields |
| Frames.FrameSocket.ProcessSome | whatsapp_addon/app/whatsmeow/socket/framesocket.go:165-202 | one turn of the loop takes the step the state machine prescribes, or panics where it does |
| Frames.FrameSocket.ProcessData | whatsapp_addon/app/whatsmeow/socket/framesocket.go:164-203 | the loop runs the state machine over the whole message, from any reachable state |
| Frames.FrameSocket.ReadPump | whatsapp_addon/app/whatsmeow/socket/framesocket.go:205-225 | the messages of the websocket are run one after the other |
| Frames.Run | whatsapp_addon/app/whatsmeow/socket/framesocket.go:164-203 | frames delivered are never taken back, and a held partial header or buffer stays of the right size |
| Reassembly.SourceReassemblesExactly | whatsapp_addon/app/whatsmeow/socket/framesocket.go:164-203 | as written, the receiver delivers exactly the frames sent, without panic, if and only if every message of the websocket ends between frames or inside a length prefix |
| Reassembly.BodyCountReassembles | whatsapp_addon/app/whatsmeow/socket/framesocket.go:175 | were only body bytes counted, every cutting of the stream would deliver exactly the frames sent and end between frames |
| Reassembly.CutBodyExample | whatsapp_addon/app/whatsmeow/socket/framesocket.go:192-198 | a four-byte frame cut in its middle is not delivered as sent |
| Reassembly.CutBodyLoses | whatsapp_addon/app/whatsmeow/socket/framesocket.go:192-198 | once a body is cut behind its prefix, no continuation delivers the frames sent |
| Reassembly.LagStays | whatsapp_addon/app/whatsmeow/socket/framesocket.go:164-203 | a receiver one frame ahead of the sender never catches up again |
| RecentMessages.FoundExactly | whatsapp_addon/app/whatsmeow/retry.go:50-70 | a message is found if and only if no addition of its key has left the ring since its last one, and the one found is the last one added |
| RecentMessages.RingBoundsMap | whatsapp_addon/app/whatsmeow/retry.go:53-59 | with message IDs the map has at most 256 keys, all of them in the ring |
| RecentMessages.DistinctKeepsLast | whatsapp_addon/app/whatsmeow/retry.go:50-63 | if no key is added twice the map is exactly the last 256 additions |
| RecentMessages.RepeatLostEarly | whatsapp_addon/app/whatsmeow/retry.go:53-55 | a key added again while it is in the ring is lost when its older slot is reused, though its last message is still among the last 256 |
| RecentMessages.RecentMessageStore.AddRecentMessage | whatsapp_addon/app/whatsmeow/retry.go:50-63 | appends to the history; ring, pointer and map follow it |
| RecentMessages.RecentMessageStore.GetRecentMessage | whatsapp_addon/app/whatsmeow/retry.go:65-70 | finds exactly what FoundExactly says of the history |
| GroupCache.UpdateKeepsSet | whatsapp_addon/app/whatsmeow/group.go:972-1001 | a member list without duplicates keeps none, and afterwards holds exactly the old and joined members who do not leave |
| GroupCache.UpdateSetExactly | whatsapp_addon/app/whatsmeow/group.go:972-1001 | for any list the members come out as meant if and only if everyone who leaves is listed no more often than they leave |
| GroupCache.UpdatedCounts | whatsapp_addon/app/whatsmeow/group.go:983-1000 | how often each JID is listed afterwards, for any lists |
| GroupCache.GroupMembers.Join | whatsapp_addon/app/whatsmeow/group.go:984-991 | appends the JID unless it is listed |
| GroupCache.GroupMembers.Leave | whatsapp_addon/app/whatsmeow/group.go:992-1000 | puts the last member in the place of the first listing of the JID |
| GroupCache.GroupMembers.JoinAndLeave | whatsapp_addon/app/whatsmeow/group.go:983-1000 | all joins, then all leaves, in order |
| GroupCache.LeaveMovesLast | whatsapp_addon/app/whatsmeow/group.go:992-1000 | only the last member moves, to the place of the one who leaves |
| GroupCache.JoinAppends | whatsapp_addon/app/whatsmeow/group.go:984-991 | those who join stand behind those who were there |
| GroupCache.LeaveOnce | whatsapp_addon/app/whatsmeow/group.go:992-1000 | swap-with-last takes exactly one listing of the JID away |
| GroupCache.Cache.UpdateGroupParticipantCache | whatsapp_addon/app/whatsmeow/group.go:972-1001 | updates the group's list as above and no other group's |
| SessionCache.CacheRefinesStore | whatsapp_addon/app/whatsmeow/store/sessioncache.go:72-125 | for any prefetched addresses and any run of loads, stores and flushes, refused ones included, a last flush leaves the store of the uncached path, and the records are the same if and only if every one served from an unflushed write reads back as itself |
| SessionCache.CachedRunMatches | whatsapp_addon/app/whatsmeow/store/signal.go:85-120 | the same from any cache whose unwritten entries hold what the store holds |
| SessionCache.LoadMatches | whatsapp_addon/app/whatsmeow/store/signal.go:85-103 | one load agrees with the uncached one exactly if the entry is clean or reads back as itself |
| SessionCache.LoadsAre | whatsapp_addon/app/whatsmeow/store/signal.go:85-103 | an absent session loads as a new one, and stored bytes as the record they parse to |
| SessionCache.Device.WithCachedSessions | whatsapp_addon/app/whatsmeow/store/sessioncache.go:72-104 | prefetches a clean entry for each address that reads, skips those that do not, and says which exist; no cache for no addresses or a failed query, which is an error |
| SessionCache.Device.LoadSession | whatsapp_addon/app/whatsmeow/store/signal.go:85-103 | returns the cached record, else the stored one, a new one if there is none, or an error if it does not read or the query fails |
| SessionCache.Device.StoreSession | whatsapp_addon/app/whatsmeow/store/signal.go:109-120 | with a cache only the cache changes, without one only the store; a failed write changes nothing |
| SessionCache.Device.PutCachedSessions | whatsapp_addon/app/whatsmeow/store/sessioncache.go:106-125 | writes exactly the dirty entries and empties the cache; a failed write keeps both |
| ResponseWaiters.StepIsSound | whatsapp_addon/app/whatsmeow/request.go:43-89 | every event keeps each channel in the table open, unsent and the last one of its request, no channel with two receivers, at most one node ever sent to a channel and a response only to its own request; no send blocks; only a cancel closes |
| ResponseWaiters.PanicsExactly | whatsapp_addon/app/whatsmeow/request.go:43-89 | in every interleaving no send blocks, and a run panics if and only if a channel is cancelled twice, or cancelled while a receiver holds it and then sent to |
| ResponseWaiters.ClosedExactly | whatsapp_addon/app/whatsmeow/request.go:64-69 | a channel is closed if and only if it was cancelled |
| ResponseWaiters.OrderlyNeverPanics | whatsapp_addon/app/whatsmeow/request.go:43-89 | if no channel is cancelled twice or while a receiver holds it, no run panics |
| ResponseWaiters.ClearIsSound | whatsapp_addon/app/whatsmeow/request.go:43-54 | clearing finds every waiter open and empty: its default close is never taken |
| ResponseWaiters.ClearNotifies | whatsapp_addon/app/whatsmeow/request.go:43-54 | after a clear every waiter's channel holds the node and nothing else, every other channel is as it was, and the table is empty |
| ResponseWaiters.ReceiveAtOnce | whatsapp_addon/app/whatsmeow/request.go:71-89 | a receive with nothing between its halves hands the node to the last waiter of the request |
| ResponseWaiters.Waiters.WaitResponse | whatsapp_addon/app/whatsmeow/request.go:56-62 | registers a fresh channel for the request, over an older one |
| ResponseWaiters.Waiters.CancelResponse | whatsapp_addon/app/whatsmeow/request.go:64-69 | closes the channel and drops the request's entry; panics exactly if it was closed |
| ResponseWaiters.Waiters.TakeWaiterFor | whatsapp_addon/app/whatsmeow/request.go:76-83 | takes the request's channel out of the table, if it has one |
| ResponseWaiters.Waiters.SendTo | whatsapp_addon/app/whatsmeow/request.go:84-87 | sends without blocking; panics exactly if the channel was closed in between |
| ResponseWaiters.Waiters.ReceiveResponse | whatsapp_addon/app/whatsmeow/request.go:71-89 | handled exactly if the node is a response whose id has a waiter, which then holds it unless the context is done |
| ResponseWaiters.Waiters.ClearResponseWaiters | whatsapp_addon/app/whatsmeow/request.go:43-54 | queues the node, and nothing else, at the channel of every waiter, leaves all other channels alone and empties the table, without panic |
| DecryptBuffer.DecryptedOnce | whatsapp_addon/app/whatsmeow/message.go:487-537 | over any run of redeliveries, overlapping deliveries, handler failures and crashes each ciphertext hash is committed at most once and all its hand-offs carry the plaintext of that commit |
| DecryptBuffer.StepIsSound | whatsapp_addon/app/whatsmeow/message.go:487-537 | every event keeps this, keeps the buffer to the committed plaintexts less the cleared ones, and the session the one that decrypted each committed ciphertext once |
| DecryptBuffer.LateExactly | whatsapp_addon/app/whatsmeow/message.go:410-458 | some plaintext is handed off after its clear if and only if a delivery holds it when it is cleared and goes on to hand it off |
| DecryptBuffer.NoneAfterClear | whatsapp_addon/app/whatsmeow/message.go:410-458 | so with one delivery at a time per hash, a cleared plaintext is not handed off again |
| DecryptBuffer.OverlapHandsOffLate | whatsapp_addon/app/whatsmeow/message.go:487-537 | two deliveries at once do hand off a plaintext after it was cleared |
| DecryptBuffer.RedeliveryIsReady | whatsapp_addon/app/whatsmeow/message.go:498-515 | after a crash before the clear, the next delivery gets the same plaintext without decrypting |
| DecryptBuffer.Client.BufferedDecrypt | whatsapp_addon/app/whatsmeow/message.go:487-537 | returns the buffered plaintext, or decrypts and saves it in one transaction; reports already processed exactly for a cleared hash; on any error, a failed lookup or insertion too, nothing is stored |
| DecryptBuffer.Client.DecryptChild | whatsapp_addon/app/whatsmeow/message.go:373-458 | hands off at most once, clears exactly after a handled message or one that is passed over, says whether the other children are looked at, and keeps the invariant |
| DecryptBuffer.Client.FinishChild | whatsapp_addon/app/whatsmeow/message.go:410-458 | bad padding and undecodable version 2 content are neither handed off nor cleared; undecodable version 3 content and unknown versions are cleared; a failed handler leaves the plaintext buffered and stops the message |

## Left out

- Encoding.AcceptedUnlessRepeated: assumes the same, and that the additive hash tells the two lists of subtracted MACs apart unless they are permutations of each other.
- Encoding.AcceptedExactly: assumes that the MACs of the two snapshot preimages at stake differ when the preimages do; a collision of HMAC-SHA256 is not part of this model.
- Integrity.PatchTidyExactly: the exact condition is for patches of fewer than 65536 mutations; the sufficient half, PatchKeepsTidy, is for all.
- Integrity.SnapshotTidyExactly: likewise for fewer than 65536 records.
- LTHash.SeparatesMultisets: for lists shorter than 65536, since 65536 equal items cancel.
- Projection.ScanIsProjection: where the configuration expects a message the field holds a well-formed one (`AllFit`); for messages shorter than 2^63 bytes, the range of Go's int, and for varints within 64 bits. The same goes for ExtractionIdempotent and the theorems in Groups.
- Reporting.SortFields: sort.Slice fixes no order among equal field numbers; the model sorts stably.
- Reporting.ExtractReportingTokenContent: a slice's capacity is taken to be its length, so reading past the end is a crash; a varint that makes the index stand still or move back is reported as being stuck instead of looping.
- Frames.FrameSocket.ProcessData: received slices are values, so aliasing between a partial header and the next message is not modelled.
- Processors.Processor.FetchAppState: the server's answers are a parameter; requesting keys, dispatching events and the contact write that can abort the loop are not modelled.
- Processors.Processor.StoreMACs: the three writes succeed; the source logs a failed one and goes on.
- Processors.AppStateStore.PutAppStateMutationMACs: follows the interface in store/store.go; the SQL table has the primary key (jid, name, version, index_mac), so a patch with repeated SETs would fail there. Writes succeed, and deleting a version deletes its MACs.
- ResponseWaiters.Waiters.ReceiveResponse: the two halves are also separate methods; the choice of a select with two ready cases is the caller's.
- DecryptBuffer.Client.BufferedDecrypt: only with the event buffer on, transactions atomic and old hashes not expired; an empty plaintext is told apart from a cleared one.
- DecryptBuffer.Client.DecryptChild: bot messages, which bypass the buffer, and receipts are not modelled.
- SessionCache.CacheRefinesStore: on the uncached path writes succeed, and records are immutable values; ContainsSession and direct deletes bypass the cache and are not modelled.
- Token table contents: any tables of the source's shape are allowed.
- Cryptographic primitives, protobuf and JSON marshalling: functions left open, with inverse or length laws where a lemma needs them. Zlib is not modelled.
- The key cache of the app state processor and the timestamps of built patches: parameters.
- Nil and empty slices and maps: not told apart, except where the code does.
- The Noise handshake, HTTP, websocket dialling, media, IQ builders, event dispatch, SQL and the Home Assistant wrapper.

# Verified model of the star protocol stack and the push server's play loop

This project models the two programs of the repository in Dafny and proves what they are for.

**The protocol library** (`star_protocol-develop`). A JSON message is turned into binary parameters, cut into
1024-byte slices, framed and signed; the receiver puts the slices together in any order and turns them back into
JSON. The model follows the library's layers.

- `Octets`, `Buffers`, `JsonValue`, `Tlv`: bytes and big-endian numbers, buffers written in place, JSON values whose
  members are visited in key order, and the length field and streams of TLVs.
- `Schema` states what every data type of a product model writes and reads, as pure functions on TLV streams.
  `SchemaRoundTrip` proves that decoding an encoded value gives its normal form, for every schema tree and every value
  the encoder takes; `SchemaCanonical` proves exactly which values are their own normal form; `DecoderAlgebra` proves
  that decoding composes, ignores unknown tags and depends only on the order of equal tags. `SchemaBuffers` holds the
  code as it runs: offsets, a struct body that is written first and moved by one byte when its length needs two,
  exact return codes, the loops of both directions.
- `SchemaAccept` proves which values the encoder accepts, from the declaration and the JSON alone: the form a value must
  have, the bytes it takes and the room it needs, through arrays and structs, and the code of every refusal. `SchemaWire`
  spells out the bytes of every conforming value and what every body is read as.
- `Crc32Register`, `Crc32Table`, `Crc32`, `Crc32Bursts`, `Crc32Bytes`, `Crc32Standard`: the table-driven CRC against the
  bit-by-bit one, the two-buffer form against the concatenation, detection of every error burst of up to 32 bits, and
  the checksum as RFC 1952 describes it, with its published check value.
- `TermPackage`, `PackageWire`, `Reassembly`, `TermMessage`: the package layout, byte by byte, and its getters, signing and
  verification, slicing, and the receiver as a state machine over arbitrary deliveries, with the message object's
  methods proved against it. `SliceAck` is the acknowledgement of a slice.
- `SchemaRoom`: the same codec in limited room, which members are dropped, what is stored behind the room, and exactly
  which objects come back.
- `Upgrade`, `UpgradeBuffers`, `ConfigRequest`, `ConfigBuffers`, `DottedQuad`: the two hand-written nested codecs;
  `UpgradeCut` and `ConfigCut` on payloads that are cut off, `UpgradeUnknown` on unknown tags, `ConfigDefined` on
  which requests and bytes are outside what the code is defined for. `UpgradeWire` and `ConfigWire` state tags, limits and
  codes in numbers, for what is written and for any bytes that are read.
- `Calendar`, `SerialNumber`, `SerialLayout`, `DevidCache`: the day-number formula, serial numbers column by column, and the
  two-way memo cache.
- `WholeStack` joins all of it: JSON to packages to JSON, in any order of delivery and for any state of the two
  serial-number caches; `JsonMessage` holds the message object's methods for it, and `PrintedLength` what the room they
  give the parsers is enough for. `StackWire` states which messages are accepted, and what a faulty payload leaves.

**The push server** (`star_pushersvr-develop`). `ObjectPool` is the intrusive doubly linked list and the pool on it;
every pool method keeps one invariant, so it holds over every run. `PlayList` and `FileStream` are the play loop,
its shuffle, cycles and jumps; `Pacing` is the clock that releases frames; `Adts` is the header builder and
its parser, `AdtsWire` its bytes; `StreamIn` is the reader that uses both.

A writer's `room` is the part of a buffer it is told about. The arrays of the model go on behind it by one byte, so that
a contract can say when a writer does not stay in its room: the byte behind it is the one that was stored there, or what
it was before.

The tags, widths, limits, codes and dates of the formats are stated twice: as the constants the code has, and in numbers
in the laws about what is written and read, which do not mention those constants.

Pure functions state what a step computes and lemmas prove what the source promises about it. Where the source
changes buffers or fields, a method with the same branches and loops is proved to compute that function.

## Where the code differs from what it promises

The model follows the code. Each of these is a theorem, mostly as the failing half of an if-and-only-if.

- The hexadecimal type stores its tag before it looks at the room. Reached with no room left, directly or inside arrays
  and structs, it stores one byte behind the buffer (`SchemaBuffers.WriteValue`, `SchemaBuffers.DataJ2B`; an input:
  `SchemaRoom.HexBehindFullRoom`).
- The room test for strings counts two header bytes of three above 127 bytes. In a start-upgrade request the url's last
  byte is stored behind the buffer for exactly one room (`Upgrade.StrayExactly`; the inputs: `Upgrade.UrlBehindRoom`).
  The room that `initFromJson` gives is never that one (`PrintedLength.UpgradeStays`).
- `dataJ2B` drops the members that do not fit and reports success (`SchemaRoom.KeptExactly`).
- A length field of three bytes can be written but is misread: lengths come back exactly below 2^14
  (`Tlv.LengthRoundTrip`).
- A nested array keeps only arrays of one element: `SchemaCanonical.FieldSurvives` states which values come back.
- `getTermConfigReq` loses modules with an empty property list, which its documentation uses to ask for all
  properties of a module; the documented request for all modules comes back with null for its empty object
  (`ConfigRequest.RoundTripExactly`). A reqid of more than 16 bytes is written but refused by the reader
  (`ConfigRequest.LongReqidRefused`), and a buffer that is too short cuts the list off without an error
  (`ConfigBuffers.WriteRequest`). From 2^13 names in a list on, the summed length is too small
  (`ConfigRequest.TwoPassLength`).
- The serial-number cache stops being transparent with the first string that parses but is not a printed form
  (`DevidCache.TransparentExactly`, `DevidCache.TwinStringAnswered`). A message then comes back with another serial
  number (`DevidCache.TwinComesBackInstead`; exactly when: `DevidCache.PrintedComeBackExactly`).
- A get-configuration list that names an unknown property takes the code through a null pointer, on either side
  (`ConfigDefined.EncodingUndefinedExactly`, `ConfigDefined.DecodingDefinedExactly`).
- `initFromTermPackage` returns 1 when the message is complete, although the library's README tests for 0
  (`TermMessage.Message.InitFromTermPackage`).
- `makeSliceAck` stores the length after signing, and in the byte order of the host: an acknowledgement verifies exactly if
  those two bytes were there before, which is so for no package of the library's own (`SliceAck.AckVerifiesExactly`,
  `SliceAck.OwnAckRejected`). It asks for 24 bytes of room where a package with a serial number takes 32
  (`SliceAck.MakeSliceAck`).
- An unknown tag in the start-upgrade decoder is not skipped: decoding goes on inside its value. It makes no difference
  exactly when that value is harmless (`UpgradeUnknown.UnknownSkippedExactly`; an input where it does:
  `UpgradeUnknown.UnknownTagRead`).
- A dotted address with a leading zero in a part is read as octal and comes back differently (`DottedQuad.OctalPart`).
- The pool's `clear` removes objects without counting them out (`ObjectPool.Pool.Clear`).
- The ADTS builder's ID setter sets the last bit of the byte, which is protection_absent; a new header holds rate
  number 0 while the object believes in 4; the parser takes a bit of the frame length for the copyright-start mark
  (`Adts.SettersReadBack`, `StreamIn.AacAdts`).
- A wait of 2^32 microseconds or more is cut to 32 bits and ends too soon (`Pacing.NotEarlyExactly`); a second pause
  moves the start of the first (`Pacing.PausesCounted`).

## Model

| member | source | states |
|---|---|---|
| Tlv.GetTlvLength | star_protocol-develop/src/protocolUtils.cpp:18-32 | the loop reads seven bits per byte from at most two bytes and reports one, two or three bytes used |
| Tlv.SetTlvLength | star_protocol-develop/src/protocolUtils.cpp:34-54 | succeeds exactly when the length field fits the room, which may be used up, and three bytes; the buffer always holds the part of the field that fitted, and nothing outside it changed |
| Tlv.LengthRoundTrip | star_protocol-develop/src/protocolUtils.cpp:18-54 | a written length is read back if and only if it is below 2^14; the byte count always is |
| Tlv.BeyondIsIrrelevant | star_protocol-develop/src/protocolUtils.cpp:18-32 | whatever the memory past the data holds, a length field that hangs over the end never frames a TLV differently |
| Tlv.ParseSerialize | star_protocol-develop/src/productModelImp.cpp:219-243 | walking a stream of written TLVs finds exactly those TLVs, then whatever follows |
| Tlv.ParsedSize | star_protocol-develop/src/productModelImp.cpp:219-243 | every TLV takes at least two bytes, so the walk over any byte string ends |
| Tlv.FrameAt | star_protocol-develop/src/cmdParser.cpp:2966-2979 | a TLV standing at any position of the data is read from there with its tag, length and value |
| Tlv.CutFrame | star_protocol-develop/src/productModelImp.cpp:219-233 | of a TLV that is cut off anywhere, the announced end lies past what is left, whatever follows in memory |
| Tlv.ParseCut | star_protocol-develop/src/productModelImp.cpp:219-243 | walking a stream that is cut off finds exactly the TLVs in front of the cut, and all of them only if nothing is cut off |
| Tlv.LengthFieldBytes | star_protocol-develop/src/protocolUtils.cpp:34-54 | the bytes of every length field: one below 128, two below 2^14, three below 2^21, and the first three of a longer one |
| Tlv.FrameBytes | star_protocol-develop/src/protocolUtils.cpp:34-54 | a TLV below 2^14 bytes is its tag, the one or two bytes of its length, and its value |
| Tlv.LengthRead | star_protocol-develop/src/protocolUtils.cpp:18-32 | the length read from any two bytes, and how many bytes it is said to take |
| SchemaRoundTrip.LeafRoundTrip | star_protocol-develop/src/property.cpp:181-723 | for every data type and every value it can encode, the TLVs written are short, carry the given tag, and each body decodes to the matching leaf of the value (mutual induction over structs and arrays) |
| SchemaRoundTrip.FieldRoundTrip | star_protocol-develop/src/property.cpp:181-723 | the bodies of one property, folded by the decoder into its JSON slot, give the normal form of the encoded value |
| SchemaRoundTrip.MembersRoundTrip | star_protocol-develop/src/productModelImp.cpp:219-265 | all members of an object, written in key order and decoded into an empty object, give the object's normal form |
| SchemaRoundTrip.StructRoundTrip | star_protocol-develop/src/property.cpp:783-863 | a nested struct body, as bytes, decodes to the normal form of its object; null when nothing was in it |
| SchemaCanonical.ItemSurvives | star_protocol-develop/src/property.cpp:181-723 | inside an array a value comes back as itself if and only if it is canonical: numbers in width, strings within the declared length and not ending in NUL, upper-case whole hex pairs, nested arrays of one element |
| SchemaCanonical.FieldSurvives | star_protocol-develop/src/property.cpp:181-723 | a property value comes back as itself if and only if it is canonical for its type |
| SchemaCanonical.MembersSurvive | star_protocol-develop/src/property.cpp:783-863 | an object comes back as itself if and only if all its members are canonical (and it is not empty) |
| DecoderAlgebra.ParseAppend | star_protocol-develop/src/productModelImp.cpp:219-243 | a whole number of TLVs in front of other bytes parses as the two parts do |
| DecoderAlgebra.DecodeAppend | star_protocol-develop/src/productModelImp.cpp:219-243 | decoding a ++ b equals decoding b into the object that decoding a left behind |
| DecoderAlgebra.StoreAllOneKey | star_protocol-develop/src/property.cpp:783-809 | what a decoded stream leaves under one key is the fold of just the bodies under that property's tag |
| DecoderAlgebra.StoreAllForeignKey | star_protocol-develop/src/property.cpp:783-809 | a key no property is named by is never touched |
| DecoderAlgebra.DecodeUpToReordering | star_protocol-develop/src/property.cpp:783-809 | streams that agree, tag by tag, on the order of their bodies decode to the same object |
| DecoderAlgebra.UnknownTagIgnored | star_protocol-develop/src/productModelImp.cpp:235-239 | a TLV with an unknown tag has no effect wherever it stands |
| DecoderAlgebra.SwapNeighbours | star_protocol-develop/src/property.cpp:783-809 | neighbouring TLVs with different tags may be swapped |
| Schema.FindByNameComplete | star_protocol-develop/src/productModelImp.cpp:209-217 | with distinct identifiers, lookup by name finds the property of that name |
| Schema.FindByIndexComplete | star_protocol-develop/src/productModelImp.cpp:199-207 | with distinct indices, lookup by index finds the property of that index |
| Schema.LookupByName | star_protocol-develop/src/productModelImp.cpp:209-217 | lookup finds nothing if and only if no property has the name, and of several the last |
| Schema.LookupByIndex | star_protocol-develop/src/productModelImp.cpp:199-207 | the same for indices |
| SchemaBuffers.WriteValue | star_protocol-develop/src/property.cpp:222-863 | every j2b returns the exact code of its branch; on success the buffer holds the pure encoding from the given position, within the room; the byte just behind the room becomes the tag of a hexadecimal value reached with no room left, and stays as it was exactly when there is none; nothing else changed |
| SchemaBuffers.WriteNumber | star_protocol-develop/src/property.cpp:222-287 | the value cut to its width, big-endian, after tag and length, or the exact error code |
| SchemaBuffers.WriteString | star_protocol-develop/src/property.cpp:324-350 | the string cut to the declared length, or the exact error code |
| SchemaBuffers.WriteHex | star_protocol-develop/src/property.cpp:442-473 | the bytes of the hexadecimal text cut to the declared length, or the exact error code; the tag is stored before the room is looked at, so with no room it is stored behind it |
| SchemaBuffers.HexStringToBytes | star_protocol-develop/src/utils.cpp:245-264 | the whole pairs of the text as bytes; -1 exactly when they do not fit or a digit is none |
| SchemaBuffers.WriteItems | star_protocol-develop/src/property.cpp:704-723 | the items one after another under the array's own tag, each in what the ones before leave of the room; the byte behind the room is changed exactly by an item that stores there |
| SchemaBuffers.WriteMembers | star_protocol-develop/src/property.cpp:811-839 | the struct's members in key order, unknown names skipped, stopping at the first that fails; the byte behind the room is changed exactly by a member that stores there |
| SchemaBuffers.WriteStruct | star_protocol-develop/src/property.cpp:811-863 | the struct body is written first and the header around it afterwards; the result is tag, length and body of the pure encoding at every nesting depth; the byte behind the room is changed exactly by a nested value that stores there |
| SchemaBuffers.WidenLength | star_protocol-develop/src/property.cpp:841-859 | a body of more than 127 bytes is moved up by one and the two-byte length put before it; it fails exactly from 2^14 bytes on |
| SchemaBuffers.SuccessFits | star_protocol-develop/src/property.cpp:222-863 | a value whose encoding succeeds within the room is encodable, and its encoding is no longer than the room |
| SchemaBuffers.SuccessStays | star_protocol-develop/src/property.cpp:222-863 | a value that is written successfully stores nothing behind the room |
| SchemaBuffers.DataJ2B | star_protocol-develop/src/productModelImp.cpp:245-265 | the buffer holds exactly the members that could be written into what was left of the room, in key order; the byte behind the room is the last one stored there by a member that failed, or unchanged if none was |
| SchemaBuffers.KeptAll | star_protocol-develop/src/productModelImp.cpp:245-265 | with room for every member, what is written is the whole encoding |
| SchemaAccept.AcceptedExactly | star_protocol-develop/src/property.cpp:222-863 | a value is written if and only if it conforms to its declaration (a number of 64 bits, a string, hexadecimal digits, a truth value, an enumeration value of 32 bits, a list of such, an object whose declared members are such and stay below 2^14 bytes) and the room computed from the JSON is there; the bytes written are as many as computed from the JSON; by mutual induction over structs and arrays |
| SchemaAccept.MembersAccepted | star_protocol-develop/src/property.cpp:826-839 | the members of an object can all be written if and only if the declared ones conform and the room they need, one behind the other, is there |
| SchemaAccept.LeafCodes | star_protocol-develop/src/property.cpp:222-653 | numbers, strings, truth values and enumeration values: -1 if and only if the value does not conform, -2 if and only if its room is not there |
| SchemaAccept.HexCodes | star_protocol-develop/src/property.cpp:442-466 | hexadecimal values: which of -1, -2, -3 and -4 is returned, for every value and room |
| SchemaAccept.ArrayCodes | star_protocol-develop/src/property.cpp:704-723 | lists: -1 for no list, -2 if and only if an item does not conform or does not fit |
| SchemaAccept.StructCodes | star_protocol-develop/src/property.cpp:811-863 | objects: which of -1 to -5 is returned, for every object and room |
| SchemaWire.LeafBytes | star_protocol-develop/src/property.cpp:222-653 | every byte of a number, string, hexadecimal value, truth value and enumeration value |
| SchemaWire.WrittenAs | star_protocol-develop/src/property.cpp:222-863 | every byte of a conforming value, lists and objects included |
| SchemaWire.MemberKeptExactly | star_protocol-develop/src/productModelImp.cpp:245-265 | a member is written, with all its bytes, if and only if it is declared, conforms and finds the room it needs |
| SchemaWire.KeptAs | star_protocol-develop/src/productModelImp.cpp:245-265 | what is written of any object in any room, member by member |
| SchemaWire.ObjectWrittenExactly | star_protocol-develop/src/productModelImp.cpp:245-265 | an object is written in full if and only if its declared members conform and the room they need is there |
| SchemaWire.ObjectComesBackExactly | star_protocol-develop/src/productModelImp.cpp:219-265 | of the bytes written for any object in any room, the first n read back as the object if and only if they are all the bytes, the declared members conform, the room they need is there, and the object is canonical |
| SchemaRoom.KeptExactly | star_protocol-develop/src/productModelImp.cpp:245-265 | what is written is the whole encoding if and only if every member fits the room; otherwise members are dropped, and success is reported all the same |
| SchemaRoom.FittingStays | star_protocol-develop/src/productModelImp.cpp:245-265 | with room for every member nothing is stored behind it |
| SchemaRoom.HexBehindFullRoom | star_protocol-develop/src/property.cpp:442-459 | an eight-byte number fills a buffer of ten bytes, and the empty hexadecimal member behind it stores its tag behind the buffer |
| SchemaRoom.AllBodiesNeeded | star_protocol-develop/src/property.cpp:689-723 | of the bodies written for a value no proper part reads back as the value |
| SchemaRoom.ReadBack | star_protocol-develop/src/productModelImp.cpp:219-265 | parameters written in full come back as their normal form |
| SchemaRoom.ComesBackExactly | star_protocol-develop/src/productModelImp.cpp:219-265 | of the bytes written in any room, the first n read back as the object if and only if they are all the bytes, every member fitted, and the object is canonical |
| SchemaBuffers.ReadValue | star_protocol-develop/src/property.cpp:181-809 | every b2j stores what the pure decoder makes of the body, or leaves the object alone and returns the error code |
| SchemaBuffers.ReadMembers | star_protocol-develop/src/property.cpp:783-809 | the offset loop over a struct body stores exactly the TLVs the pure walk finds |
| SchemaBuffers.DataB2J | star_protocol-develop/src/productModelImp.cpp:219-243 | the module loop decodes the data into the given object as the pure decoder does |
| SchemaBuffers.TrimZeroBytes | star_protocol-develop/src/property.cpp:315-322 | the string length up to the trailing NULs |
| SchemaWire.NumberDecoded | star_protocol-develop/src/property.cpp:181-220 | a number body is read in its declared width only, the most significant byte first |
| SchemaWire.StringDecoded | star_protocol-develop/src/property.cpp:315-322 | of a string body all trailing NULs and nothing else are left out |
| SchemaWire.OthersDecoded | star_protocol-develop/src/property.cpp:431-635 | hexadecimal, truth-value and enumeration bodies: which are accepted, and as what |
| SchemaWire.ListStored | star_protocol-develop/src/property.cpp:689-703 | a further body of a list goes behind the items already read; one that cannot be read changes nothing |
| SchemaWire.ValueStored | star_protocol-develop/src/property.cpp:181-635 | a further body of any other type replaces the value |
| JsonValue.ListMemberNames | star_protocol-develop/src/productModelImp.cpp:248-248 | an object's members are visited once each in ascending key order |
| JsonValue.BeforeExamples | star_protocol-develop/src/productModelImp.cpp:248-248 | the key order is that of the bytes, prefixes first |
| Crc32Register.FeedOctet | star_protocol-develop/src/crc32.cpp:63-90 | eight shifts of the register with the octet mixed in equal feeding its eight bits one by one, least significant first |
| Crc32Table.TableIsShift8 | star_protocol-develop/src/crc32.cpp:4-61 | each of the 256 table entries is its index shifted eight times through the reflected polynomial 0xEDB88320 |
| Crc32.TableLoopIsFeedBits | star_protocol-develop/src/crc32.cpp:63-74 | from any register state the table-driven loop equals the bit-by-bit definition, on every byte string |
| Crc32.Crc32One | star_protocol-develop/src/crc32.cpp:63-74 | crc32 of one buffer is the bitwise CRC-32 of section 8 of RFC 1952 |
| Crc32.Crc32Two | star_protocol-develop/src/crc32.cpp:76-90 | crc32 of two buffers is crc32 of their concatenation |
| Crc32Bursts.FeedBitsInjective | star_protocol-develop/src/crc32.cpp:63-74 | equal bits keep different register states different |
| Crc32Bursts.WindowDetected | star_protocol-develop/src/crc32.cpp:63-74 | from one register state, different bit strings of equal length up to 32 leave different states |
| Crc32Bursts.BurstDetected | star_protocol-develop/src/crc32.cpp:63-90 | different inputs of equal length that differ only within 32 consecutive bits have different CRCs |
| Crc32Bytes.WordRoundTrip | star_protocol-develop/src/termPackageImp.cpp:286-289 | the four signature bytes hold the CRC and give it back |
| Crc32Bytes.WordBytesRoundTrip | star_protocol-develop/src/termPackageImp.cpp:286-289 | every four bytes are the signature bytes of the value they hold |
| Crc32Bytes.CheckValueBytes | star_protocol-develop/src/termPackageImp.cpp:286-289 | the most significant byte of a signature comes first |
| Crc32Standard.InvertedFirstWord | star_protocol-develop/src/crc32.cpp:63-90 | for four bytes or more, crc32 is the complement of the remainder of the bits with the first 32 inverted: section 8 of RFC 1952 without a start value |
| Crc32Standard.CheckValue | star_protocol-develop/src/crc32.cpp:63-74 | the nine digits give the published check value 0xCBF43926 |
| Crc32Standard.ZeroByte | star_protocol-develop/src/crc32.cpp:63-74 | one zero byte gives 0xD202EF8D |
| TermPackage.SignedVerifies | star_protocol-develop/src/termPackageImp.cpp:291-317 | a signed package with a valid start verifies with the customer number it was signed with |
| TermPackage.BurstRejected | star_protocol-develop/src/termPackageImp.cpp:291-317 | a genuine package altered within 32 consecutive bits of its signed part, its signature left alone, is rejected |
| TermPackage.VerifyBySerial | star_protocol-develop/src/termPackageImp.cpp:306-311 | without a given customer number every package of full length is checked with the one of its serial number |
| TermPackage.BurstRejectedBySerial | star_protocol-develop/src/termPackageImp.cpp:291-317 | verification by serial number rejects a package altered within 32 consecutive bits that leave its customer id and signature alone |
| TermPackage.VerifiesExactly | star_protocol-develop/src/termPackageImp.cpp:291-317 | a package verifies if and only if it has 20 bytes, starts with 0xF5 0xAA and version 0, and ends in the CRC of the rest and the customer number |
| TermPackage.ShortPackage | star_protocol-develop/src/termPackageImp.cpp:291-305 | verify throws if and only if the package has less than 20 bytes |
| TermPackage.HeaderReadBack | star_protocol-develop/src/termPackageImp.cpp:48-154 | every header getter reads back what the header was built from |
| TermPackage.Layout | star_protocol-develop/src/termMessageImp.cpp:254-307 | serial number, slice information, body, time stamp and signature lie one after another where the lengths say |
| TermPackage.PackageReadBack | star_protocol-develop/src/termPackageImp.cpp:48-317 | every getter of a built package gives back its value, body included, and it verifies |
| TermPackage.VerifiesBySerial | star_protocol-develop/src/termPackageImp.cpp:291-317 | a package that carries its serial number verifies without an explicit customer number |
| PackageWire.BuiltBytes | star_protocol-develop/src/termMessageImp.cpp:254-302 | every byte of a built package: header, serial number, slice information, body, time stamp, signature |
| PackageWire.EveryGetter | star_protocol-develop/src/termPackageImp.cpp:48-289 | of a package with any flags and any of the optional parts, extension data included, every getter returns its part; the length of the body is cut to 16 bits |
| SliceAck.MakeSliceAck | star_protocol-develop/src/termPackageImp.cpp:329-367 | the buffer holds the acknowledgement and nothing else changed; -1 and no change below 24 bytes of room |
| SliceAck.AckVerifiesExactly | star_protocol-develop/src/termPackageImp.cpp:329-367 | an acknowledgement verifies if and only if the two length bytes of the acknowledged package equal those stored after signing |
| SliceAck.OwnAckRejected | star_protocol-develop/src/termPackageImp.cpp:329-367 | no acknowledgement of a slice that makePackages built verifies |
| SliceAck.AckReadBack | star_protocol-develop/src/termPackageImp.cpp:329-367 | an acknowledgement has the identity, slice and flags it should have, and its two length bytes exchanged |
| TermMessage.BuildPackage | star_protocol-develop/src/termMessageImp.cpp:256-302 | writing a package part by part into a fresh buffer gives exactly the specified bytes |
| Reassembly.SliceSizes | star_protocol-develop/src/termMessageImp.cpp:233-258 | slices of 1024 bytes, the last one of what is left, one empty slice for an empty message |
| Reassembly.SlicePackageIs | star_protocol-develop/src/termMessageImp.cpp:254-302 | the package of slice i carries i, the number of slices, the offset 1024 * i and the bytes from there |
| Reassembly.SentVerifies | star_protocol-develop/src/termMessageImp.cpp:226-310 | every package of a message verifies with the customer number it was sent with, and by its serial number if that gives the same |
| TermMessage.SignedWith | star_protocol-develop/src/termMessageImp.cpp:226-232 | packages are signed with the given customer number, or else with that of the serial number |
| Reassembly.BodiesPartition | star_protocol-develop/src/termMessageImp.cpp:254-297 | the bodies of the first n packages are the message up to the end of slice n-1 |
| Reassembly.WholeMessage | star_protocol-develop/src/termMessageImp.cpp:254-297 | the bodies of all packages, in order, are the message |
| Reassembly.DeliveryStep | star_protocol-develop/src/termMessageImp.cpp:93-131 | one more package, new or repeated, always fits and adds exactly its own slice to what is in place |
| Reassembly.RunProgress | star_protocol-develop/src/termMessageImp.cpp:93-131 | over every run of deliveries: what is missing is what has not come, every slice that came is in place, and the header is the sender's |
| Reassembly.AnyOrderReassembles | star_protocol-develop/src/termMessageImp.cpp:88-131 | for every message of 0 to 65535 bytes, in any order and with any repetition: complete if and only if every slice has come, and then equal to the original under the original header |
| Reassembly.ReceiveOpened | star_protocol-develop/src/termMessageImp.cpp:97-122 | a first package is treated like any other once the buffer and the missing map are set up |
| Reassembly.NotAwaited | star_protocol-develop/src/termMessageImp.cpp:119-127 | a slice that is not missing changes nothing, whatever it holds |
| Reassembly.StoredAtPlace | star_protocol-develop/src/termMessageImp.cpp:119-131 | any other package changes exactly the bytes at its offset and takes itself off the missing slices |
| Reassembly.FirstPackage | star_protocol-develop/src/termMessageImp.cpp:98-131 | the first package decides about header, length and the slices to wait for |
| TermMessage.Message.InitFromTermPackage | star_protocol-develop/src/termMessageImp.cpp:93-131 | the object's new view is what the receiver's step says; the result is 1 exactly when the message is complete |
| TermMessage.Message.OpenWith | star_protocol-develop/src/termMessageImp.cpp:98-122 | the first package sets header fields, a fresh buffer of the announced length and the missing map |
| TermMessage.Message.AddBody | star_protocol-develop/src/termMessageImp.cpp:119-131 | an awaited body goes to its place and leaves the missing map; any other package changes nothing |
| TermMessage.Message.CutPackage | star_protocol-develop/src/termMessageImp.cpp:254-302 | the package of the slice that starts at the offset, and the offset of the next |
| TermMessage.Message.MakePackages | star_protocol-develop/src/termMessageImp.cpp:226-310 | the packages appended are all the slices in order, signed with the given customer number or that of the serial number |
| JsonMessage.InitFromJson | star_protocol-develop/src/termMessageImp.cpp:133-224 | the return code, or the header, payload and packages of the message, for every JSON object, every state of the serial-number cache and every room; the cache has learnt the serial number |
| JsonMessage.FillHeader | star_protocol-develop/src/termMessageImp.cpp:135-186 | accepts exactly the objects whose header members are present and typed, and takes over their values, the serial number through the cache |
| JsonMessage.FillPayload | star_protocol-develop/src/termMessageImp.cpp:187-221 | the payload is what the parser encoded, its length cut to 16 bits; refused exactly when the parser fails |
| JsonMessage.EncodeParameters | star_protocol-develop/src/termMessageImp.cpp:194-216 | the parser's bytes in a buffer of the given size, a negative length exactly when it fails, and the byte behind the buffer exactly as the parser leaves it |
| JsonMessage.GetJsonMsg | star_protocol-develop/src/termMessageImp.cpp:327-358 | the JSON of a complete message, received or just built, with the serial number through the cache; an empty object for an unknown command; an incomplete one gives what was there before |
| StackWire.PreparedExactly | star_protocol-develop/src/termMessageImp.cpp:133-193 | -1 if and only if one of the five numbers is missing or out of range, -2 for a command without a parser; otherwise the header with every number cut to its width |
| StackWire.ParsedExactly | star_protocol-develop/src/termMessageImp.cpp:187-224 | -3 when the parser fails; otherwise the parser's bytes, their length cut to 16 bits |
| StackWire.UpgradeEncoded | star_protocol-develop/src/termMessageImp.cpp:194-216 | start-upgrade parameters are accepted if and only if they are formed as they must be and their TLVs fit |
| StackWire.ConfigEncoded | star_protocol-develop/src/termMessageImp.cpp:194-216 | get-configuration parameters are accepted if and only if they are formed and type and id fit; the rest is cut to the room |
| StackWire.SchemaEncoded | star_protocol-develop/src/termMessageImp.cpp:194-216 | parameters a model describes are written member by member; a command without a model fails |
| StackWire.MsgDecoded | star_protocol-develop/src/termMessageImp.cpp:327-358 | the printed parameters are what the parser has read, null for nothing, whatever its code |
| StackWire.UpgradeErrorKeeps | star_protocol-develop/src/cmdParser.cpp:2967-3002 | a payload with an error keeps the members read before it |
| StackWire.ConfigErrorKeeps | star_protocol-develop/src/cmdParser.cpp:1902-1925 | the same for get-configuration |
| StackWire.JsonExactly | star_protocol-develop/src/termMessageImp.cpp:327-358 | the seven members of what is printed, and the empty object for an unknown command |
| WholeStack.MsgReadBackExactly | star_protocol-develop/src/termMessageImp.cpp:187-221 | for every parser, accepted parameters come back if and only if they were written in full, stay below 64 KiB and are canonical |
| WholeStack.EnvelopeExactly | star_protocol-develop/src/termMessageImp.cpp:133-186 | the printed header is the sender's if and only if the seven members are there, the flags are 0 or 1, the numbers fit their bytes, and the serial number comes back through both caches |
| WholeStack.PrintedExactly | star_protocol-develop/src/termMessageImp.cpp:133-358 | what is printed for the payload of an accepted message is the message if and only if its envelope and its parameters come back |
| WholeStack.CanonicalComesBack | star_protocol-develop/src/termMessageImp.cpp:133-224 | between transparent caches a canonical message is accepted and is one that comes back |
| WholeStack.EndToEndExactly | star_protocol-develop/src/termMessageImp.cpp:88-358 | for every accepted message and every state of both caches: complete if and only if every slice has come, and then the receiver's JSON is the sender's if and only if the message comes back as defined, envelope, serial number and parameters |
| WholeStack.EndToEnd | star_protocol-develop/src/termMessageImp.cpp:88-358 | a canonical JSON message between transparent caches, encoded, sliced, delivered in any order with repetitions and decoded, gives back the same JSON, and nothing before the last slice has come |
| PrintedLength.UpgradeAcceptedExactly | star_protocol-develop/src/termMessageImp.cpp:195-196 | in a room no smaller than the printed parameters, a start-upgrade request is accepted if and only if its members have the right form; no room test decides |
| PrintedLength.UpgradeStays | star_protocol-develop/src/cmdParser.cpp:3870-3873 | ... and nothing is stored behind that room |
| PrintedLength.NumbersFitExactly | star_protocol-develop/src/property.cpp:704-723 | a list of numbers fits if and only if the room has two bytes and the declared width for each, so short numbers of a wide type need more room than printing them takes |
| Upgrade.ReadBack | star_protocol-develop/src/cmdParser.cpp:2865-3079 | whatever request is accepted, decoding the bytes gives its normal form without an error |
| Upgrade.RoundTripExactly | star_protocol-develop/src/cmdParser.cpp:2865-3079 | an accepted request comes back as itself if and only if it is canonical (upper-case ids, url and hwcode within their limits, dotted-quad versions, at least one firmware entry, nothing else) |
| UpgradeWire.WrittenExactly | star_protocol-develop/src/cmdParser.cpp:2865-2948 | a request is accepted if and only if its members are formed as they must be and its TLVs fit the room; what is written are the TLVs, with tags 1 to 4 and 5 |
| UpgradeWire.WalkedAs | star_protocol-develop/src/cmdParser.cpp:2865-2948 | a walk over the bytes finds tag 1 with the task id, 2 with at most 256 bytes of url, 3 with the four bytes of the size, 4 with the checksum, then one tag 5 for each entry, and inside each tag 1 with at most 32 bytes of hardware code and tag 2 with the four bytes of the version |
| UpgradeWire.MembersRefused | star_protocol-develop/src/cmdParser.cpp:2883-2903 | -2 for members that are missing or of the wrong kind, or identifiers not of 32 characters |
| UpgradeWire.RoomRefused | star_protocol-develop/src/cmdParser.cpp:2904-2947 | -1 for identifiers that are not hexadecimal, and for too little room |
| UpgradeWire.EntryDecides | star_protocol-develop/src/cmdParser.cpp:2909-2917 | the first malformed entry decides: -3 for missing members, -1 for no object |
| UpgradeWire.TlvDecoded | star_protocol-develop/src/cmdParser.cpp:2967-3032 | tags 1, 2, 4 and 5 read from any data: 16 bytes of task id or checksum and -2 for any other length, any url, -3 for an entry below four bytes |
| UpgradeWire.SizeDecoded | star_protocol-develop/src/cmdParser.cpp:3004-3009 | tag 3 sets the size from four bytes, the most significant first |
| UpgradeWire.EntryDecoded | star_protocol-develop/src/cmdParser.cpp:3026-3071 | tag 5 appends an entry with the last hardware code and version inside it, whatever other tags it holds |
| UpgradeWire.EntryOverrun | star_protocol-develop/src/cmdParser.cpp:3045-3049 | an entry whose last TLV runs past its end: -2 |
| UpgradeWire.RequestOverrun | star_protocol-develop/src/cmdParser.cpp:2974-2978 | a TLV that runs past the data: -2, with what was read before |
| UpgradeWire.OtherTags | star_protocol-develop/src/cmdParser.cpp:3072-3075 | any other tag: decoding goes on inside its value |
| UpgradeCut.CutDiffers | star_protocol-develop/src/cmdParser.cpp:2950-3079 | no proper prefix of what was written for a request decodes to the request |
| UpgradeCut.ComesBackExactly | star_protocol-develop/src/cmdParser.cpp:2950-3079 | the first n bytes decode to the request if and only if they are all the bytes and the request is canonical |
| Upgrade.FirmwareReadBack | star_protocol-develop/src/cmdParser.cpp:3033-3061 | the inner decoder loop restores one firmware entry from its two TLVs |
| Upgrade.ItemsReadBack | star_protocol-develop/src/cmdParser.cpp:2966-3079 | the outer loop appends all firmware entries in order |
| UpgradeUnknown.UnknownSkippedExactly | star_protocol-develop/src/cmdParser.cpp:3073-3075 | an unknown TLV might as well not be there, whatever follows it and was read before, if and only if its value is harmless: empty, or a TLV with an unknown tag that ends within it and whose own value and what follows are harmless too |
| UpgradeUnknown.HarmlessSkipped | star_protocol-develop/src/cmdParser.cpp:2966-3079 | at any position, harmless bytes are passed over without an effect |
| UpgradeUnknown.HarmShows | star_protocol-develop/src/cmdParser.cpp:2966-3079 | bytes that are not harmless leave a member or an error behind |
| UpgradeUnknown.UnknownTagRead | star_protocol-develop/src/cmdParser.cpp:3073-3075 | an unknown TLV whose value looks like a url is read as that url |
| UpgradeUnknown.DecodingShifted | star_protocol-develop/src/cmdParser.cpp:2966-3079 | decoding depends on the bytes that are left and not on where they stand |
| Upgrade.StrayExactly | star_protocol-develop/src/cmdParser.cpp:3865-3880 | the encoder stores a byte behind the room if and only if the url has more than 127 bytes and the room ends with its last but one; it then fails with -1 |
| Upgrade.UrlBehindRoom | star_protocol-develop/src/cmdParser.cpp:3870-3878 | for every url of 128 to 256 bytes there is a room for which that happens |
| UpgradeBuffers.WriteRequest | star_protocol-develop/src/cmdParser.cpp:2865-2948 | j2b returns the byte count or the exact error code and leaves the specified bytes in the buffer; the byte behind the room is the url's last exactly when the url's room test lets it through, and unchanged otherwise |
| UpgradeBuffers.WriteHead | star_protocol-develop/src/cmdParser.cpp:2904-2907 | the four leading parameters, each in what the ones before it leave, with the same byte behind the room |
| UpgradeBuffers.WriteItemsFrom | star_protocol-develop/src/cmdParser.cpp:2909-2939 | the firmware entries one after another, or the code of the first that fails |
| UpgradeBuffers.WriteItem | star_protocol-develop/src/cmdParser.cpp:2911-2938 | the tag, a gap, the two parameters, then the length patched into the gap; or the exact error code |
| UpgradeBuffers.WriteEntry | star_protocol-develop/src/cmdParser.cpp:2924-2926 | the two parameters of an entry; never behind the room |
| UpgradeBuffers.WriteParamBytes | star_protocol-develop/src/cmdParser.cpp:3901-3930 | tag, length and bytes of the hexadecimal text; refused exactly when they do not fit or are not hexadecimal |
| UpgradeBuffers.WriteParamString | star_protocol-develop/src/cmdParser.cpp:3856-3880 | tag, length and the string cut to the limit; refused exactly below three bytes more than the string, or two above 127 bytes; in the latter case with just that room its last byte is stored behind the room |
| UpgradeBuffers.WriteParamU32 | star_protocol-develop/src/cmdParser.cpp:3795-3812 | tag, length and four big-endian bytes; refused exactly below six bytes of room |
| UpgradeBuffers.ReadFirmware | star_protocol-develop/src/cmdParser.cpp:3033-3066 | the inner loop computes the specified entry, or fails exactly when a TLV runs past it |
| UpgradeBuffers.ReadRequest | star_protocol-develop/src/cmdParser.cpp:2950-3079 | b2j returns the specified code and leaves the members read so far |
| DottedQuad.IpRoundTrip | star_protocol-develop/src/utils.cpp:132-142 | the address printed for a 32-bit number parses back to it |
| DottedQuad.OctalPart | star_protocol-develop/src/utils.cpp:132-142 | a part with a leading zero is octal: 1.2.3.010 is printed as 1.2.3.8 |
| DottedQuad.NoAddress | star_protocol-develop/src/utils.cpp:132-135 | a text that does not begin with a digit gives all ones |
| DottedQuad.FiveParts | star_protocol-develop/src/utils.cpp:132-135 | so does a fifth part |
| DottedQuad.FewerParts | star_protocol-develop/src/utils.cpp:132-135 | with fewer parts the last one fills the bytes that are left |
| DottedQuad.RadixForms | star_protocol-develop/src/utils.cpp:132-135 | hexadecimal and octal parts |
| DottedQuad.DecimalForms | star_protocol-develop/src/utils.cpp:132-135 | parts of several bytes, and what may stand behind an address |
| ConfigRequest.TwoPassLength | star_protocol-develop/src/cmdParser.cpp:1816-1872 | the length summed in the first pass equals the bytes written by the second if and only if every list has fewer than 2^13 names; otherwise it is too small |
| ConfigRequest.ModuleLength | star_protocol-develop/src/cmdParser.cpp:1826-1871 | the same for one module |
| ConfigRequest.PropsReadBack | star_protocol-develop/src/cmdParser.cpp:1971-1981 | the property loop appends the written names to the module's list, in order |
| ConfigRequest.ModulesReadBack | star_protocol-develop/src/cmdParser.cpp:1954-1985 | the module loop restores every non-empty list under its module's name |
| ConfigRequest.ListReadBack | star_protocol-develop/src/cmdParser.cpp:1950-1988 | the whole list comes back without its empty lists; null if none is left |
| ConfigRequest.ReadBack | star_protocol-develop/src/cmdParser.cpp:1763-1996 | within the two-byte lengths, whatever request is accepted decodes to its normal form |
| ConfigRequest.RoundTripExactly | star_protocol-develop/src/cmdParser.cpp:1763-1996 | an accepted request comes back as itself if and only if it is canonical; the documented request for all modules with an empty object is not, it comes back with null |
| ConfigRequest.LongReqidRefused | star_protocol-develop/src/cmdParser.cpp:1928-1942 | an id of more than 16 bytes is written without complaint and refused by the reader with -2 |
| ConfigWire.WrittenExactly | star_protocol-develop/src/cmdParser.cpp:1763-1886 | a request is accepted if and only if its members are formed as they must be, its list names known modules and properties, and type and id fit |
| ConfigWire.WrittenAs | star_protocol-develop/src/cmdParser.cpp:1763-1886 | within the limits of the reader what is written, and what a walk over it finds, is tag 1 with the low byte of the type, if there is one, tag 2 with the id, and tag 3 without a value or tag 4 with one TLV for each module, holding index and zero for each property |
| ConfigWire.ListWalked | star_protocol-develop/src/cmdParser.cpp:1842-1876 | a walk over the list finds the modules in key order |
| ConfigWire.TlvDecoded | star_protocol-develop/src/cmdParser.cpp:1903-1949 | tags 1, 2 and 3 read from any data: one byte of type, up to 16 bytes of id, -2 for any other length, the flag; other tags are skipped |
| ConfigWire.ListDecoded | star_protocol-develop/src/cmdParser.cpp:1950-1988 | tag 4 replaces both members by the list read from its TLVs, null for an empty one |
| ConfigWire.RequestOverrun | star_protocol-develop/src/cmdParser.cpp:1903-1914 | a TLV that runs past the data: -1, with what was read before |
| ConfigCut.CutLosesFlag | star_protocol-develop/src/cmdParser.cpp:1890-1996 | a proper prefix of what was written for a request decodes without its list and its flag |
| ConfigCut.ComesBackExactly | star_protocol-develop/src/cmdParser.cpp:1763-1996 | the first n bytes decode to the request if and only if they are all the bytes and the request is canonical |
| ConfigDefined.EncodingUndefinedExactly | star_protocol-develop/src/cmdParser.cpp:1848-1872 | the encoder goes through a null pointer if and only if the request is well typed and, in writing order, the first thing wrong with its lists is a name that the module does not have |
| ConfigDefined.PropsOutcome | star_protocol-develop/src/cmdParser.cpp:1860-1872 | a list is written if and only if all entries are known names, and undefined if and only if the first that is not is a string |
| ConfigDefined.DecodingDefinedExactly | star_protocol-develop/src/cmdParser.cpp:1903-1996 | the decoder is defined if and only if every list it comes to, before an error, names only known properties of the modules it knows |
| ConfigDefined.ListDefinedExactly | star_protocol-develop/src/cmdParser.cpp:1954-1985 | the same for one list, module by module |
| ConfigDefined.PropsDefinedExactly | star_protocol-develop/src/cmdParser.cpp:1971-1981 | the same for one module: every second byte of its value is the index of a property |
| ConfigBuffers.WriteRequest | star_protocol-develop/src/cmdParser.cpp:1763-1887 | j2b leaves as much of the specified bytes as fits the room and returns that count, or -1; a short room cuts the message off without an error |
| ConfigBuffers.AnnouncedLength | star_protocol-develop/src/cmdParser.cpp:1816-1841 | the first pass: the announced length, or none exactly when a member is not a list |
| ConfigBuffers.WriteModules | star_protocol-develop/src/cmdParser.cpp:1848-1872 | the second pass: every module with its length and properties, failing exactly at an unknown module or a name that is no string |
| ConfigBuffers.WriteProps | star_protocol-develop/src/cmdParser.cpp:1860-1872 | an index and a zero length for every property |
| ConfigBuffers.WriteReqid | star_protocol-develop/src/cmdParser.cpp:1785-1795 | the id after its tag and length, with the room tested only for its bytes |
| ConfigBuffers.WriteType | star_protocol-develop/src/cmdParser.cpp:3757-3773 | the optional type byte; refused exactly below three bytes of room |
| ConfigBuffers.ReadProps | star_protocol-develop/src/cmdParser.cpp:1971-1981 | the property loop computes the specified list |
| ConfigBuffers.ReadModules | star_protocol-develop/src/cmdParser.cpp:1954-1985 | the module loop computes the specified object |
| ConfigBuffers.ReadRequest | star_protocol-develop/src/cmdParser.cpp:1890-1996 | b2j returns the specified code and leaves the members read so far |
| Buffers.UptoJoin | star_protocol-develop/src/utils.cpp:60-68 | filling a limited room part by part leaves the same bytes as cutting off the whole |
| Octets.BigEndianRoundTrip | star_protocol-develop/src/utils.cpp:70-130 | writing a number in w bytes and reading it back cuts it to w bytes |
| Octets.FromBigEndianRoundTrip | star_protocol-develop/src/utils.cpp:70-130 | bytes are the big-endian form of the number they hold |
| Octets.HexRoundTrip | star_protocol-develop/src/utils.cpp:225-264 | hexadecimal text decoded and printed gives its whole pairs in upper case |
| Octets.TwoBytes | star_protocol-develop/src/utils.cpp:70-79 | the two bytes of a number, the high one first |
| Octets.FourBytes | star_protocol-develop/src/utils.cpp:81-92 | the four bytes of a number |
| Octets.EightBytes | star_protocol-develop/src/utils.cpp:94-109 | the eight bytes of a number |
| Octets.FourBytesRead | star_protocol-develop/src/utils.cpp:121-124 | the number in four bytes |
| Octets.EightBytesRead | star_protocol-develop/src/utils.cpp:126-130 | the number in eight bytes |
| Octets.HexRead | star_protocol-develop/src/utils.cpp:225-264 | the sixteen digits in both cases, and an odd one left over |
| Octets.HexNeighbours | star_protocol-develop/src/utils.cpp:225-243 | no other character is a digit at the edges of the three ranges |
| Calendar.NextDayNumber | star_protocol-develop/src/myTime.h:307-322 | the closed-form day number grows by exactly one from each date to the next: month ends, leap days, centuries |
| Calendar.AdvanceDayNumber | star_protocol-develop/src/myTime.h:307-322 | getDayDiff between a date and the one n calendar steps later is n, both ways |
| Calendar.StepsBetween | star_protocol-develop/src/myTime.h:307-322 | of two dates the later is reached from the earlier by calendar steps |
| Calendar.DayNumberInjective | star_protocol-develop/src/myTime.h:307-322 | no two dates share a day number |
| Calendar.DateDecAdd | star_protocol-develop/src/timeutils.cpp:35-53 | dateDec undoes dateAdd |
| Calendar.SixteenBitYears | star_protocol-develop/src/timeutils.cpp:35-40 | 16-bit day counts from 2000-01-01 stay within four-digit years |
| Calendar.YearLength | star_protocol-develop/src/myTime.h:307-322 | 366 days when 4 divides the year and not 100, or 400 does; otherwise 365 |
| Calendar.MonthTable | star_protocol-develop/src/myTime.h:307-322 | the lengths of the twelve months |
| Calendar.FourCenturies | star_protocol-develop/src/myTime.h:307-322 | four centuries are 146097 days from any date |
| Calendar.DaysCarry | star_protocol-develop/src/timeutils.cpp:42-53 | months and days past their range carry over, as mktime does |
| Calendar.NoDaysBack | star_protocol-develop/src/timeutils.cpp:42-53 | an end before the start counts no days |
| SerialNumber.PackUnpack | star_protocol-develop/src/utils.cpp:144-210 | packing the five fields of a 64-bit identifier gives the identifier back |
| SerialNumber.ScanDecimal | star_protocol-develop/src/utils.cpp:176-198 | a number printed in fixed width is scanned back, whatever follows |
| SerialNumber.ParseText | star_protocol-develop/src/utils.cpp:176-210 | the text form of any fields, with any five-character number the scanner accepts, parses to the packed fields |
| SerialNumber.SerialRoundTrip | star_protocol-develop/src/utils.cpp:144-210 | str2devid undoes devid2str on every 64-bit identifier |
| SerialNumber.SerialInjective | star_protocol-develop/src/utils.cpp:144-174 | different identifiers never print alike |
| SerialNumber.TwinString | star_protocol-develop/src/utils.cpp:176-210 | some strings that devid2str never prints parse to the same identifier as a printed one |
| SerialNumber.PrintedIsCanonical | star_protocol-develop/src/utils.cpp:144-210 | every printed serial number is a canonical one |
| SerialLayout.CustomerDate | star_protocol-develop/src/utils.cpp:212-223 | the eight digits of a customer number are the date that many days after the first of January 2000 |
| SerialLayout.SerialColumns | star_protocol-develop/src/utils.cpp:144-174 | every column of a printed serial number: types, customer id, the date that many days after the first of January 2000, device number |
| SerialLayout.ParsedColumns | star_protocol-develop/src/utils.cpp:176-210 | the identifier of any text of the printed shape, field by field and bit by bit, with its days counted from the first of January 2000 |
| SerialLayout.DaysFrom2000 | star_protocol-develop/src/utils.cpp:200-201 | a date before 2000 counts no days |
| SerialLayout.WrongLength | star_protocol-develop/src/utils.cpp:178-181 | a text not of 28 characters has no identifier |
| SerialLayout.FirstCustomer | star_protocol-develop/src/utils.cpp:212-223 | customer id 0 is 20000101 |
| SerialLayout.ExampleSerial | star_protocol-develop/src/utils.cpp:144-210 | one serial number in full, printed and parsed |
| DevidCache.TransparentEntries | star_protocol-develop/src/utils.h:64-93 | the cache answers all calls like the conversions if and only if every stored entry is right |
| DevidCache.TransparentStep | star_protocol-develop/src/utils.h:64-93 | a call keeps the cache transparent if and only if its string is canonical or already known |
| DevidCache.RunTransparent | star_protocol-develop/src/utils.h:64-93 | over every run of canonical calls each answer is the uncached one |
| DevidCache.TransparentExactly | star_protocol-develop/src/utils.h:64-93 | a run leaves the cache transparent all along if and only if every call in it is canonical |
| DevidCache.FromEmptyExactly | star_protocol-develop/src/utils.h:64-94 | a process that starts with an empty cache never notices it if and only if all its strings are canonical |
| DevidCache.TwinStringAnswered | star_protocol-develop/src/utils.h:64-93 | after one call with a non-canonical string, asking for its identifier gives that string back |
| DevidCache.ComesBackExactly | star_protocol-develop/src/termMessageImp.cpp:139-142 | between transparent caches exactly the printed serial numbers that are sent along come back, and the empty text |
| DevidCache.PrintedComeBackExactly | star_protocol-develop/src/termMessageImp.cpp:336-336 | from a transparent cache every printed serial number comes back if and only if the receiver's stored names are right |
| DevidCache.TwinComesBackInstead | star_protocol-develop/src/termMessageImp.cpp:336-336 | a receiver that once parsed the twin of a printed serial number prints the twin instead |
| DevidCache.OneProcess | star_protocol-develop/src/termMessageImp.cpp:139-142 | within one process even a string that is no printed form comes back, as its first use taught the cache |
| DevidCache.Cache.Devid2Str | star_protocol-develop/src/utils.h:64-79 | the object's maps and answer follow the specified step |
| DevidCache.Cache.Str2Devid | star_protocol-develop/src/utils.h:80-94 | the object's maps and answer follow the specified step |
| DevidCache.Cache.CustomerNo | star_protocol-develop/src/utils.h:95-109 | the cached customer number is the computed one |
| DevidCache.LearnsPair | star_protocol-develop/src/utils.h:64-94 | a call that misses teaches the cache both ways and nothing else; one that hits teaches nothing |
| ObjectPool.Node.InsertAsHead | star_pushersvr-develop/star_pushersvr/codec/objlist.cpp:20-29 | the list with the object in front, well linked, its head the object |
| ObjectPool.Node.InsertAsTail | star_pushersvr-develop/star_pushersvr/codec/objlist.cpp:31-50 | the list with the object behind it, well linked, its head unchanged unless it was empty |
| ObjectPool.Node.RmSelf | star_pushersvr-develop/star_pushersvr/codec/objlist.cpp:52-73 | from any position: the sequence without the object, well linked, and its true head |
| ObjectPool.FirstFrom | star_pushersvr-develop/star_pushersvr/codec/objlist.cpp:57-62 | following the pre pointers ends at the first node |
| ObjectPool.WithoutLinked | star_pushersvr-develop/star_pushersvr/codec/objlist.cpp:52-73 | when just the neighbours of a node point past it, the remaining sequence is well linked |
| ObjectPool.LinkedUnique | star_pushersvr-develop/star_pushersvr/codec/objlist.cpp:20-73 | the pointers from a head determine the sequence, so the list can be nothing else |
| ObjectPool.WalkVisits | star_pushersvr-develop/star_pushersvr/codec/objlist.cpp:75-78 | following the next pointers ends after meeting every node once, in order |
| ObjectPool.Pool.Init | star_pushersvr-develop/star_pushersvr/codec/objPool.h:11-22 | adds just the requested number of new objects in front and counts them |
| ObjectPool.Pool.GetObj | star_pushersvr-develop/star_pushersvr/codec/objPool.h:36-49 | hands out the object returned last, or a new one when none is spare; never one that is already out |
| ObjectPool.Pool.ReleaseObj | star_pushersvr-develop/star_pushersvr/codec/objPool.h:51-57 | takes an object that is out back to the front of the spare ones |
| ObjectPool.Pool.Clear | star_pushersvr-develop/star_pushersvr/codec/objPool.h:24-34 | removes every spare object; the counters stay right if and only if there was none |
| PlayList.OrderIsOrder | star_pushersvr-develop/star_pushersvr/stream/fileStream.cpp:474-514 | whatever rand() returns, the order of a cycle has every file once, and is 0..n-1 in sequential mode |
| PlayList.EveryOrderOccurs | star_pushersvr-develop/star_pushersvr/stream/fileStream.cpp:486-514 | in random mode every permutation of the files can come up |
| PlayList.PushedOnSchedule | star_pushersvr-develop/star_pushersvr/stream/fileStream.cpp:263-303 | over every run the files pushed are a prefix of orders strung together, each a permutation of the files |
| PlayList.CountDown | star_pushersvr-develop/star_pushersvr/stream/fileStream.cpp:263-303 | an undisturbed run with a cycle count takes exactly one start, one check per file and one end per cycle |
| PlayList.AllCyclesPlayed | star_pushersvr-develop/star_pushersvr/stream/fileStream.cpp:263-303 | with a cycle count, neither stopped nor failing, the run ends after just that many cycles and has pushed every file exactly that often |
| PlayList.LooksPerCycle | star_pushersvr-develop/star_pushersvr/stream/fileStream.cpp:263-303 | how many looks n cycles take |
| PlayList.NeverEnds | star_pushersvr-develop/star_pushersvr/stream/fileStream.cpp:263-303 | without a cycle count, a stop, a failure and the end of the time limit, a run never ends |
| PlayList.EndlessCycles | star_pushersvr-develop/star_pushersvr/stream/fileStream.cpp:263-303 | after n cycles such a run has pushed every file n times |
| PlayList.HaltedRun | star_pushersvr-develop/star_pushersvr/stream/fileStream.cpp:263-303 | a run that is stopped, or out of time without a cycle count, pushes nothing more and is over two looks later |
| PlayList.FailureIsLast | star_pushersvr-develop/star_pushersvr/stream/fileStream.cpp:285-291 | a file that cannot be pushed is the last one |
| PlayList.ShuffleExample | star_pushersvr-develop/star_pushersvr/stream/fileStream.cpp:486-514 | the order for three given draws |
| PlayList.JumpSequential | star_pushersvr-develop/star_pushersvr/httpServer/fileStreamJumpHandler.cpp:54-58 | after a jump to i exactly i+1..n-1 are pending in sequential mode |
| PlayList.JumpRandom | star_pushersvr-develop/star_pushersvr/httpServer/fileStreamJumpHandler.cpp:54-58 | in random mode exactly the other pending files stay, each once and in their old relative order |
| PlayList.JumpPlays | star_pushersvr-develop/star_pushersvr/httpServer/fileStreamJumpHandler.cpp:54-58 | a jump plays its file at once and changes nothing but the queue |
| PlayList.UpdatedOutside | star_pushersvr-develop/star_pushersvr/stream/fileStream.cpp:819-855 | an index no file has empties the queue in sequential mode and is put in front in random mode |
| PlayList.RemovedOrder | star_pushersvr-develop/star_pushersvr/stream/fileStream.cpp:835-853 | leaving one file out keeps the relative order of any two others |
| PlayList.RunTidy | star_pushersvr-develop/star_pushersvr/stream/fileStream.cpp:263-303 | over every run with jumps no file is pending twice, and in sequential mode the pending files are the last ones in sequence |
| FileStream.Shuffle | star_pushersvr-develop/star_pushersvr/stream/fileStream.cpp:489-508 | the in-place swaps give the specified shuffle of the array |
| FileStream.Stream.CreatePlayStack | star_pushersvr-develop/star_pushersvr/stream/fileStream.cpp:474-514 | the queue is emptied and then holds the order of the next cycle |
| FileStream.Stream.Svr | star_pushersvr-develop/star_pushersvr/stream/fileStream.cpp:263-303 | the nested loops leave exactly the state of the specified run, for any stop flag, clock, rand() and push results |
| FileStream.RunOver | star_pushersvr-develop/star_pushersvr/stream/fileStream.cpp:263-303 | a run that has ended or failed stays as it is |
| FileStream.Stream.UpdatePlayStack | star_pushersvr-develop/star_pushersvr/stream/fileStream.cpp:819-855 | the queue becomes the specified one for any index, in and out of range |
| FileStream.Stream.Jump | star_pushersvr-develop/star_pushersvr/httpServer/fileStreamJumpHandler.cpp:54-58 | reordering, taking the file off and playing it is the specified jump, and the file taken off is the one asked for |
| FileStream.MessageQueue.Push | star_pushersvr-develop/star_pushersvr/common/messageQueue.h:122-132 | appends at the back |
| FileStream.MessageQueue.Pop | star_pushersvr-develop/star_pushersvr/common/messageQueue.h:76-96 | takes the front, or nothing from a stopped and empty queue |
| FileStream.MessageQueue.Start | star_pushersvr-develop/star_pushersvr/common/messageQueue.h:47-53 | empties the queue and lets it run |
| FileStream.MessageQueue.Stop | star_pushersvr-develop/star_pushersvr/common/messageQueue.h:55-65 | empties the queue and ends waiting |
| Pacing.NotEarly | star_pushersvr-develop/star_pushersvr/stream/streamInImp.cpp:423-463 | a frame whose wait fits 32 bits is not released before start + media time + accounted pauses |
| Pacing.NotEarlyExactly | star_pushersvr-develop/star_pushersvr/stream/streamInImp.cpp:454-457 | with a sleep as long as asked for, a frame is on time if and only if the wait is below 2^32 |
| Pacing.OnTime | star_pushersvr-develop/star_pushersvr/stream/streamInImp.cpp:423-479 | a frame whose sleep takes as long as asked for is released when it is due, or at once when it is late, and no later |
| Pacing.SleepIsCut | star_pushersvr-develop/star_pushersvr/stream/streamInImp.cpp:454-457 | the sleep is the wait modulo 2^32 |
| Pacing.LastPlaysOut | star_pushersvr-develop/star_pushersvr/stream/streamInImp.cpp:465-479 | the last frame plays as long as the distance of the last two frames |
| Pacing.OneFrame | star_pushersvr-develop/star_pushersvr/stream/streamInImp.cpp:465-479 | the only frame of a stream has no length |
| Pacing.PausesCounted | star_pushersvr-develop/star_pushersvr/stream/streamInImp.cpp:481-493 | over every run without a seek the accounted pause time is the total of all closed pauses, each counted once and from its last start |
| Pacing.CaughtUp | star_pushersvr-develop/star_pushersvr/stream/streamInImp.cpp:423-493 | the clock never falls behind the last frame, so waits stay as short as the media steps and pauses between frames |
| Pacing.NeverEarly | star_pushersvr-develop/star_pushersvr/stream/streamInImp.cpp:423-493 | over every run with a monotone clock, no seek and steps below 2^32 between frames, no frame comes out early |
| Pacing.MediaFromFirst | star_pushersvr-develop/star_pushersvr/stream/streamInImp.cpp:428-434 | media time is counted from the first frame, unless its time stamp is the -1 that means unset |
| Pacing.UnsetStamp | star_pushersvr-develop/star_pushersvr/stream/streamInImp.cpp:428-434 | a first frame at time stamp -1 does not count as the first |
| Pacing.SeekRebases | star_pushersvr-develop/star_pushersvr/stream/streamInImp.cpp:442-448 | after a seek the next frame is due at once, or as much later as the pause it closes has lasted |
| Pacing.SeekWaits | star_pushersvr-develop/star_pushersvr/stream/streamInImp.cpp:314-340 | a seek takes effect with the next frame, whatever comes between |
| StreamIn.Reader.AudioTime | star_pushersvr-develop/star_pushersvr/stream/streamInImp.cpp:423-463 | one frame changes the fields as specified and sleeps the specified time |
| StreamIn.Reader.LastFrameDelay | star_pushersvr-develop/star_pushersvr/stream/streamInImp.cpp:465-479 | the last frame is paced to its end |
| StreamIn.Reader.Pause | star_pushersvr-develop/star_pushersvr/stream/streamInImp.cpp:481-484 | a pause starts, replacing the start of one already open |
| StreamIn.Reader.Resume | star_pushersvr-develop/star_pushersvr/stream/streamInImp.cpp:486-493 | an open pause is added and closed |
| StreamIn.Reader.SeekFile | star_pushersvr-develop/star_pushersvr/stream/streamInImp.cpp:314-340 | marks the reader so that the next frame starts the clock anew |
| Adts.SettersReadBack | star_pushersvr-develop/star_pushersvr/stream/AAC_ADTS.cpp:12-180 | after any sequence of setter calls the parser accepts the header and reads back the last rate number, the last channel count modulo 4, the last length modulo 8192, and the constants; the ID setter lands in protection_absent, and the copyright-start mark is read from a bit of the length |
| Adts.FreshBytes | star_pushersvr-develop/star_pushersvr/stream/AAC_ADTS.cpp:12-22 | the seven bytes a new header starts with |
| Adts.RateReadBack | star_pushersvr-develop/star_pushersvr/codec/audioParserAac.cpp:94-115 | the parser's rate table inverts the builder's choice exactly for the thirteen rates of the format |
| Adts.FrameLengthField | star_pushersvr-develop/star_pushersvr/stream/AAC_ADTS.cpp:158-170 | setting the length changes the parsed length, the mark that the parser reads from one of its bits, and no other field |
| Adts.ChannelsField | star_pushersvr-develop/star_pushersvr/stream/AAC_ADTS.cpp:132-136 | setting the channel count changes its two bits and no other field |
| Adts.RateField | star_pushersvr-develop/star_pushersvr/stream/AAC_ADTS.cpp:61-125 | setting the rate number changes that field and no other |
| Adts.StripsWhatWasAdded | star_pushersvr-develop/star_pushersvr/stream/fileStream.cpp:721-727 | prefixing and stripping gives the packet back if and only if it was given a header or is too short to carry one |
| Adts.PrefixDescribes | star_pushersvr-develop/star_pushersvr/stream/streamInImp.cpp:259-292 | a prefixed frame announces its rate, its channels exactly up to 3, and its own length exactly below 8192 bytes |
| AdtsWire.BuiltBytes | star_pushersvr-develop/star_pushersvr/stream/AAC_ADTS.cpp:12-180 | every byte of the builder after any sequence of setter calls |
| AdtsWire.RateNumbers | star_pushersvr-develop/star_pushersvr/stream/AAC_ADTS.cpp:61-125 | the thirteen rates and their numbers, and 13 for all others |
| AdtsWire.EveryField | star_pushersvr-develop/star_pushersvr/codec/audioParserAac.cpp:45-71 | of a header with any fields the parser reads every one, but a bit of the length for the copyright start |
| AdtsWire.SyncWordNeeded | star_pushersvr-develop/star_pushersvr/codec/audioParserAac.cpp:45-71 | a header is one if and only if it begins with twelve one bits |
| AdtsWire.HeaderNeeded | star_pushersvr-develop/star_pushersvr/stream/streamInImp.cpp:261-276 | which frames are given a header: AAC from RTMP and RTSP, and other AAC exactly without the twelve bits |
| AdtsWire.FramedBytes | star_pushersvr-develop/star_pushersvr/stream/streamInImp.cpp:259-292 | every byte of a frame that is handed on |
| AdtsWire.HandedOnWithHeader | star_pushersvr-develop/star_pushersvr/stream/streamInImp.cpp:259-292 | every AAC frame of two bytes or more is handed on with twelve one bits in front |
| AdtsWire.StrippedBytes | star_pushersvr-develop/star_pushersvr/stream/fileStream.cpp:721-727 | an AAC output gets a frame without its first seven bytes, any other output the whole |
| StreamIn.AacAdts.SampleRateIndex | star_pushersvr-develop/star_pushersvr/stream/AAC_ADTS.cpp:61-125 | sets the rate bits of the byte buffer in place |
| StreamIn.AacAdts.ChannelConfiguration | star_pushersvr-develop/star_pushersvr/stream/AAC_ADTS.cpp:132-136 | sets the channel bits in place |
| StreamIn.AacAdts.AacFrameLength | star_pushersvr-develop/star_pushersvr/stream/AAC_ADTS.cpp:158-170 | sets the length bits in place |
| StreamIn.Reader.ReadData | star_pushersvr-develop/star_pushersvr/stream/streamInImp.cpp:259-293 | the frame buffer, grown when too small, holds the packet behind the header it needs |

## Left out

- Schema.Limit: declared string and byte-string lengths are below 2^14, since longer values need a third length byte that the reader does not add in and the room test for strings does not count.
- SchemaBuffers.WriteString: for declared lengths below 2^14, as for every Schema.Limit.
- Upgrade.Outcome: jsoncpp's exception on asking a member of a value that is neither object nor null is the code -1; appending to a member that is not an array, which it refuses, replaces the member.
- ConfigRequest.Outcome: what happens behind a null pointer is not modelled; ConfigDefined states exactly when it comes to that. A product without a model is not asked for.
- ConfigBuffers.WriteRequest: requires that the request is not one of those that ConfigDefined.EncodingUndefinedExactly describes.
- ConfigBuffers.WriteModules: requires lists that do not meet an unknown property.
- ConfigBuffers.WriteProps: requires a list that does not meet an unknown property.
- ConfigBuffers.ReadRequest: requires data that ConfigDefined.DecodingDefinedExactly shows to be defined.
- ConfigBuffers.ReadModules: requires a list that ConfigDefined.ListDefinedExactly shows to be defined.
- ConfigBuffers.ReadProps: requires a value that ConfigDefined.PropsDefinedExactly shows to be defined.
- ConfigRequest.Fits: the read-back theorems are for ids up to 16 bytes, lists below 2^13 names and a list part below 2^14 bytes, the limits of the reader; beyond them the length theorem and the refusal of long ids say what happens.
- TermMessage.Message.InitFromTermPackage: requires that the parts a package announces lie within it and that its body fits the message buffer; the source checks neither and copies all the same.
- TermMessage.Message.OpenWith: requires a package whose announced parts lie within it.
- TermMessage.Message.AddBody: requires a body that fits the message buffer.
- TermMessage.Message.MakePackages: the branch for more than 255 slices cannot be reached, as a 16-bit length gives at most 64; time stamps are a parameter.
- UpgradeBuffers.PatchLength: the branch for firmware entries of more than 127 bytes cannot be reached, as an entry has at most 40.
- JsonMessage.InitFromJson: the length of the printed parameters, which sizes the buffer, is a parameter; PrintedLength bounds it from below by the characters, quotes, colons and brackets that any printer needs. The conversions in the debug trace are not part of the model, and a request that takes the parser through a null pointer is excluded.
- JsonMessage.GetJsonMsg: excludes payloads that take the parser through a null pointer.
- WholeStack.Modelled: the exact end-to-end law is for well-formed models and for get-configuration requests within ConfigRequest.Fits; sender and receiver look commands up in the same way.
- JsonValue.Json: reals, and the difference between signed and unsigned integers, are not part of the model; null is neither an array nor an object; names do not contain NUL.
- SerialNumber.ScanNumber: white space and signs, which sscanf also accepts in front of a number, are not scanned.
- DottedQuad.Str2Ip: inet_addr is that of the GNU C library; other systems differ in what they accept behind an address.
- Calendar.DateAdd: mktime and localtime are the calendar's day count, without time zones and daylight saving.
- Tlv.Memory: bytes read past the end of the data are arbitrary.
- PlayList.Step: the branch for a cycle in which all files failed cannot be reached, as a failed file leaves the loop; a restart, which keeps the cycle count, is not part of the model.
- PlayList.Jump: the jump handler and the player's reaction are one atomic step; opening and seeking the file are not part of the model.
- FileStream.Stream.Jump: for an index out of range only the queue update is stated, since the handler then waits on an empty queue or indexes the list out of bounds.
- FileStream.MessageQueue.Pop: requires a message or a stopped queue; waiting and time limits are not part of the model.
- Pacing.NeverEarly: runs without seeks; the single-frame theorems hold with seeks too.
- StreamIn.Reader.ReadData: reading packets, FFmpeg and frame durations in floating point are not part of the model.
- StreamIn.Reader.SeekFile: stands for a seek that succeeds; its checks and the media library's own seek are not part of the model.
- ObjectPool.Pool: the pooled objects' own contents, their constructor parameter and clear function are not part of the model.
- ObjectPool.Pool.ReleaseObj: requires an object that is out; one that is already in the list would be linked to itself.
- DevidCache.Cache: printing the map sizes at destruction is not part of the model.
- Real interleavings inside locked calls: every locked call is one atomic step.
- 32-bit overflow of lengths, cycle counts and 64-bit times is not modelled, except where the source truncates.
- SliceAck.MakeSliceAck: requires a buffer for the whole acknowledgement and a package that has the parts copied from it; the source tests for 24 bytes of room alone. The host is little-endian.
- TermPackage.Verify: a package whose start is wrong and that is too short makes verify throw from within its trace; with traces compiled out it would be rejected.
- UpgradeWire.EntryDecoded: is stated for version TLVs of four bytes or more; a shorter one reads on behind its value.
- UpgradeWire.SizeDecoded: is stated for a size with four bytes of data at its place; with fewer the source reads past the data.
- The other command parsers, commandModel's own initialisation from JSON, validation and text conversion of values: flat, repetitive or not mirror images.
- MemoryPool, ListPool, MP3 tables, the stream query handlers, sockets, HTTP, configuration, logging and dialogs.

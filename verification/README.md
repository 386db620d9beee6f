# Verified models of the simulator's bundled libraries

The simulator stands on a handful of C libraries that come with it. This project models the logic
of five of them in Dafny and proves what they are for.

* **libmodbus** (`Modbus*.dfy`). Client calls, framing for RTU and TCP, the incremental receiver,
  the server over its four tables, the response check, bit packing and the table-driven CRC. The
  main result is a refinement: every sequence of calls that travels as bytes, over a line that may
  fragment them, does what the same calls do on four plain arrays.
* **cJSON** (`CJson*.dfy`). The two-pass string decoder, the recursive-descent parser and the
  printer on their buffers, and the sibling lists with their "the first node's prev is the last
  node" rule. The parser builds the linked items as it goes. Every text of RFC 8259 is followed
  through the parser, and whatever the parser accepts is shown to be a text; the round trip follows,
  since printed text is such a text.
  Numbers are tokens of a codec; the round trip is for values whose numbers read back, which not
  every double does: the source prints 15 digits when those are close enough.
* **zlog** (`Zlog*.dfy`). The chained hash table with rehash, the sorted array list and the log
  rotation it drives, the size-limited buffer with its truncation marker, the level bitmap and the
  update/commit/rollback transaction of categories, and the time-string cache.
* **paho MQTT** (`MqttPacket.dfy`, `Base64.dfy`). The variable-length field, PUBLISH at version
  3.1.1 from the sender to the receiver, and the built-in Base64 coder.
* **snowid and the day count** (`SnowId.dfy`, `DayCount.dfy`).

The C code that changes things step by step is modelled by methods over arrays, linked objects and
fields, each proved against a function that says what it computes; the properties are lemmas about
those functions. What a function and its partner could get wrong together, a code, a limit, a byte
order, is stated once more in plain numbers or characters (`ModbusNumbers.dfy`, the grammar of
`CJsonGrammar.dfy`, and the lemmas called InNumbers, Is and Example). Messages and texts are
sequences of bytes. The protocols' standards are the MODBUS Application Protocol V1.1b (chapter 6),
the CRC appendix of MODBUS over Serial Line V1.02, RFC 8259 (sections 2 to 8), RFC 3629 (section 3),
RFC 4648 (section 4) and MQTT 3.1.1 (sections 2.2.3 and 3.3).

Where the code does less than one would expect, the model keeps the code as it is and the project
proves exactly when it does what is expected:

* The MODBUS server does not compare the byte count of a block write with its quantity. A message
  that is too short passes the receiver and stores what an earlier one left in the buffer
  (`ModbusStale.BlockWriteIsSelfContained`, with such a message in
  `ModbusStale.ShortMessageIsTaken`).
* cJSON accepts two kinds of string literals that section 7 of RFC 8259 forbids: `\u` without its
  four hexadecimal digits, read as zero, and raw control characters
  (`CJsonString.AcceptedIsGrammarIffClean`, with inputs in `CJsonString.MalformedEscapeIsNul` and
  `CJsonString.ControlCharacterAccepted`). It refuses one kind that section 7 allows and section 8.2
  warns of, half a surrogate pair (`CJsonString.GrammarIsAcceptedIffPaired`, with an input in
  `CJsonString.LoneSurrogateRefused`).
* cJSON refuses texts of the standard that are nested more than 1000 deep or hold a number of more
  than 63 characters (`CJsonGrammar.StandardTextReads`, with an input in
  `CJsonGrammar.LongNumberRefused`).
* The cJSON parser keeps a NUL that it decodes from `\u0000`, but everything behind it takes the
  string for a C string. The printer stops at the first NUL, so a value is read back as it was only
  if no string or key holds one (`CJsonRoundTrip.ReadsItselfBack`, with an input in
  `CJsonRoundTrip.DecodedNulIsLost`).
* cJSON appends an item without clearing its `next`. An item that still points somewhere breaks a
  list that is not empty (`CJsonList.AddItemToArray`, with an input in
  `CJsonList.AppendingALinkedItem`).
* Rolling rotation renames by list position. With gaps among the archive indices a rename can fall
  on an archive that is still there (`ZlogRotater.RollKeepsAllIffNoGapHit`, with an input in
  `ZlogRotater.RollingLosesInAGap`).
* The MQTT sender does not check the sizes of what it packs (`MqttPacket.PublishRoundTrip`, with an
  input in `MqttPacket.WideMessageIdIsLost`), and `MQTTPacket_VBIlen` gives 4 for every length
  beyond the protocol's range (`MqttPacket.VbiLenIsLength`, with an input in
  `MqttPacket.VbiLenBeyond`).
* `Base64_encodeLength` wraps from 2^30 on (`Base64.EncodeLengthIsExact`, with an input in
  `Base64.EncodeLengthWraps`). `Base64_encode` with an output of a multiple of four characters that
  is too short fills it and reports its length (`Base64.Encode`, with an input in
  `Base64.HalfEncoded`).
* The snowid sequence number wraps at the 65537th id of a millisecond, or earlier in the one the
  generator starts in (`SnowId.RunIncreasesIffNoWrap`, `SnowId.WrapsIffTooMany`, with an input in
  `SnowId.StandingClockWraps`). Only the low 48 bits of a worker id reach its binary form
  (`SnowId.BinaryIsFaithful`, `SnowId.BinaryCollides`, with an input in `SnowId.WorkersCollide`).
* The time cache of zlog takes the second 0 for "not filled in yet": at 0 a spec writes nothing
  unless it has written at another second before (`ZlogTimeCache.TextIsFreshIff`, with an input in
  `ZlogTimeCache.ZeroIsTakenForUnused`).
* `zc_arraylist_set` makes room for an index only below twice the size
  (`ZlogArrayList.SetHasRoom`, with an input in `ZlogArrayList.NoRoomAtTwice`); the functions that
  insert stay below it.

`dafny verify dfyconfig.toml` checks the whole project.

## Model

| member | source | states |
|---|---|---|
| ModbusRefinement.RunRefinesPlain | component/libmodbus/src/modbus.c:773-1653 | any sequence of client calls over TCP, or over RTU to the server's own unit or the broadcast address, from any transaction number and with any leftovers in the server's receive buffer, returns the results and leaves the tables of the plain array machine; over RTU to any other unit every call fails and the tables stay as they are |
| ModbusRefinement.WireIsPlain | component/libmodbus/src/modbus.c:773-1653 | one call carried as bytes through builder, receiver, server, receiver and response check is the plain call over TCP, and over RTU to the own unit or the broadcast address; over RTU to another unit it fails and nothing changes |
| ModbusRefinement.PlainKeepsValid | component/libmodbus/src/modbus.c:773-1189 | coils stay 0 or 1, and a call that fails leaves every table as it was |
| ModbusRefinement.ServeIsPlain | component/libmodbus/src/modbus.c:773-1189 | whatever lies behind the request in the buffer, the server's tables and its response data unit are those the plain machine calls for |
| ModbusRefinement.ServeGetBits | component/libmodbus/src/modbus.c:796-871 | reading coils and inputs: the packed cells, or the exception, and no table change |
| ModbusRefinement.ServeGetRegisters | component/libmodbus/src/modbus.c:872-955 | reading registers: both tables, both limits, no table change |
| ModbusRefinement.ServePutOne | component/libmodbus/src/modbus.c:956-1012 | single writes: the request is echoed and exactly one cell changes, or an exception and none |
| ModbusRefinement.ServePutBits | component/libmodbus/src/modbus.c:1013-1051 | block write of coils from a request of the builder: exactly the addressed cells change, to the caller's values |
| ModbusRefinement.ServePutRegisters | component/libmodbus/src/modbus.c:1052-1094 | block write of registers from a request of the builder: exactly the addressed cells change |
| ModbusRefinement.ServePutGet | component/libmodbus/src/modbus.c:1123-1179 | write-and-read: the write happens first, so the values read show it; one rejected half rejects both |
| ModbusRefinement.RequestDelimits | component/libmodbus/src/modbus.c:297-382 | every request of the builders has the length that the receiver computes from its bytes |
| ModbusRefinement.ResponseDelimits | component/libmodbus/src/modbus.c:297-382 | every response of the server has the length that the receiver computes from its bytes |
| ModbusRefinement.ReplyIsFrame | component/libmodbus/src/modbus.c:773-1189 | the bytes the server sends are exactly the frame of the response, with the request's transaction and unit identifier; nothing is sent when an RTU request names another unit |
| ModbusRefinement.ConfirmIsPlain | component/libmodbus/src/modbus.c:584-721 | the response check gives the plain result for a response the server sent, and -1 for an exception response |
| ModbusNumbers.RequestHeadInNumbers | component/libmodbus/src/modbus.c:1228-1653 | function code, address and quantity or value of every request as numbers, high byte first |
| ModbusNumbers.CoilsInNumbers | component/libmodbus/src/modbus.c:1463-1523 | byte count of a coil write, and coil i in bit i % 8 of byte i / 8 |
| ModbusNumbers.RegistersInNumbers | component/libmodbus/src/modbus.c:1526-1572 | byte count and registers of a block write, high byte first |
| ModbusNumbers.PutGetInNumbers | component/libmodbus/src/modbus.c:1576-1653 | the fields and registers of write-and-read |
| ModbusNumbers.QuantityInNumbers | component/libmodbus/src/modbus.c:796-1094 | for any request for a range: exception 3 beyond 2000, 1968, 125 or 123, else exception 2 beyond the table, and no other refusal |
| ModbusNumbers.RefusalInNumbers | component/libmodbus/src/modbus.c:956-1189 | single writes, write-and-read and identification for any request, and exception 1 for every unknown function code |
| ModbusNumbers.WhoIsAnswered | component/libmodbus/src/modbus-rtu.c:1077-1098 | any request is met with silence if and only if it is an RTU request for another unit that is not the broadcast address, or asks for the exception status |
| ModbusNumbers.FrameInNumbers | component/libmodbus/src/modbus-tcp.c:102-178 | the MBAP header in numbers: transaction, protocol 0, the number of bytes that follow, unit; and the RTU frame |
| ModbusNumbers.CrcExample | component/libmodbus/src/modbus-rtu.c:150-181 | the request of unit 1 for ten registers is sealed with C5 CD |
| ModbusNumbers.ConfirmInNumbers | component/libmodbus/src/modbus.c:584-721 | whatever bytes come back, they are accepted if and only if transaction number, length, function code and stated count are those of the request; everything else gives -1 |
| ModbusNumbers.ReceiveInNumbers | component/libmodbus/src/modbus.c:297-563 | for every function code the length of a message in numbers; refused beyond 256 bytes over RTU and 260 over TCP |
| ModbusNumbers.CoilsExample | component/libmodbus/src/modbus.c:723-750 | coils 20 to 38 of the example in chapter 6 of the application protocol: CD 6B 05 |
| ModbusNumbers.WrittenBitsRead | component/libmodbus/src/modbus.c:1013-1051 | coils written are the coils read afterwards, and no other coil changes |
| ModbusNumbers.WrittenRegistersRead | component/libmodbus/src/modbus.c:1052-1094 | registers written are the registers read afterwards |
| ModbusNumbers.PutGetIsPutThenGet | component/libmodbus/src/modbus.c:1123-1179 | write-and-read is the write followed by the read, or neither |
| ModbusStale.BlockWriteIsSelfContained | component/libmodbus/src/modbus.c:1013-1094 | a block write of coils or registers that the receiver takes, over RTU or TCP, is answered and stored independently of the leftovers behind it in the buffer if and only if it is an RTU message for another unit, is rejected, or finds every announced value inside the message, its checksum bytes included |
| ModbusStale.ShortMessageIsTaken | component/libmodbus/src/modbus.c:397-563 | a message with 25 coils announced and a byte count of 1 passes the receiver of either backend, and what it stores depends on the leftovers |
| ModbusServer.ServeKeepsShape | component/libmodbus/src/modbus.c:773-1189 | any request, well formed or not: read-only tables and all sizes unchanged, coils binary |
| ModbusServer.ExceptionChangesNothing | component/libmodbus/src/modbus.c:753-765 | an answer with another function code than the request's is an exception and comes with unchanged tables |
| ModbusServer.Mapping.Reply | component/libmodbus/src/modbus.c:773-1189 | modbus_reply on the arrays in place sends the bytes and leaves the tables of the specification |
| ModbusServer.Mapping.ReplyWriteAndRead | component/libmodbus/src/modbus.c:1123-1179 | the branch on the arrays: write first, then encode what is read |
| ModbusServer.Mapping.ReplyReadBits | component/libmodbus/src/modbus.c:796-832 | the branch on the arrays: quantity check before address check, then the packed cells |
| ModbusServer.Mapping.ReplyReadRegisters | component/libmodbus/src/modbus.c:872-912 | the branch on the arrays: quantity check before address check, then the registers high byte first |
| ModbusServer.Mapping.ReplyWriteCoils | component/libmodbus/src/modbus.c:1013-1051 | the branch on the arrays: in-place unpacking of the request's bits |
| ModbusServer.Mapping.ReplyWriteRegisters | component/libmodbus/src/modbus.c:1052-1094 | the branch on the arrays: in-place decoding of the request's registers |
| ModbusServer.Mapping.constructor | component/libmodbus/src/modbus.c:1798-1890 | modbus_mapping_new: four tables of the asked sizes, all zero |
| ModbusWire.ReceiveMsg | component/libmodbus/src/modbus.c:397-563 | however the line fragments the bytes, the result is that of the byte stream, exactly the frame is taken from it, and nothing beyond the maximum frame size is stored; it terminates by step and missing bytes |
| ModbusWire.OneFrame | component/libmodbus/src/modbus.c:397-563 | a self-delimiting frame followed by anything is received as exactly that frame |
| ModbusWire.FrameLayout | component/libmodbus/src/modbus-rtu.c:124-148 | where unit identifier, function code and data lie in the RTU and the TCP frame, and its length |
| ModbusWire.AlteredFrameNotReceived | component/libmodbus/src/modbus-rtu.c:385-417 | an RTU frame altered in one byte, or within two adjacent bytes, is never received as a message of its length, whatever follows it |
| ModbusWire.SealedBytes | component/libmodbus/src/modbus-rtu.c:174-181 | the bytes that go out over RTU are the message sealed with its CRC |
| ModbusWire.Seal | component/libmodbus/src/modbus-rtu.c:174-181 | send_msg_pre with the CRC from the table loop gives the frame |
| ModbusWire.Check | component/libmodbus/src/modbus-rtu.c:385-417 | check_integrity with the CRC from the table loop accepts exactly the intact frames |
| ModbusSession.Session.Poll | component/libmodbus/src/modbus.c:566-569 | the server half on the line: exactly one request is received and answered, and what follows it stays on the line |
| ModbusSession.Session.Transact | component/libmodbus/src/modbus.c:1228-1271 | a whole call between the two objects: the result and the mapping are those of the plain call, and the line is empty again |
| ModbusSession.Session.ReadIoStatus | component/libmodbus/src/modbus.c:1228-1271 | the destination array holds the cells, nothing behind them changes, -1 exactly when the plain call fails |
| ModbusSession.Session.ReadBits | component/libmodbus/src/modbus.c:1275-1297 | modbus_read_bits: refuses more than 2000, else the plain read |
| ModbusSession.Session.ReadInputBits | component/libmodbus/src/modbus.c:1300-1322 | modbus_read_input_bits: refuses more than 2000, else the plain read |
| ModbusSession.Session.ReadRegisters | component/libmodbus/src/modbus.c:1325-1376 | read_registers behind both public calls: the plain read into the destination |
| ModbusSession.Session.WriteBit | component/libmodbus/src/modbus.c:1425-1454 | write_single: one cell changes, or none and -1 |
| ModbusSession.Session.WriteRegister | component/libmodbus/src/modbus.c:1425-1460 | write_single: one register changes, or none and -1 |
| ModbusSession.Session.WriteBits | component/libmodbus/src/modbus.c:1463-1523 | the in-place packing loop and the plain block write |
| ModbusSession.Session.WriteRegisters | component/libmodbus/src/modbus.c:1526-1572 | the plain block write of registers |
| ModbusSession.Session.WriteAndReadRegisters | component/libmodbus/src/modbus.c:1576-1653 | the values read are those after the write |
| ModbusBits.UnpackPacked | component/libmodbus/src/modbus-data.c:41-74 | unpacking undoes packing for every number of coils, full bytes or not |
| ModbusBits.RegistersOfBytes | component/libmodbus/src/modbus.c:1052-1094 | registers read back from their bytes |
| ModbusBits.ResponseIoStatus | component/libmodbus/src/modbus.c:723-750 | the packing loop appends exactly the packed cells, least significant bit first |
| ModbusBits.SetBitsFromBytes | component/libmodbus/src/modbus-data.c:41-53 | only the cells from index to index + nb change, to the bits of the bytes |
| ModbusBits.DecodeBits | component/libmodbus/src/modbus.c:1228-1271 | the client's unpacking loop fills exactly nb cells |
| ModbusBits.EncodeBits | component/libmodbus/src/modbus.c:1463-1523 | the client's packing loop gives the packed form of the caller's array, any nonzero value counting as ON |
| ModbusBits.EncodeRegisters | component/libmodbus/src/modbus.c:899-911 | the loop that appends registers, high byte first |
| ModbusBits.DecodeRegisters | component/libmodbus/src/modbus.c:1052-1094 | the loop that stores registers from bytes changes exactly the addressed ones |
| ModbusCrc.Crc16 | component/libmodbus/src/modbus-rtu.c:150-165 | the loop over the two tables computes the bit-by-bit CRC with the reflected polynomial 0xA001 |
| ModbusCrc.TableHiIsShift8 | component/libmodbus/src/modbus-rtu.c:47-74 | each entry of the high table is the high part of eight shifts of its index |
| ModbusCrc.TableLoIsShift8 | component/libmodbus/src/modbus-rtu.c:76-103 | each entry of the low table is the low part of eight shifts of its index |
| ModbusCrc.IntactIffZeroResidue | component/libmodbus/src/modbus-rtu.c:385-417 | the integrity check accepts exactly the frames whose CRC over the whole frame is zero |
| ModbusCrc.SealedIsIntact | component/libmodbus/src/modbus-rtu.c:174-181 | what send_msg_pre seals passes the check |
| ModbusCrc.SingleByteAlterationRejected | component/libmodbus/src/modbus-rtu.c:385-417 | a good frame altered in exactly one byte, data or CRC, is rejected |
| ModbusCrc.AdjacentAlterationRejected | component/libmodbus/src/modbus-rtu.c:385-417 | so is every alteration confined to two adjacent bytes |
| CJsonRoundTrip.ParsePrinted | component/cJSON/cJSON.c:1308-1821 | a value printed compactly or formatted parses back if and only if it is nested at most 1000 deep, and to the value with every string and key cut in front of its first NUL, when the numbers in it read back |
| CJsonRoundTrip.ReadsItselfBack | component/cJSON/cJSON.c:1308-1821 | printing and parsing gives the value itself if and only if it is nested at most 1000 deep and no string or key in it holds a NUL |
| CJsonRoundTrip.DecodedNulIsLost | component/cJSON/cJSON.c:918-960 | the text "\u0000" is accepted as the string of one NUL, which is printed as "" and read back as the empty string |
| CJsonRoundTrip.SyntaxIs | component/cJSON/cJSON.c:1363-1821 | what the printer lays down is a text of the grammar that stands for the cut value, readable exactly when the value fits |
| CJsonRoundTrip.FlatIsPrinted | component/cJSON/cJSON.c:1363-1821 | the bytes of that text, spelled in characters, are the printed ones: no white space when compact; when formatted a line and its tabs before each member, a tab behind each colon and a space behind each comma of an array |
| CJsonWhole.PrintAndParse | component/cJSON/cJSON.c:1091-1256 | printing into the growing buffer and parsing the text again gives a new linked tree, with every list in it well formed, if and only if the value is nested at most 1000 deep; the tree stands for the cut value, and for the value itself when it holds no NUL |
| CJsonGrammar.StandardTextReads | component/cJSON/cJSON.c:1091-1168 | every JSON text of RFC 8259, with any white space in it and around it and with a byte order mark or without, is accepted with its value if and only if it is nested at most 1000 deep, has no number of more than 63 characters and no half of a surrogate pair; text, escapes and digits are spelled in characters apart from the parser's tables |
| CJsonGrammar.TextReads | component/cJSON/cJSON.c:1091-1168 | the same for the wider white space and numbers the parser knows, with and without the check for trailing garbage |
| CJsonGrammar.Reads | component/cJSON/cJSON.c:1308-1360 | a text anywhere in a buffer and at any depth is read to its value and consumed exactly when it is readable; otherwise it is refused or left within a number |
| CJsonGrammar.ListReads | component/cJSON/cJSON.c:1437-1532 | an array with any white space reads to its elements, and is refused at the nesting limit or with an element that is not readable |
| CJsonGrammar.DictReads | component/cJSON/cJSON.c:1597-1707 | an object with any white space reads to its members in order, and is refused at the nesting limit or with a member that is not readable |
| CJsonGrammar.EntryReads | component/cJSON/cJSON.c:1632-1679 | one member with white space at its four places, up to the separator behind it |
| CJsonGrammar.NumeralReads | component/cJSON/cJSON.c:305-379 | a number of at most 63 characters is read whole; within a longer one the parser stops |
| CJsonGrammar.LiteralAt | component/cJSON/cJSON.c:769-895 | a literal anywhere in a buffer is read to its value exactly when its surrogate escapes are paired |
| CJsonGrammar.LongNumberRefused | component/cJSON/cJSON.c:305-379 | 64 digits are a number of section 6 of RFC 8259 and are refused |
| CJsonGrammar.AcceptedTextFits | component/cJSON/cJSON.c:1308-1707 | whatever is accepted, by the standard or not, is nested at most 1000 deep |
| CJsonSound.AcceptedIsText | component/cJSON/cJSON.c:1091-1168 | whatever the parser accepts is, to the byte, a text of the grammar for the value it returns, with white space around it and, when a NUL is asked for, nothing else; its literals and numbers are those of the decoder and of strtod |
| CJsonSound.ValueSound | component/cJSON/cJSON.c:1308-1360 | what parse_value consumes is exactly the text of its value |
| CJsonSound.MemberSound | component/cJSON/cJSON.c:1632-1679 | what is consumed for a member is a literal, a colon and a value, with white space between them |
| CJsonSound.StringLocal | component/cJSON/cJSON.c:769-895 | a literal read inside a buffer is that literal by itself |
| CJsonParser.Parse | component/cJSON/cJSON.c:1091-1168 | the parser on an offset and a depth counter returns a tree exactly when the grammar functions accept; the tree is new, stands for their value, and every sibling list in it, at every depth, satisfies the invariant |
| CJsonParser.ParseBuffer.ParseValueHere | component/cJSON/cJSON.c:1308-1360 | value and new offset of the grammar function, depth restored; the item becomes the root of a well-formed tree for the value and keeps its place in its own list |
| CJsonParser.ParseBuffer.ParseArrayHere | component/cJSON/cJSON.c:1437-1532 | the same for an array: its children list is closed over the parsed items |
| CJsonParser.ParseBuffer.ItemLoop | component/cJSON/cJSON.c:1472-1523 | the do-while loop attaches each new item before it fills it; the row of finished trees agrees with the recursive grammar |
| CJsonParser.ParseBuffer.ItemHere | component/cJSON/cJSON.c:1474-1501 | attaching and then recursively filling one item disturbs none of the finished ones |
| CJsonParser.ParseBuffer.ParseObjectHere | component/cJSON/cJSON.c:1597-1707 | the same for an object |
| CJsonParser.ParseBuffer.MemberLoop | component/cJSON/cJSON.c:1630-1681 | the do-while loop over the members, keys included |
| CJsonParser.ParseBuffer.MemberHere | component/cJSON/cJSON.c:1632-1679 | attaching an item, reading its key and colon, and filling it |
| CJsonParser.ParseBuffer.KeyHere | component/cJSON/cJSON.c:1653-1674 | the key goes into the item, and the offset moves to the value |
| CJsonParser.ParseBuffer.ParseNumberHere | component/cJSON/cJSON.c:305-379 | at most 63 number characters are converted, and the offset advances by what the conversion used |
| CJsonParser.ParseBuffer.SkipWhitespace | component/cJSON/cJSON.c:1034-1057 | the loop and its step back at the end of the buffer |
| CJsonPrinter.PrintText | component/cJSON/cJSON.c:1183-1245 | the text is the printed value, through a buffer that starts with 256 bytes and grows, whether or not its numbers read back |
| CJsonPrinter.PrintNoNul | component/cJSON/cJSON.c:1363-1434 | no printed text contains a NUL, whatever the strings hold, so measuring it with strlen is right |
| CJsonPrinter.PrintBuffer.Ensure | component/cJSON/cJSON.c:439-522 | room for the needed bytes and a terminator, by doubling; nothing already printed changes |
| CJsonPrinter.PrintBuffer.UpdateOffset | component/cJSON/cJSON.c:525-535 | the offset moves to the terminator |
| CJsonPrinter.PrintBuffer.PrintValueHere | component/cJSON/cJSON.c:1363-1434 | the printed value stands at the offset, terminated; everything before it is unchanged |
| CJsonPrinter.PrintBuffer.PrintArrayHere | component/cJSON/cJSON.c:1535-1594 | the loop over the elements lays down exactly the printed array |
| CJsonPrinter.PrintBuffer.PrintObjectHere | component/cJSON/cJSON.c:1710-1821 | the loop over the members lays down exactly the printed object, with its indentation |
| CJsonString.ParseStringTwoPass | component/cJSON/cJSON.c:769-895 | for every input, malformed escapes included, every store of the decoding pass is inside the buffer the sizing pass asked for, and the result is the decoded literal |
| CJsonString.SizingPass | component/cJSON/cJSON.c:782-813 | the closing quote, and the number of escapes in front of it |
| CJsonString.DecodingPass | component/cJSON/cJSON.c:815-873 | decodes in place of the computed size, even where the two passes see different escapes |
| CJsonString.EscapesGap | component/cJSON/cJSON.c:782-873 | however far out of step the decoder is, n bytes begin at most (n + 1) / 2 escapes |
| CJsonString.EncodeUtf8 | component/cJSON/cJSON.c:709-753 | the shift-and-mask loop from the last byte to the first gives the UTF-8 form of the code point |
| CJsonString.Utf8Inverse | component/cJSON/cJSON.c:709-753 | section 3 of RFC 3629: the form is unambiguous and its first byte tells its length |
| CJsonString.Utf8Shortest | component/cJSON/cJSON.c:709-753 | of all forms of lead and continuation bytes with the same value the one written is the shortest, and the only one of its length |
| CJsonString.UnicodeEscape | component/cJSON/cJSON.c:648-766 | each well-formed \u escape or surrogate pair is decoded to the UTF-8 form of its code point in front of the rest, and half a pair is refused |
| CJsonString.LetterEscape | component/cJSON/cJSON.c:825-866 | in front of anything, each of the eight escapes of section 7 of RFC 8259 is decoded to its byte, and every other letter but u is refused |
| CJsonString.Hex4IsFourDigits | component/cJSON/cJSON.c:611-644 | four hexadecimal digits of either case count as their number, anything else as 0 |
| CJsonString.GrammarIsAcceptedIffPaired | component/cJSON/cJSON.c:611-873 | a literal of section 7 of RFC 8259, by a grammar with its own tables, is accepted if and only if every surrogate escape in it is one half of a pair, and then with its value |
| CJsonString.LoneSurrogateRefused | component/cJSON/cJSON.c:664-692 | "\uDEAD", the example of section 8.2 of RFC 8259, is a literal of the grammar and is refused |
| CJsonString.GrammarParts | component/cJSON/cJSON.c:782-873 | on a literal of the grammar the two passes agree on the closing quote, and it has a value exactly when its surrogate escapes are paired |
| CJsonString.AcceptedIsGrammarIffClean | component/cJSON/cJSON.c:611-873 | an accepted literal is one of section 7 of RFC 8259, read to its value, if and only if the decoder meets no raw byte below 0x20 and no \u without four hexadecimal digits |
| CJsonString.DecodedIsStrictIffClean | component/cJSON/cJSON.c:782-873 | on such input the two passes stay in step and the decoder reads what a strict single-pass reader of literals with paired surrogates reads; on other accepted input the strict reader refuses |
| CJsonString.StrictIsDecoded | component/cJSON/cJSON.c:782-873 | what the strict reader reads, both passes read |
| CJsonString.MalformedEscapeIsNul | component/cJSON/cJSON.c:611-644 | an escape without digits is accepted, and section 7 of RFC 8259 forbids it |
| CJsonString.ControlCharacterAccepted | component/cJSON/cJSON.c:818-822 | a raw control character is accepted, and section 7 of RFC 8259 forbids it |
| CJsonString.LiteralReadsBack | component/cJSON/cJSON.c:898-1017 | the literal of any bytes, anywhere in a text, is one of section 7 of RFC 8259, and is read to the bytes and consumed exactly |
| CJsonString.PrintedReadsBack | component/cJSON/cJSON.c:898-1017 | a printed string is read back up to its first NUL: whole exactly when it holds none |
| CJsonString.PrintStringPtr | component/cJSON/cJSON.c:898-1017 | both loops end at the first NUL: the literal of the bytes in front of it, for which the counting pass reserves exactly what the escaping pass writes |
| CJsonString.EscapeForm | component/cJSON/cJSON.c:917-1010 | which bytes are escaped: two characters for seven of them, six with lower-case digits for the other control characters, none for the rest |
| CJsonString.OneEscape | component/cJSON/cJSON.c:965-1010 | what is printed for a byte stands for that byte by the tables of the standard |
| CJsonList.AddItemToArray | component/cJSON/cJSON.c:1924-1983 | append refines s + [item], and keeps the sibling-list invariant if and only if the list was empty or the item pointed nowhere; null and the parent itself are refused |
| CJsonList.InsertItemInArray | component/cJSON/cJSON.c:2259-2286 | insertion before index which; at the end under the condition of AddItemToArray; a negative index changes nothing |
| CJsonList.DetachItemViaPointer | component/cJSON/cJSON.c:2183-2217 | the list without the node satisfies the invariant, and the node points nowhere |
| CJsonList.DetachItemFromArray | component/cJSON/cJSON.c:2219-2227 | by index; an index outside the list changes nothing |
| CJsonList.ReplaceItemViaPointer | component/cJSON/cJSON.c:2288-2335 | the new node takes the place of the old, first, last or only one included |
| CJsonList.GetArrayItem | component/cJSON/cJSON.c:1847-1864 | the index-th child, or null |
| CJsonList.GetArraySize | component/cJSON/cJSON.c:1824-1845 | the number of children |
| CJsonList.CreateArray | component/cJSON/cJSON.c:2536-2574 | attaching new number items one after the other and closing the list establishes the invariant with the items in order |
| CJsonList.NewChild | component/cJSON/cJSON.c:1474-1493 | a new item is attached behind the current one; the lists inside the finished items are undisturbed |
| CJsonList.Adopt | component/cJSON/cJSON.c:1511-1521 | closing the row and making it the children of the parent gives a well-formed tree |
| CJsonList.Duplicate | component/cJSON/cJSON.c:2697-2778 | a fresh tree of equal content whose lists all satisfy the invariant; the original is untouched |
| CJsonList.AppendedChain | component/cJSON/cJSON.c:1965-1979 | the links after an append make a chain (head.prev is last, last.next is null, prev inverts next) if and only if the new item points nowhere |
| CJsonList.AppendingALinkedItem | component/cJSON/cJSON.c:1924-1928 | an item whose next is set, appended to a list of one, breaks the invariant |
| CJsonList.InsertedChain | component/cJSON/cJSON.c:2274-2285 | the links after an insertion make a chain |
| CJsonList.DetachedChain | component/cJSON/cJSON.c:2190-2212 | the links after a detachment make a chain |
| CJsonList.ReplacedChain | component/cJSON/cJSON.c:2300-2327 | the links after a replacement make a chain |
| ZlogHashTable.Run | component/zlog/zc_hashtable.c:91-278 | any run of put, get, remove and clean, through any number of rehashes, answers as a finite map does, and nelem is its size |
| ZlogHashTable.HashTable.Put | component/zlog/zc_hashtable.c:179-232 | the key is bound to the value in the map; the table doubles exactly when a new key finds nelem above 1.3 times the size |
| ZlogHashTable.HashTable.Get | component/zlog/zc_hashtable.c:165-177 | the value the map binds to the key, or nothing |
| ZlogHashTable.HashTable.GetEntry | component/zlog/zc_hashtable.c:151-163 | the one entry of the key, or null |
| ZlogHashTable.HashTable.Remove | component/zlog/zc_hashtable.c:234-278 | the map without the key |
| ZlogHashTable.HashTable.Clean | component/zlog/zc_hashtable.c:91-112 | the empty map |
| ZlogHashTable.HashTable.Widen | component/zlog/zc_hashtable.c:114-149 | rehashing changes no binding and doubles the table |
| ZlogHashTable.Rehash | component/zlog/zc_hashtable.c:114-149 | twice the buckets, the same entries, each in the bucket its hash selects, all chains doubly linked |
| ZlogHashTable.MoveChain | component/zlog/zc_hashtable.c:131-143 | every entry of an old bucket moves to the head of its new one |
| ZlogHashTable.Push | component/zlog/zc_hashtable.c:216-229 | insertion at the head of a bucket keeps the layout and adds one entry |
| ZlogHashTable.Drop | component/zlog/zc_hashtable.c:262-276 | unlinking keeps the layout and removes one entry |
| ZlogHashTable.HashTable.ForEach | component/zlog/zc_hashtable.c:280-312 | begin and next visit every binding exactly once |
| ZlogHashTable.HashTable.OrderIsComplete | component/zlog/zc_hashtable.c:280-312 | the iteration order contains each entry once, nelem in all |
| ZlogHashTable.HashTable.Begin | component/zlog/zc_hashtable.c:280-293 | the first entry of the order, or null |
| ZlogHashTable.HashTable.Next | component/zlog/zc_hashtable.c:295-312 | from the t-th entry of the order to the next, or null |
| ZlogHashTable.FlatNext | component/zlog/zc_hashtable.c:295-312 | what follows an entry: its chain successor, or the head of the next bucket that is not empty |
| ZlogArrayList.ArrayList.SortAdd | component/zlog/zc_arraylist.c:118-132 | the element is inserted before the first greater one |
| ZlogArrayList.ArrayList.InsertInner | component/zlog/zc_arraylist.c:98-116 | the elements from idx on move up; a null slot is overwritten instead |
| ZlogArrayList.ArrayList.Set | component/zlog/zc_arraylist.c:77-90 | the element at idx, for every index the expansion makes room for; a gap reads as null |
| ZlogArrayList.SetHasRoom | component/zlog/zc_arraylist.c:77-90 | the one expansion makes room for the index if and only if it is below twice the size |
| ZlogArrayList.NoRoomAtTwice | component/zlog/zc_arraylist.c:58-90 | index 64 in an array of 32 slots: the expansion gives 64 |
| ZlogArrayList.ArrayList.Expand | component/zlog/zc_arraylist.c:58-75 | at least twice the slots, the list unchanged |
| ZlogArrayList.InsertedSorts | component/zlog/zc_arraylist.c:118-132 | sorted insertion keeps the order |
| ZlogArrayList.InsertedAdds | component/zlog/zc_arraylist.c:118-132 | sorted insertion adds exactly one element |
| ZlogArrayList.InsertedAt | component/zlog/zc_arraylist.c:118-132 | where sorted insertion puts it |
| ZlogRotater.RollingRun | component/zlog/rotater.c:285-345 | over any run of rolling rotations from contiguous archives, archive k is the k-th most recent log, and there are as many as there were logs, up to max_count, whatever order the listings had |
| ZlogRotater.RollKeepsAllIffNoGapHit | component/zlog/rotater.c:285-345 | one rolling pass keeps every archive it does not unlink, in order, if and only if no index f[k] satisfies k + 2 <= f[k] <= the number of files renamed |
| ZlogRotater.RollingLosesInAGap | component/zlog/rotater.c:311-316 | archives 2 and 3 without 0 and 1: a rename destroys archive 2 |
| ZlogRotater.RolledContiguous | component/zlog/rotater.c:285-345 | one rotation of contiguous archives |
| ZlogRotater.ContiguousList | component/zlog/rotater.c:181-230 | contiguous archives are listed as 0, 1, 2, ... |
| ZlogRotater.SequenceRun | component/zlog/rotater.c:232-282 | over any run in sequence mode the archives hold the newest logs in order, as many as there were, up to max_count + 1 |
| ZlogRotater.SequencedChronicle | component/zlog/rotater.c:232-282 | one rotation unlinks all but the newest max_count archives, adds the log behind all others and changes no other file |
| ZlogRotater.SequenceSurvivors | component/zlog/rotater.c:232-282 | one rotation, archive by archive: an old one goes if and only if there is a limit and at least max_count archives have a larger index; the others keep index and log; exactly one archive is added |
| ZlogRotater.NextIndexIsNew | component/zlog/rotater.c:253-263 | the index chosen is the one behind the largest in use, or 0 |
| ZlogRotater.ListsUnique | component/zlog/rotater.c:181-230 | the sorted listing does not depend on the order of the directory |
| ZlogRotater.SortedIsIncreasing | component/zlog/rotater.c:181-230 | a sorted listing of distinct archives is strictly increasing and complete |
| ZlogRotater.Rotater.AddArchiveFiles | component/zlog/rotater.c:181-230 | from any listing order, the sorted list of the archives |
| ZlogRotater.Rotater.RollFiles | component/zlog/rotater.c:285-345 | the descending loop of unlinks and renames; every one finds its source; without a current log it fails after the shift |
| ZlogRotater.Rotater.SeqFiles | component/zlog/rotater.c:232-282 | the loop of unlinks and the choice of the new index; without a current log it fails after unlinking all but the newest max_count |
| ZlogRotater.Rotater.Lsmv | component/zlog/rotater.c:427-466 | listing and moving in either mode is a step of the corresponding transition |
| ZlogBuf.Run | component/zlog/buf.c:141-647 | after any run of writes the buffer shows all the text if it fits in max - 1 characters; else it is full, the marker stands at its end, or as much of its front as there is room for, and the text in front of the marker |
| ZlogBuf.ShownIsStable | component/zlog/buf.c:141-152 | once cut, further text changes nothing |
| ZlogBuf.ShownCut | component/zlog/buf.c:141-205 | a write that does not fit, on top of what is shown, shows what the whole text calls for |
| ZlogBuf.ShownFits | component/zlog/buf.c:505-545 | a write that fits, on top of what is shown, shows what the whole text calls for |
| ZlogBuf.ShownIsPrefix | component/zlog/buf.c:141-152 | what is shown is at most max - 1 long and, up to the marker, a prefix of the text |
| ZlogBuf.ShownWhenCut | component/zlog/buf.c:141-152 | a cut text fills the room, with the whole marker at the end and the text in front of it; a marker without room is cut itself |
| ZlogBuf.CutExample | component/zlog/buf.c:141-152 | "hello world" in eight bytes shows "hell..." |
| ZlogBuf.AdjustedIs | component/zlog/buf.c:548-647 | width and contents of a text cut to one width and padded to another, character by character |
| ZlogBuf.PaddedIs | component/zlog/buf.c:282-300 | a padded numeral: its digits at the end and zeros in front |
| ZlogBuf.CutCondition | component/zlog/buf.c:160-205 | the room left decides as the length of the whole text does |
| ZlogBuf.Buf.Resize | component/zlog/buf.c:160-205 | grows by the increment, by one and a half times it without a limit, or up to the limit and says so |
| ZlogBuf.Buf.Truncate | component/zlog/buf.c:141-152 | the marker, or its front part, over the end of the text; the rest stays |
| ZlogBuf.Buf.Append | component/zlog/buf.c:505-545 | the text is added; cut is reported exactly when text was asked for and the whole does not fit |
| ZlogBuf.Buf.AdjustAppend | component/zlog/buf.c:548-647 | the same for the text cut to one width and padded to another |
| ZlogBuf.Buf.PrintDec32 | component/zlog/buf.c:268-331 | the same for the decimal numeral, padded with zeros |
| ZlogBuf.Buf.PrintDec64 | component/zlog/buf.c:333-422 | the same for 64 bits |
| ZlogBuf.Buf.PrintHex | component/zlog/buf.c:424-502 | the same for the hexadecimal numeral |
| ZlogBuf.Buf.Digits | component/zlog/buf.c:282-285 | the digit loop fills a scratch array from the end with the numeral, and does not underrun it |
| ZlogBuf.NumeralReadsBack | component/zlog/buf.c:282-285 | a numeral stands for its number and has no superfluous zero |
| ZlogBuf.NumeralLength | component/zlog/buf.c:282-288 | how many digits a bounded number can have |
| ZlogRule.RuleByteDecides | component/zlog/rule.c:643-690 | each of the 256 bits of a rule's bitmap is the decision zlog_rule_output takes at that level, for every rule level and for the -1 of an unknown level name |
| ZlogRule.FillBitmap | component/zlog/rule.c:672-690 | the in-place construction by memset, shifts and masks gives those bytes |
| ZlogRule.NewRule | component/zlog/rule.c:643-690 | the rule's bitmap agrees with its decision at all levels |
| ZlogRule.MatchIsPrefix | component/zlog/rule.c:1012-1040 | a rule for aa_ is for aa and every aa_xx and no other; a rule is otherwise for its own category, and * for all |
| ZlogCategory.FastTestIsExact | component/zlog/category.c:49-112 | the fast bitmap test passes a level exactly when one of the fitted rules, or the wastebin rule when none fit, would output it |
| ZlogCategory.FastTestOnRules | component/zlog/category.c:57-112 | the fast test from the rule list itself: a matching rule outputs at the level, or none matches and the last wastebin rule outputs |
| ZlogCategory.OverlapOpens | component/zlog/category.c:49-55 | OR-ing bitmaps is the disjunction of the rules' decisions |
| ZlogCategory.FittedIs | component/zlog/category.c:57-112 | the fitted rules are the matching ones when any match, and otherwise the rule at the last position of a wastebin, or none |
| ZlogCategory.MatchingPositions | component/zlog/category.c:75-89 | the matching rules are those at the matching positions of the rule list, each once and in order |
| ZlogCategory.Category.NeedsLevel | component/zlog/category.h:34-35 | for a category that follows its rules the fast test says whether any fitted rule would output at the level |
| ZlogCategory.Category.OverlapBitmap | component/zlog/category.c:49-55 | the in-place OR of a rule's bitmap |
| ZlogCategory.Category.ObtainRules | component/zlog/category.c:57-112 | fitted rules and bitmap, or no rules when memory runs out at any step |
| ZlogCategory.Category.UpdateRules | component/zlog/category.c:148-170 | the old rules and bitmap become the backup, whether the update succeeds or fails |
| ZlogCategory.Category.CommitRules | component/zlog/category.c:174-187 | the backup is dropped |
| ZlogCategory.Category.RollbackRules | component/zlog/category.c:192-217 | the backup comes back, unless there is none |
| ZlogCategory.Category.constructor | component/zlog/category.c:114-144 | a new category is settled and follows its rules |
| ZlogCategory.RollbackRestores | component/zlog/category.c:192-217 | rollback undoes an update that succeeded, failed, or never reached the category |
| ZlogCategory.CommitIsFresh | component/zlog/category.c:174-187 | update and commit leave the state of a newly created category |
| ZlogCategory.ReplaceRules | component/zlog/category_table.c:57-97 | over a whole table: failing part way and rolling back restores every category exactly; success and commit leave each as if newly created |
| ZlogCategory.UpdateTable | component/zlog/category_table.c:57-71 | stops at the first category that fails; those behind it are untouched |
| ZlogCategory.CommitTable | component/zlog/category_table.c:73-84 | commits every category |
| ZlogCategory.RollbackTable | component/zlog/category_table.c:86-97 | rolls back every category |
| ZlogTimeCache.Run | component/zlog/spec.c:48-73 | over any run of events, however the clock moves, every text written: the timestamp in force formatted afresh, or nothing when that is 0 and the spec has not written at another second |
| ZlogTimeCache.TextIsFreshIff | component/zlog/spec.c:48-73 | at any place of any run the text is the timestamp formatted afresh if and only if the timestamp is not 0, the spec has written at a nonzero second earlier in the run, or the format gives nothing at 0 |
| ZlogTimeCache.WarmAfterIs | component/zlog/spec.c:60-70 | the specs whose slots are filled are those that have written at a nonzero second in an earlier event |
| ZlogTimeCache.WriteLog | component/zlog/spec.c:48-107 | the same within one event, where time specs and %ms, %us share the timestamp, and which specs it leaves warm |
| ZlogTimeCache.StampIsFirst | component/zlog/spec.c:54-58 | the first nonzero reading of an event is its timestamp from then on, and before it that is 0 |
| ZlogTimeCache.ZeroIsTakenForUnused | component/zlog/spec.c:60-70 | a new event whose clock says 0 writes an empty text, whatever the format |
| ZlogTimeCache.NewSpecs | component/zlog/spec.c:539-541 | each time spec gets a cache slot of its own |
| ZlogTimeCache.Event.WriteTime | component/zlog/spec.c:48-73 | the text exactly: formatted afresh unless the second is 0 and the spec has never written at another one, then empty; what becomes of timestamp and caches |
| ZlogTimeCache.Event.Begin | component/zlog/event.c:141-146 | a new event has no timestamp, the caches stay |
| MqttPacket.PublishRoundTrip | component/paho.mqtt.c-1.3.9/src/MQTTPacket.c:103-178 | a PUBLISH laid out by the sender and followed by anything is received as the same publication, taking exactly its bytes, if and only if topic length, message id and total length fit their fields |
| MqttPacket.WireInNumbers | component/paho.mqtt.c-1.3.9/src/MQTTPacket.c:851-901 | the bytes of a PUBLISH in numbers: 48 and the flags, length, topic with its own, message id, payload |
| MqttPacket.ParseInNumbers | component/paho.mqtt.c-1.3.9/src/MQTTPacket.c:553-602 | what any PUBLISH body is read to, and that it is refused exactly when it ends within its topic or message id |
| MqttPacket.ShortPublishWaits | component/paho.mqtt.c-1.3.9/src/MQTTPacket.c:103-178 | any proper prefix of a PUBLISH makes the receiver wait for more |
| MqttPacket.LongFieldRefused | component/paho.mqtt.c-1.3.9/src/MQTTPacket.c:325-351 | a length field of more than four bytes is an error |
| MqttPacket.WideMessageIdIsLost | component/paho.mqtt.c-1.3.9/src/MQTTPacket.c:450-456 | message id 65536 is received as 0 |
| MqttPacket.BodyRoundTrip | component/paho.mqtt.c-1.3.9/src/MQTTPacket.c:553-602 | the body reads back if and only if topic length and message id fit two bytes |
| MqttPacket.VbiRoundTrip | component/paho.mqtt.c-1.3.9/src/MQTTPacket.c:1028-1053 | decoding an encoded length followed by anything gives it back with VBIlen bytes, if and only if it is at most 268435455; larger ones are refused |
| MqttPacket.VbiInNumbers | component/paho.mqtt.c-1.3.9/src/MQTTPacket.c:297-316 | seven bits a byte, each byte weighing 128 times the one before, and only the last below 128 |
| MqttPacket.VbiExample | component/paho.mqtt.c-1.3.9/src/MQTTPacket.c:297-316 | 321 is 193 2, as in section 2.2.3 |
| MqttPacket.VbiLenIsLength | component/paho.mqtt.c-1.3.9/src/MQTTPacket.c:1006-1019 | VBIlen is the length of the encoding if and only if the length is at most 268435455 |
| MqttPacket.VbiLenBeyond | component/paho.mqtt.c-1.3.9/src/MQTTPacket.c:1006-1019 | for 268435456 it says 4, and the encoding has 5 bytes |
| MqttPacket.Encode | component/paho.mqtt.c-1.3.9/src/MQTTPacket.c:297-316 | the loop writes the encoding at its place in the buffer, or only counts it |
| MqttPacket.VbiDecode | component/paho.mqtt.c-1.3.9/src/MQTTPacket.c:325-351 | the loop over a source that may run dry is the recursive decoder |
| MqttPacket.SendPublish | component/paho.mqtt.c-1.3.9/src/MQTTPacket.c:851-901 | the buffers in the order of the packet |
| MqttPacket.Sends | component/paho.mqtt.c-1.3.9/src/MQTTPacket.c:250-288 | header, total length and buffers, one after the other |
| MqttPacket.WriteInt | component/paho.mqtt.c-1.3.9/src/MQTTPacket.c:450-456 | two bytes, high first |
| MqttPacket.IntReadsBack | component/paho.mqtt.c-1.3.9/src/MQTTPacket.c:359-365 | readInt gives back the integer modulo 65536 |
| Base64.RoundTrip | component/paho.mqtt.c-1.3.9/src/Base64.c:100-235 | decoding undoes encoding for every byte string (section 4 of RFC 4648) |
| Base64.ThereAndBack | component/paho.mqtt.c-1.3.9/src/Base64.c:100-253 | the same through buffers of exactly the computed lengths |
| Base64.EncodeLengthIsExact | component/paho.mqtt.c-1.3.9/src/Base64.c:250-253 | encodeLength is 4 * ceil(n / 3) if and only if n < 2^30, where 4 * n wraps |
| Base64.EncodeLengthWraps | component/paho.mqtt.c-1.3.9/src/Base64.c:250-253 | for 2^30 it gives 0 |
| Base64.DecodeLengthIsExact | component/paho.mqtt.c-1.3.9/src/Base64.c:239-248 | decodeLength of an encoding is the original length |
| Base64.Encode | component/paho.mqtt.c-1.3.9/src/Base64.c:179-235 | the loop writes the encoding, never beyond the buffer, and reports it as described |
| Base64.HalfEncoded | component/paho.mqtt.c-1.3.9/src/Base64.c:179-235 | six bytes into four characters: the first half of the encoding, and the length 4 is reported |
| Base64.Decode | component/paho.mqtt.c-1.3.9/src/Base64.c:100-177 | the loop writes as much of the decoding as fits, never beyond the buffer |
| Base64.IndexOfSymbol | component/paho.mqtt.c-1.3.9/src/Base64.c:103-122 | the decoding table inverts the encoding table |
| Base64.IndexIsOfSymbol | component/paho.mqtt.c-1.3.9/src/Base64.c:103-122 | a character with an index is the one the encoding table has there |
| Base64.AlphabetIs | component/paho.mqtt.c-1.3.9/src/Base64.c:181-184 | the alphabet and the padding of RFC 4648 in literal characters |
| Base64.GroupIs24Bits | component/paho.mqtt.c-1.3.9/src/Base64.c:193-219 | three octets and their four indices are the same 24 bits, in order |
| Base64.Examples | component/paho.mqtt.c-1.3.9/src/Base64.c:179-235 | "f", "fo" and "foobar" of section 10 of RFC 4648 |
| SnowId.RunIncreasesIffNoWrap | component/snowid/snowid.c:130-169 | over any run with any clock readings the issued (time, sequence) pairs strictly increase if and only if the sequence number never wraps within a millisecond |
| SnowId.IssuedBearWorker | component/snowid/snowid.c:160-164 | every id of any run bears the worker of its generator and a time the clock has shown |
| SnowId.WorkersKeepApart | component/snowid/snowid.c:130-195 | runs of two generators, whatever their clocks, share no binary form unless their workers differ by a multiple of 2^48 |
| SnowId.RunIncreasesInBinary | component/snowid/snowid.c:130-195 | as long as the sequence number does not wrap, the binary forms of a run increase strictly |
| SnowId.WrapsIffTooMany | component/snowid/snowid.c:130-169 | it wraps if and only if, before the clock first steps back, some millisecond is read more often than its remaining sequence numbers: 65536 times in a fresh one, fewer in the current one |
| SnowId.StandingClockWraps | component/snowid/snowid.c:151-160 | with a clock that stands still n calls wrap if and only if the sequence number plus n reaches 65536 |
| SnowId.StepIsLater | component/snowid/snowid.c:130-169 | one call issues a later id if and only if it is not the call after sequence 65535 in the same millisecond |
| SnowId.NothingAfterBackwardStep | component/snowid/snowid.c:145-149 | after a backward step of the clock nothing is issued, whatever the clock says later |
| SnowId.DisabledIsSilent | component/snowid/snowid.c:138-140 | a disabled generator stays disabled |
| SnowId.BinaryIsFaithful | component/snowid/snowid.c:171-195 | for all ids: the 16 bytes are equal if and only if time, worker modulo 2^48 and sequence are, and compare as (time, worker modulo 2^48, sequence) |
| SnowId.BinaryCollides | component/snowid/snowid.c:182-185 | two different ids share their bytes if and only if they differ only in the worker id, by a multiple of 2^48 |
| SnowId.WorkersCollide | component/snowid/snowid.c:182-185 | workers 0 and 2^48 share their ids' bytes |
| SnowId.Generator.GetId | component/snowid/snowid.c:130-169 | when an id is issued, its time and worker, and the new state |
| SnowId.Generator.GetIds | component/snowid/snowid.c:130-169 | a run of calls issues the ids of the specification, all with the generator's worker, strictly increasing exactly under the guard on the clock readings |
| SnowId.Generator.constructor | component/snowid/snowid.c:249-305 | enabled exactly when checkpoint, clock and address are there, the clock has not gone back and the downtime is allowed |
| SnowId.ToBinary | component/snowid/snowid.c:171-195 | the three loops write the big-endian form |
| DayCount.DayDiffCounts | platform/util/misc.c:75-89 | the closed form is n if and only if n steps of a calendar that only knows the next day lead from the one date to the other |
| DayCount.NumberOfTomorrow | platform/util/misc.c:80-86 | the intermediate number goes up by one each day, over month ends, leap days and year ends |
| DayCount.Reached | platform/util/misc.c:75-89 | every date from year 1 on is some number of days after the first |
| DayCount.DayDiffIsADistance | platform/util/misc.c:75-89 | differences add up, change sign with direction, and are zero only for equal dates |

## Left out

libmodbus

- Sockets, serial ports, select and its timeouts, error recovery and reconnects: a line is a byte queue that may fragment, and one that runs dry is a timeout.
- Negative quantities in the client calls, which the C code does not check, are not modelled; addresses and single values are C ints and the wire carries their low 16 bits.
- modbus_report_slave_id on the client side and modbus_reply_exception: the server's answer to function code 0x11 is modelled, the client call is not.
- RTU over UDP and over TCP, and the Windows serial code.
- The transaction counter is a field of the session; in the source it is a static variable shared by all contexts.

cJSON

- strtod and sprintf for numbers, NaN and infinity: the number codec is a parameter; that strtod uses no more than it is given, and for the texts of the standard that it takes a whole number, is assumed.
- UTF-8 well-formedness of unescaped bytes: neither the parser nor the strict reader it is compared with looks at it.
- Raw items, references, constant strings, cJSON_Minify, cJSON_Compare and the object functions that look up by name.
- A buffer of exact length that ends right after a comma in an object: the parser in C looks at one byte behind it; the model takes that byte to be no quote.
- Deletion and allocation failures.
- CJsonList.Duplicate: cJSON_strdup of names and strings; the scalar content of a node is one value that is copied.
- CJsonList.ReplaceItemViaPointer: the deletion of the replaced node.

zlog

- Callbacks that free keys and values, and allocation failures, except where memory runs out during an update of rules.
- The pointer forms of the hash table's hash and equality functions: they are parameters, with the law that equal keys hash equally.
- Unsigned 32-bit wrap-around of widths and sizes: a negative print width, which C turns into a huge one, is not modelled.
- zlog_buf_vprintf: vsnprintf itself; for a text already formatted it does what `ZlogBuf.Buf.Append` does.
- Rotation: file names are archive indices, one file an index, so listings with names that sscanf reads as the same number, or as no number, are not modelled; neither are failing system calls other than a missing current log, nor locking.
- ZlogArrayList.ArrayList.Set: an index of twice the size or more, for which the source allocates one slot too few.
- The table of categories is a sequence in the order of iteration; its storage is the hash table, modelled apart.
- zlog_reload, which does not call rollback when the update itself fails: the transaction is stated for the table.
- Configuration parsing and the output functions of rules.

MQTT and Base64

- MQTT 5 properties, the other packet types, WebSocket framing, persistence and the OpenSSL and Windows variants of Base64.
- Base64.Decode: characters of 128 and above, which as a signed char index in front of the C table.

snowid and the day count

- The checkpoint file, its child process and the lookup of the network address: their results are parameters of the constructor.
- DayCount.DayDiffCounts: int overflow, which begins beyond the year 5 800 000.

Other parts of the repository

- freemodbus, the shared-memory tools, the simulator's own menus, the list libraries and SQLite glue: port I/O, user interface, or the same pointer reasoning as above in an easier form.

# swiftrobotc: a verified model

This project models the parts of swiftrobotc that carry its data: the binary property lists it
exchanges with the USB multiplexer, the XML machinery of its parser library, the DNS messages it
announces itself with, and the small concurrent runtime that queues callbacks, frames packets,
keeps peers alive and exchanges subscriptions. Every loop and every in-place update of these parts
is a Dafny method proved against a specification function; the theorems are about those functions.

`dafny verify dfyconfig.toml` checks everything.

## What is modelled

**Binary property lists** (`PlistCodec`, `PlistWriter`, `PlistReader`, `PlistRoundTrip`,
`PlistFile`, `PlistLayout`, `PlistFormat`, `PlistWidth`). The writer builds its table back to front, stores every
record's position as a distance from the end and hands out reference numbers counting down; in the
end it turns the distances round and makes them offsets. The reader follows references through the
offset table. `PlistLayout.RecordAtOffset` says where every record lies, and `PlistFile.RoundTrip`
that reading gives back every value tree whose offsets fit the width of an entry of that table.
`PlistFormat` states the format apart from this writer and reader; `PlistFormat.IsFileIff` says when
a written file is one of that format.

**DNS messages** (`DnsNames`, `DnsNameEqual`, `DnsNameWriter`, `DnsNameRoundTrip`,
`DnsNameRepeats`, `DnsPieces`, `DnsPackets`, `DnsPacketReader`, `DnsPacketRoundTrip`, `DnsAnswers`,
`DnsAnswerFields`, `DnsWire`, `DnsTxt`): names with compression after RFC 1035, section 4.1.4, a ring of sixteen earlier label
positions that is searched for suffixes, whole multicast answers with their parsing, and TXT data
after RFC 6763, section 6. `DnsAnswers.AnswerParses` is the round trip of a packet,
`DnsAnswerFields.AnswerTells` says it in terms of the records given, and `DnsWire` says byte for byte
what stands in the packet.

**XML machinery**: transcoding in two passes (`XmlUtf`, `XmlUtfRoundTrip`, and `XmlEncodings` for the
encoded forms of the standards), references and escapes (`XmlText`, `XmlTextRoundTrip`,
`XmlReferences`), unescaping in place with a moving gap (`XmlGap`), the sort of node
sets (`XmlSort`), lists of children with a cyclic back pointer (`XmlTree`) and the trees that
can be built of them (`XmlShape`), the stackless walks of the XPath axes (`XmlAxes`, section 2.2 of XPath 1.0), the step from linked lists to document order
(`XmlDocument`), and the page allocator (`XmlAllocator`).

**Runtime**: the dispatch queue (`Dispatch`), subscribers' permits (`Subscribers`), the client
dispatcher's handlers over the hub's table of devices, with its lookup by name (`ClientDispatch`,
`ConnectMessage`), the exchange of subscriptions between two ends whose link comes and goes under
any device numbers (`SubscriptionExchange`), the keep-alive cycle on the dispatch queue, around the
handlers (`KeepAlive`), and packet framing with several senders (`PacketFraming`). These are state
machines whose steps are critical sections or handlers; the theorems hold in every run.

`Arithmetic`, `Bytes` and `Common` hold what several modules share.

## Where the code falls short, and exactly when

- The offset width is taken from the table size less 8 (`src/Plist/Plist.cpp:273-274`), not from the
  last offset. `PlistFile.WidthCondition` gives the exact condition under which all offsets fit,
  `PlistFile.OffsetTableIff` that the offset table survives exactly then, `PlistWidth.OneByteWidthIff`
  that with one-byte entries the value does too, and `PlistWidth.MisfitFamily` a failing family.
- A double whose high half is zero is written in four bytes, which other readers take for a single.
  Of zero alone this is right: `PlistFormat.IsFileIff` says that a written file, its offsets fitting,
  is a property list of the value if and only if it holds no such double but zero.
- The search of the name table stops when the searched suffix is exhausted, so an entry may stand
  for a longer name. `DnsNameRepeats.ReadsBackIff` says exactly when a name comes back;
  `DnsPieces.PrefixCaptured` gives names that do not, `DnsNameRoundTrip.CommonFinalLabel` a rule
  for names that always do.
- The search runs after the name's own labels have entered the table, so a repeated label can be
  written as a pointer back into the unfinished name, which then has no end.
  `DnsNameRepeats.ReadsSomethingIff` says exactly when what is written reads as any name at all, and
  `DnsNameRepeats.LastLabelRepeated` that no name whose last label stands further in front does.
- A multicast answer whose answer record is TXT promises one record too many
  (`DnsAnswers.TxtAnswerMiscounts`).
- A TXT string of more than 255 bytes gets a wrong length byte (`DnsTxt.TxtReadsBackIff`).
- UTF-32 characters beyond 21 bits do not survive UTF-8 (`XmlUtfRoundTrip.Utf8RoundTripIff`);
  unpaired surrogates are dropped (`XmlUtfRoundTrip.Utf16RoundTripIff`).
- Carriage returns in character data, and tabs in attributes that convert white space, are not
  escaped but rewritten when read (`XmlTextRoundTrip.EscapeRoundTripIff`).
- Character data that runs into the terminating NUL is left with its gap open: the buffer reads as the
  rewriting if and only if nothing went into the gap (`XmlGap.StrconvPcdata`, `XmlText.DroppedIff`).
- A subscriber that meets a message of the wrong type keeps its permit taken for good
  (`Subscribers.NeverAgain`, `Subscribers.PermitLostIff`).
- A connect packet counts channels in 16 bits (`ClientDispatch.CarriedIff`,
  `ConnectMessage.ReadsBackIff`, `SubscriptionExchange.TooLong`).
- A length prefix that arrives in pieces ends the reading (`PacketFraming.DeliversAllIff`): the
  recursion asks for fewer than four bytes from then on, never sees four at once, and stores what
  arrives behind the four-byte buffer of the prefix (`src/socket_client.cpp:151-161`). The model
  keeps the counts and not the stores.
- A device that is gone keeps its number and its name in the hub's table
  (`src/usbhub.cpp:26-57`), and the lookup by name takes the lowest number whatever the status
  (`src/usbhub.cpp:157-164`). A packet sent by name reaches a connected device of that name if and
  only if the lowest-numbered one is connected (`ClientDispatch.ReachesIff`), so messages to a peer
  that comes back under a greater number are dropped for good
  (`SubscriptionExchange.RoutedToSubscribers`, `SubscriptionExchange.ReattachedIff`), and the
  keep-alive cycle ends the wrong device's connection or none (`ClientDispatch.RecheckedIff`).
  Connect packets go by number and subscribe requests to all, so the copies of the peers' lists
  still agree (`SubscriptionExchange.CopiesAgree`).
- An end with the empty name counts as met before it has said anything
  (`SubscriptionExchange.EmptyNameFails`).
- A disconnected client need not have been sent the request it did not answer. For a client with a
  name `KeepAlive.AskedOrLate` says that one was sent, or that the second look came more than two
  seconds after it, or that the lookup sent it to a lower-numbered device of the same name; the last
  two happen (`KeepAlive.NamedNotAsked`, `KeepAlive.MisledNotAsked`). Connections that have not
  named themselves yet share the client with the empty name, so that what was recorded of an earlier
  one ends a later one exactly when the lookup finds it (`KeepAlive.UnnamedEndedIff`).

## Model

| member | source | states |
|---|---|---|
| PlistCodec.RegulateNullBytes | src/Plist/Plist.cpp:884-895 | the loop returns the bytes with high zero bytes dropped down to a minimum number |
| PlistCodec.RegulatedMeaning | src/Plist/Plist.cpp:884-895 | the regulated bytes stand for the same number and are the fewest that do, but for the minimum |
| PlistCodec.IntToBytes | src/Plist/Plist.cpp:1173-1186 | the loop yields the little-endian base-256 digits, also of negative numbers |
| PlistCodec.BytesToInt | src/Plist/Plist.cpp:1135-1146 | the loop yields the two's-complement number that little-endian bytes stand for |
| PlistCodec.NextPow2Least | src/Plist/Plist.cpp:435-444 | the bit-smearing result is the least power of two not below its argument |
| PlistCodec.Ilog2 | src/Plist/Plist.cpp:446-452 | the shift loop returns the exponent of the largest power of two not above its argument |
| PlistCodec.EncodeInteger | src/Plist/Plist.cpp:618-639 | an integer's record: a marker for the least of 1, 2, 4, 8 bytes that holds it, and that many big-endian bytes |
| PlistWriter.CountAny | src/Plist/Plist.cpp:381-396 | counting loops return the number of objects a value is written as, keys included |
| PlistWriter.PushOrder | src/Plist/Plist.cpp:474-574 | the references pushed while members are written last to first, then read back to front, are the members' own numbers |
| PlistWriter.PlistHelperData.WriteBinaryInteger | src/Plist/Plist.cpp:618-639 | prepends exactly the integer's record, or returns it without writing |
| PlistWriter.PlistHelperData.WriteBinaryDouble | src/Plist/Plist.cpp:576-589 | prepends the real's marker and its pattern, high byte first, in eight bytes, or in four when the high half is zero |
| PlistWriter.PlistHelperData.WriteBinaryDate | src/Plist/Plist.cpp:603-616 | prepends the marker and the eight bytes of the pattern, high byte first |
| PlistWriter.PlistHelperData.WriteBinaryByteArray | src/Plist/Plist.cpp:454-472 | prepends header and data; lengths from 15 on follow as an integer record |
| PlistWriter.PlistHelperData.WriteBinaryString | src/Plist/Plist.cpp:641-669 | prepends the text, with or without a header |
| PlistWriter.PlistHelperData.WriteBinaryArray | src/Plist/Plist.cpp:474-518 | leaves table, distances and reference counter as one recursive specification of the whole subtree says, and returns the container's own record |
| PlistWriter.PlistHelperData.WriteBinaryDictionary | src/Plist/Plist.cpp:520-574 | the same for keys and values, whose references stand in two runs |
| PlistWriter.PlistHelperData.WriteBinary | src/Plist/Plist.cpp:398-433 | dispatch on the value: table, distances and counter after it |
| PlistWriter.PlistHelperData.RebaseOffsets | src/Plist/Plist.cpp:278-287 | in place, distances become offsets in reference order, and their bytes in the chosen width are returned |
| PlistWriter.PlistHelperData.WritePlistBinary | src/Plist/Plist.cpp:258-301 | the finished table is the file of the value and the offset table holds its offsets |
| PlistReader.ParseNumber | src/Plist/Plist.cpp:1135-1146 | bytes in file order read as a number of a given C width |
| PlistReader.ReadRefs | src/Plist/Plist.cpp:943-963 | the loop collects the references between two positions, or the error of the first one outside the table |
| PlistReader.GetRefsForContainers | src/Plist/Plist.cpp:943-963 | count, header length and all references of a container |
| PlistReader.ParseBinaryArray | src/Plist/Plist.cpp:965-976 | the loop over an array's references agrees with a recursive reading of every member |
| PlistReader.ParseBinaryDictionary | src/Plist/Plist.cpp:978-1001 | keys from the first half of the references, values from the second, later entries overriding earlier ones |
| PlistReader.ParseBinary | src/Plist/Plist.cpp:897-941 | dispatch on the marker, with every error case |
| PlistReader.ParseOffsetTable | src/Plist/Plist.cpp:857-867 | the loop reads every entry of the given width |
| PlistReader.ReadPlist | src/Plist/Plist.cpp:718-741 | header check, trailer, both tables, then the object with reference 0 |
| PlistReader.ParseTrailer | src/Plist/Plist.cpp:868-882 | the widths, the low half of the object count and the offset table's position |
| PlistRoundTrip.ReadNumberRecord | src/Plist/Plist.cpp:618-639 | an integer record reads back as the integer and its size, wherever it stands in the table |
| PlistRoundTrip.ReadHeader | src/Plist/Plist.cpp:1111-1125 | the count in a written header reads back, and so does where the payload starts |
| PlistRoundTrip.ReadLeaf | src/Plist/Plist.cpp:897-941 | every leaf record reads back as the leaf |
| PlistRoundTrip.ReadRefList | src/Plist/Plist.cpp:943-963 | a written run of references reads back |
| PlistRoundTrip.RefsIncrease | src/Plist/Plist.cpp:474-574 | every container refers only to numbers larger than its own |
| PlistRoundTrip.HeightAtMostCount | src/Plist/Plist.cpp:897-1001 | nesting never exceeds the number of objects, so that bound suffices for reading |
| PlistRoundTrip.ReadWritten | src/Plist/Plist.cpp:897-1001 | parsing at the reference of any written subtree gives the subtree |
| PlistRoundTrip.ReadEntries | src/Plist/Plist.cpp:978-1001 | entries put in one after the other make the written dictionary when keys ascend |
| PlistFile.WrittenGrows | src/Plist/Plist.cpp:474-574 | whatever subtree is written, distances stay positive, strictly growing and within the finished part of the table |
| PlistFile.WrittenAllGrows | src/Plist/Plist.cpp:474-574 | the same for a run of members |
| PlistFile.OffsetsGrow | src/Plist/Plist.cpp:264-287 | final offsets start at 8 with the root, grow strictly with the reference number and stay inside the table |
| PlistFile.WidthCondition | src/Plist/Plist.cpp:273-274 | all offsets fit the chosen width exactly when no power of 256 lies above the table size less 8 and not above the last offset |
| PlistFile.LongRecordFits | src/Plist/Plist.cpp:273-274 | they always fit when the record written first takes eight bytes |
| PlistFile.TableIff | src/Plist/Plist.cpp:278-287 | entries of a width read back as the offsets written if and only if each offset fits |
| PlistFile.OffsetTableIff | src/Plist/Plist.cpp:857-867 | the file's offset table reads back as written if and only if the width condition holds |
| PlistFile.RoundTrip | src/Plist/Plist.cpp:258-301 | for every valid value tree whose offsets fit, reading the written file gives back the tree |
| PlistLayout.WrittenLays | src/Plist/Plist.cpp:474-574 | at every point of writing, the table grows by exactly the records of the finished objects in the order of their numbers, and every distance pushed is that of its record from the table's end |
| PlistLayout.TableFromOffset | src/Plist/Plist.cpp:264-287 | from the offset of a reference on, the finished table holds the records of the objects with the numbers from that one, one after the other and nothing else |
| PlistLayout.RecordAtOffset | src/Plist/Plist.cpp:264-287 | each offset is where its object's record starts, and the record reaches to the next offset or the table's end |
| PlistLayout.EveryReferenceReads | src/Plist/Plist.cpp:897-941 | every reference of a written file, not only the root's, reads as the object it was handed out for |
| PlistFormat.TrailerTells | src/Plist/Plist.cpp:289-298 | for every value, the last 32 bytes hold six zeros, both widths, the number of entries in the offset table, zero for the top object and the table's position, each number with its high byte first |
| PlistFormat.RootParses | src/Plist/Plist.cpp:295-298 | from the number of the top object that the trailer gives, every written file parses to its value |
| PlistFormat.IsFileIff | src/Plist/Plist.cpp:258-299 | a written file whose offsets fit is a file of the format, stated apart from writer and reader with magic, markers, byte orders and trailer, if and only if the value holds no double other than zero with a high half of zeros |
| PlistFormat.HoldsIff | src/Plist/Plist.cpp:403-640 | the same of every object in the file by its number |
| PlistFormat.NumberMeans | src/Plist/Plist.cpp:855-866 | a number of any width is read as its lowest bytes in two's complement, high byte first |
| PlistFormat.RealMeans | src/Plist/Plist.cpp:1046-1054 | a double of up to eight bytes is read as the pattern they make up |
| PlistWidth.OneByteWidthIff | src/Plist/Plist.cpp:273-287 | with one-byte entries the tree comes back if and only if all offsets fit, and otherwise reading fails |
| PlistWidth.MisfitFamily | src/Plist/Plist.cpp:273-287 | a failing family: an array of 242 to 248 bytes of data and a boolean cannot be read back |
| PlistWidth.LuckyMisfit | src/Plist/Plist.cpp:273-287 | with two-byte entries a misread file can still come back, so that beyond one byte the condition is exact only for the offset table |
| DnsNames.GetNextSubstring | include/swiftrobotc/mdns.h:483-514 | the pointer-following loop finds the label, or none where the source gives up |
| DnsNames.StringSkip | include/swiftrobotc/mdns.h:517-534 | the loop returns where the name ends, or none |
| DnsNames.StringExtract | include/swiftrobotc/mdns.h:578-613 | the loop returns the labels with dots as far as the capacity goes, and the end of the name |
| DnsNames.SkipReads | include/swiftrobotc/mdns.h:517-534 | skipping a name of at most 64 labels lands exactly behind it |
| DnsNames.ExtractReads | include/swiftrobotc/mdns.h:578-613 | extracting a name of at most 64 labels yields its labels, each with a dot, and the same end as skipping |
| DnsNames.ReadsUnique | include/swiftrobotc/mdns.h:483-514 | a position in a packet reads as at most one name |
| DnsNames.ReadsExtends | include/swiftrobotc/mdns.h:483-514 | what reads as a name keeps doing so when the packet grows |
| DnsNameEqual.StringEqual | include/swiftrobotc/mdns.h:537-575 | the double loop over two packets agrees with a recursive comparison |
| DnsNameEqual.EqualIff | include/swiftrobotc/mdns.h:537-575 | however compressed, two names compare equal exactly when they have the same labels, and both offsets then lie behind the names |
| DnsNameEqual.SameLabelIff | include/swiftrobotc/mdns.h:537-575 | labels without NUL are the same exactly when they differ at most in case |
| DnsNameWriter.StringTable.Add | include/swiftrobotc/mdns.h:660-671 | the ring takes a position in, over the oldest one when it is full |
| DnsNameWriter.StringTable.Find | include/swiftrobotc/mdns.h:616-657 | the double loop returns the first entry at which the suffix goes on label by label |
| DnsNameWriter.FoundFromMeaning | include/swiftrobotc/mdns.h:616-657 | an entry is returned if and only if some entry of the table matches, and it is the first one |
| DnsNameWriter.StringMake | include/swiftrobotc/mdns.h:692-727 | buffer, position and table after writing a name label by label, or none when it does not fit |
| DnsNameWriter.LabelsOfJoined | include/swiftrobotc/mdns.h:674-682 | splitting at dots gives back the labels a text was joined from |
| DnsNameRoundTrip.WrittenReads | include/swiftrobotc/mdns.h:692-727 | what is written for a name with pairwise distinct labels reads as a name that it is a prefix of, ends at the writing position, and leaves a table whose entries all lead to complete names |
| DnsNameRepeats.ReadsSomethingIff | include/swiftrobotc/mdns.h:692-727 | any name, also one with repeated labels, is written as something that reads as a name at all if and only if the search finds nothing or the entry of a complete name; then the given name is a prefix of what is read |
| DnsNameRepeats.ReadsBackIff | include/swiftrobotc/mdns.h:616-657 | any written name reads back if and only if no table entry that is taken stands for a longer or an unfinished name |
| DnsNameRepeats.LastLabelRepeated | include/swiftrobotc/mdns.h:692-727 | with a new table, a name of up to sixteen labels whose last one also stands earlier is written as a pointer into itself and reads as no name, whatever follows |
| DnsNameRoundTrip.CommonFinalLabel | include/swiftrobotc/mdns.h:634-653 | names that share one final label, found nowhere else, never capture one another |
| DnsNameRoundTrip.FamilyWritten | include/swiftrobotc/mdns.h:692-727 | in such a family every name resolves to itself, whatever the table holds |
| DnsPieces.PacketReadsBack | include/swiftrobotc/mdns.h:616-727 | any sequence of names and other bytes written into one packet with one table is found again piece by piece, however often the ring wraps |
| DnsPieces.NameReadsBack | include/swiftrobotc/mdns.h:517-727 | every name extracted at its start is the name written with a final dot, and skipping lands where the writer stopped |
| DnsPieces.PrefixCaptured | include/swiftrobotc/mdns.h:634-653 | outside such families it is false: a name cut off an earlier one comes back as the earlier one |
| DnsPackets.AddRecordHeader | include/swiftrobotc/mdns.h:1163-1177 | name, type, class, time to live and an empty length field |
| DnsPackets.AddRecord | include/swiftrobotc/mdns.h:1180-1235 | a record with its data and its length field filled in afterwards |
| DnsPackets.AddTxtRecord | include/swiftrobotc/mdns.h:1250-1297 | all TXT records of a list as one record under the first one's name |
| DnsPackets.GetRecordCount | include/swiftrobotc/mdns.h:1300-1311 | TXT records of a list count as one, in 16 bits |
| DnsPackets.AnswerMulticast | include/swiftrobotc/mdns.h:1378-1424 | the whole answer packet, or none when it does not fit |
| DnsPacketReader.RecordsParse | include/swiftrobotc/mdns.h:730-761 | the loop reports the records it can read and stops where it must |
| DnsPacketReader.QueryReceive | include/swiftrobotc/mdns.h:1079-1143 | questions are skipped, then three sections are parsed until one comes up short |
| DnsPacketRoundTrip.RecordIsPieces | include/swiftrobotc/mdns.h:1180-1235 | filling in the length afterwards gives the packet that would have been written with the right length at once |
| DnsPacketRoundTrip.ItemsReadBack | include/swiftrobotc/mdns.h:1378-1424 | records written one after the other are found again with names, fixed fields and data spans |
| DnsPacketRoundTrip.ItemsParse | include/swiftrobotc/mdns.h:730-761 | parsing them reports each once, in order, without gaps, with its type, class, time to live, length and parsed data; for a TXT record the data are the bytes of all its strings |
| DnsAnswers.AnswerParses | include/swiftrobotc/mdns.h:1079-1143 | a built answer whose answer record is not TXT parses to exactly the records promised, the last one ending at the packet's end |
| DnsAnswers.AnswerTxtIff | include/swiftrobotc/mdns.h:1250-1297 | in such an answer, the TXT records of a list are its last report, and keys and values read back from it if and only if every string keeps to the rules |
| DnsAnswers.TxtAnswerMiscounts | include/swiftrobotc/mdns.h:1378-1424 | with a TXT answer record the parser always comes up one short of the promise |
| DnsAnswers.PrefixParses | include/swiftrobotc/mdns.h:730-761 | asking for fewer records than there are leaves the others in place, asking for more reports all |
| DnsAnswerFields.AnswerTells | include/swiftrobotc/mdns.h:1238-1247 | parsing a built answer reports every record given, in order, with its name, type code, class, time to live and data: the low class bit and, but for PTR records, the cache-flush bit of its own class or else the caller's, no other class bit, and its own time to live unless that or the caller's is zero |
| DnsAnswerFields.AnswerHeaderBytes | include/swiftrobotc/mdns.h:1386-1392 | the header of a built answer byte for byte: id 0, flags 0x8400, no question, one answer, and the number of records that each list puts into the packet |
| DnsWire.LabelFoundIff | include/swiftrobotc/mdns.h:477-514 | a label is found if and only if up to sixteen pointers, two bits set and fourteen bits of position, lead to it and it fits in the packet |
| DnsWire.ExtractedIff | include/swiftrobotc/mdns.h:577-613 | a name is extracted if and only if it has at most 64 labels |
| DnsWire.SkippedIff | include/swiftrobotc/mdns.h:516-534 | a name is skipped if and only if at most 64 labels stand before its first pointer |
| DnsWire.QuestionsSkipped | include/swiftrobotc/mdns.h:1106-1117 | whatever questions stand in front, the records are parsed from right behind them |
| DnsWire.MalformedData | include/swiftrobotc/mdns.h:1455-1511 | data that does not fit the packet or its kind is read as nothing |
| DnsWire.PrintableIff | include/swiftrobotc/mdns.h:1513-1564 | the characters a key may have reach from the space to the tilde |
| DnsWire.DotsSeparate | include/swiftrobotc/mdns.h:691-727 | labels are split and joined at dots; a dot at the end of a name makes no difference |
| DnsWire.SameLetterIff | include/swiftrobotc/mdns.h:553-557 | bytes are compared as equal or as the same letter in either case |
| DnsWire.FirstName | include/swiftrobotc/mdns.h:691-727 | the first name of a packet, with no label twice, is written as its labels behind their lengths and a zero byte, if and only if there is room for them |
| DnsWire.RawFitsIff | include/swiftrobotc/mdns.h:1202-1220 | fixed data is written if and only if there is room for it |
| DnsWire.PointerIs | include/swiftrobotc/mdns.h:684-689 | a pointer is two bytes, the highest two bits set and the position in the others |
| DnsWire.LastSixteen | include/swiftrobotc/mdns.h:659-671 | after any number of positions the table holds exactly the last sixteen |
| DnsWire.TxtStringBytes | include/swiftrobotc/mdns.h:1275-1290 | a string of up to 255 bytes is its length, the key, an equals sign and the value |
| DnsWire.AnswerNeeds | include/swiftrobotc/mdns.h:1382-1383 | an answer is built only in 48 bytes or more and of strings of less than 0x4000 bytes |
| DnsWire.ShortAnswerFits | include/swiftrobotc/mdns.h:1382-1383 | 48 bytes are enough for a short answer |
| DnsTxt.RecordParseTxt | include/swiftrobotc/mdns.h:1513-1564 | the loop returns the entries of the strings that fit in the data, up to a capacity |
| DnsTxt.TxtReadsBackIff | include/swiftrobotc/mdns.h:1513-1564 | keys and values written into a TXT record read back if and only if every key is printable, not empty and without equals sign and every string has at most 255 bytes |
| XmlUtf.CountIsLength | src/Plist/pugixml.cpp:655-674 | for every encoding the counter adds what the writer emits |
| XmlUtf.Result.Put | src/Plist/pugixml.cpp:676-762 | counts, or writes the character's units at the position and nothing else |
| XmlUtf.DecodeUtf8Block | src/Plist/pugixml.cpp:847-907 | whatever the address, the decoder with its aligned four-byte fast path emits what decoding sequence by sequence gives |
| XmlUtf.AsciiWord | src/Plist/pugixml.cpp:865-866 | the mask over an aligned word tells whether all four bytes are ASCII |
| XmlUtf.DecodeUtf16Block | src/Plist/pugixml.cpp:909-951 | emits the characters of words and surrogate pairs, in either byte order, and drops lone surrogates |
| XmlUtf.DecodeUtf32Block | src/Plist/pugixml.cpp:953-976 | emits every word as a character, in either byte order |
| XmlUtf.DecodeLatin1Block | src/Plist/pugixml.cpp:978-986 | emits every byte as a character |
| XmlUtf.ConvertBufferUtf16 | src/Plist/pugixml.cpp:1333-1353 | the counting pass sizes the buffer exactly, and the writing pass fills it with the UTF-8 form |
| XmlUtf.ConvertBufferUtf32 | src/Plist/pugixml.cpp:1355-1375 | the same from UTF-32 |
| XmlUtf.ConvertBufferLatin1 | src/Plist/pugixml.cpp:1386-1417 | the same from Latin-1, with an ASCII prefix copied as it is |
| XmlUtfRoundTrip.Utf8Decodes | src/Plist/pugixml.cpp:847-907 | decoding written UTF-8 gives every character cut to the 21 bits that four bytes carry, or nothing for those whose bit 21 is set |
| XmlUtfRoundTrip.Utf8RoundTripIff | src/Plist/pugixml.cpp:676-719 | a text survives UTF-8 if and only if its characters fit 21 bits |
| XmlUtfRoundTrip.Utf16RoundTripIff | src/Plist/pugixml.cpp:909-951 | UTF-16 to UTF-8 and back is the identity if and only if every surrogate is paired |
| XmlUtfRoundTrip.SwapTwice | src/Plist/pugixml.cpp:645-653 | swapping the byte order twice changes nothing |
| XmlUtfRoundTrip.SwappedDecodes16 | src/Plist/pugixml.cpp:909-951 | a text in the other byte order decodes to the same characters |
| XmlUtfRoundTrip.SwappedDecodes32 | src/Plist/pugixml.cpp:953-976 | the same for UTF-32 |
| XmlEncodings.EncodedForms | src/Plist/pugixml.cpp:676-845 | every character is written in the form that RFC 3629 and RFC 2781 give, in Latin-1 as itself or a question mark |
| XmlEncodings.EncodedFits | src/Plist/pugixml.cpp:676-845 | whatever number is written, the units fit their encoding |
| XmlEncodings.SequenceReads | src/Plist/pugixml.cpp:847-906 | a lead byte with the bytes it announces is read as the number they carry, also when it is longer than it need be |
| XmlEncodings.OthersDropped | src/Plist/pugixml.cpp:847-906 | a byte that starts no such sequence is dropped |
| XmlEncodings.Utf32RoundTrip | src/Plist/pugixml.cpp:953-976 | UTF-32 is read and written without loss |
| XmlEncodings.Latin1RoundTrip | src/Plist/pugixml.cpp:978-986 | so is Latin-1 |
| XmlEncodings.SwapReverses | src/Plist/pugixml.cpp:645-653 | swapping reverses the bytes of a number |
| XmlText.EntityShrinks | src/Plist/pugixml.cpp:1614-1752 | no reference is shorter than what it stands for, so that decoding in place has room |
| XmlText.UnescapedShrinks | src/Plist/pugixml.cpp:1815-1848 | no rewriting makes a text longer |
| XmlText.DroppedIff | src/Plist/pugixml.cpp:1815-1848 | it keeps the length exactly when the text holds no pair of carriage return and line feed to be joined and no reference to be decoded |
| XmlText.BufferedWriter.TextOutputEscaped | src/Plist/pugixml.cpp:2992-3031 | the two nested loops write every byte's escaped form in order |
| XmlTextRoundTrip.EscapeRoundTripIff | src/Plist/pugixml.cpp:2992-3031 | an escaped text reads back if and only if every byte is either escaped or left alone by the line-end mode |
| XmlTextRoundTrip.SafeTexts | src/Plist/pugixml.cpp:1060-1080 | texts without NUL and carriage return read back, in attributes that turn tabs into spaces only without tabs |
| XmlTextRoundTrip.EscapedEndsLater | src/Plist/pugixml.cpp:2992-3031 | an escaped text holds no byte that would end it early |
| XmlTextRoundTrip.WrittenReadsBack | src/Plist/pugixml.cpp:1815-1848 | written between markup, an escaped text is found and read back whole |
| XmlReferences.NamedInText | src/Plist/pugixml.cpp:1678-1746 | whatever follows, each of the five named references is replaced by its character |
| XmlReferences.NumericInText | src/Plist/pugixml.cpp:1622-1676 | whatever follows, the decimal and the hexadecimal numeral of every number of 21 bits, with small or capital digits, are replaced by its UTF-8 form |
| XmlReferences.DecodedIff | src/Plist/pugixml.cpp:1614-1752 | nothing but a named reference or digits between mark and semicolon is decoded; anything else behind an ampersand is kept |
| XmlReferences.EscapedByteIs | src/Plist/pugixml.cpp:3003-3029 | the escaped form of every byte, in character data and in attributes |
| XmlReferences.LineEnds | src/Plist/pugixml.cpp:1831-1836 | line ends become line feeds, or spaces together with tabs in attributes that convert white space; other bytes stay |
| XmlGap.Gap.Push | src/Plist/pugixml.cpp:1583-1597 | pushing a gap moves only what lies between two gaps and keeps the text read so far |
| XmlGap.Gap.Flush | src/Plist/pugixml.cpp:1600-1611 | collapses the gaps: the text read so far stands at the start |
| XmlGap.ReadReference | src/Plist/pugixml.cpp:1614-1752 | the switch recognises exactly the references of the specification, and stops where it does on all others |
| XmlGap.StrconvEscape | src/Plist/pugixml.cpp:1614-1752 | overwrites the reference with what it stands for and pushes the rest into the gap |
| XmlGap.Convert | src/Plist/pugixml.cpp:1956-2013 | in place, the text up to its end becomes what a functional rewriting gives, NUL-terminated, and nothing outside changes; without the end, exactly when the rewriting is as long as the text |
| XmlGap.StrconvPcdata | src/Plist/pugixml.cpp:1815-1848 | the same for character data up to the next markup, and the position behind it; text that ends in NUL reads as the rewriting if and only if nothing is dropped from it |
| XmlGap.StrconvAttribute | src/Plist/pugixml.cpp:1920-2013 | the same for attribute values up to their quote, with line ends kept, normalised or made spaces |
| XmlSort.InsertionSort | src/Plist/pugixml.cpp:5508-5537 | sorts a range and permutes nothing else |
| XmlSort.Partition | src/Plist/pugixml.cpp:5540-5591 | splits a range into smaller, equal and greater elements around the element at the middle, permuting only the range |
| XmlSort.Median | src/Plist/pugixml.cpp:5600-5617 | permutes only the range, and leaves in the middle an element that stands between two sampled ones |
| XmlSort.Sort | src/Plist/pugixml.cpp:5619-5647 | for any strict total order that agrees with equality, terminates with the range sorted, a permutation of what it was, and nothing else changed |
| XmlSort.PartsSplit | src/Plist/pugixml.cpp:5540-5591 | after a partition no element is smaller than one in an earlier part |
| XmlSort.SortingUpper | src/Plist/pugixml.cpp:5630-5643 | sorting the greater part and going on with the smaller one loses no order |
| XmlSort.SortingLower | src/Plist/pugixml.cpp:5630-5643 | sorting the smaller part and going on with the greater one loses no order |
| XmlSort.Unique | src/Plist/pugixml.cpp:5480-5501 | in place, cuts every run of equal elements to one |
| XmlSort.DeduplicatedOnce | src/Plist/pugixml.cpp:5480-5501 | of a sorted sequence every element is kept exactly once, strictly ascending |
| XmlSort.SortUnique | src/Plist/pugixml.cpp:6894-6900 | sorting and then cutting duplicates leaves the same elements, each once, in order |
| XmlTree.XmlNode.AppendNode | src/Plist/pugixml.cpp:579-603 | the list of children grows by the new node at its end and stays well linked |
| XmlTree.XmlNode.AppendChild | src/Plist/pugixml.cpp:4297-4306 | the same exactly where `XmlShape.AllowedIff` allows it, and no change otherwise; all other nodes' lists stay well linked |
| XmlTree.XmlNode.PrependChild | src/Plist/pugixml.cpp:4308-4333 | the new node becomes the first child |
| XmlTree.XmlNode.InsertChildBefore | src/Plist/pugixml.cpp:4335-4357 | the new node stands right before the given child; no change for a node of another parent |
| XmlTree.XmlNode.InsertChildAfter | src/Plist/pugixml.cpp:4359-4381 | the new node stands right behind the given child |
| XmlTree.XmlNode.RemoveChild | src/Plist/pugixml.cpp:4487-4500 | exactly the given child leaves the list |
| XmlTree.XmlNode.OtherListsStay | src/Plist/pugixml.cpp:4297-4500 | changing the children of one node leaves every other node's list well linked; all five operations state it |
| XmlShape.AllowedIff | src/Plist/pugixml.cpp:3221-3228 | below an element exactly elements, text, CDATA, comments and processing instructions are taken, below a document anything but a document or an empty node, below other nodes nothing |
| XmlShape.EveryRun | src/Plist/pugixml.cpp:4297-4500 | in every tree that insertions and removals make, declarations and document types stand right below the document only, and only documents and elements have children |
| XmlShape.BuildableIff | src/Plist/pugixml.cpp:4297-4381 | exactly those trees can be built |
| XmlAxes.Links | src/Plist/pugixml.cpp:4055-4134 | in a document, parent, first and last child and next and previous sibling are the nodes at the places that document order says |
| XmlAxes.StepAncestor | src/Plist/pugixml.cpp:7817-7833 | collects exactly the ancestors, nearest first |
| XmlAxes.StepDescendant | src/Plist/pugixml.cpp:7706-7732 | the stackless walk collects exactly the descendants in document order |
| XmlAxes.StepFollowing | src/Plist/pugixml.cpp:7750-7776 | collects exactly the nodes behind the node's end, in document order |
| XmlAxes.StepPreceding | src/Plist/pugixml.cpp:7778-7815 | collects exactly the nodes that end before the node, in reverse document order |
| XmlAxes.NodeIsAncestor | src/Plist/pugixml.cpp:6121-6126 | true exactly for the node itself and its ancestors |
| XmlAxes.NodeHeight | src/Plist/pugixml.cpp:6081-6092 | the number of nodes up to the root |
| XmlAxes.HeightCounts | src/Plist/pugixml.cpp:6081-6092 | that number is the number of ancestors and one |
| XmlAxes.NodeIsBefore | src/Plist/pugixml.cpp:6094-6119 | within a document, true exactly when the first node comes before the second in document order |
| XmlAxes.ReverseAxes | src/Plist/pugixml.cpp:7936 | the ancestor and preceding places descend, and are exactly those before the node that do and do not reach over it |
| XmlAxes.AxesPartition | src/Plist/pugixml.cpp:7684-7852 | the node sequences that the four walks return, and the node itself, make up the document's nodes, each exactly once; ancestors and preceding nodes come in reverse document order |
| XmlAxes.AncestorsAreParents | src/Plist/pugixml.cpp:7817-7833 | an ancestor by place is the parent or an ancestor of the parent |
| XmlDocument.BuiltIsDocument | src/Plist/pugixml.cpp:579-603 | a tree whose lists of children are well linked has the links of its document order, as the walks expect |
| XmlAllocator.Allocator.AllocateMemory | src/Plist/pugixml.cpp:323-334 | a new block, disjoint from all live ones, in the last page or a new one, which becomes the last or stands before it by size |
| XmlAllocator.Allocator.AllocateLast | src/Plist/pugixml.cpp:421-440 | a small block opens a new last page |
| XmlAllocator.Allocator.AllocateBeforeLast | src/Plist/pugixml.cpp:440-452 | a large block gets a page of its own before the last one |
| XmlAllocator.Allocator.DeallocateMemory | src/Plist/pugixml.cpp:336-369 | a page other than the last is released exactly when its last live block is freed; the last one is reset |
| XmlAllocator.SoundAfterFree | src/Plist/pugixml.cpp:336-369 | freeing keeps busy less freed size equal to the live total, and they meet exactly when nothing is live |
| XmlAllocator.SoundAfterAllocation | src/Plist/pugixml.cpp:323-334 | a block bumped onto a page keeps the blocks disjoint and the total right |
| XmlAllocator.Allocator.AllocateString | src/Plist/pugixml.cpp:371-397 | the string's header fits its two-byte fields and describes its block |
| XmlAllocator.Allocator.DeallocateString | src/Plist/pugixml.cpp:399-415 | frees exactly the block that the header describes, also one that fills a page |
| Dispatch.DispatchQueue.Dispatch | src/dispatch_queue.cpp:33-37 | one more task at the end of the queue |
| Dispatch.DispatchQueue.DispatchAfter | src/dispatch_queue.cpp:39-44 | one more task for later |
| Dispatch.DispatchQueue.TakeWork | src/dispatch_queue.cpp:46-73 | under the lock, takes a task for later that is due and earliest, else the oldest task for now, else nothing; each is a step of a run |
| Dispatch.DispatchQueue.Destroy | src/dispatch_queue.cpp:11-16 | nothing but the quit flag changes |
| Dispatch.EveryRun | src/dispatch_queue.cpp:11-73 | over every interleaving: tasks are conserved, tasks for now start in order, tasks for later start after their time and none before an earlier one that was waiting, each worker runs one task |
| Dispatch.NoneTwice | src/dispatch_queue.cpp:46-73 | no task is started twice |
| Dispatch.NothingAfterQuit | src/dispatch_queue.cpp:11-16 | nothing starts after quit |
| Dispatch.QuitIff | src/dispatch_queue.cpp:11-16 | the queue has been told to quit exactly when a step of the run did so |
| Dispatch.CanStartIff | src/dispatch_queue.cpp:46-73 | an idle worker can start something if and only if there is no quit and a task for now, or one for later whose time is over |
| Dispatch.DueGoFirst | src/dispatch_queue.cpp:46-73 | a task for now is started only while none for later is due |
| Dispatch.FinishFrees | src/dispatch_queue.cpp:46-73 | in every run, a task that ends is done and its worker is free |
| Subscribers.EveryRun | include/swiftrobotc/swiftrobotc.h:91-106 | in every run each subscriber has at most one callback queued or running, and its permit is taken exactly when it has one or has met a message of the wrong type |
| Subscribers.StepOn | include/swiftrobotc/swiftrobotc.h:91-106 | steps about one subscriber leave permits and callbacks of all others alone |
| Subscribers.NeverAgain | include/swiftrobotc/swiftrobotc.h:96-104 | after a message of the wrong type a subscriber never gets one again |
| Subscribers.NoneLost | include/swiftrobotc/swiftrobotc.h:91-106 | in every run, every message that found the permit free is queued, being handled, delivered or met by a callback of the wrong type, each exactly once |
| Subscribers.DeliveredFits | include/swiftrobotc/swiftrobotc.h:96-104 | in every run, what a subscriber was given is of its type |
| Subscribers.NewOneIsServed | include/swiftrobotc/swiftrobotc.h:68-106 | whatever the run, a new subscriber offered a message of its type is given it when its callback has had its turn, and can then be offered the next |
| Subscribers.PermitLostIff | include/swiftrobotc/swiftrobotc.h:96-104 | with nothing queued or running, the permit is gone if and only if a message of the wrong type was once offered while the permit was free |
| Subscribers.RightTypesNeverSpoil | include/swiftrobotc/swiftrobotc.h:91-106 | a subscriber offered only messages of its type never loses its permit so |
| Subscribers.DoomedIff | include/swiftrobotc/swiftrobotc.h:96-104 | in every run, such an offer has been made if and only if a callback that cannot take its message is queued, running or done |
| Subscribers.Client.AddSubscriber | include/swiftrobotc/swiftrobotc.h:68-73 | one more subscriber, with its permit, at the end of the channel's list |
| Subscribers.Client.Notify | include/swiftrobotc/swiftrobotc.h:91-106 | offers the message to every subscriber of the channel, cut to one byte, in order |
| Subscribers.Client.RunJob | include/swiftrobotc/swiftrobotc.h:96-104 | the permit comes back when the type fits |
| ClientDispatch.FoundIff | src/usbhub.cpp:157-164 | a device is found by its name if and only if no lower-numbered one bears it |
| ClientDispatch.ReachesIff | src/usbhub.cpp:59-68 | a packet sent by name reaches a connected device of that name if and only if the lowest-numbered bearer is connected, and no other device gets anything |
| ClientDispatch.RecheckedIff | src/client_dispatcher.cpp:56-66 | the second look ends a connection if and only if the client timed out and the lowest-numbered device of its name has one; all other devices stay |
| ClientDispatch.HandledAnswers | src/client_dispatcher.cpp:109-173 | after a packet, the device found by the sender's name has let through one answer to a keep-alive request or one connect answer with this end's name and channels, if it is connected; all other packets send nothing, and no other device sends |
| ClientDispatch.HandledNotes | src/client_dispatcher.cpp:139-173 | what is noted, of the sender only: every packet but a subscribe request is a sign of life, connect packets replace the channels, a subscribe request adds one |
| ClientDispatch.USBHub.GetDeviceIDForClientID | src/usbhub.cpp:157-164 | the walk over the table gives the lowest number that bears the name, whatever the status |
| ClientDispatch.USBHub.CreateDevice | src/usbhub.cpp:26-44 | a new, nameless connection takes the number |
| ClientDispatch.USBHub.RemoveDevice | src/usbhub.cpp:52-57 | the connection ends; number and name stay in the table |
| ClientDispatch.USBHub.SendPacket | src/usbhub.cpp:59-68 | one packet more at the device found by name, if it is connected |
| ClientDispatch.USBHub.SendPacketToAll | src/usbhub.cpp:70-74 | one packet more at every connected device |
| ClientDispatch.USBHub.Disconnect | src/usbhub.cpp:45-50 | ends the connection of the device found by name, and of no other |
| ClientDispatch.ClientDispatcher.MessageReceived | src/client_dispatcher.cpp:109-173 | what each kind of packet leaves of the clients and of the table: the name it gives the device, and what is answered by name |
| ClientDispatch.ClientDispatcher.SubscribeChannel | src/client_dispatcher.cpp:37-40 | one more own channel, and a request to every connected device |
| ClientDispatch.ClientDispatcher.SendConnectForUnknownDevice | src/client_dispatcher.cpp:214-226 | by number, a connect packet with the channels it can carry, when connected |
| ClientDispatch.ClientDispatcher.DispatchMessage | src/client_dispatcher.cpp:27-35 | every device gets the message once for each time the client of its name subscribed to the channel if it is connected and the lookup finds it, and otherwise not at all |
| ClientDispatch.ClientDispatcher.CheckClients | src/client_dispatcher.cpp:52-68 | exactly the clients not heard of for too long are asked and scheduled for another look; a device gets the request exactly when its client is one of them, it is connected and the lookup finds it |
| ClientDispatch.ClientDispatcher.CheckClient | src/client_dispatcher.cpp:52-56 | one client of the pass: asked by name exactly when not heard of for too long |
| ClientDispatch.ClientDispatcher.RecheckClient | src/client_dispatcher.cpp:56-66 | what the second look does and which device's connection it ends, if any; `ClientDispatch.RecheckedIff` says when |
| ClientDispatch.CarriedIff | include/swiftrobotc/swiftrobot_packet.h:27-36 | a connect packet carries the whole list if and only if it can be counted in 16 bits |
| ConnectMessage.ReadsBackIff | include/swiftrobotc/swiftrobot_packet.h:27-49 | a connect payload reads back if and only if the name holds no NUL and the channels can be counted in 16 bits |
| ConnectMessage.PayloadBytes | include/swiftrobotc/swiftrobot_packet.h:27-36 | the payload byte for byte: name, NUL, number of channels and channels, low bytes first |
| SubscriptionExchange.EveryRun | src/client_dispatcher.cpp:146-164 | in every run, through any number of links under any device numbers, receiving what is on the way always brings each end's copy in line with what is said, and at the end with the peer's list |
| SubscriptionExchange.CopiesAgree | src/client_dispatcher.cpp:146-164 | a copy is always a prefix of the peer's list; up and named, with no connect packet on the way, copy and requests in flight make up the list |
| SubscriptionExchange.OnlyTheLinkSends | src/usbhub.cpp:26-57 | in every run a device is connected exactly while it is the one of the link, so that lost ones send nothing |
| SubscriptionExchange.HandshakeAndInFlight | src/client_dispatcher.cpp:200-240 | in every run with a connect packet on the way, the last one's list and the requests behind it make up the peer's list |
| SubscriptionExchange.HandshakeCompletes | src/client_dispatcher.cpp:200-240 | the same of one direction |
| SubscriptionExchange.RoutedToSubscribers | src/client_dispatcher.cpp:27-35 | in every run with nothing on the way, a message goes to the peer once for each of its own subscriptions if no lower-numbered device bears its name, and otherwise not at all |
| SubscriptionExchange.ReattachedIff | src/usbhub.cpp:157-164 | runs in which the same peer is attached under one number, lost, and attached under another: messages go out if and only if the new number is not greater |
| SubscriptionExchange.EmptyNameFails | src/connection.cpp:154-162 | a run in which an end with the empty name counts as met with nothing on the way, and the other's copy is not its list |
| SubscriptionExchange.TooLong | include/swiftrobotc/swiftrobot_packet.h:27-36 | a run in which an end subscribes to any 65536 channels or more and then connects leaves a wrong copy with nothing on the way |
| KeepAlive.EveryRun | src/client_dispatcher.cpp:44-86 | in every timed run a client is disconnected only when last heard of more than 2000 ms ago and asked more than 1000 ms before; for a client with a name the request was let through unless it has been heard of since or a lower-numbered device of its name was found for it |
| KeepAlive.RunningIsDue | src/dispatch_queue.cpp:53 | a task of the cycle that runs was started after its time, by the queue's guarantee |
| KeepAlive.HeardThenKept | src/client_dispatcher.cpp:77-86 | a client whose message, answer or connect packet was handled is not disconnected within the next 2000 ms |
| KeepAlive.EveryRequestAnswered | src/client_dispatcher.cpp:166-169 | in every run, while a device is connected and found by its name, it lets through exactly as many answers as keep-alive requests come in under that name |
| KeepAlive.StoppedEndsNothing | src/client_dispatcher.cpp:56-75 | once the cycle is stopped, no connection is ended until it is started again |
| KeepAlive.AskedThenHeard | src/client_dispatcher.cpp:166-173 | between ends that find each other, a request is answered, and with the answer the other end is not timed out for 2000 ms |
| KeepAlive.CycleTimes | src/client_dispatcher.cpp:44-86 | a pass comes 300 to 599 ms after it was put on the queue, the second look 1000 ms after the first, a client is timed out after more than 2000 ms |
| KeepAlive.AskedOrLate | src/client_dispatcher.cpp:52-66 | in every run, a disconnected client with a name was really sent the request, or is looked at more than 2000 ms after it, or the request went to a lower-numbered device of its name |
| KeepAlive.NamedNotAsked | src/client_dispatcher.cpp:52-66 | a run in which a client with a name that came back after the request is looked at late and ended, although no request was let through |
| KeepAlive.MisledNotAsked | src/client_dispatcher.cpp:52-66 | a run in which the request goes to the dead device of the same name, and the live one is ended when that number is taken anew |
| KeepAlive.UnnamedEndedIff | src/client_dispatcher.cpp:52-66 | a run in which a connection that has not named itself is ended although no request was let through, if and only if its number is not greater than the earlier one's |
| PacketFraming.ByteArrayToUInt32 | src/socket_client.cpp:218-225 | the value of four bytes, the low one first |
| PacketFraming.SocketClient.Listen | src/socket_client.cpp:163-176 | the recursion fills the buffer with what arrives in pieces |
| PacketFraming.SocketClient.RecieveMessageSize | src/socket_client.cpp:151-161 | a length from a prefix in one piece, and none otherwise |
| PacketFraming.SocketClient.ListenLoop | src/socket_client.cpp:178-209 | the callbacks made are the packets that a functional reading of stream and chunks delivers |
| PacketFraming.SocketClient.Send | src/socket_client.cpp:113-126 | puts one framed packet on the wire |
| PacketFraming.SocketClient.Send2 | src/socket_client.cpp:128-145 | the same with the payload in two buffers |
| PacketFraming.DeliversInOrder | src/socket_client.cpp:151-209 | for any chunks, exactly the packets before the first one whose prefix comes in pieces are delivered, whole and in order |
| PacketFraming.DeliversAllIff | src/socket_client.cpp:151-209 | all packets are delivered if and only if every length prefix arrives in one piece |
| PacketFraming.EveryRun | src/socket_client.cpp:113-145 | over every interleaving of senders, the wire holds the packets in lock order |
| PacketFraming.SendGoesOut | src/socket_client.cpp:113-145 | whoever gets the free lock can put the whole packet on the wire, after which the lock is free |
| PacketFraming.SentIsDelivered | src/socket_client.cpp:113-209 | what senders put on the wire in any lock order is what the reader delivers, with protocol, type, tag and payload |
| PacketFraming.FramedBytes | src/socket_client.cpp:113-126 | a packet on the wire byte for byte: length of the whole, protocol, type, tag, each with its low byte first, and the payload |

## Left out

- PlistFile.RoundTrip: the host is little-endian, tables are smaller than 2^31 bytes, and the reader is given a bound on nesting that every written file keeps; C integers are unbounded otherwise.
- PlistWriter.PlistHelperData.WriteBinaryDouble: a real is its eight-byte pattern; what the pattern means as a number is not modelled.
- PlistWriter.PlistHelperData.WriteBinaryDate: a date is its eight-byte pattern; calendar conversion is not modelled.
- PlistReader.ParseBinary: markers for UTF-16 strings are an error here, since the writer never produces them; reading outside the table, which the source does not guard, is an error too.
- PlistWidth.OneByteWidthIff: exact for one-byte entries only; for wider entries `PlistWidth.LuckyMisfit` shows that the condition is not necessary for a single value, and `PlistFile.OffsetTableIff` is the exact statement.
- DnsPacketReader.QueryReceive: callbacks never ask to stop, and the socket call becomes the received bytes.
- DnsAnswers.AnswerParses: the buffer has at most 0x4000 bytes, which is as far as pointers reach, and names have at most 64 labels of 1 to 63 bytes, pairwise distinct within a name; other names need not even read as names (`DnsNameRepeats.LastLabelRepeated`).
- DnsNameRoundTrip.WrittenReads: for names with pairwise distinct labels, as the packet theorems use it; `DnsNameRepeats.ReadsSomethingIff` and `DnsNameRepeats.ReadsBackIff` cover all others.
- DnsNameWriter.StringMake: bits put together with `|` are written as sums, and masks as remainders.
- DnsNames.StringExtract: the result is a value; writing it into the caller's buffer is not modelled.
- XmlUtf.DecodeUtf8Block: the input is a sequence with an address, so that overlapping input and output are not modelled.
- XmlUtf.ConvertBufferLatin1: taking over a buffer that needs no conversion is modelled as a copy, and running out of memory is not modelled.
- XmlGap.StrconvAttribute: the mode that also trims and collapses white space is left out.
- XmlGap.StrconvPcdata: when a text ends in NUL and something was dropped, it is proved that the buffer does not read as the rewriting, but not what it holds instead.
- XmlGap.Convert: one loop stands for the converters' common one; bytes that need no attention are taken one at a time instead of being skipped first.
- XmlGap.ReadReference: recognising a reference is separated from overwriting it, which the source does in the branches of one switch.
- XmlAxes.NodeIsBefore: nodes of different documents, which the source compares by address, are left out.
- XmlAxes.StepDescendant: the node test is the one that takes every node; other tests drop nodes one by one. Attribute nodes and the child, sibling and parent axes are left out.
- XmlTree.XmlNode.RemoveChild: giving the removed node's memory back is part of the allocator's model only, and names of new declaration nodes are left out.
- XmlAllocator.Allocator.AllocateMemory: memory never runs out, and page addresses and alignment are not modelled; a large block needs some page before the last one, as the source asserts.
- XmlSort.Median: how many elements of a long range lie on either side of the pivot matters for speed only and is not stated.
- Dispatch.DispatchQueue.TakeWork: waiting on the condition variable, creating and joining threads are left out; the heap is a list whose top is any task with the earliest time.
- Subscribers.Client.Notify: callbacks end normally or meet a type mismatch; exceptions thrown by callbacks are left out.
- ClientDispatch.ClientDispatcher.MessageReceived: payloads of messages and the callbacks to the application are left out; a packet is handled only from a device that is connected at the time.
- ClientDispatch.USBHub.CreateDevice: what still arrives over a connection whose number has been taken anew is left out, as are detach messages for unknown devices, which the source does not guard.
- ClientDispatch.ClientDispatcher.CheckClients: one reading of the clock serves the whole pass; `KeepAlive` lets every check read it anew.
- SubscriptionExchange.EveryRun: two ends, each with all the devices it ever had of the other and one link at a time; devices of further peers are in `ClientDispatch` only. Handlers are atomic, so that a subscription is recorded and sent in one step; names are not empty and lists have fewer than 65536 channels, because it fails otherwise (`SubscriptionExchange.EmptyNameFails`, `SubscriptionExchange.TooLong`).
- KeepAlive.EveryRun: handlers are atomic; the checks of a pass may run at any time while its task runs, and a pass may be started at any time, which only adds runs.
- PacketFraming.SocketClient.RecieveMessageSize: when a prefix comes in pieces, only the counts are modelled and not that the source then stores bytes behind its four-byte buffer; errors of the socket calls are left out.
- PacketFraming.SocketClient.ListenLoop: lengths below the header's own, which no sender produces, end the reading here.
- PacketFraming.SocketClient.Send: every call to the socket writes all its bytes, and the tag is an arbitrary value.
- The XML form of property lists, base64 and number formatting: text plumbing around streams.
- Socket setup, select loops, interface enumeration and the sending of DNS queries and unicast answers: network plumbing.
- XPath expressions beyond the axes, document types and the XML parser as a whole: too large beside the parts above.
- Message classes with fixed layouts: memory copies with easy properties only.
- The connection's handshake with the USB multiplexer: it is modelled as the link going up and down.

# Verification of the byte- and text-level core

A Dafny model of the parts of this Bedrock protocol library whose behaviour is decided byte by byte or
character by character, with proofs of what holds for every input and every run. `dafny verify dfyconfig.toml`
checks it all.

- **JSON text surgery** (`Text`, `JsonTree`, `JsonEdit`, `JsonRefine`, `JsonLocate`, `JsonSpaced`, `JsonExact`,
  `JsonRemoval`, `JsonTail`, `TreeEdit`, `ClientFields`, `ClientData`, `Version`, `ClientRuntime`). The routines of `tools/login.cpp` change a raw
  string in place. Each is a method of the class `JsonText` with the original loops, tied to a function on
  text; the functions are proved to refine edits of a JSON tree, up to the whole version-gated run over a
  client-data payload. Where the first quoted name in a text stands is settled by an exact condition.
- **Reading JSON values back** (`JsonExtract`). `jsonExtractString` and `replaceJsonStringValue` find a value
  by two different scans. They agree exactly for keys that do not hold a colon followed by spaces and a quote.
- **Lossy UTF-8 and the pong** (`Utf8`, `Splitting`, `Advertisement`, `RakNetPing`). The look-ahead loop
  computes the byte-at-a-time decoder of section 8.1.1 of the WHATWG Encoding Standard, proved equal to the
  maximal-subpart rule of section 3.9 of the Unicode Standard; decoding commutes with splitting. The pong's
  numeric fields are read twice, by `std::stoi` and as ECMAScript's `parseInt` does it; where the two readings
  differ is settled.
- **Base64 and JSON web tokens** (`Base64`), against the encodings of sections 4 and 5 of RFC 4648.
- **The wire stack** (`Bits`, `Words`, `Leb128`, `BinaryStream`, `StreamLaws`, `Framer`, `Batch`,
  `LoginPacket`). Shifts, ors and masks on words are bit operations on naturals with the arithmetic they come
  to; on top of them exact accepted languages, round trips and canonical forms, and a cursor class with
  copy-on-write views.
- **The encrypted session** (`Ciphers`, `Encryption`). AES and SHA-256 are arbitrary functions; CFB8 and the
  counter stream of GCM are modelled as modes over them.
- **The generated type index** (`TypeIndex`) and **the RakNet open handshake** (`RakNetConnect`, `Handshake`,
  `HandshakeRuns`),
  the latter against an arbitrary network.

C++ routines that update a string, a vector, a cursor or fields are methods, with the original branches and
loops; `std::string` is a Dafny string of one character per byte in the JSON and token modules and a sequence
of bytes elsewhere. Exceptions and error returns are `Option` and `Result` values.

Some promises do not hold of the code on all inputs. For each the exact condition is proved:

- Adding a missing field is right exactly when no string or key of the object ends in the quoted field name,
  and none ahead of the anchor, the field it is put before, ends in the anchor's quoted name
  (`JsonExact.AddExactly`, `ClientData.AddingIsExact`, with the family `ClientData.NameCollision`: a display name
  equal to either name is enough).
- Replacing the value of an existing member is right for every new value exactly when the member holds a value
  of that kind, a string or an integer, and no other colon stands between the first occurrence of the quoted key
  and the member's own colon (`JsonExact.ReplaceStringExactly`, `JsonExact.ReplaceIntExactly`): a string equal to
  the key right before the member does no harm.
- Removing a member is right, whatever its value, exactly when the first occurrence of the quoted key is its own
  (`JsonRemoval.RemoveExactly`). For one object with different keys and a scalar at the member it is right in one
  case more, by luck (`JsonRemoval.RemoveScalarExactly`); a list can be removed by luck in other ways
  (`JsonRemoval.NestedLuck`). A display name equal to a removed field's name is taken out with all that follows
  it up to the field's end (`ClientData.DisplayNameRemoval`).
- An edit of a key that is no member leaves the text alone exactly when it finds no colon, or no closed string
  behind one (`JsonRemoval.LeftAloneExactly`).
- Replacing a string value and extracting it again agree exactly for keys that do not straddle
  (`JsonExtract.VisibleExactly`).
- A batch in the legacy form without a compressor byte, sent uncompressed, comes back exactly when the
  receiver's decompressor rejects it or happens to return the same frames (`Batch.LegacyExactly`); a one-packet
  batch whose packet is three bytes starting with zero is lost (`Batch.LegacyLosesPacket`).
- A login packet decodes to what was encoded exactly when its payload size fits 32 bits
  (`LoginPacket.RoundTripExactly`).

## Model

| member | source | states |
|---|---|---|
| JsonEdit.Escape | tools/login.cpp:464-476 | the escaping loop emits the escape of every character, in order |
| JsonEdit.EscapeJsonIsEscaped | tools/login.cpp:464-476 | whatever is escaped, the result is a complete string body: no bare quote, no escape cut off |
| JsonEdit.ScanToValueEnd | tools/login.cpp:196-220 | the scanner's loop over string, escape and depth state stops where the recursive scan does |
| JsonEdit.JsonText.RemoveJsonKeyValue | tools/login.cpp:187-232 | the whole new text of a removal, and when it reports one |
| JsonEdit.JsonText.ReplaceJsonIntValue | tools/login.cpp:234-246 | the whole new text, and when it reports a replacement |
| JsonEdit.JsonText.AddJsonRawBeforeKey | tools/login.cpp:248-270 | the whole new text: before the named key, else before the last brace, else unchanged |
| JsonEdit.JsonText.SetJsonStringValue | tools/login.cpp:276-287 | replaces an existing key's value, adds a missing key |
| JsonEdit.JsonText.SetJsonIntValue | tools/login.cpp:289-298 | replaces where a span is found, adds otherwise |
| JsonEdit.JsonText.SetJsonBoolValue | tools/login.cpp:300-308 | removes, then adds |
| JsonEdit.JsonText.ReplaceJsonStringValue | tools/login.cpp:518-548 | the whole new text: the first string after the key's colon is replaced by the escaped value |
| JsonRefine.ScanValue | tools/login.cpp:196-220 | on the print of any JSON value, at any depth, the scanner runs to its end and comes back to the state it started in |
| JsonRefine.RemoveRefines | tools/login.cpp:187-232 | removing a located key from an object's text gives the text of the object without that member, be it first, middle, last or only |
| JsonRefine.AddBeforeRefines | tools/login.cpp:248-270 | adding before a located key gives the text of the object with the member inserted there |
| JsonRefine.AddAtEndRefines | tools/login.cpp:248-270 | without that key the member is appended to the object, empty or not |
| JsonRefine.ReplaceStringRefines | tools/login.cpp:518-548 | replacing a string member whose own colon is the one found gives the text of the object with that value overwritten by the escaped string |
| JsonRefine.ReplaceIntRefines | tools/login.cpp:234-246 | the same for integer members, with the decimal text of the number |
| JsonSpaced.RemovedFrom | tools/login.cpp:187-232 | on any text, with spaces around the value and before the key: key, colon and value go with one comma, the one behind, or else the spaces before the key and the comma before those |
| JsonSpaced.IntReplacedIn | tools/login.cpp:234-246 | on any text: behind the key's colon and any spaces the minus signs and digits there, if any, become the number, and nothing else changes |
| JsonSpaced.StringReplacedIn | tools/login.cpp:518-548 | on any text: the body between the next two quotes that are not escaped becomes the escaped value, and nothing else changes |
| JsonSpaced.AddedBefore | tools/login.cpp:248-258 | on any text: the member and a comma stand before the first quoted anchor |
| JsonSpaced.AddedAtBrace | tools/login.cpp:259-269 | on any text without the anchor: the member stands before the last closing brace, behind a comma unless only spaces part that from an opening one |
| JsonSpaced.NothingAddedTo | tools/login.cpp:254-261 | nothing is added where the key is there already, or where there is neither anchor nor brace |
| JsonLocate.FreeValue | tools/login.cpp:187-190 | a printed value holds no occurrence of a quoted key exactly when none of its strings and keys, at any depth, ends in it |
| JsonLocate.FirstOccurrence | tools/login.cpp:187-190 | the first occurrence of a quoted key is the i-th member's own key exactly when the members before it are clean of the key |
| JsonLocate.AnyOccurrence | tools/login.cpp:160-162 | the key test on an object's text fails exactly when no string or key in it ends in the quoted key |
| JsonExact.AddExactly | tools/login.cpp:248-270 | a member is put where it belongs, before the anchor or at the end, exactly when no string or key in the object ends in its quoted key and none ahead of that place ends in the anchor's |
| JsonExact.ReplaceStringExactly | tools/login.cpp:518-548 | replacing a member by a string is right for every new value exactly when it holds a string and no other colon stands between the first occurrence of its quoted key and its own colon |
| JsonExact.ReplaceIntExactly | tools/login.cpp:234-246 | the same for integers: exactly when the member holds one, under the same condition on the colon |
| JsonRemoval.RemoveExactly | tools/login.cpp:187-232 | removing a member is right, whatever its value, exactly when the first occurrence of its quoted key is its own |
| JsonRemoval.RemoveReaching | tools/login.cpp:187-232 | where the colon found is the member's own, the same holds for each single value |
| JsonRemoval.RemoveScalarExactly | tools/login.cpp:187-232 | in an object with different keys, removing a member that holds a scalar is right exactly when the first occurrence is its own, or when the key right before it ends in the quoted key, nothing ahead does, and both members hold the same value |
| JsonRemoval.RemovedByLuck | tools/login.cpp:187-232 | in that last case the object is left without the member although other text was taken out, for every key and value |
| JsonRemoval.NestedLuck | tools/login.cpp:187-232 | an object of two equal lists where neither condition holds and the removal is right all the same |
| JsonRemoval.StringBefore | tools/login.cpp:187-193 | a string equal to the next member's key is found first, and the colon found is still that member's own |
| JsonRemoval.LeftAloneExactly | tools/login.cpp:187-246 | removal and integer replacement leave a text alone exactly when no colon follows the quoted key, string replacement exactly when no closed string follows that colon |
| JsonRemoval.ColonReached | tools/login.cpp:187-193 | a colon is found wherever a string or key ahead of some member ends in the quoted key |
| TreeEdit.WithoutLookup | tools/login.cpp:187-232 | taking a member out of an object with unique keys removes that key's value and no other |
| TreeEdit.OverwriteLookup | tools/login.cpp:234-246 | overwriting changes that key's value and no other |
| TreeEdit.PutLookup | tools/login.cpp:248-270 | putting a member adds a missing key and changes nothing else |
| TreeEdit.EditsKeepOthers | tools/login.cpp:187-308 | no edit of a listed key changes or reorders the unlisted members |
| ClientFields.NamesDiffer | tools/login.cpp:319-382 | the 26 field names are pairwise different |
| ClientFields.HarmlessClean | tools/login.cpp:464-476 | a text that ends in no quoted field name stays so when it is escaped |
| ClientFields.FixedStringsHarmless | tools/login.cpp:310-317 | the constants and the random hexadecimal ids written into a payload are harmless |
| Version.ParseVersionParts | tools/login.cpp:164-178 | the character loop collects the digits of each dotted part, fills up to three parts, and throws where a part exceeds an int |
| Version.DottedVersion | tools/login.cpp:164-178 | three dotted decimal numbers are read as exactly those numbers |
| Version.VersionByFields | tools/login.cpp:164-178 | any version text is read field by field between its dots: a field is the number its digits make, a field without digits 0, missing fields up to the third 0; reading throws exactly when some field exceeds an int |
| Version.AtLeastExactly | tools/login.cpp:180-185 | versions are ordered as the numbers their first three parts make to the base 2^31 |
| ClientData.StepRefines | tools/login.cpp:187-308 | one routine call on the text of a fitting object is the same edit on the tree, and the object fits again |
| ClientData.StepSpaced | tools/login.cpp:187-308 | spaces behind the object's text stay behind it under every call |
| ClientData.ScriptRefines | tools/login.cpp:319-382 | so is any script of calls, of any length, with spaces behind the text or not |
| ClientData.ScriptLookup | tools/login.cpp:319-382 | over a script each field's value follows its own edits only, keys stay unique, and every other member stays in place |
| ClientData.AddingIsExact | tools/login.cpp:248-308 | each of the four calls that add a missing field, string, integer, flag or guarded flag, refines the tree edit exactly when no string or key of the object ends in the quoted field name and none ahead of the anchor in the anchor's |
| ClientData.NameCollision | tools/login.cpp:248-308 | an object whose display name equals the added field's name, or the anchor's, is a counterexample, for every such call, field and value |
| ClientData.DisplayNameRemoval | tools/login.cpp:319-338 | an object whose display name equals a removed field's name is a counterexample to removal, for every such field and every value of it |
| ClientRuntime.SetStrings | tools/login.cpp:347-358 | the ten string calls are the ten string edits, in order |
| ClientRuntime.SetInts | tools/login.cpp:360-371 | the seven integer calls and the flag are their edits, in order |
| ClientRuntime.SetGated | tools/login.cpp:372-379 | the guarded calls are the edits their version allows |
| ClientRuntime.NormalizeClientDataForVersion | tools/login.cpp:319-338 | the text after normalizing, unchanged where reading the version throws |
| ClientRuntime.ApplyRuntimeClientDataFields | tools/login.cpp:340-382 | the text after a whole run; a version that throws leaves the unconditional fields set |
| ClientRuntime.ScriptEffect | tools/login.cpp:319-382 | for every field and every version, what the run makes of any old value; each gate is open exactly from its version on in the order of versions as numbers |
| ClientRuntime.RuntimeRefines | tools/login.cpp:340-382 | on the compact text of any fitting object, with any spaces behind it, the run yields the text of an object with unique keys, every field at exactly its expected value, and all other members unchanged in order |
| ClientRuntime.ApplyToObject | tools/login.cpp:340-382 | the routine itself on a fitting object's text: an object with unique keys and kept members even where the version throws, and otherwise every field at its expected value |
| ClientRuntime.PayloadAfter | tools/login.cpp:319-382 | for the version text x.y.z, TrustedSkin, OverrideSkin, CompatibleWithClientSideChunkGen and the three 1.21.42 fields are there exactly from 1.19.20, 1.19.62, 1.19.80 and 1.21.42 on, and ThirdPartyNameOnly exactly before 1.21.90, by the order of versions as numbers |
| JsonExtract.JsonExtractString | src/BedrockKeyExchange.cpp:134-200 | both loops: spaces after the colon, then the unescaped body, failing where the original throws |
| JsonExtract.KeyBeforeValue | src/BedrockKeyExchange.cpp:138-162 | the value's opening quote lies inside the key exactly for keys that straddle |
| JsonExtract.EscapedReads | src/BedrockKeyExchange.cpp:164-197 | an escaped string reads back as the string, up to its closing quote |
| JsonExtract.BodyMeans | src/BedrockKeyExchange.cpp:164-197 | a body is read character by character, an escape being what section 7 of RFC 8259 says it stands for and any other character behind a backslash itself |
| JsonExtract.ExtractedFrom | src/BedrockKeyExchange.cpp:134-200 | on any text: behind key, colon and spaces an escaped string is read back |
| JsonExtract.RefusedBehind | src/BedrockKeyExchange.cpp:148-160 | and whatever is no quote there is refused |
| JsonExtract.ReplaceThenExtract | tools/login.cpp:518-548 | where extraction succeeds, replacing the value makes it return exactly the new one, a second replacement equals the last, and the text outside the value is unchanged |
| JsonExtract.VisibleExactly | src/BedrockKeyExchange.cpp:134-200 | replacing and extracting agree on all texts and values exactly for the keys that do not straddle |
| Utf8.MatchedIsUnit | src/RakNetPing.cpp:71-140 | the bytes the loop takes as one are the only well-formed sequence or maximal ill-formed subpart at that place |
| Utf8.LossyByUnits | src/RakNetPing.cpp:63-140 | the decoder keeps each well-formed unit and turns every other unit into one U+FFFD |
| Utf8.LossyIsWellFormed | src/RakNetPing.cpp:63-140 | every result is well-formed UTF-8 (section 4 of RFC 3629) and at most three times as long as the input |
| Utf8.LossyFixedPoints | src/RakNetPing.cpp:63-140 | exactly the well-formed inputs come back unchanged, and decoding twice changes nothing more |
| Utf8.LossyAround | src/RakNetPing.cpp:71-140 | decoding is a homomorphism around every ASCII byte, also one that cuts a sequence short |
| Utf8.LossyAddsNoAscii | src/RakNetPing.cpp:63-140 | decoding introduces no ASCII byte |
| RakNetPing.NodeBufferToUtf8 | src/RakNetPing.cpp:71-140 | the look-ahead loop emits the UTF-8 encoding of what the byte-at-a-time decoder emits, on every byte string |
| RakNetPing.SplitSemi | src/RakNetPing.cpp:142-157 | the fields between semicolons, empty ones included |
| RakNetPing.SplitLossy | src/RakNetPing.cpp:248-251 | decoding then splitting is splitting then decoding each field |
| RakNetPing.ReadU64BE | src/RakNetPing.cpp:34-47 | the shift-and-or loop gives the big-endian value and the cursor behind it, and throws exactly when fewer than eight bytes are left |
| RakNetPing.CheckMagic | src/RakNetPing.cpp:49-61 | true exactly when the sixteen magic bytes stand at the offset |
| RakNetPing.ParseUnconnectedPong | src/RakNetPing.cpp:207-272 | a pong is reported exactly for an intact header and a payload of 1 to 399 bytes; every field is the decoded form of its own raw bytes alone, or its default where the payload has fewer, the ping time is the signed number of the header's bits, and the advertisement is read from the whole decoded text |
| RakNetPing.ReadingsAgree | src/RakNetPing.cpp:159-166 | a numeric field read by std::stoi is the number its advertisement reads, except behind white space outside ASCII, where it is -1, and in a hexadecimal numeral, where it is 0 |
| RakNetPing.SkippedIs | src/RakNetPing.cpp:159-166 | what stoi skips are all of the six white-space characters of ASCII at the front |
| Advertisement.SpaceExactly | src/server/ServerAdvertisement.cpp:62-95 | the bytes skipped are exactly the UTF-8 encoding of one code point of ECMAScript's WhiteSpace and LineTerminator |
| Advertisement.ParseInt | src/server/ServerAdvertisement.cpp:100-141 | the loops over white space and digits, with sign and prefix, read the number or NaN |
| Advertisement.ReadsExactly | src/server/ServerAdvertisement.cpp:100-141 | a text is read as a number exactly when it is white space, an optional sign, an optional hexadecimal prefix and a digit of that radix with anything behind the last one; the number is the numeral's value, and everything else is NaN |
| Advertisement.DigitMeans | src/server/ServerAdvertisement.cpp:41-46 | the digits below sixteen are 0 to 9 and a to f in either case |
| Advertisement.SplitSemicolon | src/server/ServerAdvertisement.cpp:25-39 | the loop from delimiter to delimiter gives the fields between semicolons |
| Advertisement.ServerAdvertisement.FromString | src/server/ServerAdvertisement.cpp:491-529 | every field of the old advertisement is replaced by its part of the text; the five numeric ones become undefined, null or the number read |
| Advertisement.FieldsInOrder | src/server/ServerAdvertisement.cpp:491-529 | for any parts put together with semicolons the twelve fields are those parts in the order of the format, the five numeric ones read as numbers |
| Splitting.SplitLoop | src/BedrockKeyExchange.cpp:16-31 | the loop of splitJwt and splitSemi collects the fields |
| Splitting.SplitJoins | src/RakNetPing.cpp:142-157 | the fields hold no separator and join to the text |
| Splitting.JoinSplits | src/RakNetPing.cpp:142-157 | fields without separators are what their joined text splits into |
| Base64.Base64Decode | src/BedrockKeyExchange.cpp:40-95 | the whitespace loop, the padding loop and the trimming arithmetic give the decoded bytes or the failure |
| Base64.Base64UrlDecode | src/BedrockKeyExchange.cpp:97-108 | the in-place change of alphabet, then the same |
| Base64.QuadBack | src/BedrockKeyExchange.cpp:64-77 | four characters of an encoding decode to the three bytes they encode |
| Base64.StandardRoundTrip | src/BedrockKeyExchange.cpp:40-95 | a standard encoding, padded or not and with whitespace anywhere, decodes to its bytes |
| Base64.UrlRoundTrip | src/BedrockKeyExchange.cpp:97-108 | so does a URL-safe encoding |
| Base64.AcceptsExactly | src/BedrockKeyExchange.cpp:97-108 | decoding fails exactly when some character is neither whitespace, nor '=', nor of one of the alphabets |
| Base64.DashesDropped | src/BedrockKeyExchange.cpp:64-77 | dashes go from the end until another character stands there or three are left |
| Base64.SplitJwt | src/BedrockKeyExchange.cpp:16-38 | fails exactly when there is no dot |
| Base64.ExtractJwtJson | src/BedrockKeyExchange.cpp:110-132 | the decoded first or second part, or which of the two errors is thrown |
| Base64.JwtRoundTrip | src/BedrockKeyExchange.cpp:110-132 | header and payload of a token come out as they were put in, whatever signature follows |
| Words.ReadLE | src/BinaryStream.cpp:94-143 | or-ing shifted bytes into a word gives the little-endian value |
| Words.ReadBE | src/LoginPacket.cpp:68-81 | shifting a word under each byte gives the big-endian value |
| Words.WriteLE | src/BinaryStream.cpp:249-276 | pushing shifted and masked bytes appends the little-endian bytes |
| Words.WriteBE | src/LoginPacket.cpp:61-66 | and the big-endian bytes |
| Words.BytesOfValueLE | src/BinaryStream.cpp:94-143 | what was read writes back as the same bytes |
| Words.ValueOfBytesLE | src/BinaryStream.cpp:249-276 | what was written reads back as the same word |
| Words.LittleEndian | src/BinaryStream.cpp:85-160 | the i-th byte of a little-endian word counts 256 to the i |
| Words.BigEndian | src/LoginPacket.cpp:68-80 | the i-th byte of a big-endian word counts 256 to the number of bytes behind it |
| Leb128.ReadVarUInt | src/BinaryStream.cpp:169-207 | the shift-and-or loop returns the sum of (byte mod 128)*128^i modulo the word, its cursor, or which failure |
| Leb128.WriteVarUInt | src/BinaryStream.cpp:296-326 | the mask-and-shift loop emits the LEB128 encoding |
| Leb128.ReadExactly | src/BedrockFramer.cpp:43-61 | a read fails exactly when no byte below 0x80 is in its window, consumes at most the window, and depends only on what it consumes |
| Leb128.RoundTrip | src/BedrockFramer.cpp:31-61 | every written word reads back before any tail, and the cursor stops after it |
| Leb128.LebIsShortest | src/BedrockFramer.cpp:31-41 | no encoding of a value is shorter than the writer's, and a different one is longer |
| Leb128.Canonical | src/BedrockFramer.cpp:31-61 | writing what was read gives the same bytes exactly when the value fits the word and the last byte carries bits |
| Leb128.GroupAt | src/BinaryStream.cpp:169-203 | the low seven bits of the i-th byte count 128 to the i |
| Leb128.ReadFails | src/BinaryStream.cpp:169-203 | a read fails exactly when every byte of its window goes on, or the data ends among such bytes, and where it leaves the cursor |
| BinaryStreams.BinaryStream.Own | src/BinaryStream.cpp:38-44 | the borrowed bytes are copied, and neither content nor cursor changes |
| BinaryStreams.BinaryStream.RemainingBytes | src/BinaryStream.cpp:58-62 | cursor and remaining bytes make up the buffer, nothing remains once the buffer shrank below the cursor, and a raw read succeeds exactly when its length is at most what remains |
| BinaryStreams.BinaryStream.Eof | src/BinaryStream.cpp:64-66 | true exactly when nothing remains |
| BinaryStreams.BinaryStream.ReadFixed | src/BinaryStream.cpp:85-167 | value, failure and new state of every fixed-width read, signed and float ones included |
| BinaryStreams.BinaryStream.ReadUnsigned | src/BinaryStream.cpp:169-203 | value, failure and new state of both varint reads |
| BinaryStreams.BinaryStream.ReadString | src/BinaryStream.cpp:209-225 | value, failure and new state; a refused length leaves the cursor after the prefix |
| BinaryStreams.BinaryStream.ReadBytes | src/BinaryStream.cpp:227-239 | value, failure and new state |
| BinaryStreams.BinaryStream.WriteValue | src/BinaryStream.cpp:241-345 | every write appends its encoding and nothing else; a string that is too long changes nothing |
| BinaryStreams.BinaryStream.Run | src/BinaryStream.cpp:68-345 | a run of operations has the replies and the state of the steps on plain values, and takes its own copy only if some step stores |
| BinaryStreams.OpenView | src/BinaryStream.cpp:17-32 | a view is refused exactly for a start past the end |
| BinaryStreams.ViewAndCopy | src/BinaryStream.cpp:17-83 | over any run a view and a copy give the same replies and the same state, and the borrowed vector is unchanged |
| StreamLaws.ReadsBack | src/BinaryStream.cpp:79-345 | any typed values that lie ahead of the cursor are read as they were written |
| StreamLaws.FreshRoundTrip | src/BinaryStream.cpp:79-345 | typed values written to a fresh stream come back in order, and the stream is then at its end |
| StreamLaws.ReadMoves | src/BinaryStream.cpp:79-239 | a read never moves the cursor back or past the end, and a failing word or raw read leaves it in place |
| StreamLaws.ReadsMove | src/BinaryStream.cpp:79-239 | nor does any run of reads, failing ones included, and the bytes stay |
| StreamLaws.ReadThenWrite | src/BinaryStream.cpp:79-345 | what is read has its type; written again, words and raw bytes give the same bytes and varints and strings never more |
| StreamLaws.WrittenBytes | src/BinaryStream.cpp:241-345 | a number is written as the little-endian bytes or varint groups of its two's complement, a string behind its length |
| StreamLaws.WordRead | src/BinaryStream.cpp:85-167 | a word is the value of the next bytes, less a whole modulus exactly when a signed type's top bit is set |
| StreamLaws.VarRead | src/BinaryStream.cpp:169-207 | a varint is at most ten bytes read as 64 bits or five read as 32, with the cursor behind it, or where its failure leaves it |
| StreamLaws.TextRead | src/BinaryStream.cpp:209-225 | a string is the bytes behind its length; one that is too long leaves the cursor behind the length |
| StreamLaws.OtherSteps | src/BinaryStream.cpp:68-77 | seeking fails exactly behind the end; it, resetting, replacing and writing change only the cursor or only the bytes |
| Framer.FramePackets | src/BedrockFramer.cpp:63-78 | the loop emits every packet behind its length, and fails exactly when a length exceeds 32 bits |
| Framer.UnframePackets | src/BedrockFramer.cpp:80-103 | the loop returns the packets or the first error of the recursive reading |
| Framer.AcceptsExactly | src/BedrockFramer.cpp:80-103 | a byte string unframes to a list of packets exactly when it is their concatenation, each behind a varint of at most five bytes that reads as its length |
| Framer.UnframesFramed | src/BedrockFramer.cpp:63-103 | unframing undoes framing on every list of packets under 2^32 bytes |
| Framer.Reframe | src/BedrockFramer.cpp:63-103 | framing again what was accepted is never longer, and is the same exactly when every prefix met was the writer's own |
| Batch.EncodeBatch | src/BedrockFramer.cpp:190-248 | the bytes or the error in every mode, as the next two rows spell out |
| Batch.EncodesExactly | src/BedrockFramer.cpp:190-248 | a batch is exactly the header and raw frames up to the threshold, and above it what deflate or Snappy itself makes of the frames, behind the byte that names it or, in the legacy form, behind none |
| Batch.EncodeFails | src/BedrockFramer.cpp:190-248 | encoding fails exactly for a packet above 32 bits, an unknown algorithm that is needed, or a compressor that fails |
| Batch.DecodeBatch | src/BedrockFramer.cpp:250-318 | the packets or the error in every mode, the legacy fallback included |
| Batch.DecodesExactly | src/BedrockFramer.cpp:250-318 | packets are returned exactly when the batch holds their frames in the form the settings call for, by the decompressors' own results; in the legacy form a body that does not inflate is the frames itself |
| Batch.UncompressedRoundTrip | src/BedrockFramer.cpp:190-268 | without compression every encoded batch decodes to its packets, whatever else the settings say |
| Batch.HeaderRoundTrip | src/BedrockFramer.cpp:190-318 | with the compressor byte it does so even when algorithm and threshold differ on the two sides |
| Batch.CodecsExist | src/BedrockFramer.cpp:105-188 | compressors that decompression undoes, and that stop at an empty final block, exist: the assumptions can be met together |
| Batch.LegacyExactly | src/BedrockFramer.cpp:206-284 | in the legacy form an uncompressed body comes back exactly when the decompressor rejects it or its output unframes to the packets; a compressed one always does under one algorithm |
| Batch.LegacyLosesPacket | src/BedrockFramer.cpp:270-284 | for an inflater that stops at the empty final block of RFC 1951, every one-packet batch of bytes 0, x, y decodes to no packets |
| LoginPacket.Encode | src/LoginPacket.cpp:113-138 | the packet's layout with the size prefix modulo 2^32, or the refusal of a string that is too long |
| LoginPacket.EncodedIs | src/LoginPacket.cpp:83-138 | the packet byte by byte, and refusal exactly for a string above 32 bits |
| LoginPacket.ReadStringU32LE | src/LoginPacket.cpp:97-111 | the string, or which bound fails |
| LoginPacket.Decode | src/LoginPacket.cpp:140-176 | the packet's contents or the first error |
| LoginPacket.AcceptsExactly | src/LoginPacket.cpp:140-176 | a byte string decodes to a login exactly when it has the layout with a header whose low ten bits name the packet, the exact payload size, and no slack at either level |
| LoginPacket.LayoutDecodes | src/LoginPacket.cpp:140-176 | a laid-out packet decodes to its contents when the prefix is the payload's true size, and to the trailing-bytes error when it is the size wrapped |
| LoginPacket.RoundTripExactly | src/LoginPacket.cpp:113-176 | decoding undoes encoding exactly when 8 + identity + client is below 2^32 |
| LoginPacket.Damaged | src/LoginPacket.cpp:140-176 | a packet that is no login, ends before its payload, whose strings do not fill the payload, or that goes on behind it, gets its own error each |
| LoginPacket.StringCut | src/LoginPacket.cpp:97-111 | a string is refused exactly when its length or its bytes are cut off |
| Ciphers.Undoes | src/BedrockEncryption.cpp:120-257 | two streams in one state and opposite modes undo each other and stay in one state |
| Ciphers.Chunked | src/BedrockEncryption.cpp:120-257 | how a message is cut into writes does not matter |
| Ciphers.Positional | src/BedrockEncryption.cpp:120-160 | the GCM stream combines the byte at position p with byte p mod 16 of the enciphered block that holds the nonce and the number 2 + p/16 in 32 bits (section 6.5 of NIST SP 800-38D) |
| Ciphers.FeedBack | src/BedrockEncryption.cpp:180-257 | the CFB8 stream combines each byte with the first byte of the enciphered sixteen bytes before it in the ciphertext (section 6.3 of NIST SP 800-38A) |
| Ciphers.RegisterHolds | src/BedrockEncryption.cpp:222-257 | the CFB8 register holds the last sixteen ciphertext bytes (section 6.3 of NIST SP 800-38A) |
| Ciphers.CipherStream.Process | src/BedrockEncryption.cpp:222-257 | output and new context of one write, an empty one changing nothing |
| Ciphers.CreateCipherStream | src/BedrockEncryption.cpp:259-287 | below protocol 431 a CFB8 stream with the whole iv as register, from 431 on a counter stream under the iv's first twelve bytes; which key and iv lengths are refused |
| Encryption.BoundaryIsSlice | src/BedrockEncryption.cpp:24-33 | the boundary is the index JavaScript's slice(length - 8) starts at, for every length |
| Encryption.MatchesExactly | src/BedrockEncryption.cpp:337-380 | a chunk matches exactly when it is the plaintext made of some packet, which is then the one reported; chunks under eight bytes never match |
| Encryption.ComputeChecksum | src/BedrockEncryption.cpp:296-335 | the first eight bytes of the hash of every text that is the counter in eight bytes, then the packet, then the key; or the refused key |
| Encryption.ChecksumHashes | src/BedrockEncryption.cpp:314-324 | the checksum is the front of the hash of any text whose first eight bytes are the counter, whose middle is the packet and whose last 32 bytes are the key |
| Encryption.MakeAesPlaintext | src/BedrockEncryption.cpp:337-355 | packet then checksum, or the refused key |
| Encryption.VerifyAesPlaintext | src/BedrockEncryption.cpp:357-380 | the verification, and a counter consumed modulo 2^64 whether it matches or not |
| Encryption.DecryptAndVerify | src/BedrockEncryption.cpp:382-397 | result, stream state and counter; an empty write leaves all alone |
| Encryption.Sender.SendPacket | src/client/BedrockNetworkClient.cpp:2554-2583 | the sent payload and the sender's next state |
| Encryption.Receiver.ReceivePayload | src/client/BedrockNetworkClient.cpp:1578-1600 | what a payload is taken for, and the receiver's next state |
| Encryption.ReceivesExactly | src/BedrockEncryption.cpp:337-397 | a receiver takes a payload for a packet exactly when it is the payload a sender in the same state makes of it; both then share the next state |
| Encryption.TakenIsHashed | src/BedrockEncryption.cpp:357-397 | a payload is taken for a packet exactly when it decrypts to that packet with the first eight bytes of the hash of its counter, itself and the key behind it |
| Encryption.OtherPayloads | src/client/BedrockNetworkClient.cpp:1578-1600 | nothing is read from an empty payload or a bare header, nothing encrypted is seen behind any other first byte, and neither changes the receiver |
| Encryption.Lockstep | src/BedrockEncryption.cpp:120-397 | in any run, in either mode, every packet arrives as sent and both ends finish in one state at counter c + n modulo 2^64 |
| Encryption.CountsChunks | src/BedrockEncryption.cpp:357-397 | whatever arrives, the receive counter advances by the number of non-empty encrypted chunks |
| Encryption.EncryptMcpePayloadGcm | src/BedrockEncryption.cpp:529-563 | the payload, or which length is refused |
| Encryption.DecryptMcpePayloadGcm | src/BedrockEncryption.cpp:565-613 | the packet, or which of the errors is thrown |
| Encryption.GcmExactly | src/BedrockEncryption.cpp:529-613 | a payload decrypts to a packet exactly when it is that packet's encryption, or the bare header for the empty packet |
| Encryption.GcmBytes | src/BedrockEncryption.cpp:529-563 | the payload byte by byte: the header, then packet and checksum combined with the keystream of the iv's first twelve bytes from its start |
| Encryption.GcmRefuses | src/BedrockEncryption.cpp:529-613 | which input is refused for which reason, on both sides |
| TypeIndex.LessTrichotomy | scripts/generate_protocol_artifacts.py:298 | the order of strings is strict and total |
| TypeIndex.InsertAscending | scripts/generate_protocol_artifacts.py:288-298 | inserting into an ascending list keeps it ascending |
| TypeIndex.SortBy | scripts/generate_protocol_artifacts.py:288-298 | sorting gives an ascending permutation |
| TypeIndex.RawReadsExactly | scripts/generate_protocol_artifacts.py:268-272 | a raw string literal is read back as its value exactly when the generator accepts the value |
| TypeIndex.CollectTypes | scripts/generate_protocol_artifacts.py:280-286 | the nested map of the versions, and exactly its schema texts interned |
| TypeIndex.CollectEntries | scripts/generate_protocol_artifacts.py:290-297 | an entry for every type of every version, each indexing its own schema |
| TypeIndex.GenerateCppProtocolTypes | scripts/generate_protocol_artifacts.py:275-353 | the emitted table is sorted, complete and faithful, and generation raises exactly when some schema text holds the closing delimiter |
| TypeIndex.LowerBound | scripts/generate_protocol_artifacts.py:373-380 | halving finds the first entry not below the key |
| TypeIndex.FoundExactly | scripts/generate_protocol_artifacts.py:373-384 | the lower bound is the key's entry exactly when there is one |
| TypeIndex.GeneratedProtocolTypeJson | scripts/generate_protocol_artifacts.py:365-386 | the lookup over a generated table answers as the source maps do, for every version and name |
| RakNetConnect.BuildMtuTryList | src/RakNetConnect.cpp:249-274 | the list of candidates |
| RakNetConnect.AddedMtusAre | src/RakNetConnect.cpp:249-274 | no candidate twice, all in [576, 1492], a usable request first, every default present, nothing else |
| RakNetConnect.NotFlips | src/RakNetConnect.cpp:146-152 | bitwise not of a byte is its complement and undoes itself |
| Bits.BitByBit | src/RakNetConnect.cpp:146-152 | and, or and exclusive or are those operations on every bit |
| RakNetConnect.AddressExactly | src/RakNetConnect.cpp:133-190 | reading an address accepts exactly the seven bytes that writing it gives |
| RakNetConnect.BuildOpenConnectionRequest1 | src/RakNetConnect.cpp:276-291 | the bytes of a Request1, mtu - 28 of them, and failure exactly below 46 |
| RakNetConnect.BuildOpenConnectionRequest2 | src/RakNetConnect.cpp:293-320 | the bytes of a Request2, with and without a cookie, the MTU cast to sixteen bits |
| RakNetConnect.Request2Carries | src/RakNetConnect.cpp:293-320 | a receiver finds the MTU it was built with in a Request2 |
| RakNetConnect.Parses1Exactly | src/RakNetConnect.cpp:409-461 | a first answer is accepted with some contents exactly when it has the wire layout of them |
| RakNetConnect.Parses2Exactly | src/RakNetConnect.cpp:503-545 | and so is the answer to Request2 |
| Handshake.SendPacket | src/RakNetConnect.cpp:230-247 | the packet goes out over the held socket, and is thrown for exactly when the network does not take the whole of it |
| Handshake.RecvPacket | src/RakNetConnect.cpp:192-228 | what arrives before the timeout, or nothing |
| Handshake.TryCandidates | src/RakNetConnect.cpp:376-407 | the loop's packets, fields and ending, and the releases of the return when no candidate is answered; building a Request1 never fails in it |
| Handshake.ReadReply1 | src/RakNetConnect.cpp:409-461 | the fields, complete or cut off, and the ending of reading the first answer; each of its returns releases both resources, what is thrown releases none, and the missing-security-byte return cannot be reached |
| Handshake.ReadReply2 | src/RakNetConnect.cpp:503-551 | the same for the second answer, and the return of the finished handshake |
| Handshake.Exchange | src/RakNetConnect.cpp:463-501 | Request2 with the MTU offered or the one used, and the return when its answer does not come |
| Handshake.OpenConnection | src/RakNetConnect.cpp:322-564 | the whole result on every path; every resource acquired is given back, by the return taken or by the handler of what was thrown; and the packets exchanged |
| Handshake.RunsAreSafe | src/RakNetConnect.cpp:322-564 | on every run each acquired resource is released exactly once and no other is, packets go only over a held socket, and each one sent is a Request1 of mtu - 28 bytes or a Request2 carrying an MTU in [576, 1492] |
| Handshake.TriedAre | src/RakNetConnect.cpp:376-397 | the tried MTUs are a duplicate-free usable prefix of the candidate list |
| Handshake.UsedIs | src/RakNetConnect.cpp:391-407 | the used MTU is the last one tried, with the size of its Request1 |
| Handshake.SucceedsExactly | src/RakNetConnect.cpp:322-551 | a run succeeds exactly when a candidate is answered by a Reply1 of the wire layout and Request2 goes out and is answered by a Reply2 of the wire layout; success and error exclude each other |
| HandshakeRuns.CandidatesAre | src/RakNetConnect.cpp:249-274 | the candidates are the usable requested MTU and then 1492, 1400 down to 700 and 576 without it |
| HandshakeRuns.AnsweredExactly | src/RakNetConnect.cpp:376-397 | the n-th candidate is answered exactly when it and all before it went out whole and nothing arrived for those before |
| HandshakeRuns.AttemptedAre | src/RakNetConnect.cpp:376-397 | one Request1 goes out for each tried candidate, in order, and then the answer comes |
| HandshakeRuns.Request1Bytes | src/RakNetConnect.cpp:276-291 | a Request1 byte by byte |
| HandshakeRuns.Request2Follows | src/RakNetConnect.cpp:463-501 | in every run with a first answer of the wire layout one Request2 follows, which carries the offered MTU if it is between 576 and 1492 and the answered one otherwise, the server's cookie, the resolved address with the caller's port, and the client's guid, each read at its wire place |
| HandshakeRuns.ReportedIs | src/RakNetConnect.cpp:399-501 | the result then holds the first answer's fields, and how it ends without a second answer |
| HandshakeRuns.SecondReported | src/RakNetConnect.cpp:503-551 | with a second answer of the wire layout the guid, client address, MTU and security flag reported are that answer's |
| HandshakeRuns.EndsEarly | src/RakNetConnect.cpp:344-407 | a run without an answer reports the first thing that went wrong and the candidates it tried |
| HandshakeRuns.EndsRefused | src/RakNetConnect.cpp:409-545 | a run whose first or second answer is refused reports what is wrong with it |
| HandshakeRuns.Refused1 | src/RakNetConnect.cpp:409-461 | which first answers are too short, foreign, damaged or cut off |
| HandshakeRuns.Refused2 | src/RakNetConnect.cpp:503-541 | which second answers are too short, foreign, damaged or from an unknown address family |
| HandshakeRuns.NothingLearned | src/RakNetConnect.cpp:322-407 | without an answer every field an answer would set keeps its default |
| HandshakeRuns.CutOff | src/RakNetConnect.cpp:436-461 | a first answer that ends inside its cookie or its MTU leaves the fields read before |
| HandshakeRuns.ForeignAddress | src/RakNetConnect.cpp:532-545 | a second answer of another address family leaves the server's guid only |

## Left out

- ClientRuntime.RuntimeRefines: is stated for objects printed compactly, with any spaces behind them, whose existing values have the field's kind, where no quoted field name occurs ahead of the field's own key or, for fields a run removes, anywhere else, and for arguments that end in no quoted field name; the exact conditions are proved edit by edit, not for a whole run.
- JsonRefine.RemoveRefines: objects printed with spaces before or between their tokens are covered edit by edit on the text (`JsonSpaced`), not by a tree.
- Batch.HeaderRoundTrip: assumes of zlib and Snappy only that decompression undoes compression; their formats, and the cast of a size to `uInt`, are not part of this model.
- Batch.LegacyLosesPacket: assumes the inflater stops at a complete final block that holds nothing; zlib itself is not part of this model.
- Base64.Base64Decode: `EVP_DecodeBlock` is a specification of its 4-to-3 groups, its zero for '=' and its dropping of trailing dashes while more than three characters are left; sizes above an `int` are not modelled.
- Ciphers.Positional: the counter wraps after 2^32 blocks as the mode defines it; the length limit at which OpenSSL refuses an update is not modelled, nor are failing OpenSSL calls.
- Encryption.VerifyAesPlaintext: the text of a mismatch message is not modelled.
- BinaryStreams.BinaryStream.ReadFixed: floats and doubles are their raw bit patterns, and the 8- to 64-bit readers and writers are one member by width; unrolled shifts are the loop of the 64-bit routine.
- BinaryStreams.BinaryStream.Run: a caller's change through the mutable `buffer()` is an operation of the run; a reference kept beyond it, and a borrowed vector changed by its owner during the view, are not modelled.
- TypeIndex.GeneratedProtocolTypeJson: names and versions are ASCII without characters that need escaping in a C++ literal; loading and compacting JSON are function arguments; the lookup by name alone is the same call with the latest version.
- RakNetConnect.AddressExactly: addresses are four octets; the dotted text between `inet_ntop` and `inet_pton` is not modelled.
- Handshake.OpenConnection: log output and the random client guid are not modelled; what arrives is any byte string.
- JsonRemoval.RemoveScalarExactly: for a member that holds a list or an object there is no condition for one given object, only the one for all values and the one where the colon found is the member's own.
- Advertisement.IntOf: a number is the integer written; its rounding to a double by `strtod` is not part of this model, nor are the fields' printing and their defaults.
- `size_t` is unbounded, which agrees with 64-bit sizes of vectors that fit in memory.
- Sockets, select, DNS, clocks, random numbers, files, `curl`, `popen` and signals are arguments or absent.
- ECDH, key loading, ProtoDef, NBT, chunks, worlds, registries, relay and client or server life cycle are not part of this model.

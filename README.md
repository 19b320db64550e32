# rbin in Dafny

A model of the `rbin` crate's decoder for "PROP" bin documents, with proofs about it.
A document starts with the magic `PROP` and a u32 version. Then come a list of linked file
names and a table of entries. Each entry is a struct of typed fields. Names are stored as
32-bit FNV-1a hashes, and file paths as 64-bit xxHash hashes. The decoder resolves each
hash against one of five dictionaries loaded from text files of `<hex> <text>` lines.

Modules, in dependency order:

- `Outcomes` (outcomes.dfy): a decoder outcome is `Ok`, `Fail` (a `std::io::Error` the
  reader returns) or `Panic` (the reader's two aborts: an unknown type tag, and a
  declared length that runs past its enclosing slice).
- `Bytes` (bytes.dfy): fixed-width integers, little-endian bytes and two's complement.
- `Utf8` (utf8.dfy): well-formed UTF-8 as section 4 of RFC 3629 defines it. `read_string`
  uses it.
- `Hashes` (hashes.dfy): `BinFNV` and `BinXXH`, their equality, order and display;
  FNV-1a `from_string`; dictionary files. `BinHashList` and `BinHashes` are classes,
  because their tables are filled in place.
- `Values` (values.dfy): `BinValue`, `Bin`, and `HashMap::insert` on struct fields.
- `Wire` (wire.dfy): the decoding rules of `src/reader.rs` as pure functions over a
  `View` (buffer, end of window, depth, dictionaries) and a position. This is the
  reference the reader is proved against.
- `WireFacts` (wire_facts.dfy): the layout each rule implies, stated on the results of
  `Wire`. This covers byte order, sign extension, UTF-8 strings, dictionary routing,
  sub-reader windows and the depth limit, wire order of containers, last-write-wins in
  structs, and the document layout.
- `Reader` (reader.dfy): `BinReader` as a class with a mutable cursor. Every read method
  is a step-by-step imperative method that is proved to agree with its `Wire` function:
  the same value and end position, or the same error or panic.
- `Rbin` (lib.dfy): `Bin::read_from`.

How the reader handles malformed input:

- A sub-region or string length that runs past the enclosing slice panics when the slice
  is taken; the model returns `Panic(SliceOutOfRange)`.
- A byte that names no type panics in the `unwrap` after `BinType::try_from`; the model
  returns `Panic(UnknownTag)`.
- A child reader's window moves the parent's cursor to the region's end as soon as the
  length is read. A child that reads less than its region leaves the rest unread without
  any error, as the code does.
- Errors carry no byte offset.

## Model

| member | source | states |
|---|---|---|
| Bytes.LeValue | src/reader.rs:46-92 | the value of a little-endian byte string is below 256 to the power of its length |
| Bytes.LeBytes | src/reader.rs:46-92 | the n-byte little-endian encoding has exactly n bytes |
| Bytes.LeValueOfLeBytes | src/reader.rs:46-92 | encoding a value below 256^n in n bytes and reading them back gives the value |
| Bytes.LeBytesOfLeValue | src/reader.rs:46-92 | reading bytes as a number and re-encoding at the same width gives the bytes back |
| Bytes.Signed | src/reader.rs:46-86 | the two's-complement reading of an n-byte pattern lies in the signed range and is congruent to the pattern modulo 256^n |
| Utf8.DecodeScalar | src/reader.rs:141-149 | one scalar at the front of the bytes takes 1 to 4 bytes, never more than the input holds |
| Utf8.EncodeChar | src/reader.rs:141-149 | a scalar's encoding is 1 to 4 bytes |
| Utf8.Decode | src/reader.rs:146-148 | a well-formed byte string decodes to a text no longer than the bytes and at least a quarter as long |
| Utf8.DecodeScalarOfEncodeChar | src/reader.rs:141-149 | decoding from a scalar's encoding, whatever follows it, yields that scalar and consumes the encoding |
| Utf8.EncodeCharOfDecodeScalar | src/reader.rs:141-149 | a decoded scalar re-encodes to exactly the bytes it was decoded from |
| Utf8.DecodeOfEncode | src/reader.rs:141-149 | decoding the UTF-8 of any text gives the text back |
| Utf8.DecodeCons | src/reader.rs:141-149 | well-formed bytes are one scalar's encoding followed by well-formed bytes |
| Utf8.EncodeOfDecode | src/reader.rs:141-149 | well-formed bytes are the encoding of the text they decode to |
| Hashes.GetHash | src/hashes.rs:66-68 | `get_hash` gives back the number that `from_hash` turns into the same name without its text |
| Hashes.Eq | src/hashes.rs:101-105 | two names of one kind are equal exactly when they agree once their texts are dropped; equal names feed the hasher alike |
| Hashes.HashInput | src/hashes.rs:95-99 | what `hash` feeds the hasher does not depend on the name's text |
| Hashes.FormatTo | src/hashes.rs:74-80 | an unlabelled name shows as `0x` and 8 or 16 digits; a labelled one as its text with one character on each side |
| Hashes.LoadLines | src/hashes.rs:224-239 | loading lines never removes a hash from the table |
| Hashes.FromHash | src/hashes.rs:40-45 | a name built from a hash has that kind and hash and no text |
| Hashes.FromHashString | src/hashes.rs:59-64 | a name built from a hash and a text keeps both |
| Hashes.Cmp | src/hashes.rs:111-121 | `cmp` orders names by their hashes: Less exactly when the first hash is smaller, Greater exactly when it is larger, and Equal exactly when `eq` holds |
| Hashes.LabelIgnored | src/hashes.rs:95-121 | equality, order and hashing look at the hash only: names that differ only in text are equal, compare Equal and hash alike, and names with different hashes differ |
| Hashes.CmpIsTotalOrder | src/hashes.rs:111-121 | the order is antisymmetric, transitive and consistent with equality |
| Hashes.HexDigits | src/hashes.rs:74-80 | a value is written as exactly the requested number of upper-case hex digits |
| Hashes.HexValueOfHexDigits | src/hashes.rs:74-80 | reading the displayed digits back gives the hash: display loses nothing |
| Hashes.FormatToShape | src/hashes.rs:74-80 | an unlabelled name displays as `0x` and 8 (FNV) or 16 (XXH) hex digits of its hash; a labelled one as its quoted text |
| Hashes.LimitIsPow16 | src/hashes.rs:158-164 | the range of a 32-bit or 64-bit hash is 16 to the number of display digits |
| Hashes.XorBitsZero | src/hashes.rs:50 | `^` with zero keeps the low n bits of the other operand |
| Hashes.XorBitsSymmetric | src/hashes.rs:50 | `^` gives the same bits whichever operand comes first |
| Hashes.XorBitsCancel | src/hashes.rs:50 | xoring the same number in twice gives back the low n bits |
| Hashes.XorByteSymmetric | src/hashes.rs:50 | the byte `^` of the FNV step does not depend on the order of its operands |
| Hashes.XorByteCancel | src/hashes.rs:50 | xoring the same byte into a byte twice gives that byte back |
| Hashes.FnvSnoc | src/hashes.rs:47-57 | FNV-1a of one more byte is one more xor-and-multiply step modulo 2^32 |
| Hashes.AsciiLowercase | src/hashes.rs:49 | lower-casing keeps the length and maps every character through ASCII lower-casing |
| Hashes.FromString | src/hashes.rs:47-57 | the loop over the lower-cased text's UTF-8 bytes yields FNV-1a of them, with no text kept |
| Hashes.StringHashIgnoresAsciiCase | src/hashes.rs:47-57 | texts equal up to ASCII case get the same hash |
| Hashes.StringHashExamples | src/hashes.rs:47-57 | the empty text hashes to the FNV offset basis 0x811c9dc5; "a" and "A" both hash to 0xe40c292c |
| Hashes.Lookup | src/hashes.rs:241-247 | looking up a hash keeps the hash and gives the table's text for it, or no text when the table has none |
| Hashes.RadixDigits | src/hashes.rs:229 | the digits of a radix parse are the text with one leading '+' removed, if there is one |
| Hashes.FromStrRadix16 | src/hashes.rs:229 | a parse succeeds exactly when the digits after an optional '+' are non-empty, all hex digits of either case, and their value fits the width; the result is that value |
| Hashes.ParseHexLine | src/hashes.rs:227-235 | any non-empty hex digit string of either case, a space and a text parse to the digits' value and the text when the value fits, and to the bad-hex error when it does not |
| Hashes.HexValueShift | src/hashes.rs:229 | a zero digit appended to a hex digit string multiplies its value by 16 |
| Hashes.ParsePlusLine | src/hashes.rs:227-235 | the line "+ff x" parses to the hash 0xff and the text "x" |
| Hashes.ParseLonePlus | src/hashes.rs:227-235 | the line "+ x" is a bad-hex line: a '+' alone is no number |
| Hashes.ParseOverflow | src/hashes.rs:227-235 | the line "100000000 x" is a bad-hex line: 2^32 does not fit a 32-bit hash |
| Hashes.FirstSpace | src/hashes.rs:227 | a line's first space is a space with none before it |
| Hashes.ParseLine | src/hashes.rs:227-235 | a parsed hash fits its width; a line fails with a missing-separator error exactly when it has no space |
| Hashes.ParseLineSplitsAtFirstSpace | src/hashes.rs:227-235 | a line that parses is its hex part, the first space and its text part |
| Hashes.ParseFormattedLine | src/hashes.rs:227-235 | a line written as the hex display of a hash, a space and a text parses back to that hash and text |
| Hashes.LoadLinesKeysFit | src/hashes.rs:224-239 | every hash in a loaded table fits the kind's width |
| Hashes.LoadLinesParsedAll | src/hashes.rs:224-239 | a load that succeeds has parsed every line |
| Hashes.LoadLinesKeepsUnnamed | src/hashes.rs:224-239 | a hash that no loaded line names keeps its earlier text, or stays absent |
| Hashes.LoadLinesLastWins | src/hashes.rs:236 | when every line parses, a hash named by several lines ends with the text of the last of them |
| Hashes.FirstMalformed | src/hashes.rs:225-235 | the index found is the first line that does not parse, or the number of lines |
| Hashes.LoadLinesStopsAtFirstError | src/hashes.rs:225-238 | a load stops at the first malformed line with that line's error; the lines before it are already inserted |
| Hashes.BinHashList.constructor | src/hashes.rs:218-222 | a new table of the kind is empty |
| Hashes.BinHashList.Get | src/hashes.rs:241-247 | `get` keeps the kind and the hash, and gives the table's text for the hash when it has one and no text otherwise |
| Hashes.BinHashList.ReadFromLines | src/hashes.rs:224-239 | the in-place load loop leaves the table and the result that LoadLines computes from the old table |
| Hashes.BinHashes.constructor | src/hashes.rs:257-266 | five new, distinct, empty tables |
| Hashes.EmptyTableUnlabelled | src/hashes.rs:241-247 | a lookup in an empty table is the bare hash and displays as `0x` and its hex digits |
| Hashes.LoadedLineResolves | src/hashes.rs:224-247 | after loading the line `<hex> <text>`, the table answers that text for that hash |
| Values.Insert | src/reader.rs:204 | after an insert the key's hash is a key of the map |
| Values.InsertSlots | src/reader.rs:204 | an insert puts the new value under the hash, keeps the first-stored key when the hash was present, and leaves other hashes alone |
| Values.InsertAllKeys | src/reader.rs:197-207 | after inserting a list of pairs the keys are the old keys and the hashes the list names |
| Values.InsertAllLastWins | src/reader.rs:200-205 | each hash named in the list holds the value of its last occurrence |
| Values.InsertAllUnchanged | src/reader.rs:200-205 | a hash the list does not name keeps its slot |
| Values.InsertAllKeyedByHash | src/lib.rs:26 | inserting keeps every slot under the hash of its own key |
| Wire.TypeOf | src/reader.rs:9-37 | the type of an accepted tag byte has that byte as its code |
| WireFacts.CodeRoundTrip | src/reader.rs:9-37 | every type's code is an accepted tag that maps back to the type |
| Wire.Take | src/reader.rs:46-56 | reading n bytes succeeds exactly when n bytes remain in the window, advances by n, and otherwise fails with end of file |
| Wire.ReadUnsigned | src/reader.rs:52-92 | an unsigned read succeeds exactly when n bytes remain, gives a value below 256^n and advances by n; otherwise end of file |
| Wire.ReadSigned | src/reader.rs:46-86 | a signed read succeeds exactly when n bytes remain and advances by n; otherwise end of file |
| Wire.ReadF32 | src/reader.rs:94-98 | a float read succeeds exactly when 4 bytes remain and advances by 4; otherwise end of file |
| Wire.F32s | src/reader.rs:104-123 | k floats, the i-th from the four bytes at 4i past the start |
| Wire.ReadF32s | src/reader.rs:104-123 | k float reads succeed exactly when 4k bytes remain and advance by 4k; otherwise end of file |
| Wire.ReadMtx44 | src/reader.rs:125-131 | a matrix read succeeds exactly when 64 bytes remain and advances by 64; otherwise end of file |
| Wire.ReadRgba | src/reader.rs:133-139 | a colour read succeeds exactly when 4 bytes remain and advances by 4; otherwise end of file |
| Wire.ReadString | src/reader.rs:141-149 | a string read fails with end of file exactly when the two count bytes are missing, and a success ends inside the window after the count |
| Wire.ReadFnvName | src/reader.rs:151-169 | a 32-bit name read succeeds exactly when 4 bytes remain and advances by 4; otherwise end of file |
| Wire.ReadHashName | src/reader.rs:151-154 | a hash name read succeeds exactly when 4 bytes remain, advances by 4, and the name carries the hashes dictionary's text for its hash |
| Wire.ReadEntryName | src/reader.rs:156-159 | as ReadHashName, with the entries dictionary |
| Wire.ReadTypeName | src/reader.rs:161-164 | as ReadHashName, with the types dictionary |
| Wire.ReadFieldName | src/reader.rs:166-169 | as ReadHashName, with the fields dictionary |
| Wire.ReadPathName | src/reader.rs:171-174 | a path read succeeds exactly when 8 bytes remain and advances by 8; otherwise end of file |
| Wire.ReadType | src/reader.rs:100-102 | a type read that succeeds advances by one byte |
| Wire.OpenRegion | src/reader.rs:176-195 | a sub-reader's window is valid, starts after the length and ends inside the parent's window |
| Wire.DecodeScalar | src/reader.rs:212-231 | a scalar read that succeeds ends inside the window, no earlier than it started |
| Wire.DecodeValue | src/reader.rs:209-275 | a value read that succeeds ends inside the window, no earlier than it started |
| Wire.DecodeOption | src/reader.rs:232-240 | an Option read that succeeds ends inside the window |
| Wire.DecodeList | src/reader.rs:241-250 | a List read that succeeds ends inside the parent's window |
| WireFacts.ListLayout | src/reader.rs:241-250 | a List is a type byte, then a region whose first u32 counts the items; the list holds exactly that many values, decoded from just after the count, and the read ends at the region's end |
| Wire.DecodeItems | src/reader.rs:245-248 | a run of items that succeeds ends inside the sub-reader's window |
| Wire.DecodeItem | src/reader.rs:247 | one item that succeeds ends inside the window |
| Wire.DecodeMap | src/reader.rs:251-263 | a Map read that succeeds ends inside the parent's window |
| WireFacts.MapLayout | src/reader.rs:251-263 | a Map is a key type byte and a value type byte, then a region whose first u32 counts the pairs; the map holds exactly that many pairs, decoded from just after the count, and the read ends at the region's end |
| Wire.DecodePairs | src/reader.rs:256-261 | a run of pairs that succeeds ends inside the sub-reader's window |
| Wire.DecodePair | src/reader.rs:258-260 | one pair that succeeds ends inside the window |
| Wire.DecodePointer | src/reader.rs:264-273 | a Pointer or Embed read that succeeds ends inside the window |
| Wire.DecodeFields | src/reader.rs:197-207 | a struct body that succeeds ends inside the window |
| Wire.DecodeFieldsFrom | src/reader.rs:200-205 | a run of fields that succeeds ends inside the window |
| Wire.DecodeField | src/reader.rs:200-205 | one field takes at least its 4-byte name and 1-byte type |
| Wire.FieldPair | src/reader.rs:201-203 | one (name, value) pair takes at least its 4-byte name and 1-byte type |
| Wire.DecodeTypedValue | src/reader.rs:202-203 | a type tag and its value take at least the tag byte |
| Wire.DecodeLinks | src/reader.rs:295-303 | a link list that succeeds ends inside the window |
| Wire.DecodeLinksFrom | src/reader.rs:298-301 | n strings are appended after the ones read before, which are kept, and the first one appended is the string read where the loop starts |
| Wire.DecodeEntries | src/reader.rs:277-293 | the entry table that succeeds ends inside the window |
| Wire.DecodeTypeNames | src/reader.rs:279-283 | n type names succeed exactly when 4n bytes remain, are appended after earlier ones and advance by 4n; otherwise end of file |
| Wire.DecodeEntriesFrom | src/reader.rs:284-291 | the entry regions that succeed end inside the window |
| Wire.DecodeEntry | src/reader.rs:286-290 | one entry region moves the reader forward, inside the window |
| Wire.EntryPair | src/reader.rs:286-289 | one (entry name, struct) pair moves the reader forward, inside the window |
| Wire.DecodeBin | src/reader.rs:305-325 | a buffer shorter than 4 bytes is end of file; a decoded document starts with the magic and has as version the u32 after it |
| WireFacts.UnsignedIsLittleEndian | src/reader.rs:52-92 | an unsigned read is the little-endian value of the next n bytes, and those bytes are its n-byte encoding; fewer bytes give end of file |
| WireFacts.SignedIsTwosComplement | src/reader.rs:46-86 | a signed read is the two's-complement value of the same n bytes; fewer bytes give end of file |
| WireFacts.UnsignedTagsZeroExtend | src/reader.rs:214-221 | U8, U16, U32 and U64 values are the little-endian value of 1, 2, 4 and 8 bytes |
| WireFacts.SignedTagsSignExtend | src/reader.rs:214-221 | I8, I16, I32 and I64 values are the signed value of 1, 2, 4 and 8 bytes |
| WireFacts.BoolAndFlagReadOneByte | src/reader.rs:213 | Bool and Flag read one byte and are true exactly when it is not zero |
| WireFacts.ReadF32sValues | src/reader.rs:104-123 | k float reads with 4k bytes left give the k patterns in wire order |
| WireFacts.F32sCons | src/reader.rs:104-123 | k floats are the first float followed by the next k-1 |
| WireFacts.Mtx44Rows | src/reader.rs:125-131 | a matrix is four rows of four floats, in wire order |
| WireFacts.RgbaReversesBytes | src/reader.rs:133-139 | a colour holds its four wire bytes in reverse order |
| WireFacts.StringLayout | src/reader.rs:141-149 | a string is a u16 byte count and that many UTF-8 bytes that the text encodes back to; a count past the window panics; ill-formed bytes fail; a missing count is end of file |
| WireFacts.StringPayload | src/reader.rs:146-148 | the counted bytes give their text when they are UTF-8 and the invalid-data error when not |
| WireFacts.StringRoundTrip | src/reader.rs:141-149 | a text written as its byte count and UTF-8 is read back |
| WireFacts.NamesRouteToTables | src/reader.rs:151-169 | hash, entry, type and field names each look their u32 up in their own dictionary |
| WireFacts.PathRoutesToPaths | src/reader.rs:171-174 | a path is a u64 looked up in the path dictionary |
| WireFacts.HashRoutes | src/reader.rs:229 | a Hash value is a name from the hashes dictionary |
| WireFacts.LinkRoutes | src/reader.rs:230 | a Link value is a name from the entries dictionary |
| WireFacts.FileRoutes | src/reader.rs:231 | a File value is a path from the paths dictionary |
| WireFacts.TypeLayout | src/reader.rs:100-102 | a type byte past the window is end of file, an accepted byte is its type, any other byte panics |
| WireFacts.RegionLayout | src/reader.rs:176-195 | past the depth limit a sub-reader fails before reading; otherwise a u32 length follows; the child window runs for that many bytes after it, one level deeper; a length past the parent's window panics |
| WireFacts.RegionDepthBound | src/reader.rs:177-182 | a sub-reader is exactly one level deeper and never past depth 128; at depth 128 none opens |
| WireFacts.OptionIsInline | src/reader.rs:232-240 | an Option's value is read in place, in the same window; a zero presence byte is None |
| WireFacts.NullPointerOpensNoRegion | src/reader.rs:266-268 | a Pointer or Embed with type hash 0 is None and reads only the 4 hash bytes |
| WireFacts.AliasedTagsAgree | src/reader.rs:241-273 | List and List2 decode alike, and so do Pointer and Embed |
| WireFacts.ItemsKeepPrefix | src/reader.rs:245-248 | reading n items keeps the earlier ones in front and appends exactly n |
| WireFacts.LinksAreStrings | src/reader.rs:298-301 | the loop appends exactly the links that are n strings written one after another from its start, and stops where the last one ends; and only those |
| WireFacts.ItemsInWireOrder | src/reader.rs:245-248 | the first new item is the value decoded at the start of the run |
| WireFacts.PairsInWireOrder | src/reader.rs:256-261 | reading n pairs keeps the earlier ones, appends exactly n, and the first new pair is the one decoded at the start |
| WireFacts.FieldsInsertInWireOrder | src/reader.rs:200-205 | reading fields is inserting the wire list of (name, value) pairs in order, so a repeated name keeps its last value |
| WireFacts.FieldsKeyedByHash | src/reader.rs:197-207 | every field of a decoded struct sits under the hash of its own name |
| WireFacts.EntriesInsertInWireOrder | src/reader.rs:284-291 | reading entries is inserting the wire list of (entry name, struct) pairs in order |
| WireFacts.LeValue4 | src/reader.rs:76-80 | four little-endian bytes weigh 1, 256, 65536 and 16777216 |
| WireFacts.MagicSpellsProp | src/reader.rs:312-313 | the magic constant is the bytes "PROP" read as a little-endian u32 |
| WireFacts.BadMagicRefused | src/reader.rs:312-323 | a buffer whose first four bytes are not the magic is refused with the bad-magic error |
| WireFacts.DocumentLayout | src/reader.rs:305-325 | a decoded document starts with the magic, keeps the version after it, holds as links the counted strings written one after another from byte 12, in wire order, and holds each entry under its own name hash |
| WireFacts.LeValueOfZeros | src/reader.rs:46-92 | zero bytes have the value zero |
| WireFacts.NoLinks | src/reader.rs:295-303 | a zero link count is an empty link list after 4 bytes |
| WireFacts.NoEntries | src/reader.rs:277-293 | a zero entry count is an empty entry table after 4 bytes |
| WireFacts.EmptyDocument | src/reader.rs:305-325 | the magic, a version and two zero counts, followed by any bytes, make a document with no links and no entries |
| WireFacts.SmallestDocument | src/reader.rs:305-325 | "PROP", version 7 and eight zero bytes decode to version 7 with no links and no entries |
| Reader.BinReader.constructor | src/reader.rs:39-43 | a reader over a window, at a depth, with the dictionaries and the cursor where given |
| Reader.BinReader.ReadExact | src/reader.rs:46-98 | `read_exact` agrees with Take: the same bytes and cursor, or end of file |
| Reader.BinReader.ReadUnsigned | src/reader.rs:52-92 | the unsigned reads agree with Wire.ReadUnsigned |
| Reader.BinReader.ReadSigned | src/reader.rs:46-86 | the signed reads, widened to i64, agree with Wire.ReadSigned |
| Reader.BinReader.ReadF32 | src/reader.rs:94-98 | `read_f32` agrees with Wire.ReadF32 |
| Reader.BinReader.ReadVec2 | src/reader.rs:104-108 | two float reads agree with ReadF32s for 2 |
| Reader.BinReader.ReadVec3 | src/reader.rs:110-115 | three float reads agree with ReadF32s for 3 |
| Reader.BinReader.ReadVec4 | src/reader.rs:117-123 | four float reads agree with ReadF32s for 4 |
| Reader.BinReader.ReadMtx44 | src/reader.rs:125-131 | four vec4 reads agree with Wire.ReadMtx44 |
| Reader.BinReader.ReadRgba | src/reader.rs:133-139 | four byte reads, returned reversed, agree with Wire.ReadRgba |
| Reader.BinReader.ReadString | src/reader.rs:141-149 | count, seek, slice and UTF-8 check agree with Wire.ReadString, panics included |
| Reader.BinReader.ReadFnvName | src/reader.rs:151-169 | a u32 read and a dictionary lookup agree with Wire.ReadFnvName |
| Reader.BinReader.ReadHashName | src/reader.rs:151-154 | agrees with Wire.ReadHashName |
| Reader.BinReader.ReadEntryName | src/reader.rs:156-159 | agrees with Wire.ReadEntryName |
| Reader.BinReader.ReadTypeName | src/reader.rs:161-164 | agrees with Wire.ReadTypeName |
| Reader.BinReader.ReadFieldName | src/reader.rs:166-169 | agrees with Wire.ReadFieldName |
| Reader.BinReader.ReadPathName | src/reader.rs:171-174 | a u64 read and a path lookup agree with Wire.ReadPathName |
| Reader.BinReader.ReadType | src/reader.rs:100-102 | a byte read and `try_from(..).unwrap()` agree with Wire.ReadType |
| Reader.BinReader.ReadSubReader | src/reader.rs:176-195 | the depth check, length read, seek and new reader agree with OpenRegion: a fresh reader over the child window, and the parent's cursor at the region's end |
| Reader.BinReader.ReadFields | src/reader.rs:197-207 | the field loop agrees with Wire.DecodeFields |
| Reader.BinReader.ReadField | src/reader.rs:200-205 | one turn of the loop agrees with Wire.DecodeField |
| Reader.BinReader.ReadTypedValue | src/reader.rs:202-203 | a type read then a value read agree with Wire.DecodeTypedValue |
| Reader.BinReader.ReadValue | src/reader.rs:209-275 | `read_value` agrees with Wire.DecodeValue for every type |
| Reader.BinReader.ReadScalar | src/reader.rs:212-231 | the scalar arms agree with Wire.DecodeScalar |
| Reader.BinReader.ReadOption | src/reader.rs:232-240 | the Option arm agrees with Wire.DecodeOption |
| Reader.BinReader.ReadList | src/reader.rs:241-250 | the List arm agrees with Wire.DecodeList |
| Reader.BinReader.ReadItems | src/reader.rs:245-248 | the item loop agrees with Wire.DecodeItems |
| Reader.BinReader.ReadItem | src/reader.rs:247 | one turn of the item loop agrees with Wire.DecodeItem |
| Reader.BinReader.ReadMap | src/reader.rs:251-263 | the Map arm agrees with Wire.DecodeMap |
| Reader.BinReader.ReadPairs | src/reader.rs:256-261 | the pair loop agrees with Wire.DecodePairs |
| Reader.BinReader.ReadPair | src/reader.rs:258-260 | one key then one value agree with Wire.DecodePair |
| Reader.BinReader.ReadPointer | src/reader.rs:264-273 | the Pointer arm agrees with Wire.DecodePointer |
| Reader.BinReader.ReadEntries | src/reader.rs:277-293 | `read_entries` agrees with Wire.DecodeEntries |
| Reader.BinReader.ReadTypeNames | src/reader.rs:279-283 | the type-name loop agrees with Wire.DecodeTypeNames |
| Reader.BinReader.ReadEntriesFrom | src/reader.rs:284-291 | the entry loop agrees with Wire.DecodeEntriesFrom |
| Reader.BinReader.ReadEntry | src/reader.rs:286-290 | one entry region agrees with Wire.DecodeEntry |
| Reader.BinReader.ReadLinks | src/reader.rs:295-303 | the link loop agrees with Wire.DecodeLinks |
| Reader.BinReader.ReadBin | src/reader.rs:305-325 | `read_bin` is DecodeBin of the buffer and the dictionaries' contents |
| Rbin.ReadFrom | src/lib.rs:36-39 | `Bin::read_from` is DecodeBin; a decoded document starts with the magic, keeps its version, and holds each entry under its own name hash |

## Left out

- File I/O: `read_from_file` opens a file and reads its lines through a `BufReader`.
  `BinHashList.ReadFromLines` takes the lines as a sequence instead. The error for a line
  that cannot be read is not modelled.
- Floating point: `f32` values are kept as their 32-bit patterns, which is all the decoder
  does with them.
- `Hashes.FormatToShape`: a labelled name is shown through `Quoted`. This adds the double
  quotes of `{:?}` but not its escaping of quotes, backslashes and control characters.
- `BinXXH::from_string` is `todo!()` in the source, so there is nothing to model.
- `get_string` returns the stored text field. The model reads the `unhashed` field
  directly.
- The `rbindump` command in rbindump/src/main.rs is a command-line front end. It calls a
  `Bin::read_from_data` that the crate does not define, so it is not part of this model.
- Error messages and `ErrorKind` values are reduced to the constructors of
  `Outcomes.IoError`, with no text.
- The cursor after a failed read: the reader methods' contracts do not say where it is
  left. After a failure the code drops the reader, so nothing reads that position.
- `HashMap<BinFNV, BinValue>` is a map keyed by the numeric hash. This is the only thing
  `Hash` and `Eq` look at. The map stores the first-inserted key and the latest value, as
  `HashMap::insert` does. Bucket layout and iteration order are not modelled.
- The reader keeps a snapshot of the five dictionaries (`Names`) rather than a borrow of
  the `BinHashes` object. The two are the same, because nothing mutates the dictionaries
  during a decode.
- Machine-word width: positions and lengths are unbounded integers, so the model matches a
  target whose `usize` has 64 bits. On a 32-bit target the `as usize` cast after the seek in
  `read_sub_reader` can wrap when a region length near 2^32 takes the end position past 2^32.
  The slice would then succeed and the child read fail with end of file where the model
  panics. The same cast in `read_string` cannot wrap there, since a buffer holds fewer than
  2^31 bytes and the length is a u16.
- Sub-reader lifetimes and borrows: a child reader is a new `BinReader` object over the
  same buffer, with a shorter window.

# kuromoji.ts core, modelled in Dafny

kuromoji.ts is a Japanese morphological analyser. It lays the candidate words of an input
over a lattice and picks the cheapest segmentation with the Viterbi algorithm. The
algorithm adds word costs and the connection costs between adjacent words' context ids.
This project models the parts of it that hold that search together, and proves properties
of the model:

- **The Viterbi lattice and search**.
  - `viterbi_node.dfy` models `ViterbiNode`: a word record and the BOS/EOS sentinels.
  - `viterbi_lattice.dfy` models `ViterbiLattice`: buckets of nodes indexed by the last
    input position each node covers, with `append`, `appendEos` and `getLastNode`.
  - `viterbi_searcher.dfy` models `ViterbiSearcher`, whose forward pass gives every node
    its cheapest predecessor and whose backward pass follows those links from EOS back to
    BOS.
  - Nodes are values. A node's `prev` link is the (bucket, slot) address of its
    predecessor, not an object reference.
- **The connection cost matrix** (`connection_costs.dfy`): `ConnectionCosts`, a row-major
  `Int16Array` behind two cells that hold the dimensions.
- **The byte buffer** (`byte_buffer.dfy`): `ByteBuffer`, the growable byte array the
  dictionaries are written to and read from. It holds little-endian 16- and 32-bit
  integers and NUL-terminated UTF-8 strings.
- **UTF-8 and UTF-16**.
  - `utf8.dfy` models the UTF-8 encoder and decoder of section 3 of RFC 3629.
  - `surrogates.dfy` models the surrogate helpers, whose arithmetic is that of sections
    2.1 and 2.2 of RFC 2781.
  - `spread_string.dfy` and `indexed_string.dfy` model the two surrogate-aware string
    classes.
- **Small records and state**.
  - `ipadic_formatter.dfy`: the IPADIC token formatters. src/util/formatIpadicKnownEntry.ts
    and src/util/format-ipadic-known-entry.ts build the same known-entry token as
    `IpadicFormatter.formatKnownEntry`, and src/util/formatIpadicUnknownEntry.ts the same
    unknown-entry token as `IpadicFormatter.formatUnknownEntry`. One function models each
    mapping.
  - `character_class.dfy`: `CharacterClass`.
  - `counter.dfy`: `Counter`.

Shared definitions:

- `wrappers.dfy` defines `Option` and `Result`. `Option.None` stands for `undefined` and
  `NaN`. `Result.Err` stands for a thrown error.
- `numbers.dfy` defines how an `Int16Array` stores a number (`Int16Wrap`) and the 32-bit
  signed reading of a value (`Int32Wrap`).

How the model is written:

- Strings are sequences of UTF-16 code units. Bytes are integers 0..255.
- Where the source mutates an object in place, the model is a class whose methods are
  proved against value-level functions: `ByteBuffer`, `ConnectionCosts`,
  `ViterbiLattice`, `ViterbiSearcher`, `Counter`, and the index-mapping loop of
  `SurrogateAwareString.ts`.
- Lemmas about those functions carry the properties:
  - round trips (encode/decode, put/get, format/read back);
  - frames (what an operation leaves alone);
  - Bellman's equation for every node after the forward pass;
  - the prev chain behind the backward pass's result;
  - that this result is a cheapest path: its word and connection costs add up to EOS's
    shortest cost, and no chain of words from BOS to EOS costs less.

How the source's JavaScript is read:

- **The searcher's fields.** `forward` and `backward` are `static` and read
  `this.connection_costs`. They also read the lattice's and the nodes' `#` private fields
  from outside their classes. The model reads these as the searcher's own cost matrix, the
  lattice's buckets and the nodes' fields.
- **`shortest_cost`.** The searcher reads and writes a `shortest_cost` property. The model
  takes it to be the node's shortest cost, which the constructor sets to 0 for BOS and to
  `Number.MAX_SAFE_INTEGER` otherwise.
- **Context ids of BOS and EOS.** The sentinels carry context id 0 on both sides, as
  `createBeginOfStatement`/`createEndOfStatement` build them (src/viterbi/ViterbiNode.ts:24-30).

## Model

| member | source | states |
|---|---|---|
| Surrogates.IsHighSurrogate | src/util/is-high-surrogate.ts:6-7 | a definition with no contract of its own: the range 0xD800..0xDBFF; HighSurrogateExamples, SurrogateRangesDisjoint and ConvertInvertsSplit state what it accepts |
| Surrogates.IsLowSurrogate | src/util/is-low-surrogate.ts:6-7 | a definition with no contract of its own: the range 0xDC00..0xDFFF; LowSurrogateExamples, SurrogateRangesDisjoint and ConvertInvertsSplit state what it accepts |
| Surrogates.HighSurrogateExamples | src/util/is-high-surrogate.ts:6-7 | 0xD83D is a high surrogate; 0x61 and the low surrogate 0xDE03 are not |
| Surrogates.LowSurrogateExamples | src/util/is-low-surrogate.ts:6-7 | 0xDE03 is a low surrogate; 0x61 and the high surrogate 0xD83D are not |
| Surrogates.SurrogateRangesDisjoint | src/util/is-low-surrogate.ts:6-7 | no value is both a high and a low surrogate |
| Surrogates.ConvertToSurrogatePair | src/util/convert-to-surrogate-pair.ts:7-13 | a definition with no contract of its own: the unchecked formula of lines 7-13; ConvertInvertsSplit and SplitThenConvert prove it is the inverse of splitting a supplementary code point into halves |
| Surrogates.ConvertInvertsSplit | src/util/convert-to-surrogate-pair.ts:7-13 | for a high and a low surrogate the result is a supplementary code point whose RFC 2781 halves are exactly the two inputs |
| Surrogates.SplitThenConvert | src/util/convert-to-surrogate-pair.ts:7-13 | splitting a supplementary code point into halves and converting them back gives the code point |
| Surrogates.ConvertExample | src/util/convert-to-surrogate-pair.ts:7-13 | 0xD83D, 0xDE03 convert to U+1F603 |
| Surrogates.CombineToSurrogatePair | src/util/combine-to-surrogate-pair.ts:10-30 | throws "not a high surrogate" first, then "not a low surrogate"; succeeds exactly for a high/low pair, with a supplementary result whose halves are the inputs |
| Surrogates.CombineAgreesWithConvert | src/util/combine-to-surrogate-pair.ts:24-29 | where the checked combiner succeeds it returns the unchecked conversion |
| Surrogates.CombineInjective | src/util/combine-to-surrogate-pair.ts:24-29 | distinct valid pairs give distinct code points |
| Surrogates.CombineExamples | src/util/combine-to-surrogate-pair.ts:14-23 | U+1F603 from its pair; each guard rejects a non-surrogate in its own position |
| Surrogates.IsSurrogatePairCode | src/util/is-surrogate-pair.ts:6-7 | a definition with no contract of its own: the predicate as written, the high range only; IsSurrogatePairCodeMissesLowHalves states that it equals IsHighSurrogate |
| Surrogates.IsSurrogatePairCodeMissesLowHalves | src/util/is-surrogate-pair.ts:6-7 | as written the predicate is isHighSurrogate: it accepts the high half and rejects the low half of every supplementary code point |
| Surrogates.IsSurrogatePairCodeExamples | src/util/is-surrogate-pair.ts:6-7 | as written: true for 0xD83D, false for 0x61 and for the low surrogate 0xDE03 |
| Surrogates.IsSurrogateCodeUnitAcceptsBothHalves | src/util/is-surrogate-pair.ts:1-5 | the documented predicate accepts both halves of every pair and is exactly the range 0xD800..0xDFFF |
| Surrogates.IsSurrogatePair | src/util/isSurrogatePair.ts:1-6 | a definition with no contract of its own: a string is judged by its first code unit and a number by itself; IsSurrogatePairMeansHigh states the outcome for both |
| Surrogates.IsSurrogatePairMeansHigh | src/util/isSurrogatePair.ts:1-6 | true exactly when the judged unit (a string's first code unit, or the number) is a high surrogate; false for the empty string |
| SpreadStrings.FromRaw | src/util/surrogate-aware-string.ts:42-44 | a definition with no contract of its own: the spread of the raw string; SpreadIsCodePointSplit states what the spread is |
| SpreadStrings.SurrogateAwareString.Length | src/util/surrogate-aware-string.ts:29-31 | a definition with no contract of its own: the number of spread elements, i.e. of code points; TestSuiteExamples gives 3 for "𠮷野屋" |
| SpreadStrings.SurrogateAwareString.CharAt | src/util/surrogate-aware-string.ts:52-63 | a definition with no contract of its own: "" out of range, the element otherwise; CharAtMeaning states what it returns |
| SpreadStrings.SurrogateAwareString.CodePointAt | src/util/surrogate-aware-string.ts:71-94 | a definition with no contract of its own: NaN out of range, the combine for a high surrogate, the unit otherwise; CodePointAtMeaning states what it returns |
| SpreadStrings.SurrogateAwareString.Slice | src/util/surrogate-aware-string.ts:102-104 | a definition with no contract of its own: the join of the elements from JavaScript's clamped start; SliceMeaning states what it returns |
| SpreadStrings.SpreadIsCodePointSplit | src/util/surrogate-aware-string.ts:42-44 | the spread array joins back to the string, each element is one code unit or a genuine pair, and no pair is ever split |
| SpreadStrings.ElementsNonEmpty | src/util/surrogate-aware-string.ts:56-60 | no element is empty, so charAt's undefined check never fires in range |
| SpreadStrings.ToStringRoundTrip | src/util/surrogate-aware-string.ts:110-112 | toString gives back the raw string |
| SpreadStrings.CharAtMeaning | src/util/surrogate-aware-string.ts:52-63 | charAt is one whole code point in range and "" exactly outside it; the characters before pos, charAt(pos) and slice(pos + 1) spell the string |
| SpreadStrings.CodePointAtMeaning | src/util/surrogate-aware-string.ts:71-94 | NaN exactly outside the range; a pair's full code point; a single unit itself; a throw for a lone high surrogate |
| SpreadStrings.SliceMeaning | src/util/surrogate-aware-string.ts:102-104 | the prefix before the JavaScript start index followed by slice(start) is the string; "" from the length on; the whole string for 0 or at most minus the length |
| SpreadStrings.TestSuiteExamples | src/util/surrogate-aware-string.test.ts:22-506 | "𠮷野屋" has length 3, charAt(0) is the pair, codePointAt(0) is 0x20BB7, slice(1) and slice(-2) are "野屋" |
| IndexedStrings.MappingShape | src/util/SurrogateAwareString.ts:37-46 | the index mapping starts at 0, strictly increases, stays below the raw length, has at most one entry per unit and is empty only for "" |
| IndexedStrings.MappingSteps | src/util/SurrogateAwareString.ts:38-44 | each offset is the previous one plus 2 after a high surrogate and plus 1 otherwise |
| IndexedStrings.BuildIndexMapping | src/util/SurrogateAwareString.ts:33-44 | the constructor's loop builds exactly the index mapping |
| IndexedStrings.IndexedString.constructor | src/util/SurrogateAwareString.ts:33-47 | keeps the string; the mapping is the index mapping and the length its size |
| IndexedStrings.IndexedString.CharAt | src/util/SurrogateAwareString.ts:57-72 | as written: "" exactly from the raw length on; throws for a negative index and for every index from the logical length up to the raw length |
| IndexedStrings.IndexedString.CharAtChecked | src/util/SurrogateAwareString.ts:57-72 | guarded by the logical length: "" exactly from the logical length on; throws only for a negative index |
| IndexedStrings.IndexedString.CharCodeAt | src/util/SurrogateAwareString.ts:74-97 | NaN exactly from the logical length on; throws exactly for a negative index |
| IndexedStrings.IndexedString.Slice | src/util/SurrogateAwareString.ts:103-114 | "" exactly from the logical length on; throws exactly for a negative index |
| IndexedStrings.IndexedString.ToString | src/util/SurrogateAwareString.ts:99-101 | a definition with no contract of its own: the wrapped string; the constructor's contract says that string is the one it was given |
| IndexedStrings.SliceSplitsAtCharacters | src/util/SurrogateAwareString.ts:61-71 | character i is the units from its offset to the next one: two units exactly for a high surrogate that is not last; slice(i) is character i then slice(i + 1); slice(0) is the string |
| IndexedStrings.CharCodeAtReadsCharacter | src/util/SurrogateAwareString.ts:74-97 | charCodeAt(i) is the code point of charAt(i) |
| IndexedStrings.MappingFollowsSpread | src/util/SurrogateAwareString.ts:37-44 | on text whose high surrogates are all paired, the mapping walks the spread array one element per entry |
| IndexedStrings.CharAtAgreesWithSpreadString | src/util/SurrogateAwareString.ts:57-72 | on such text both classes have the same length and the same charAt in range; the corrected charAt agrees everywhere |
| IndexedStrings.SliceAgreesWithSpreadString | src/util/SurrogateAwareString.ts:103-114 | on such text both classes give the same slice for every non-negative index |
| IndexedStrings.CharAtThrowsBetweenLengths | src/util/SurrogateAwareString.ts:58-66 | as written charAt throws at every index from the logical length up to the raw length; "𠮷" has mapping [0] |
| IndexedStrings.CharAtCheckedAgrees | src/util/SurrogateAwareString.ts:57-72 | the corrected charAt agrees with the written one wherever that returns, and in range |
| Utf8.Utf8Encode | src/util/stringToUtf8Bytes.ts:16-37 | a definition with no contract of its own: the reference encoding, pair or single unit at a time; EncodeStep, EncodeFailsOnlyOnLoneHighSurrogate, EncodeLengthBound and DecodeInvertsEncode state its meaning |
| Utf8.StringToUtf8Bytes | src/util/stringToUtf8Bytes.ts:9-74 | the encoder loop returns the reference encoding, at most four bytes per code unit |
| Utf8.WriteCodePoint | src/util/stringToUtf8Bytes.ts:39-70 | writes exactly the code point's 1 to 4 bytes at j and nothing else, or throws "malformed UCS4" with the array untouched |
| Utf8.EncodeStep | src/util/stringToUtf8Bytes.ts:16-37 | one step reads a pair or a single unit and emits that code point's bytes before the rest |
| Utf8.EncodeFailsOnlyOnLoneHighSurrogate | src/util/stringToUtf8Bytes.ts:21-34 | encoding succeeds exactly when every high surrogate is followed by a low one; the UCS4 error never occurs |
| Utf8.EncodeLengthBound | src/util/stringToUtf8Bytes.ts:9-74 | the output has between one and three bytes per code unit |
| Utf8.EncodeZeroOnlyForNul | src/util/stringToUtf8Bytes.ts:39-66 | the output holds a 0 byte exactly when the string holds U+0000 |
| Utf8.ZeroByteOnlyForZero | src/util/stringToUtf8Bytes.ts:39-66 | only code point 0 is written with a 0 byte |
| Utf8.ReadSequence | src/util/utf8-bytes-to-string.ts:18-70 | reading one sequence from i throws exactly when the bytes end before the lead byte's sequence length; otherwise it moves past that length and returns the reference decoding of those bytes |
| Utf8.DecodedCodeBelow2To21 | src/util/utf8-bytes-to-string.ts:24-70 | every sequence decodes below 2^21, and sequences of fewer than four bytes decode below 0x10000 |
| Utf8.Utf8Decode | src/util/utf8-bytes-to-string.ts:17-81 | a definition with no contract of its own: the reference decoding, one sequence at a time; DecodeLengthBound, DecodeInvertsEncode and RoundTrip state its meaning |
| Utf8.Utf8BytesToString | src/util/utf8-bytes-to-string.ts:6-84 | the decoder loop returns the reference decoding, throwing exactly when the bytes run out inside a sequence |
| Utf8.DecodeLengthBound | src/util/utf8-bytes-to-string.ts:72-80 | the text has at most one code unit per byte |
| Utf8.EncodedCodePointDecodes | src/util/utf8-bytes-to-string.ts:24-70 | the bytes of any code point below 0x110000 form one sequence that decodes to it |
| Utf8.TwoByteDecodes | src/util/utf8-bytes-to-string.ts:27-34 | the two-byte branch inverts the two-byte encoding |
| Utf8.ThreeByteDecodes | src/util/utf8-bytes-to-string.ts:35-47 | the three-byte branch inverts the three-byte encoding |
| Utf8.FourByteDecodes | src/util/utf8-bytes-to-string.ts:48-70 | the four-byte branch inverts the four-byte encoding |
| Utf8.CodeUnitsOfPair | src/util/utf8-bytes-to-string.ts:72-80 | a decoded supplementary code point is split back into the very pair it came from |
| Utf8.DecodeInvertsEncode | src/util/utf8-bytes-to-string.ts:6-84 | decoding the encoder's output gives back every string the encoder accepts |
| Utf8.RoundTrip | src/util/stringToUtf8Bytes.ts:9-74 | the two loops in sequence return every well-paired string unchanged |
| Utf8.EncodeExamples | src/util/stringToUtf8Bytes.ts:16-70 | "", "a", "あ" and "𠮷" encode to their RFC 3629 bytes; lone or broken pairs throw |
| Utf8.DecodeExamples | src/util/utf8-bytes-to-string.ts:17-81 | sample decodings, including a truncated sequence that throws and a stray continuation byte read as a four-byte lead |
| ByteBuffers.PutStores | src/util/ByteBuffer.ts:71-77 | on a non-empty buffer put stores b mod 256 at the cursor, keeps every other byte and advances the cursor by one |
| ByteBuffers.EmptyBufferDropsWrites | src/util/ByteBuffer.ts:58-77 | a zero-length buffer doubles to zero length, so its puts store nothing and only move the cursor |
| ByteBuffers.PutAllWrites | src/util/ByteBuffer.ts:71-77 | successive puts lay their bytes out from the cursor and keep everything before it |
| ByteBuffers.ShortRoundTrip | src/util/ByteBuffer.ts:93-130 | putShort then getShort at the old cursor gives the value as a signed 16-bit number, so every value in -0x8000..0x7FFF exactly |
| ByteBuffers.IntRoundTrip | src/util/ByteBuffer.ts:133-177 | putInt then getInt at the old cursor gives the value as a signed 32-bit number, so every value in -2^31..2^31-1 exactly |
| ByteBuffers.ScanEnd | src/util/ByteBuffer.ts:205-221 | the getString loop stops just past the bytes it collected |
| ByteBuffers.ScanCollects | src/util/ByteBuffer.ts:205-220 | bytes without a 0, followed by a 0, are collected exactly |
| ByteBuffers.TerminatedBytesScanBack | src/util/ByteBuffer.ts:187-220 | bytes without a 0, put with a terminator, are collected back from the old cursor |
| ByteBuffers.StringRoundTrip | src/util/ByteBuffer.ts:187-224 | putString then getString at the old cursor gives back every encodable string without U+0000 and leaves the cursor after the terminator |
| ByteBuffers.ByteBuffer.constructor | src/util/ByteBuffer.ts:32-52 | a numeric size gives that many zero bytes with the cursor at 0 |
| ByteBuffers.ByteBuffer.Default | src/util/ByteBuffer.ts:35-51 | a null argument gives 1024·1024 zero bytes |
| ByteBuffers.ByteBuffer.FromArray | src/util/ByteBuffer.ts:39-42 | a Uint8Array argument becomes the buffer itself, with the cursor at 0 |
| ByteBuffers.ByteBuffer.Reallocate | src/util/ByteBuffer.ts:58-63 | a fresh array of twice the length holding the old bytes then zeros |
| ByteBuffers.ByteBuffer.Shrink | src/util/ByteBuffer.ts:65-69 | the buffer becomes the first position bytes (all when the cursor is past the end) and is returned |
| ByteBuffers.ByteBuffer.Put | src/util/ByteBuffer.ts:71-77 | the state after put is PutState of the old state |
| ByteBuffers.ByteBuffer.Get | src/util/ByteBuffer.ts:79-90 | reads at the index or at the cursor (then advanced); 0 past the end, undefined at a negative index |
| ByteBuffers.ByteBuffer.PutShort | src/util/ByteBuffer.ts:93-102 | throws above 0xFFFF with nothing written, otherwise puts the low byte and then the high byte |
| ByteBuffers.ByteBuffer.GetShort | src/util/ByteBuffer.ts:105-130 | the signed 16-bit little-endian value at the index (0 when fewer than two bytes remain); the cursor moves by 2 only for a null index |
| ByteBuffers.ByteBuffer.PutInt | src/util/ByteBuffer.ts:133-145 | throws above 0xFFFFFFFF with nothing written, otherwise puts the four bytes low to high |
| ByteBuffers.ByteBuffer.GetInt | src/util/ByteBuffer.ts:148-177 | the signed 32-bit little-endian value at the index (0 when fewer than four bytes remain); the cursor moves by 4 only for a null index |
| ByteBuffers.ByteBuffer.ReadInt | src/util/ByteBuffer.ts:179-185 | getInt at the cursor, which cannot throw there, and the cursor moves by 4 |
| ByteBuffers.ByteBuffer.PutString | src/util/ByteBuffer.ts:187-195 | the UTF-8 bytes then a 0 are put; an encoding error throws before anything is written |
| ByteBuffers.ByteBuffer.GetString | src/util/ByteBuffer.ts:197-224 | collects bytes up to a 0 or the end, moves the cursor past them and decodes them; the guard reads the index argument, so a short buffer gives "" |
| ConnectionCostsModel.CostAt | src/dict/ConnectionCosts.ts:57-69 | overflow exactly when the flat index is not below the buffer length; a value exactly when the index is inside it |
| ConnectionCostsModel.InitialCells | src/dict/ConnectionCosts.ts:36-43 | forward·backward + 2 cells: the two dimensions as Int16 values, then zeros |
| ConnectionCostsModel.CellInRange | src/dict/ConnectionCosts.ts:57-69 | every in-range id pair addresses a matrix cell after the dimension cells |
| ConnectionCostsModel.CellsDistinct | src/dict/ConnectionCosts.ts:57-69 | distinct in-range id pairs never share a cell |
| ConnectionCostsModel.FreshMatrixIsZero | src/dict/ConnectionCosts.ts:36-43 | a fresh matrix costs 0 for every in-range pair |
| ConnectionCostsModel.PutThenGet | src/dict/ConnectionCosts.ts:57-79 | put and get fail alike; after a put, get returns the stored Int16 value, which is the cost itself whenever it fits in 16 bits |
| ConnectionCostsModel.PutChangesOneCell | src/dict/ConnectionCosts.ts:71-79 | put keeps the length and every other cell |
| ConnectionCostsModel.BackwardIdSpillsIntoNextRow | src/dict/ConnectionCosts.ts:57-69 | a backward id past the row end is not rejected: it reads the next row |
| ConnectionCostsModel.NewCells | src/dict/ConnectionCosts.ts:39-41 | a fresh Int16Array of forward·backward + 2 cells holding exactly InitialCells |
| ConnectionCostsModel.ConnectionCosts.constructor | src/dict/ConnectionCosts.ts:36-43 | the dimensions are kept and the buffer holds InitialCells |
| ConnectionCostsModel.ConnectionCosts.Buffer | src/dict/ConnectionCosts.ts:53-55 | a fresh copy of the cells |
| ConnectionCostsModel.ConnectionCosts.Get | src/dict/ConnectionCosts.ts:57-69 | get is CostAt over the current cells |
| ConnectionCostsModel.ConnectionCosts.Put | src/dict/ConnectionCosts.ts:71-79 | throws on overflow with nothing changed, otherwise the cells become PutCost of the old cells |
| ConnectionCostsModel.ConnectionCosts.LoadConnectionCosts | src/dict/ConnectionCosts.ts:81-84 | the dimensions are the first two entries, and a fresh buffer holds every entry as an Int16Array stores it |
| ViterbiNodes.NewNode | src/viterbi/ViterbiNode.ts:62-81 | no predecessor; shortest cost 0 exactly for BOS and MAX_SAFE_INTEGER otherwise; every other field as given |
| ViterbiNodes.CreateBeginOfStatement | src/viterbi/ViterbiNode.ts:24-26 | a definition with no contract of its own: the node lines 24-26 build; SentinelShapes states its fields |
| ViterbiNodes.CreateEndOfStatement | src/viterbi/ViterbiNode.ts:28-30 | a definition with no contract of its own: the node lines 28-30 build; SentinelShapes states its fields |
| ViterbiNodes.LastPosition | src/viterbi/ViterbiNode.ts:123-125 | a definition with no contract of its own: start + length - 1; SentinelShapes gives -1 for BOS, and AppendNodeFacts files a node under it |
| ViterbiNodes.SentinelShapes | src/viterbi/ViterbiNode.ts:24-30 | BOS: name -1, cost 0, start 0, length 0, ids 0, last position -1; EOS is the same but for its type, its start and its unresolved cost |
| ViterbiLattices.LastNode | src/viterbi/ViterbiLattice.ts:38-50 | a definition with no contract of its own: the first node of the last bucket, or the two throws; AppendEosFacts and CloseOpen state that after appendEos it is the EOS |
| ViterbiLattices.AppendNodeFacts | src/viterbi/ViterbiLattice.ts:55-64 | append adds the node at the end of the bucket of its last position, creating it and holes before it, and touches no other bucket; the end of statement becomes the larger of the two positions |
| ViterbiLattices.AppendEosFacts | src/viterbi/ViterbiLattice.ts:69-74 | appendEos adds one bucket holding only an EOS starting at the new end of statement, which is one more than before; getLastNode then returns that EOS |
| ViterbiLattices.InitialIsOpen | src/viterbi/ViterbiLattice.ts:24-28 | a new lattice is open: only BOS, in bucket 0, with end of statement 1 |
| ViterbiLattices.AppendWordKeepsOpen | src/viterbi/ViterbiLattice.ts:55-64 | appending a word that is not a BOS and starts at 1 or later keeps BOS alone in bucket 0, every bucket non-empty, every word after its predecessors and nothing linked |
| ViterbiLattices.CloseOpen | src/viterbi/ViterbiLattice.ts:69-74 | the corrected appendEos closes an open lattice into one ready for the search, with EOS as its last node |
| ViterbiLattices.AppendEosAgreesOnceWordsAppended | src/viterbi/ViterbiLattice.ts:69-74 | once a word has been appended, appendEos as written equals the corrected one |
| ViterbiLattices.AppendEosOnEmptyLatticeLinksEosToItself | src/viterbi/ViterbiLattice.ts:69-74 | as written on a lattice with no word: EOS lands in bucket 1 but starts at 2, so its predecessor bucket is its own |
| ViterbiLattices.AppendEosAtBucketOnEmptyLattice | src/viterbi/ViterbiLattice.ts:69-74 | corrected: EOS starts at 1, after BOS |
| ViterbiLattices.ViterbiLattice.constructor | src/viterbi/ViterbiLattice.ts:24-28 | the initial lattice |
| ViterbiLattices.ViterbiLattice.GetLastNode | src/viterbi/ViterbiLattice.ts:38-50 | a definition with no contract of its own: LastNode of the buckets |
| ViterbiLattices.ViterbiLattice.Append | src/viterbi/ViterbiLattice.ts:55-64 | the state becomes AppendNode of the old state |
| ViterbiLattices.ViterbiLattice.AppendEos | src/viterbi/ViterbiLattice.ts:69-74 | the state becomes WithEos of the old state |
| ViterbiLattices.ViterbiLattice.AppendEosAtBucket | src/viterbi/ViterbiLattice.ts:69-74 | the corrected appendEos: the state becomes WithEosAtBucket of the old state |
| ViterbiSearch.EdgeCost | src/viterbi/ViterbiSearcher.ts:66-75 | a definition with no contract of its own: 0 when either context id is missing, else the matrix lookup, whose meaning CellInRange and PutThenGet give |
| ViterbiSearch.BestFromMeaning | src/viterbi/ViterbiSearcher.ts:62-82 | the predecessor loop fails exactly when an edge cost cannot be read, finds nothing exactly in an empty bucket, and otherwise finds the first cheapest candidate |
| ViterbiSearch.CheapestPredecessor | src/viterbi/ViterbiSearcher.ts:54-82 | the same for the loop run from its start with cost = MAX_VALUE |
| ViterbiSearch.CheapestIsUnique | src/viterbi/ViterbiSearcher.ts:78-81 | with the strict comparison, the first cheapest predecessor and its cost are unique |
| ViterbiSearch.Relax | src/viterbi/ViterbiSearcher.ts:53-85 | resolving one node keeps the shape of every bucket |
| ViterbiSearch.RelaxFrame | src/viterbi/ViterbiSearcher.ts:53-85 | resolving one node changes only its shortest cost and prev, and no other node |
| ViterbiSearch.ForwardPass | src/viterbi/ViterbiSearcher.ts:43-89 | a definition with no contract of its own: the pass from bucket 1; ForwardFrame, ForwardSatisfiesBellman, ForwardSkipsOrphans and SearchFindsCheapestPath state what it does |
| ViterbiSearch.ForwardFrame | src/viterbi/ViterbiSearcher.ts:43-89 | the forward pass keeps every bucket's shape and every node's word fields, and leaves unvisited positions as they were |
| ViterbiSearch.ForwardFromBellman | src/viterbi/ViterbiSearcher.ts:43-89 | every position the pass visits ends with its prev and shortest cost being the first cheapest way in from bucket start - 1 |
| ViterbiSearch.RelaxedNodeBellman | src/viterbi/ViterbiSearcher.ts:57-85 | a resolved node keeps that property through the rest of the pass |
| ViterbiSearch.ForwardSatisfiesBellman | src/viterbi/ViterbiSearcher.ts:43-89 | on a lattice whose words follow their predecessors, every node in buckets 1..end of statement satisfies Bellman's equation after forward |
| ViterbiSearch.ForwardFromLinksBackward | src/viterbi/ViterbiSearcher.ts:43-89 | on such a lattice, forward links every node only to an existing node of an earlier bucket |
| ViterbiSearch.ForwardFromSkipsOrphans | src/viterbi/ViterbiSearcher.ts:57-61 | the pass from any position leaves every node whose predecessor bucket is missing exactly as it was |
| ViterbiSearch.ForwardSkipsOrphans | src/viterbi/ViterbiSearcher.ts:57-61 | after forward, a node whose predecessor bucket is missing is unchanged |
| ViterbiSearch.PathToIsPrevChain | src/viterbi/ViterbiSearcher.ts:91-109 | the backward path is the chain of prev links: no BOS in it, each node's prev is the node before it, the first node's prev is BOS and the last node is where the walk started |
| ViterbiSearch.BackwardPath | src/viterbi/ViterbiSearcher.ts:91-109 | a definition with no contract of its own: getLastNode's error, [] when EOS has no prev or the walk stops short of BOS, else the prev chain; PathToIsPrevChain and SearchFindsCheapestPath state its meaning |
| ViterbiSearch.PrevChainSpellsPath | src/viterbi/ViterbiSearcher.ts:95-108 | the backward walk from r reaches BOS exactly when the prev chain of addresses does, and returns the nodes of that chain after BOS |
| ViterbiSearch.ForwardSearched | src/viterbi/ViterbiSearcher.ts:43-89 | on a lattice ready for the search, after forward: BOS alone in bucket 0, Bellman's equation at every later node, a prev link only where the node has predecessors, and links only to earlier buckets |
| ViterbiSearch.ChainCostBound | src/viterbi/ViterbiSearcher.ts:77-85 | after forward, no chain from BOS through predecessor buckets to a node costs less than that node's shortest cost |
| ViterbiSearch.PrevChainCost | src/viterbi/ViterbiSearcher.ts:77-85 | after forward, the prev chain from BOS to a node is a chain through predecessor buckets whose summed word and edge costs are the node's shortest cost |
| ViterbiSearch.ConnectedReachesBos | src/viterbi/ViterbiSearcher.ts:91-106 | when every word has a word or BOS ending right before it, the prev links lead back to BOS from every node |
| ViterbiSearch.BackwardPathIsCheapest | src/viterbi/ViterbiSearcher.ts:91-109 | when EOS's prev links reach BOS, backward returns the chain's nodes between BOS and EOS, the chain costs EOS's shortest cost, and no BOS-to-EOS chain costs less |
| ViterbiSearch.SearchFindsCheapestPath | src/viterbi/ViterbiSearcher.ts:38-109 | on a lattice ready for the search, once forward succeeds: the path backward returns, followed by EOS, has summed word and edge costs equal to EOS's shortest cost, no other BOS-to-EOS chain costs less, and the links reach BOS whenever every word has a predecessor |
| ViterbiSearch.Reversed | src/viterbi/ViterbiSearcher.ts:108 | the reverse of a sequence |
| ViterbiSearch.ForwardLinksEosToItselfOnEmptyInput | src/viterbi/ViterbiSearcher.ts:43-89 | after appendEos as written on a lattice with no word, forward makes EOS its own prev, so the links no longer lead to BOS |
| ViterbiSearch.ForwardLinksEosToBosOnEmptyInput | src/viterbi/ViterbiSearcher.ts:43-109 | after the corrected appendEos, EOS takes BOS as prev at the cost of the (0, 0) connection, and backward returns the empty path |
| ViterbiSearch.ViterbiSearcher.constructor | src/viterbi/ViterbiSearcher.ts:29-31 | keeps the connection costs |
| ViterbiSearch.ViterbiSearcher.RelaxNode | src/viterbi/ViterbiSearcher.ts:53-85 | the k loop and the two writes resolve node (i, j) as Relax does, or the cost lookup's error is returned with nothing changed |
| ViterbiSearch.ViterbiSearcher.Forward | src/viterbi/ViterbiSearcher.ts:43-89 | the i/j/k loops give the lattice ForwardPass of its old state, or return the first cost lookup error |
| ViterbiSearch.ViterbiSearcher.Backward | src/viterbi/ViterbiSearcher.ts:91-109 | the walk from EOS's prev returns BackwardPath: the prev chain to BOS, or [] when EOS or a node on the way has no prev |
| ViterbiSearch.ViterbiSearcher.Search | src/viterbi/ViterbiSearcher.ts:38-41 | forward and then backward; on an unlinked lattice whose words follow their predecessors, the links forward leaves all lead backward |
| CharacterClasses.CharacterClass.constructor | src/dict/character-class.ts:36-68 | the five read-only fields, which the getters return, are the constructor's arguments |
| Counters.Counter.constructor | src/util/counter.ts:16 | value is 0 after construction |
| Counters.Counter.Increment | src/util/counter.ts:21-23 | value goes up by exactly 1 |
| Counters.IncrementTimes | src/util/counter.ts:21-23 | n increments raise the value by exactly n |
| Counters.CountOnFreshCounter | src/util/couter.test.ts:7-40 | a new counter incremented n times reads n, as the tests expect for 0, 1 and 2 |
| IpadicFormatting.FormatKnownEntry | src/util/IpadicFormatter.ts:29-64 | the ids pass through, and reading the token's fields back in order gives the ten features |
| IpadicFormatting.FormatUnknownEntry | src/util/IpadicFormatter.ts:66-98 | the ids pass through and the surface form is the argument |
| IpadicFormatting.KnownEntryRoundTrip | src/util/IpadicFormatter.ts:35-61 | every known-entry token is the formatting of its own ids and features |
| IpadicFormatting.KnownEntryInjective | src/util/IpadicFormatter.ts:35-61 | different features give different tokens |
| IpadicFormatting.UnknownIsKnownWithoutReadings | src/util/Ipadic.d.ts:50-53 | the unknown-entry token is the known-entry token with the argument as surface form, less the reading and the pronunciation |
| IpadicFormatting.UnknownEntryReadsFeaturesOneToSeven | src/util/IpadicFormatter.ts:73-82 | two feature tuples give the same unknown-entry token exactly when they agree on features 1 to 7 |

## Left out

- `Number.MAX_VALUE` and `NaN`. The forward pass starts each node's best cost at
  `Number.MAX_VALUE`; the model writes "no candidate yet" instead. `NaN` results are `None`.
  Floating-point rounding of large sums is not modelled: costs are unbounded integers.
- ViterbiSearch.Relax: when the predecessor bucket exists but is empty, the source writes
  `MAX_VALUE` as the node's cost. It also writes the `shortest_prev_node` left over from
  the previous node, because that variable is function-scoped (`var`). The model leaves the
  node unchanged instead. A lattice built with `append` has no empty bucket
  (ViterbiLattices.AppendWordKeepsOpen).
- ViterbiSearch.ViterbiSearcher.Forward: when a cost lookup throws, the source has already
  updated the earlier nodes. The model states only the error, not that partial state.
- The `console.log` call on a missing context id. Only its effect, an edge cost of 0, is
  modelled.
- Aliasing.
  - `shrink` returns a `subarray` view that shares memory with the old buffer; the model
    copies.
  - The `nodesEndAt` getter's shallow copy shares its inner arrays with the lattice; the
    model reads the buckets directly.
  - The searcher's `prev` object references are (bucket, slot) addresses.
- ViterbiLattices.ViterbiLattice.Append requires a non-negative last position. A negative
  index on a JavaScript array sets a named property, not an element.
- ByteBuffers.ByteBuffer.constructor: the constructor's throw for an argument that is
  neither null, a number nor a `Uint8Array` cannot arise with typed arguments.
- ByteBuffers.ByteBuffer.constructor: the size is a natural number. `new Uint8Array` of
  a negative length throws a `RangeError`, which is not modelled.
- ConnectionCostsModel.ConnectionCosts.constructor: the dimensions are natural numbers, and
  so are those of ConnectionCostsModel.NewCells. The source takes any number: a negative
  forward·backward + 2 makes `new Int16Array` throw a `RangeError`, and for forward -1 and
  backward 1 the array has one cell, so the write of the backward dimension to cell 1 is
  silently dropped. Neither case is modelled.
- JavaScript numbers above 2^53 lose precision; integers here are exact.
- The texts of thrown errors; an error is a `Result.Err` value.
- The dictionary loaders, the dictionary builder, `UnknownDictionary`, the lattice builder
  and the tokenizer. The lattice is fed only through `append`.
- utf8BytesToString.ts, isLowSurrogates.ts and combine-surrogate-pair.ts are not part of
  this model. Their importers are read as calling utf8-bytes-to-string.ts,
  is-low-surrogate.ts and combine-to-surrogate-pair.ts, which have the same names.
- ViterbiNodeType.ts is not part of this model. The node types are the four its users
  name: BOS, EOS, KNOWN and UNKNOWN.
- The IPADIC word type is the union in src/util/Ipadic.d.ts, with "KOWN" as written.
- The getters that only return a field (`ViterbiNode`, `CharacterClass`, `Counter.value`,
  `forwardDimension`, `backwardDimension`, `indexMapping`) are the model's fields.
  `indexMapping` returns a copy in the source.

## Findings

| source | as written | input that shows it | evidently intended | confidence | as-written member | corrected member |
|---|---|---|---|---|---|---|
| src/util/is-surrogate-pair.ts:6-7 | tests 0xD800..0xDBFF only | 0xDE03, the low half of U+1F603, gives false | true for a high or a low surrogate, as its doc comment and is-surrogate-pair.test.ts:19-27 say | high; not executed | Surrogates.IsSurrogatePairCodeMissesLowHalves | Surrogates.IsSurrogateCodeUnitAcceptsBothHalves |
| src/util/SurrogateAwareString.ts:58-66 | charAt compares the index with the raw UTF-16 length | "𠮷" (one character, two code units) at index 1 throws "surrogateAwareStartIndex must not be undefined" | "" for every index at or past the logical length, as charCodeAt and slice do | high; not executed | IndexedStrings.CharAtThrowsBetweenLengths | IndexedStrings.IndexedString.CharAtChecked |
| src/viterbi/ViterbiLattice.ts:69-74 | appendEos starts EOS at the end of statement plus one | a lattice with no word appended: EOS goes to bucket 1 but starts at 2, forward makes EOS its own predecessor, and backward never reaches BOS | EOS starts at the index of the bucket that holds it, so it follows the words ending just before it | medium; not executed | ViterbiSearch.ForwardLinksEosToItselfOnEmptyInput | ViterbiLattices.ViterbiLattice.AppendEosAtBucket |

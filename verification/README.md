# Azure IoT Device Agent: a verified model

This project models, in Dafny, the parts of the Azure IoT Device Agent whose behaviour is decided by its own code, and
proves what they promise.

- **JSON** (`Json*.dfy`, `Utf8.dfy`, `Hexadecimal.dfy`). `OurReader` is a class over a cursor, a stack of nodes and a
  list of errors; every one of its methods is proved equal to a recursive function of the input still to be read
  (`JsonParsing`). What those functions mean is proved against concrete syntax trees of RFC 8259 (`JsonTexts`): every
  text is read as what it denotes, is an error, or throws, as its nesting, sizes and strings decide. What is accepted
  at all is exactly the texts of an explicit grammar of the reader's leniences (`JsonLexemes`, `JsonLenient`,
  `JsonAccepted`, `JsonAcceptance`), and which of those are JSON as the standard has it is `JsonStandard`.
  `FastWriter` and `BuiltStyledStreamWriter` are classes too; their documents are JSON (`JsonOutput`), so both round
  trips and the equivalence of layouts follow (`JsonRoundTrip`). A `std::map` is the sequence of its entries in key
  order. Arrays are maps with possible holes (`JsonArrays`).
- **Plugin start order** (`DependencySort.dfy`, `DependencyHistory.dfy`). Kahn's algorithm over two separately kept
  maps: soundness, completeness, the loop invariant, the reasons for its exception, and which repeated registrations
  it survives.
- **Limpet** (`Base32.dfy`, `PercentEncoding.dfy`, `Cfb.dfy`, `Hmac.dfy`, `HostageUri.dfy`, `HostageSlot.dfy`). The
  two codecs, block-by-block file encryption, chunked HMAC, the URI inside a hostage blob, and lazy against eager
  import. The TPM, the block cipher and the keyed hash are arbitrary functions.
- **Certificates** (`CertificateManagement.dfy`). One store of the device is brought to the desired state; downloads,
  thumbprints and the device's acceptance of commands are arbitrary functions.
- **Dates and tokens** (`DateTime.dfy`, `SplitString.dfy`).

`dafny verify dfyconfig.toml` checks everything. Bytes are integers from 0 to 255 (`bv8` in `Cfb` and `HostageUri`);
fixed-width arithmetic is written out where it matters.

Where the code and what is said about it differ, the model follows the code:

- The comment at line 3552 of `LimpetApi.cpp` says that the marshalled size of the URI includes the terminator; it
  does not. `UriSurvivesTheHostageBlob` shows that the string survives because the importer adds one.
- Growing an array leaves holes, and shrinking one with a hole below the new size trips the assertion in `resize`:
  `ArrayValue.Resize` states exactly when.
- Strings that are not well-formed UTF-8 do not round-trip: `StringsRoundTripExactlyWhenWellFormed`.
- The grammar of RFC 8259, section 7, admits an escaped high surrogate that no escape follows; the reader refuses it:
  `StringsOfTheGrammarDecode`, `EveryTextIsJudged`.
- What the reader accepts is exactly the texts of `JsonLenient` (`ParsesExactlyTheLenientTexts`), and of those exactly
  the strict ones are JSON (`JsonExactlyIfStrict`). So it differs from JSON, also in strict mode, by: numbers with
  leading zeros or missing digits; control characters and malformed UTF-8 in strings; comments inside objects and
  arrays even where allowComments is off, also with an apostrophe for their first slash; any token as a separator
  after a comment in an object; a separator before the closing brace after a member with the empty name; anything
  after a zero byte at the end; and what the other features allow. An escaped high surrogate joins with whatever
  unicode escape follows it, low surrogate or not (`DecodeUnicodeCodePoint`).
- `readArray` counts in an int. The increment past 2^31-1, undefined in C++, is taken to wrap, as it does with Visual
  C++; the negative index then throws: `EveryTextIsJudged`, `RenderingFate`.
- Registering a handler again leaves its old edges behind. `ReRegistrationIsHarmlessExactly` says for which lists the
  sort stays right whatever else is registered (`SeveralReRegistrationsAreHarmlessExactly` for several handlers),
  `PatientInNumbers` gives the condition in numbers, and `ReRegistrationBreaksTheOrder` a history that meets neither.
  `SetDependenciesMap` says exactly when the two maps stay consistent, which is enough for the sort but more than it
  needs.
- The temporary file of a certificate is named after the last part of its blob's name alone. Two certificates from
  different containers, or with names that the file system takes for one, can overwrite each other, and installing the
  second then throws out of the handler; if the second cannot be read as a certificate, the first is installed with
  its bytes: `OneRun`, `ThrowsExactlyOnSharedFiles`, `RightDataExactlyIfNotOverwritten`, `ContainersShareFiles`,
  `CaseDoesNotKeepFilesApart`.
- A lazily delivered blob that the TPM refuses costs one failed answer, which eager import would not, and the delivery
  before it if that was still waiting: `LazyRefinesEager`, `ReadsAndSignaturesAgreeExactly`,
  `ReadsAgreeExactlyWhenAccepted`, `RefusalsCostOneAnswer`, `RefusalsLoseTheDeliveryBefore`.
- The encryption loop's 32-bit offset wraps for files of more than 2^32-16 bytes, and the loop then runs on
  (`LoopEndsExactly`); but a seek takes a signed distance, so that every file of more than 2^31 bytes fails before
  that (`LargeFilesFail`).

## Model

| member | source | states |
|---|---|---|
| `JsonValue.KeyLessTransitive` | code/Utilities/jsoncpp.cpp:2771-2786 | the order of map keys (indices by number, names by memcmp and then length) is transitive |
| `JsonValue.LowerBoundFinds` | code/Utilities/jsoncpp.cpp:2771-2800 | in a sorted map lower_bound finds a key exactly if it is there, and everything after it is greater |
| `JsonValue.PutSpec` | code/Utilities/jsoncpp.cpp:3426-3440 | storing through operator[] keeps the map sorted, makes the key hold the value, and leaves every other key as it was, present or absent |
| `JsonOrder.EqualIsEquality` | code/Utilities/jsoncpp.cpp:3036-3081 | on NaN-free values of containers below 2^31 entries, operator== is equality of values, through nested maps |
| `JsonOrder.Trichotomy` | code/Utilities/jsoncpp.cpp:2978-3028 | of two such values exactly one is less than the other or they are equal |
| `JsonOrder.Transitivity` | code/Utilities/jsoncpp.cpp:2978-3028 | operator< is transitive, by induction through nested maps and keys |
| `JsonOrder.LessIsStrictTotalOrder` | code/Utilities/jsoncpp.cpp:2978-3081 | operator< is a strict total order on them, and operator== is the equality it decides |
| `JsonOrder.ReflexiveExactlyWithoutNaN` | code/Utilities/jsoncpp.cpp:3036-3081 | a value equals itself if and only if it holds no NaN: exactly where operator== is an equality |
| `JsonArrays.EraseSpec` | code/Utilities/jsoncpp.cpp:3414-3418 | erasing a key removes it and nothing else |
| `JsonArrays.SizeIsPastTheLast` | code/Utilities/jsoncpp.cpp:3360-3374 | the size of an array is one past its highest index: that index is present and none from the size on |
| `JsonArrays.ArrayValue.Touch` | code/Utilities/jsoncpp.cpp:3426-3440 | operator[] inserts null at a missing index; what every index shows stays the same |
| `JsonArrays.ArrayValue.Assign` | code/Utilities/jsoncpp.cpp:3426-3440 | assignment through operator[] changes what one index shows and nothing else |
| `JsonArrays.ArrayValue.Append` | code/Utilities/jsoncpp.cpp:3642 | append puts the value one past the highest index and grows the size by one |
| `JsonArrays.ArrayValue.RemoveIndex` | code/Utilities/jsoncpp.cpp:3700-3721 | removeIndex refuses exactly the missing indices, changing nothing; otherwise it returns the element and shifts every later one down, holes becoming nulls |
| `JsonArrays.ArrayValue.Resize` | code/Utilities/jsoncpp.cpp:3408-3424 | what every index shows after resize; its size assertion holds if and only if the array is cleared, grows, or the index below the new size is present |
| `JsonArrays.AppendAppends` | code/Utilities/jsoncpp.cpp:3642 | append is appending to the contents, and keeps a dense array dense |
| `JsonArrays.RemoveIndexRemoves` | code/Utilities/jsoncpp.cpp:3700-3721 | on a dense array removeIndex cuts one element out of the contents and leaves it dense |
| `JsonArrays.ShrinkingTruncates` | code/Utilities/jsoncpp.cpp:3408-3424 | on a dense array shrinking never trips the assertion and truncates the contents |
| `JsonArrays.GrowingLeavesHoles` | code/Utilities/jsoncpp.cpp:3412-3413 | growing by more than one always leaves holes |
| `JsonArrays.AssignReplaces` | code/Utilities/jsoncpp.cpp:3426-3440 | assignment replaces one element of the contents, holes included, or appends one at the size; a dense array stays dense exactly then |
| `Utf8.DecodeInvertsEncode` | code/Utilities/jsoncpp.cpp:125-151 | utf8ToCodepoint inverts codePointToUTF8 on every Unicode scalar value, whatever bytes follow, and what is written is well-formed (RFC 3629, section 3) |
| `Utf8.EncodeInvertsDecode` | code/Utilities/jsoncpp.cpp:4371-4435 | on a well-formed character utf8ToCodepoint uses exactly its bytes and codePointToUTF8 gives them back |
| `Utf8.MalformedIsChanged` | code/Utilities/jsoncpp.cpp:4371-4435 | where no well-formed character begins, re-encoding cannot give the input back |
| `JsonStrings.IsAnyCharRequiredQuoting` | code/Utilities/jsoncpp.cpp:4359-4369 | where char is signed, every nonempty string takes the escaping path, whatever its bytes |
| `JsonStrings.ValueToQuotedString` | code/Utilities/jsoncpp.cpp:4450-4517 | the loop with its quick path for plain strings writes the escaped form, byte strings of any content |
| `JsonStrings.QuotedIsPrintable` | code/Utilities/jsoncpp.cpp:4450-4517 | only bytes 0x20 to 0x7f are written, whatever the input |
| `JsonStrings.HexInverts` | code/Utilities/jsoncpp.cpp:4439-4448 | the four digits of toHex16Bit denote the number |
| `JsonStrings.SurrogatesJoin` | code/Utilities/jsoncpp.cpp:4505-4510 | splitting a code point above U+FFFF into surrogates and joining them are inverse |
| `JsonStrings.DecodeUnicodeEscapeSequence` | code/Utilities/jsoncpp.cpp:1979-2004 | the digit loop against the value of four hexadecimal digits, with its two errors and the position it leaves |
| `JsonStrings.DecodeUnicodeCodePoint` | code/Utilities/jsoncpp.cpp:1952-1977 | surrogate pairs: the code point, or which of the three errors |
| `JsonStrings.DecodeStringToken` | code/Utilities/jsoncpp.cpp:1899-1950 | decodeString's loop against the recursive meaning of a string body, errors included |
| `JsonStrings.ReadStringStopsAtQuote` | code/Utilities/jsoncpp.cpp:1665-1675 | for every sequence of JSON string characters readString stops at the closing quote, whatever follows |
| `JsonStrings.DecodeBodyGivesMeaning` | code/Utilities/jsoncpp.cpp:1899-1950 | a spelling of RFC 8259, section 7 (plain, short escapes, unicode escapes in either case, pairs, lone surrogates) decodes to what it denotes if every high surrogate is followed by another unicode escape, and otherwise is an error |
| `JsonStrings.StringsOfTheGrammarDecode` | code/Utilities/jsoncpp.cpp:1899-1977 | every text between quotes that the grammar of section 7 admits is such a spelling, so it decodes, to what it denotes, if and only if no high surrogate is left alone |
| `JsonStrings.QuotedReadsBackAsTranscoded` | code/Utilities/jsoncpp.cpp:4450-4517 | for all byte strings: readString stops at the quote that was written, and decoding gives the text with malformed bytes replaced |
| `JsonStrings.StringsRoundTripExactlyWhenWellFormed` | code/Utilities/jsoncpp.cpp:4450-4517 | quoting and decoding give a byte string back if and only if it is well-formed UTF-8 |
| `JsonNumbers.UIntToString` | code/Utilities/jsoncpp.cpp:167-173 | the buffer is filled backwards with the shortest decimal numeral, in at most 21 bytes; the rest of it is untouched |
| `JsonNumbers.UIntValueToString` | code/Utilities/jsoncpp.cpp:4284-4290 | every UInt64 prints as its numeral within the 25-byte buffer |
| `JsonNumbers.IntValueToString` | code/Utilities/jsoncpp.cpp:4268-4282 | every Int64, the smallest included, prints as its numeral within the buffer |
| `JsonNumbers.AccumulateDigits` | code/Utilities/jsoncpp.cpp:1813-1829 | the accumulator never exceeds the bound and the loop stops exactly where the number denoted would |
| `JsonNumbers.DecodeNumberToken` | code/Utilities/jsoncpp.cpp:1799-1838 | the overflow-guarded loop decides what the token denotes, without overflow |
| `JsonNumbers.OldDecodeNumberToken` | code/Utilities/jsoncpp.cpp:803-844 | Reader's version, with its own bound and its case for the smallest integer, agrees with OurReader's on every token |
| `JsonNumbers.IntegerDecodingIsExact` | code/Utilities/jsoncpp.cpp:1799-1838 | for a sign and digits of any length the integer branch is taken if and only if the number lies in [-2^63, 2^64-1], with exactly that number |
| `JsonNumbers.PrintedIntegersReadBack` | code/Utilities/jsoncpp.cpp:4268-4290 | every printed 64-bit integer reads back as itself |
| `JsonReader.OurReader.ReadToken` | code/Utilities/jsoncpp.cpp:1437-1535 | the lexer: token, text and rest, and it advances unless only blanks are left |
| `JsonReader.OurReader.ReadNumber` | code/Utilities/jsoncpp.cpp:1639-1663 | where a number token ends, and that -I is left for -Infinity |
| `JsonReader.OurReader.ReadString` | code/Utilities/jsoncpp.cpp:1665-1687 | where a string token ends, with either delimiter |
| `JsonReader.OurReader.ReadCStyleComment` | code/Utilities/jsoncpp.cpp:1614-1621 | where a C comment ends, including a lone slash at the end of the input |
| `JsonReader.OurReader.ReadCppStyleComment` | code/Utilities/jsoncpp.cpp:1623-1637 | where a line comment ends, for all three line ends |
| `JsonReader.OurReader.RecoverFromError` | code/Utilities/jsoncpp.cpp:2017-2028 | skips to the next token of a type or to the end, always ends, and leaves the error list as it was |
| `JsonReader.OurReader.ReadValue` | code/Utilities/jsoncpp.cpp:1336-1425 | on any bytes: the result, input left, errors and exception of the recursion that specifies it; the node stack is as on entry but for its top, never above stackLimit + 1; it terminates |
| `JsonReader.OurReader.ReadObject` | code/Utilities/jsoncpp.cpp:1689-1749 | the member loop, with its leniency after an empty name, its errors and recovery |
| `JsonReader.OurReader.ReadArray` | code/Utilities/jsoncpp.cpp:1751-1787 | the element loop with its int index, which throws from element 2^31 on, its errors and recovery |
| `JsonReader.OurReader.Parse` | code/Utilities/jsoncpp.cpp:1288-1334 | parse on any bytes: result and root, one node on the stack, and success if and only if there are no errors |
| `JsonParsing.ReadToken` | code/Utilities/jsoncpp.cpp:1437-1535 | each lexer step shortens the input unless only blanks are left; only the end of the stream has no text |
| `JsonReadValues.ReadValueIsProper` | code/Utilities/jsoncpp.cpp:1336-1425 | whatever the input, well-formed values with dense arrays stay so, also where reading fails half way |
| `JsonReadValues.ParseLeavesProperRoot` | code/Utilities/jsoncpp.cpp:1288-1334 | on any text parse throws or leaves a well-formed root in which every array is dense, and succeeds if and only if there are no errors |
| `JsonReadValues.DenseKeysAreDense` | code/Utilities/jsoncpp.cpp:1762-1787 | arrays as the reader builds them are sequences for the array operations |
| `JsonTexts.ReadsNumber` | code/Utilities/jsoncpp.cpp:1639-1663 | every number of RFC 8259, section 6, is one token, where nothing that could continue it follows |
| `JsonTexts.ReadsNode` | code/Utilities/jsoncpp.cpp:1336-1425 | any concrete syntax tree with any whitespace, whatever may follow it and at any depth, is read to what it denotes, or is an error, or throws, exactly as the first thing beyond the reader's limits in it says |
| `JsonTexts.EveryTextIsJudged` | code/Utilities/jsoncpp.cpp:1288-1334 | every JSON text of RFC 8259, sections 2 to 7, and every one that differs only by leading zeros or by other bytes in strings, under every setting of the features: parse yields what it denotes, reports an error, or throws, and which of them is decided by the nesting, the array sizes, the string and key lengths, repeated keys, lone surrogates and unscannable numbers in it |
| `JsonTexts.AcceptedExactlyWithinLimits` | code/Utilities/jsoncpp.cpp:1288-1334 | such a text is accepted, as what it denotes, if and only if it is within those limits and strictRoot allows its root |
| `JsonLexemes.TokenHasShape` | code/Utilities/jsoncpp.cpp:1437-1535 | whatever the input, each token has a text of an explicit lexical grammar: fixed words, numbers in which digits may be missing and that nothing after them continues, and strings between their delimiters |
| `JsonLexemes.GapBefore` | code/Utilities/jsoncpp.cpp:1427-1435 | what is skipped before a token is a sequence of blanks and closed comments |
| `JsonAccepted.DecodedBodiesAreStrings` | code/Utilities/jsoncpp.cpp:1899-1977 | between quotation marks every escape in what decodes is one of RFC 8259, section 7; any other byte may stand there, control characters and malformed UTF-8 included |
| `JsonAccepted.ValueIsRead` | code/Utilities/jsoncpp.cpp:1336-1787 | whenever readValue succeeds, the input begins with blanks or comments and a text of the lenient grammar, within the limits on nesting, elements and names, and the value is what that text denotes |
| `JsonAccepted.AcceptedTextsAreLenientJson` | code/Utilities/jsoncpp.cpp:1288-1334 | under every setting, a parse that returns ok has read a text of that grammar to what it denotes; with failIfExtra nothing follows but blanks, comments and a zero byte, or, unless strictRoot is set, a text that begins no token |
| `JsonAcceptance.TreeIsRead` | code/Utilities/jsoncpp.cpp:1336-1787 | conversely readValue takes every text of the lenient grammar, with the blanks and comments before it, and returns what it denotes |
| `JsonAcceptance.ParsesExactlyTheLenientTexts` | code/Utilities/jsoncpp.cpp:1288-1334 | the grammar is exact: under every setting and for every document and value, parse succeeds with that value if and only if the document is one of its texts, for that value |
| `JsonStandard.StrictDocumentsAreJson` | code/Utilities/jsoncpp.cpp:1288-1334 | an accepted document without comments, missing digits, leading zeros, apostrophes, special words, control characters, numeric or dropped items and odd separators, in well-formed UTF-8, is JSON exactly as RFC 8259 has it, and was read as what it denotes as such |
| `JsonStandard.NodeIsTree` | code/Utilities/jsoncpp.cpp:1336-1787 | every JSON value that is read is such a text without leniences, of the same meaning |
| `JsonStandard.JsonExactlyIfStrict` | code/Utilities/jsoncpp.cpp:1288-1334 | an accepted document is JSON after RFC 8259 (sections 2 to 7 and 8.1) if and only if it is a lenient text without leniences |
| `JsonOutput.FastWriterWritesJson` | code/Utilities/jsoncpp.cpp:4540-4601 | for every real-free value with well-formed UTF-8 and keys under 2^30, FastWriter's document is JSON exactly as RFC 8259 has it |
| `JsonOutput.StyledWriterWritesJson` | code/Utilities/jsoncpp.cpp:5104-5289 | so is BuiltStyledStreamWriter's, in every layout |
| `JsonWriters.FastWriter.Write` | code/Utilities/jsoncpp.cpp:4540-4546 | the document FastWriter writes, for every setting |
| `JsonWriters.FastWriter.WriteValue` | code/Utilities/jsoncpp.cpp:4548-4601 | appends exactly the text of the value |
| `JsonStyledWriter.BuiltStyledStreamWriter.Write` | code/Utilities/jsoncpp.cpp:5104-5117 | the document, for every setting and every layout |
| `JsonStyledWriter.BuiltStyledStreamWriter.WriteValue` | code/Utilities/jsoncpp.cpp:5119-5179 | outside a dry run appends the laid-out text, inside one pushes exactly one child text; indentation is restored |
| `JsonStyledWriter.BuiltStyledStreamWriter.WriteArrayValue` | code/Utilities/jsoncpp.cpp:5181-5229 | the array in its layout; the assertion that there is one child text for each element always holds |
| `JsonStyledWriter.BuiltStyledStreamWriter.IsMultilineArray` | code/Utilities/jsoncpp.cpp:5231-5256 | the layout decision, and that its dry run writes nothing and leaves one text for each element or none |
| `JsonRoundTrip.RenderingDenotes` | code/Utilities/jsoncpp.cpp:1336-1838 | any tree that renders a value, holes as nulls, is a JSON text that denotes the value as read back |
| `JsonRoundTrip.RenderingFate` | code/Utilities/jsoncpp.cpp:1336-1425 | it is read if and only if its depth is within the stack limit and no array has more than 2^31 elements; otherwise reading throws |
| `JsonRoundTrip.FastRoundTrip` | code/Utilities/jsoncpp.cpp:4540-4601 | for every real-free value with well-formed UTF-8 and keys under 2^30, parsing FastWriter's document gives the value up to integer tags and array holes if its depth is within the stack limit and its arrays have at most 2^31 elements, and throws otherwise |
| `JsonRoundTrip.StyledRoundTrip` | code/Utilities/jsoncpp.cpp:5104-5289 | the same for BuiltStyledStreamWriter whichever layout it chose for each array |
| `JsonRoundTrip.LayoutPreservesMeaning` | code/Utilities/jsoncpp.cpp:5104-5289 | the documents of the two writers parse to the same result, or both throw |
| `JsonRoundTrip.RereadIsIdentityOnCanonical` | code/Utilities/jsoncpp.cpp:1831-1836 | a value comes back unchanged if and only if its arrays are dense and its integers have the tags the reader chooses |
| `DependencySort.SortedKeys` | code/Utilities/DependencySort.cpp:30-43 | the order in which the maps are visited: ascending, each key once |
| `DependencySort.StepKeeps` | code/Utilities/DependencySort.cpp:52-72 | one turn of the main loop keeps its invariant, also where handlers were registered again: each count is the length of the handler's list less the entries of all its lists that were dequeued, and those at zero or below are exactly the ones dequeued or queued, each once |
| `DependencySort.NotifyEffect` | code/Utilities/DependencySort.cpp:62-69 | notifying the dependents lowers each count by its number of entries, repeats included, and enqueues once each handler whose count reaches zero |
| `DependencySort.PatientHandlersSortRight` | code/Utilities/DependencySort.cpp:28-79 | the sort is right wherever no handler's old entries suffice to take its count to zero while a dependency, or the handler itself, is missing |
| `DependencySort.SortIsSoundAndComplete` | code/Utilities/DependencySort.cpp:28-79 | the result is a duplicate-free permutation of the handlers with each after all its dependencies; the exception is thrown if and only if there is none |
| `DependencySort.ThrowsOnCyclesAndStrangers` | code/Utilities/DependencySort.cpp:74-77 | it is thrown if and only if a dependency was never registered or the dependencies have a cycle |
| `DependencySort.DependencySort.SetDependenciesMap` | code/Utilities/DependencySort.cpp:16-23 | each name gains the handler once per list entry; the two maps stay consistent if and only if the handler was not registered before with dependencies |
| `DependencySort.DependencySort.SortDependency` | code/Utilities/DependencySort.cpp:26-80 | the loops compute the sort, end on any maps at all, and add only empty lists, so that repeated calls answer the same |
| `DependencyHistory.AfterFollows` | code/Utilities/DependencySort.cpp:16-23 | after any registrations each handler has its last list, and the entries of all its lists point to it, with multiplicity |
| `DependencyHistory.PatientHistoriesSortRight` | code/Utilities/DependencySort.cpp:16-79 | whatever the history of registrations, the sort is right if each handler is patient in that sense, given all the lists it was ever registered with |
| `DependencyHistory.ReRegistrationIsHarmlessExactly` | code/Utilities/DependencySort.cpp:16-79 | for one handler registered with any lists in turn, the others once each and in any order: the sort is right for all of them if and only if that handler is patient |
| `DependencyHistory.SeveralReRegistrationsAreHarmlessExactly` | code/Utilities/DependencySort.cpp:16-79 | the same for any number of re-registered handlers that do not list one another or themselves: right for all registrations of the others if and only if each of them is patient |
| `DependencyHistory.PatientInNumbers` | code/Utilities/DependencySort.cpp:16-79 | re-registered from one list to another, it is patient if and only if each new dependency has more entries in the new list than the old list has entries other than it |
| `DependencyHistory.ReRegistrationBreaksTheOrder` | code/Utilities/DependencySort.cpp:16-23 | four registrations after which the sort returns an order that breaks a dependency though a good one exists |
| `Base32.EncodeBlock` | code/LimpetApi/LimpetApi.cpp:4139-4193 | the two switches cut each block into its bit groups, zero-filled, and mark the places without input |
| `Base32.EncodeBase32` | code/LimpetApi/LimpetApi.cpp:4108-4225 | the loops write exactly the big-endian five-bit groups, ceil(8n/5) of them, never past the buffer, and drop the padding |
| `Base32.TextCarriesBits` | code/LimpetApi/LimpetApi.cpp:4139-4204 | bit by bit the text carries the input (RFC 4648, section 6) |
| `Base32.EncodingIsReversible` | code/LimpetApi/LimpetApi.cpp:4108-4225 | a decoder recovers every input |
| `Base32.EncodingIsInjective` | code/LimpetApi/LimpetApi.cpp:4108-4225 | the text uses only a-z and 2-7, and different inputs have different texts |
| `Cfb.LimpetSymmetricPayloadProtection` | code/LimpetApi/LimpetApi.cpp:1861-1925 | the block loop with its wrapping 32-bit offset, wherever it ends, computes the whole-stream mode in place; it fails exactly if the file is empty or a file call fails, leaving it processed up to the first such block; in every case it is as the turns of the loop leave it |
| `Cfb.LoopEndsExactly` | code/LimpetApi/LimpetApi.cpp:1890-1916 | for every block function and file below 4 GiB, some turn ends the loop if and only if the size is at most 2^32-16 or a file call fails at some offset below it; otherwise the offset wraps and the loop runs on |
| `Cfb.LargeFilesFail` | code/LimpetApi/LimpetApi.cpp:1895-1912 | as the distance of a seek is a signed LONG, every file of more than 2^31 bytes fails half way, with its first 2^31 bytes processed if nothing else fails |
| `Cfb.ProtectInParts` | code/LimpetApi/LimpetApi.cpp:1887-1916 | streams may be processed in parts that end at block boundaries, carrying the vector |
| `Cfb.LastBlock` | code/LimpetApi/LimpetApi.cpp:1896-1915 | a partial last block, padded for the cipher and cut off again, is what the mode says |
| `Cfb.DecryptUndoesEncrypt` | code/LimpetApi/LimpetApi.cpp:1900-1910 | decryption with the same key restores every file, partial last block included (NIST SP 800-38A, section 6.3) |
| `Cfb.EncryptUndoesDecrypt` | code/LimpetApi/LimpetApi.cpp:1900-1910 | and the other way round, so that each direction is a bijection |
| `Cfb.PrefixesDecrypt` | code/LimpetApi/LimpetApi.cpp:3794-3803 | a prefix of a ciphertext decrypts to the prefix of the plaintext |
| `Hmac.Sign` | code/LimpetApi/LimpetApi.cpp:2553-2619 | for data of every 32-bit length, each buffer sent to the TPM holds at most 1024 bytes and the answer is the HMAC of the whole |
| `HostageUri.UriSurvivesTheHostageBlob` | code/LimpetApi/LimpetApi.cpp:3543-3558 | the URI wrapped at creation with only its unpadded length comes out at import as the same string, whatever follows it in the importer's buffer, if and only if it holds no NUL |
| `HostageUri.CStringReadsBack` | code/LimpetApi/LimpetApi.cpp:3794-3809 | the terminated text in memory is read up to its first NUL |
| `PercentEncoding.LimpetSanitizeString` | code/LimpetApi/LimpetApi.cpp:386-408 | succeeds if and only if every character is at most 0xff and the encoding is under 512; then the output is the concatenation of the entries and a terminator, the rest untouched; no index leaves the buffers, even for unterminated input |
| `PercentEncoding.EncodingDecodes` | code/LimpetApi/LimpetApi.cpp:24-284 | each entry is the percent-encoded UTF-8 form of its character (RFC 3986, section 2.1) |
| `PercentEncoding.EncodedMeansUtf8` | code/LimpetApi/LimpetApi.cpp:386-408 | the output decodes to the UTF-8 form of the input |
| `PercentEncoding.EncodingIsInjective` | code/LimpetApi/LimpetApi.cpp:386-408 | the input can be read back, so different inputs have different outputs |
| `HostageSlot.LazyRefinesEager` | code/LimpetApi/LimpetApi.cpp:2642-2708 | a run of imports, reads and signatures is answered alike with lazy loading and with eager import if and only if the TPM accepts every blob in it; the slots then stay in agreement |
| `HostageSlot.ReadsAgreeExactlyWhenAccepted` | code/LimpetApi/LimpetApi.cpp:2642-2684 | where a blob waits, the next read agrees with eager import, whatever the eager slot holds, if and only if the TPM accepts it, or refuses it with the code for a missing key where there is none, or with the code for too small a buffer where the text does not fit |
| `HostageSlot.SignaturesAgreeExactlyWhenAccepted` | code/LimpetApi/LimpetApi.cpp:2642-2708 | the same for a signature: a missing or unreadable part of the key, or one that does not load, with the same code |
| `HostageSlot.ReadsAndSignaturesAgreeExactly` | code/LimpetApi/LimpetApi.cpp:2642-2708 | with the answers to imports left out: every run over a collection of blobs is answered alike with lazy loading and with eager import if and only if the TPM accepts each of them |
| `HostageSlot.RefusalsCostOneAnswer` | code/LimpetApi/LimpetApi.cpp:2678-2680 | a refused blob delivered to a slot in which none waits fails one read or signature; in every run after that all is answered as if it had not come |
| `HostageSlot.RefusalsLoseTheDeliveryBefore` | code/LimpetApi/LimpetApi.cpp:3830-3846 | where another blob was waiting, that one never reaches the TPM, whether or not it would have been accepted |
| `HostageSlot.RefusedBlobsTellLazyFromEager` | code/LimpetApi/LimpetApi.cpp:2642-2684 | a slot and a blob on which lazy and eager runs answer differently |
| `HostageSlot.RunKeeps` | code/LimpetApi/LimpetApi.cpp:2642-2684 | in every run each delivery is imported at most once and in order, and neither setting changes |
| `HostageSlot.WaitsExactlyAfterAnImport` | code/LimpetApi/LimpetApi.cpp:2642-2708 | with lazy loading a blob waits after a run if and only if the run ends with an import, and it is that import's blob |
| `HostageSlot.KeysThatDoNotLoadAreTriedOnce` | code/LimpetApi/LimpetApi.cpp:2686-2708 | a signature that fails because the TPM does not load the key evicts it: in every run up to the next import signatures find no key, and reads answer as before |
| `HostageSlot.EvictedSlotsOnlyRead` | code/LimpetApi/LimpetApi.cpp:1764-1790 | after an eviction, in every run without imports, each signature fails with ERROR_FILE_NOT_FOUND, each read answers as before, and the slot does not change |
| `HostageSlot.Slot.UseRegistry` | code/LimpetApi/LimpetApi.cpp:795-828 | the choice is made once and kept |
| `HostageSlot.Slot.LimpetImportHostageKey` | code/LimpetApi/LimpetApi.cpp:3823-3846 | eager and lazy import against the step function |
| `HostageSlot.Slot.LimpetImportHostageKeyEx` | code/LimpetApi/LimpetApi.cpp:3714-3809 | in registry mode a blob the TPM accepts sets all four values, a refused one none |
| `HostageSlot.Slot.ImportHostageBlobIfPresent` | code/LimpetApi/LimpetApi.cpp:2642-2684 | a waiting blob is handed over once and deleted |
| `HostageSlot.Slot.LimpetReadURI` | code/LimpetApi/LimpetApi.cpp:1155-1197 | every way a read answers, in order |
| `HostageSlot.Slot.LimpetSignWithIdentityHmacKey` | code/LimpetApi/LimpetApi.cpp:2686-2708 | every way a signature answers, in order; a key the TPM refuses to load is removed |
| `CertificateManagement.CurrentMeansHas` | code/device-agent-plugins/CertificateManagementPlugin/CertificateManagementHandler.cpp:137-168 | splitting the device's listing and comparing without case finds exactly the certificates in the store |
| `CertificateManagement.DeletedHas` | code/device-agent-plugins/CertificateManagementPlugin/CertificateManagementHandler.cpp:79-98 | deleting a certificate takes every certificate of that name, in any case, out of the store and no other |
| `CertificateManagement.AddedHas` | code/device-agent-plugins/CertificateManagementPlugin/CertificateManagementHandler.cpp:100-119 | adding one puts that name into the store and changes no other name |
| `CertificateManagement.PassProduces` | code/device-agent-plugins/CertificateManagementPlugin/CertificateManagementHandler.cpp:148-217 | the pass over the section leaves exactly these work lists, reports and failures, in order |
| `CertificateManagement.OneRun` | code/device-agent-plugins/CertificateManagementPlugin/CertificateManagementHandler.cpp:114-245 | one run deletes exactly the present certificates desired uninstalled and adds exactly the absent ones desired installed and fetched, as far as the device accepts; no other name changes; what is reported; an exception escapes if and only if two fetched certificates lead to one temporary file, and then all of this is done up to the second of them |
| `CertificateManagement.ThrowsExactlyOnSharedFiles` | code/device-agent-plugins/CertificateManagementPlugin/CertificateManagementHandler.cpp:233-244 | the loop over the certificates to install throws if and only if the names of two of them lead to one file |
| `CertificateManagement.OnlyCarriedCount` | code/device-agent-plugins/CertificateManagementPlugin/CertificateManagementHandler.cpp:233-244 | what the loop leaves behind is what the certificates before the exception leave |
| `CertificateManagement.CarriedIsLongest` | code/device-agent-plugins/CertificateManagementPlugin/CertificateManagementHandler.cpp:233-244 | these are the longest beginning of the list in which no two lead to one file |
| `CertificateManagement.RightDataExactlyIfNotOverwritten` | code/device-agent-plugins/CertificateManagementPlugin/CertificateManagementHandler.cpp:190-244 | nothing is thrown and each certificate is installed from data with its thumbprint, if and only if no fetched certificate's file is stored again by a later item, under whatever name and whether or not a certificate can be read from it then |
| `CertificateManagement.DistinctSourcesInstallTheRightData` | code/device-agent-plugins/CertificateManagementPlugin/CertificateManagementHandler.cpp:190-192 | so it is enough that no two blobs' names lead to one file, whatever can be downloaded |
| `CertificateManagement.ContainersShareFiles` | code/device-agent-plugins/CertificateManagementPlugin/CertificateManagementHandler.cpp:47-67 | blobs of the same name in two containers share a temporary file |
| `CertificateManagement.CaseDoesNotKeepFilesApart` | code/device-agent-plugins/CertificateManagementPlugin/CertificateManagementHandler.cpp:47-67 | where the file system ignores case, two fetched certificates whose file names differ in case alone make the run throw |
| `CertificateManagement.NamesThatDifferInCase` | code/device-agent-plugins/CertificateManagementPlugin/CertificateManagementHandler.cpp:47-67 | two blobs of such names |
| `CertificateManagement.OneFileForTwo` | code/device-agent-plugins/CertificateManagementPlugin/CertificateManagementHandler.cpp:47-67 | two items fetched into one file break the distinctness on which a run depends |
| `CertificateManagement.NothingWithoutAList` | code/device-agent-plugins/CertificateManagementPlugin/CertificateManagementHandler.cpp:134-147 | without a listing or with an invalid section the run only reports that |
| `CertificateManagement.SecondRunDoesNothing` | code/device-agent-plugins/CertificateManagementPlugin/CertificateManagementHandler.cpp:114-245 | after a run without failures, with keys distinct up to case and files that match their keys, a second run issues no command |
| `CertificateManagement.CertificateManagementHandler.ModifyCertificatesHandler` | code/device-agent-plugins/CertificateManagementPlugin/CertificateManagementHandler.cpp:114-245 | the loops build the two work lists and carry them out as specified; what other groups report stays |
| `CertificateManagement.CertificateManagementHandler.BuildLists` | code/device-agent-plugins/CertificateManagementPlugin/CertificateManagementHandler.cpp:122-223 | the outer operation: the two lists, the files and the reports |
| `SplitString.SplitString` | code/Utilities/DMString.h:17-27 | the getline loop appends exactly the tokens |
| `SplitString.SplitInvertsJoinExactly` | code/Utilities/DMString.h:17-27 | a list of tokens survives joining and splitting if and only if no token has the delimiter and the last is not empty |
| `SplitString.JoinOfSplit` | code/Utilities/DMString.h:17-27 | joining what was split gives the string back, but for one delimiter at its end |
| `DateTime.ISO8601DateTimeFromString` | code/Utilities/DateTime.cpp:57-154 | the parser, with its reassigned locals, against the date it denotes, errors in the order they are found |
| `DateTime.SystemTimeFromISO8601` | code/Utilities/DateTime.cpp:156-178 | local times only |
| `DateTime.PaddedReadsBack` | code/Utilities/DateTime.cpp:180-198 | a printed 16-bit field is read back by stoi unchanged, at any width |
| `DateTime.SuffixReadsBack` | code/Utilities/DateTime.cpp:90-152 | the zone, Z or signed offset, is cut off where it begins and means what it says |
| `DateTime.PrintedTimesReadBack` | code/Utilities/DateTime.cpp:57-198 | for all 16-bit fields and every zone the printed text reads back as those fields and that zone |
| `DateTime.SystemTimesRoundTrip` | code/Utilities/DateTime.cpp:156-198 | reading what was printed restores year to second, with milliseconds and day of week zero; with a zone it is refused |

## Left out

- JsonReader.OurReader: a node on the stack is a value that is stored into its parent when it is taken off, where the original holds pointers into the parent's map; what a caller sees of the root after an exception is therefore not modelled, only that the exception is thrown
- JsonReader.OurReader.Parse: stack limits of 2^31-1 or more are excluded, because the comparison there is between ints
- JsonRoundTrip.FastRoundTrip: with dropNullPlaceholders the output is not JSON, and reals rest on the C library
- Reals: `decodeDouble` and double printing are parameters of the reader and the writers, since sscanf, snprintf and the locale are not part of this model
- Comments attached to values, `collectComments` and the writers' comment output; a reader that skips comments is modelled
- `setOffsetStart`, `setOffsetLimit`, `pushError`, locations and the text of error messages: errors are values of an enumeration
- The deprecated `Reader` except its `decodeNumber`, `StyledWriter`, `StyledStreamWriter`, `Path`, and the ownership of memory by `Value`: they repeat the core or are about storage
- `FastWriter` on an object walks the member names; the model walks the entries, which is the same order
- DependencySort.DependencySort.SortDependency: the counts are unbounded integers, where the original keeps list sizes in an int
- JsonStrings.IsAnyCharRequiredQuoting: char is assumed to be signed, as Visual C++ has it; where it is not, plain strings of bytes from 0x80 up are written as they are and `QuotedIsPrintable` fails
- PercentEncoding.Encoding: the 256 literal entries of the table are given by the rule they follow; entry 0 is never used
- Cfb.LimpetSymmetricPayloadProtection: opening the file, and which offsets the seeks, reads and writes accept, are the parameter `works`; the method requires that its loop ends, exactly where `LoopEndsExactly` says it does; files of 4 GiB and more, of which only the low half of the size is looked at, are excluded
- HostageUri.Wrap: the source does not check that the padded URI fits the 1024-byte buffer; the model requires it
- HostageSlot.Slot: registry calls are assumed to succeed and importing the same blob to give the same protected key; the out-parameters for object names, slots that use the TPM's storage, and the probe `TryTpmNvOperations` are not modelled, nor are stores, destroys and evictions between a lazy import and its first read
- HostageSlot.Slot.LimpetSignWithIdentityHmacKey: errors of unmarshalling and of too small buffers are one function of the stored value; the HMAC commands themselves are in `Hmac`
- TPM commands and marshalling, NCrypt, BCrypt, CryptoAPI, certificate issuing and stores: libraries that are not part of this model
- CertificateManagement.World: which names lead to one temporary file is the parameter `place`, and the folder of these files is left out
- DependencyHistory.PatientHistoriesSortRight: where re-registered handlers list one another, patience is shown to be enough for the sort, not to be needed
- CertificateManagement.CertificateManagementHandler: error codes and messages (a failure is the name it is reported under), `_isConfigured`, Base64 of the data, and failures of writing the temporary file
- `BuildReported` and `EmptyReported`: only formatting; the first reports the My/User list under My/System
- DateTime.Parsed: wide characters above 0xff and locale-dependent blanks
- `GetCurrentDateTimeString` and its kin: clocks and two-digit formatting without a reader
- The `SplitString` that fills a set: the same loop, forgetting order and repetition
- `Version`, `TrimString`, `DMProcess`, `Shell`, `Logger`, `TaskQueue`, `AutoClose` classes: easy or platform plumbing
- DPS and HTTP clients, the `Limpet.cpp` command line, ACPI tables, and the C# tools: network, user interface and I/O

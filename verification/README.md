# Verified models of four protocol cores

This project models, in Dafny, the four parts of a bundle of Arduino libraries
that have the most state: ArduinoJson 7.0.4, the card selection of MFRC522, and
the multipart and WebSocket code of ESPAsyncWebServer. `dafny verify
dfyconfig.toml` checks all of it.

Code that works step by step is modelled as a class or a method with the
source's fields and loops, and proved equal to a function of the input or the
old state. What the libraries promise is then proved about these functions, for
all inputs, all runs and all cards, in the modules whose names end in Theorems and
in those named below. What the functions themselves compute is said a second time
without them: by grammars, decoders, tables of literal bytes and examples of the
standards.

* **ArduinoJson, text and messages.** `Json` and `JsonDeserializers` are the
  recursive-descent parser, its parallel skipping parser and the filters;
  `Printer`, `TextFormatters` and `JsonSerializers` both printers; `MsgPack` and
  its two classes the MessagePack codec. A document is a `Value`. `JsonTexts` is the
  grammar of what the parser takes, letter by letter; `JsonAcceptance` and
  `JsonSoundness` prove both directions, `JsonIncomplete`, `JsonInvalid` and `JsonLimits`
  what the error codes mean, and `NumberTheorems` what becomes of numerals. `MsgPackFormats`
  is the table of formats, and proves that nothing shorter decodes to the same.
* **ArduinoJson, memory.** `VariantPools` is the paged slot allocator with its
  free list; `StringPools` the counted, shared strings; `Forests`, `Releases` and
  `OwnerCounts` say what a sound heap of nested lists is; `JsonDocuments` has the
  operations on it, every one of which keeps the invariant `Whole`: each slot in
  use is in exactly one list, lists are chained and ended as their ids say, there
  is no cycle, the free list holds the other slots once each, and no string has
  fewer references than owners. `DocumentViews` reads a `Value` off the slots and
  shows each operation to be the plain one on values, at its place, with the rest
  of the document unchanged. `DocumentPaths` and `DocumentHistories` put this
  together: any history of operations is the same history on plain values, and
  `DocumentLaws` says what a reader of the document sees of each operation.
  `DocumentDeserializers` parses into the slots, and `DocumentPrinters` prints off
  them (`DocumentRoundTrips`).
* **MFRC522.** `Anticollision` is PICC_Select as a function of a radio that may
  answer anything; `Mfrc522s` the loops over the frame buffer. `AnticollisionField`
  is a field of cards after section 6.5.4 of ISO/IEC 14443-3: cards that match the
  known bits answer, and the reader learns the common bits, the position of the
  collision and nothing behind it. `AnticollisionResults` says who is selected, and
  `AnticollisionAnswers` what each answer leads to, for any radio.
* **Multipart.** `Multipart` is the state machine with push-back, byte by byte,
  and the end of the request; `MultipartRequests` the same over the request's
  fields, and `MultipartRuns` feeds it packets; the reference is
  `MultipartTheorems.SplitBody`, which cuts any body at the first delimiters
  (section 5.1.1 of RFC 2046), and `MultipartBodies` shows that it takes apart what
  a sender puts together. All that a request is told is one sequence of events.
* **WebSocket.** `WebSocketFrames` are the frames of sections 5.2 to 5.4 of RFC
  6455; `WebSocketMessages` the sender driven by windows; `WebSocketParsers` the
  receiver that takes buffers as they come; `WebSocketExchanges` joins the two, and
  `WebSocketBits` reads headers and masks bit by bit.

## What does not hold

Where the code does not do what its documentation says, the model follows the
code; a lemma gives an input, and another the exact condition.

* PICC_Select takes a third-level UID part that starts with 88 hex for a cascade
  tag and drops the byte: `WrongUid`; `UidIsRight` says when the result is right.
* webSocketSendFrame has no 64-bit length: a frame of 65536 bytes or more has a
  wrong header, whatever the frame (`ShortIsRight`, `ShortLengthRead`, both
  directions). `MessageArrives` and `Exchange` are about shorter frames.
* It makes room for the length asked for, and writes the length that fits: a frame asked to
  carry more than 125 bytes and cut to fewer, or to none under a mask, has a wrong header
  (`CutHeadIsRight`, both directions). Fragments never ask for more than fits (`WindowSays`).
* The message opcode in the WebSocket event description is set only by frames that
  arrive in parts: `StaleOpcode`; `OpcodeIsTold` says when it is right.
* A control frame that arrives in parts is told as data up to its last part:
  `CutPing`; `ControlIsTold` says when it is told as it is.
* shrinkToFit can leave a pool count from which doubling steps over the last id,
  so that ids repeat: `ShrunkListOutgrowsIds`, `PoolTooManyWraps`; `GrowthIsBounded`
  has the condition.
* When a member's slot cannot be allocated after its key was saved, nobody owns a
  reference to the key: `KeyStays`; `AddMember`, `MoreThanOwned` and `ClearRoot` say
  when strings have more references than owners and outlive the document.
* A multipart body may end in "--" without a line end (section 5.1.1 of RFC 2046).
  The parser then waits for two bytes more, and the request is never handled:
  `BareDashes`, `BareDashesWait`; `BodyIsSplit` has the condition for all bodies.
* Text between a file's delimiter and the line end is written into a buffer that is
  freed: `BrokenFile`, `TextBehindFile`; behind a field it makes the field be told
  twice: `FieldTwice`, `TextBehindField`. `BodyIsSplit` again has both conditions.
* parseNumber reads 18446744073709551616 and the three integers behind it ten times too
  large, and so any number that starts with these digits: `TenTimesTooLarge`;
  `OnlyOversteppingMisreads` has the condition.
* It compares an exponent with 308 without regard to its sign or to the digits: 100e-309
  becomes zero (`SmallIsZero`) and 0e309 infinite (`ZeroIsInfinite`); `NumberRead` has the
  guard for every numeral.
* writeString leaves most control characters as they are, so that its text is not JSON
  (section 7 of RFC 8259): `NotJson`; `WrittenIsJson` has the condition.
* decodeHex takes more characters than the hexadecimal digits: `LaxHex`.
* A key with a NUL in it is cut there: `KeyColonRead`.

## Model

| member | source | states |
|---|---|---|
| JsonTheorems.FilteredParseProjects | Arduino/libraries/ArduinoJson/src/ArduinoJson/Json/JsonDeserializer.hpp:61-373 | Every input the unfiltered parse accepts is accepted under every filter, ends at the same place, and gives the projection of the unfiltered document by that filter, wildcard and last-wins keys included |
| JsonTheorems.SkipFollowsParse | Arduino/libraries/ArduinoJson/src/ArduinoJson/Json/JsonDeserializer.hpp:114-145 | Where the parser accepts a value, under any filter, the skipping parser accepts it and stops at the same byte; for a number, if the byte behind it does not continue one |
| JsonTheorems.StringSkipped | Arduino/libraries/ArduinoJson/src/ArduinoJson/Json/JsonDeserializer.hpp:480-498 | Skipping a quoted string stops where reading it does, whatever escapes it has |
| JsonTheorems.ProjectPutAll | Arduino/libraries/ArduinoJson/src/ArduinoJson/Json/JsonDeserializer.hpp:273-290 | Projecting after putting members one by one, the last of a key winning, is putting the members the filter lets through |
| PrinterTheorems.RoundTrip | Arduino/libraries/ArduinoJson/src/ArduinoJson/Json/JsonSerializer.hpp:22-102 | Parsing the minified or indented text of a document without floats gives the document back, with any bytes in its strings; with a nesting limit below its nesting the answer is TooDeep instead |
| PrinterTheorems.PrintedIsParsed | Arduino/libraries/ArduinoJson/src/ArduinoJson/Json/JsonDeserializer.hpp:61-112 | The same inside a longer text: the parser stops right behind the printed value if no number goes on there |
| PrinterTheorems.QuotedRead | Arduino/libraries/ArduinoJson/src/ArduinoJson/Json/TextFormatter.hpp:47-66 | What writeString writes is read back as the same bytes, NUL as well |
| PrinterTheorems.IntegerRead | Arduino/libraries/ArduinoJson/src/ArduinoJson/Json/TextFormatter.hpp:102-129 | What writeInteger writes for any integer from -2^63 to 2^64-1 is read back as that integer |
| LayoutTheorems.PrettyIsMinifiedAndSpaces | Arduino/libraries/ArduinoJson/src/ArduinoJson/Json/PrettyJsonSerializer.hpp:22-75 | The indented text of a document without the spaces outside its strings is its minified text |
| UnicodeTheorems.EscapesAreUtf8 | Arduino/libraries/ArduinoJson/src/ArduinoJson/Json/JsonDeserializer.hpp:398-450 | A quoted string of \u escapes, each digit in either case, surrogate pairs above U+FFFF, is read as the UTF-8 form of the scalar values, or is NoMemory when that is too long |
| Utf8Theorems.Utf8Read | Arduino/libraries/ArduinoJson/src/ArduinoJson/Json/Utf8.hpp:13-44 | A decoder that goes by the first octet, wants continuations behind it and refuses overlong forms, surrogates and numbers above 10FFFF hex reads every scalar value back, whatever follows |
| Utf8Theorems.OnlyUtf8Read | Arduino/libraries/ArduinoJson/src/ArduinoJson/Json/Utf8.hpp:13-44 | And it reads nothing but what the encoder writes for a scalar value |
| Utf8Theorems.Octets | Arduino/libraries/ArduinoJson/src/ArduinoJson/Json/Utf8.hpp:16-38 | One octet up to 7F hex, two up to 7FF, three up to FFFF, four above |
| Utf8Theorems.EscapesSay | Arduino/libraries/ArduinoJson/src/ArduinoJson/Json/JsonDeserializer.hpp:398-450 | Read back by that decoder, a string of escapes says the scalar values that were escaped |
| JsonSoundness.ParsedIsText | Arduino/libraries/ArduinoJson/src/ArduinoJson/Json/JsonDeserializer.hpp:30-373 | The parser takes an input if and only if it is a text, letter by letter: any of four spaces around values and the six structural characters, the three literal names, strings in double or single quotes with the eight escapes and code units, bare keys, numbers of at most 63 characters; and the value is the one this text stands for |
| JsonAcceptance.TextIsParsed | Arduino/libraries/ArduinoJson/src/ArduinoJson/Json/JsonDeserializer.hpp:30-373 | Every such text of at most limit levels is parsed as its value, wherever its spaces are |
| JsonInvalid.ErrorsSay | Arduino/libraries/ArduinoJson/src/ArduinoJson/Json/JsonDeserializer.hpp:579-656 | An input without NUL is EmptyInput if and only if it is all spaces; one that is IncompleteInput, or empty, is taken with more behind it; one that is InvalidInput stays so with anything behind it that does not go on with a number at its end |
| JsonLimits.RefusedText | Arduino/libraries/ArduinoJson/src/ArduinoJson/Json/JsonDeserializer.hpp:147-315 | A text that would be taken with more levels or longer strings: it is taken if and only if it keeps to the limits, and refused as TooDeep, or for memory, when it breaks only the one |
| JsonLimits.SkippedText | Arduino/libraries/ArduinoJson/src/ArduinoJson/Json/JsonDeserializer.hpp:202-373 | Where such a text is skipped it is TooDeep if and only if it has more levels than the limit, and skipped to its end otherwise |
| JsonIncomplete.IncompleteGoesOn | Arduino/libraries/ArduinoJson/src/ArduinoJson/Json/JsonDeserializer.hpp:579-656 | For any input that ended too early, the bytes that complete it |
| JsonExtension.VariantExtends | Arduino/libraries/ArduinoJson/src/ArduinoJson/Json/JsonDeserializer.hpp:61-112 | What was taken is taken again with more behind it, and stops at the same place |
| JsonObjects.LastWins | Arduino/libraries/ArduinoJson/src/ArduinoJson/Json/JsonDeserializer.hpp:273-290 | The members put one by one: each key once, in the place where it first stands, with the value it has where it stands last |
| NumberTheorems.NumberRead | Arduino/libraries/ArduinoJson/src/ArduinoJson/Numbers/parseNumber.hpp:28-141 | Every numeral is read: an integer that fits as itself, of any other the leading digits, all of them or at least 450359962737049, with the exponent that makes up for those dropped, or infinite or zero if the exponent is over 308 |
| NumberTheorems.OnlyOversteppingMisreads | Arduino/libraries/ArduinoJson/src/ArduinoJson/Numbers/parseNumber.hpp:60-95 | The digits kept, with the exponent told, cover the number written if and only if its first digits are not 18446744073709551616 to 18446744073709551619 |
| NumberTheorems.TenTimesTooLarge | Arduino/libraries/ArduinoJson/src/ArduinoJson/Numbers/parseNumber.hpp:60-69 | These four integers are read ten times too large |
| NumberTheorems.SmallIsZero | Arduino/libraries/ArduinoJson/src/ArduinoJson/Numbers/parseNumber.hpp:108-128 | 100e-309 is read as zero, although 1e-307, the same number, is not |
| NumberTheorems.ZeroIsInfinite | Arduino/libraries/ArduinoJson/src/ArduinoJson/Numbers/parseNumber.hpp:108-128 | 0e309 is read as infinite, although 0e308 is zero |
| NumberTheorems.OnlyNumerals | Arduino/libraries/ArduinoJson/src/ArduinoJson/Numbers/parseNumber.hpp:53-141 | Nothing but a numeral is read as a number, except that anything may stand behind an exponent that is too large |
| StringTheorems.CharsWritten | Arduino/libraries/ArduinoJson/src/ArduinoJson/Json/TextFormatter.hpp:55-65 | The two-letter escapes of seven bytes, six characters for NUL, every other byte as it is |
| StringTheorems.WrittenIsJson | Arduino/libraries/ArduinoJson/src/ArduinoJson/Json/TextFormatter.hpp:47-66 | What is written between the quotes is a string of section 7 of RFC 8259 if and only if none of the control characters 1 to 7, 0B and 0E to 1F hex is in the text |
| StringTheorems.NotJson | Arduino/libraries/ArduinoJson/src/ArduinoJson/Json/TextFormatter.hpp:55-65 | A text of one such character |
| StringTheorems.IntegerWritten | Arduino/libraries/ArduinoJson/src/ArduinoJson/Json/TextFormatter.hpp:102-129 | A sign if it is negative, then the digits of its amount without zeros in front |
| PrettyTheorems.PrettyIsLaidOut | Arduino/libraries/ArduinoJson/src/ArduinoJson/Json/PrettyJsonSerializer.hpp:22-75 | The indented text is what a scanner of the minified text makes that knows only brackets, commas, colons and quotes: line ends, and two spaces for each level modulo 256 |
| PrinterTheorems.KeyColonRead | Arduino/libraries/ArduinoJson/src/ArduinoJson/Json/JsonDeserializer.hpp:256-273 | A key is read back up to its first NUL, so as it was if and only if it has none |
| Ascii.LaxHex | Arduino/libraries/ArduinoJson/src/ArduinoJson/Json/JsonDeserializer.hpp:572-577 | decodeHex takes the hexadecimal digits, and ":" to "?" and the back-quote, and nothing else; the digits it reads right |
| Filters.OneIsTrue | Arduino/libraries/ArduinoJson/src/ArduinoJson/Deserialization/Filter.hpp:23-37 | Of the integers only one is a filter that keeps a value; the others but zero let it through as null |
| Filters.NullGivesWay | Arduino/libraries/ArduinoJson/src/ArduinoJson/Deserialization/Filter.hpp:39-45 | The wildcard decides about a key if and only if the filter has no value for it or a null one |
| FilterTheorems.FilteredParseKeeps | Arduino/libraries/ArduinoJson/src/ArduinoJson/Deserialization/Filter.hpp:23-45 | What is kept under a filter, said by the values in its document: true or a one keeps all; an array keeps of an array what its first element says; an object keeps of an object what it says under each key, or under the asterisk if that is nothing or null; all else leaves null |
| FilterTheorems.TrueIsNoFilter | Arduino/libraries/ArduinoJson/src/ArduinoJson/Deserialization/Filter.hpp:23-45 | Under true, or a one, every input gives what it gives without a filter, errors included |
| FilterTheorems.NothingKept | Arduino/libraries/ArduinoJson/src/ArduinoJson/Deserialization/Filter.hpp:23-25 | An element or member is kept if and only if its filter is not null, false or zero; otherwise it is skipped |
| FilterTheorems.KindIsKept | Arduino/libraries/ArduinoJson/src/ArduinoJson/Deserialization/Filter.hpp:27-37 | A filter that is an array or object keeps a collection of its kind, and leaves null of any other value |
| FilterTheorems.TrueSaysAll | Arduino/libraries/ArduinoJson/src/ArduinoJson/Deserialization/Filter.hpp:27-37 | A filter equals true if and only if it is true, the integer one, a decimal text whose amount is one, or the bits of a float or double one |
| FilterTheorems.LookupIsFirst | Arduino/libraries/ArduinoJson/src/ArduinoJson/Object/ObjectImpl.hpp:27-37 | The filter of a key is the value of the first member that has it |
| DocumentDeserializers.DocumentDeserializer.Parse | Arduino/libraries/ArduinoJson/src/ArduinoJson/Json/JsonDeserializer.hpp:30-43 | Parsing into the slots of a new document: it then holds the value of the functional parse, or the same error is reported, or there was no memory for a slot and the document is marked |
| DocumentDeserializers.DocumentDeserializer.ParseVariant | Arduino/libraries/ArduinoJson/src/ArduinoJson/Json/JsonDeserializer.hpp:61-112 | The same for the value at any path: it is put there, and the rest of the document is as before |
| DocumentDeserializers.DocumentDeserializer.ParseElements | Arduino/libraries/ArduinoJson/src/ArduinoJson/Json/JsonDeserializer.hpp:173-200 | A slot for each element the filter lets through, then its value into it |
| DocumentDeserializers.DocumentDeserializer.ParseMembers | Arduino/libraries/ArduinoJson/src/ArduinoJson/Json/JsonDeserializer.hpp:255-315 | Members in their slots; one met again takes its value where it stands |
| DocumentDeserializers.DocumentDeserializer.ParseMemberValue | Arduino/libraries/ArduinoJson/src/ArduinoJson/Json/JsonDeserializer.hpp:275-292 | The key is looked for among the slots; it is saved and a slot added if it is new, else its old value is given back |
| DocumentRoundTrips.ParseAndPrint | Arduino/libraries/ArduinoJson/src/ArduinoJson/Json/JsonSerializer.hpp:22-102 | Text to slots and back to text: parsing a printed document into slots and printing off them gives its minified text, if and only if its nesting is within the limit, unless there is no memory |
| DocumentPrinters.DocumentSerializer.Visit | Arduino/libraries/ArduinoJson/src/ArduinoJson/Json/JsonSerializer.hpp:22-102 | The printer over the slots writes the minified text of the value they hold |
| DocumentPrinters.DocumentSerializer.VisitArray | Arduino/libraries/ArduinoJson/src/ArduinoJson/Json/JsonSerializer.hpp:22-40 | The loop over slot ids, with a comma when there is a next one |
| DocumentPrinters.DocumentSerializer.VisitObject | Arduino/libraries/ArduinoJson/src/ArduinoJson/Json/JsonSerializer.hpp:42-62 | The same with keys |
| JsonDeserializers.JsonDeserializer.Parse | Arduino/libraries/ArduinoJson/src/ArduinoJson/Json/JsonDeserializer.hpp:30-44 | The class over one character of lookahead, one string builder and one flag computes the functional parse: same document, same rest, same error code, EmptyInput and a document number cut by more text included |
| JsonDeserializers.JsonDeserializer.ParseVariant | Arduino/libraries/ArduinoJson/src/ArduinoJson/Json/JsonDeserializer.hpp:61-112 | As above for one value, with spaces in front |
| JsonDeserializers.JsonDeserializer.SkipVariant | Arduino/libraries/ArduinoJson/src/ArduinoJson/Json/JsonDeserializer.hpp:114-145 | The skipping parser, same answers and same rest as its function |
| JsonDeserializers.JsonDeserializer.ParseArray | Arduino/libraries/ArduinoJson/src/ArduinoJson/Json/JsonDeserializer.hpp:147-200 | TooDeep at limit zero, elements the filter does not let through are skipped |
| JsonDeserializers.JsonDeserializer.SkipArray | Arduino/libraries/ArduinoJson/src/ArduinoJson/Json/JsonDeserializer.hpp:202-231 | Elements to the bracket, one less level |
| JsonDeserializers.JsonDeserializer.ParseObject | Arduino/libraries/ArduinoJson/src/ArduinoJson/Json/JsonDeserializer.hpp:233-315 | Members to the brace; a key met again has its value replaced where it first stood |
| JsonDeserializers.JsonDeserializer.ParseMember | Arduino/libraries/ArduinoJson/src/ArduinoJson/Json/JsonDeserializer.hpp:257-297 | One key, colon and value; the member is stored or skipped as the filter of its key says |
| JsonDeserializers.JsonDeserializer.SkipObject | Arduino/libraries/ArduinoJson/src/ArduinoJson/Json/JsonDeserializer.hpp:317-373 | Members to the brace, keys quoted or not |
| JsonDeserializers.JsonDeserializer.ParseQuotedString | Arduino/libraries/ArduinoJson/src/ArduinoJson/Json/JsonDeserializer.hpp:398-450 | Bytes to the same quote with escapes undone; a half surrogate pair is dropped or encoded as the code does |
| JsonDeserializers.JsonDeserializer.ParseNonQuotedString | Arduino/libraries/ArduinoJson/src/ArduinoJson/Json/JsonDeserializer.hpp:452-470 | The letters, digits and signs of an unquoted key |
| JsonDeserializers.JsonDeserializer.SkipQuotedString | Arduino/libraries/ArduinoJson/src/ArduinoJson/Json/JsonDeserializer.hpp:480-498 | To the closing quote, the byte behind a backslash stepped over |
| JsonDeserializers.JsonDeserializer.ParseNumericValue | Arduino/libraries/ArduinoJson/src/ArduinoJson/Json/JsonDeserializer.hpp:509-524 | At most 63 characters of a number, then parseNumber on them |
| JsonDeserializers.JsonDeserializer.ParseHex4 | Arduino/libraries/ArduinoJson/src/ArduinoJson/Json/JsonDeserializer.hpp:535-548 | Four hexadecimal digits to a code unit; it takes ":" to "?" and "`" too, as decodeHex does |
| JsonDeserializers.JsonDeserializer.SkipSpaces | Arduino/libraries/ArduinoJson/src/ArduinoJson/Json/JsonDeserializer.hpp:579-643 | Spaces away; the end of the input is EmptyInput or IncompleteInput by what was found before |
| JsonDeserializers.JsonDeserializer.SkipKeyword | Arduino/libraries/ArduinoJson/src/ArduinoJson/Json/JsonDeserializer.hpp:645-656 | Letter by letter, IncompleteInput when the text ends too early |
| Latches.Latch.Current | Arduino/libraries/ArduinoJson/src/ArduinoJson/Json/Latch.hpp:28-49 | The next character is fetched once and kept until cleared; NUL at the end |
| Unicode.Codepoint.Append | Arduino/libraries/ArduinoJson/src/ArduinoJson/Json/Utf16.hpp:36-50 | A high surrogate is kept, a low one completes it, anything else is a code point by itself |
| Unicode.EncodeCodepoint | Arduino/libraries/ArduinoJson/src/ArduinoJson/Json/Utf8.hpp:13-44 | The reversed buffer, appended backwards, is the UTF-8 form (section 3 of RFC 3629) |
| UnicodeTheorems.Surrogates | Arduino/libraries/ArduinoJson/src/ArduinoJson/Json/Utf16.hpp:36-50 | The two surrogates of a code point above U+FFFF are put together to it |
| Ascii.FindEscape | Arduino/libraries/ArduinoJson/src/ArduinoJson/Json/EscapeSequence.hpp:14-21 | The loop over the shared table finds the letter of an escaped character, none for the others |
| Ascii.FindUnescape | Arduino/libraries/ArduinoJson/src/ArduinoJson/Json/EscapeSequence.hpp:23-31 | The same table read the other way |
| StringBuilders.StringBuilder.Append | Arduino/libraries/ArduinoJson/src/ArduinoJson/Memory/StringBuilder.hpp:53-58 | One byte more in a buffer that doubles; nothing is left when the next size would be over the longest string |
| StringBuilders.StringBuilder.Save | Arduino/libraries/ArduinoJson/src/ArduinoJson/Memory/StringBuilder.hpp:28-41 | The text so far, with the buffer given away or kept |
| TextFormatters.TextFormatter.WriteString | Arduino/libraries/ArduinoJson/src/ArduinoJson/Json/TextFormatter.hpp:47-53 | Quotes, and each byte escaped as it must be |
| TextFormatters.TextFormatter.WriteChar | Arduino/libraries/ArduinoJson/src/ArduinoJson/Json/TextFormatter.hpp:55-65 | A two-letter escape, \u0000 for NUL, or the byte itself |
| TextFormatters.TextFormatter.WriteInteger | Arduino/libraries/ArduinoJson/src/ArduinoJson/Json/TextFormatter.hpp:102-114 | Sign and decimal digits, without overflow at the smallest integer |
| TextFormatters.TextFormatter.WriteUnsigned | Arduino/libraries/ArduinoJson/src/ArduinoJson/Json/TextFormatter.hpp:115-129 | Digits into a local buffer from its end come out in order, for up to 20 of them |
| JsonSerializers.JsonSerializer.VisitArray | Arduino/libraries/ArduinoJson/src/ArduinoJson/Json/JsonSerializer.hpp:22-40 | The loop that writes commas behind all elements but the last writes the text of the array |
| JsonSerializers.JsonSerializer.VisitObject | Arduino/libraries/ArduinoJson/src/ArduinoJson/Json/JsonSerializer.hpp:42-62 | The same for members |
| JsonSerializers.JsonSerializer.Visit | Arduino/libraries/ArduinoJson/src/ArduinoJson/Json/JsonSerializer.hpp:64-102 | The minified text of any document without floats is appended, and nothing else |
| JsonSerializers.PrettyJsonSerializer.VisitArray | Arduino/libraries/ArduinoJson/src/ArduinoJson/Json/PrettyJsonSerializer.hpp:22-41 | Indented text; the nesting counter is back where it was |
| JsonSerializers.PrettyJsonSerializer.VisitObject | Arduino/libraries/ArduinoJson/src/ArduinoJson/Json/PrettyJsonSerializer.hpp:43-66 | The same for members |
| JsonSerializers.PrettyJsonSerializer.WriteIndent | Arduino/libraries/ArduinoJson/src/ArduinoJson/Json/PrettyJsonSerializer.hpp:69-75 | As many pairs of spaces as the nesting |
| MsgPackTheorems.RoundTrip | Arduino/libraries/ArduinoJson/src/ArduinoJson/MsgPack/MsgPackSerializer.hpp:51-192 | Decoding the encoding of any document without floats, with anything behind it, gives the document and stops at its end, or TooDeep exactly when its nesting is over the limit |
| MsgPackTheorems.IntegerRoundTrip | Arduino/libraries/ArduinoJson/src/ArduinoJson/MsgPack/MsgPackSerializer.hpp:126-182 | All integers from -2^63 to 2^64-1, in the shortest form the code picks |
| MsgPackTheorems.StringRoundTrip | Arduino/libraries/ArduinoJson/src/ArduinoJson/MsgPack/MsgPackSerializer.hpp:100-119 | Strings of every length class, with any bytes |
| MsgPackTheorems.TruncatedIsIncomplete | Arduino/libraries/ArduinoJson/src/ArduinoJson/MsgPack/MsgPackDeserializer.hpp:225-251 | Every strict prefix of an encoding is IncompleteInput, the empty one EmptyInput |
| MsgPackTheorems.PrefixFree | Arduino/libraries/ArduinoJson/src/ArduinoJson/MsgPack/MsgPackSerializer.hpp:51-192 | No encoding starts the encoding of another document |
| MsgPackTheorems.DecodeExtends | Arduino/libraries/ArduinoJson/src/ArduinoJson/MsgPack/MsgPackDeserializer.hpp:34-223 | For any input: a value or an error other than IncompleteInput stays the answer whatever follows |
| MsgPackFormats.NoneIsShorter | Arduino/libraries/ArduinoJson/src/ArduinoJson/MsgPack/MsgPackSerializer.hpp:51-192 | Whatever bytes are decoded as a document, they are no fewer than those the serializer writes for it |
| MsgPackFormats.CodesSay | Arduino/libraries/ArduinoJson/src/ArduinoJson/MsgPack/MsgPackDeserializer.hpp:34-223 | The first bits of a code tell its family, and the 32 codes from C0 hex on are those of the table of formats |
| MsgPackFormats.IntegersRead | Arduino/libraries/ArduinoJson/src/ArduinoJson/MsgPack/MsgPackDeserializer.hpp:253-278 | Integers of one, two, four and eight bytes, the highest byte first, the signed ones negative if the highest bit is set; IncompleteInput if bytes are missing |
| MsgPackFormats.StringsRead | Arduino/libraries/ArduinoJson/src/ArduinoJson/MsgPack/MsgPackDeserializer.hpp:331-396 | A string or key of so many bytes; IncompleteInput before NoMemory |
| MsgPackFormats.OthersAreInvalid | Arduino/libraries/ArduinoJson/src/ArduinoJson/MsgPack/MsgPackDeserializer.hpp:34-223 | C1 hex is invalid, and so is a key that is not a string; floats are their bits |
| MsgPackFormats.ExtensionsSkipped | Arduino/libraries/ArduinoJson/src/ArduinoJson/MsgPack/MsgPackDeserializer.hpp:72-171 | Binary data and extensions of every size are stepped over and leave null; the 32-bit length of an extension wraps |
| MsgPackFormats.KeyIsCut | Arduino/libraries/ArduinoJson/src/ArduinoJson/MsgPack/MsgPackDeserializer.hpp:513-538 | A key is read back up to its first NUL |
| MsgPackFormats.IntegersWritten | Arduino/libraries/ArduinoJson/src/ArduinoJson/MsgPack/MsgPackSerializer.hpp:126-182 | The bytes of every integer, by its size |
| MsgPackFormats.SizesWritten | Arduino/libraries/ArduinoJson/src/ArduinoJson/MsgPack/MsgPackSerializer.hpp:51-119 | The bytes of the size of a string, an array and an object |
| MsgPackSerializers.MsgPackSerializer.Visit | Arduino/libraries/ArduinoJson/src/ArduinoJson/MsgPack/MsgPackSerializer.hpp:25-192 | The class appends the encoding of the value to what is written |
| MsgPackSerializers.MsgPackSerializer.VisitArray | Arduino/libraries/ArduinoJson/src/ArduinoJson/MsgPack/MsgPackSerializer.hpp:51-71 | Header by size class, then all elements in order |
| MsgPackSerializers.MsgPackSerializer.VisitObject | Arduino/libraries/ArduinoJson/src/ArduinoJson/MsgPack/MsgPackSerializer.hpp:73-94 | Header by size class, then keys and values in order |
| MsgPackSerializers.MsgPackSerializer.VisitString | Arduino/libraries/ArduinoJson/src/ArduinoJson/MsgPack/MsgPackSerializer.hpp:100-119 | Header by length class, then the bytes |
| MsgPackSerializers.MsgPackSerializer.VisitInteger | Arduino/libraries/ArduinoJson/src/ArduinoJson/MsgPack/MsgPackSerializer.hpp:126-154 | Negative integers in the shortest signed form, others in the unsigned one |
| MsgPackSerializers.MsgPackSerializer.VisitUnsigned | Arduino/libraries/ArduinoJson/src/ArduinoJson/MsgPack/MsgPackSerializer.hpp:156-182 | The shortest unsigned form |
| MsgPackDeserializers.MsgPackDeserializer.Parse | Arduino/libraries/ArduinoJson/src/ArduinoJson/MsgPack/MsgPackDeserializer.hpp:25-31 | The class computes the functional decoding, EmptyInput when nothing was there |
| MsgPackDeserializers.MsgPackDeserializer.ParseVariant | Arduino/libraries/ArduinoJson/src/ArduinoJson/MsgPack/MsgPackDeserializer.hpp:34-223 | The code byte decides; sizes, payloads, skipped extensions and errors as in the code |
| MsgPackDeserializers.MsgPackDeserializer.ReadArray | Arduino/libraries/ArduinoJson/src/ArduinoJson/MsgPack/MsgPackDeserializer.hpp:410-449 | TooDeep at limit zero, then n elements |
| MsgPackDeserializers.MsgPackDeserializer.ReadObject | Arduino/libraries/ArduinoJson/src/ArduinoJson/MsgPack/MsgPackDeserializer.hpp:465-511 | TooDeep at limit zero, then n keys and values; a key met twice is kept twice |
| MsgPackDeserializers.MsgPackDeserializer.ReadKey | Arduino/libraries/ArduinoJson/src/ArduinoJson/MsgPack/MsgPackDeserializer.hpp:513-538 | Only strings are keys, anything else is InvalidInput |
| MsgPackDeserializers.MsgPackDeserializer.ReadString | Arduino/libraries/ArduinoJson/src/ArduinoJson/MsgPack/MsgPackDeserializer.hpp:377-396 | n bytes, IncompleteInput or NoMemory otherwise |
| Endianness.FixEndianness | Arduino/libraries/ArduinoJson/src/ArduinoJson/MsgPack/endianess.hpp:18-34 | Two, four or eight bytes swapped in place are the bytes in reverse |
| Endianness.ToNetwork | Arduino/libraries/ArduinoJson/src/ArduinoJson/MsgPack/endianess.hpp:37-40 | Swapping the little-endian bytes of a number gives its big-endian ones |
| Endianness.FromNetwork | Arduino/libraries/ArduinoJson/src/ArduinoJson/MsgPack/endianess.hpp:37-40 | And back |
| VariantPools.VariantPoolList.AllocSlot | Arduino/libraries/ArduinoJson/src/ArduinoJson/Memory/VariantPoolList.hpp:70-91 | A slot that was not in use, from the free list, the last pool or a new one, now in use and all others as before; the null id only if all pools there can be are full or an allocation failed |
| VariantPools.VariantPoolList.FreeSlot | Arduino/libraries/ArduinoJson/src/ArduinoJson/Memory/VariantPoolImpl.hpp:76-79 | The slot is out of use and first on the free list, all others as before |
| VariantPools.VariantPoolList.AllocFromFreeList | Arduino/libraries/ArduinoJson/src/ArduinoJson/Memory/VariantPoolImpl.hpp:68-74 | The first of the free list |
| VariantPools.VariantPoolList.AllocFromLastPool | Arduino/libraries/ArduinoJson/src/ArduinoJson/Memory/VariantPoolList.hpp:135-142 | The next slot of the last pool, under an id that takes apart into its place |
| VariantPools.VariantPoolList.AddPool | Arduino/libraries/ArduinoJson/src/ArduinoJson/Memory/VariantPoolList.hpp:144-153 | One pool more, the very last one a slot short, and no id changes its slot |
| VariantPools.VariantPoolList.IncreaseCapacity | Arduino/libraries/ArduinoJson/src/ArduinoJson/Memory/VariantPoolList.hpp:155-177 | Doubled, or refused at the capacity for all ids |
| VariantPools.VariantPoolList.GetSlot | Arduino/libraries/ArduinoJson/src/ArduinoJson/Memory/VariantPoolList.hpp:93-100 | The slot of an id in use is the one stored under it |
| VariantPools.VariantPoolList.IdIsOfSlot | Arduino/libraries/ArduinoJson/src/ArduinoJson/Memory/VariantPoolList.hpp:93-100 | An id in use is below the null id and leads to the slot stored under it |
| VariantPools.VariantPoolList.ShrinkToFit | Arduino/libraries/ArduinoJson/src/ArduinoJson/Memory/VariantPoolList.hpp:121-130 | Nothing in use changes; the list is sound afterwards exactly when its new capacity still doubles to all pools |
| VariantPools.VariantPoolList.Clear | Arduino/libraries/ArduinoJson/src/ArduinoJson/Memory/VariantPoolList.hpp:102-112 | Nothing is in use |
| VariantPools.IdIsNotNull | Arduino/libraries/ArduinoJson/src/ArduinoJson/Memory/VariantPoolList.hpp:144-153 | No slot of any pool has the null id or one above, the last pool being one slot short |
| VariantPools.EveryIdIsUsable | Arduino/libraries/ArduinoJson/src/ArduinoJson/Memory/VariantPoolList.hpp:144-153 | All pools together have a slot for every id but the null id, so the bound is exact |
| VariantPools.IdIsTakenApart | Arduino/libraries/ArduinoJson/src/ArduinoJson/Memory/VariantPoolList.hpp:93-100 | The pool and the index of a slot are found again from its id |
| VariantPools.GrowthIsBounded | Arduino/libraries/ArduinoJson/src/ArduinoJson/Memory/VariantPoolList.hpp:155-177 | However often pools are added, there are never more than the ids cover, if and only if the capacity doubles to that number |
| VariantPools.PoolTooManyWraps | Arduino/libraries/ArduinoJson/src/ArduinoJson/Memory/VariantPoolList.hpp:135-142 | The first slot of a pool too many has the id of the very first slot |
| VariantPools.ShrunkListOutgrowsIds | Arduino/libraries/ArduinoJson/src/ArduinoJson/Memory/VariantPoolList.hpp:121-130 | A list of 8-bit ids shrunk to five pools steps over its bound of sixteen, and the first slot beyond has the id of the first slot of all |
| StringPools.StringPool.Add | Arduino/libraries/ArduinoJson/src/ArduinoJson/Memory/StringPool.hpp:48-67 | A text there already is shared and counted once more, a new one is there once; no other count or text changes |
| StringPools.StringPool.Get | Arduino/libraries/ArduinoJson/src/ArduinoJson/Memory/StringPool.hpp:76-82 | A text is found exactly when a string has it |
| StringPools.StringPool.Dereference | Arduino/libraries/ArduinoJson/src/ArduinoJson/Memory/StringPool.hpp:84-99 | One reference less; with the last one the string goes; no other count or text changes |
| StringPools.FoundIsThere | Arduino/libraries/ArduinoJson/src/ArduinoJson/Memory/StringPool.hpp:76-82 | One text, one string, one address; a string is there exactly when it is referenced |
| OwnerCounts.NoOwnersNoStrings | Arduino/libraries/ArduinoJson/src/ArduinoJson/Memory/StringPool.hpp:84-99 | With no owner left the pool is empty if and only if no reference was counted for nobody |
| OwnerCounts.MoreThanOwned | Arduino/libraries/ArduinoJson/src/ArduinoJson/Memory/StringPool.hpp:48-67 | A string has more references than owners if and only if some reference was counted for nobody |
| OwnerCounts.ReferencesAreFew | Arduino/libraries/ArduinoJson/src/ArduinoJson/Memory/StringPool.hpp:48-67 | A string has at most two references for each slot in use and one for the root, besides those counted for nobody |
| OwnerCounts.TextsStayAfterAdding | Arduino/libraries/ArduinoJson/src/ArduinoJson/Memory/StringPool.hpp:48-67 | What keys and values owned before reads the same after a string was added |
| JsonDocuments.JsonDocument.AddSlot | Arduino/libraries/ArduinoJson/src/ArduinoJson/Collection/CollectionImpl.hpp:49-64 | A new null slot at the end of one list and nothing else changed; every slot in use stays in exactly one list |
| JsonDocuments.JsonDocument.Clear | Arduino/libraries/ArduinoJson/src/ArduinoJson/Collection/CollectionImpl.hpp:66-77 | All slots under the collection are free again, strings given back, all others untouched; the walk reads no slot that is gone |
| JsonDocuments.JsonDocument.ReleaseSlot | Arduino/libraries/ArduinoJson/src/ArduinoJson/Collection/CollectionImpl.hpp:125-131 | The slot, its key and all under its value are given back, nothing else |
| JsonDocuments.JsonDocument.GetPreviousSlot | Arduino/libraries/ArduinoJson/src/ArduinoJson/Collection/CollectionImpl.hpp:79-91 | The slot before, none for the first |
| JsonDocuments.JsonDocument.Unlink | Arduino/libraries/ArduinoJson/src/ArduinoJson/Collection/CollectionImpl.hpp:93-106 | Head, tail and next links are those of the list without the slot |
| JsonDocuments.JsonDocument.Remove | Arduino/libraries/ArduinoJson/src/ArduinoJson/Collection/CollectionImpl.hpp:93-106 | Unlinked, then released with all that lay under it |
| JsonDocuments.JsonDocument.At | Arduino/libraries/ArduinoJson/src/ArduinoJson/Array/ArrayImpl.hpp:11-20 | The id of the element at an index, none behind the last |
| JsonDocuments.JsonDocument.GetOrAddElement | Arduino/libraries/ArduinoJson/src/ArduinoJson/Array/ArrayImpl.hpp:22-39 | The element at the index, after exactly as many nulls as were missing; a failed allocation leaves those already added |
| JsonDocuments.JsonDocument.RemoveElement | Arduino/libraries/ArduinoJson/src/ArduinoJson/Array/ArrayImpl.hpp:46-48 | The element at the index and all under it are gone, and only they; nothing happens behind the last |
| JsonDocuments.JsonDocument.SetNull | Arduino/libraries/ArduinoJson/src/ArduinoJson/Variant/VariantData.hpp:362-365 | The value and all under it are given back |
| JsonDocuments.JsonDocument.SetString | Arduino/libraries/ArduinoJson/src/ArduinoJson/Variant/VariantData.hpp:398-413 | The old value is given back, then the copied string is shared or made; without memory the value is null and the document is marked |
| JsonDocuments.JsonDocument.MakeCollection | Arduino/libraries/ArduinoJson/src/ArduinoJson/Variant/VariantData.hpp:442-468 | The old value is given back and an empty array or object is there |
| JsonDocuments.JsonDocument.AddMember | Arduino/libraries/ArduinoJson/src/ArduinoJson/Json/JsonDeserializer.hpp:273-284 | A null member of this key at the end of the object; when its slot cannot be had and the key was saved, exactly one reference more than before is owned by nobody |
| JsonDocuments.JsonDocument.ClearRoot | Arduino/libraries/ArduinoJson/src/ArduinoJson/Variant/VariantData.hpp:362-365 | No slot is in use any more, and no string is left if and only if no reference is owned by nobody |
| JsonDocuments.KeyStays | Arduino/libraries/ArduinoJson/src/ArduinoJson/Json/JsonDeserializer.hpp:279-284 | A new document, an object, a member without memory for its slot, cleared: the key is still in the pool |
| DocumentHistories.DoAll | Arduino/libraries/ArduinoJson/src/ArduinoJson/Collection/CollectionImpl.hpp:49-131 | Any history of adding, indexing with creation, removing, naming, clearing and setting, at any paths, from a new document on: it holds what the same operations make of plain values, each with as many slots as it got; each got all it needed, and no reference is owned by nobody, unless the document is marked as out of memory |
| DocumentHistories.Do | Arduino/libraries/ArduinoJson/src/ArduinoJson/Collection/CollectionImpl.hpp:49-131 | One operation at a path is the operation on the plain value, for every outcome of the allocations |
| DocumentLaws.Observed | Arduino/libraries/ArduinoJson/src/ArduinoJson/Collection/CollectionImpl.hpp:49-131 | What a reader finds at the path of each operation that got all it needed, element by element |
| DocumentLaws.Short | Arduino/libraries/ArduinoJson/src/ArduinoJson/Array/ArrayImpl.hpp:22-39 | And what with less memory |
| DocumentLaws.NothingElse | Arduino/libraries/ArduinoJson/src/ArduinoJson/Collection/CollectionImpl.hpp:49-131 | Whatever lies neither above nor below the path reads as before; where the path leads nowhere nothing happens |
| DocumentHistories.Locate | Arduino/libraries/ArduinoJson/src/ArduinoJson/Array/ArrayImpl.hpp:11-20 | The place a path leads to is found slot by slot |
| DocumentPaths.HoleIsPut | Arduino/libraries/ArduinoJson/src/ArduinoJson/Array/ArrayImpl.hpp:11-20 | The place at a path holds the value at the path, and another value there is another value put at the path of the plain document |
| DocumentEdits.FindMember | Arduino/libraries/ArduinoJson/src/ArduinoJson/Object/ObjectImpl.hpp:27-37 | The first member with the key, none if there is none |
| DocumentViews.ValueIsCleared | Arduino/libraries/ArduinoJson/src/ArduinoJson/Collection/CollectionImpl.hpp:66-77 | On values: the cleared collection is empty, and the rest of the document reads as before |
| DocumentViews.SlotsAreNulls | Arduino/libraries/ArduinoJson/src/ArduinoJson/Collection/CollectionImpl.hpp:49-64 | On values: nulls behind the elements of the collection, and the rest of the document reads as before |
| DocumentViews.SlotIsTakenOut | Arduino/libraries/ArduinoJson/src/ArduinoJson/Collection/CollectionImpl.hpp:93-106 | On values: the list without element k, and the rest of the document reads as before, although strings may be gone from the pool |
| DocumentViews.MemberIsNull | Arduino/libraries/ArduinoJson/src/ArduinoJson/Json/JsonDeserializer.hpp:273-284 | On values: the object with a null member of that key more, and the rest as before |
| DocumentViews.ValueIsReplaced | Arduino/libraries/ArduinoJson/src/ArduinoJson/Variant/VariantData.hpp:398-413 | On values: the new null, string or empty collection, and the rest as before |
| DocumentViews.OnlyThisChanges | Arduino/libraries/ArduinoJson/src/ArduinoJson/Collection/CollectionImpl.hpp:66-106 | Slots and lists that differ at one place only make documents that differ there only |
| DocumentViews.NestingOf | Arduino/libraries/ArduinoJson/src/ArduinoJson/Collection/CollectionImpl.hpp:108-116 | The loop over the slots computes how deep the value read off them nests |
| Forests.AppendedIsValid | Arduino/libraries/ArduinoJson/src/ArduinoJson/Collection/CollectionImpl.hpp:49-64 | A slot hung behind the tail leaves every list chained and ended right, every slot in one list, no cycle |
| Forests.UnlinkedIsValid | Arduino/libraries/ArduinoJson/src/ArduinoJson/Collection/CollectionImpl.hpp:93-106 | And so does a slot taken out of a list |
| Releases.NodeReleased | Arduino/libraries/ArduinoJson/src/ArduinoJson/Collection/CollectionImpl.hpp:125-131 | Clearing a slot's collection, then freeing the slot, removes exactly what lies under it |
| Releases.UnderTheRoot | Arduino/libraries/ArduinoJson/src/ArduinoJson/Collection/CollectionImpl.hpp:66-77 | Every slot in use lies under the root, so that clearing the root reaches all |
| AnticollisionResults.SelectsTheWinner | Arduino/libraries/MFRC522/src/MFRC522.cpp:640-850 | Without noise, standard cards with distinct UIDs, any number of leading UID bits known: OK, the size and SAK of the card that is greatest level by level, in transmitted bit order, among those with these bits, its UID as the code assembles it, and only that card active |
| AnticollisionResults.SelectsTheKnown | Arduino/libraries/MFRC522/src/MFRC522.cpp:640-850 | Any card in any such field is selected, alone, by its whole UID |
| AnticollisionResults.PreparedKnows | Arduino/libraries/MFRC522/src/MFRC522.cpp:692-741 | The known bits of a level, behind the cascade tag if the UID goes on, are in the buffer |
| AnticollisionAnswers.AnswersDecide | Arduino/libraries/MFRC522/src/MFRC522.cpp:640-850 | For any radio, checksum, UID and known bits: OK only if the last frame was a SELECT and its answer, without collision, was three whole bytes, the last two the checksum of the first, whose bit 2 is clear and which is the SAK told; CRC_WRONG only if either check byte differed; every SELECT before the last was answered rightly with bit 2 set; and the answer to the last one fits the code, one by one |
| AnticollisionAnswers.SelectAnswered | Arduino/libraries/MFRC522/src/MFRC522.cpp:801-847 | Which answer to a SELECT gives OK, the next level, CRC_WRONG, TIMEOUT, ERROR, NO_ROOM, COLLISION and INTERNAL_ERROR, each if and only if |
| AnticollisionAnswers.UidIsLeft | Arduino/libraries/MFRC522/src/MFRC522.cpp:816-847 | The bytes found go into the UID, three behind a cascade tag, once an answer was read without a collision, even if it is refused then; size and SAK change with OK alone |
| AnticollisionAnswers.SelectSent | Arduino/libraries/MFRC522/src/MFRC522.cpp:746-765 | Seven valid bytes: SEL, 70 hex, the four bytes found, a byte that makes them add up to zero, and the checksum |
| AnticollisionAnswers.AskAnswered | Arduino/libraries/MFRC522/src/MFRC522.cpp:755-813 | Which answer to an anticollision frame goes on, with how many bits, and which gives which code, each if and only if |
| AnticollisionResults.UidIsRight | Arduino/libraries/MFRC522/src/MFRC522.cpp:818-823 | The assembled UID is the card's if and only if no ten-byte UID with 88 hex as seventh byte loses a byte to the cascade-tag test, or the loss cannot be seen |
| AnticollisionResults.WrongUid | Arduino/libraries/MFRC522/src/MFRC522.cpp:818-823 | One such card alone in the field is reported OK with a wrong UID |
| AnticollisionExistence.SomeCardWins | Arduino/libraries/MFRC522/src/MFRC522.cpp:793-799 | Among any cards at all there is one that wins every level |
| AnticollisionExistence.QuietRadio | Arduino/libraries/MFRC522/src/MFRC522.cpp:640-850 | For any cards there is a radio without noise, so the result above speaks of every field |
| AnticollisionWinner.LevelChooses | Arduino/libraries/MFRC522/src/MFRC522.cpp:743-814 | One level ends with the winner's four bytes and checksum sent and its SAK received, and the cards that share them still listening |
| AnticollisionWinner.FieldNarrows | Arduino/libraries/MFRC522/src/MFRC522.cpp:692-844 | After each level exactly the cards that agree with the winner so far go on to the next |
| AnticollisionTheorems.SelectIsBounded | Arduino/libraries/MFRC522/src/MFRC522.cpp:692-847 | For any behaviour of the radio: at most three levels, of at most 32 anticollision frames and one SELECT each |
| AnticollisionTheorems.LevelIsBounded | Arduino/libraries/MFRC522/src/MFRC522.cpp:743-814 | Each frame of a level says more known bits than the one before it, up to 32 |
| Mfrc522s.Mfrc522.Select | Arduino/libraries/MFRC522/src/MFRC522.cpp:640-850 | The nested loops over the nine-byte buffer and the ten-byte UID, all indices inside, send the frames and return the code, UID and size of the protocol function, known bits and errors included |
| Mfrc522s.Mfrc522.RunLevel | Arduino/libraries/MFRC522/src/MFRC522.cpp:743-814 | The anticollision loop of a level against its function, for any radio |
| Mfrc522s.Mfrc522.Prepare | Arduino/libraries/MFRC522/src/MFRC522.cpp:692-741 | SEL byte, cascade tag and the known bits put into the buffer |
| Mfrc522s.Mfrc522.CopyUid | Arduino/libraries/MFRC522/src/MFRC522.cpp:818-823 | The bytes found go to the UID, three behind a cascade tag, else four |
| Mfrc522s.Mfrc522.CheckSak | Arduino/libraries/MFRC522/src/MFRC522.cpp:825-843 | SAK length, checksum and cascade bit decide between error, next level and end |
| Mfrc522s.Mfrc522.ReadRegister | Arduino/libraries/MFRC522/src/MFRC522.cpp:95-126 | The first byte is merged above the aligned bit, the others stored |
| MultipartTheorems.BodyIsSplit | Arduino/libraries/ESPAsyncWebServer/src/WebRequest.cpp:131-176 | For every body, whatever its bytes and whether or not there is memory for its uploads, cut into any packets: the request is told of exactly the parts that splitting at the first occurrence of each delimiter gives, in order; it writes through a freed buffer if and only if something other than a dash or CR LF stands behind a file's delimiter; and it is handled once, behind the parts, if and only if a packet ends where the request is complete |
| MultipartTheorems.ClosedIsHandled | Arduino/libraries/ESPAsyncWebServer/src/WebRequest.cpp:526-534 | With four bytes from the closing dash on the request is always handled, with fewer never, so a body that ends in the two dashes waits for ever |
| MultipartTheorems.AnnouncedIsHandled | Arduino/libraries/ESPAsyncWebServer/src/WebRequest.cpp:170-175 | A body that does not close is handled if and only if all of the announced length is there |
| MultipartTheorems.PartsRead | Arduino/libraries/ESPAsyncWebServer/src/WebRequest.cpp:429-477 | From a first header line to the end of the input, the parser's run has the outcome that splitting the text has |
| MultipartTheorems.ContentRead | Arduino/libraries/ESPAsyncWebServer/src/WebRequest.cpp:478-525 | The same from inside an item, with the bytes held back |
| MultipartTheorems.FileMisread | Arduino/libraries/ESPAsyncWebServer/src/WebRequest.cpp:535-550 | Behind the delimiter of a file, whose buffer is freed, any other byte is written through a null pointer |
| MultipartTheorems.FieldToldTwice | Arduino/libraries/ESPAsyncWebServer/src/WebRequest.cpp:535-550 | A field whose delimiter is followed by other text is told once up to there and again with the delimiter and all up to the next one |
| MultipartTheorems.ItemRead | Arduino/libraries/ESPAsyncWebServer/src/WebRequest.cpp:478-525 | Inside an item the bytes held back are always the longest end of the input that starts the delimiter, and the item ends, and is told, at the first delimiter |
| MultipartTheorems.MatchGoesOn | Arduino/libraries/ESPAsyncWebServer/src/WebRequest.cpp:478-508 | A byte that breaks a partial delimiter restarts it at most at this byte, because a delimiter has one CR |
| MultipartTheorems.StepKeeps | Arduino/libraries/ESPAsyncWebServer/src/WebRequest.cpp:526-534 | Nothing told is taken back, and the length changes only with the closing dash, to four bytes behind where it stands |
| MultipartTheorems.PacketsRun | Arduino/libraries/ESPAsyncWebServer/src/WebRequest.cpp:135-142 | Packets matter only by the marks on their last bytes, and by one ending where the request is complete; then the rest is ignored |
| MultipartTheorems.UploadIsWhole | Arduino/libraries/ESPAsyncWebServer/src/WebRequest.cpp:369-378 | The chunks of a file that is not empty have offsets one behind the other from zero, fit 1460 bytes, make up the file and end with one final chunk; then the file is a parameter |
| MultipartUploads.HandedOverBetweenPackets | Arduino/libraries/ESPAsyncWebServer/src/WebRequest.cpp:369-378 | Between packets the buffer of a file never is full, and is empty unless a delimiter may have begun |
| MultipartUploads.PacketFills | Arduino/libraries/ESPAsyncWebServer/src/WebRequest.cpp:369-378 | Before the last byte of a packet only chunks of 1460 bytes are handed over, the final one aside |
| MultipartTheorems.EndsSomewhere | Arduino/libraries/ESPAsyncWebServer/src/WebRequest.cpp:170-175 | That a packet ends behind so many bytes, step by step and as a sum |
| MultipartTheorems.RestIsIgnored | Arduino/libraries/ESPAsyncWebServer/src/WebRequest.cpp:131-175 | Packets behind the one that completes the request change nothing |
| MultipartBodies.WrittenIsTold | Arduino/libraries/ESPAsyncWebServer/src/WebRequest.cpp:394-552 | A body put together from header lines and contents without a delimiter in them, with any end behind the closing dashes, in any packets: these items are told, in order, and then the request is handled if and only if a packet ends four bytes behind the closing dash |
| MultipartBodies.ClosedLineIsHandled | Arduino/libraries/ESPAsyncWebServer/src/WebRequest.cpp:170-175 | With a line end behind the two dashes the request is handled, whatever the packets |
| MultipartBodies.BareDashesWait | Arduino/libraries/ESPAsyncWebServer/src/WebRequest.cpp:526-534 | With the two dashes alone it never is |
| MultipartBodies.FieldOnce | Arduino/libraries/ESPAsyncWebServer/src/WebRequest.cpp:394-552 | A body written out letter by letter, in any packets: one field and then the request, each told once |
| MultipartBodies.BareDashes | Arduino/libraries/ESPAsyncWebServer/src/WebRequest.cpp:526-534 | A body of one field for which this happens |
| MultipartBodies.TextBehindFile | Arduino/libraries/ESPAsyncWebServer/src/WebRequest.cpp:535-550 | Other text behind the delimiter of a file breaks the request, in any packets |
| MultipartBodies.BrokenFile | Arduino/libraries/ESPAsyncWebServer/src/WebRequest.cpp:535-550 | A body of one file for which this happens |
| MultipartBodies.TextBehindField | Arduino/libraries/ESPAsyncWebServer/src/WebRequest.cpp:535-550 | Other text behind the delimiter of a field makes it be told twice, in any packets |
| MultipartBodies.FieldTwice | Arduino/libraries/ESPAsyncWebServer/src/WebRequest.cpp:535-550 | A body of one field for which this happens |
| MultipartRuns.Receive | Arduino/libraries/ESPAsyncWebServer/src/WebRequest.cpp:131-176 | The class, from its constructor through any packets: its events, its state and whether it broke, by splitting the body; without a body it is handled at once |
| MultipartRequests.MultipartRequest.OnData | Arduino/libraries/ESPAsyncWebServer/src/WebRequest.cpp:135-175 | The body loop over the fields and the upload buffer, and the end of the request, compute the function of the packet |
| MultipartRequests.MultipartRequest.ParseMultipartPostByte | Arduino/libraries/ESPAsyncWebServer/src/WebRequest.cpp:394-552 | One byte, every state with its push-back |
| MultipartRequests.MultipartRequest.HandleUploadByte | Arduino/libraries/ESPAsyncWebServer/src/WebRequest.cpp:369-378 | A byte into the buffer, handed over when it is full or the packet ends |
| MultipartRequests.MultipartRequest.FinishItem | Arduino/libraries/ESPAsyncWebServer/src/WebRequest.cpp:510-521 | A field becomes a parameter; a file that is not empty its final chunk and a parameter; its buffer is freed |
| MultipartRequests.MultipartRequest.ParseHeaderByte | Arduino/libraries/ESPAsyncWebServer/src/WebRequest.cpp:429-477 | Header lines to the empty one; a file gets a buffer, and without memory the body is an error |
| WebSocketTheorems.MessageArrives | Arduino/libraries/ESPAsyncWebServer/src/AsyncWebSocket.cpp:317-354 | Any message that is not empty, any windows, any cut that leaves headers whole: the payloads handed over are the message; the first frame has the opcode, the others are continuations, only the last has FIN |
| WebSocketExchanges.Exchange | Arduino/libraries/ESPAsyncWebServer/src/AsyncWebSocket.cpp:317-354 | From the sending class to the receiving class: whatever room the connection has in each turn, and however the stream is cut as long as no header is, the message arrives, marked as it must be |
| WebSocketExchanges.SendAll | Arduino/libraries/ESPAsyncWebServer/src/AsyncWebSocket.cpp:317-354 | Every turn with a window sends something, so the message is out after as many turns as it has bytes |
| WebSocketExchanges.ReceiveBuffers | Arduino/libraries/ESPAsyncWebServer/src/AsyncWebSocket.cpp:608-697 | The receiving class over a sequence of buffers |
| WebSocketTheorems.OpcodeIsTold | Arduino/libraries/ESPAsyncWebServer/src/AsyncWebSocket.cpp:646-656 | An event of a first frame gives its opcode for the message if and only if the frame arrives in parts or the message before had the same |
| WebSocketTheorems.FragmentIsTold | Arduino/libraries/ESPAsyncWebServer/src/AsyncWebSocket.cpp:646-656 | The number of a fragment goes up with first parts of continuations that arrive in parts, and starts at zero with other first parts |
| WebSocketBits.XorIsBitwise | Arduino/libraries/ESPAsyncWebServer/src/AsyncWebSocket.cpp:641-644 | A bit of the exclusive or of two bytes is set if and only if exactly one of them has it |
| WebSocketBits.PayloadBits | Arduino/libraries/ESPAsyncWebServer/src/AsyncWebSocket.cpp:635-645 | Every bit told of a masked frame is the exclusive or of the bit that came and of the bit of key byte (index + place) modulo four; without a mask it is the bit that came |
| WebSocketBits.HeaderBits | Arduino/libraries/ESPAsyncWebServer/src/AsyncWebSocket.cpp:612-634 | FIN, opcode, mask bit, the three length forms and the key by the bits and bytes of the figure in section 5.2 of RFC 6455 |
| WebSocketBits.OpcodesSay | Arduino/libraries/ESPAsyncWebServer/src/AsyncWebSocket.cpp:658-684 | What is told of a whole frame, by its opcode |
| WebSocketBits.TextExamples | Arduino/libraries/ESPAsyncWebServer/src/AsyncWebSocket.cpp:608-697 | The text frames of section 5.7 of RFC 6455, unmasked and masked |
| WebSocketBits.PingExamples | Arduino/libraries/ESPAsyncWebServer/src/AsyncWebSocket.cpp:608-697 | Its ping and the masked answer |
| WebSocketBits.BinaryExamples | Arduino/libraries/ESPAsyncWebServer/src/AsyncWebSocket.cpp:608-697 | Its binary frames of 256 and 65536 bytes |
| WebSocketTheorems.StaleOpcode | Arduino/libraries/ESPAsyncWebServer/src/AsyncWebSocket.cpp:646-656 | A text in two parts, then a binary frame in one buffer, whose event gives the opcode of the text |
| WebSocketTheorems.ControlIsTold | Arduino/libraries/ESPAsyncWebServer/src/AsyncWebSocket.cpp:646-680 | A ping or a close is told as it is if and only if it arrives whole; otherwise its first parts are told as data |
| WebSocketTheorems.CutPing | Arduino/libraries/ESPAsyncWebServer/src/AsyncWebSocket.cpp:646-680 | A ping of two bytes for which this happens |
| WebSocketTheorems.FramesArrive | Arduino/libraries/ESPAsyncWebServer/src/AsyncWebSocket.cpp:608-697 | Any encoded data frames are told as events exactly, each with its offsets, and nothing else |
| WebSocketTheorems.ShortLengthRead | Arduino/libraries/ESPAsyncWebServer/src/AsyncWebSocket.cpp:44-107 | The length a receiver reads in a sent header is right if and only if it is below 65536 |
| WebSocketFrames.ShortIsRight | Arduino/libraries/ESPAsyncWebServer/src/AsyncWebSocket.cpp:44-107 | The frame written is the one of section 5.2 of RFC 6455 if and only if its payload is below 65536 bytes |
| WebSocketFrames.MaskedTwice | Arduino/libraries/ESPAsyncWebServer/src/AsyncWebSocket.cpp:635-645 | Masking twice with the same key, from the same offset, gives the payload back |
| WebSocketMessages.FragmentsSay | Arduino/libraries/ESPAsyncWebServer/src/AsyncWebSocket.cpp:317-354 | The fragments of a run are the part of the message sent so far, each not empty and marked as it must be |
| WebSocketMessages.SendFrame | Arduino/libraries/ESPAsyncWebServer/src/AsyncWebSocket.cpp:44-107 | Nothing, or one frame of as many bytes as the window takes, its data masked in place |
| WebSocketMessages.CutHeadIsRight | Arduino/libraries/ESPAsyncWebServer/src/AsyncWebSocket.cpp:44-107 | The header of a frame cut short by the space left is that of the frame if and only if the length takes as many bytes as the length asked for, and a mask has a payload |
| WebSocketMessages.WindowSays | Arduino/libraries/ESPAsyncWebServer/src/AsyncWebSocket.cpp:35-42 | The window is what fits behind eight bytes of header, and nothing less |
| WebSocketMessages.BasicMessage.Send | Arduino/libraries/ESPAsyncWebServer/src/AsyncWebSocket.cpp:317-354 | Nothing, or the next fragment; the frames sent still cover the message up to what is counted as sent |
| WebSocketMessages.BasicMessage.Ack | Arduino/libraries/ESPAsyncWebServer/src/AsyncWebSocket.cpp:310-316 | Sent when all bytes are acknowledged |
| WebSocketMessages.RunQueue | Arduino/libraries/ESPAsyncWebServer/src/AsyncWebSocket.cpp:524-534 | The front message is sent on only between frames and when there is a window |
| WebSocketParsers.WebSocketClient.OnData | Arduino/libraries/ESPAsyncWebServer/src/AsyncWebSocket.cpp:608-697 | The loop over a buffer, unmasking in place, computes the receiving function: parser state and events |
| WebSocketParsers.WebSocketClient.ReadHead | Arduino/libraries/ESPAsyncWebServer/src/AsyncWebSocket.cpp:616-633 | Flags, length in one, three or nine bytes, and key |
| WebSocketParsers.WebSocketClient.Handle | Arduino/libraries/ESPAsyncWebServer/src/AsyncWebSocket.cpp:647-691 | A data event with its offset, a ping answered, a pong told, a close answered |

## Left out

- Floats: their digits and bits are carried as they are, without IEEE rounding; printing them, and round trips of documents that hold them, are not modelled.
- Filters.Filter: a filter that is a float is compared with one before rounding.
- NumberTheorems.NumberRead: parseNumber is a function over the digits, without its loops; it is not a core file.
- The document that is left behind when a parse fails: results are a document or an error code.
- Comments, NaN, Infinity and unquoted values: off in the default configuration.
- MessagePack binary and extension payloads: stepped over, the value stays null, as in the code.
- Allocation failure of the string builder, except strings over the longest length.
- The indented printer and the MessagePack codec work on `Value`, not on the slots.
- MsgPackDeserializers.MsgPackDeserializer.Parse: without the filter.
- MsgPackDeserializers.MsgPackDeserializer.ParseVariant: without the filter.
- MsgPackDeserializers.MsgPackDeserializer.ReadArray: without the filter, whose wildcard breaks an assertion of the code here.
- MsgPackDeserializers.MsgPackDeserializer.ReadObject: without the filter.
- JsonDocuments.JsonDocument.SetNull: the flag of a value and its union are one datatype here, so reading one member as another cannot be expressed.
- Copying a document into another, and removing a member by its key, are not modelled.
- VariantPools.VariantPoolList.ShrinkToFit: a failed reallocation leaves the list as it was; swapping and moving lists is left out.
- VariantPools.GrowthIsBounded: pool sizes that do not divide the number of ids, and the allocator's own limits, are left out.
- StringPools.StringPool.Add: reference counts are unbounded here; in the code they have the width of a slot id, which suffices while `ReferencesAreFew` stays below it. Addresses of strings that are gone are not used again.
- AnticollisionResults.SelectsTheWinner: cards are woken and stay in the field; the register reads are as in the code, but SPI, timers and the interrupt polling of the chip are one answer of the radio, and the checksum is an abstract function.
- AnticollisionField.Answers: a collision position counts bits from the start of the level; what the chip stores before the aligned bit is taken from its data sheet.
- Mfrc522s.Mfrc522.Select: MFRC522Extended is not modelled.
- MultipartTheorems.BodyIsSplit: the text of header lines is an abstract function of the line; the boundary is not empty, has at most 255 bytes and no CR; and no bytes follow a packet that ends at the announced length (`RestIsIgnored` is about those).
- MultipartRuns.Receive: under the same conditions.
- MultipartRequests.MultipartRequest.OnData: the request head and bodies of other kinds are left out, and so is the path without a handler that needs the body, which only counts its bytes.
- StringBuilders.StringBuilder.Save: whether the string pool has the text already is a flag; the pool that decides it is `StringPools`, and sharing is proved there.
- WebSocketTheorems.MessageArrives: frames below 65536 bytes, by the finding above; messages of several clients and frames of 4 GiB and more are left out.
- WebSocketTheorems.FramesArrive: data frames only. A control frame cut in parts is told as data by the code, so the statement is false with control frames between.
- WebSocketMessages.SendFrame: a connection that takes less than its space says, or fails to send, is left out.
- WebSocketMessages.BasicMessage.Send: with a window, as its caller makes sure of; without one the code sends an empty frame.
- WebSocketMessages.RunQueue: without the queue of control frames.
- WebSocketParsers.WebSocketClient.Handle: the close handshake and the status of the connection are one control event.
- WebSocketParsers.WebSocketClient.OnData: a header cut by the end of a buffer is read past it by the code; the model stops there and says so in headsAreWhole.

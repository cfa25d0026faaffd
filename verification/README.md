# A verified model of ELTN-C

ELTN-C is a pull parser for ELTN, the table notation of Lua, with an open-addressing key set and a Unicode
transcoder; its examples carry cJSON 1.7.18. This project models both and proves what they are for. Code that
changes state is modelled by classes and methods with the same fields, loops and branches; each method is proved
against a specification function, and the theorems are about those functions. `dafny verify dfyconfig.toml` checks
everything.

## The two parts

**ELTN** (`src/`)

- `RingBuffer`: the ring with its reader refines a byte queue. `Scanner` says what the tokens of a text are;
  `Lexer` is the pushback lexer that computes them; `LexerTheorems`, `CommentTheorems` and `StringTheorems` say
  what the tokens are in terms of the text, and `Characters` has the documented characters, words and numbers by
  their codes.
- `EventMachine` is `ELTN_Parser_next` on tokens, with its `(last_event, depth, no_defs)` and no stack; `Parser` is
  the C structure, which refines it. `Grammar` holds parse trees, with tokens and events of its own;
  `ParserTheorems`, `DocumentTheorems` and `RunTheorems` prove that the machine recognises exactly the grammar and
  reports exactly the tree, and `ErrorTheorems` that an error is reported at the first token with which no document
  goes on.
  `LayoutTheorems` and `TextTheorems` take that to text: a text is accepted if and only if it is a document written
  with any spelling of its tokens and any white space and comments between them, or nothing where nothing is needed.
- `Probing`, `KeyHash` and `KeySet`: the key set refines a set of identities. `Doubles`: its number keys, as IEEE 754
  has them.
- `Escapes`, `EscapeTheorems`: unescaping undoes quoting. `DocumentedStrings`: strings in every documented form, which
  are one token and which are unescaped as documented. `Transcode`, `TranscodeTheorems`: transcoding against the
  definitions of UTF-16 and UTF-8.

**cJSON** (`examples/json/`)

- `JsonTree`, `JsonText`, `JsonParse`: the tree, the text printed for it, and what is read from a text.
  `JsonPrinter` and `JsonReader` are the two buffers that compute them; `JsonString` shows that an unescaped string
  fits the buffer that is sized for it; `JsonUnicode` is about its `\u` escapes.
- `JsonStrings`: strings in every form of RFC 8259, and what is read for them. `JsonGrammar`: texts with any spelling
  of their values and any blanks. `JsonComplete`, `JsonSound` and `JsonTexts` prove that exactly those are read, up to
  the nesting limit. `JsonScalars` and `JsonRoundTrip`: how printed texts are spelled and laid out, and that they are
  read back. `JsonOffsets` has what is shared.
- `JsonList`: the doubly linked child lists. `JsonSort`: `sort_list`, which relinks them; `JsonSortTheorems` says
  when they are proper lists afterwards.
- `JsonPointer`, `JsonPointerTheorems`, `JsonPointerCode`: pointers to nodes, and following them. `JsonPointerNames`:
  which member a token names in either case mode, and where a pointer leads.
  `JsonPointerStandard`: the evaluation of RFC 6901, and for which trees and which pointers the code agrees with it.
- `JsonNames`: which names are the same but for case, and which comes before which. `JsonCompare`,
  `JsonCompareTheorems`: equality by sorting. `JsonCompareGroups`: what that decides of objects with
  repeated names. `JsonReordering`: when the order of members matters to it. `JsonLinked`, `JsonCompareInPlace`:
  `compare_json` on linked trees, which it relinks as it goes. `JsonCompareAgain`: what a second comparison gives then.

## Where the code differs from what one would expect

Each of these is in the model as the code has it, and the members named say exactly when it matters.

- A semicolon after the last definition is an error, although the documentation (doc/eltn.md:716) allows it:
  `DocumentTheorems.DocumentedAccepted`, and `a = 1;` in `DocumentTheorems.TrailingSemicolonIsRefused`.
- A name is read as a literal when it is a proper prefix of `true`, `false` or `nil`, since only the name's own length
  is compared (src/elexer.c:174-178): `LexerTheorems.NameIsMisread`, and `t` in `LexerTheorems.OneLetterIsTrue`.
- A comment right behind a number is read into the number, since a hyphen may be part of one (src/elexer.c:359):
  `LayoutTheorems.WordIsRead`, and `1--c` in `LayoutTheorems.CommentBehindNumber`.
- A quote behind a backslash never ends a string, even when that backslash is itself escaped, so that `"\\"` is not
  one token (src/elexer.c:231): `StringTheorems.QuotedTextIsOneToken`, `StringTheorems.BackslashDoesNotFit`.
- `\z` is to skip all white space, but a newline behind `\z` and a blank breaks the string off:
  `DocumentedStrings.DocumentedString`, `StringTheorems.BlankBeforeNewlineDoesNotFit`.
- A `\u{...}` escape whose UTF-8 form has more than one byte is lost unless the text written so far is longer than that
  form: `EscapeTheorems.UnicodeEscapeNeedsRoom`, `DocumentedStrings.DocumentedString`, and an escape at the start of a
  string in `EscapeTheorems.UnicodeEscapeLost`.
- An unfinished `\x` or `\u` escape is dropped without an error: `EscapeTheorems.UnfinishedEscapeIsDropped`.
- UTF-16 pairs in the wrong order are read as if they were in the right one, and 32-bit values past Unicode are written
  in longer forms: `TranscodeTheorems.WrongPairs`, `TranscodeTheorems.WrittenLength`.
- An escaped newline stands for a newline, as the documentation says in words; its table (doc/eltn.md:276) has 0x0d:
  `DocumentedStrings.Meaning`.
- Text that a reader returns along with a non-zero code is lost, unless it is the first call's: `RingBuffer.TakenIsAll`,
  `RingBuffer.LateTextIsLost`.
- 0.0 and -0.0 are equal but hash differently, and a NaN is never found: `KeySet.FindsExactly`,
  `KeySet.SignedZeroIsMissed`.
- Printing into a buffer of fixed size needs one byte more than the text and its NUL
  (`JsonPrinter.PrintPreallocated`); the header advises five.
- In JSON any byte up to 0x20 counts as a blank, NUL included, and a byte order mark before the last byte of a text is
  not skipped: `JsonTexts.ReadsWholeTexts`, `JsonTexts.ReadsPrefixes`.
- An error behind an opening bracket, or outside tables behind a semicolon, has the code of that bracket or semicolon,
  even when the token that is wrong is INVALID or the end of the file (src/eparser.c:355-374):
  `ErrorTheorems.ErrorIsFirst`.
- A `\u` escape in JSON is read as section 7 of RFC 8259 has it, or refused where that has nothing, if and only if its
  four bytes are hexadecimal digits; it is read as U+0000 if one is not: `JsonUnicode.LiteralIsStandard`,
  `JsonUnicode.BadLiteralIsNul`, and `"\u00zz"` for the empty string in `JsonUnicode.BadEscapeIsRead`.
- The order of an object's members matters to comparison if and only if two members of one name have values that
  compare as different: `JsonReordering.OrderMattersToRepeats`, and two such objects in
  `JsonCompareTheorems.RepeatedNamesKeepTheirOrder`.
- Comparison sorts both objects for good, and sorting turns members of one name round
  (`JsonCompareGroups.SortReversesGroups`). A second comparison gives the same answer if in every object the values of
  each name read the same backwards, as they do when names are not repeated (`JsonCompareAgain.ComparesAgain`); this is
  also when a tree compares as equal to whatever sorting makes of it (`JsonCompareAgain.RelinkingIsUnseen`). Two members
  that make an object differ from the next copy are in `JsonCompareAgain.SecondComparisonDiffers`.
- Sorting an object leaves the first member's `prev` as it comes, so that the members of a proper list are one
  afterwards if and only if the first and the last one stay in place (`JsonSort.SortObject`), which is when the first
  name comes before all others and the last one after all others (`JsonSortTheorems.SameEndsMeans`).
- A member is hidden from pointers by an earlier one of the same name: `JsonPointerTheorems.FindThenGet`.
- A pointer gets a node where RFC 6901 has an error if and only if one of its steps is no step of the standard: text
  that no slash starts, an index that is none, or a repeated name: `JsonPointerStandard.EvaluatesAsGot`,
  `JsonPointerStandard.GetIsStandard`, and in terms of the pointer alone `JsonPointerStandard.PointerIsStandard`; `a` in
  `JsonPointerStandard.AnyTextGetsTheRoot`, and `/`, whose empty token is index 0 to the code, in
  `JsonPointerStandard.NoIndexGetsTheFirst`.
- Array indices in pointers may hold bytes past `9` (examples/json/cJSON_Utils.c:285), and numbers wrap round:
  `JsonPointerTheorems.IndexIsDecoded`, `JsonPointerTheorems.IndexAgreesWithStandard`, and `1a` for 59 in
  `JsonPointerTheorems.LettersCountAsDigits`.

## Model

| member | source | states |
|---|---|---|
| DocumentTheorems.Soundness | src/eparser.c:394-612 | every token sequence that brings the parser to STREAM_END is the token sequence of some document tree, and the events are exactly that tree's traversal |
| DocumentTheorems.Completeness | src/eparser.c:376-612 | every document tree, with any separators and keys, is accepted and traversed exactly, but for one that a semicolon trails, which is not accepted |
| DocumentTheorems.ParserDecidesLanguage | src/eparser.c:394-612 | the machine without a stack accepts a token sequence if and only if a document tree of the parser's language spells it, and then its events are that tree's traversal |
| DocumentTheorems.DocumentedAccepted | doc/eltn.md:711-733 | a document of the documented grammar is accepted if and only if its last token is no semicolon |
| DocumentTheorems.TrailingSemicolonIsRefused | doc/eltn.md:716 | the documented text a = 1; is not accepted |
| DocumentTheorems.LastToken | src/eparser.c:494-508 | the trees that the parser refuses for a trailing semicolon are exactly those whose last token is one |
| ParserTheorems.SoundValue | src/eparser.c:394-426 | from inside a value at any depth, an accepting run has read exactly one value tree and reported its traversal |
| ParserTheorems.SoundItems | src/eparser.c:562-606 | the same for the entries of a table and its closing brace |
| ParserTheorems.SoundEntry | src/eparser.c:428-472 | the same for one entry with no key, a name or a bracketed key |
| ParserTheorems.SoundKeyed | src/eparser.c:546-561 | the same for the equals sign and value after a key |
| ParserTheorems.CompleteValue | src/eparser.c:394-426 | a run through a value tree, whatever follows it, reports that tree and comes back to the same depth |
| ParserTheorems.CompleteItems | src/eparser.c:562-606 | the same for a table's entries with any choice of separators |
| ParserTheorems.CompleteEntry | src/eparser.c:428-472 | the same for one entry |
| DocumentTheorems.SoundDefinitions | src/eparser.c:494-508 | an accepting run at the top level has read a list of definitions, each behind any number of semicolons |
| DocumentTheorems.CompleteDefinitions | src/eparser.c:494-508 | any such list is accepted to the end |
| RunTheorems.DepthCountsOpenTables | src/eparser.c:166-171 | after any number of calls the depth is TABLE_STARTs less TABLE_ENDs, and it is 0 at STREAM_END |
| RunTheorems.RunStops | src/eparser.c:156-160 | one call more than there are tokens reaches STREAM_END or ERROR, and any number of further calls change nothing there, error code and position included, but for the tokens still unread |
| ErrorTheorems.ErrorIsFirst | src/eparser.c:355-374 | a token sequence that is refused ends in ERROR at the first token that no document of the parser's language goes on with: some document starts with the tokens before it, and none with it as well; the error has that token's text, line and column, and the code of its kind unless a bracket or, outside tables, a semicolon stands before it |
| ErrorTheorems.FaultIsThere | src/eparser.c:518-612 | the same text, place and code from any state on a run |
| ErrorTheorems.StaysFailed | src/eparser.c:518-612 | whatever follows that token, the run ends in ERROR |
| ErrorTheorems.IsRepaired | src/eparser.c:518-612 | with other tokens from there on the run would have reached STREAM_END |
| ErrorTheorems.NextGoesOn | src/eparser.c:518-612 | a call that raises no error looks no further than the tokens that it takes |
| RunTheorems.Unambiguous | doc/eltn.md:711-733 | two document trees with the same tokens are the same tree |
| TextTheorems.ParserDecidesTexts | src/eparser.c:394-612 | a text is accepted if and only if it is a document of the parser's language, its tokens spelled in any way and with any white space and comments around them, each standing apart from what follows it; then the events are that document's traversal |
| LayoutTheorems.TextOfDocument | doc/eltn.md:711-733 | every document tree, with any spelling of its tokens and any white space and comments between them or nothing, is read as its own tokens if and only if no token goes on into what stands right behind it; its text is then accepted if and only if no semicolon trails it, and the events are the tree's traversal |
| TextTheorems.TextIsLaidOut | src/elexer.c:374-492 | every text without INVALID tokens is white space, comments and spelled tokens in turn |
| LayoutTheorems.WordIsRead | src/elexer.c:374-492 | a token of any kind, spelled as that kind is, is read as that token wherever it stands, unless the byte right behind it is one that names, numbers or an opening bracket go on with; then another token is read, which is no comment |
| TextTheorems.SpelledMeansRead | src/elexer.c:374-492 | a text spells a token, carriage returns in strings included, if and only if that is what the lexer makes of the text alone |
| LayoutTheorems.CommentBehindNumber | src/elexer.c:351-372 | 1--c is one INVALID token |
| LayoutTheorems.SameRun | src/eparser.c:518-612 | tokens that differ in nothing but their positions give the same events and the same end |
| Parser.Parser.Next | src/eparser.c:518-612 | the C fields after a call are the machine's next state, error code and position included |
| Parser.Parser.NextToken | src/eparser.c:376-392 | skips comments and returns the next token of the text that is still to come |
| Parser.Parser.ExpectNewEntry | src/eparser.c:428-472 | refines the machine's entry step, in which the call succeeds even when a key's closing bracket is missing, although the event is then the error |
| Parser.Parser.ExpectNewDefinition | src/eparser.c:494-508 | refines the machine's definition step, in which the caller keeps the first semicolon it held |
| Parser.Parser.SignalError | src/eparser.c:355-374 | the error code comes from the token held, text and position from the last one read |
| Parser.Parser.AfterValue | src/eparser.c:562-596 | refines the machine's separator step at every depth |
| Parser.Parser.ReadString | src/eparser.c:147-154 | from then on the parser will see exactly the tokens, comments left out and with their positions, of the text that it has read, what the buffer held and this string; a fresh one those of the string |
| Parser.Parser.Read | src/eparser.c:142-145 | the same with all that the reader's chunks deliver together |
| Parser.AllEvents | examples/eventlog.c:78-85 | the caller's loop sees the machine's whole trace, in at most one call more than there are tokens |
| Parser.ParseString | src/eparser.c:142-160 | a whole text gives the machine's trace on its tokens, in at most one call more than it has bytes |
| Parser.ParseChunks | src/eparser.c:142-160 | the events depend on the chunks only through the text that they deliver together, and are those of that text |
| LexerTheorems.TokensTileText | src/elexer.c:374-492 | the bytes of a text are, in order, white space and token texts; only carriage returns and the newline that breaks a quoted string are dropped; every line and column is that of the token's first byte |
| LexerTheorems.PositionMeans | src/elexer.c:119-128 | the line of a place is one more than the newlines before it, and its column is one more than its distance from the last of them |
| LexerTheorems.TokenText | src/elexer.c:209-372 | a token's text is the text it covers without carriage returns, and exactly that for tokens of a plain kind |
| LexerTheorems.ClassesAreDocumented | src/estring.c:229-394 | white space, letters, digits, quotes, name and number characters are the documented ones, code by code |
| LexerTheorems.KeywordsAreReserved | src/elexer.c:180-207 | the words that are no names are exactly the documented reserved ones |
| LexerTheorems.BracketsAreDocumented | src/elexer.c:241-299 | opening and closing brackets of a level are two brackets with that many equals signs between |
| LayoutTheorems.DocumentedNumber | src/elexer.c:351-372 | every number of the documented grammar, decimal or hexadecimal, with or without fraction and exponent, is spelled by number characters alone and starts as a number does |
| LexerTheorems.LongStringToken | src/elexer.c:328-349 | a LONG_STRING is an opening bracket of some level, a body, and the first closing bracket of that level; an INVALID one is not closed at all |
| LexerTheorems.LongBodyCloses | src/elexer.c:279-299 | past an opening bracket of any level the token ends at the first closing bracket of that level and at no shorter prefix |
| CommentTheorems.CommentToken | src/elexer.c:301-326 | a comment token is a line up to its newline, or a long bracket behind its two hyphens with its first closing bracket |
| CommentTheorems.BracketedCommentIsOneToken | src/elexer.c:301-326 | conversely, two hyphens, an opening bracket of a level and a text behind it, wherever they stand, are exactly that LONG_COMMENT if and only if the text goes up to its first closing bracket of that level; carriage returns do not count |
| CommentTheorems.LineCommentIsOneToken | src/elexer.c:301-326 | two hyphens and the rest of a line, ended by a newline or by the text and with or without carriage returns, are exactly one COMMENT if and only if no long bracket starts it |
| CommentTheorems.LongStringOpens | src/elexer.c:241-277 | a token is a LONG_STRING only if its text has a complete opening bracket |
| CommentTheorems.BracketedTextIsOneToken | src/elexer.c:328-349 | conversely, an opening bracket of a level and a text behind it, wherever they stand, are exactly that LONG_STRING if and only if the text goes up to its first closing bracket of that level; carriage returns do not count |
| LexerTheorems.NameIsMisread | src/elexer.c:174-178 | a name gets another kind than the documented one if and only if it is a proper prefix of true, false or nil |
| LexerTheorems.OneLetterIsTrue | src/elexer.c:174-178 | the name t is read as the literal true |
| StringTheorems.StringToken | src/elexer.c:209-239 | in any text, a quote starts a STRING if and only if a matching quote follows that no backslash stands before, carriage returns apart, with no newline between that is not escaped; the token ends at the first such quote |
| StringTheorems.QuotedTextIsOneToken | src/elexer.c:209-239 | a body put in quotes anywhere in a text is one STRING token if and only if, carriage returns apart, each quote in it stands behind a backslash, each newline behind a backslash or \z, and it does not end in a backslash |
| StringTheorems.BackslashDoesNotFit | src/elexer.c:231 | an escaped backslash before the closing quote keeps the string open |
| StringTheorems.BlankBeforeNewlineDoesNotFit | src/elexer.c:220-224 | a newline right behind \z goes on in the string, one behind \z and a blank breaks it off |
| Lexer.Lexer.NextToken | src/elexer.c:374-492 | returns the scanner's token of the text from the place reached, with its position, and moves there; a pushed-back byte goes to the next token |
| Lexer.Lexer.GetNextChar | src/elexer.c:105-138 | delivers the text's bytes one by one, keeping line and column those of the last byte; the end is absorbing |
| Lexer.Lexer.ConsumeUntilMatchingQuote | src/elexer.c:209-239 | computes the scanner's quoted string |
| Lexer.Lexer.InLongBracket | src/elexer.c:241-277 | computes the scanner's incremental bracket test |
| Lexer.Lexer.EndsWithLongBracket | src/elexer.c:279-299 | whether the token ends in the closing bracket of that level |
| Lexer.Lexer.ConsumeUntilEndOfComment | src/elexer.c:301-326 | computes the scanner's comment |
| Lexer.Lexer.ParseLongString | src/elexer.c:328-349 | computes the scanner's long string |
| Lexer.Lexer.ParseNumber | src/elexer.c:351-372 | the longest run of number bytes, a NUMBER if the library reads it as one |
| Lexer.Lexer.ParseName | src/elexer.c:462-490 | the longest run of name bytes and its kind |
| RingBuffer.Buffer.Write | src/ebuffer.c:193-219 | the queue grows by exactly the text, across wrap-around and growth, if and only if the buffer is not closed |
| RingBuffer.Buffer.Store | src/ebuffer.c:207-217 | overwriting free cells, round the end if need be, appends the text |
| RingBuffer.Buffer.SetCapacity | src/ebuffer.c:98-138 | succeeds exactly for capacities above the length, and keeps the queue |
| RingBuffer.Buffer.Length | src/ebuffer.c:86-92 | the length of the queue, always below the capacity |
| RingBuffer.Buffer.NextByte | src/ebuffer.c:225-238 | peeks at or takes the head of the queue |
| RingBuffer.Buffer.Close | src/ebuffer.c:221-223 | closing keeps the queue |
| RingBuffer.Buffer.ReadIntoBuffer | src/ebuffer.c:148-179 | one call of the reader moves its chunk to the queue, losing nothing of queue and reader together unless it fails |
| RingBuffer.Buffer.Read | src/ebuffer.c:181-191 | queue and reader together then hold the old queue and all that the chunks deliver |
| RingBuffer.Buffer.EnsureMoreBytes | src/ebuffer.c:240-255 | refills past empty chunks and ends; false exactly when nothing is left |
| RingBuffer.Buffer.NextChar | src/ebuffer.c:257-267 | the first byte of queue and reader together, however they are divided |
| RingBuffer.RingAppend | src/ebuffer.c:207-217 | writing text into the cells from the tail on appends it to the ring's contents |
| RingBuffer.ChunkingIsInvisible | src/ebuffer.c:148-191 | two lists of chunks without failures deliver the same text exactly when their concatenations are the same |
| RingBuffer.TakenIsAll | src/ebuffer.c:165-171 | all text is delivered if and only if no call after the first has text with or after a failure |
| RingBuffer.LateTextIsLost | src/ebuffer.c:165-171 | text that comes with the failure of a second call is not delivered |
| KeySet.KeySet.AddKey | src/ekeyset.c:254-270 | returns true exactly for a new key and then the table holds just one key more; never fails for want of room, and keeps the invariant |
| KeySet.KeySet.HasKey | src/ekeyset.c:174-207 | true exactly for members, for keys other than NaNs and zeros beside the other zero |
| KeySet.KeySet.AddSlot | src/ekeyset.c:209-224 | puts the key into a free slot that probing from its home reaches, and fails only if there is none |
| KeySet.KeySet.Resize | src/ekeyset.c:226-252 | rehashing loses no key and re-establishes that every key is reachable |
| KeySet.KeySet.Iterator | src/ekeyset.c:272-304 | one pass gives every key once and no other |
| KeySet.KeySet.Size | src/ekeyset.c:166-168 | the number of keys held, which is the number of distinct identities when none is a NaN |
| KeySet.FindsExactly | src/ekeyset.c:117-130 | what a lookup answers for every key: never a NaN; a zero beside the other zero only if its home slot is taken; any other key if and only if it is a member |
| KeySet.FindsIsMembership | src/ekeyset.c:174-207 | for ordinary keys probing decides membership |
| KeySet.SignedZeroIsMissed | src/ekeyset.c:153-155 | a table that holds 0.0, which equals -0.0, and does not find -0.0 |
| KeySet.EqualIsSameId | src/ekeyset.c:117-130 | for keys as the code copies them is_equal is identity but for NaNs and zeros, and the same identity has the same hash |
| Doubles.EqualIsNumeric | src/ekeyset.c:117-130 | two number keys are equal if and only if neither is a NaN and they stand for the same number in IEEE 754 binary64 (section 3.4), infinities and subnormals included |
| Doubles.ClassesOf | src/ekeyset.c:117-130 | a NaN is what has the highest exponent and a fraction, a zero what has neither exponent nor fraction |
| KeySet.CapacityShape | src/ekeyset.c:34-35 | the capacity is 6*2^k - 1, so the load threshold 0.65 is never hit exactly |
| KeySet.StaysUnique | src/ekeyset.c:254-270 | a key that was not found can be added without a repeated key |
| KeySet.IdsSize | src/ekeyset.c:166-168 | without NaNs there are as many identities as keys |
| Probing.InsertKeepsReachable | src/ekeyset.c:209-224 | filling the slot at the end of a run of taken slots keeps every key reachable from its home |
| KeyHash.HashStringIsPolynomial | src/ekeyset.c:132-152 | the hash is congruent to the sum of (c - 96)*31^i modulo 1000000009, truncating remainders and all, with its low 31 bits kept |
| KeyHash.ShortHash | src/ekeyset.c:132-152 | the hash of one byte or two is that sum itself, negative or not, with its low 31 bits kept |
| KeyHash.Hash | src/ekeyset.c:132-152 | the loop computes it in 64 signed bits without overflow for any length |
| EscapeTheorems.QuotingRoundTrip | src/estring.c:86-194 | every byte string, written with any choice of plain, hexadecimal and octal escapes, is lexed as one STRING token anywhere in a text, and unescaping gives the string back |
| DocumentedStrings.DocumentedString | doc/eltn.md:236-325 | a body in any of the documented forms is one token between quotes if and only if it does not end in an escaped backslash and no \z removes a newline but as its first byte; it is unescaped to the documented bytes if and only if every \u escape has room |
| DocumentedStrings.ElementsDone | src/estring.c:86-194 | from any element on, the loop adds the documented bytes of the rest, or fewer bytes if a \u escape has no room |
| DocumentedStrings.ElementsGoOn | src/elexer.c:209-239 | nothing in a body of documented forms ends the string if and only if no \z removes a newline but as its first byte |
| EscapeTheorems.UnicodeEscapeNeedsRoom | src/estring.c:66-84 | a \u escape adds its UTF-8 form if and only if that is one byte or shorter than what was written before |
| EscapeTheorems.UnicodeEscapeLost | src/estring.c:80 | a string that starts with an escaped e-acute loses it |
| EscapeTheorems.UnfinishedEscapeIsDropped | src/estring.c:49-84 | \x without two hexadecimal digits behind it and \u without braces stand for nothing, and what follows is read on its own |
| EscapeTheorems.LineEndIsNewline | src/estring.c:110-130 | an escaped line end, in any of its three forms, stands for one newline |
| EscapeTheorems.UnquotedTextIsKept | src/estring.c:86-194 | a text that no quote starts is kept as it is if it has no backslash and no NUL |
| Escapes.UnescapeQuotedString | src/estring.c:86-194 | the loop computes the unescaped text for every input |
| TranscodeTheorems.TranscodingIsExact | src/convert.c:210-248 | for every sequence of scalar values both conversions give exactly its UTF-8 form if the output is larger, and otherwise that of a prefix; decoding the output gives the scalars back |
| TranscodeTheorems.WritesUtf8 | src/convert.c:129-168 | write_utf8 writes the standard form or nothing; a failed space check never falls through to an overlong form |
| TranscodeTheorems.DecodeInvertsUtf8 | src/convert.c:129-168 | a strict decoder inverts the encoding |
| TranscodeTheorems.ReadsUtf16 | src/convert.c:187-208 | read_utf16 inverts UTF-16 |
| TranscodeTheorems.WrongPairs | src/convert.c:187-208 | a pair of surrogates in the wrong order is read as its scalar value, and half a pair is an error |
| TranscodeTheorems.WrittenLength | src/convert.c:129-168 | how many bytes are written for every 32-bit value, six at most and none past 0x7FFFFF |
| TranscodeTheorems.LongForms | src/convert.c:129-168 | the forms of four and five bytes hold the value in groups of six bits, past Unicode as well |
| Transcode.Char16To8 | src/convert.c:210-232 | the loop writes exactly the specified bytes, at most outsz of them, and changes nothing from outsz on |
| Transcode.Char32To8 | src/convert.c:234-248 | the same for 32-bit units |
| JsonRoundTrip.RoundTrip | examples/json/cJSON.c:1088-1272 | parsing the printed text of a tree, formatted or not, with or without its NUL, gives the tree back if it is nested at most 1000 deep, and fails if it is deeper |
| JsonRoundTrip.PrintedText | examples/json/cJSON.c:1380-1843 | the text printed for a tree, at any depth and formatted or not, is a spelling of that tree, blanks and all |
| JsonRoundTrip.PrintedLayout | examples/json/cJSON.c:1552-1843 | unformatted text has no blanks; formatted text has each member on a line of its own behind as many tabs as brackets are open, a tab after each colon and a blank after each comma of an array, and no others |
| JsonRoundTrip.PrintedIsGood | examples/json/cJSON.c:1325-1451 | every printed spelling is one that the parser takes, given that strtod reads integers |
| JsonScalars.QuoteIsQuoted | examples/json/cJSON.c:781-1030 | every NUL-free string is read back from its quoted form |
| JsonScalars.StringIsPrinted | examples/json/cJSON.c:911-1030 | a string is printed byte by byte: as it is, or by the letter that means it, or else by \u and its code in small digits |
| JsonScalars.DecimalIsNumeral | examples/json/cJSON.c:307-381 | every int is read back from its decimal text, given that strtod reads integers |
| JsonScalars.DecimalIsInteger | examples/json/cJSON.c:573-576 | the decimal text of an int is the shortest integer text of that value, at most 11 bytes long |
| JsonTexts.ReadsWholeTexts | examples/json/cJSON.c:1104-1181 | a text is read up to its terminating NUL if and only if it is a value in any spelling, nested no deeper than 1000, with any blanks in it and around it and a byte order mark before it or none; it is then read as that value |
| JsonTexts.ReadsPrefixes | examples/json/cJSON.c:1104-1181 | without that option a text is read if and only if it starts with such a value, a byte order mark counting if two bytes follow it, or with as much of a number as strtod takes of at most 63 bytes; it is then read as that |
| JsonTexts.DeepIsRefused | examples/json/cJSON.c:1459-1462 | a value nested deeper than 1000 is refused in any spelling |
| JsonTexts.ListInBracesIsRefused | examples/json/cJSON.c:1522-1525 | any list of items closed by a brace is refused, whatever follows it, and at that brace if nothing in it is nested too deep |
| JsonTexts.ObjectInBracketsIsRefused | examples/json/cJSON.c:1703-1706 | the same for members closed by a bracket |
| JsonComplete.SpellingIsRead | examples/json/cJSON.c:1325-1377 | a value in any spelling with any blanks, anywhere in a text and at any depth, is read as that value to its last byte, or refused if it comes to lie deeper than 1000 |
| JsonComplete.ItemsAreRead | examples/json/cJSON.c:1454-1549 | the same for the items of an array |
| JsonComplete.MembersAreRead | examples/json/cJSON.c:1614-1729 | the same for the members of an object |
| JsonComplete.QuotedMoves | examples/json/cJSON.c:781-908 | a string is read alike on its own and inside a text |
| JsonSound.ValueIsSpelled | examples/json/cJSON.c:1325-1377 | whatever is read as a value is a spelling of that value, from the first byte to the last |
| JsonSound.NothingStarts | examples/json/cJSON.c:1375-1377 | where no value starts, reading fails at that byte |
| JsonSound.LoneBracketIsRefused | examples/json/cJSON.c:1475-1480 | a bracket in which the text ends is refused where it stands |
| JsonSound.ItemsAreSpelled | examples/json/cJSON.c:1454-1549 | the same for the items of an array |
| JsonSound.MembersAreSpelled | examples/json/cJSON.c:1614-1729 | the same for the members of an object |
| JsonStrings.StringIsRead | examples/json/cJSON.c:781-908 | a string in any form of RFC 8259 (section 7), bytes, two-character escapes and \u escapes single or in pairs, is refused at the first escape in it that stands for nothing, and read as the UTF-8 form of what it stands for, up to a NUL, if there is none |
| JsonStrings.NoStringIsRefused | examples/json/cJSON.c:787-819 | what no quote starts, and a string in which the text ends, are refused behind their first byte |
| JsonStrings.ReadStringIsPieces | examples/json/cJSON.c:781-908 | conversely, every string that is read is in one of those forms, if four hexadecimal digits follow each of its \u |
| JsonUnicode.LiteralIsUtf8 | examples/json/cJSON.c:660-778 | the \u escape of every scalar value, in one or two UTF-16 units and either case, is read as its UTF-8 form |
| JsonUnicode.LoneSurrogateIsRefused | examples/json/cJSON.c:679-713 | half of a surrogate pair without its other half is refused |
| JsonUnicode.LiteralIsStandard | examples/json/cJSON.c:660-778 | a \u escape is read as the UTF-8 form of the scalar value that it spells, and refused if it spells none, if and only if its first four bytes, where it has them, are hexadecimal digits |
| JsonUnicode.BadEscapeIsRead | examples/json/cJSON.c:643-646 | the string "\u00zz" is read as the empty string |
| JsonUnicode.BadLiteralIsNul | examples/json/cJSON.c:643-646 | a \u escape with a bad digit is read as U+0000 |
| JsonString.RoomForLiteral | examples/json/cJSON.c:818-875 | a \u escape leaves the output buffer room for the rest, even where it steps into the middle of another escape |
| JsonString.RoomForByte | examples/json/cJSON.c:829-882 | so does every other byte and escape |
| JsonReader.ParseBuffer.UnescapeInto | examples/json/cJSON.c:827-885 | the second pass never writes past the buffer that the first pass sized, and computes the unescaped text |
| JsonReader.ParseBuffer.FindClosingQuote | examples/json/cJSON.c:798-819 | finds the closing quote and counts the escapes on the way |
| JsonReader.ParseBuffer.Utf16LiteralToUtf8 | examples/json/cJSON.c:660-778 | writes the specified bytes after what is there, or reports failure |
| JsonReader.ParseBuffer.ReadHex4 | examples/json/cJSON.c:623-656 | the value of four hexadecimal digits, 0 if one is bad |
| JsonReader.ParseBuffer.ParseString | examples/json/cJSON.c:781-908 | the specified string and offset, and on failure the offset of the error |
| JsonReader.ParseBuffer.ParseNumber | examples/json/cJSON.c:307-381 | the library's reading of at most 63 number bytes |
| JsonReader.ParseBuffer.ParseValue | examples/json/cJSON.c:1325-1377 | the specified value and offset; the depth is restored on success |
| JsonReader.ParseBuffer.ParseArray | examples/json/cJSON.c:1454-1549 | the same for arrays, refused beyond the nesting limit |
| JsonReader.ParseBuffer.ParseObject | examples/json/cJSON.c:1614-1729 | the same for objects |
| JsonReader.ParseBuffer.SkipWhitespace | examples/json/cJSON.c:1047-1070 | skips blanks and control bytes, stepping back by one at the end of the buffer |
| JsonReader.ParseBuffer.ParseText | examples/json/cJSON.c:1104-1181 | the tree of a whole buffer, with byte order mark and final NUL treated as the options say |
| JsonPrinter.PrintBuffer.PrintValue | examples/json/cJSON.c:1380-1451 | succeeds if and only if the text and two bytes fit the space there can be, and then the buffer holds old text, new text and a NUL |
| JsonPrinter.PrintBuffer.PrintArray | examples/json/cJSON.c:1552-1611 | the same for arrays |
| JsonPrinter.PrintBuffer.PrintObject | examples/json/cJSON.c:1732-1843 | the same for objects |
| JsonPrinter.PrintBuffer.PrintStringPtr | examples/json/cJSON.c:911-1030 | the same for strings |
| JsonPrinter.PrintBuffer.PrintNumber | examples/json/cJSON.c:553-620 | the same for integers |
| JsonPrinter.PrintBuffer.CountEscapes | examples/json/cJSON.c:938-962 | the first pass counts exactly the bytes that escaping adds |
| JsonPrinter.PrintBuffer.WriteEscaped | examples/json/cJSON.c:981-1025 | the second pass writes exactly the escaped text after what is there |
| JsonPrinter.PrintBuffer.Ensure | examples/json/cJSON.c:447-530 | there is room if and only if the limit allows it, and what was printed survives growth |
| JsonPrinter.PrintBuffer.UpdateOffset | examples/json/cJSON.c:533-543 | the offset moves to the end of the text, as no printed text holds a NUL |
| JsonPrinter.Print | examples/json/cJSON.c:1196-1272 | gives the whole text of every tree whose text fits an int |
| JsonPrinter.PrintPreallocated | examples/json/cJSON.c:1305-1322 | succeeds if and only if the buffer has two bytes more than the text |
| JsonList.AddItemToArray | examples/json/cJSON.c:1974-2005 | appends to the sequence of children and keeps all links: next and prev inverse, the first item's prev at the last, the last next NULL |
| JsonList.DetachItemViaPointer | examples/json/cJSON.c:2205-2239 | removes the item from the sequence, keeps all links and clears the item's own |
| JsonList.DetachItemFromArray | examples/json/cJSON.c:2241-2249 | the same by index, out of range included |
| JsonList.InsertItemInArray | examples/json/cJSON.c:2281-2313 | inserts before the index, or at the end past it, and keeps all links |
| JsonList.ReplaceItemViaPointer | examples/json/cJSON.c:2315-2362 | puts the replacement in the item's place and keeps all links |
| JsonList.ReplaceItemInArray | examples/json/cJSON.c:2364-2372 | the same by index |
| JsonList.GetItem | examples/json/cJSON.c:1869-1886 | the child at an index, NULL past the end |
| JsonList.GetArraySize | examples/json/cJSON.c:1846-1867 | the number of children |
| JsonPointerTheorems.FindThenGet | examples/json/cJSON_Utils.c:198-346 | for every tree and path, a pointer is found exactly for the nodes of the tree, and the case-sensitive getter returns that very node if and only if no earlier member of the same name is in the way |
| JsonPointerTheorems.PointerLeadsBack | examples/json/cJSON_Utils.c:198-346 | with distinct names every node has a pointer that gets it |
| JsonPointerTheorems.TokenNamesOneMember | examples/json/cJSON_Utils.c:120-154 | compare_pointers on an encoded name and any rest holds if and only if it is the same name |
| JsonPointerTheorems.IndexIsRead | examples/json/cJSON_Utils.c:274-299 | the decimal of every size_t is read back, without wrapping round |
| JsonPointerTheorems.IndexIsDecoded | examples/json/cJSON_Utils.c:274-299 | which tokens the code accepts as indices, bytes past 9 included, and the value of each modulo SIZE_MAX + 1 |
| JsonPointerTheorems.IndexAgreesWithStandard | examples/json/cJSON_Utils.c:274-299 | the code decodes a token as RFC 6901 (section 4) has it if and only if the token is refused, or is a nonempty text of digits for at most SIZE_MAX |
| JsonPointerTheorems.LettersCountAsDigits | examples/json/cJSON_Utils.c:285 | the token 1a is decoded as 59, which the RFC refuses |
| JsonPointerTheorems.FindsNode | examples/json/cJSON_Utils.c:198-259 | the depth-first search finds a node if and only if it is in the tree, and builds the pointer of RFC 6901 (sections 3 and 4) |
| JsonPointerTheorems.GetStaysBelow | examples/json/cJSON_Utils.c:301-346 | following a pointer stays below the node it starts from, in either case mode |
| JsonPointerTheorems.DistinctNamesShadowNothing | examples/json/cJSON_Utils.c:324-332 | with distinct names the first match is the right one |
| JsonPointerStandard.EvaluatesAsGot | examples/json/cJSON_Utils.c:301-346 | for every tree and pointer, the evaluation of RFC 6901 (section 4) is what the case-sensitive getter gives where each of its steps is one of the standard's, and an error everywhere else |
| JsonPointerStandard.GetIsStandard | examples/json/cJSON_Utils.c:301-346 | so the getter agrees with the RFC if and only if it gets nothing, or every token follows a slash, every index is a decimal of a size_t and no name on the way is repeated |
| JsonPointerStandard.MatchesToken | examples/json/cJSON_Utils.c:120-154 | compare_pointers holds if and only if the token, with ~0 and ~1 decoded and no other tilde in it, is the name |
| JsonPointerStandard.PointerIsStandard | examples/json/cJSON_Utils.c:301-346 | for a pointer, getter and RFC agree on every tree with distinct names if and only if its text has no token that follows no slash or may be an index to the code alone, or some token of it is neither such an index nor a name |
| JsonPointerStandard.AnyTextGetsTheRoot | examples/json/cJSON_Utils.c:312 | the pointer a gets the root, which the RFC refuses |
| JsonPointerStandard.NoIndexGetsTheFirst | examples/json/cJSON_Utils.c:274-299 | the pointer / gets the first item of an array, which the RFC refuses |
| JsonPointerNames.MatchMeans | examples/json/cJSON_Utils.c:120-154 | in either case mode compare_pointers holds if and only if the token, with ~0 and ~1 decoded, is the name: byte by byte, or but for the case of letters by their places in two alphabets |
| JsonPointerNames.FirstMatchIsFirstSame | examples/json/cJSON_Utils.c:324-332 | the member that is taken is the first one of the same name, in either case mode |
| JsonPointerNames.GetFollows | examples/json/cJSON_Utils.c:301-346 | for every tree, pointer and case mode, the getter comes to the node to which its tokens lead one by one, through the number of an index and the first member of the same name |
| JsonPointerCode.ComparePointers | examples/json/cJSON_Utils.c:120-154 | the loop computes the specified match in either case mode |
| JsonPointerCode.EncodeStringAsPointer | examples/json/cJSON_Utils.c:173-196 | writes the encoded name and a NUL after what is there |
| JsonPointerCode.PointerEncodedLength | examples/json/cJSON_Utils.c:157-170 | the length of the encoded name |
| JsonPointerCode.JoinPointer | examples/json/cJSON_Utils.c:240-249 | slash, encoded name and rest fit the buffer that is asked for |
| JsonPointerCode.DecodeArrayIndex | examples/json/cJSON_Utils.c:274-299 | the loop computes the specified index, wrapping round as a size_t |
| JsonPointerCode.GetItemFromPointer | examples/json/cJSON_Utils.c:301-346 | the loop comes to the specified node |
| JsonPointerCode.FindPointer | examples/json/cJSON_Utils.c:198-259 | the recursion computes the specified pointer |
| JsonCompareTheorems.CompareDecides | examples/json/cJSON_Utils.c:604-690 | for trees without repeated names, comparing sorted members side by side holds if and only if the trees are equal up to the order of members at every level |
| JsonCompareTheorems.RepeatedNamesKeepTheirOrder | examples/json/cJSON_Utils.c:534-545 | two objects with the same members, one name repeated, that compare as different |
| JsonCompareGroups.ObjectsCompareByName | examples/json/cJSON_Utils.c:654-682 | two objects of any members compare as equal, in either case mode, if and only if each name has as many members in both and these have, in their order, values that compare as equal |
| JsonCompareGroups.SortReversesGroups | examples/json/cJSON_Utils.c:484-593 | sorting turns the members of each name round |
| JsonCompareGroups.SortedCompares | examples/json/cJSON_Utils.c:595-602 | an object compares as equal to what sorting makes of it if and only if the values of each name read the same backwards |
| JsonCompareGroups.SortedTwiceCompares | examples/json/cJSON_Utils.c:595-602 | sorted twice, it always does |
| JsonReordering.OrderMattersToRepeats | examples/json/cJSON_Utils.c:604-690 | every reordering of an object compares as equal to it if and only if any two of its members of one name have values that compare as equal, in either case mode |
| JsonReordering.ReorderingIsUnseen | examples/json/cJSON_Utils.c:654-682 | then no reordering is seen, whichever way the sort breaks ties |
| JsonReordering.ExchangeIsSeen | examples/json/cJSON_Utils.c:534-545 | exchanging two members of one name with different values makes the objects compare as different |
| JsonNames.SortAscends | examples/json/cJSON_Utils.c:484-593 | after sorting no later member's name comes before an earlier one's, in either case mode; one name comes before another if it ends first behind what both start with, or has the smaller byte there |
| JsonNames.NegativeIsNameBefore | examples/json/cJSON_Utils.c:83-109 | compare_strings is negative if and only if the first name comes before the second, in either case mode |
| JsonNames.ZeroIsSameName | examples/json/cJSON_Utils.c:83-109 | compare_strings is 0 if and only if the names are the same, or the same but for case |
| JsonNames.FoldsCase | examples/json/cJSON_Utils.c:142 | two bytes fold to the same one if and only if they are the same letter but for case, by its place in two written-out alphabets, or the same byte |
| JsonCompareTheorems.SortOrders | examples/json/cJSON_Utils.c:484-593 | every two names of sorted members stand in the order of compare_strings, in either case mode |
| JsonCompareTheorems.MergeOrders | examples/json/cJSON_Utils.c:534-590 | merging two ordered lists gives an ordered one |
| JsonCompareTheorems.EntriesDecide | examples/json/cJSON_Utils.c:655-682 | walking two sorted lists side by side decides that they have the same names with equivalent values |
| JsonCompareTheorems.StrCmpTransitive | examples/json/cJSON_Utils.c:83-109 | the comparison of names is an order |
| JsonCompareInPlace.CompareInPlace | examples/json/cJSON_Utils.c:604-690 | on two trees of chained items, compared before or not, it returns the specified comparison of what they stand for as they are chained, and leaves two such trees of the same items, each list as it was or sorted, both roots' lists sorted if they are objects |
| JsonCompareInPlace.CompareBoth | examples/json/cJSON_Utils.c:610-690 | the same for arguments that are there, touching nothing but the lists in the two trees |
| JsonCompareInPlace.CompareArrays | examples/json/cJSON_Utils.c:635-653 | two arrays are walked as they stand |
| JsonCompareInPlace.CompareObjects | examples/json/cJSON_Utils.c:655-683 | both objects are sorted in place and then walked |
| JsonCompareInPlace.Walk | examples/json/cJSON_Utils.c:635-653 | the loop compares item by item, and name by name in objects, up to the first difference; it relinks the trees of the items at most, and leaves the lists that it walks as they are |
| JsonCompareInPlace.SortMembers | examples/json/cJSON_Utils.c:595-602 | sorting an object chains its own members in sorted order and leaves the trees below them standing |
| JsonLinked.KidsSorted | examples/json/cJSON_Utils.c:484-593 | the order into which the members' trees come is the one in which comparison takes what they stand for |
| JsonCompareAgain.ComparesAgain | examples/json/cJSON_Utils.c:604-690 | comparing two trees again after comparisons have relinked them gives the same answer, if in every object of both the values of each name read the same backwards |
| JsonCompareAgain.RelinkingIsUnseen | examples/json/cJSON_Utils.c:595-602 | a tree compares as equal to itself with any of its objects sorted, at any levels, if and only if in every object the values of each name read the same backwards |
| JsonCompareAgain.Equivalence | examples/json/cJSON_Utils.c:604-690 | comparison of well-formed trees is symmetric and transitive, in either case mode |
| JsonCompareAgain.SecondComparisonDiffers | examples/json/cJSON_Utils.c:534-545 | an object with two members of one name that compares as equal to a copy before it is sorted and as different after |
| JsonSort.SortList | examples/json/cJSON_Utils.c:484-593 | relinking in place chains the very items in sorted order, with next and prev inverse inside the list and the last next NULL; the first prev is the old one if the first item stays, and NULL if not |
| JsonSort.MergeLists | examples/json/cJSON_Utils.c:534-592 | the merging loop relinks two chains into one that is their merge |
| JsonSort.FindMiddle | examples/json/cJSON_Utils.c:509-521 | the slow pointer ends at the middle |
| JsonSort.Split | examples/json/cJSON_Utils.c:522-527 | cutting before it leaves two proper chains |
| JsonSort.TestInOrder | examples/json/cJSON_Utils.c:498-507 | whether the list is strictly sorted already |
| JsonSort.SortObject | examples/json/cJSON_Utils.c:595-602 | sorts the members of any object whose list is a chain; they are a proper list afterwards if and only if the first member stays first and pointed back at the one that is last now, which for a proper list is that the first and the last member are the same as before |
| JsonSort.ValuesSorted | examples/json/cJSON_Utils.c:484-593 | the order into which the items are relinked is the one in which comparison takes what they hold |
| JsonSortTheorems.BeforeMeans | examples/json/cJSON_Utils.c:83-109 | one item is sorted before another if and only if its name comes before the other's |
| JsonSortTheorems.SortEnds | examples/json/cJSON_Utils.c:534-590 | a sorted list starts with the last item of the least name and ends with the first item of the greatest |
| JsonSortTheorems.SameEndsMeans | examples/json/cJSON_Utils.c:595-602 | the first and the last member stay in place if and only if the first name comes before all others and the last one after all others, in either case mode |

## Left out

- Allocation: it always succeeds. Out-of-memory branches, memory pools (src/ealloc.c) and freeing are not modelled.
- Library calls: `strtod` and `strtol` are parameters. Of cJSON's `strtod` the theorems ask only that it reads integer texts of int range, and of ELTN's `strtol` that it reads hexadecimal digits up to a brace; JSON numbers are integers.
- src/eemitter.c is stubs; src/efiles.c and the example programs are input and output, but for the loop of examples/eventlog.c.
- `ELTN_unquote_long_string` and `ELTN_trim_comment` (src/estring.c:196-211) only copy. The decoded value that `ELTN_Parser_string` returns is not a field of the model; `text` is.
- `C_Conv_byte_order`, `flip_bytes_2`, `flip_bytes_4` and `C_Conv_to_char8` (src/convert.c:44-127): byte orders are not modelled.
- Comments are always skipped: `include_comments` is stored in the source and never looked at.
- Token text, depth, line and column are unbounded; the source has a growing byte buffer and C integers for them.
- Reads past the end of a token buffer or of a UTF-16 text, which C leaves undefined: the first see NULs, the second an arbitrary value.
- The wiring of the key set into the parser (`Stack_Frame` is not used), src/eenum.c, and examples/toml.
- JsonPrinter.PrintBuffer.PrintArray: walks the tree as a value instead of following `child` and `next`.
- JsonReader.ParseBuffer.ParseArray: builds the tree as a value; the links of the new items are not modelled here.
- JsonReader.ParseBuffer.ParseObject: builds the tree as a value; the links of the new members are not modelled here.
- JsonCompareInPlace.CompareInPlace: the two trees share no items; the code also takes trees that do, such as a tree and itself.
- JsonList.ReplaceItemViaPointer: does not delete the replaced item; it only unlinks it.
- JsonPointerCode.FindPointer: names nodes by their paths instead of by address.
- KeySet.KeySet.HasKey: for NaNs and signed zeros it promises only what KeySet.FindsExactly says.
- Raw JSON items, references, items without a name inside an object, numbers that are no ints, and NULL arguments of the printer.
- JSON Patch and merge patches (`decode_pointer_inplace` does not copy ordinary characters), `cJSON_Minify`, and cJSON's constructors and type tests.

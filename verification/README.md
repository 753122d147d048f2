# Verification of a JSON request server and the RapidJSON code under it

The repository is a small JSON request server on top of vendored RapidJSON headers. This project models its hardest
algorithms in Dafny and proves what they are for. Every method is the code's own loop or branch structure, on arrays,
fields and stacks where the code has them, proved against a specification; theorems about the specification say what
the code achieves.

- **Regular expressions** (`regex_*.dfy`, `regex.dfy`): an operator-stack parser, a Thompson construction that threads
  its dangling exits through the state table, and a simulation with sets of states. The chain of theorems goes from
  the text of a pattern to the answer of `Match`.
- **JSON text** (`json_*.dfy`, `buffers.dfy`, `utf8.dfy`, `itoa.dfy`, `decimals.dfy`; sections 2 to 7 of RFC 8259):
  the recursive and the table-driven parser, strings decoded in place, integers, the writer, the document builder, the
  way from a value through text back to the value, and the texts of the RFC, declared apart from the parsers and proved
  to be exactly what they accept.
- **Exact arithmetic** (`limbs.dfy`, `biginteger.dfy`, `strtod.dfy`, `dtoa.dfy`): many-limb integers, the comparison
  that rounds decimals to doubles (section 4.3.1 of IEEE 754), and the generation of shortest decimals.
- **Streaming schema validation** (`schema*.dfy`): a stack of contexts with parallel validators against the recursive
  meaning of a schema.
- **JSON Pointer and URI** (`pointer*.dfy`, `uri.dfy`; sections 3, 4 and 6 of RFC 6901, and section 5.2.4 of
  RFC 3986).
- **Storage** (`members.dfy`, `allocator.dfy`): the multimap of an object's members and the pool allocator.
- **The request path** (`session*.dfy`, `propertybag*.dfy`): cutting a stream of chunks into requests, and typed
  property bags as JSON and back.

`dfyconfig.toml` lists the files; `dafny verify dfyconfig.toml` checks all of them.

## Where the code departs from what it is for

Each of these is proved, with a concrete input and the exact condition under which the code is right.

- `Search` of a regex ignores whether the initial states already match (`internal/regex.h:662-678`), so it misses empty
  matches; it is right on every text exactly for patterns anchored at both ends, patterns that do not denote the empty
  text, and patterns that denote every text of one character: `RegexEngine.SearchRightIff`,
  `RegexSimulation.SearchMissesEmptyMatch`.
- `AddState` returns exactly when no loop has a nullable body: `RegexTermination.AddStateReturnsIffSafe`.
- The table-driven parser reports a bad first token as an empty document: `JsonReader.GenericReader.IterativeParse`.
- `BigInteger::Difference` loses a borrow that meets an all-ones limb: `BigIntegers.BigInteger.Difference`, `LostBorrow`.
- The comparison with half a unit in the last place takes zero for 2^-1023, so a zero approximation is always rounded
  up, which is right exactly above half of the least double: `Strtod.FromZero`. `Strtod.TinyDecimal` is just
  above 2^-1076; there `StrtodDiyFp` (`internal/strtod.h:130-207`, not part of this model) finds the cut-off bits half
  way, proposes zero and leaves the decision to the comparison.
- A required name that is no property escapes `additionalProperties`, and an empty tuple escapes `additionalItems`; what
  the code enforces, for every schema, is the standard's meaning of another schema, and the verdicts differ exactly on
  values right for that one which break the rule escaped: `SchemaDepartures.NormalMeaning`, `VerdictsAgreeIff`.
- The overflow check of pointer indices misses numbers: `Pointers.IndexOfDecimal`, `IndexBeyond`, `OverflowMissed`.
- A percent-encoded slash in a fragment is part of a name, where section 6 of RFC 6901 decodes first: on fragments that
  parse, the two agree exactly without encoded slashes: `PointerFragments.DecodedFirstIff`, `EncodedSlash`.
- The session handler hands over together what arrives together; requests are kept apart exactly when each of them ends
  where a chunk ends: `Sessions.KeptApartIff`, `HandedOverTogether`.
- The session handler counts braces inside strings; the text of an object is handed over whole, however it is cut,
  exactly when the braces of its members amount to none: `Sessions.KeptWholeIff`, `SessionJson.RequestIff`,
  `SessionJson.BraceInName`.

## Model

| member | source | states |
|---|---|---|
| RegexEngine.MatchPattern | 3rd_party/rapidjson/internal/regex.h:190-409 | for every well-formed pattern without an unbounded quantifier over something that matches the empty text, printing, parsing, compiling and `Match` together answer true exactly when the pattern denotes the whole text, where escapes stand for the code points of a table of their own |
| RegexEngine.SearchPattern | 3rd_party/rapidjson/internal/regex.h:638-684 | `Search` answers true exactly when some non-empty part of the text (the empty part of an empty text) is denoted by the pattern, at the start or the end when anchored |
| RegexEngine.Compile | 3rd_party/rapidjson/internal/regex.h:116-123 | the compiled engine holds the expression of the pattern it was given, with its anchors, and is ready to search |
| Regex.GenericRegex.constructor | 3rd_party/rapidjson/internal/regex.h:116-123 | a regex is valid exactly when its pattern parses, and then its state table is the Thompson automaton of the expression parsed, ending in the match state |
| Regex.GenericRegex.Parse | 3rd_party/rapidjson/internal/regex.h:190-317 | the class with its three stacks and its state table follows the specification of parsing step by step, keeping the operand stack a tiling of the table |
| Regex.GenericRegex.Eval | 3rd_party/rapidjson/internal/regex.h:354-409 | each operator replaces its operands on the stack by one block of the table that is wired for the combined expression |
| Regex.GenericRegex.EvalQuantifier | 3rd_party/rapidjson/internal/regex.h:411-448 | `{n,m}` and `{n,}` replace the top operand by the expression of repeated copies, with the special cases of zero and infinity |
| Regex.GenericRegex.CloneTopOperand | 3rd_party/rapidjson/internal/regex.h:452-464 | copying the last states shifted by their number pushes a second block for the same expression |
| Regex.GenericRegex.Patch | 3rd_party/rapidjson/internal/regex.h:347-352 | following a threaded list of dangling exits and filling them in links every exit of the list and changes nothing else |
| Regex.GenericRegex.Append | 3rd_party/rapidjson/internal/regex.h:339-345 | two threaded exit lists become one that threads the exits of both |
| Regex.GenericRegex.ParseRange | 3rd_party/rapidjson/internal/regex.h:482-552 | a bracket expression is read to the ranges and the negation of its specification |
| Regex.GenericRegex.ParseUnsigned | 3rd_party/rapidjson/internal/regex.h:468-480 | a repetition count is the value of its digits, with the overflow refusal of the code |
| RegexAcceptance.FragmentAccepts | 3rd_party/rapidjson/internal/regex.h:354-409 | the Thompson construction is correct: a wired block whose exits lead to k accepts exactly a word of its expression followed by what k accepts |
| RegexConstruction.CatTiles | 3rd_party/rapidjson/internal/regex.h:356-364 | concatenation keeps the operand stack a partition of the table into self-contained blocks |
| RegexConstruction.AltTiles | 3rd_party/rapidjson/internal/regex.h:366-375 | so does alternation, whose exit list joins those of its branches |
| RegexConstruction.OptTiles | 3rd_party/rapidjson/internal/regex.h:376-384 | so does `?` |
| RegexConstruction.LoopTiles | 3rd_party/rapidjson/internal/regex.h:385-403 | so do `*` and `+`, whose back edges stay in the block |
| RegexConstruction.LeafTiles | 3rd_party/rapidjson/internal/regex.h:328-331 | so does pushing a new atom |
| RegexConstruction.CloneTiles | 3rd_party/rapidjson/internal/regex.h:452-464 | copying the top block with shifted indices is sound: both copies are blocks of the table |
| RegexMeaning.RepeatedMeaning | 3rd_party/rapidjson/internal/regex.h:411-448 | the expression built for `{n,m}` denotes exactly n to m words of the operand, that for `{n,}` n or more |
| RegexMeaning.CoreMeaning | 3rd_party/rapidjson/internal/regex.h:190-300 | the expression of a pattern denotes what the pattern denotes |
| RegexMeaning.CoreSafe | 3rd_party/rapidjson/internal/regex.h:411-448 | the expression of a pattern is safe for `AddState` when no unbounded quantifier stands over something nullable |
| RegexReading.ParsePrinted | 3rd_party/rapidjson/internal/regex.h:190-300 | every well-formed pattern, anchored or not, parses to its expression and its anchors |
| RegexSyntax.EscapesAgree | 3rd_party/rapidjson/internal/regex.h:563-589 | `CharacterEscape` takes a letter exactly when patterns may escape it, as the code point that patterns give it: form feed, line feed, carriage return, tab, vertical tab, or one of the 14 syntax characters as itself |
| RegexTermination.AddStateReturnsIffSafe | 3rd_party/rapidjson/internal/regex.h:690-704 | `AddState` returns from every state of an automaton exactly when no loop of the expression has a nullable body; otherwise its calls nest without bound |
| RegexTermination.CompiledRanked | 3rd_party/rapidjson/internal/regex.h:690-704 | a safe expression compiles to a table with a rank that every empty transition decreases |
| RegexSimulation.RoundTracks | 3rd_party/rapidjson/internal/regex.h:663-681 | one round over the current states yields the states of the matches in progress after one more character, and notices exactly the non-empty matches that end there |
| RegexSimulation.SearchRightIff | 3rd_party/rapidjson/internal/regex.h:653-684 | the result of the first `AddState` is overwritten; so a search tells whether some part matches, on every text, if and only if both anchors are set, or the expression has no empty word, or it has every word of one character |
| RegexEngine.SearchRightIff | 3rd_party/rapidjson/internal/regex.h:638-684 | the same for a pattern and what it denotes |
| RegexSimulation.SearchMissesEmptyMatch | 3rd_party/rapidjson/internal/regex.h:653-684 | `a*` searched for in "b": the empty match is not reported |
| RegexSearching.GenericRegexSearch.AddState | 3rd_party/rapidjson/internal/regex.h:690-704 | adds to the list every state reachable without a character that is not marked yet, marks them, and tells whether the match state is among them; terminates by the rank |
| RegexSearching.GenericRegexSearch.MatchRange | 3rd_party/rapidjson/internal/regex.h:706-717 | decides membership in a possibly negated list of ranges |
| RegexSearching.GenericRegexSearch.SearchWithAnchoring | 3rd_party/rapidjson/internal/regex.h:653-684 | the loop over characters and states, swapping two lists and clearing marks, answers what the specification of reported matches says |
| RegexSearching.GenericRegexSearch.Match | 3rd_party/rapidjson/internal/regex.h:628-636 | answers whether the whole text is in the language of the expression |
| RegexSearching.GenericRegexSearch.Search | 3rd_party/rapidjson/internal/regex.h:638-646 | answers what is reported under the anchors of the regex |
| JsonReader.GenericReader.RecursiveParse | 3rd_party/rapidjson/reader.h:559-590 | the recursive parser ends in the position, events and error of the grammar, for every input, flags, scanners and handler; which texts that grammar accepts, and as what, is said by `JsonRecognition.AcceptsExactly` |
| JsonReader.GenericReader.IterativeParse | 3rd_party/rapidjson/reader.h:2192-2224 | the table-driven parser accepts what the recursive one accepts, with the same events and counts, and rejects the rest after the same events with the same error, but for a bad first token; the exact differences are spelled out |
| JsonReader.GenericReader.ParseObject | 3rd_party/rapidjson/reader.h:740-805 | objects follow the grammar, with member counts, trailing commas and handler refusals |
| JsonReader.GenericReader.ParseArray | 3rd_party/rapidjson/reader.h:808-854 | arrays follow the grammar, with element counts |
| JsonReader.GenericReader.SkipWhitespaceAndComments | 3rd_party/rapidjson/reader.h:711-737 | white space and both kinds of comments are skipped, or the error is set where a comment is broken |
| JsonReader.GenericReader.Transit | 3rd_party/rapidjson/reader.h:2011-2160 | one step of the pushdown machine changes stack, events and position as the continuation semantics requires |
| JsonReader.GenericReader.HandleError | 3rd_party/rapidjson/reader.h:2163-2181 | the error code of a state that could not go on |
| JsonMachine.ContValue | 3rd_party/rapidjson/reader.h:2057-2071 | a value read where one may start leaves the state the table gives and the rest of the parse as the grammar has it |
| JsonMachine.ContOpen | 3rd_party/rapidjson/reader.h:2018-2043 | opening a container leaves the meaning of the rest of the parse unchanged: it is that of the grammar's container followed by the old rest |
| JsonMachine.ContClose | 3rd_party/rapidjson/reader.h:2080-2138 | closing one returns to the rest that was waiting, with the element counted |
| JsonMachine.ContComma | 3rd_party/rapidjson/reader.h:2073-2078 | after a separator the rest is another element, or the end when trailing commas are allowed |
| JsonMachine.ContStuck | 3rd_party/rapidjson/reader.h:2163-2181 | where the table has no move, the grammar fails with the corresponding error |
| JsonStrings.InsituStringStream.ParseString | 3rd_party/rapidjson/reader.h:952-970 | in-situ parsing of a string, from its opening quote: what parsing into a separate buffer yields is in the buffer from the byte after the quote on, terminated and within the bytes read, with its length; or the same error; every byte up to the quote and from the reading cursor on stays |
| JsonStrings.InsituStringStream.ParseStringToStream | 3rd_party/rapidjson/reader.h:991-1068 | in-place parsing never lets the write cursor pass the read cursor, leaves all unread bytes intact, and produces the bytes that parsing into a separate buffer produces |
| JsonStrings.InsituStringStream.ParseUnicode | 3rd_party/rapidjson/reader.h:1022-1045 | `\uXXXX` and surrogate pairs become the UTF-8 bytes of the code point, or the two errors |
| JsonStrings.InsituStringStream.ParseHex4 | 3rd_party/rapidjson/reader.h:906-924 | four hexadecimal digits make a number below 65536, or the error at the escape |
| JsonSpelling.StringsExactly | 3rd_party/rapidjson/reader.h:974-1068 | a string is read as s if and only if the bytes between its quotes spell s by section 7 of RFC 8259: bytes as themselves, the eight letters after a backslash, four hexadecimal digits of either case, surrogate pairs, with UTF-8 for what they stand for |
| JsonSpelling.ReadPieces | 3rd_party/rapidjson/reader.h:974-1068 | wherever a spelling and a closing quote stand, the bytes it stands for are found |
| JsonSpelling.QuotedSpells | 3rd_party/rapidjson/writer.h:383-455 | what the writer puts between quotes spells the string |
| JsonSpelling.QuotedShortest | 3rd_party/rapidjson/writer.h:383-455 | and no spelling of the string is shorter |
| JsonNumbers.ParseInteger | 3rd_party/rapidjson/reader.h:1484-1575 | the 32-bit and 64-bit digit loops never overflow; the result is the smallest integer event of the digits' value, and the integer path is left precisely when none holds it or the number goes on |
| JsonNumbers.ReadsBack | 3rd_party/rapidjson/reader.h:1731-1744 | wherever the text of a 64-bit integer stands, it is read as that integer, as the smallest event that holds it |
| Itoa.U32ToA | 3rd_party/rapidjson/internal/itoa.h:39-113 | writes the canonical decimal form of every 32-bit unsigned integer and nothing else into the buffer |
| Itoa.I32ToA | 3rd_party/rapidjson/internal/itoa.h:115-124 | the same for signed integers, including the least one |
| Itoa.U64ToA | 3rd_party/rapidjson/internal/itoa.h:126-292 | the same for 64-bit unsigned integers, across all block lengths |
| Itoa.I64ToA | 3rd_party/rapidjson/internal/itoa.h:294-302 | the same for signed ones |
| Itoa.LengthBound | 3rd_party/rapidjson/internal/itoa.h:39-302 | the text is never longer than the buffers the writer reserves |
| Utf8.DecodeEncoded | 3rd_party/rapidjson/encodings.h:102-178 | every Unicode scalar value is decoded from its encoding, whatever follows |
| Utf8.DecodeOnlyEncoded | 3rd_party/rapidjson/encodings.h:147-218 | nothing else decodes: no overlong form, no surrogate, nothing above U+10FFFF |
| Utf8.EncodeIs | 3rd_party/rapidjson/encodings.h:102-124 | `Encode` writes the one sequence that section 3 of RFC 3629 gives a code point |
| JsonValues.ConstructorsAgree | 3rd_party/rapidjson/document.h:792-829 | the four integer constructors set the same bits and type flags wherever their ranges overlap: exactly the types in whose range the integer lies |
| JsonValues.EventRoundTrip | 3rd_party/rapidjson/document.h:1977-1984 | whichever integer event `Accept` chooses, the value a document makes of it is the same value again |
| JsonValues.EventsBuild | 3rd_party/rapidjson/document.h:2820-2860 | the events of a value leave exactly that one more value on the build stack |
| JsonBuilding.DocumentBuilds | 3rd_party/rapidjson/document.h:2820-2860 | the events of every parse that succeeds leave exactly one value on an empty build stack |
| JsonWriter.Accept | 3rd_party/rapidjson/document.h:1948-1985 | driving a writer with a value writes the value's text after the separator that is due, breaks no assertion of the writer, and leaves it as after any other value |
| JsonWriter.Writer.Prefix | 3rd_party/rapidjson/writer.h:479-497 | a comma in arrays and after a member's value, a colon after a name, nothing before the first |
| JsonWriter.Writer.String | 3rd_party/rapidjson/writer.h:383-455 | a string is written with exactly its escapes |
| JsonWriter.Writer.StartObject | 3rd_party/rapidjson/writer.h:217-221 | opening pushes a level and counts the value in the one below |
| JsonWriter.Writer.EndObject | 3rd_party/rapidjson/writer.h:232-239 | closing pops the level and writes the brace |
| JsonRoundTrip.ReadQuoted | 3rd_party/rapidjson/reader.h:991-1068 | the text of a string, read by the string parser, gives the bytes of the string back, whatever they are |
| JsonRoundTrip.ReadValue | 3rd_party/rapidjson/reader.h:740-853 | the text of a value, wherever it stands, is read to its end and tells the handler the value's events |
| JsonRoundTrip.RoundTrip | 3rd_party/rapidjson/reader.h:559-590 | whatever the flags, parsing the text of a value succeeds, consumes all of it, and its events build the value |
| JsonReading.ReadTree | 3rd_party/rapidjson/reader.h:1752-1768 | any text of a value by sections 2 to 7 of RFC 8259, with any blanks between its tokens, is read to its end with the events of its syntax tree |
| JsonReading.ReadText | 3rd_party/rapidjson/reader.h:559-590 | so is a whole text with blanks around it, and with comments, trailing commas and escaped apostrophes where the flags allow them |
| JsonReading.TreeMakes | 3rd_party/rapidjson/document.h:2820-2866 | the events of a syntax tree build the value it stands for |
| JsonRecognition.DocumentIsText | 3rd_party/rapidjson/reader.h:559-590 | what is accepted, up to the end of the input or a zero, is the text of a syntax tree |
| JsonRecognition.AcceptsExactly | 3rd_party/rapidjson/reader.h:559-590 | an input without zeros is accepted if and only if it is a JSON text, and the events build its meaning |
| JsonRecognition.IntegersExactly | 3rd_party/rapidjson/reader.h:1468-1560 | an integer is read if and only if a number without leading zeros and within 64 bits stands there that no digit, point or exponent follows |
| JsonDocument.ParseDocument | 3rd_party/rapidjson/document.h:2642-2656 | a document is parsed by either parser exactly when the grammar accepts the text, and its root is the one value its events build: every JSON text of RFC 8259 becomes the value it stands for, and nothing else is accepted |
| JsonDocument.WrittenIsText | 3rd_party/rapidjson/document.h:1948-1985 | what the writer writes for a value is a JSON text for it |
| JsonDocument.WriteAndParse | 3rd_party/rapidjson/document.h:1948-1985 | every value without doubles, written and parsed with any flags and either parser, comes back as the same value |
| JsonDocument.GenericDocument.EndObject | 3rd_party/rapidjson/document.h:2848-2852 | the members come off the stack as pairs into the object below them |
| BigIntegers.MulAdd64 | 3rd_party/rapidjson/internal/biginteger.h:256-284 | the portable 64 by 64 bit product plus a limb is exact, in two halves |
| BigIntegers.BigInteger.Mul64 | 3rd_party/rapidjson/internal/biginteger.h:92-108 | `*=` by a limb computes the exact product within the capacity and keeps the normal form |
| BigIntegers.BigInteger.Mul32 | 3rd_party/rapidjson/internal/biginteger.h:110-131 | so does `*=` by 32 bits, half a limb at a time |
| BigIntegers.BigInteger.Add | 3rd_party/rapidjson/internal/biginteger.h:75-90 | `+=` computes the exact sum; the carry stops where it is absorbed |
| BigIntegers.BigInteger.ShiftLeft | 3rd_party/rapidjson/internal/biginteger.h:133-157 | the shift in place multiplies by the power of two, with or without a bit part |
| BigIntegers.BigInteger.MultiplyPow5 | 3rd_party/rapidjson/internal/biginteger.h:167-187 | multiplying in steps of 27, 13 and the rest multiplies by the power of five |
| BigIntegers.BigInteger.AppendDecimal64 | 3rd_party/rapidjson/internal/biginteger.h:230-238 | appends up to nineteen digits to the decimal form |
| BigIntegers.BigInteger.FromDecimal | 3rd_party/rapidjson/internal/biginteger.h:45-58 | the decimal constructor holds the value of the digits |
| BigIntegers.BigInteger.Compare | 3rd_party/rapidjson/internal/biginteger.h:213-223 | comparing by length and then from the top limb down is the order of the integers |
| Limbs.LongerIsLarger | 3rd_party/rapidjson/internal/biginteger.h:213-223 | in normal form more limbs mean a larger number |
| BigIntegers.BigInteger.Difference | 3rd_party/rapidjson/internal/biginteger.h:191-211 | the result is never too small, its sign is right, and it is the exact difference if and only if no incoming borrow meets an all-ones limb of the subtrahend |
| BigIntegers.ExactIff | 3rd_party/rapidjson/internal/biginteger.h:191-211 | the error of the subtraction is zero exactly when no incoming borrow meets an all-ones limb |
| BigIntegers.LostBorrow | 3rd_party/rapidjson/internal/biginteger.h:191-211 | two three-limb numbers whose difference comes out too large by the square of the base |
| Strtod.Adjust | 3rd_party/rapidjson/internal/strtod.h:56-94 | the exponent adjustments come to the least powers of two and five that make all three numbers integers |
| Strtod.ScaleAll | 3rd_party/rapidjson/internal/strtod.h:96-103 | the three numbers scaled by those powers are held exactly, within the capacity for every decimal the caller passes |
| Strtod.CheckWithinHalfULP | 3rd_party/rapidjson/internal/strtod.h:56-111 | the result is the exact sign of the distance between decimal and double less half a unit in the last place, whenever the subtraction loses no borrow, and never below it otherwise |
| Strtod.StrtodBigInteger | 3rd_party/rapidjson/internal/strtod.h:210-226 | for an approximation other than zero and a decimal above it and up to its successor, the result is the nearest double, ties to even, if the comparison is exact or the result is the approximation; from zero it is always the least double |
| Strtod.Rounds | 3rd_party/rapidjson/internal/strtod.h:210-226 | half a unit in the last place decides between a double and its successor against all doubles |
| Strtod.IntegersOf | 3rd_party/rapidjson/internal/ieee754.h:38-48 | significand and exponent as integers give the number of every double but zero |
| Strtod.IntegersOfZero | 3rd_party/rapidjson/internal/ieee754.h:44-48 | zero is taken as 2 to the power -1023 |
| Strtod.FromZero | 3rd_party/rapidjson/internal/strtod.h:210-226 | so from a zero approximation the result is the nearest double if and only if the decimal is above half of the least double |
| Strtod.TinyDecimal | 3rd_party/rapidjson/internal/strtod.h:210-226 | 1235164114603116361e-342, with 19 digits and 19 - 342 above -324, is below half of the least double, which is therefore not the nearest |
| Dtoa.DigitGen | 3rd_party/rapidjson/internal/dtoa.h:60-114 | every intermediate value stays in 64 bits, at most 21 digits are written, and they are the canonical digits of a number that lies between the bounds, such that no decimal with fewer digits does, the lower bound itself not counted, which the loop over the fraction does not take, and no other one with as many is nearer to the number asked for |
| Dtoa.GrisuRound | 3rd_party/rapidjson/internal/dtoa.h:35-42 | the last digit is lowered, never below zero, to the multiple nearest to the number asked for without leaving the interval |
| Dtoa.CountDecimalDigit32 | 3rd_party/rapidjson/internal/dtoa.h:44-58 | the number of decimal digits of a 32-bit integer below 10^9 |
| Dtoa.NoneShorter | 3rd_party/rapidjson/internal/dtoa.h:60-114 | a rest too large to stop at means that no multiple of the coarser unit lies in the interval |
| Dtoa.BestOf | 3rd_party/rapidjson/internal/dtoa.h:60-114 | the multiple reached is nearest among all multiples in the interval |
| SchemaValidator.Validate | 3rd_party/rapidjson/schema.h:2800-2892 | the streaming validator, told the events of any value, ends valid exactly when the schema accepts the value by the recursive meaning of the code's rules; for regular schemas, of the standard's |
| SchemaRuns.ValueRuns | 3rd_party/rapidjson/schema.h:2800-3055 | wherever a value is validated, its events leave the contexts below with only their parallel validators moved on exactly when the value's schema accepts it, and fail the validator otherwise |
| SchemaRuns.ValidatesExactly | 3rd_party/rapidjson/schema.h:2800-2892 | a new validator is ready for another value after an accepted one, and failed after any other |
| SchemaRuns.CombinedIs | 3rd_party/rapidjson/schema.h:948-989 | combining the verdicts of parallel validators is the meaning of allOf, anyOf, oneOf and not |
| SchemaRuns.SeenAll | 3rd_party/rapidjson/schema.h:1161-1171 | all required entries are marked at the end of an object exactly when every required name is the name of a member |
| SchemaRuns.BeginMemberIs | 3rd_party/rapidjson/schema.h:1108-1159 | `Key` holds a member to its property's schema, or to the rule for additional ones, and marks its entry |
| SchemaRuns.BeginElementIs | 3rd_party/rapidjson/schema.h:871-901 | `BeginValue` holds an element to the schema of the list, its place in the tuple, or the rule for additional ones |
| SchemaStream.ChecksCompare | 3rd_party/rapidjson/schema.h:1534-1628 | `CheckInt` and `CheckUint` accept exactly the integers within the bounds, whichever event the integer travels as and whichever type the bounds have |
| SchemaDepartures.NormalMeaning | 3rd_party/rapidjson/schema.h:650-901 | for every schema and value, what the code accepts is what the standard accepts for the normal schema: required names that are no properties made free properties, and empty tuples dropped, at every level |
| SchemaDepartures.VerdictsAgreeIff | 3rd_party/rapidjson/schema.h:650-901 | for a schema with regular parts, the verdict of the code is the standard's unless the value is right for the normal schema and a member that is required without being a property, or an element when the tuple is empty, fails the rule for additional ones; and the code is never stricter |
| SchemaDepartures.NormalRegular | 3rd_party/rapidjson/schema.h:650-901 | the normal schema has neither of the two cases at any level |
| Schemas.RegularAgrees | 3rd_party/rapidjson/schema.h:871-1237 | for schemas without these two cases at any level, the code's meaning is the standard's for every value |
| Schemas.RequiredOnlyAccepted | 3rd_party/rapidjson/schema.h:650-688 | a schema and a value the code accepts and the standard rejects: a required name that is no property |
| Schemas.EmptyTupleAccepted | 3rd_party/rapidjson/schema.h:871-901 | another: an empty tuple with no other elements allowed |
| SchemaValidator.GenericSchemaValidator.Value | 3rd_party/rapidjson/schema.h:2800-2841 | starting a value, checking its type, creating parallel validators, passing the event to every context's, and ending scalars, in the code's order, is the specified step |
| SchemaValidator.GenericSchemaValidator.Key | 3rd_party/rapidjson/schema.h:2851-2862 | the handler of names |
| SchemaValidator.GenericSchemaValidator.EndObject | 3rd_party/rapidjson/schema.h:2864-2873 | the handler of the end of objects |
| SchemaValidator.GenericSchemaValidator.EndArray | 3rd_party/rapidjson/schema.h:2883-2892 | the handler of the end of arrays |
| SchemaValidator.GenericSchemaValidator.HandleParallel | 3rd_party/rapidjson/schema.h:2810-2820 | the loops over all contexts and their validators |
| SchemaValidator.EndValueOf | 3rd_party/rapidjson/schema.h:903-992 | the loops over validators find the combined verdict |
| SchemaValidator.FindPropertyIndex | 3rd_party/rapidjson/schema.h:1513-1525 | the scan for a property's index |
| SchemaValidator.CountStringCodePoint | 3rd_party/rapidjson/internal/strfunc.h:64-78 | the number of code points of a string, if all of it decodes |
| Schemas.CodePointsOf | 3rd_party/rapidjson/internal/strfunc.h:64-78 | that number is n if and only if the bytes are the UTF-8 of n scalar values |
| Pointers.RoundTrip | 3rd_party/rapidjson/pointer.h:924-1094 | every list of byte-string names, written plainly and parsed, comes back; as a URI fragment exactly the lists of UTF-8 names can be written, and they come back |
| Pointers.PieceBack | 3rd_party/rapidjson/pointer.h:962-1014 | what is written for one character, escaped or percent-encoded, is read back as that character |
| PointerSyntax.ParsesExactly | 3rd_party/rapidjson/pointer.h:924-1054 | a text parses to the names if and only if it spells them, each after a slash: with `~0` and `~1`, and in a fragment with unreserved characters and percent-encoded UTF-8 |
| PointerSyntax.PlainExactly | 3rd_party/rapidjson/pointer.h:991-1006 | a plain token has no slash and a 0 or a 1 after every tilde, and its name is the token with every `~1` replaced by a slash and then every `~0` by a tilde |
| PointerFragments.DecodedFirstIff | 3rd_party/rapidjson/pointer.h:962-1014 | a fragment that parses means what its decoded text means, as section 6 of RFC 6901 has it, if and only if no slash is percent-encoded in it |
| PointerFragments.EncodedSlash | 3rd_party/rapidjson/pointer.h:962-1014 | "#/%2F" is one name here, and two empty ones when it is decoded first |
| Pointers.Writable | 3rd_party/rapidjson/pointer.h:1063-1094 | every name can be written plainly, and in a fragment exactly the UTF-8 ones |
| Pointers.IndexOfDecimal | 3rd_party/rapidjson/pointer.h:1022-1039 | a canonical decimal is its own index if and only if it fits in 32 bits |
| Pointers.IndexBeyond | 3rd_party/rapidjson/pointer.h:1022-1039 | the index of every decimal: invalid exactly when the number so far, cut off to 32 bits, gets smaller at some digit, and otherwise the number cut off to 32 bits |
| Pointers.OverflowMissed | 3rd_party/rapidjson/pointer.h:1027-1037 | so "5000000000" becomes the index 705032704 |
| PointerClass.GenericPointer.Parse | 3rd_party/rapidjson/pointer.h:924-1054 | the loop that moves three cursors through a shared buffer finds exactly the tokens of the text with their indices, or its first error and offset, and never writes beyond the length of the text |
| PointerClass.ReadName | 3rd_party/rapidjson/pointer.h:962-1014 | the loop over a name writes behind what it reads |
| PointerClass.Validate | 3rd_party/rapidjson/pointer.h:970-985 | percent-encoded UTF-8 is decoded into the buffer, one character at a time |
| PointerClass.ReadIndex | 3rd_party/rapidjson/pointer.h:1018-1039 | the digit loop computes the index |
| PointerClass.Stringify | 3rd_party/rapidjson/pointer.h:1062-1094 | the loops over tokens and characters write the text of the names |
| PointerClass.WriteAndParse | 3rd_party/rapidjson/pointer.h:924-1094 | names written and read back are in the buffer again, each with its index |
| Uris.RemoveDotSegments | 3rd_party/rapidjson/uri.h:411-458 | in place, on every absolute path, the result is that of section 5.2.4 of RFC 3986; the write position never passes the read position and nothing outside the path is touched |
| Uris.BackUp | 3rd_party/rapidjson/uri.h:426-441 | backing up to the previous slash removes the last segment of the output |
| Uris.RemoveClean | 3rd_party/rapidjson/uri.h:411-458 | the result has no dot segment |
| Uris.Idempotent | 3rd_party/rapidjson/uri.h:411-458 | removing dot segments twice is removing them once |
| Members.GenericObject.AddMember | 3rd_party/rapidjson/document.h:2304-2318 | the new member is last, and the multimap stays in bijection with the array |
| Members.GenericObject.RemoveMember | 3rd_party/rapidjson/document.h:2320-2342 | the last member takes the place of the removed one, and the multimap follows |
| Members.GenericObject.EraseMembers | 3rd_party/rapidjson/document.h:2344-2376 | a range is erased, the rest moves down, and the multimap follows position by position |
| Members.GenericObject.Clear | 3rd_party/rapidjson/document.h:2240-2250 | nothing is left in the array or in the multimap |
| Members.GenericObject.FindMember | 3rd_party/rapidjson/document.h:2229-2238 | a name is found exactly when the linear scan finds it, at a member of that name, and at the same member when names are distinct |
| Members.GenericObject.Reserve | 3rd_party/rapidjson/document.h:2191-2226 | moving to larger arrays keeps members and iterators |
| Members.RemovedKeeps | 3rd_party/rapidjson/document.h:2320-2342 | swap-removal takes away exactly one member |
| Members.FoundTogether | 3rd_party/rapidjson/document.h:2281-2288 | in any state of the invariant, the multimap has a name exactly when the scan finds it |
| Members.RunsStayDistinct | 3rd_party/rapidjson/document.h:2304-2376 | names stay distinct across any run that only adds new ones |
| Members.RunAndFind | 3rd_party/rapidjson/document.h:2229-2376 | after any run of operations from an empty object, indexed lookup and linear scan agree |
| Allocators.MemoryPoolAllocator.Malloc | 3rd_party/rapidjson/allocators.h:321-334 | a block handed out is aligned, within its chunk, and overlaps no block in use; nothing is handed out exactly for size zero or when a chunk is needed and not granted |
| Allocators.MemoryPoolAllocator.Realloc | 3rd_party/rapidjson/allocators.h:337-369 | resizing a block, in place or by moving, keeps its contents and the separation of blocks |
| Allocators.MemoryPoolAllocator.AddChunk | 3rd_party/rapidjson/allocators.h:390-402 | a granted chunk becomes the head of the list |
| Allocators.MemoryPoolAllocator.Clear | 3rd_party/rapidjson/allocators.h:277-288 | all chunks but the first go, and no block is left |
| Allocators.MemoryPoolAllocator.Size | 3rd_party/rapidjson/allocators.h:304-310 | the walk over the chunks sums what is in use, which never exceeds the capacity |
| Allocators.MemoryPoolAllocator.Capacity | 3rd_party/rapidjson/allocators.h:293-299 | the walk sums the capacities |
| Allocators.PlaceAtTop | 3rd_party/rapidjson/allocators.h:321-334 | a block at the top of the head chunk is separate from every other |
| Allocators.LastBlock | 3rd_party/rapidjson/allocators.h:352-359 | a block that ends at the top of the head chunk lies in the head chunk, so that growing it in place is sound |
| Sessions.Framed | src/kexplorer-server/sessionhandler.cxx:32-99 | every stream of requests, each cut into chunks in any way, leads to one call of the processor per request, in order and byte for byte, and leaves the session as it was; the responses are the processor's answers, in order |
| Sessions.SessionHandler.Process | src/kexplorer-server/sessionhandler.cxx:32-99 | for every chunk in every reachable state: it hands over exactly what fits, nests and is complete, aborts exactly when it does not fit or nest or the processor throws, answers with the processor's reply and nothing otherwise, and depth and maximum depth stay those of the bytes held |
| Sessions.SessionHandler.Count | src/kexplorer-server/sessionhandler.cxx:51-70 | the loop over the new bytes tracks depth and maximum depth, and stops exactly when more is closed than was opened |
| Sessions.Serve | src/kexplorer-server/sessionhandler.cxx:32-99 | a new handler fed with chunks makes exactly the calls, and sends the responses, of the stream specification |
| Sessions.ContinuousBuffer.Push | include/kesrv/util/continuousbuffer.hxx:55-81 | bytes are appended exactly when they fit, after shifting or enlarging if need be, and otherwise nothing changes |
| Sessions.ContinuousBuffer.Pop | include/kesrv/util/continuousbuffer.hxx:83-92 | at most what is held is dropped from the front |
| Sessions.KeptApartIff | src/kexplorer-server/sessionhandler.cxx:32-99 | a stream of requests, however it is cut into chunks, leads to one call per request if and only if every request ends where some chunk ends; then each is answered with the processor's reply to it, in order |
| Sessions.KeptWholeIff | src/kexplorer-server/sessionhandler.cxx:51-87 | a text is handed over whole and alone however it is cut if and only if it first closes all it opened at its last byte |
| Sessions.HandedOverTogether | src/kexplorer-server/sessionhandler.cxx:53-87 | two requests in one chunk are handed over as one |
| Sessions.BraceInString | src/kexplorer-server/sessionhandler.cxx:53-87 | the first three bytes of {"}":1} are taken for a request |
| SessionJson.RequestIff | src/kexplorer-server/sessionhandler.cxx:53-87 | the text of an object is such a text if and only if the braces in its names and strings, with a pair for every object within, never close more than was opened and close all of it |
| SessionJson.BalancedRequest | src/kexplorer-server/sessionhandler.cxx:53-87 | so is the text of every object whose names and strings hold no brace, or are each balanced |
| SessionJson.OneChunkIff | src/kexplorer-server/sessionhandler.cxx:53-87 | in one chunk, an object's text is handed over, kept waiting or refused by the balance and the least depth of its braces |
| SessionJson.ObjectsKeptApart | src/kexplorer-server/sessionhandler.cxx:32-99 | the texts of such objects, sent in any chunks, are handed over one by one if and only if each ends where a chunk ends |
| SessionJson.BraceInName | src/kexplorer-server/sessionhandler.cxx:53-87 | the whole text {"}":1}, in one chunk, is not handed over but aborts the session |
| PropertyBagJson.ThereAndBack | src/kesrv/propertybag.cxx:27-407 | every bag without a name that is good but for empty bags within, written to JSON text, parsed and converted, is the same bag without them, so that a good bag is the same; and the error handler is never told anything |
| PropertyBags.BagBack | src/kesrv/propertybag.cxx:271-280 | the JSON value of a good bag converts back to the bag without errors |
| PropertyBags.TypedBack | src/kesrv/propertybag.cxx:27-125 | every typed scalar is recognised, with its type, in the JSON value written for it |
| PropertyBagMeaning.TypedExactly | src/kesrv/propertybag.cxx:27-125 | a value is recognised as a typed scalar if and only if it is the value written for that scalar, which lies in the range of its type |
| PropertyBagMeaning.ScalarExactly | src/kesrv/propertybag.cxx:27-125 | a scalar is an error exactly when its name is not registered or the registered type does not hold it, and otherwise becomes that value with the registered id |
| PropertyBagMeaning.ErrorsIff | src/kesrv/propertybag.cxx:127-280 | a conversion reports an error exactly when something in the value does not fit the registry |
| PropertyBagMeaning.ShownBack | src/kesrv/propertybag.cxx:216-280 | without errors, the bag holds the value, but for members whose name an earlier one has |
| PropertyBagMeaning.ValueBack | src/kesrv/propertybag.cxx:216-407 | and if its names are neither empty nor cut short by a zero, the bag can be written, and what is written is that value |
| PropertyBagJson.FromJson | src/kesrv/propertybag.cxx:283-294 | exactly the JSON texts parse, the conversion of the value reports an error exactly when it does not fit, and without errors the bag holds the value |
| PropertyBagJson.BuildBag | src/kesrv/propertybag.cxx:271-280 | converting a JSON value follows the specification, and with a handler that aborts ends exactly when there is an error (`PropertyBagMeaning.ErrorsIff` says when) |
| PropertyBagJson.BuildTable | src/kesrv/propertybag.cxx:251-269 | the loop over members, which keeps the first entry with a name |
| PropertyBagJson.BuildArray | src/kesrv/propertybag.cxx:216-249 | the loop over elements, which pushes an empty bag where an element has an error |
| PropertyBagJson.BagToJson | src/kesrv/propertybag.cxx:386-407 | driving the writer with a bag writes the text of the JSON value of what is left of it without empty bags |
| PropertyBagJson.WriteTable | src/kesrv/propertybag.cxx:349-366 | a table is written as an object with a name before every bag; empty ones are skipped |
| PropertyBagJson.WriteArray | src/kesrv/propertybag.cxx:368-384 | an array is written as an array, without its empty items |

## Left out

General:

- Widths of indices and counts: positions, state indices, member and element counts and sizes are unbounded here; where the code's 32-bit or 64-bit arithmetic can matter to a result (numbers, limbs, digit generation, pointer indices, allocation sizes up to the alignment), it is modelled or ruled out by a precondition that says so.
- Storage of strings and values: copies, references, short strings, `std::any`, moves and destructors are not modelled; values are values.
- SSE2, SSE4.2 and NEON variants, which repeat the scalar code.
- Doubles: the double branch of `ParseNumber`, `WriteDouble`, double values, `FastPath`, `GetCachedPower`, `StrtodDiyFp`, `Grisu2` around digit generation, and numbers kept as strings.

Regular expressions:

- Text is a sequence of code points: a zero ends it, and decoding errors end it. The set of marked states is an array of booleans instead of bits in words, and a pushed state and its atom count are one frame.
- Regex.GenericRegex.Parse: the loops that evaluate operators differ only in where they stop and share one method; patterns on which an assertion of the code fails (an operand missing for `|` or a group) are excluded by the precondition.

JSON:

- JsonReader.GenericReader.RecursiveParse: scanners for strings and numbers are arbitrary here; the actual ones are put in by `JsonDocument`. `IterativeParseNext` and the validation of encodings while parsing are left out.
- Utf8.DecodeOnlyEncoded: a sequence cut off by the end of the text is invalid here; the code reads the terminator as its next byte, with the same verdict.
- JsonDocument.ParseDocument: the handler's calls are replayed after the parse; numbers off the integer path are refused.
- JsonRecognition.AcceptsExactly: under kParseStopWhenDoneFlag only `JsonReading.ReadText`; inputs with zeros only up to the first one that ends the parse.
- Itoa.U64ToA: conditions that write single digits are grouped by four digits.
- PrettyWriter, streams other than memory, encodings other than UTF-8.

Exact arithmetic:

- Strtod.StrtodBigInteger: the bound on the exponent of the decimal is wider than what the caller lets through; the step before it that proposes the approximation is left out, and with it that the comparison is reached with zero on the decimal of `TinyDecimal`.
- Strtod.CheckWithinHalfULP: when the subtraction loses a borrow, only that the result errs upwards.
- Dtoa.DigitGen: the powers of two that scale its numbers are a parameter; the fallback for indices of 20 or more is left out, since the index stays below 20.

Schemas:

- `$ref`, `patternProperties`, dependencies, enum and uniqueItems, defaults, `multipleOf`, patterns of strings, read-only and write-only, continuing after errors, error reports, and how a schema is compiled from JSON: a schema is its compiled form, with sub-schemas in place of references.
- SchemaValidator.GenericSchemaValidator.Value: parallel validators are values held by their contexts rather than objects of their own; events outside of any value, on which the code would read an empty stack, are refused.

Pointers and URIs:

- PointerClass.GenericPointer.Parse: one block of memory for tokens and names is two fields here; tokens keep offsets instead of addresses. Resolution, `Set`, `Get` and `Append` are left out.
- PointerClass.Validate: stops at the first byte that cannot be read, where the code goes on writing zeros that the error discards.
- Relative paths in `RemoveDotSegments`, parsing a URI into its parts, and resolving one against another.

Storage:

- Members.GenericObject.FindMember: a multimap with several elements of one name may return any of them.
- Allocators.MemoryPoolAllocator.Malloc: reference counts, the header of the shared data and the alignment of a user's buffer are left out; sizes so large that the alignment would wrap around are not modelled; what the base allocator grants is part of the input.

Request path:

- Sessions.SessionHandler.Process: the reply of the request processor is part of the input; logging and the start and end of sessions are left out.
- Sessions.Framed: assumes that requests end where chunks end, which `KeptApartIff` shows to be necessary; what becomes of other streams is not described beyond that.
- SessionJson.RequestIff: about the texts this writer makes; other writers may put blanks between tokens or escape braces.
- PropertyBagJson.ThereAndBack: doubles and types unknown to the writer, for which it writes a name without a value, are left out; the registry is fixed; a table is listed in the order in which it is visited; the error handler always gives the same answer.
- The client, the request processor with its commands, the process manager and the operating-system layer, which are lookups, input and output.

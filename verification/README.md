# The algorithms of the DES ODBC driver, modelled and proved in Dafny

DESODBC is an ODBC driver for the deductive database system DES. Behind its handles and pipes it has a number of real
algorithms; this project models six groups of them in Dafny and proves what they are there for. Each group is a few modules,
one per file, and `dafny verify dfyconfig.toml` checks all of them.

* **Exact numbers** (`Numbers`, `Limbs`, `SqlNumerics`, `NumericRead`, `NumericPrint`, `NumericRoundTrip`). SQL_NUMERIC values
  are 128-bit magnitudes kept as eight 16-bit limbs in 32-bit words. The in-place array algorithms that read, rescale and
  print them are proved against integer arithmetic, up to the round trip of printing and reading back.
* **The scrollable cursor** (`RowList`, `RowCursor`, `RowCursorRuns`). A statement moves over a linked list of rows, by walking
  from its head or by a remembered node. For any run of fetches it is known which rows are delivered, and when these are the
  rows that the positions name.
* **Queries** (`Lexer`, `LexerExtents`, `StandardLexer`, `Tokenizer`, `TempBuffers`, `Substitution`, `Execution`, `ExecutionRuns`). The imperative scanner refines
  a lexer that reads each byte once; values are put in the place of the parameter markers in a growing buffer; a statement is
  executed for an array of parameter sets.
* **Retrieval in parts** (`GetData`, `Utf8`, `WideGetData`). Repeated calls hand out one value with any sequence of buffer sizes;
  nothing is lost and nothing comes twice, also through the conversion from UTF-8 to UTF-16.
* **Texts and patterns** (`TapiText`, `TypeNames`, `Answer`, `AnswerRoundTrip`, `Schema`, `SchemaRoundTrip`, `Pattern`). Parsers
  of the server's answers undo the writing of tables and of database descriptions; search patterns become regular
  expressions that match the same names.
* **Batches and sessions** (`BatchInsert`, `Catalog`, `CatalogRuns`, `CatalogSession`, `CatalogWritten`). Many rows go into
  several INSERT statements, each once and in order. A catalog call is a run of commands that the server may answer or not,
  carry out or not: which commands, how the call ends, and what it lists, down to the tables of a server that writes its
  answers in its own layout.

Code that works by changing state is modelled by classes and methods with loops; each method is tied to a function of its
inputs or of the old state, and the properties are lemmas about these functions. Outputs of the server, the renderings of
parameters and the order of hash tables are arguments, so that every statement holds for all of them. A query or a value has
one `char` per byte, and character classes are those of latin1, the character set of the connection.

## What turned out to be different

Where the code does not do what its comments or the standard promise, the code is modelled as it is, and the exact condition
is proved.

* Reading a numeric back with the precision it was printed with is refused when padding zeros count as digits
  (`PaddingRefused`); the flag stays down exactly when `PrecisionSuffices`. Scaling up beyond 128 bits loses the upper part
  without a flag (`ScaleUpExactIff`), and an overflow met in the last group of digits can be reported as mere truncation
  (`LastGroupFlag`, `OverflowReportedAsTruncation`).
* A fetch with a rowset size of zero moves away from the remembered node, and the next fetch may read from the wrong row
  (`ZeroRowsetMisleads`). The next rowset is right exactly when the fetch has gone before the first row, on it or behind the
  last, or just to the remembered node (`ZeroRowset`, `NextAfterZeroRowset`); a run is right exactly when every fetch starts
  with the row that it names (`RunIsRightIff`). All rows of a rowset are converted with the lengths of its first row
  (`LengthOfLaterRow`).
* The statement buffer is not reset between parameter sets: the statement of a later set repeats the earlier ones in front of
  its own, unless nothing has been left (`SetSendsOwnStatement`, `SecondStatementRepeatsFirst`). A SELECT whose last set is
  ignored is not sent at all (`LastIgnoredLosesAll`).
* A first call without a buffer flags truncation even for an empty value, and for byte strings reports a length that the
  maximal length would cut (`GetData.FirstProbe`, `WideGetData.FirstProbe`).
* In a C comment the opening `/*` may share its star with the closing `*/`, and the slash that closes a comment can open the
  next one: a question mark inside a comment is taken for a parameter (`CommentedMarkerIsTaken`), or one behind it is lost
  (`MarkerIsLost`). The scan agrees with a lexer that takes delimiters whole exactly when no comment opens at `/*/` and none
  closes at `*/*`, apart from `*/*!` (`StandardLexer.AgreeIff`).
* Columns of the same name share one list of values, so that columns have different lengths (`ColumnsAreEvenIff`); a first
  value equal to the end marker hides all rows (`TableComesBack`).
* A view whose kind is `view` is read without name and columns (`ViewOfKindView`); of a whole description all other relations
  come back, and one nameless entry if there is such a view (`SchemaComesBack`).
* A maximal length that cuts text inside a character makes its retrieval as wide characters fail in the first call
  (`StuckIffCut`, `CutTextFails`).
* Wildcards of a search pattern do not go across lines (`LineFeedIsMissed`): a name is matched by every pattern as ODBC means
  it exactly when it is one line (`RightForOneLineOnly`). A backslash at the end of a pattern makes the search throw, whatever
  the names are; an escaped letter or digit has a meaning of its own in the library (`FoundIs`, `FilterThrows`).
* A single row is always taken from the first place of the bound arrays, whichever row was asked for; that is the row asked for
  if and only if the tuples are the same (`SingleRowIsTheFirst`).
* A catalog call keeps the mutex when an answer throws: exactly when an answer that is read is unreadable for its command, the
  pattern that has to be compiled for it is refused, or a listed column is a float with a null (`CallThrowsIff` with `BadWhen`;
  sessions: `BlankAnswers`, `LoneBackslash`). Its success depends only on the commands around the listing
  (`CallSucceedsIff`): when a command of the listing is not answered, the first of the rows are reported as success
  (`CallRows`; session: `ShortListing`).

## Model

| member | source | states |
|---|---|---|
| Limbs.Scale | driver/utility.cc:1708-1723 | the loop multiplies every word by ten s times, each product taken modulo 2^32, as `Scaled` says |
| Limbs.ScaledWord | driver/utility.cc:1708-1723 | word i is then the old word times ten to the s, modulo 2^32 |
| Limbs.Carry | driver/utility.cc:1768-1776 | the loop carries from word to word, as `CarryFrom` says |
| Limbs.CarryKeeps | driver/utility.cc:1768-1776 | carrying keeps the integer that the words denote and leaves all words but the last below 2^16, as long as no word wraps |
| Limbs.ScaledThenCarried | driver/utility.cc:1708-1776 | after scaling carried limbs by a power of ten up to 10^4, adding a group of digits wraps no word, and carrying gives carried limbs that denote the old integer times the power plus the group, modulo the 144 bits that the words hold |
| Limbs.UnscaleLE | driver/utility.cc:1732-1740 | the loop divides step by step from the most significant word down |
| Limbs.UnscaleBE | driver/utility.cc:1751-1759 | the same for the reversed array, from a given word on |
| Limbs.DivideByTen | driver/utility.cc:1732-1740 | one pass, with the last digit taken from the lowest word and that word divided by ten, is exact division by ten of the integer that the limbs denote: quotient and remainder are right and the limbs stay below 2^16 |
| NumericRead.AddGroup | driver/utility.cc:1850-1856 | scale, add and carry of one group of digits, in place |
| NumericRead.GroupedValue | driver/utility.cc:1849-1856 | from limbs that denote less than 2^128, a group of up to four digits gives limbs that denote that integer times the power of ten plus the group, exactly, so that no 32-bit word has wrapped |
| NumericRead.GroupedCarried | driver/utility.cc:1849-1856 | whatever group is added, limbs 0 to 6 come out below 2^16 |
| NumericRead.ReadDigits | driver/utility.cc:1825-1859 | the loop over groups of up to four characters, with the decimal point noted, as `ReadFrom` says |
| NumericRead.StrtoulTakes | driver/utility.cc:1849 | a group that is no numeral counts as far as the C library takes it: spacing, a sign, digits, modulo 2^32 |
| NumericRead.ReadNumeral | driver/utility.cc:1825-1859 | for every numeral with at most one point the limbs denote the integer spelled so far, and the loop stops at the first group at which it reaches 2^128 |
| NumericRead.OverflowIffLarge | driver/utility.cc:1825-1859 | some group raises the overflow if and only if the whole numeral spells an integer of at least 2^128 |
| NumericRead.ScaleUp | driver/utility.cc:1861-1870 | scaling up one digit at a time, in place |
| NumericRead.DropFraction | driver/utility.cc:1871-1886 | dropping fractional digits by exact division; a digit other than zero sets code 2 |
| NumericRead.DropWhole | driver/utility.cc:1888-1906 | for a negative scale zeros are dropped; a digit other than zero ends with code 1 |
| NumericRead.FindLeastPrecision | driver/utility.cc:1908-1921 | the precision without trailing zeros |
| NumericRead.Compress | driver/utility.cc:1929-1934 | the 16 bytes denote the limbs, least significant byte first |
| NumericRead.FromStr | driver/utility.cc:1791-1939 | the whole conversion of any text with any requested precision and scale: magnitude, sign, scale, precision and flag as `ConvertedText` says |
| NumericRead.NumeralConversion | driver/utility.cc:1791-1939 | for numerals the conversion is the one on integers: an overflow in the loop ends it with flag 1, otherwise the integer is rescaled and compared with the precision |
| NumericRoundTrip.ScaledUpIs | driver/utility.cc:1861-1870 | scaling up by k multiplies by 10^k, modulo what eight words hold |
| NumericRoundTrip.FractionDroppedIs | driver/utility.cc:1871-1886 | dropping k fractional digits leaves v / 10^k, and from flag 0 sets code 2 exactly when v mod 10^k is not zero |
| NumericRoundTrip.WholeDroppedIs | driver/utility.cc:1888-1906 | dropping k whole digits succeeds exactly when 10^k divides v |
| NumericRoundTrip.LeastPrecisionIs | driver/utility.cc:1908-1921 | the precision found is the number of digits less the zeros at the end |
| NumericPrint.Expand | driver/utility.cc:1982-1983 | the eight words denote the 16 bytes |
| NumericPrint.TakeDigit | driver/utility.cc:2006-2012 | one division gives the last decimal digit and leaves the quotient |
| NumericPrint.Exhausted | driver/utility.cc:1986 | 39 rounds of division by ten exhaust every 128-bit magnitude |
| NumericPrint.PrintDigits | driver/utility.cc:1986-2016 | the loop puts the decimal expansion, with its point, in front of the end of the buffer, and counts the digits |
| NumericPrint.PadFraction | driver/utility.cc:2020-2030 | a number that is less than its scale long gets zeros behind the point and one in front |
| NumericPrint.CutFraction | driver/utility.cc:2033-2067 | fractional digits that exceed the precision are cut off and reported as fractional truncation |
| NumericPrint.AppendZeros | driver/utility.cc:2069-2078 | for a negative scale zeros follow the digits |
| NumericPrint.ToStr | driver/utility.cc:1961-2093 | for every magnitude, sign, scale and precision the text from the start found to the end is the signed expansion as `Printed` says, with the kind of truncation |
| NumericRoundTrip.PrintedNumberDenotes | driver/utility.cc:1986-2088 | the text denotes the magnitude divided by ten to the scale, for positive, zero and negative scale |
| NumericRoundTrip.CutToPrecision | driver/utility.cc:2033-2067 | when the precision does not cover all digits, the text that is printed denotes the number without its last digits; refused if and only if digits in front of the point would have to go |
| NumericRoundTrip.ReadBack | driver/utility.cc:1791-1939 | reading the printed text at the same scale gives the same magnitude; the flag is 0 if and only if the padding fits the precision |
| NumericRoundTrip.PrintThenRead | driver/utility.cc:1791-2093 | the round trip through buffers: same magnitude and sign for all 128-bit magnitudes whose digits fit the precision |
| NumericRoundTrip.PaddingRefused | driver/utility.cc:1908-1926 | a number for which the round trip is refused |
| NumericRoundTrip.ScaleUpExactIff | driver/utility.cc:1861-1870 | the magnitude stored after scaling up is exact if and only if the scaled number is below 2^128; the flag says only whether what is left needs more precision than was asked for |
| NumericRoundTrip.ScaleDownIs | driver/utility.cc:1825-1939 | a numeral below 2^128 read at its own or a smaller scale, also a negative one: stopped with the flag if and only if whole digits other than zeros would go, else the magnitude is the integer divided by the power of ten, with code 1 for too much precision, 2 for lost digits, and 0 |
| NumericRoundTrip.ScaleUpLosesSilently | driver/utility.cc:1861-1870 | an input for which it is not, with flag 0 |
| NumericRoundTrip.LastGroupFlag | driver/utility.cc:1846-1939 | when only the last group of digits overflows: the flag stays up in scaling up; at the own scale and all smaller ones, also negative, it is told exactly, and dropping a fractional digit other than zero makes it mere truncation |
| NumericRoundTrip.OverflowReportedAsTruncation | driver/utility.cc:1857-1886 | a family of numbers too large for which the flag says that only a fraction was cut |
| RowList.GenerateRows | driver/results.cc:2645-2671 | the list holds the rows in order and ends behind the last |
| RowList.Result.DataSeek | driver/driver.h:1264-1271 | walking reaches the node of a row, or null behind the last |
| RowList.Result.RowSeek | driver/driver.h:1284-1290 | the cursor is set and its old node returned |
| RowList.Result.FetchRow | driver/driver.h:1223-1235 | the row under the cursor is handed out and the cursor moves on |
| RowCursor.Statement.ComputeCurRow | driver/my_prepared_stmt.cc:166-242 | the row to fetch for all orientations and offsets, and the cursor at it, by walking or by the remembered node |
| RowCursor.EndsOfResult | driver/my_prepared_stmt.cc:177-182 | FIRST names the first rows and LAST the last ones, of which there must be enough for a rowset; NEXT behind LAST finds nothing |
| RowCursor.Neighbours | driver/my_prepared_stmt.cc:171-176 | NEXT goes on behind the rowset, PRIOR to the rows in front of it |
| RowCursor.AbsoluteRows | driver/my_prepared_stmt.cc:183-195 | ABSOLUTE counts from the start or from the end; the first row instead exactly if there are fewer rows than that but a rowset has as many |
| RowCursor.RelativeRows | driver/my_prepared_stmt.cc:197-203 | RELATIVE counts from the current row, and stops at the first one only from a row behind it and by at most a rowset |
| RowCursor.BookmarkRows | driver/my_prepared_stmt.cc:205-210 | BOOKMARK names the row of its bookmark, or the first one if it is in front of it by at most a rowset |
| RowCursor.SoundIff | driver/my_prepared_stmt.cc:228-240 | whatever row is asked for next, reading starts with it, if and only if the row behind the rowset cannot be asked for by the short cut or the remembered node is in front of it |
| RowCursor.RightIff | driver/my_prepared_stmt.cc:228-240 | a fetch delivers the rows that it names if and only if it does not use the remembered node, or that node is the first of them |
| RowCursor.SoundStays | driver/my_prepared_stmt.cc:166-242 | with a rowset of at least one row a sound statement fetches rightly and stays sound |
| RowCursor.ZeroRowset | driver/my_prepared_stmt.cc:228-240 | after a fetch with a rowset size of zero, of any orientation and from any statement, the statement is sound if and only if the row asked for is at most the first, or behind the last, or the remembered one |
| RowCursor.Statement.FetchRows | driver/results.cc:2126-2231 | the fetching cycle delivers the rows from the cursor on, until the count or the list is used up |
| RowCursor.Statement.FetchRowset | driver/results.cc:2125-2265 | rows, statuses with NOROW for the rest, and the new end of the set |
| RowCursor.Statement.ExtendedFetch | driver/results.cc:2045-2282 | a fetch with any rowset size makes the step between positions and delivers the rows from where it really starts to read, all of them or as far as the result goes; buffers and statuses are left alone when no row is asked for |
| RowCursor.Statement.FetchScroll | driver/results.cc:2322-2353 | the same for scrolling, with a bookmark added to the offset |
| RowCursor.Statement.Fetch | driver/results.cc:2361-2373 | the same for fetching the next rowset |
| RowCursor.ZeroRowsetMisleads | driver/my_prepared_stmt.cc:228-240 | a run with a rowset size of zero in between after which the fourth row is delivered for the second |
| RowCursorRuns.RunInRange | driver/my_prepared_stmt.cc:166-242 | over every run of fetches the position stays before the first row or inside, with its rowset, and everything fetched lies inside the result |
| RowCursorRuns.AfterNextCalls | driver/my_prepared_stmt.cc:171-173 | where a statement stands after any number of NEXT fetches, and what each has delivered |
| RowCursorRuns.BackAgain | driver/my_prepared_stmt.cc:174-176 | from a rowset that starts at any row, going back hands out the full rowsets in front of it in turn |
| RowCursorRuns.SequentialCoverage | driver/results.cc:2361-2373 | fetching on with a fixed size delivers all n rows exactly once in ceil(n/k) successes and then nothing |
| RowCursorRuns.LengthOfLaterRow | driver/results.cc:2183 | a value of a later row gets its own length if and only if the first row's value is null, empty or as long |
| RowCursorRuns.RunIsRightIff | driver/my_prepared_stmt.cc:228-240 | a run with any rowset sizes delivers what its positions name if and only if no call asks for the row behind the last rowset while the last rowset that had rows ends elsewhere, which the calls alone tell |
| RowCursorRuns.FullRowsetsAreRight | driver/my_prepared_stmt.cc:166-242 | so does every run with rowsets of at least one row, from a sound statement on |
| RowCursorRuns.NextAfterZeroRowset | driver/my_prepared_stmt.cc:228-240 | the next rowset behind a fetch with a rowset size of zero is right if and only if that fetch has gone to a row at most the first, or behind the last, or to the remembered one |
| RowCursorRuns.Replay | driver/results.cc:2045-2282 | a statement of any cursor type replays every run with any rowset sizes: standings and delivered slices are those of the specification, and calls that the cursor refuses change nothing |
| RowCursorRuns.FetchEverything | driver/results.cc:2361-2373 | a statement of any cursor type that has just been executed delivers all rows exactly once and in order when it is fetched often enough, whatever it remembers of an earlier result |
| RowCursorRuns.FetchLast | driver/results.cc:2322-2353 | a statement that has just been executed and may scroll delivers the last rows for LAST, and nothing for NEXT behind it |
| Lexer.ParamsAreMarkers | driver/parse.cc:706-716 | the parameter offsets increase and are exactly the question marks outside quotes and comments, with comments as the scan delimits them |
| LexerExtents.QueryStart | driver/parse.cc:768-771 | the first token starts with the first byte that is neither space nor control character of latin1 |
| LexerExtents.QuotedExtent | driver/parse.cc:666-694 | a quote of the three kinds starts a token and a text up to the first unescaped quote of its kind that no quote follows, and no byte of that is a parameter |
| LexerExtents.UnclosedQuote | driver/parse.cc:666-694 | nor is any byte of a quoted text that is never closed |
| LexerExtents.LineCommentExtent | driver/parse.cc:566-580 | a comment that starts with a number sign or with two dashes and a blank goes on to the end of the line, without tokens and parameters |
| LexerExtents.BlockCommentExtent | driver/parse.cc:566-580 | a comment that starts with a slash and a star, but no exclamation mark, goes on to the first terminator behind the slash |
| LexerExtents.GapExtent | driver/parse.cc:788-813 | white space and both separators end a token; the next one starts with the first byte that is neither space nor control character |
| LexerExtents.QuestionMark | driver/parse.cc:697-716 | a question mark outside quotes and comments is a parameter |
| LexerExtents.OtherByte | driver/parse.cc:784-827 | other bytes outside quotes and comments are nothing |
| StandardLexer.CommentExtent | driver/parse.cc:566-580 | in the lexer that takes delimiters whole a comment goes on to the first terminator behind its opener |
| StandardLexer.AgreeIff | driver/parse.cc:566-654 | the scan is in the state of that lexer in front of every byte if and only if no comment opens at `/*/` and none closes at `*/*`, apart from `*/*!`; then tokens and parameters are the same |
| StandardLexer.ParamsAreStandardMarkers | driver/parse.cc:706-716 | then the parameters are exactly the question marks outside quotes and comments |
| StandardLexer.CommentedMarkerIsTaken | driver/parse.cc:566-580 | a query where a question mark inside a comment is taken for a parameter |
| StandardLexer.MarkerIsLost | driver/parse.cc:566-580 | a query where a parameter behind a comment is lost |
| Lexer.TokensInOrder | driver/parse.cc:583-597 | token offsets do not decrease and lie inside the query |
| Tokenizer.Parser.GetCtype | driver/parse.cc:294-313 | what is known about the current byte is right inside the query |
| Tokenizer.Parser.StepChar | driver/parse.cc:719-728 | at least one byte forward; at the end nothing is looked up |
| Tokenizer.Parser.SkipSpaces | driver/parse.cc:555-563 | goes to the first byte that is neither space nor control character |
| Tokenizer.Parser.FindClosingQuote | driver/parse.cc:666-694 | goes behind the closing quote, over escapes and reopened quotes, in step with the lexer |
| Tokenizer.Parser.IsComment | driver/parse.cc:625-654 | recognises the three comment styles, and not the form with an exclamation mark |
| Tokenizer.Parser.SkipComment | driver/parse.cc:566-580 | goes to the first terminator of the comment that is open |
| Tokenizer.Parser.IsQuerySeparator | driver/parse.cc:743-760 | steps over a separator of either kind |
| Tokenizer.Parser.Tokenize | driver/parse.cc:763-830 | for every byte string the scan terminates at most one byte behind the end and finds the tokens and markers of the lexer |
| TempBuffers.TempBuffer.ExtendBuffer | driver/utility.cc:2302-2319 | there is room for the length, and the contents stay |
| TempBuffers.TempBuffer.AddToBuffer | driver/utility.cc:2328-2340 | the text is appended, whatever the room was |
| TempBuffers.TempBuffer.RemoveTrailZeroes | driver/utility.cc:2352-2355 | exactly the zero bytes at the end are dropped |
| Substitution.InsertionSucceeds | driver/execute.cc:479-528 | the insertion succeeds if and only if every value can be rendered, and is plain success if and only if none has anything to report |
| Substitution.InsertionIsSubstitution | driver/execute.cc:479-528 | the text is the query with the i-th marker replaced by the i-th value and every other byte kept, where markers are those of the lexer |
| Substitution.FailedInsertion | driver/execute.cc:479-528 | when a value cannot be rendered, the text ends with what its failure has left, behind the query up to its marker with all values in front |
| Execution.Stmt.InsertParams | driver/execute.cc:469-537 | appends the insertion to the buffer; on success the statement is the whole buffer |
| Execution.Stmt.RenderSet | driver/execute.cc:1439-1472 | one parameter set, with UNION ALL behind it for a SELECT that goes on |
| Execution.Stmt.DoQuery | driver/execute.cc:398-455 | an empty statement is not sent |
| Execution.Stmt.MapErrorToParamStatus | driver/execute.cc:1276-1295 | the status of a set by its return code |
| Execution.Stmt.Execute | driver/execute.cc:1383-1546 | for every array of sets, ignored or not, failing or not: the statements sent, all statuses with the last error marked, and the outcome |
| ExecutionRuns.SelectSendsUnion | driver/execute.cc:1439-1475 | a SELECT is sent at most once, if the last set takes part; it is the union of the sets' own statements if and only if failed sets have left no text |
| ExecutionRuns.LastIgnoredLosesAll | driver/execute.cc:1403-1475 | when the last set of a SELECT is ignored nothing is sent and the call throws |
| ExecutionRuns.SetSendsOwnStatement | driver/execute.cc:1439-1475 | in other statements a set sends its own statement if and only if no earlier set has left any text |
| ExecutionRuns.OneStatementPerSet | driver/execute.cc:1439-1475 | each set that takes part sends one statement, in order, which ends in its own |
| ExecutionRuns.SecondStatementRepeatsFirst | driver/execute.cc:1439-1475 | two rows for which the second statement contains the first |
| ExecutionRuns.TwoRowsAreUnited | driver/execute.cc:1459-1470 | two rows for a SELECT, and the statement that is sent for them |
| ExecutionRuns.WithoutParameters | driver/execute.cc:1475-1477 | a statement without parameters is sent once for every set, a SELECT once in all |
| ExecutionRuns.StatusOfSet | driver/execute.cc:1276-1520 | after an execution every set has its status: unused if and only if ignored, success or success with info if and only if its rendering or answer is; of the failed sets the last is marked as an error, for the others no diagnostics are available |
| ExecutionRuns.OutcomeIs | driver/execute.cc:1502-1546 | with several sets the call throws if and only if no statement is answered with plain success, and succeeds plainly if and only if every set that takes part does |
| ExecutionRuns.OutcomeOfOne | driver/execute.cc:1546 | a single set gives the call its own code |
| GetData.Getter.CopyBinaryResult | driver/utility.cc:236-284 | return code, chunk, reported length and state of one call; the rest of the buffer is untouched |
| GetData.Getter.CopyAnsiResult | driver/utility.cc:301-332 | the same with a zero byte where the data ends |
| GetData.DeliveredInOrder | driver/utility.cc:255-275 | for any buffer sizes the chunks make up a prefix of the capped value: nothing is lost and nothing comes twice |
| GetData.ChunkFillsRoom | driver/utility.cc:267-275 | a call hands out as many bytes as there is room for and remain |
| GetData.WholeValue | driver/utility.cc:236-284 | with room in every buffer the whole value comes, or its start up to the maximal length |
| GetData.ReportsWhatRemains | driver/utility.cc:259-281 | the length reported is what remained; truncated if and only if something remains; no data if and only if nothing remained and it is not the first call |
| GetData.ProgressUntilEnd | driver/utility.cc:267-275 | with room in every buffer all comes after as many calls as there are bytes |
| GetData.AnsiIsBinary | driver/utility.cc:301-332 | strings are handed out like bytes with one byte less per buffer; calls without a buffer at the start change nothing |
| GetData.StringFillsBuffer | driver/utility.cc:301-332 | a call for a string hands out one byte less than the buffer has, or what remains |
| GetData.FirstProbe | driver/utility.cc:315-320 | when a first call without a buffer reports and flags rightly |
| GetData.EmptyValueIsFlagged | driver/utility.cc:315-320 | the empty value is flagged as truncated |
| Utf8.DecodeEncoded | mysql_strings/mb_wc.h:114-176 | every character of the Basic Multilingual Plane is decoded from its encoding (section 3 of RFC 3629), wherever it stands |
| Utf8.OnlyEncodings | mysql_strings/mb_wc.h:114-176 | in front of a byte below 0xf0 a character is decoded if and only if its encoding stands there, so neither surrogates nor longer forms are taken |
| Utf8.IllegalByte | driver/utility.cc:406-505 | an illegal byte becomes a question mark and is passed over |
| Utf8.EncodedRoundTrip | mysql_strings/mb_wc.h:114-176 | decoding encoded text gives the text, with nothing illegal |
| Utf8.UnitsAfter | driver/utility.cc:406-505 | behind n characters the rest of the conversion follows |
| Utf8.CutRoundTrip | mysql_strings/mb_wc.h:114-176 | the first bytes of encoded text are decoded to the characters that they hold wholly |
| WideGetData.WideGetter.ConvertCharacters | driver/utility.cc:406-505 | the loop counts all units, puts those that fit into the buffer, and moves the source behind them |
| WideGetData.WideGetter.CopyWcharResult | driver/utility.cc:349-541 | return code, chunk, reported length, state and buffer of one call, also for illegal and cut sequences |
| WideGetData.DeliveredInOrder | driver/utility.cc:349-541 | for any buffer sizes the chunks make up a prefix of the conversion |
| WideGetData.ChunkFillsBuffer | driver/utility.cc:406-505 | a call hands out one unit less than the buffer has, or what remains |
| WideGetData.ReportsWhatRemains | driver/utility.cc:508-532 | the bytes that remained are reported; truncated if and only if units remain or there was no buffer; no data if and only if the length is known and nothing remained |
| WideGetData.ProgressUntilEnd | driver/utility.cc:349-541 | with room for a unit in every buffer all units come |
| WideGetData.StuckIffCut | driver/utility.cc:349-541 | for encoded text the conversion gets stuck if and only if the maximal length cuts it inside a character |
| WideGetData.CutTextFails | driver/utility.cc:349-541 | then every first call fails |
| WideGetData.TextComesOut | driver/utility.cc:349-541 | otherwise the chunks make up the characters that the maximal length leaves whole, and nothing is flagged as illegal |
| WideGetData.FirstProbe | driver/utility.cc:513-532 | a first call without a buffer reports the whole length; its flag is right if and only if the value is not empty |
| TapiText.GetLines | driver/utility.cc:2477-2491 | the lines of any text, or an exception for a text of blanks |
| TapiText.NoLinesIff | driver/utility.cc:2477-2491 | exactly the texts of blanks throw, among them the empty one |
| TapiText.LinesComeBack | driver/utility.cc:2477-2491 | lines that have been written are read back |
| TapiText.WindowsLinesComeBack | driver/utility.cc:2477-2491 | so are lines that end in a carriage return and a line feed |
| TapiText.UnclosedLineComesBack | driver/utility.cc:2477-2491 | the last line need not be closed |
| TapiText.LeadingBlanks | driver/utility.cc:2477-2491 | blanks in front of the first line are dropped |
| TapiText.ConvertArrayNotationToStringVector | driver/utility.cc:2497-2511 | the elements of any list |
| TapiText.ElementsComeBack | driver/utility.cc:2497-2511 | a list in brackets comes back as its names |
| TypeNames.TypeComesBack | driver/utility.cc:2539-2571 | every type with a name, also with a length, is found again by that name |
| TypeNames.TypesByName | driver/myutil.h:295-307 | the names of types without a length of their own, and the lengths that they stand for |
| TypeNames.TypesWithLength | driver/utility.cc:2551-2570 | the two types with a length |
| TypeNames.ExternalTypes | driver/utility.cc:2546-2549 | types of external databases are integers of 19 digits |
| TypeNames.UnknownNames | driver/utility.cc:2566 | no other name without parentheses is known |
| TypeNames.LetterCase | driver/utility.cc:2543-2544 | upper and lower case are the same |
| TypeNames.StoiTakes | driver/utility.cc:2562 | the length is read as the C library does, and only if it fits in 32 bits |
| Answer.ResultTable.BuildTableSelect | driver/results.cc:3519-3586 | for any text the names and columns of the table that it is read as, with the default table for outputs that are no answers; no result exactly where the code throws or reads behind the end |
| Answer.ResultTable.InsertMetadataCols | driver/catalog.cc:191-210 | the default table has the five columns of a table listing |
| Answer.OtherOutput | driver/results.cc:3519-3586 | an output that is no answer becomes an empty table with these columns |
| Answer.EmptyAnswer | driver/results.cc:3519-3586 | an answer that ends at once has no columns |
| Answer.NoAnswer | driver/results.cc:3519-3586 | a text of less than two lines, or a first column of an unknown type, throws |
| Answer.OddLines | driver/results.cc:3541-3576 | a name without a point counts as its table, too, and a lone quote is an empty text |
| Answer.ResultTable.ReadHeader | driver/results.cc:3539-3556 | the loop over the columns |
| Answer.ResultTable.ReadRows | driver/results.cc:3558-3582 | the loop over the rows |
| Answer.ColumnLengths | driver/results.cc:2414-2424 | a row adds to a column as many values as its name stands among the names |
| Answer.ColumnsAreEvenIff | driver/results.cc:2393-2424 | all columns have as many values as there are rows if and only if the names are distinct or there are no rows |
| AnswerRoundTrip.ValueComesBack | driver/results.cc:3566-3576 | null, quoted and other values come back |
| AnswerRoundTrip.TableComesBack | driver/results.cc:3519-3586 | the written answer of every table is read back with all columns and rows, unless its first value is the end marker |
| AnswerRoundTrip.ColumnsHoldRows | driver/results.cc:3519-3586 | with distinct names a column holds its type and the values of its place in all rows |
| Schema.GetForeignKeysFromTapi | driver/results.cc:2683-2726 | the foreign keys of any lines, and the index at the mark behind them |
| Schema.GetRelationInfo | driver/results.cc:2731-2913 | the relation at any line, with the index behind what is of interest |
| Schema.GetAllRelationsInfo | driver/results.cc:2918-2941 | all relations of any text; the search terminates |
| SchemaRoundTrip.KeyComesBack | driver/results.cc:2683-2726 | a foreign key comes back from its line |
| SchemaRoundTrip.RelationComesBack | driver/results.cc:2731-2913 | a table or view with any of its sections empty or not comes back, and nothing behind the index looks like another relation |
| SchemaRoundTrip.SchemaComesBack | driver/results.cc:2731-2941 | the description of distinctly named relations comes back as exactly these, with columns, not-null list and keys, and one nameless entry for all views of kind view |
| SchemaRoundTrip.ColumnsByName | driver/results.cc:2750-2761 | columns are found by name with their position from one on and their type |
| SchemaRoundTrip.ViewOfKindView | driver/results.cc:2839-2843 | a view of that kind is read as nothing |
| Pattern.OdbcPatternToRegexPattern | driver/utility.cc:2830-2859 | the loop translates a pattern part by part |
| Pattern.CharacterIsLiteral | driver/utility.cc:2830-2859 | every character other than the wildcards and the backslash is translated into what the grammar reads as that character, escaped exactly if the grammar has a meaning for it |
| Pattern.WildcardsAreAny | driver/utility.cc:2841-2844 | a wildcard is translated to the point, repeated for a percent sign |
| Pattern.EscapedCharacter | driver/utility.cc:2845-2849 | an escaped letter or digit is for the library to decide, a lone backslash dangles, and any other escape is fine |
| Pattern.TranslationParses | driver/utility.cc:2830-2859 | the translation reads as the items of the pattern if and only if every backslash takes a character that is no letter or digit; a backslash at the end leaves it dangling, and an escaped letter or digit leaves the modelled grammar |
| Pattern.TranslationPreservesMatching | driver/utility.cc:2830-2880 | a whole name matches the expression if and only if it matches the pattern, for all names within lines and for one-line names without reservation |
| Pattern.RightForOneLineOnly | driver/utility.cc:2841-2880 | a name is matched by every pattern as ODBC means it if and only if it is one line |
| Pattern.LineFeedIsMissed | driver/utility.cc:2841-2844 | a name with a line feed for which it does not |
| Pattern.SearchOdbcPattern | driver/utility.cc:2866-2880 | the search over all names, with what the library makes of expressions outside the grammar left open |
| Pattern.FoundIs | driver/utility.cc:2866-2880 | with fine escapes exactly the matching names, in order; an exception for a dangling backslash; only for escaped letters and digits is it up to the library |
| Pattern.FilterCandidates | driver/utility.cc:3055-3071 | all candidates for an empty key, the matching ones, or the key itself |
| Pattern.FilterThrows | driver/utility.cc:3055-3071 | an exception if and only if the key is a pattern that is refused, whatever the candidates are |
| Pattern.FilterHolds | driver/utility.cc:3055-3071 | a name is kept if and only if it is a candidate and the key asks for it |
| BatchInsert.Inserter.CopyRowData | driver/cursor.cc:297-316 | appends a value without trailing zero bytes, and a comma |
| BatchInsert.Inserter.AppendRow | driver/cursor.cc:1136-1217 | appends the tuple of a row and leaves the buffer empty |
| BatchInsert.Inserter.AppendRows | driver/cursor.cc:1134-1227 | appends at least one tuple and stops at the end or with the first tuple at which the room is used up |
| BatchInsert.Inserter.BatchInsertStd | driver/cursor.cc:1099-1245 | every statement sent is the query with at least one tuple; together they hold the rows from the first on, each once and in order; for row zero of several success if and only if all bound rows are in and all statements accepted, otherwise if and only if the first is |
| BatchInsert.SingleRowIsTheFirst | driver/cursor.cc:1103-1124 | for a row other than zero one statement with the first row is sent; it is the one with the row asked for if and only if their tuples agree |
| BatchInsert.TuplesLookLike | driver/cursor.cc:1136-1217 | two rows of two values, and the text that is sent for them |
| BatchInsert.TextConserved | driver/cursor.cc:1126-1245 | the total length of the statements accounts for every tuple once; at most as many statements as rows, and none ends in a comma |
| Catalog.BadWhen | driver/results.cc:3200-3275 | an answer throws if and only if it is unreadable for its command, the pattern that has to be compiled for it is refused, or a listed column is a float with a null |
| Catalog.ListingHolds | driver/results.cc:3216-3330 | a row is to be listed if and only if its database and its table are listed and its column is the listed one with that position |
| Catalog.ListedMatches | driver/results.cc:3208-3273 | the listed databases, tables and columns are those of the answers that match the arguments |
| CatalogRuns.ReadableNeverThrows | driver/results.cc:3190-3333 | with readable answers and fine escapes nothing throws, whatever is answered and carried out |
| CatalogRuns.ListingEnds | driver/results.cc:3190-3333 | the listing throws if and only if an answer that is read does, and returns early if and only if a command is not answered, for any number of databases and tables |
| CatalogRuns.ListingLists | driver/results.cc:3190-3333 | among honest answers the listing has the first of all rows, and all of them with the server where it was if it comes to its end |
| CatalogRuns.CallThrowsIff | driver/catalog.cc:344-432 | the call throws if and only if an answer that is read does |
| CatalogRuns.CallSucceedsIff | driver/catalog.cc:344-432 | the call succeeds if and only if it does not throw, the question for the database, both switches and the release succeed, and the results are good |
| CatalogRuns.CallRestores | driver/catalog.cc:366-426 | a call that returns leaves the server where it was if it got the name of the database rightly and the last switch is carried out |
| CatalogRuns.CallRows | driver/catalog.cc:414-426 | among honest answers the call has the first of all rows, also if a command is not answered, and all of them if all are |
| CatalogRuns.CallOrdered | driver/catalog.cc:362-426 | which commands the call starts and ends with, where and when |
| CatalogRuns.UnansweredListing | driver/results.cc:3200-3206 | whenever the question for all databases is not answered and all else goes well, the call succeeds without a row |
| CatalogRuns.LoneBackslashThrows | driver/results.cc:3234-3235 | a lone backslash as table pattern makes the call throw as soon as one database is listed and described |
| CatalogSession.Connection.Send | driver/execute.cc:214-268 | a command may or may not be answered and carried out |
| CatalogSession.Connection.ListTable | driver/results.cc:3237-3333 | listing one table sends the commands, ends and has the rows as its run says |
| CatalogSession.Connection.BuildTableSQLColumns | driver/results.cc:3190-3333 | so does the whole listing |
| CatalogSession.Connection.SQLColumns | driver/catalog.cc:344-432 | the call goes as its run says, for every server: commands, outcome, rows and current database; it releases the mutex exactly once after it got it, unless an answer that is read throws |
| CatalogWritten.WrittenListing | driver/results.cc:3190-3333 | of a server that writes what it holds in its own layout exactly the columns that are asked for are to be listed, of the tables and databases that are asked for, each with its place |
| CatalogWritten.ShortListing | driver/results.cc:3200-3206 | a session that reports success without a row though there is one to be listed |
| CatalogWritten.LoneBackslash | driver/results.cc:3234-3235 | a session in which a lone backslash keeps the mutex |
| CatalogWritten.BlankAnswers | driver/catalog.cc:366-374 | a session in which a blank answer keeps the mutex |

## Left out

- NumericPrint.CutFraction: the strlen that starts one byte in front of the digits, so that cutting a fraction can look at a
  byte the call has not written; the model works on the text itself.
- NumericPrint.ToStr: a requested scale of -128, whose negation does not fit its type; the buffer is large enough for the scale.
- Tokenizer.Parser.Tokenize: offsets are unbounded integers where the source has 32 bits; `last_char`, braces and query types
  are not modelled.
- RowCursor.Statement.ExtendedFetch: conversions of columns succeed, there are no out parameters and no bookmark column, and
  the forward-only mode without a cache is not modelled; `rows_found_in_set` is unbounded where the source has 32 bits.
- Execution.Stmt.Execute: parameters whose data come at execution, positioned cursors and exceptions of memory allocation; the
  statuses are a field of type `seq` that is updated in place of the application's array.
- Substitution.InsertionIsSubstitution: how a value is rendered; renderings are arguments, and a failed one may leave any text.
- GetData.Getter.CopyBinaryResult: a maximal length that changes between calls; buffers are present (of length zero where the
  application gives none).
- WideGetData.WideGetter.CopyWcharResult: sequences of four bytes, that is characters outside the Basic Multilingual Plane.
- TypeNames.GetTypeFromStr: a function, since its one loop only collects the characters between two parentheses.
- Schema.GetRelationInfo: reading behind the last line, which has no defined result, counts as no result.
- Pattern.TranslationPreservesMatching: escapes in front of letters and digits, which have meanings of their own in regular
  expressions; there the library is an argument, which may refuse the expression or match in its own way. It is taken to let
  other escaped characters stand for themselves, and the point not to match line terminators.
- BatchInsert.Inserter.BatchInsertStd: the query mutex, bookmarks after the insertion, and how values are bound.
- Answer.ResultTable.InsertMetadataCols: the lengths of the default columns.
- CatalogSession.Connection.BuildTableSQLColumns: of a row the database, table, column and position; not its types and sizes.
- RowCursorRuns.Replay: runs in which a fetch starts to read from a node of an earlier result, which has no defined outcome.
- Tokenizer.Parser.SkipComment: the line end of Windows, with a carriage return, for comments that end with the line.
- Connecting, pipes, shared memory, handles, options, error records and the wrappers for Unicode and ANSI: thin switches and
  operating-system calls.
- Positioned update and delete, SQLBulkOperations with bookmarks: generated SQL text and server behaviour.
- The mutex discipline of other catalog functions, which follow other conventions.

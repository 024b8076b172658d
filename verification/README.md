# Properties of librec and libcsv, proved in Dafny

GNU recutils keeps databases in plain text files of records and fields. Its library, librec, has a
parser and a writer for that format, selection and field expressions, sorting, grouping, joining,
actions on the fields of records, a registry of types and integrity checks; it bundles libcsv for
reading and writing comma-separated tables. This project models those parts and proves what they
promise: round trips between printed and parsed forms, what every step of a parser keeps, and that
the loops over records compute what their short definitions say.

`dafny verify dfyconfig.toml` checks everything.

How the files fit together:

- `Wrappers`, `Foreign`: optional values, and what is left to the libraries below librec.
- `RecData`, `RecBuf`, `Lookups`: values (fields, records, sets, databases), the character buffer, and
  finding and removing the fields of a record by name and ordinal.
- `RecGrammar`: what the rec parser recognises, as functions on the unread text. `RecParser`: the
  parser object with its cursor, push-back, flags and line count, proved to compute those functions.
- `RecWriter`: the text of each value, and the writing loops that append it.
- `RecRoundTrip`, `RecCanonical`, `RecReparse`: writer and parser against each other. `RecUnfinished`:
  when the parser reports success although it gave up. `RecSyntax`: the format as text, read and
  written.
- `Csv`, `CsvRoundTrip`, `CsvForms`: the push parser, its buffer, the quoting writers and their round
  trip, and what is reported for every way to write a cell.
- `SexValues`, `Sex`, `SexMeaning`, `SexOperators`: operators, evaluation with fixed nodes and field
  marks, the existential reading of a selection, and what the operators and simple expressions mean.
- `Ordering`, `Sorting`, `Grouping`, `SortGroup`, `Join`, `RecordOps`, `ActionValues`, `RandomIndexes`:
  operations on sets and records.
- `TypeRegistry`, `AutoKey`, `Fex`, `Numbers`: types, generated keys and their check, field
  expressions, and the decimal conversions they share.

Where the code does not do what one would expect, the model follows the code, and a lemma says exactly
when it does:

- A value with a backslash before a newline, or at its end, does not survive being written and read
  again; all others do (`RecRoundTrip.FieldRoundTrip` for a field, `RecReparse.ReparseIff` for whole
  databases).
- `rec_parse_db` reports success whenever it got to the end of the input, also after an error
  (`RecCanonical.SuccessDespiteError`). A field is rejected at the end of the text exactly when it breaks
  off there (`RecUnfinished.FieldRejectedAtEndIff`); only texts that break off so can be reported
  wrongly, so on every text that is empty or ends in a newline success and no error are the same
  (`RecUnfinished.ClosedTextIff`).
- The guard in `rec_buf_rewind` compares an unsigned difference with zero and so never stops anything;
  in the parser this is harmless because every rewind takes back a newline that is there.
- A CSV row of no cells or of one missing cell is a bare line, which a reader drops by default
  (`CsvRoundTrip.RowsSurviveIff`).
- Sorting by values that do not convert to the declared type can use a circular order
  (`Ordering.MixedOrderIsCircular`). The order of the elements is transitive exactly when the records
  have no inversion (`Sorting.TransitiveIff`; `Ordering.ValuesTransitiveIff` for single values).
- A join misses pairs if a keyless record stands before a keyed one in the referred set, and repeats
  pairs if the first of its records has two keys; otherwise it is right (`Join.JoinCorrectIff`).
- An automatic key exceeds the existing ones unless one of them is the largest `int`
  (`AutoKey.AutoExceedsIff`, `AutoKey.WrapsAtLargest`).
- A field expression element with a maximum but no minimum is printed as a negative subscript
  (`Fex.FexRoundTripIff`).
- In a selection expression whose first evaluation fails, a subscripted name that was not reached is
  fixed later, from a variant of the record (`SexMeaning.LateFixMisreads`). A pass leaves all fixed names
  right exactly when those it is the first to reach read the same in its record as in the original
  (`Sex.FixesRightIff`).
- Addition and multiplication commute exactly unless one operand is a missing field and the other a
  number (`SexValues.CommutesIff`); how the sums differ is in `SexValues.AddMissingField`.
- The random index list has pairwise different numbers exactly when it asks for no more than there
  are (`RandomIndexes.AddRandomIndexes`).

## Model

| member | source | states |
|---|---|---|
| `RecBuf.Buf.PutC` | src/rec-buf.c:102-134 | the contents grow by exactly that character, across buffer growth |
| `RecBuf.Buf.Rewind` | src/rec-buf.c:93-100 | drops the last characters; taking back more than is there wraps the position around |
| `RecParser.Parser.GetC` | src/rec-parser.c:764-803 | takes the next unread character, keeps line and offset right, sets the end flag at the end |
| `RecParser.Parser.UngetC` | src/rec-parser.c:805-849 | pushing back the character just read undoes the read, statistics included; it fails only at the very start of the text |
| `RecParser.Parser.PushBack` | src/rec-parser.c:805-849 | what every push-back of the parser is: of the character just read, so that it never fails |
| `RecParser.Parser.ParseName` | src/rec-parser.c:213-341 | computes the recognised name and leaves exactly the rest unread, or the error |
| `RecParser.Parser.ParseValue` | src/rec-parser.c:905-1078 | computes the joined and continued value; each rewind removes a newline that is the last buffered character |
| `RecParser.Parser.TakeBackNewline` | src/rec-parser.c:905-1078 | every rewind of the parser is made when the last buffered character is a newline, and removes just that |
| `RecParser.Parser.ParseField` | src/rec-parser.c:351-396 | name and value as recognised, located at the line and offset where the name starts |
| `RecParser.Parser.ParseComment` | src/rec-parser.c:1080-1137 | merges touching comment lines and stops at the first other line |
| `RecParser.Parser.ParseRecord` | src/rec-parser.c:398-511 | fields and comments up to a blank line or the end, each field located where it starts |
| `RecParser.Parser.ParseRset` | src/rec-parser.c:513-617 | the set, with the pending descriptor used up and the next one handed on |
| `RecParser.Parser.ParseDb` | src/rec-parser.c:619-655 | terminates on every text; all sets in order; success is having reached the end |
| `RecGrammar.ParseRset` | src/rec-parser.c:513-655 | every successful call consumes input or uses up the pending descriptor, the measure by which the database loop ends |
| `RecWriter.WriteComment` | src/rec-writer.c:126-207 | appends the text with a hash at the start of each line |
| `RecWriter.WriteField` | src/rec-writer.c:209-328 | appends name, colon and the value with continuation lines |
| `RecWriter.WriteRecord` | src/rec-writer.c:376-473 | appends the elements, one newline between two of them |
| `RecWriter.WriteRset` | src/rec-writer.c:475-591 | appends the elements and, at its position, the descriptor, blank lines between them |
| `RecWriter.WriteDb` | src/rec-writer.c:593-622 | appends the sets, separated by blank lines |
| `RecRoundTrip.FieldRoundTrip` | src/rec-writer.c:209-328 | a written field and newline before any rest that is no continuation is read back, leaving exactly that rest, if and only if no backslash stands before a newline or at the end |
| `RecRoundTrip.CommentBack` | src/rec-writer.c:126-207 | a written comment of any text is read back and leaves exactly the rest |
| `RecRoundTrip.RecordRoundTrip` | src/rec-parser.c:398-511 | a written record before a blank line or the end is read back |
| `RecRoundTrip.DbRoundTrip` | src/rec-writer.c:475-622 | every database in canonical form is read back from its written form: sets, descriptors and positions, records, fields, comments |
| `RecCanonical.ParsedIsCanonicalIff` | src/rec-parser.c:398-655 | whatever is parsed is in canonical form exactly when its values are clean |
| `RecCanonical.ReparseClean` | src/rec-parser.c:619-655 | writing a parsed database with clean values and parsing it again succeeds with the same database and takes all the text |
| `RecCanonical.StopsOnlyOnError` | src/rec-parser.c:619-655 | without an error the whole text has been read |
| `RecCanonical.SuccessDespiteError` | src/rec-parser.c:619-655 | a text on which success is reported although a record was rejected |
| `RecUnfinished.ValueRejectedIff` | src/rec-parser.c:905-1078 | a value is rejected exactly when no line end closes it and its last character is a backslash or the plus of a continuation |
| `RecUnfinished.FieldRejectedAtEndIff` | src/rec-parser.c:351-396 | a field is rejected at the end of the text exactly when it breaks off after its name, after the colon or in its value |
| `RecUnfinished.FalseSuccessBreaksOff` | src/rec-parser.c:619-655 | on every text, success in spite of an error needs a field that breaks off at the end of the text |
| `RecUnfinished.UnfinishedTextFails` | src/rec-parser.c:619-655 | every text that is such a field is reported as a success in spite of the error |
| `RecUnfinished.ClosedTextIff` | src/rec-parser.c:619-655 | on every text that is empty or ends in a newline, success is reported if and only if there was no error |
| `RecSyntax.NameRead` | src/rec-parser.c:213-341 | a letter or percent sign, then letters, digits and underscores, and a colon are read as that name, with one blank or tab skipped after the colon |
| `RecSyntax.NameReadOnly` | src/rec-parser.c:213-341 | nothing else is read as a name |
| `RecSyntax.ValueRead` | src/rec-parser.c:905-1078 | lines glued by a plus, with or without a blank, give a value with newlines; lines glued by a backslash are joined; the line end without a plus ends the value |
| `RecSyntax.BlankLineEnds` | src/rec-parser.c:398-511 | a line of blanks ends a record, and blanks before anything else are an error |
| `RecSyntax.GapsSkipped` | src/rec-parser.c:513-617 | any blanks and newlines between records are skipped |
| `RecSyntax.FieldWritten` | src/rec-writer.c:209-328 | name, colon, blank, value, and a plus and blank before each further line; no blank for an empty value |
| `RecSyntax.CommentWritten` | src/rec-writer.c:126-207 | a hash before each line |
| `RecSyntax.LayoutWritten` | src/rec-writer.c:376-622 | one line for each element; one empty line between records, after the descriptor and between sets |
| `RecReparse.FieldDiffers` | src/rec-parser.c:905-1078 | a field whose value has a backslash before a newline or at the end is read back with another value or not at all |
| `RecReparse.RecordDiffers` | src/rec-parser.c:398-511 | a record with such a value is not read back |
| `RecReparse.RsetTailGrows` | src/rec-parser.c:513-617 | what a set has got stays: elements are only added, a descriptor is kept, and none is taken after a record |
| `RecReparse.LooseRoundTripIff` | src/rec-writer.c:475-622 | a database of the form that parsing yields is read back if and only if its values are clean |
| `RecReparse.ReparseIff` | src/rec-parser.c:619-655 | for every text, writing the parsed database and parsing it again gives it back if and only if its values are clean |
| `RecReparse.DirtyValuesArise` | src/rec-parser.c:905-1078 | a text whose parsed database is not given back |
| `Csv.Step` | libcsv/libcsv.c:307-452 | one character keeps the state invariant: nothing pending outside a field, no blanks counted in a quoted one, the cut never exceeds the entry |
| `Csv.RunConcat` | libcsv/libcsv.c:307-452 | parsing two chunks reports and leaves behind what parsing their concatenation does |
| `Csv.RunUsedPrefix` | libcsv/libcsv.c:307-452 | after a strict error the count is exactly the part of the input reflected in the state |
| `Csv.ResumeLosesNothing` | libcsv/libcsv.c:307-452 | stopping anywhere and resuming with the rest neither loses nor repeats anything |
| `Csv.CsvParser.constructor` | libcsv/libcsv.c:118-143 | idle state, default quote, delimiter, blanks and terminators |
| `Csv.CsvParser.IncreaseBuffer` | libcsv/libcsv.c:273-305 | growth keeps the pending bytes; on failure nothing but the status changes |
| `Csv.CsvParser.Parse` | libcsv/libcsv.c:307-452 | state and reports are those of the characters counted; a short count comes from a strict error at exactly the rejected character or from failed growth |
| `Csv.CsvParser.Fini` | libcsv/libcsv.c:161-199 | reports the pending field and row and returns to idle; refuses only an unterminated quoted field under both strict options |
| `CsvRoundTrip.Output.FWrite` | libcsv/libcsv.c:557-584 | appends the quoted cell with quotes doubled |
| `CsvRoundTrip.WriteTo` | libcsv/libcsv.c:520-555 | fills the destination as far as it goes, leaves the rest, and returns the size needed, saturated |
| `CsvRoundTrip.Output.WriteRow` | utils/rec2csv.c:221-245 | appends present cells quoted, missing ones empty, delimiters between and a line feed |
| `CsvRoundTrip.TableRoundTrip` | libcsv/libcsv.c:307-452 | every written table is reported cell by cell and row by row, missing cells as empty, without error also in strict mode, and finishing adds nothing |
| `CsvRoundTrip.RowsSurviveIff` | libcsv/libcsv.c:307-452 | by default a table keeps its number of rows if and only if none is a bare line |
| `CsvRoundTrip.RunExact` | libcsv/libcsv.c:307-452 | in every reachable state the blank count is exactly the maximal run of trailing blanks, after the closing quote in a quoted field |
| `CsvRoundTrip.SubmissionCutsExactly` | libcsv/libcsv.c:52-72 | in every reachable state a submission cuts exactly the trailing blanks, with the closing quote of a quoted field |
| `CsvForms.CellBeforeDelimiter` | libcsv/libcsv.c:307-452 | for every cell, bare or quoted and with any blanks around it, exactly its data is reported at the delimiter |
| `CsvForms.CellBeforeTerminator` | libcsv/libcsv.c:307-452 | the same at a row terminator, with the row |
| `CsvForms.CellAtEnd` | libcsv/libcsv.c:161-199 | the same at the end of the input |
| `CsvForms.UnclosedAtEnd` | libcsv/libcsv.c:161-199 | a cell whose closing quote is missing is reported as far as it got, or refused under both strict options |
| `CsvForms.AnyTableIsRead` | libcsv/libcsv.c:307-452 | every table of such cells, bare and quoted mixed, is reported cell by cell and row by row without error |
| `CsvForms.TrimmedText` | libcsv/libcsv.c:307-452 | every text without quote, delimiter and terminator is such a cell, its data the text without the blanks around it |
| `CsvForms.StrictBareQuote` | libcsv/libcsv.c:307-452 | under strict checking a quote inside a bare cell stops the parser exactly there |
| `CsvForms.StrictAfterQuote` | libcsv/libcsv.c:307-452 | so does what may not follow a closing quote |
| `CsvForms.LenientAfterQuote` | libcsv/libcsv.c:307-452 | without it the quote and the blanks after it become part of the cell, which goes on |
| `CsvForms.QuotedMeans` | libcsv/libcsv.c:557-584 | what is written has a quote at both ends, quotes inside doubled and all else as it is |
| `Foreign.SubtractIsDifference` | src/rec-utils.c:399-415 | the borrow gives the difference of the two times, its sign and its zero |
| `SexValues.TimesOrdered` | src/rec-sex.c:709-759 | exactly one of before, after and same time holds, as the times are ordered |
| `SexValues.SubtractBack` | src/rec-sex.c:414-476 | integer subtraction undoes addition |
| `SexValues.QuotientOverflow` | src/rec-sex.c:508-575 | the truncated quotient of two ints is an int exactly unless the least int is divided by -1 |
| `SexValues.DivideBack` | src/rec-sex.c:508-575 | quotient times divisor plus remainder is the dividend |
| `SexValues.OppositeDisagrees` | src/rec-sex.c:576-871 | opposite comparisons fail on the same operands and otherwise disagree |
| `SexValues.CommutesIff` | src/rec-sex.c:413-507 | sums and products commute if and only if not one operand is the empty string and the other a number |
| `SexValues.AddMissingField` | src/rec-sex.c:1097-1170 | the sums with a missing field: real or integer, real or failure, by the order of the operands |
| `Sex.EvalMeaning` | src/rec-sex.c:391-1095 | the evaluator with fixed nodes computes the stateless meaning as long as names not yet fixed read as in the original record; success fixes every subscripted name, to its original value |
| `Sex.FixesRightIff` | src/rec-sex.c:1027-1092 | a pass leaves every fixed name with its original value if and only if the names it is the first to reach read the same in its record |
| `Sex.NameP` | src/rec-sex-ast.c:365-404 | true exactly when the tree has a name node of that name without subscript or with one below the count |
| `Sex.Selection.Unfix` | src/rec-sex-ast.c:321-332 | exactly the nodes of the tree are unfixed |
| `Sex.Selection.EvalNode` | src/rec-sex.c:391-1095 | value, status and fixed nodes as specified; a node that fails always yields the integer 0 |
| `Sex.Selection.Selects` | src/rec-sex.c:195-268 | the outcome of evaluating the record and then its variants until one holds; the marks make each repeated name tried once |
| `SexMeaning.VariantValues` | src/rec-sex.c:231-252 | a variant has one field of the name, with the chosen value, and the fields of all other names as they were |
| `SexMeaning.VariantsSound` | src/rec-sex.c:223-258 | only repeated, mentioned and uncounted names are tried |
| `SexMeaning.VariantsComplete` | src/rec-sex.c:223-258 | every occurrence of every such name is tried |
| `SexMeaning.SuccessReaches` | src/rec-sex.c:195-268 | a first pass that succeeds has reached every subscripted name |
| `SexMeaning.RunDecides` | src/rec-sex.c:195-268 | if the first pass reaches every subscripted name on a field that is tried, value and status of the whole run are those of the first record, of the original and its variants, on which the expression holds, or else of the last, subscripted names reading the original |
| `SexMeaning.SelectsIff` | src/rec-sex.c:195-268 | a record is selected exactly when the expression holds on it or on some variant, subscripted names reading the original record |
| `SexMeaning.LateFixMisreads` | src/rec-sex.c:1027-1092 | an expression whose first pass fails and whose subscripted name is then read from a variant |
| `SexMeaning.OppositeComparison` | src/rec-sex.c:576-871 | denying a comparison is the opposite comparison, in value and in what it fixes |
| `SexMeaning.ImpliesIsOrNot` | src/rec-sex.c:760-775 | an implication means the same as denying the first operand or having the second |
| `SexMeaning.DeMorgan` | src/rec-sex.c:872-943 | denying a conjunction is the disjunction of the denials |
| `SexOperators.IntComparisons` | src/rec-sex.c:576-871 | integers, also as strings, compare in the order of the integers; only two strings are equal as strings |
| `SexOperators.RealComparisons` | src/rec-sex.c:576-871 | if one of two numbers is no integer they compare in the order of the reals |
| `SexOperators.StringComparisons` | src/rec-sex.c:576-677 | two strings are equal exactly when they are the same |
| `SexOperators.ComparableIff` | src/rec-sex.c:776-871 | which pairs of strings can be put in order |
| `SexOperators.IntArithmetic` | src/rec-sex.c:413-575 | sum, difference and product of integers; division by zero fails |
| `SexOperators.IntDivision` | src/rec-sex.c:508-575 | quotient and remainder are those of division towards zero |
| `SexOperators.RealArithmetic` | src/rec-sex.c:413-548 | sum and product of reals |
| `SexOperators.LogicMeans` | src/rec-sex.c:872-943 | every integer but zero is true, a missing field is false |
| `SexOperators.TimeComparisons` | src/rec-sex.c:709-759 | times compare by their seconds and then their nanoseconds |
| `SexOperators.StringOperators` | src/rec-sex.c:678-708 | the text is the first operand of a match and the pattern the second; the first operand of a concatenation is in front |
| `SexOperators.ConditionalMeans` | src/rec-sex.c:984-1008 | the second operand if the first is true, else the third |
| `SexOperators.NameMeans` | src/rec-sex.c:1027-1092 | a name reads the first field, or the one of its subscript, of that name joined with its subname; a missing one is empty |
| `SexOperators.SelectsSome` | src/rec-sex.c:195-268 | a field against a literal selects a record exactly when the operator holds of some field of that name |
| `SexOperators.SelectsByNumber` | src/rec-sex.c:195-268 | exactly when some field of that name is less than, equal to, or so on, the number |
| `SexOperators.SelectsByText` | src/rec-sex.c:195-268 | exactly when some field of that name has the text |
| `SexOperators.MissingIsZero` | src/rec-sex.c:195-268 | without such a field, exactly when zero is in that relation to the number |
| `SexOperators.SelectsByCount` | src/rec-sex-ast.c:406-435 | a count selects by the number of fields in the record itself, which are not varied |
| `SexOperators.LiteralSelects` | src/rec-sex.c:128-150 | only integers other than zero select |
| `Ordering.ValuesCmpTransitive` | src/rec-types.c:963-1097 | on values that convert, the typed order is transitive and its ties are ties |
| `Ordering.ValuesTransitiveIff` | src/rec-types.c:963-1097 | the typed order is transitive on a set of values if and only if no value that does not convert stands, as a string, between two that do and are the other way round |
| `Ordering.MixedOrderIsCircular` | src/rec-types.c:963-1097 | three values on which the order goes round in a circle |
| `Ordering.CompareRecords` | src/rec-rset.c:1769-1823 | the loop computes the lexicographic comparison in which a missing field is first and ends it |
| `Ordering.StrCmpMeans` | src/rec-types.c:1085-1097 | texts are in lexicographic order |
| `Ordering.ValuesCmpMeans` | src/rec-types.c:963-1097 | a value comes before another as integer, real, false before true, time or text |
| `Ordering.CompareMeans` | src/rec-rset.c:1769-1823 | a record comes before another exactly when, at the first field on which they do not agree, it lacks the field or has the lesser value |
| `Ordering.RecordsTransitiveIff` | src/rec-rset.c:1769-1823 | comparing records is transitive if and only if no three of them, tied up to some field, have such values in it |
| `Ordering.ConvertedIsTransitive` | src/rec-rset.c:1769-1823 | in particular when all their sort fields convert |
| `Ordering.CompareTotal` | src/rec-rset.c:1769-1823 | any two records are comparable |
| `Ordering.EqualNeedsFullKey` | src/rec-rset.c:1769-1823 | records compare equal only if both have all the fields, and then in both directions |
| `Sorting.TransitiveIff` | src/rec-rset.c:967-1060 | the element order, comments included, is transitive if and only if the records have no inversion |
| `Sorting.MultiSet.FindPlace` | src/rec-mset.c:735-772 | binary search ends right after the elements that may stand before the new one |
| `Sorting.InsertKeepsSorted` | src/rec-mset.c:735-772 | inserting an element there keeps a stable sort of a permutation |
| `Sorting.MultiSet.Sort` | src/rec-mset.c:224-282 | always a permutation of the elements, and a stable sort whenever the order is transitive on them |
| `Sorting.SortUnique` | src/rec-mset.c:224-282 | there is only one stable sort |
| `Sorting.CommentsFirst` | src/rec-rset.c:1052-1060 | all comments come first, in their original order |
| `Sorting.RecordsInOrder` | src/rec-rset.c:967-1025 | the records follow in order, ties in their original order |
| `Sorting.SortedMeans` | src/rec-mset.c:224-282 | after sorting an earlier record comes before a later one in that sense, or has the same values |
| `Sorting.FirstFieldAscends` | src/rec-mset.c:224-282 | records that lack the first sort field come first, and after them its values do not decrease |
| `Grouping.GroupedSet.Group` | src/rec-rset.c:749-836 | the set becomes one merged record for each run of equal records |
| `Grouping.GroupedSet.MergeInto` | src/rec-rset.c:1708-1767 | appends all but the group-by fields of one record to another |
| `Grouping.GroupsConserve` | src/rec-rset.c:749-836 | the other fields and comments of all records, concatenated in order, are the same before and after |
| `Grouping.GroupsConserveValues` | src/rec-rset.c:749-836 | no value of any other field and no comment is lost, added or moved |
| `Grouping.GroupsKeepKeyValues` | src/rec-rset.c:1708-1767 | the values of a group-by field are those of the first record of the group |
| `Grouping.SurvivorsKeepKeys` | src/rec-rset.c:1708-1767 | each survivor keeps its own group-by fields |
| `Grouping.LackingNeverMerged` | src/rec-rset.c:749-836 | records that lack a group-by field are merged with no other |
| `Grouping.EveryRecordIsGrouped` | src/rec-rset.c:749-836 | every record survives or is equal to one that does |
| `Grouping.OneRecordPerKey` | src/rec-rset.c:749-836 | in a sorted set no two resulting records are equal in the group-by fields |
| `SortGroup.SortThenGroup` | src/rec-db.c:412-425 | after sorting by the group-by fields and grouping, no two records are equal in those fields |
| `SortGroup.MatchingKept` | src/rec-mset.c:224-282 | a stable sort keeps the records equal to a key in their original order |
| `SortGroup.GroupHolds` | src/rec-db.c:412-425 | then a record with a full key holds the other elements of exactly the original records with that key, in their original order, and one that lacks a field is an original record |
| `Join.JoinSets` | src/rec-db.c:1038-1201 | the nested loops compute the scans of the right set, one for each foreign key |
| `Join.JoinPair` | src/rec-db.c:972-1036 | the left elements without the join field, then the right fields with the prefix |
| `Join.JoinedRight` | src/rec-db.c:972-1036 | the values of the right record are found under the join field, an underscore and their name, after those the left record has there |
| `Join.JoinedLeft` | src/rec-db.c:1038-1201 | the join field is gone and every other name keeps the values of the left record |
| `Join.JoinedComments` | src/rec-db.c:972-1036 | the comments are those of the left record |
| `Join.JoinIsProduct` | src/rec-db.c:1038-1201 | no pair is missed or repeated, in left-major order, however many foreign keys there are |
| `Join.OneKeyEachIsJoinable` | src/rec-db.c:1038-1201 | exactly one key in every referred record is enough for that |
| `Join.JoinCorrectIff` | src/rec-db.c:1038-1201 | the join is right for every left set if and only if keyless records come last and the first record does not have two keys |
| `Lookups.NumFieldsByName` | src/rec-record.c:317-336 | the number of fields with the name, and of their values |
| `Lookups.FieldByName` | src/rec-record.c:338-366 | the field with that name and ordinal, if there is one |
| `Lookups.NthValue` | src/rec-record.c:338-366 | its value |
| `Lookups.FieldIndex` | src/rec-record.c:286-308 | the number of fields before it |
| `Lookups.RemoveFieldByName` | src/rec-record.c:368-392 | removing while walking drops exactly the field of that ordinal, or all of the name |
| `Lookups.RemovedAll` | src/rec-record.c:368-392 | all of the name: the elements without it remain, in order |
| `Lookups.RemovedOne` | src/rec-record.c:368-392 | one of them: one element fewer if there is such a field, and all elements of other names as they were |
| `RecordOps.RecordObj.Rename` | src/rec-db.c:1203-1264 | exactly the fields whose original ordinals are selected are renamed, although ordinals shift on the way |
| `RecordOps.OrdinalsShift` | src/rec-db.c:1203-1264 | by how much: the number of selected ordinals already renamed |
| `RecordOps.RecordObj.Prune` | src/rec-db.c:1361-1457 | the mask and the second pass delete or comment out exactly the selected fields |
| `RecordOps.DeletedExactly` | src/rec-db.c:1361-1457 | every other element is found again, in order |
| `RecordOps.CommentedExactly` | src/rec-db.c:1361-1457 | the selected fields become comments in place and nothing else changes |
| `ActionValues.PruneLeaves` | src/rec-db.c:1361-1457 | of the values of each name exactly those remain that the expression does not take, in order |
| `ActionValues.PruneAll` | src/rec-db.c:1361-1457 | without a subscript none remain |
| `ActionValues.PruneOne` | src/rec-db.c:1361-1457 | with one subscript all but that one |
| `ActionValues.PruneRange` | src/rec-db.c:1361-1457 | with two all outside the range |
| `ActionValues.PruneOthers` | src/rec-db.c:1361-1457 | names that are not mentioned keep their values |
| `ActionValues.DeleteKeepsComments` | src/rec-db.c:1361-1457 | deleting keeps the comments |
| `ActionValues.RenameMoves` | src/rec-db.c:1203-1264 | renaming moves the selected values, in order, to the new name and leaves all others |
| `ActionValues.RenameAll` | src/rec-db.c:1203-1264 | all of them without a subscript |
| `ActionValues.RenameOne` | src/rec-db.c:1203-1264 | one with one subscript |
| `ActionValues.RenameRange` | src/rec-db.c:1203-1264 | a range with two |
| `RandomIndexes.IndexP` | src/rec-db.c:1459-1487 | true exactly for the numbers some pair covers, never reading past the ending pair |
| `RandomIndexes.PairCovers` | src/rec-db.c:1459-1487 | a pair covers the numbers from the first to the second, or only the first if the second is open |
| `RandomIndexes.Fresh` | src/rec-db.c:1489-1545 | a number already chosen is replaced by the least free one |
| `RandomIndexes.AddRandomIndexes` | src/rec-db.c:1489-1545 | for every random source the list is ended, selects only numbers below the limit, and selects as many different ones as asked for if and only if so many exist |
| `RandomIndexes.SomeFree` | src/rec-db.c:1489-1545 | while fewer than the limit are chosen the search for a free number succeeds |
| `RandomIndexes.ChosenExactly` | src/rec-db.c:1459-1545 | the list covers exactly the chosen numbers |
| `TypeRegistry.Registry.Add` | src/rec-types.c:735-778 | registers or replaces; names stay distinct and flags clear |
| `TypeRegistry.Registry.AddSynonym` | src/rec-types.c:780-817 | the same for a synonym |
| `TypeRegistry.Registry.Get` | src/rec-types.c:819-858 | terminates on every registry, also from inside its own recursion, and leaves all flags clear |
| `TypeRegistry.ResolveMeaning` | src/rec-types.c:819-858 | finds exactly the type at the end of the synonym chain, and none exactly when the chain reaches an unknown name or a cycle |
| `TypeRegistry.OutcomesExclusive` | src/rec-types.c:819-858 | a chain that finds a type finds no other, no unknown name and no cycle |
| `TypeRegistry.CycleNeverStops` | src/rec-types.c:819-858 | a chain that repeats a name goes on for ever |
| `AutoKey.DecimalCounts` | src/rec-rset.c:1572-1636 | which values the generator counts, and as what |
| `AutoKey.AutoExceeds` | src/rec-rset.c:1572-1636 | the generated value exceeds every convertible value below the largest int |
| `AutoKey.AutoExceedsIff` | src/rec-rset.c:1572-1636 | it exceeds all of them if and only if none is the largest int |
| `AutoKey.WrapsAtLargest` | src/rec-rset.c:1572-1636 | past the largest int the generator wraps around |
| `AutoKey.RecordSet.AutoValue` | src/rec-rset.c:1572-1636 | the value found by going through all records and all their fields of the name |
| `AutoKey.RecordSet.AddAutoFields` | src/rec-rset.c:838-913 | the automatic fields that are missing are put in front |
| `AutoKey.AutosInFront` | src/rec-rset.c:838-913 | the new fields stand in front of the elements, which stay: one for each declared name that the record lacks, with the value of its kind |
| `AutoKey.RecordSet.Append` | src/rec-db.c:619-685 | the record with its automatic fields is put right after the last record, or at the descriptor's place; nothing else changes |
| `AutoKey.CheckRecordKey` | src/rec-int.c:661-766 | no error exactly when the record has one field of each key and no other record has its value |
| `AutoKey.CheckKeys` | src/rec-int.c:122-217 | no key error exactly when every record has one field of each key and the values differ pairwise |
| `AutoKey.HistoryKeepsSound` | src/rec-db.c:619-685 | over every history of appended records that lack the key, the check stays clean while values stay below the largest int |
| `Numbers.AtoiPrinted` | src/rec-utils.c:37-57 | every int is converted back from its printed form |
| `Numbers.FormsRead` | src/rec-utils.c:37-57 | blanks, a sign, and decimal, octal or hexadecimal digits are read as the number they stand for |
| `Numbers.DecimalRead` | src/rec-rset.c:1572-1636 | in base ten blanks, a sign and digits are read as the number, leading zeros or not |
| `Numbers.FoldSnoc` | src/rec-utils.c:37-57 | one digit more multiplies by the base and adds the digit |
| `Numbers.ToIntCongruent` | src/rec-utils.c:37-57 | the conversion to int changes a number by a multiple of the number of ints |
| `Fex.ParseElemCode` | src/rec-fex.c:712-852 | computes the element, or the parse error; in a call the skip over the parenthesis stays inside the string |
| `Fex.SubnameRead` | src/rec-fex.c:712-852 | a subname is joined to the name with an underscore |
| `Fex.CallRead` | src/rec-fex.c:712-852 | a function name and a field name in parentheses are a call |
| `Fex.RewriteRead` | src/rec-fex.c:712-852 | what follows a colon is the rewrite rule |
| `Fex.FieldExpression.ParseStr` | src/rec-fex.c:653-710 | fills the array with the elements between commas, or fails at the first bad one |
| `Fex.FieldExpression.Str` | src/rec-fex.c:342-415 | the printed form with subscripts |
| `Fex.SubscriptsWritten` | src/rec-fex.c:342-415 | subscripts in brackets with a dash between them, commas between elements |
| `Fex.NumberRead` | src/rec-utils.c:168-202 | digits, hexadecimal digits, their prefix and a leading minus make a number, converted as a whole |
| `Fex.NumberBack` | src/rec-utils.c:168-202 | the number scanner reads a printed number to its end and no further |
| `Fex.ElemReadBack` | src/rec-fex.c:712-852 | what each printed element is read back as |
| `Fex.FexRoundTripIff` | src/rec-fex.c:342-415 | parsing the printed form gives back the same elements if and only if there are some, and none has a call, a rewrite rule or a maximum without minimum |

## Left out

- SexMeaning.RunDecides: under the same condition as SexMeaning.SelectsIff.
- SexMeaning.SelectsIff: the condition, that the first pass reaches every subscripted name on a field that is tried, is sufficient for the whole run; the exact condition is stated for each pass, in Sex.FixesRightIff, and `Sex.Selection.Selects` is stated without any.
- Sorting.MultiSet.Sort: says nothing about the element counters of the multi-set, which the source does not reset before it counts every element again.
- RecParser.Parser.ParseDb: texts hold neither the zero character nor character 0xFF, which the memory reader cannot tell from the end.
- SexValues.SubtractBack: C leaves a sum that overflows undefined; the model keeps its low 32 bits.
- SexValues.DivideBack: C leaves the least int divided by -1 undefined; the model keeps the low 32 bits.
- AutoKey.WrapsAtLargest: C leaves the increment of the largest int undefined; the model wraps around.
- Join.JoinSets: the descriptor of the joined set is not modelled.
- SortGroup.SortThenGroup: says only that keys are distinct; SortGroup.GroupHolds says what each record holds.
- RecCanonical.SuccessDespiteError: one text; the general statements are in RecUnfinished.
- RecUnfinished.FalseSuccessBreaksOff: the text from some place on is an unfinished field; that the parser starts a field at that place is not part of the condition.
- Sex.Selection.EvalNode: integers that overflow keep their low 32 bits where C leaves them undefined, real numbers are exact, and a variable that the source reads without setting (real subtraction, real operands of logical operators) has one arbitrary value for each operand.
- Fex.FieldExpression.ParseStr: does not keep the copies of the texts; the local buffer for a number is not bounded.
- AutoKey.CheckKeys: counts key errors only.
- Selection expressions start from syntax trees: their lexer and grammar are not part of this model, nor is the negation node, which falls through to addition. Fixed values are kept in a map by the identity of name nodes instead of in the nodes.
- Dates, UUIDs, regular expressions of users, case folding and `strtod` are parameters; the random source and the allocator are nondeterministic.
- Sets given to grouping, joining and the key check are sequences of records, as the record iterator visits them; comments between records play no part there.
- Allocation failure other than in the growth of the CSV buffer, freeing, and aliasing between records.
- File input and seeking in the rec parser, and the other modes and flags of the writer.
- CSV_APPEND_NULL, the setter functions of libcsv, and a null source in the CSV writers.
- The simple and CSV forms of field expressions, and their sorting.
- The set and add actions on fields, renaming in descriptors, aggregates, encryption, remote descriptors, the checks of types, sizes and other descriptor fields.
- The command line tools other than the row loop of rec2csv, and the bindings.

# MinifySME mapping codec, modelled in Dafny

MinifySME rewrites the sprite mapping and DPLC files of a Motorola 68000 disassembly. It
parses a *source* file and a *target* file written in assembler syntax and prints the
source's records again under the target's offset table. While parsing, records with
identical contents are merged, so one record can carry several labels.

A mapping file starts in **table mode**. There, `dc.w label-table` lines build the offset
table. The first column-0 label that the offset table names switches the parser, once and
for good, to **data mode**. From then on every `dc.b`/`dc.w` directive starts a record:
- a header word `n`;
- then `n * entrySize` more words, read across as many lines as needed;
- in `dc.b` lines, each word is a pair of bytes, high byte first.

Each record is filed under its contents, together with the labels declared since the
previous record. For the first record, these are the labels declared since the switch to
data mode, because the switch clears the pending labels: labels declared in table mode,
such as the name of a table, belong to no record. A label that already belongs to a record may not be declared again. The
statement `even` ends the file.

Serializing writes three things in order:
1. The target's offset table, with a `name:` line before each table except the first.
2. The records, ordered by the positions of their labels in the offset table. These
   positions are optionally transposed when the tables are interleaved.
3. For each record: its labels, sorted; its header word; then its payload, either six
   bytes per `dc.b` line or one word per `dc.w` line.

The model has one module per part of `Program.cs`:

| file | module | models |
|---|---|---|
| `results.dfy` | `Results` | the failure outcome that stands for every exception |
| `text.dfy` | `Text` | `Trim`, `TrimStart`, `TrimEnd`, `Split`, `Join`, `PadLeft`, ordinal string order |
| `words.dfy` | `Words` | `(short)`/`(byte)`/`int` casts, `WordToBytes`, byte pairs |
| `literals.dfy` | `Literals` | `ParseOperandValue`, both `SerializeOperandValue` |
| `lexer.dfy` | `Lexer` | `StripComments`, `ParseOperandSize`, `GetOperandEnumerator`, how Parse classifies a line |
| `record_reader.dfy` | `RecordReader`, `Records` | `ParseWords`, and the header-plus-payload read of a record |
| `comparer.dfy` | `Comparer` | `DefinitionComparer` |
| `sorting.dfy` | `Sorting` | `OrderBy` (a stable sort) and `ToImmutableSortedSet` |
| `parser.dfy` | `Parser` | `Parse` |
| `linearizer.dfy` | `Linearizer` | `SortDefinitions` |
| `serializer.dfy` | `Serializer` | `Serialize` |

How the source's state and effects are represented:
- The file is a `seq<string>` of lines plus a position. The operand enumerator is a cursor
  into the line's operand tokens.
- Every exception becomes `Fail`.
- Each label `HashSet` is a duplicate-free sequence. The definitions `Dictionary` is an
  association list in insertion order, which is the order in which a `Dictionary` that
  nothing is removed from enumerates its entries.
- The `StringBuilder` is the sequence of lines appended to it.
- `SortDefinitions` positions come from the source's offset table (`Program.cs:60`, `Program.cs:275`) and then index the target's table (`Program.cs:64`).
- A byte operand is padded on the left to four characters (`PadLeft(4)`).

The `for`, `foreach` and `while` loops of `Parse` (the line loop and the table-mode operand
loop), `ParseWords`, `Equals`, `GetHashCode` and `Serialize` are each a `method` proved
equal to a reference function. The properties are then proved about those functions. The
label merge at `Program.cs:177`, the `Any` searches of `Parse` and the LINQ chains of
`SortDefinitions` and `Serialize` are modelled by recursive or comprehension functions
(`AddLabels`, `Placements`, `SortBy`, `LabelsAt`, `SortedSet`), as they compute values without a
loop variable.

## Model

| member | source | states |
|---|---|---|
| Lexer.StripComments | Program.cs:187-190 | the result is a prefix of the line that contains no `;`; where it is shorter than the line, the next character is the `;` it was cut at |
| Lexer.ParseOperandSize | Program.cs:239-244 | `dc.b` gives byte size, `dc.w` gives word size, and any other token fails |
| Lexer.GetOperandEnumerator | Program.cs:192-200 | succeeds exactly when the line has white space and the text before it is `dc.b` or `dc.w`; the size flag is byte exactly for `dc.b` |
| Lexer.OperandTokens | Program.cs:194-197 | the operands are the comma-separated fields after the first white space, one per field, each trimmed |
| Lexer.DirectiveLexes | Program.cs:192-200 | a tab-indented `dc.b`/`dc.w` line whose operands hold no `,` or `;` and end in a visible character is classified as that statement, and its operand split gives the size and the operands trimmed |
| Lexer.ClassifyLine | Program.cs:104-116 | a line blank once its comment is stripped is skipped; a line starting in column 0 declares the label before its first `:` with the text after it; any other line is a trimmed, non-blank statement |
| Text.After | Program.cs:115-128 | `Split(':', 2)[1]` exists exactly when the separator occurs, and the line is the part before it, the separator and the part after |
| Text.JoinSplit | Program.cs:196-197 | splitting at a character gives fields that do not contain it and that join back into the original string |
| Text.TrimPadLeft | Program.cs:255 | trimming a `PadLeft` of a token without outer white space gives the token back |
| Words.CastsAreTruncations | Program.cs:214 | `(short)`, `(byte)` and the unchecked 32-bit product keep the value modulo 2^16, 2^8 and 2^32 |
| Words.WordBytesRoundTrip | Program.cs:264-269 | recombining a word's high and low byte as `(short)(hi << 8 \| lo)` gives the word back, negative words included |
| Words.BytesWordRoundTrip | Program.cs:217 | splitting a packed pair gives the two bytes back, high first |
| Words.WordBytesPattern | Program.cs:264-269 | the two bytes, high byte first, spell the word's 16-bit two's complement pattern |
| Words.CombineBytesPattern | Program.cs:217 | the packed word has the pattern `hi * 256 + lo`, and is negative exactly when the high byte is 0x80 or more |
| Words.PairUpCounts | Program.cs:212-220 | every byte read is either in a completed word, two per word, or pending |
| Words.PairUpAppend | Program.cs:212-220 | pairing up bytes read in two runs, the second starting with what the first left pending, gives the same words as pairing them in one run |
| Words.PairUpWordsToBytes | Program.cs:74 | pairing up the bytes of `SelectMany(WordToBytes)` gives the words back |
| Literals.ShortDecimalEqualsHex | Program.cs:258-262 | a word's decimal and hex texts agree exactly for 0 to 9, so only those print without `$` |
| Literals.ByteDecimalEqualsHex | Program.cs:252-256 | a byte's decimal and hex texts agree exactly for 0 to 9 |
| Literals.ParseDecimal | Program.cs:248 | a success is an optional sign followed by decimal digits, and its value is the digits' value, negated after `-` |
| Literals.ParseHex | Program.cs:249 | succeeds exactly on hex digits worth less than 2^32; the value is the 32-bit two's complement reading |
| Literals.DecimalLiteral | Program.cs:246-248 | an optional sign and a non-empty run of decimal digits parse exactly when the signed value fits in an `int`, and then to that value |
| Literals.HexLiteral | Program.cs:246-249 | `$` and hex digits parse exactly when the digits are worth less than 2^32, and then to a value equal to that worth modulo 2^32 |
| Literals.ShortTextCases | Program.cs:258-262 | a word from 0 to 9 prints as its digit; any other word prints as `$` and its hex digits |
| Literals.ByteTextCases | Program.cs:252-256 | a byte from 0 to 9 prints as its digit, any other as `$` and its hex digits, padded on the left to four characters |
| Literals.ShortLiteralRoundTrip | Program.cs:258-262 | every word printed and parsed back through the `(short)` cast is the same word |
| Literals.ByteLiteralRoundTrip | Program.cs:252-256 | every padded byte, trimmed, parsed back and cast with `(byte)`, is the same byte |
| RecordReader.ReadWords | Program.cs:208-236 | a success holds exactly `count` words that extend the words already gathered, and its cursor never moves back |
| RecordReader.WordsWithinLine | Program.cs:223-231 | in a `dc.w` line that still holds the k operands wanted, the read returns the `(short)` casts of exactly those k values and leaves the cursor right after the last of them |
| RecordReader.WordsAcrossLine | Program.cs:223-235 | a `dc.w` line with fewer operands than wanted adds all of them as words and goes on from the end of the line |
| RecordReader.BytesWithinLine | Program.cs:210-221 | in a `dc.b` line that holds the bytes still wanted, the read returns the pending byte and the `(byte)` casts paired high byte first, and leaves the cursor right after the byte that completes the last word |
| RecordReader.BytesAcrossLine | Program.cs:210-235 | a `dc.b` line with too few operands pairs up all of them and carries the odd byte, if any, to the next line |
| RecordReader.BytesSpanTwoLines | Program.cs:210-235 | bytes read from two `dc.b` lines give the pairs of the bytes of both lines in order, a pair split between the lines included, and the cursor stops in the second line right after the last byte wanted |
| RecordReader.ReadWordsFails | Program.cs:225-234 | a `dc.w` line reached while one byte of a pair is pending fails, and so does running out of lines |
| RecordReader.CountReachedFails | Program.cs:215-230 | with `count` words already gathered the read never succeeds, because the count is tested only after a word is added; so asking for zero words fails |
| RecordReader.PackBytes | Program.cs:210-221 | the byte loop either finishes the read as `ReadWords` would, or consumes the line and leaves a state from which `ReadWords` gives the same outcome |
| RecordReader.TakeWords | Program.cs:223-231 | the same for the word loop |
| RecordReader.ParseWords | Program.cs:202-237 | equals `ReadWords` from an empty start; a negative count (the list capacity) fails |
| Records.ReadRecord | Program.cs:164-168 | a record read successfully has the shape `1 + key[0] * entrySize` words, with the product non-negative |
| Records.ReadRecordFrom | Program.cs:164-168 | the two `ParseWords` calls compute `ReadRecord`; the operands left over after the second call are dropped |
| Comparer.Equals | Program.cs:292-307 | true exactly when the lengths agree and the words agree index by index, that is, when the lists are equal |
| Comparer.GetHashCode | Program.cs:309-324 | returns the XOR fold `Hash` of the words' sign-extended patterns, alternating between the low and high halves |
| Comparer.FoldHash | Program.cs:314-323 | the `acc`/`high` loop computes the fold |
| Comparer.HashOfEmpty | Program.cs:309-324 | the empty list hashes to 0 |
| Comparer.HashConsistent | Program.cs:290-325 | lists that `Equals` calls equal have the same hash |
| Comparer.HashCollides | Program.cs:317-321 | distinct lists can share a hash (`[1, 0, 1]` and `[0, 0, 0]`), so the dictionary depends on `Equals` |
| Comparer.HashSnoc | Program.cs:309-324 | one more word XORs one more term onto the hash: the sign-extended word at an even position, the word shifted into the high half at an odd one |
| Sorting.SortBy | Program.cs:283 | `OrderBy` returns its input permuted and ascending by the key |
| Sorting.SortByStable | Program.cs:283-286 | `OrderBy` is stable: the elements with any one key come out in their input order |
| Sorting.SortedSet | Program.cs:64-65 | `ToImmutableSortedSet` returns strictly ascending strings with the same members as its input |
| Parser.AddLabel | Program.cs:127 | adds one member, and keeps the set free of duplicates |
| Parser.AddLabels | Program.cs:177 | the union of two label sets, free of duplicates |
| Parser.EntryOf | Program.cs:145-147 | succeeds exactly when the operand contains `-`; the operand is then `label-table`, with no `-` in the label |
| Parser.AddEntry | Program.cs:149-159 | appends the operand's entry unless the operand has no `-` or the duplicate rule rejects it; the main table stays the first entry's table, and the duplicate rule keeps holding |
| Parser.AddEntriesInOrder | Program.cs:143-160 | a table-mode line keeps the existing table as a prefix and appends its operands' entries, in operand order |
| Parser.AddEntriesAliasOnly | Program.cs:153-157 | across a whole line, every repeated entry lies outside the main table and carries the first entry's label |
| Parser.AddTableEntries | Program.cs:143-160 | the operand loop computes `AddEntries` |
| Parser.FindFrom | Program.cs:170 | `TryGetValue`: the index of the record with equal words, or -1 when there is none |
| Parser.Slot | Program.cs:170 | the record a key is filed under: the one with equal words, or a new last one exactly when no record has those words |
| Parser.File | Program.cs:170-179 | a new key adds one record that owns exactly the pending labels; an existing key merges the pending labels into the one record with those words and changes no other record; no record's words change, and the labels owned afterwards are the old ones plus the pending ones |
| Parser.Declare | Program.cs:115-127 | fails exactly when a record owns the label; otherwise it leaves table mode exactly when the offset table names the label, and then clears the pending labels before adding this one |
| Parser.TableDirective | Program.cs:139-161 | a table-mode statement moves to the next line, keeps the main table anchored and stays in table mode |
| Parser.DataDirective | Program.cs:162-180 | a data-mode statement moves past the lines of its record and changes only the records and the pending labels |
| Parser.Statement | Program.cs:134-180 | a statement either ends the parse or moves forward within the file, and never changes the mode |
| Parser.LabelLine | Program.cs:113-132 | a label line moves forward, and its mode after is table mode exactly when it was in table mode and the label is not in the offset table |
| Parser.Step | Program.cs:102-182 | one pass of the loop moves forward within the file and keeps the main table anchored |
| Parser.FileValid | Program.cs:170-179 | filing a record of the right shape with unowned pending labels keeps every record well formed, distinct by contents and disjoint in labels |
| Parser.DeclareValid | Program.cs:118-127 | declaring a label keeps the loop invariant |
| Parser.StatementValid | Program.cs:134-180 | a statement keeps the loop invariant |
| Parser.StepValid | Program.cs:102-182 | one pass of the loop keeps the loop invariant |
| Parser.RunWellFormed | Program.cs:102-184 | from a state satisfying the invariant, a successful parse returns well-formed records and an offset table obeying the duplicate rule |
| Parser.ParsedWellFormed | Program.cs:92-185 | every successful parse has disjoint label sets, distinct keys of the record shape, and the duplicate rule |
| Parser.RunStopsAtEven | Program.cs:134-135 | an `even` statement ends the parse with the state as it is, whatever follows |
| Parser.RunSkipsBlank | Program.cs:104-111 | a blank or comment-only line changes nothing |
| Parser.ModeChange | Program.cs:121-125 | table mode is left exactly on a column-0 label that the offset table names, and data mode is never left |
| Parser.RedeclaredLabelFails | Program.cs:118-119 | declaring a label that a record already owns fails |
| Parser.EvenIsNoDirective | Program.cs:134-137 | `even` is not a directive, so it must be tested before the operand split |
| Parser.ByteTableFails | Program.cs:141 | a `dc.b` statement in table mode fails |
| Parser.RecordTakesLabels | Program.cs:164-179 | after a data-mode record the pending set is empty, the record read is filed, and the pending labels now belong to the record whose words were just read; at most one record was added |
| Parser.Parse | Program.cs:92-185 | the line loop computes `Parsed`, and a success is well formed |
| Parser.Pass | Program.cs:102-182 | one turn of the loop computes `Step` |
| Parser.Label | Program.cs:113-132 | the label branch computes `LabelLine` |
| Parser.Execute | Program.cs:134-180 | the statement branch computes `Statement` |
| Linearizer.QuotRemNatural | Program.cs:281 | for a non-negative index and a positive divisor, C#'s `/` and `%` agree with Euclidean division |
| Linearizer.QuotTruncates | Program.cs:281 | for a negative index (a label missing from the table gives -1), C#'s division truncates toward zero |
| Linearizer.QuotNegative | Program.cs:281 | for a negative index and a positive divisor, C#'s `/` and `%` divide the magnitudes and negate both results, so the remainder lies in `(-b, 0]` |
| Linearizer.PositionOfMissing | Program.cs:280-281 | a label missing from the table (index -1) is placed at -1, or at `-numSprites` when interleaved with more than one table |
| Linearizer.IndexOfFrom | Program.cs:280 | `IndexOf` returns the first position holding the label, or -1 when no position does |
| Linearizer.Place | Program.cs:278-284 | a record's entry keeps its words and holds its labels' positions, ascending and as a permutation |
| Linearizer.PlacementsLabelled | Program.cs:278-286 | when every record has a label, every entry has a first index and ascending indices |
| Linearizer.SortDefinitions | Program.cs:271-287 | fails exactly when `numTables` is zero or a record has no label; otherwise there is one entry per definition, ascending by first index, and each entry's indices are ascending |
| Linearizer.SortDefinitionsPermutes | Program.cs:277-286 | the entries are a permutation of the records' placements |
| Linearizer.SortDefinitionsStable | Program.cs:286 | records with equal first indices keep their dictionary order, among them the records whose labels are all missing from the table |
| Linearizer.FirstIndexIsLeast | Program.cs:286 | an entry's first index is the least of its indices |
| Linearizer.RowColumn | Program.cs:281 | inside a full table, the row and column of an index are in range and recompose the index |
| Linearizer.TransposeInRange | Program.cs:281 | the interleave transform maps `0 <= i < numTables * numSprites` back into that range |
| Linearizer.TransposeInjective | Program.cs:281 | the interleave transform sends distinct indices to distinct places |
| Linearizer.TransposeExample | Program.cs:281 | with 2 tables of 3 entries, index 4 goes to 2 and index 5 stays at 5 |
| Serializer.OffsetWords | Program.cs:49-58 | the `dc.w` operands of the offset lines are `label-table` for each entry, in table order |
| Serializer.OffsetTables | Program.cs:49-55 | the label lines of the offset section name exactly the tables not seen before, in the order they are added to `tables` |
| Serializer.OffsetNoBytes | Program.cs:49-58 | the offset section holds no `dc.b` line |
| Serializer.OffsetSection | Program.cs:49-58 | the offset lines hold one `label-table` operand per entry, in table order, declare exactly the tables not yet seen, and contain no `dc.b` |
| Serializer.TablesDistinct | Program.cs:47-55 | the `tables` list has no repeats, and holds exactly the first table and every entry's table |
| Serializer.DocumentOffsets | Program.cs:44-58 | the output starts with the offset section, one `dc.w` per target entry in order, and a label line for each table after the first, each table once |
| Serializer.LabelsAt | Program.cs:64 | looking up labels succeeds exactly when every index lies within the target table, and gives the target label at each index |
| Serializer.RecordHead | Program.cs:64-70 | a record's output opens with its target labels, strictly ascending and without repeats, followed by the header word |
| Serializer.RecordLinesOk | Program.cs:64-70 | a record can be written exactly when it has a header word and all its indices fall within the target table |
| Serializer.RecordsFromOk | Program.cs:62-87 | the record loop succeeds exactly when every record can be written |
| Serializer.JoinedOk | Program.cs:62-87 | the records' lines joined in order succeed exactly when every record's lines do |
| Serializer.DocumentOk | Program.cs:44-90 | Serialize succeeds exactly when the target's offset table is non-empty, every source record has a label, and every placed record can be written |
| Serializer.ByteChunksCount | Program.cs:75-80 | n bytes take ceil(n / 6) `dc.b` lines |
| Serializer.ByteChunksWidth | Program.cs:77 | each `dc.b` line holds between one and six operands |
| Serializer.ByteChunksOperands | Program.cs:74-80 | taken together, the `dc.b` operands are the bytes' texts, in order |
| Serializer.PayloadLength | Program.cs:72-86 | a payload of m words takes ceil(2m / 6) `dc.b` lines in byte mode and m `dc.w` lines otherwise |
| Serializer.BytePayloadReadsBack | Program.cs:72-80 | every `dc.b` operand parses back to its byte, the bytes are the words high byte first, and pairing them gives the words back |
| Serializer.WordPayloadReadsBack | Program.cs:84-85 | each `dc.w` payload line parses back to its word |
| Serializer.WordLineReadsBack | Program.cs:84-85 | a `dc.w` line as written is read by Parse as a one-operand word directive whose operand parses back to the word |
| Serializer.ByteLineReadsBack | Program.cs:77-78 | a `dc.b` line as written is read by Parse as a byte directive with one operand per byte, each parsing back to its byte |
| Serializer.Serialize | Program.cs:44-90 | the lines appended to the builder are `Document` |
| Serializer.WriteOffsets | Program.cs:47-58 | the offset loop writes the offset lines and leaves the `tables` list |
| Serializer.WriteRecords | Program.cs:62-87 | the record loop writes every record's lines in order, or fails |
| Serializer.WriteRecord | Program.cs:64-86 | one record's lines: its labels, the header, the payload |
| Serializer.WriteWords | Program.cs:84-85 | one `dc.w` line per payload word |
| Serializer.WriteBytes | Program.cs:74-80 | the `dc.b` loop writes the byte chunks |

## Left out

- `Main` and all file I/O are left out: the paths, `File.Exists`, `File.OpenText` and `File.WriteAllText`. The reader is a sequence of lines, and the output is the sequence of lines the builder receives.
- Line terminators are not modelled: each line is a separate string, where `AppendLine` ends each with the platform's newline.
- Text.StrLess: ordinal order on character codes. `ToImmutableSortedSet` uses the culture's default comparer, whose order can differ.
- White space is the ASCII space, tab, line feed, vertical tab, form feed and carriage return. Other Unicode white space is not recognised by `Trim`, `Split(null, 2)` or `IsNullOrWhiteSpace`.
- `int.Parse` ignores culture: ASCII digits, an optional `+` or `-`, and the 32-bit range only.
- Exception types and messages are not distinguished. Each is the one failure outcome.
- Comparer.GetHashCode: returns the hash as its 32-bit pattern (`bv32`), not as a signed `int`. The `ReferenceEquals` shortcut in `Equals` is folded into element-wise equality, which gives the same answer.
- Identity of label sets is not modelled. The sets handed to the dictionary are never shared in the source, so sets are modelled as values.
- The lists a `Parse` needs are unbounded. The `OutOfMemoryException` of a huge list capacity is not modelled. A negative capacity is, as a failure.


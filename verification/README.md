# hyperscan-java, the Java layer, in Dafny

A model of the deterministic Java layer of hyperscan-java, the JVM wrapper
around the Hyperscan regular-expression engine, with proofs about it. The
native engine is not modelled. Every engine call the wrapper makes becomes
a function parameter: compile, scratch allocation, scan, serialize,
deserialize, expression validation and size queries. The model covers:

- **Strings and bytes.**
  - Java strings are sequences of UTF-16 code units, which may be ill-formed (`Expressions`).
  - UTF-8 follows section 3 of RFC 3629, and surrogate pairs follow section 2.2 of RFC 2781.
  - `String.getBytes(UTF_8)` writes `'?'` for every unpaired surrogate (`Unicode`).
- **The single-pass encoder and its mapping.**
  - `Utf8Encoder.encodeToBufferAndMap` writes a string's UTF-8 bytes and, for each byte, the index of the char it came from (`Utf8Encoder`).
  - The mapping is stored in a byte, short or int array, whichever is narrowest (`ByteCharMapping`).
- **The position table.** `Utf8.byteToStringPositionMap` turns match offsets back into char positions (`Utf8Positions`).
- **Flags and ids.**
  - `Util.bitEnumSetToInt` and the status-to-exception table (`Util`).
  - The id policy of `NativeExpressionCollection` (`NativeExpressions`).
  - The Java-pattern-to-expression flag policy (`ExpressionUtil`).
- **The database.**
  - Compilation and compile-error attribution, `getExpression`, `getSize` and `close`.
  - The save/load stream format, built from `DataOutputStream.writeInt`/`writeUTF` and their readers (`DataStreams`, `Databases`).
- **The scanner.** Its scratch lifecycle, and the translation of the engine's `(id, from, to)` byte-offset tuples into `Match` values (`Scanners`).
- **The prefilters.**
  - `PatternFilter` (`PatternFilters`).
  - `ScopedPatternFilterImpl` with its close-once core (`ScopedFilters`).
  - `ScopedPatternFilterFactory` with its proxies, modelled as a sequential state machine whose threads are abstract keys (`FilterFactories`).

The headline properties:

- `load(save(db))` gives back every pattern and flag set in order, and the engine's database rebuilt from the saved blob.
- The encoder writes exactly `getBytes(UTF_8)` on well-formed strings, and those bytes decode back to the string.
- Each scan returns one match per reported tuple, in report order.
- A filter's result is the matched candidates in match order, followed by every candidate the engine could not take.
- A scoped filter's resources are released at most once.
- The factory's `get` hands each key one filter of its own. `close` closes every filter the factory made.

Three places where the code does not do what it evidently means are listed under "## Findings". For each, the model keeps the code as written next to a corrected version.

Three behaviours of the code worth knowing before reading the model:

- **Save format.** `save` writes no per-expression id, so loaded expressions have no id.
- **High surrogate before a char that is not a low surrogate.** The encoder writes `'?'` and then the low byte of the second char, consuming both.
- **Duplicate ids.** Nothing in the Java layer checks for duplicate ids, so the model has no such check.

The scanner and the filters built on it take a `Utf8Encoder.Variant`. `AsWritten` is the code; `Corrected` is the evidently intended behaviour. Every lemma about the filters holds for both.

## Model

| member | source | states |
|---|---|---|
| Util.BitEnumSetToInt | src/main/java/com/gliwka/hyperscan/wrapper/Util.java:7-19 | fails with InvalidParameterException exactly when some element is not an engine flag; otherwise the OR of every element's bits, and 0 for the empty set |
| Util.OrAllUpperBound | src/main/java/com/gliwka/hyperscan/wrapper/Util.java:9-12 | every flag's bits are set in the accumulated word |
| Util.OrAllLeast | src/main/java/com/gliwka/hyperscan/wrapper/Util.java:9-12 | the accumulated word sets no bit outside any word that covers every flag's bits (it is the least such word) |
| Util.OrderIndependent | src/main/java/com/gliwka/hyperscan/wrapper/Util.java:9-12 | two flag sequences with the same members, in any order and with any repetition, give the same word |
| Util.HsErrorIntToException | src/main/java/com/gliwka/hyperscan/wrapper/Util.java:21-28 | status -1, -2 and -11 give InvalidParameterException, OutOfMemoryError and UnsupportedOperationException, each exactly for that status; every other status gives the generic exception |
| ByteCharMapping.Create | src/main/java/com/gliwka/hyperscan/wrapper/mapping/ByteCharMapping.java:40-52 | a negative maximum index throws IllegalArgumentException, a negative buffer size fails the array creation; otherwise a zeroed table of exactly `bufferSize` cells whose width holds the maximum index while no narrower width does |
| ByteCharMapping.SetCharIndex | src/main/java/com/gliwka/hyperscan/wrapper/mapping/ByteMapping.java:15-21 | a value outside what the width stores (0..255, 0..65535, non-negative int) throws IllegalArgumentException before the byte index is checked; otherwise exactly the addressed cell changes, and reading it back gives the value stored |
| ByteCharMapping.GetCharIndex | src/main/java/com/gliwka/hyperscan/wrapper/mapping/ShortMapping.java:24-27 | succeeds exactly for a byte index inside the table, with the stored value read as unsigned |
| ByteCharMapping.Cell | src/main/java/com/gliwka/hyperscan/wrapper/mapping/ByteMapping.java:24-27 | a cell read as unsigned lies within what its width can store |
| Utf8Encoder.StepAt | src/main/java/com/gliwka/hyperscan/wrapper/Utf8Encoder.java:52-102 | one pass of the loop writes one to four bytes with one char index each, consumes one or two chars, and records only indexes of the chars it consumed, in ascending order |
| Utf8Encoder.Encode | src/main/java/com/gliwka/hyperscan/wrapper/Utf8Encoder.java:49-103 | one char index per byte written, each a position of the string, in ascending order |
| Utf8Encoder.AsciiIdentity | src/main/java/com/gliwka/hyperscan/wrapper/Utf8Encoder.java:53-55 | an all-ASCII string is copied byte for byte and byte `k` maps to char `k` |
| Utf8Encoder.StepIsUtf8 | src/main/java/com/gliwka/hyperscan/wrapper/Utf8Encoder.java:56-101 | a non-surrogate char writes its RFC 3629 form and consumes one char; a surrogate pair writes the four-byte form of its code point and consumes two |
| Utf8Encoder.EncodeMatchesJdk | src/main/java/com/gliwka/hyperscan/wrapper/Utf8Encoder.java:46-108 | on a well-formed string the bytes written are exactly `getBytes(UTF_8)`, and they decode back to the string |
| Utf8Encoder.AsWrittenBreaksUtf8 | src/main/java/com/gliwka/hyperscan/wrapper/Utf8Encoder.java:77-81 | as written, `"\uD800é"` is encoded as `'?'` followed by the bare byte `0xE9`, which is not UTF-8 and differs from what the JDK writes |
| Utf8Encoder.CorrectedMatchesJdk | src/main/java/com/gliwka/hyperscan/wrapper/Utf8Encoder.java:77-81 | corrected, the encoder writes exactly `getBytes(UTF_8)` for every string, well-formed or not |
| Utf8Encoder.PutAll | src/main/java/com/gliwka/hyperscan/wrapper/Utf8Encoder.java:57-60 | each `setCharIndex(writerIndex++, i)` / `put` pair records the char index at the next free cell and appends the byte; running past the table's end throws an index exception |
| Utf8Encoder.EncodeToBufferAndMap | src/main/java/com/gliwka/hyperscan/wrapper/Utf8Encoder.java:46-108 | succeeds exactly when the encoding fits the buffer's capacity; the buffer then holds the encoding, the mapping has one cell per unit of capacity, byte `k` maps to the char it came from, and the cells past the bytes written stay 0 |
| Utf8Positions.CodePointAt | src/main/java/com/gliwka/hyperscan/wrapper/Utf8.java:11 | `codePointAt` gives a supplementary code point exactly at a surrogate pair |
| Utf8Positions.Fill | src/main/java/com/gliwka/hyperscan/wrapper/Utf8.java:21 | `Arrays.fill` sets exactly the cells of its range and leaves every other cell as it was |
| Utf8Positions.RunsFrom | src/main/java/com/gliwka/hyperscan/wrapper/Utf8.java:10-28 | the runs laid end to end hold only string positions, in ascending order |
| Utf8Positions.ByteToStringPositionMap | src/main/java/com/gliwka/hyperscan/wrapper/Utf8.java:6-31 | succeeds exactly when the runs fit in `bytesLength` cells, and throws an index exception otherwise; the table has `bytesLength` cells, starts with each code point's starting index repeated once per byte of its width, and is 0 after that |
| Utf8Positions.NoLoneIffWellFormed | src/main/java/com/gliwka/hyperscan/wrapper/Utf8.java:10-28 | the code-point walk of the loop meets an unpaired surrogate exactly when the string is ill-formed |
| Utf8Positions.RunsLengthFrom | src/main/java/com/gliwka/hyperscan/wrapper/Utf8.java:15-23 | sized by code point, the runs are never shorter than the JDK's bytes, and are exactly as long when no unpaired surrogate is met; sized by bytes written, always exactly as long |
| Utf8Positions.CodePointTableFitsIffWellFormed | src/main/java/com/gliwka/hyperscan/wrapper/Utf8.java:15-21 | as written, the table over `getBytes(UTF_8)` fits exactly when the string is well-formed, and then both sizings give the same table |
| Utf8Positions.WrittenTableFits | src/main/java/com/gliwka/hyperscan/wrapper/Utf8.java:15-21 | sized by bytes written, the runs always fill the table exactly |
| Utf8Positions.LoneSurrogateOverruns | src/main/java/com/gliwka/hyperscan/wrapper/Utf8.java:15-21 | `"é\uD800"` has three UTF-8 bytes but five cells of runs when sized by code point |
| Utf8Positions.EncoderAgreesWithTable | src/main/java/com/gliwka/hyperscan/wrapper/Utf8Encoder.java:85-92 | for every string, the corrected encoder's mapping and the table sized by bytes written have the same length and agree at every byte, except exactly the last two bytes of each surrogate pair, which map to the low surrogate where the table has the high one |
| Utf8Positions.VariantsAgreeFrom | src/main/java/com/gliwka/hyperscan/wrapper/Utf8Encoder.java:62-92 | on a well-formed string the encoder as written and corrected write the same bytes and the same char indexes |
| Utf8Positions.AsWrittenEncoderAgreesWithTable | src/main/java/com/gliwka/hyperscan/wrapper/Utf8.java:10-28 | as written, on a well-formed string, the encoder's mapping and the code-point-sized table the scanner builds agree in the same way; on an ill-formed string that table does not build (see CodePointTableFitsIffWellFormed) |
| Unicode.Utf8Bytes | src/main/java/com/gliwka/hyperscan/wrapper/Utf8.java:15-18 | a code point takes one byte up to 0x7F, two up to 0x7FF, four from 0x10000 and three otherwise, and every byte after the first is a continuation byte |
| Unicode.PairRoundTrip | src/main/java/com/gliwka/hyperscan/wrapper/Utf8Encoder.java:83 | a surrogate pair is the UTF-16 form of the code point `toCodePoint` combines it to |
| Unicode.DecodeFirstOfEncoded | src/main/java/com/gliwka/hyperscan/wrapper/Utf8Encoder.java:83-92 | the bytes written for a code point decode back to that code point and consume exactly those bytes |
| Unicode.JdkBytesRoundTrip | src/main/java/com/gliwka/hyperscan/wrapper/Scanner.java:126 | the bytes `scan` hands the engine for a well-formed string decode back to that string |
| DataStreams.WriteInt | src/main/java/com/gliwka/hyperscan/wrapper/Database.java:165 | `writeInt` writes four bytes |
| DataStreams.ReadInt | src/main/java/com/gliwka/hyperscan/wrapper/Database.java:247 | `readInt` succeeds exactly when four bytes are left, consumes exactly them, and fails with EOFException otherwise |
| DataStreams.IntRoundTrip | src/main/java/com/gliwka/hyperscan/wrapper/Database.java:247 | reading an int back gives the int written and leaves the bytes that follow |
| DataStreams.WriteUtf | src/main/java/com/gliwka/hyperscan/wrapper/Database.java:168 | `writeUTF` succeeds exactly when the modified UTF-8 body is at most 65535 bytes, and then writes a two-byte length and the body; otherwise it throws UTFDataFormatException |
| DataStreams.ReadUtf | src/main/java/com/gliwka/hyperscan/wrapper/Database.java:255 | `readUTF` fails with EOFException when fewer than two bytes are left, and otherwise only with EOFException or UTFDataFormatException; on success it consumes the length and the body |
| DataStreams.ModifiedUtf8RoundTrip | src/main/java/com/gliwka/hyperscan/wrapper/Database.java:168 | the modified UTF-8 of any string, unpaired surrogates included, decodes back to it |
| DataStreams.UtfRoundTrip | src/main/java/com/gliwka/hyperscan/wrapper/Database.java:255 | `readUTF` returns exactly the string `writeUTF` wrote and leaves what follows |
| Expressions.FlagOfBits | src/main/java/com/gliwka/hyperscan/wrapper/Database.java:251-252 | the lookup gives the flag with exactly those bits, and nothing when no flag has them |
| Expressions.BitsInjective | src/main/java/com/gliwka/hyperscan/wrapper/Database.java:251-252 | no two flags share a bit pattern, so the lookup map has one key per flag |
| Expressions.FlagsInOrder | src/main/java/com/gliwka/hyperscan/wrapper/Database.java:170-175 | the flags of a set in `EnumSet` iteration order: each member once, in ordinal order, as many as the set's size |
| Databases.HandleErrors | src/main/java/com/gliwka/hyperscan/wrapper/Database.java:32-49 | status 0 is success; a compile error names the expression at the index the engine reports, or fails the list lookup when that index is outside the list; any other status goes through the status table |
| Databases.CompileRequestOf | src/main/java/com/gliwka/hyperscan/wrapper/Database.java:80-88 | the engine gets, in list order, each expression's pattern, its flag word and its position as id, in block mode |
| Databases.Compile | src/main/java/com/gliwka/hyperscan/wrapper/Database.java:77-99 | succeeds exactly when the engine reports success, and the database then keeps the given list; a failure is what the error handling makes of the engine's reply |
| Databases.CompileOne | src/main/java/com/gliwka/hyperscan/wrapper/Database.java:56-70 | succeeds exactly when the single-pattern engine call does, and the database holds just that expression |
| Databases.CompileErrorNamesInput | src/main/java/com/gliwka/hyperscan/wrapper/Database.java:36-39 | a compile error always carries one of the expressions that were compiled |
| Databases.CompiledIdsResolve | src/main/java/com/gliwka/hyperscan/wrapper/Database.java:84-88 | the id given to the engine for expression `k` looks up expression `k` again |
| Databases.CompileOneIsListOfOne | src/main/java/com/gliwka/hyperscan/wrapper/Database.java:56-70 | compiling one expression is compiling the list holding just it, when the engine treats both calls alike |
| Databases.GetExpression | src/main/java/com/gliwka/hyperscan/wrapper/Database.java:128-130 | succeeds exactly for an index inside the list, with an element of the list, and throws an index exception otherwise |
| Databases.GetSize | src/main/java/com/gliwka/hyperscan/wrapper/Database.java:110-118 | throws IllegalStateException exactly once the database has been freed; otherwise the engine's size |
| Databases.Close | src/main/java/com/gliwka/hyperscan/wrapper/Database.java:121-126 | close frees the handle it still holds and forgets it, keeping the expressions |
| Databases.CloseIdempotent | src/main/java/com/gliwka/hyperscan/wrapper/Database.java:137-139 | a second close frees nothing and changes nothing |
| Databases.FlagWord | src/main/java/com/gliwka/hyperscan/wrapper/Database.java:174 | the int written for a flag is its engine bits |
| Databases.ExpressionRecords | src/main/java/com/gliwka/hyperscan/wrapper/Database.java:166-176 | the record loop stops only on a pattern `writeUTF` refuses, with UTFDataFormatException |
| Databases.RecordsFail | src/main/java/com/gliwka/hyperscan/wrapper/Database.java:166-176 | the records are complete exactly when `writeUTF` accepts every pattern |
| Databases.Save | src/main/java/com/gliwka/hyperscan/wrapper/Database.java:162-205 | the expression stream starts with the count; the save completes exactly when every pattern is accepted and serialization succeeds, and the database stream is then the blob's length and the blob; a failed serialization throws through the status table |
| Databases.SaveToOne | src/main/java/com/gliwka/hyperscan/wrapper/Database.java:148-150 | `save(out)` throws UTFDataFormatException for a refused pattern and the status table's exception for a failed serialization, and succeeds exactly otherwise; its bytes start with the expression count and end with the blob's length and the blob |
| Databases.ReadFlags | src/main/java/com/gliwka/hyperscan/wrapper/Database.java:258-262 | a count of zero or less reads nothing; otherwise a missing word throws EOFException and a word naming no flag makes `EnumSet.add(null)` throw NullPointerException; a set read holds the flag the first word names; no other failure |
| Databases.ReadExpression | src/main/java/com/gliwka/hyperscan/wrapper/Database.java:255-263 | a record read gives an expression with no id and the context the callback makes from its pattern and flags |
| Databases.ReadExpressions | src/main/java/com/gliwka/hyperscan/wrapper/Database.java:254-264 | reading `n` records gives `n` expressions, none with an id |
| Databases.LoadExpressions | src/main/java/com/gliwka/hyperscan/wrapper/Database.java:247-264 | the expression part of `load` fails only with EOF, format, null-flag or negative-count errors, and gives expressions without ids |
| Databases.LoadDatabase | src/main/java/com/gliwka/hyperscan/wrapper/Database.java:266-275 | a missing length throws EOFException, a negative length NegativeArraySizeException, a stream shorter than the length EOFException; otherwise it succeeds exactly when the engine deserializes the blob, giving that database and leaving the bytes after the blob, and a failing status throws through the status table |
| Databases.Load | src/main/java/com/gliwka/hyperscan/wrapper/Database.java:242-278 | a loaded database holds a handle and expressions without ids |
| Databases.LoadFromOne | src/main/java/com/gliwka/hyperscan/wrapper/Database.java:215-217 | loading from one stream gives a database holding a handle |
| Databases.FlagOfBitsOfFlag | src/main/java/com/gliwka/hyperscan/wrapper/Database.java:251-252 | the bits written for a flag look that flag up again |
| Databases.FlagWordsRoundTrip | src/main/java/com/gliwka/hyperscan/wrapper/Database.java:258-261 | reading back the flag words written for a flag sequence gives its set of flags and leaves what follows |
| Databases.RecordRoundTrip | src/main/java/com/gliwka/hyperscan/wrapper/Database.java:255-263 | a saved record reads back as its pattern and flags, no id, and the callback's context |
| Databases.RecordsRoundTrip | src/main/java/com/gliwka/hyperscan/wrapper/Database.java:254-264 | the saved records read back as every expression reloaded, in order |
| Databases.SaveLayout | src/main/java/com/gliwka/hyperscan/wrapper/Database.java:165-198 | a complete save writes the count, the records, the blob's length and the blob, in that order |
| Databases.LoadDatabaseOfBlob | src/main/java/com/gliwka/hyperscan/wrapper/Database.java:266-277 | a length-prefixed blob the engine accepts loads as the engine's database and leaves what follows |
| Databases.LoadExpressionsOfRecords | src/main/java/com/gliwka/hyperscan/wrapper/Database.java:247-264 | the count and records of a save load as the reloaded expressions |
| Databases.SaveLoadRoundTrip | src/main/java/com/gliwka/hyperscan/wrapper/Database.java:215-217 | `load(in)` of what `save(out)` wrote restores every pattern and flag set in order, with the callback's contexts, and the database the engine rebuilds from the saved blob; what followed on the stream is left unread |
| NativeExpressions.Collect | src/main/java/com/gliwka/hyperscan/wrapper/NativeExpressionCollection.java:30-66 | a list mixing expressions with and without ids throws IllegalStateException, and nothing else does; otherwise one entry per expression in list order, with its flag word and either its own id or its position |
| NativeExpressions.PositionalIdsResolve | src/main/java/com/gliwka/hyperscan/wrapper/NativeExpressionCollection.java:58-60 | positional ids are distinct and each looks up its own expression |
| NativeExpressions.AgreesWithDatabaseCompile | src/main/java/com/gliwka/hyperscan/wrapper/NativeExpressionCollection.java:50-62 | without ids, the collection's arrays are exactly those the database compile hands the engine |
| NativeExpressions.GivenIdsPassThrough | src/main/java/com/gliwka/hyperscan/wrapper/NativeExpressionCollection.java:56-57 | with ids, the engine gets each expression's own id, in list order |
| ExpressionUtil.FlagsFor | src/main/java/com/gliwka/hyperscan/util/ExpressionUtil.java:17-29 | always UTF8, PREFILTER, ALLOWEMPTY and SINGLEMATCH; CASELESS, MULTILINE and DOTALL each exactly when the pattern has the corresponding Java flag; nothing else |
| ExpressionUtil.MapToExpression | src/main/java/com/gliwka/hyperscan/util/ExpressionUtil.java:16-38 | null exactly when validation refuses the pattern's text and flags; otherwise the expression with the pattern's text, its flags and the given id |
| ExpressionUtil.OnlyModeBitsMatter | src/main/java/com/gliwka/hyperscan/util/ExpressionUtil.java:19-29 | patterns with the same text that agree on the three mode bits map alike, whatever their other flags |
| ExpressionUtil.IdOnlyCarried | src/main/java/com/gliwka/hyperscan/util/ExpressionUtil.java:31-37 | the id changes only the expression's id, and never whether the pattern is accepted |
| Scanners.GetSize | src/main/java/com/gliwka/hyperscan/wrapper/Scanner.java:68-77 | throws IllegalStateException exactly once the scratch is released; otherwise the engine's scratch size |
| Scanners.AllocScratch | src/main/java/com/gliwka/hyperscan/wrapper/Scanner.java:84-96 | refused once released; otherwise the scanner keeps the scratch the engine leaves, and a non-zero status throws the engine's exception |
| Scanners.Close | src/main/java/com/gliwka/hyperscan/wrapper/Scanner.java:177-182 | close succeeds exactly while the scratch is held and releases it; on a closed scanner it throws NullPointerException |
| Scanners.PositionOf | src/main/java/com/gliwka/hyperscan/wrapper/Scanner.java:140-146 | on the fast path an offset is its own position; otherwise the table's entry, and an offset outside the table throws an index exception |
| Scanners.Substring | src/main/java/com/gliwka/hyperscan/wrapper/Scanner.java:163 | `substring(begin, end)` succeeds exactly for `0 <= begin <= end <= length`, with the chars in between |
| Scanners.MatchOf | src/main/java/com/gliwka/hyperscan/wrapper/Scanner.java:152-171 | a tuple becomes a match of the expression its id names; start and inclusive end are the positions of `from` and of the exclusive end raised to at least 1, minus one; the text is cut out only for start-of-match expressions; an empty input gives `(0, 0)`; every failure is an index exception |
| Scanners.ProcessMatches | src/main/java/com/gliwka/hyperscan/wrapper/Scanner.java:149-174 | one match per recorded tuple, in recorded order, succeeding exactly when every tuple translates |
| Scanners.PositionsFor | src/main/java/com/gliwka/hyperscan/wrapper/Scanner.java:139-146 | offsets pass through unchanged when the UTF-8 bytes are as many as the chars, and go through the position table otherwise |
| Scanners.Scan | src/main/java/com/gliwka/hyperscan/wrapper/Scanner.java:118-147 | refused once released; otherwise the recorded list becomes this scan's tuples, a non-zero status throws, no tuple gives the empty list, a failing position table throws its exception, and a successful result holds, at each index `k`, the match of the `k`-th reported tuple |
| Scanners.ScanForgetsRecorded | src/main/java/com/gliwka/hyperscan/wrapper/Scanner.java:125 | what an earlier scan recorded never changes a later scan |
| Scanners.ClosedScannerRefuses | src/main/java/com/gliwka/hyperscan/wrapper/Scanner.java:176-182 | after close, `getSize`, `allocScratch` and `scan` throw IllegalStateException and a second close throws NullPointerException |
| Scanners.FastPathIsTable | src/main/java/com/gliwka/hyperscan/wrapper/Scanner.java:139-142 | when the bytes are as many as the chars, the table would be the identity, so the fast path gives the same positions |
| Scanners.AsciiTakesFastPath | src/main/java/com/gliwka/hyperscan/wrapper/Scanner.java:139-141 | an ASCII string is its own UTF-8 and takes the fast path |
| Scanners.EmptyInputIsIdentity | src/main/java/com/gliwka/hyperscan/wrapper/Scanner.java:140 | an empty input takes the fast path |
| Scanners.AsWrittenPositionsFailIffIllFormed | src/main/java/com/gliwka/hyperscan/wrapper/Scanner.java:143-145 | as written, the table fails exactly for an ill-formed string off the fast path, with an index exception |
| Scanners.AsWrittenScanOverruns | src/main/java/com/gliwka/hyperscan/wrapper/Scanner.java:143-145 | as written, scanning `"é\uD800"` with any match reported throws |
| Scanners.CorrectedPositionsAlwaysBuild | src/main/java/com/gliwka/hyperscan/wrapper/Scanner.java:143-145 | corrected, the positions are always built |
| Scanners.AsWrittenEmptyInputThrows | src/main/java/com/gliwka/hyperscan/wrapper/Scanner.java:155-164 | as written, a start-of-match expression matching the empty input asks for `"".substring(0, 1)` and throws |
| Scanners.CorrectedEmptyInputMatches | src/main/java/com/gliwka/hyperscan/wrapper/Scanner.java:166-170 | corrected, every tuple on the empty input whose id resolves becomes `(0, 0, "")` of its expression |
| PatternFilters.Partition | src/main/java/com/gliwka/hyperscan/util/ScopedPatternFilterImpl.java:39-51 | fails with NullPointerException exactly when the mapper returns null for some candidate; otherwise every candidate lands in one of the two lists, and the `i`-th filterable one's expression is its pattern mapped with id `i` |
| PatternFilters.PartitionIsKeep | src/main/java/com/gliwka/hyperscan/util/PatternFilter.java:54-66 | the two lists are exactly the filterable and the not-filterable candidates, each in input order |
| PatternFilters.KeepSplits | src/main/java/com/gliwka/hyperscan/util/ScopedPatternFilterImpl.java:44-50 | every candidate is in exactly one of the two lists, counted with multiplicity |
| PatternFilters.DenseIds | src/main/java/com/gliwka/hyperscan/util/PatternFilter.java:52-64 | the ids of the compiled expressions are `0, 1, 2, ...` in order |
| PatternFilters.Assemble | src/main/java/com/gliwka/hyperscan/util/ScopedPatternFilterImpl.java:83-88 | succeeds exactly when every match's id names a filterable candidate; the result is those candidates in match order, then every not-filterable one |
| PatternFilters.Build | src/main/java/com/gliwka/hyperscan/util/PatternFilter.java:68-70 | a built filter's database holds exactly the accepted expressions and a handle, and its scanner holds scratch |
| PatternFilters.NewPatternFilter | src/main/java/com/gliwka/hyperscan/util/PatternFilter.java:48-71 | the matchers are the accepted patterns and the not-filterable list the refused ones, each in input order; expression `i` has id `i` and the `i`-th matcher's text |
| PatternFilters.Filter | src/main/java/com/gliwka/hyperscan/util/PatternFilter.java:79-92 | with either scanner variant: only the scanner changes; a failing scan throws its exception; a result ends with every not-filterable pattern |
| PatternFilters.Close | src/main/java/com/gliwka/hyperscan/util/PatternFilter.java:95-98 | close releases the scratch and the database, and throws NullPointerException when called again |
| PatternFilters.AsWrittenFilterOverruns | src/main/java/com/gliwka/hyperscan/util/PatternFilter.java:82 | as written, a filter whose engine reports any match on `"é\uD800"` throws an index exception from the scanner's position table |
| PatternFilters.ScanMatchesComeFromDatabase | src/main/java/com/gliwka/hyperscan/wrapper/Scanner.java:157 | every match of a scan names an expression of the scanned database |
| PatternFilters.AssembleAfterScan | src/main/java/com/gliwka/hyperscan/util/ScopedPatternFilterImpl.java:84-86 | over dense ids, the matches of a successful scan, as written or corrected, always assemble, each naming the candidate whose expression matched |
| PatternFilters.FilterNeverThrowsAfterScan | src/main/java/com/gliwka/hyperscan/util/PatternFilter.java:82-87 | for a filter as built, with either scanner variant, `filter` fails only when the scan does, and lists the matched patterns in match order before the not-filterable ones |
| ScopedFilters.NewImpl | src/main/java/com/gliwka/hyperscan/util/ScopedPatternFilterImpl.java:34-58 | a null from the mapper throws NullPointerException; a new filter is open and holds the filterable and not-filterable candidates in input order, with expression `i` made from filterable candidate `i` |
| ScopedFilters.NewImplValid | src/main/java/com/gliwka/hyperscan/util/ScopedPatternFilterImpl.java:42-55 | a new filter holds its scratch and database, and its ids are the positions of its filterable candidates |
| ScopedFilters.FilterImpl | src/main/java/com/gliwka/hyperscan/util/ScopedPatternFilterImpl.java:72-89 | a null input throws NullPointerException, a closed filter IllegalStateException; only the scanner changes, and a result ends with every not-filterable candidate; either scanner variant |
| ScopedFilters.FilterImplSound | src/main/java/com/gliwka/hyperscan/util/ScopedPatternFilterImpl.java:79-88 | with either scanner variant, `filter` keeps the invariant and, on an open filter, fails only when the scan does; the result is the matched candidates in match order and then the not-filterable ones |
| ScopedFilters.CloseCore | src/main/java/com/gliwka/hyperscan/util/ScopedPatternFilterImpl.java:61-69 | only the call that flips the flag releases the scanner and the database; on a closed core it does nothing |
| ScopedFilters.CloseImpl | src/main/java/com/gliwka/hyperscan/util/ScopedPatternFilterImpl.java:92-94 | close leaves the filter closed and valid, and releases exactly when it was open |
| ScopedFilters.ReleasedAtMostOnce | src/main/java/com/gliwka/hyperscan/util/ScopedPatternFilterImpl.java:97-109 | any number of `close` and close-action calls on the shared core release once if the filter was open and never otherwise |
| FilterFactories.Present | src/main/java/com/gliwka/hyperscan/util/ScopedPatternFilterFactory.java:115-118 | the copied list exists exactly when no element is null, and then holds the same elements in order |
| FilterFactories.NewFactory | src/main/java/com/gliwka/hyperscan/util/ScopedPatternFilterFactory.java:111-126 | a null mapper, list or element throws NullPointerException and an empty list IllegalArgumentException; a new factory is open, holds the candidates in order and has no filters |
| FilterFactories.Get | src/main/java/com/gliwka/hyperscan/util/ScopedPatternFilterFactory.java:174-179 | refused once closed; a key with a cached filter gets a proxy over it; otherwise a new filter is created, cached and tracked, a compile error is wrapped in a RuntimeException, and a failure caches nothing |
| FilterFactories.Close | src/main/java/com/gliwka/hyperscan/util/ScopedPatternFilterFactory.java:182-205 | one-shot: the first call closes every cached filter and empties the cache and the tracking set; later calls change nothing |
| FilterFactories.ProxyFilter | src/main/java/com/gliwka/hyperscan/util/ScopedPatternFilterProxy.java:19-21 | filtering through a proxy is exactly the delegate's `filter`, with the same scanner variant, and the factory's own state does not change |
| FilterFactories.NewFactoryValid | src/main/java/com/gliwka/hyperscan/util/ScopedPatternFilterFactory.java:111-126 | a new factory satisfies the factory invariant |
| FilterFactories.GetValid | src/main/java/com/gliwka/hyperscan/util/ScopedPatternFilterFactory.java:161-172 | `get` keeps the invariant; the key is then cached, and a new filter adds exactly one tracking record |
| FilterFactories.GetSameKeySameFilter | src/main/java/com/gliwka/hyperscan/util/ScopedPatternFilterFactory.java:177-178 | the same key gets the same filter again, and nothing is created |
| FilterFactories.DistinctKeysDistinctFilters | src/main/java/com/gliwka/hyperscan/util/ScopedPatternFilterFactory.java:177 | two different keys get two different filters |
| FilterFactories.CloseValid | src/main/java/com/gliwka/hyperscan/util/ScopedPatternFilterFactory.java:155-159 | close keeps the invariant and closes every filter made; a second close changes nothing; `get` refuses from then on |
| FilterFactories.CloseClosesAll | src/main/java/com/gliwka/hyperscan/util/ScopedPatternFilterFactory.java:186-192 | every filter the factory made is cached while it is open, so closing the factory closes them all |
| FilterFactories.ProxyAfterCloseRefuses | src/main/java/com/gliwka/hyperscan/util/ScopedPatternFilterImpl.java:73-74 | a proxy handed out before the factory closed refuses to filter after it |
| FilterFactories.ProxyCloseKeepsFilterOpen | src/main/java/com/gliwka/hyperscan/util/ScopedPatternFilterProxy.java:14-16 | closing a proxy leaves its filter open: on an open factory, filtering through any proxy afterwards is never refused as closed |

## Left out

- **The native engine.** Compile, scan, scratch allocation, serialization, deserialization and the size queries are function parameters. Which reply a call gives is not modelled.
- **`Expression.validate`.** It is the engine's `hs_expression_info` call, so it is the parameter `valid`.
- **Versions of the sources.** `Database.java` uses the JNA bindings and `Util.hsErrorIntToException`. `Scanner.java` uses the JavaCPP bindings and `HyperscanException.hsErrorToException`.
  - The latter's status constants are not part of this model, so its exceptions are `HyperscanError(status)`.
  - Expression ids and the three-argument `Expression` constructor come from the version that `NativeExpressionCollection` and `ExpressionUtil` use.
- **Oversized serialized databases.** The engine's serialized blob is bounded by the largest Java `int` (`Engine.Blob`). The `intValue()` truncation of its `size_t` length in `Database.save` therefore never changes the length, and a blob above that bound is not modelled.
- **A `null` scan input.** `Scanners.Scan` and `PatternFilters.Filter` take a non-null string, so the NullPointerException that `input.getBytes` throws for `scan(db, null)` and `filter(null)` is not modelled. `ScopedFilters.FilterImpl` does model its null input.
- **Exception messages.** They are not modelled; only the exception kind is.
- **The ExpressionFlag bits.** `ExpressionFlag.java` is not part of this model. Its bits are Hyperscan's `HS_FLAG_*` values in declaration order.
- **Native plumbing in the scanner.** The static callback registry, the `IntPointer` context, the scratch deallocator, `finalize`, `getVersion` and `getIsValidPlatform` are native plumbing.
- **Scan atomicity.** The callback's recording is modelled as the engine returning the tuples in callback order, and nothing else can run during a scan.
- **`Matcher.reset(input)` in `PatternFilter.filter`.** It is `java.util.regex` state and is not modelled. The result is the list of patterns.
- **Null patterns in `PatternFilter`.** A `null` element of the list given to `PatternFilter` is not modelled; its patterns are plain values. The scoped factory's null checks are modelled in `FilterFactories.Present`.
- **`PatternFilter`'s array slots.** The array is as long as the input list. Its slots at and above the number of filterable patterns stay null. The model keeps only the filled slots, which are all that any match id can reach.
- **Factory reclamation.** The cleaner thread, `PhantomReference`/`ReferenceQueue`, Caffeine's weak keys and removal listener, and `synchronized`/`AtomicBoolean` atomicity are garbage-collection and concurrency machinery.
  - Threads are abstract keys and the closed flags are plain booleans.
  - `tracked` stands for the cleanup records.
- **Independence of factories.** Factories are values, so closing one cannot change another. No lemma states this.
- **Exceptions while closing cached filters.** A cached filter whose scanner close throws during factory `close` is excluded by the factory invariant, because every cached filter holds its scratch.
- **`getCloseAction`.** The action is not a separate function. `close` and the action run the same routine on the same state (`ScopedFilters.CloseCore`), and `ScopedFilters.ReleasedAtMostOnce` covers any mix of calls.
- **`ScopedPatternFilter.apply`.** It is `filter` and is not modelled separately.
- FilterFactories.ProxyClose: it has no contract of its own. It returns the factory unchanged, and `FilterFactories.ProxyCloseKeepsFilterOpen` states what that means for filtering.
- PatternFilters.Build: the guard against more than `Integer.MAX_VALUE` expressions stands for a Java list's size bound. A real list cannot reach it.
- Utf8Encoder.EncodeToBufferAndMap: the buffer is modelled by its capacity, so `flip()` becomes "the bytes written". A `ByteBuffer` overflow cannot happen, because the mapping's index check fails first at the same position.
- Utf8Positions.CodePointAt: a code point above `0x1FFFFF` cannot occur, so the `throw new Error()` branch of `Utf8.java` is unreachable and not modelled.

## Findings

| source | as written | input that shows it | evidently intended | confidence | as-written member | corrected member |
|---|---|---|---|---|---|---|
| src/main/java/com/gliwka/hyperscan/wrapper/Utf8.java:15-21 | an unpaired surrogate is sized as 3 bytes from its `codePointAt` value, but `getBytes(UTF_8)` writes one `'?'` for it, so the runs outgrow the `bytesLength` array and `Arrays.fill` throws when `scan` needs the table | `scan` of `"é\uD800"` with any match reported: 3 bytes, 5 cells of runs | size each position by the bytes actually written, so the table always fits | not executed | Utf8Positions.LoneSurrogateOverruns, Scanners.AsWrittenScanOverruns, PatternFilters.AsWrittenFilterOverruns | Utf8Positions.WrittenTableFits, Scanners.CorrectedPositionsAlwaysBuild |
| src/main/java/com/gliwka/hyperscan/wrapper/Utf8Encoder.java:77-81 | a high surrogate followed by a char that is neither surrogate writes `'?'` and then `(byte) c2`, the char's low byte alone, and skips the char | `"\uD800é"` gives `3F E9`, which is not UTF-8; the JDK gives `3F C3 A9` | write `'?'` for the high surrogate only and encode the next char on the next pass, as the JDK does | not executed | Utf8Encoder.AsWrittenBreaksUtf8 | Utf8Encoder.CorrectedMatchesJdk |
| src/main/java/com/gliwka/hyperscan/wrapper/Scanner.java:155-164 | on an empty input the exclusive end is raised to 1, and a start-of-match expression then cuts `substring(0, 1)` out of the empty string, which throws before the empty-input branch at lines 166-170 can report `(0, 0)` | a start-of-match expression that matches empty, scanned over `""` | an empty input gives the match `(0, 0, "")` | not executed | Scanners.AsWrittenEmptyInputThrows | Scanners.CorrectedEmptyInputMatches |

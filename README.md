# lopdf core, modelled in Dafny

This project models the parts of the lopdf PDF library that work directly on
the bytes and operators of a document. It also proves properties of that model.

- **Cross-reference streams** (section 7.5.8 of ISO 32000-1). `decode_xref_stream`
  checks `Size`, `Index` and `W`. It reads every row as fixed-width big-endian
  fields through a cursor and records a normal or compressed entry per row. It
  then returns the stream dictionary without `Length`, `W` and `Index`.
  Modules `XrefStream` and `XrefProperties` cover this.
- **Object streams** (section 7.5.7 of ISO 32000-1). `ObjectStream::new` reads
  `First`, splits the index block into whitespace-separated numbers and pairs
  them. It drops bad pairs and collects the objects the direct-object parser
  finds, all with generation 0. Module `ObjectStreams` covers this.
- **Text extraction** in one pass over a page's operations. `Tf` switches
  encoding and closes a chunk, `Tj`/`TJ` append decoded text and `ET` ends a
  line. Then come the per-page, multi-page and joined results. Modules
  `TextExtraction` and `Documents` cover this.
- **Text replacement**. Exact mode replaces a whole string, or a whole kerned
  array slot by slot. Partial mode replaces every occurrence inside each string
  and counts them. Both re-encode through the font's encoding with a default
  string for characters it cannot encode. Modules `TextReplacement` and
  `Documents` cover this.
- **Page edits**. `insert_image` and `insert_form_object` add an XObject as a
  new object named `X<n>` and paint it with `Do` inside or after a `q`/`Q` pair.
  Modules `PageEdits` and `Documents` cover this.
- **Page lists** of the command-line tool. `compute_page_numbers` reads a
  selection such as `1,3-5`, and `complement_page_numbers` lists the pages a
  selection leaves out. Module `PageRanges` covers this.

The imperative parts are methods whose loops are proved equal to
specification functions. These parts are the cursor-driven xref decode, the
big-endian accumulator, `collect_text`, the extraction loop, `encode`, the
replacement loops and the page-list loops. The properties are lemmas about
those functions.

A `Document` class holds the state the core reads and changes:
- page contents;
- objects and the largest object number;
- the XObjects registered on each page.

What the rest of the library answers about pages, fonts and the content
grammar is fixed when the document is built. Shared types are in `PdfTypes`;
the pieces of Rust's string API are in `Strings`; the operation datatype and
the content codec are in `Content`.

Some behaviour of the code is worth stating outright, because a reader of
section 7.5.8 of ISO 32000-1 or of the library's other entry points might
expect otherwise:
- A normal entry's offset is a `u32`, because `read_big_endian_integer`
  returns one (src/parser_aux.rs:522). Wider offset fields wrap modulo 2^32.
- No entry is rejected for an object number at or above `Size`: the decoder
  never compares the two (src/parser_aux.rs:479-514).
- A row type other than 0, 1 or 2 is skipped silently, with no warning. Only
  its type field is consumed (src/parser_aux.rs:484-511).
- When any font's encoding cannot be read, `replace_text` and
  `replace_partial_text` fail as a whole (`collect::<Result<..>>()?`,
  src/parser_aux.rs:149-153 and 191-195). Extraction instead reports an `Err`
  item for that font and continues (src/parser_aux.rs:80-89).

## Model

| member | source | states |
|---|---|---|
| Strings.Split | pdfutil/src/main.rs:463-464 | `split` always yields at least one piece, and no piece contains the separator |
| Strings.SplitJoin | pdfutil/src/main.rs:463-464 | splitting pieces glued with a separator gives back the pieces, when no piece holds a separator |
| Strings.JoinSplit | pdfutil/src/main.rs:463-464 | gluing the pieces of a split back with the separator gives the original text |
| Strings.SplitConcat | pdfutil/src/main.rs:463 | splitting `a,b` yields the pieces of `a` followed by those of `b` |
| Strings.SplitWithoutSeparator | pdfutil/src/main.rs:464 | a text without the separator splits into itself alone |
| Strings.SplitWhitespace | src/object_stream.rs:38-39 | `split_whitespace` yields only non-empty tokens free of whitespace |
| Strings.SplitWhitespaceJoin | src/object_stream.rs:38-39 | `split_whitespace` gives back tokens joined by single spaces |
| Strings.CountMatchesPositive | src/parser_aux.rs:398-402 | `matches(..).count()` is positive exactly when `contains` holds |
| Strings.ReplaceAllLength | src/parser_aux.rs:399 | `replace` changes the length by the number of occurrences times the length difference |
| Strings.ReplaceAllNoMatch | src/parser_aux.rs:398-399 | with no occurrence, `replace` leaves the text as it was |
| Strings.ReplaceAllSelf | src/parser_aux.rs:399 | replacing a pattern by itself changes nothing |
| Strings.SkipWithoutFirst | src/parser_aux.rs:399-402 | text without the pattern's first character is neither counted nor changed |
| Strings.MatchFirst | src/parser_aux.rs:399-402 | an occurrence at the front is counted once and replaced |
| Strings.TwoOccurrences | src/parser_aux.rs:604-613 | two occurrences separated by text without the pattern's first character count 2, and both are replaced |
| Strings.ParseU32 | src/object_stream.rs:40 | `u32::from_str` accepts only text made of digits after an optional leading `+`, ending in a digit |
| Strings.ParseU32Accepted | src/object_stream.rs:40 | an accepted text is the decimal form of its value, preceded only by zeros and an optional leading `+` |
| Strings.ParseU32RejectsNonDigit | src/object_stream.rs:40 | any character other than a digit, apart from a leading `+` before more text, makes the parse fail; so does `-` |
| Strings.ParseU32RejectsOverflow | src/object_stream.rs:40 | digits whose value exceeds `u32::MAX` fail, with or without a leading `+` |
| Strings.DecimalString | src/parser_aux.rs:241 | `format!("{}", n)` writes a non-empty string of digits |
| Strings.ParseU32OfDecimal | pdfutil/src/main.rs:464 | `u32::from_str` reads back exactly the number `format!` wrote |
| XrefStream.BigEndianOfSlice | src/parser_aux.rs:522-529 | reading a field in place equals reading the slice it occupies |
| XrefStream.ShiftInByte | src/parser_aux.rs:526 | `(value << 8) + byte` on a `u32` cannot overflow, and equals the longer byte string's value modulo 2^32 |
| XrefStream.BigEndianValue | src/parser_aux.rs:524-527 | the accumulator yields the bytes' big-endian value modulo 2^32, which is the exact value for up to four bytes |
| XrefStream.BigEndianBound | src/parser_aux.rs:522-529 | a field of n bytes holds a value below 256^n |
| XrefStream.Pow256Monotone | src/parser_aux.rs:522-529 | a wider field holds at least as much as a narrower one |
| XrefStream.BigEndianRoundTrip | src/parser_aux.rs:522-529 | a value that fits its width reads back as itself |
| XrefStream.Cursor.constructor | src/parser_aux.rs:451 | the cursor starts at position 0 over the stream content |
| XrefStream.Cursor.ReadExact | src/parser_aux.rs:523 | reads exactly n bytes and advances, or fails at end of file and leaves the cursor at the end |
| XrefStream.ReadBigEndianInteger | src/parser_aux.rs:522-529 | the value and new cursor position are those of the field at the old position; the error is that field's error |
| XrefStream.ParseIntegerArray | src/parser_aux.rs:531-540 | the loop yields the array's integers in order; a non-array gives the `Array` type error of `as_array`, and otherwise the first item that is not an integer gives the `Integer` type error of `as_i64`; the caller turns these into `InvalidXref` for `W` and into the `[0 Size]` default for `Index` |
| XrefStream.DecodeXref | src/parser_aux.rs:450-519 | `InvalidXref` when `Size` is not an integer, or `W` is missing, not an integer array, shorter than 3 or negative in its first three widths; on success the dictionary has exactly `Length`, `W` and `Index` removed and the size is `Size as u32` |
| XrefStream.ReadRow | src/parser_aux.rs:484-512 | one row read through the cursor gives the entries and position of `DecodeRow`, or its error |
| XrefStream.WalkSections | src/parser_aux.rs:479-514 | the nested section and row loops give the entries of `Sections` over all of `Index`, or its error |
| XrefStream.DecodeXrefStream | src/parser_aux.rs:446-520 | equals decompression when compressed (a failure there fails the decode) followed by `DecodeXref` |
| XrefProperties.RowAddsOnlyItsNumber | src/parser_aux.rs:489-512 | a row adds an entry only for its own object number |
| XrefProperties.RowsAddOnlyTheirNumbers | src/parser_aux.rs:483-513 | the rows of a section add entries only for `start + j` |
| XrefProperties.SectionsAddOnlyDeclared | src/parser_aux.rs:479-514 | sections add entries only for numbers some complete `(start, count)` pair declares |
| XrefProperties.EntriesAreDeclared | src/parser_aux.rs:458-514 | every decoded entry's number is declared by `Index`, or by `[0 Size]` when `Index` is missing |
| XrefProperties.RowKeepsShape | src/parser_aux.rs:484-512 | a row keeps every entry consistent with zero widths |
| XrefProperties.RowsKeepShape | src/parser_aux.rs:483-513 | so do the rows of a section |
| XrefProperties.SectionsKeepShape | src/parser_aux.rs:479-514 | so do all sections |
| XrefProperties.ZeroWidthDefaults | src/parser_aux.rs:484-502 | with `W[0] = 0` every entry is normal, and with `W[2] = 0` every generation and container index is 0 |
| XrefProperties.RowsThatRecordNothing | src/parser_aux.rs:489-494 | a type 0 row reads all three fields and records nothing; a type above 2 records nothing and consumes only its type field |
| XrefProperties.MissingIndexIsWholeRange | src/parser_aux.rs:458-461 | a missing or malformed `Index` decodes exactly as `[0 Size]` |
| XrefProperties.FieldOfWritten | src/parser_aux.rs:522-529 | a value written in its width is read back by the field reader |
| XrefProperties.FieldsOfRow | src/parser_aux.rs:484-509 | the three fields of a written row read back as the entry's fields |
| XrefProperties.WrittenRowsAt | src/parser_aux.rs:483-513 | every row of a written sequence lies where the decoder reads it |
| XrefProperties.RowOfWritten | src/parser_aux.rs:484-512 | a written row decodes to its entry, and a free row records nothing |
| XrefProperties.RowsOfWritten | src/parser_aux.rs:483-513 | written rows decode to their entries inserted one by one, ending after the last row |
| XrefProperties.InsertedEntries | src/parser_aux.rs:503-509 | without wrap-around, row k's non-free entry is at `start + j + k`, free rows add nothing, and other numbers keep their entries |
| XrefProperties.InsertedFromEmpty | src/parser_aux.rs:503-509 | from no entries, exactly the non-free rows' numbers are present, with their entries |
| XrefProperties.LayoutFields | src/parser_aux.rs:452-473 | a writer's dictionary passes validation with its `Size` and `W`, and `Index` lists each subsection's start and row count in order |
| XrefProperties.SectionsOfWritten | src/parser_aux.rs:479-514 | subsections written one after another are read by the section loop as their rows inserted subsection by subsection, ending after the last one |
| XrefProperties.DecodeSections | src/parser_aux.rs:446-520 | decoding a writer's dictionary and content succeeds with the rows of every subsection inserted in order |
| XrefProperties.InsertedAllAt | src/parser_aux.rs:503-509 | with non-overlapping subsections, row k of subsection i is at `start + k` when not free, and a free row leaves that number as it was |
| XrefProperties.InsertedAllEntries | src/parser_aux.rs:479-514 | the same for all rows at once; a number is added only inside some subsection, and numbers outside every subsection keep their entries |
| XrefProperties.XrefRoundTrip | src/parser_aux.rs:446-520 | for any number of non-overlapping subsections, decoding what a writer of the same layout produced gives exactly the non-free rows at `start + k` with their entries, and no number outside the subsections |
| ObjectStreams.PairEntry | src/object_stream.rs:49-60 | a pair yields an entry exactly when both tokens are numbers, `First + offset` is inside the content and an object parses there; the entry is keyed `(id, 0)` and holds the parsed object |
| ObjectStreams.ReadIndex | src/object_stream.rs:26-41 | a successful header read gives `First` as the offset, never past the content, and as numbers the `u32::from_str` of each `split_whitespace` token of the UTF-8 index block before it |
| ObjectStreams.FailsOnlyOnHeader | src/object_stream.rs:17-67 | an empty stream after decompression gives no objects; otherwise the decode fails exactly when `First`, the index block's UTF-8 or `N` fails, never because of a pair |
| ObjectStreams.HeaderErrors | src/object_stream.rs:26-37 | missing `First` gives its key error, a negative one `NumericCast`, one past the end `InvalidOffset`, and a non-UTF-8 index block `InvalidObjectStream` |
| ObjectStreams.OddTrailingIgnored | src/object_stream.rs:42 | an odd trailing number takes part in no pair |
| ObjectStreams.EntriesConcat | src/object_stream.rs:49-64 | pairing is positional: a dropped pair never shifts the pairs after it |
| ObjectStreams.EntriesArePairs | src/object_stream.rs:49-64 | the entries are exactly the pairs that survive filtering |
| ObjectStreams.CollectKeys | src/object_stream.rs:61-64 | the map's keys are exactly the entries' ids |
| ObjectStreams.CollectLastWins | src/object_stream.rs:61-64 | each key maps to the object of the last entry with that id |
| ObjectStreams.DecodedObjects | src/object_stream.rs:17-67 | every decoded id has generation 0 and comes from a surviving pair, and every surviving pair's id is decoded |
| ObjectStreams.LastPairWins | src/object_stream.rs:49-64 | a surviving pair whose id no later pair repeats decodes to the object parsed at its offset |
| TextExtraction.CollectConcat | src/parser_aux.rs:282-301 | collecting `a + b` collects `a` and continues with `b` only if `a` did not fail |
| TextExtraction.CollectWithoutStrings | src/parser_aux.rs:282-301 | without strings or arrays nothing fails, only spaces are added, and text appears exactly when some integer is below -100 |
| TextExtraction.CollectText | src/parser_aux.rs:282-301 | appends each operand's contribution to the buffer, stopping at the first decode error and keeping the text gathered before it |
| TextExtraction.FontErrors | src/parser_aux.rs:80-89 | only error items, and one for every font whose encoding failed; none exactly when every font's encoding was read |
| TextExtraction.FontErrorsConcat | src/parser_aux.rs:80-89 | the errors of two font lists are those of each list in order |
| TextExtraction.FontErrorsOfOne | src/parser_aux.rs:80-89 | one font gives exactly its error, or nothing when its encoding was read |
| TextExtraction.Encodings | src/parser_aux.rs:80-89 | every name in the map belongs to a font whose encoding was read, with that encoding |
| TextExtraction.EncodingsLastWins | src/parser_aux.rs:80-89 | a font whose encoding was read is in the map with it, unless a later font of the same name also has one |
| TextExtraction.ScanOperations | src/parser_aux.rs:93-136 | the operation loop with its final flush yields `Scan` from no encoding and empty text, after the font errors |
| TextExtraction.ScanExtends | src/parser_aux.rs:96-136 | the pass only appends to the items it started with |
| TextExtraction.FontErrorsFirst | src/parser_aux.rs:76-91 | font-encoding failures come before every text chunk |
| TextExtraction.ScanChunksNonEmpty | src/parser_aux.rs:112-115 | no empty text chunk is ever emitted |
| TextExtraction.PageChunksNonEmpty | src/parser_aux.rs:134-136 | every item of a page is an error or non-empty text |
| TextExtraction.ScanFails | src/parser_aux.rs:98-103 | the page fails exactly when some `Tf` has no operand, with `missing font operand` |
| TextExtraction.FontSwitchFlushes | src/parser_aux.rs:98-116 | a `Tf` with an operand appends an error for a non-name operand, then any pending text, starts empty, and selects the named font's encoding or none |
| TextExtraction.ShowTextWithoutEncoding | src/parser_aux.rs:117-124 | `Tj`/`TJ` with no encoding selected changes nothing |
| TextExtraction.ShowTextAppends | src/parser_aux.rs:117-124 | under an encoding, `Tj`/`TJ` appends the collected text; a decode error becomes an error item and the pass goes on |
| TextExtraction.OneTextBlock | src/parser_aux.rs:93-136 | `Tf /F`, `Tj s`, `ET` yields the single chunk of s's decoded text followed by a newline |
| TextExtraction.OneTextBlockPage | src/parser_aux.rs:73-139 | a page with one readable font whose content is that block yields that single chunk |
| TextExtraction.EndTextIdempotent | src/parser_aux.rs:126-130 | after `ET` the text ends with a newline, and a second `ET` adds nothing |
| TextExtraction.FlattenPagesConcat | src/parser_aux.rs:59-71 | the items of several pages are those of each page in request order |
| TextExtraction.JoinChunksResult | src/parser_aux.rs:48-57 | joining succeeds exactly when no item is an error, with all texts in order, and otherwise returns the first error |
| TextExtraction.JoinText | src/parser_aux.rs:50-56 | the joining loop yields `JoinChunks` |
| TextReplacement.SubstrCharacters | src/parser_aux.rs:302-324 | `substr(s, i, 1)` and `substr(s, i, 0)` are both character i, and the suffix at i is that character followed by the suffix at i + 1 |
| TextReplacement.Encode | src/parser_aux.rs:326-344 | the loop over character positions yields `Encoded`: character by character for longer text, as a whole otherwise |
| TextReplacement.EncodeEachConcat | src/parser_aux.rs:327-335 | encoding character by character splits at any character boundary |
| TextReplacement.EncodedConcat | src/parser_aux.rs:326-344 | encoding a text of two non-empty pieces concatenates their encodings |
| TextReplacement.EncodedNonEmpty | src/parser_aux.rs:336-343 | when the default string encodes to something, `encode` never yields nothing |
| TextReplacement.EncodeWithFallback | src/parser_aux.rs:436-443 | the whole text's encoding when non-empty; never empty when the default encodes to something |
| TextReplacement.EncodedNonEmptyIf | src/parser_aux.rs:436-443 | a default that encodes to something makes `encode` non-empty |
| TextReplacement.SlotsLength | src/parser_aux.rs:364-380 | the slot rewrite keeps the array's length |
| TextReplacement.SlotAt | src/parser_aux.rs:364-380 | each array position holds its slot value, given the number of string items before it |
| TextReplacement.SlotsAt | src/parser_aux.rs:357-381 | the same for the whole array, counting from the first slot |
| TextReplacement.RewriteSlot | src/parser_aux.rs:365-377 | the slot value: the encoded rest of the replacement at the last slot, `Null` past the replacement's end, one encoded character otherwise |
| TextReplacement.RewriteSlots | src/parser_aux.rs:357-381 | the in-place slot loop that stops after the last slot yields `Slots` |
| TextReplacement.ReplaceExactInOperands | src/parser_aux.rs:345-387 | `try_to_replace_encoded_text` yields the operands as `ReplaceExact` rewrites them, or its first decode error |
| TextReplacement.ReplaceExactShape | src/parser_aux.rs:345-387 | exact replacement keeps each string a string with its format, each array an array of its length, and everything else |
| TextReplacement.ReplaceExactKeepsOtherStrings | src/parser_aux.rs:350-356 | a string that does not decode to the target is left alone |
| TextReplacement.ReplacePartialInString | src/parser_aux.rs:396-403 | the string case yields `ReplacePartialString` |
| TextReplacement.ReplacePartialInItem | src/parser_aux.rs:422-430 | an array item yields `ReplacePartialItem`: a string is rewritten and counted, anything else kept with count 0 |
| TextReplacement.ReplacePartialInArray | src/parser_aux.rs:416-434 | `replace_partial_in_array` yields the items and count of `ReplacePartialItems`, or the first decode error |
| TextReplacement.ReplacePartialInOperand | src/parser_aux.rs:395-410 | one operand yields `ReplacePartialOperand` |
| TextReplacement.ReplacePartialInOperands | src/parser_aux.rs:389-414 | `replace_partial_in_operation` yields the operands and total count of `ReplacePartial`, or the first decode error |
| TextReplacement.PartialStringCount | src/parser_aux.rs:396-403 | a string's count is its number of occurrences, positive exactly when it contains the search text; a string counted 0 is kept |
| TextReplacement.PartialItemsUnchanged | src/parser_aux.rs:416-434 | an array rewrite that counts nothing returns the items unchanged |
| TextReplacement.PartialUnchanged | src/parser_aux.rs:389-414 | an operand rewrite that counts nothing returns the operands unchanged |
| TextReplacement.PartialItemsShape | src/parser_aux.rs:421-431 | strings stay strings with their format; nested arrays and other items are untouched |
| TextReplacement.PartialSelfReplacement | src/parser_aux.rs:396-403 | replacing the search text by itself re-encodes the same decoded text and counts every occurrence |
| TextReplacement.AllEncodingsResult | src/parser_aux.rs:149-153 | the page's encodings are read only when every font's is, and are then the extraction's map; otherwise the first failure is returned |
| TextReplacement.ReplaceExactInOperations | src/parser_aux.rs:156-177 | the in-place loop of `replace_text` yields `ReplaceExactOps` from no encoding |
| TextReplacement.ReplacePartialInOperation | src/parser_aux.rs:203-226 | one loop step: `Tf` selects an encoding (or fails), `Tj`/`TJ` under an encoding are rewritten and counted, anything else is kept with count 0 |
| TextReplacement.ReplacePartialInOperations | src/parser_aux.rs:199-227 | the loop of `replace_partial_text` with its running count yields `ReplacePartialOps` from no encoding |
| TextReplacement.ReplaceExactOpsShape | src/parser_aux.rs:156-177 | every operation keeps its operator, and every one other than `Tj`/`TJ` is kept whole |
| TextReplacement.ReplacePartialOpsShape | src/parser_aux.rs:202-227 | the same for partial replacement |
| TextReplacement.ReplacePartialOpsUnchanged | src/parser_aux.rs:202-229 | a page pass that counts nothing leaves every operation as it was |
| TextReplacement.ReplacePartialOpsPositive | src/parser_aux.rs:202-229 | a page pass that changes anything counts at least one occurrence |
| PageEdits.XObjectName | src/parser_aux.rs:241 | `X` followed by at least one decimal digit |
| PageEdits.XObjectNameInjective | src/parser_aux.rs:241 | different object numbers get different names |
| PageEdits.DepthConcat | src/parser_aux.rs:246-275 | the `q`/`Q` nesting depth of a concatenation is the sum of the parts' depths |
| PageEdits.ImageBalanced | src/parser_aux.rs:245-263 | a balanced page stays balanced and the image is painted one level deeper than the page ends |
| PageEdits.FormObjectBalanced | src/parser_aux.rs:270-279 | a balanced page stays balanced, every old operation runs one level deeper, and the form is painted at the outer level |
| Documents.Document.PageNumbering | src/parser_aux.rs:60-148 | extraction finds page n, the n-th page, exactly for 1 ≤ n ≤ page count; replacement finds a page exactly when there is one and n ≤ page count, page 0 being the first page and every other n the one extraction finds; a missing page is `PageNumberNotFound(n)` |
| Documents.Document.PageResultsConcat | src/parser_aux.rs:59-71 | per-page results of a concatenated request are concatenated |
| Documents.Document.TextChunksConcat | src/parser_aux.rs:59-71 | the items of several pages are each page's items in request order |
| Documents.Document.TextChunksOfPage | src/parser_aux.rs:63-68 | one page gives its items, or its single error when it cannot be read |
| Documents.Document.ExtractTextChunksFromPage | src/parser_aux.rs:73-139 | the page lookup, font errors, content decode and operation loop yield `PageText` |
| Documents.Document.ExtractTextChunks | src/parser_aux.rs:59-71 | the pages' items flattened in request order |
| Documents.Document.ExtractText | src/parser_aux.rs:48-57 | the joined text of all requested pages, or the first error |
| Documents.Document.PartialReplacementStores | src/parser_aux.rs:229-234 | the page is stored exactly when the count is positive, and with count 0 the page's operations were unchanged |
| Documents.Document.ReplaceText | src/parser_aux.rs:141-180 | on success the page's content is always stored again; on failure nothing changes and the error is the first failing step's |
| Documents.Document.ReplacePartialText | src/parser_aux.rs:182-235 | returns the count, stores the page only when it is positive, and changes nothing on failure |
| Documents.Document.WithXObject | src/parser_aux.rs:243 | the name is registered for the page, and other pages and other names are unchanged |
| Documents.Document.AddObject | src/parser_aux.rs:240 | the new object gets the next number with generation 0, and no object already had it |
| Documents.Document.InsertImage | src/parser_aux.rs:237-264 | the image is a new object registered as `X<n>` even when the page then fails; on success the page holds its content with the image painted last |
| Documents.Document.InsertFormObject | src/parser_aux.rs:266-280 | the form is a new object, registered and the page stored only when the wrapped content serializes |
| PageRanges.ParseAll | pdfutil/src/main.rs:464 | succeeds exactly when every token is a `u32`, with the numbers in order |
| PageRanges.Range | pdfutil/src/main.rs:467 | `first..end`: element k is `first + k`, empty when `end ≤ first` |
| PageRanges.SegmentsPagesConcat | pdfutil/src/main.rs:463-470 | the pages of a list of segments are those of each part in order |
| PageRanges.PageNumbersConcat | pdfutil/src/main.rs:462-471 | the pages of `x,y` are those of x followed by those of y, with no sorting or de-duplication |
| PageRanges.OneSegment | pdfutil/src/main.rs:463-469 | a selection without a comma is one segment |
| PageRanges.SinglePage | pdfutil/src/main.rs:466 | a segment `n` selects page n |
| PageRanges.PageRange | pdfutil/src/main.rs:467 | a segment `a-b` selects a, a+1, ..., b, and nothing when a > b |
| PageRanges.ThreeNumbers | pdfutil/src/main.rs:465-469 | a segment of three numbers, as in `1-2-3`, is accepted and selects no page |
| PageRanges.EmptySegmentFails | pdfutil/src/main.rs:464 | an empty segment, as in `1,,2`, is a failure |
| PageRanges.ParseTokens | pdfutil/src/main.rs:464 | the token loop yields `ParseAll` |
| PageRanges.AppendRange | pdfutil/src/main.rs:467 | appends exactly `first..end` to the numbers so far |
| PageRanges.AppendSegment | pdfutil/src/main.rs:464-469 | appends the segment's pages, or fails when the segment does |
| PageRanges.ComputePageNumbers | pdfutil/src/main.rs:461-472 | the segment loop yields `PageNumbers` of the selection |
| PageRanges.BothAssociative | pdfutil/src/main.rs:462-471 | appending segment results is associative |
| PageRanges.ComplementPageNumbers | pdfutil/src/main.rs:474-482 | exactly the p with 1 ≤ p ≤ total and p not selected, strictly ascending, and empty when total is 0 |

## Left out

- The collaborators are function values, not code. These are:
  - the content grammar and `Content::encode`;
  - `parser::direct_object`;
  - `Stream::decompress`;
  - `std::str::from_utf8`;
  - a font encoding's `decode_text` and `encode_text`;
  - `get_page_fonts` with `get_font_encoding`.

  What they compute is not modelled; the core is proved for every choice of them.
- `change_page_content` and `add_xobject` always succeed here. Their own failure cases are not part of this model.
- `get_and_decode_page_content` (src/parser_aux.rs:36-39) appears only inside the page edits, as the page lookup followed by the content grammar. `Stream::decode_content` (src/parser_aux.rs:29-31) is the same `Content::decode` and is called nowhere in the core, so it is not modelled separately. `add_to_page_content` (src/parser_aux.rs:42-46) is not modelled: it only hands the encoded content to `add_page_contents`, which is not part of this model.
- `ObjectStream::new` works on the decompressed stream as a value. The change `decompress` makes to the caller's stream is not modelled.
- The parallel collection of object-stream pairs is not modelled; the sequential `chunks(2)` path is. Both give the same map.
- `warn!` logging is not modelled. This covers the comparison of the token count with `2·N`; only the lookup of `N`, which can fail, is kept.
- `insert_image`'s `f32` position and size become Dafny reals. Float rounding is not modelled.
- Documents.Document.ReplaceText: requires a non-empty target. With an empty target, `s_len - 1` underflows for an array that collects to empty text (src/parser_aux.rs:366).
- Documents.Document.ReplacePartialText: requires a non-empty search text. An empty pattern makes `contains`, `replace` and `matches` degenerate (src/parser_aux.rs:398-402).
- TextReplacement.ReplaceExactInOperands: requires a non-empty target, for the same reason as `ReplaceText`.
- TextReplacement.ReplacePartialInOperands: requires a non-empty search text, for the same reason as `ReplacePartialText`.
- Documents.Document.AddObject: requires the largest object number to be below `u32::MAX`, because `add_object` computes the next number by adding one. `InsertImage` and `InsertFormObject` carry the same requirement.
- PageRanges.ComputePageNumbers: returns no result where the tool stops or misbehaves. A non-numeric or empty token panics in `unwrap`. In a range `a-b` with b at `u32::MAX`, `nums[1] + 1` (pdfutil/src/main.rs:467) panics in a debug build and wraps to 0 in a release build, where the segment then selects nothing; the model treats it as a failure.
- PageRanges.ComplementPageNumbers: requires `total < u32::MAX`. At `u32::MAX`, `total + 1` (pdfutil/src/main.rs:476) panics in a debug build and wraps to 0 in a release build, which gives an empty list.
- XrefStream.DecodeXref: the object number `start + j` is computed without `i64` overflow and then truncated to 32 bits; an overflow of the `i64` sum itself is not modelled.
- Everything else in the command-line tool, the integration tests and the benchmarks is not part of this model.

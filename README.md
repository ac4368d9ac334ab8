# bible-parser in Dafny

This project models the logic of bible-parser, a small web service that
finds Korean Bible references such as `살후1:8-9` or `계20:10,14-15` in a
message and turns them into PowerPoint slides with the Korean and English
text of each verse. It also proves properties of that model.

The model covers four parts of the program:

- **Extractor** (`bible_parser/book_chapter_verse_extractor.py`). It holds:
  - the 66-entry abbreviation table and its lookup;
  - the reference grammar, as predicates;
  - `extract_content`'s first-match post-processing (`~` becomes `-`);
  - `extract_chapter`, `extract_verse_range`;
  - the `extract_verses` scanner, a loop that keeps three string
    accumulators. It is a method proved equal to a fold of one step per
    character.

  The main theorem is about specs written as comma-separated verses and
  ranges: the scanner reads such a spec back as exactly the verses it
  stands for. The error cases, where Python's `int("")` raises, are stated
  separately.
- **BibleReader** (`bible_parser/bible_reader.py`). It holds:
  - the Korean-to-English book table with `is_valid` and `_get_eng_book`;
  - `_is_alpha_unicode`;
  - the `_remove_annotation` loop with its bracket counter;
  - the loop in `_read_text_from_db` that merges the query's rows per
    verse;
  - `get_text`'s loop over the verses read.
- **PptxBuilder** (`bible_parser/pptx_builder.py`). It holds:
  - the three manifest builders, which append one XML entry per slide and
    splice the result into a template;
  - `build_slide`'s chain of five replacements;
  - `build`, as the sequence of files it writes and the name it returns.
- **App** (`app.py`). It holds:
  - the filter loop of `parse_message`;
  - the split check and the `text_list` loop of `get_bible_text`;
  - a lemma joining the two routes: a line `parse_message` produces is
    accepted back by `get_bible_text`.

Python behaviour is modelled explicitly where it matters:

- `int()` is `PyInt`: an optional sign and a run of ASCII digits. It returns
  `None` where Python raises, and that becomes the `ValueError` result.
- `str.split(' ')` keeps empty parts.
- `str.replace` replaces every occurrence, left to right.
- `dict.get` is `Option`.
- An f-string renders a missing text as `None`.

Integers are unbounded, as in Python.

Behaviours of the code that the model keeps and the proofs make visible:

- `extract_verses` neither sorts nor de-duplicates: `1:3,1,3` gives
  `[3, 1, 3]`.
- `parse_message` fails as a whole on a reference the pattern accepts but
  the scanner cannot read, such as `창1:1,,2` or `창1:-5`. Two commas in a
  row make `int("")` raise wherever they stand (`ParseAllRaises`,
  `DoubleCommaRaises`). An operator with no number before it raises when a
  ',' follows it directly, as in `창1:-,5` (`OperatorThenCommaRaises`), or
  when only digits follow it to the end of the spec, as in `창1:-5`
  (`LeadingOperatorRaises`).
- After a number, such an operator is dropped without a word, whether a ','
  or another operator comes next: `창1:-5,3` reads as `창1:5,3` and gives
  `[5, 3]`, and `창1:-5-7` reads as `창1:5-7` (`LeadingOperatorDropped`).
- `extract_chapter` on a token the grammar matched never raises.
- `_is_alpha_unicode` accepts only the 52 ASCII letters.
- Ranges with `from >= to` are dropped silently.

## Model

| member | source | states |
|---|---|---|
| Extractor.AbbreviationsAreBookTokens | bible_parser/book_chapter_verse_extractor.py:4-73 | every abbreviation key of the 66-entry table is one or two Hangul syllables, so the book pattern can match it |
| Extractor.GetBookFullname | bible_parser/book_chapter_verse_extractor.py:101-102 | the full name is returned exactly when the abbreviation is a key of the table (the table's value), None otherwise |
| Extractor.SplitSpanUnique | bible_parser/book_chapter_verse_extractor.py:73-79 | a span the combined pattern matches splits in exactly one way into the book and chapter:verse tokens the two sub-patterns extract |
| Extractor.SplitSpanMatches | bible_parser/book_chapter_verse_extractor.py:73-79 | the two parts of a matched span are a book token and a chapter:verse token, with an optional space between them |
| Extractor.ExtractContent | bible_parser/book_chapter_verse_extractor.py:93-98 | None exactly when there is no match; otherwise the first match with every '~' replaced by '-', of the same length and without '~' |
| Extractor.DashedTokenStillMatches | bible_parser/book_chapter_verse_extractor.py:74 | replacing '~' by '-' keeps a chapter:verse token in the grammar |
| Extractor.ExtractChapter | bible_parser/book_chapter_verse_extractor.py:104-109 | -1 without ':'; otherwise the text before the first ':' is read by int(), and ValueError comes exactly when it is not an integer literal; otherwise the value is the one int() reads |
| Extractor.ExtractChapterRoundTrip | bible_parser/book_chapter_verse_extractor.py:104-109 | a chapter number written in front of ':' is read back unchanged |
| Extractor.MatchedTokenHasChapter | bible_parser/book_chapter_verse_extractor.py:74 | a token the grammar matches never makes extract_chapter raise, and its chapter is between 0 and 999 |
| Extractor.ExtractVerseRange | bible_parser/book_chapter_verse_extractor.py:146-153 | ValueError exactly when either end is not an integer literal; a list exactly when from < to, None otherwise |
| Extractor.ExtractVerseRangeContents | bible_parser/book_chapter_verse_extractor.py:153 | the list of a range is from, from+1, ..., to: length to-from+1 and element i equal to from+i |
| Extractor.ExtractVerses | bible_parser/book_chapter_verse_extractor.py:111-144 | the loop computes the fold of one step per character followed by the after-loop record (VersesOf); [] without ':' |
| Extractor.ScanErrorSticks | bible_parser/book_chapter_verse_extractor.py:125 | once a step has raised, the rest of the text does not matter |
| Extractor.ScanDigits | bible_parser/book_chapter_verse_extractor.py:120-121 | digits only ever append to num |
| Extractor.ScanComma | bible_parser/book_chapter_verse_extractor.py:123-126 | a ',' after a bare number records that number and resets the accumulators |
| Extractor.ScanOpen | bible_parser/book_chapter_verse_extractor.py:127-130 | any non-digit other than ',' after a bare number opens a range |
| Extractor.ScanCloseRange | bible_parser/book_chapter_verse_extractor.py:131-135 | while a range is open, any non-digit (',' or an operator) records the range's verses and resets everything |
| Extractor.ScanSegment | bible_parser/book_chapter_verse_extractor.py:119-130 | reading one verse or one range from a fresh state leaves it pending |
| Extractor.FinishSegment | bible_parser/book_chapter_verse_extractor.py:137-142 | the statements after the loop record the pending verse or range |
| Extractor.ScanSpecText | bible_parser/book_chapter_verse_extractor.py:119-135 | after a comma-separated list of verses and ranges, all but the last are recorded in order and the last is pending |
| Extractor.VersesOfWellFormedSpec | bible_parser/book_chapter_verse_extractor.py:111-144 | a spec of comma-separated verses and ranges yields exactly the verses they stand for, in the order written; each number is a digit run, leading zeros included |
| Extractor.SinglesSpec | bible_parser/book_chapter_verse_extractor.py:119-126 | numbers joined by ',' are a well-formed spec of single verses that stands for exactly those numbers |
| Extractor.CommaSeparatedVerses | bible_parser/book_chapter_verse_extractor.py:119-138 | comma-separated numbers come back as exactly those numbers, in input order, repeats kept, nothing sorted |
| Extractor.RangeVerses | bible_parser/book_chapter_verse_extractor.py:137-153 | a lone range a<op>b of two digit runs yields a..b when a < b and nothing when a >= b |
| Extractor.SecondOperatorClosesRange | bible_parser/book_chapter_verse_extractor.py:131-135 | in a<op>b<op'>c the second operator closes the range and is discarded, and c becomes a single verse |
| Extractor.EmptySpecRaises | bible_parser/book_chapter_verse_extractor.py:137-138 | nothing after ':' raises (int("")) |
| Extractor.LeadingCommaRaises | bible_parser/book_chapter_verse_extractor.py:124-125 | a spec starting with ',' raises |
| Extractor.DoubleCommaRaises | bible_parser/book_chapter_verse_extractor.py:123-135 | two commas in a row raise, whatever comes before or after them: the first leaves num empty, and the second reads int("") |
| Extractor.OperatorThenCommaRaises | bible_parser/book_chapter_verse_extractor.py:123-148 | an operator directly followed by ',' raises wherever it stands and whatever follows: the range has no end, or the operator itself left num empty |
| Extractor.TrailingOperatorRaises | bible_parser/book_chapter_verse_extractor.py:123-148 | a spec ending in an operator raises, whatever comes before it |
| Extractor.LeadingZerosVerses | bible_parser/book_chapter_verse_extractor.py:118-138 | leading zeros are read as int() reads them: 1:01,02 gives [1, 2] |
| Extractor.ScanSameState | bible_parser/book_chapter_verse_extractor.py:118-135 | two texts that leave the loop's variables equal are treated alike whatever follows them |
| Extractor.LeadingOperatorDropped | bible_parser/book_chapter_verse_extractor.py:123-130 | an operator with no number before it, followed by a number and then any non-digit (',' or another operator), is dropped: the spec reads as if the operator were not there |
| Extractor.LeadingOperatorRaises | bible_parser/book_chapter_verse_extractor.py:127-148 | a spec that opens with an operator and ends in its number, such as -5, raises: the range has no start |
| Extractor.DemonstrationSpec | bible_parser/book_chapter_verse_extractor.py:156-162 | the demonstration's 20:10,14-15 has chapter 20 and verses [10, 14, 15] |
| BibleReader.GetEngBook | bible_parser/bible_reader.py:83-84 | the English name exactly for a key of the Korean-to-English table, None otherwise |
| BibleReader.IsValid | bible_parser/bible_reader.py:79-80 | true exactly for the names _get_eng_book can translate |
| BibleReader.BookNamesUnspaced | bible_parser/bible_reader.py:4-71 | no Korean book name holds a space |
| BibleReader.IsAlphaUnicode | bible_parser/bible_reader.py:87-92 | an accepted character is ASCII and neither a digit nor a Hangul syllable |
| BibleReader.RemoveAnnotation | bible_parser/bible_reader.py:124-143 | the loop computes the bracket-counting filter (WithoutAnnotation); text without a Hangul syllable comes back unchanged |
| BibleReader.RefinedTextIsClean | bible_parser/bible_reader.py:125-143 | without Hangul the text is unchanged; with Hangul the result holds no '(' and no ASCII letter |
| BibleReader.StrippedIsSubsequence | bible_parser/bible_reader.py:128-143 | the filter only drops characters: its result is a subsequence of the input and no longer |
| BibleReader.StripConcat | bible_parser/bible_reader.py:129-138 | outside any bracket, the text before and the text after are filtered independently |
| BibleReader.AnnotationRemoved | bible_parser/bible_reader.py:128-143 | a group from a '(' through the ')' that brings the counter back to 0, nested brackets included, vanishes, and the text around it is filtered as if it were not there |
| BibleReader.FlatAnnotationRemoved | bible_parser/bible_reader.py:128-143 | an annotation "(g)" with no bracket inside vanishes, and the text around it is filtered as if it were not there |
| BibleReader.UnclosedGroupDropsRest | bible_parser/bible_reader.py:134-138 | after an unclosed '(' everything up to a ')' is dropped |
| BibleReader.NoGroupOnlyLettersGo | bible_parser/bible_reader.py:134-141 | without '(' only the ASCII letters are dropped; a stray ')' is kept |
| BibleReader.GlossExample | bible_parser/bible_reader.py:124-143 | "빛(Light)" becomes "빛" |
| BibleReader.NestedGlossExample | bible_parser/bible_reader.py:124-143 | a nested annotation goes as a whole: "빛(가(나)다)라" becomes "빛라" |
| BibleReader.ReadTextFromDb | bible_parser/bible_reader.py:94-122 | an unknown book gives the empty dict; otherwise the merge of the rows |
| BibleReader.MergeVerseRows | bible_parser/bible_reader.py:109-120 | the loop over the rows computes the merge (MergeRows) |
| BibleReader.MergeRowsJoinsTexts | bible_parser/bible_reader.py:109-120 | a verse is a key exactly when some row has it, and its text is the texts of its rows joined by " " in row order |
| BibleReader.MergeRowsKeys | bible_parser/bible_reader.py:116 | the keys are exactly str() of the rows' verse numbers |
| BibleReader.SingleRowVerse | bible_parser/bible_reader.py:117-120 | a verse stored as one row keeps its text unchanged |
| BibleReader.GetText | bible_parser/bible_reader.py:145-156 | the verses read, each text refined (RefinedTextOf) |
| BibleReader.RefineTexts | bible_parser/bible_reader.py:147-154 | exactly the keys of the fetched dict; each text passed through _remove_annotation when asked, unchanged otherwise |
| PptxBuilder.BuildContentTypes | bible_parser/pptx_builder.py:70-78 | the template with every marker replaced by the Override entries of slides 0 .. n-1 in order |
| PptxBuilder.BuildPresentation | bible_parser/pptx_builder.py:81-90 | the template with every marker replaced by the p:sldIdLst element holding the entries of slides 0 .. n-1 |
| PptxBuilder.BuildPresentationRels | bible_parser/pptx_builder.py:93-101 | the template with every marker replaced by the Relationship entries of slides 0 .. n-1 |
| PptxBuilder.EntriesHoldEachSlide | bible_parser/pptx_builder.py:72-96 | every slide below the count has its entry in the built fragment |
| PptxBuilder.FragmentSplicedIntoTemplate | bible_parser/pptx_builder.py:78-101 | a template with one marker becomes the text before it, the fragment, and the text after it |
| PptxBuilder.TemplateWithoutMarker | bible_parser/pptx_builder.py:69-78 | a template without the marker is returned unchanged |
| PptxBuilder.SlideFileNamesDistinct | bible_parser/pptx_builder.py:51-73 | different slides get different slide{i+1}.xml names |
| PptxBuilder.RelIdsDistinct | bible_parser/pptx_builder.py:84-96 | different slides get different rId{i+11} ids |
| PptxBuilder.SlideIdEntriesDistinct | bible_parser/pptx_builder.py:84 | no two slides share a slide-list entry |
| PptxBuilder.PackageEntriesAgree | bible_parser/pptx_builder.py:73-96 | slide i's Override, Relationship and sldId entries name the same slide file and the same rId{i+11} |
| PptxBuilder.SlideWithoutPlaceholders | bible_parser/pptx_builder.py:104-116 | a slide template with none of the five placeholders comes back unchanged |
| PptxBuilder.ReplacementsCascade | bible_parser/pptx_builder.py:108-116 | the replacements run in order over the whole text, so a value that spells a later placeholder is replaced again |
| PptxBuilder.Build | bible_parser/pptx_builder.py:20-67 | the error file's path and nothing written for a missing or empty list; otherwise the output name and the three manifests followed by two files per slide |
| PptxBuilder.WriteSlides | bible_parser/pptx_builder.py:45-54 | the loop writes the slide file and its relationships file for each text, in order |
| PptxBuilder.SlidePartsInOrder | bible_parser/pptx_builder.py:45-54 | two files per text; slide i is written to slide{i+1}.xml, filled with text i |
| PptxBuilder.SlidePathsDistinct | bible_parser/pptx_builder.py:51 | no two slides are written to the same file |
| PptxBuilder.OutputFilenameShape | bible_parser/pptx_builder.py:62-63 | the output name starts with the English name and a space; ':' in the chapter:verse part becomes '_', so the name holds no ':' when the English name holds none |
| PptxBuilder.DemonstrationFilename | bible_parser/pptx_builder.py:119-149 | Proverbs 18:12,13 is written as "Proverbs 18_12,13.pptx" |
| App.FullnamesAreReaderBooks | app.py:42 | every full name of the abbreviation table is a book the reader's table can translate |
| App.CandidateChapterVerse | app.py:76-80 | the chapter:verse part of a matched span is in the grammar, holds no '~', and extract_chapter does not raise on it |
| App.ResolveRaises | app.py:80-81 | a candidate raises exactly when extract_verses raises on its chapter:verse part |
| App.ResolveKeeps | app.py:79-85 | a candidate is kept exactly when the abbreviation resolves, the chapter is > 0 and the verse list is non-empty; the line is then "{full name} {chapter:verse}" |
| App.ResolveKept | app.py:76-85 | a span with a '~'-free chapter:verse token whose parts pass the three tests is kept as "{full name} {chapter:verse}" |
| App.ResolveSpan | app.py:76-85 | one iteration of the loop computes the candidate's outcome (Resolve) |
| App.ParseMessage | app.py:74-87 | the loop gives the reply for the list of matches (ParseAll), or ValueError as soon as one candidate raises |
| App.ParseAllRaises | app.py:74-85 | the request fails exactly when some candidate raises |
| App.ParseAllLines | app.py:74-85 | at most one line per match, and each line is the line of a kept candidate |
| App.ParseAllConcat | app.py:74-85 | matches are handled in order: the reply for a + b is the reply for a followed by the reply for b |
| App.CollectRaises | app.py:74-85 | the loop's result raises exactly when one of the outcomes does, wherever it stands |
| App.CollectConcat | app.py:74-85 | the lines of two runs of outcomes are concatenated in order |
| App.DemonstrationMessage | bible_parser/book_chapter_verse_extractor.py:158 | the message 살후1:8-9 is answered with ["데살로니가후서 1:8-9"] |
| App.GetBibleText | app.py:15-58 | the split check, then what GatherTexts gives for the two parts (BibleTextOf) |
| App.GatherTexts | app.py:23-58 | ValueError where extract_chapter or extract_verses raises; otherwise the book, its English name, the chapter:verse token and the text list |
| App.BuildTextList | app.py:48-55 | the loop builds one entry per verse, in the order of the verse list (TextList) |
| App.VerseEntryText | app.py:50-53 | an entry is "{verse}. " followed by the verse's text, or by "None" when the dict has no text for it |
| App.SplitCheck | app.py:19-21 | the "Error" reply comes exactly when the word does not hold exactly one space |
| App.SplitWord | app.py:19-25 | a word with one space is its two space-free halves joined by that space |
| App.FoundTexts | app.py:19-58 | a found reply holds the two halves of the word, the English name from the table, and the text list of the verse list |
| App.GatherAccepts | app.py:26-58 | for a known book and a chapter:verse token that does not raise, the English name is found and there is one entry per verse |
| App.LineIsAcceptedBack | app.py:19-85 | a line parse_message produces, sent as bible_word, is accepted by get_bible_text with the same book and chapter:verse, a found English name and one entry per verse of a non-empty list |
| Strings.PyInt | bible_parser/book_chapter_verse_extractor.py:109 | int() succeeds exactly on an integer literal, and a run of digits gives a non-negative value |
| Strings.IntToStringRoundTrip | app.py:50 | int(str(i)) == i |
| Strings.DecimalOfNatToString | bible_parser/bible_reader.py:116 | reading back what str() wrote gives the number again |
| Strings.Split | app.py:19 | split(' ') gives one more part than there are separators, none of them holding the separator |
| Strings.JoinSplit | app.py:19 | joining the parts of a split with the separator gives the text back |
| Strings.SplitAtOnlySeparator | app.py:19-25 | a text with exactly one separator splits into the parts on either side |
| Strings.ReplaceAbsent | bible_parser/book_chapter_verse_extractor.py:98 | replace() leaves a text without the pattern unchanged |
| Strings.ReplaceOnlyOccurrence | bible_parser/pptx_builder.py:78 | replace() of a single occurrence puts the replacement in its place |
| Strings.ReplaceCharPointwise | bible_parser/book_chapter_verse_extractor.py:98 | replacing one character by another works character by character and keeps the length |

## Left out

- The regular-expression engine and `findall`. `parse_message` takes the
  list of matched spans as its input, each required to satisfy the grammar
  predicate. The two sub-pattern extractions on a span are modelled by a
  splitter that is proved to be the unique split.
- `extract_content` with no match: the splitter always finds both parts of a
  matched span, so the None branch is modelled in `ExtractContent` but never
  reached from `parse_message`.
- SQLite: the connection, the cursor and the SQL text. The rows the query
  returns are a parameter, in the order the query returns them.
  `get_bible_text` takes the Korean and the English rows as two parameters.
- Flask: the routes, `request.args`, `jsonify`, `render_template` and
  `send_from_directory`. The "Error" reply is the datatype value
  `ErrorResponse`, and a raised ValueError is the `ValueError` result.
- File I/O. The templates read from disk are parameters. The files `build`
  writes are returned as a list of (path, content) parts. Copying the base
  directory, removing the `.keep` files, zipping and renaming are not
  modelled.
- `time.time()`: the working-directory name is a parameter of `Build`.
- `Strings.PyInt`: does not accept the surrounding whitespace, underscores
  or non-ASCII digits that Python's `int()` also accepts. No token the
  grammar admits contains them, so `parse_message` is unaffected. In
  `get_bible_text` the chapter:verse part is raw request text. For a word
  such as `창세기 1_0:1` or `창세기 \t1:1`, Python reads the chapter as 10
  or 1 and goes on. `App.GatherTexts` and `App.GetBibleText` return
  `ValueError` for it instead.
- Two parts of the tables are not proved: that every key of the reader's
  table is a value of the abbreviation table, and the tables' sizes. Only
  the direction `app.py` relies on is proved (FullnamesAreReaderBooks).
- The order in which `get_text` visits the verses of a dict. The result is a
  map, so the order does not change it.
- `BibleReader.IsAlphaUnicode`: its contract states only that an accepted
  character is ASCII and neither a digit nor Hangul, not that it is exactly
  one of the 52 letters, because that would only repeat the body.
- XML escaping of substituted text: the program does none, and the model
  adds none.
- `book_eng` being None when it reaches `build_slide` and `build`. This
  happens only in the slide-download route, which is not part of the model.
  There `Build` takes a string.
- The `__main__` demonstration blocks. Their inputs appear only as the
  Demonstration lemmas.

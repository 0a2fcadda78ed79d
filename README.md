# BibTeX validator and deduplication engine, modelled in Dafny

This project models two line-oriented BibTeX tools and proves properties of them.

**The structural validator** runs these checks on a bibliography file:
- **LaTeX escapes.** It reports every diacritic escape (`\"u`, `{\'i}`, `{\ss}`, …) and proposes the Unicode letter that replaces it.
- **Duplicate keys.** It reports every repeated citation key.
- **Duplicate fields.** A brace-depth scanner reports every field declared twice in one entry.
- **Required fields.** It reports what each known entry type requires but the entry lacks. A `book` may have an author or an editor.
- **Legacy fields.** It reports BibLaTeX field names with their BibTeX counterparts.
- **The orchestrator** runs the stages in a fixed order:
  1. a missing file stops the run;
  2. text that is not UTF-8 stops the run;
  3. the text checks run;
  4. the entry checks run, unless the parser rejected the text.

**The deduplication engine** reads several `.bib` texts:
- It cuts each text into chunks at lines starting with `@`.
- It keeps `@comment` blocks as they are.
- It merges entries by citation key. The first text is kept. When a later copy ranks higher, its importance tag (`Low` < `Medium` < `High`, a word in the `keywords` field) is written into the kept text.
- It then merges entries whose normalised DOI is the same. The normal form is trimmed, lower-cased and without an `https://doi.org/` or `https://dx.doi.org/` prefix.
- It writes the comments, then the surviving entries, and returns the removed keys. The per-entry duplicate-field scan is returned as warnings.

**Where the behaviour comes from.** The behaviour modelled is the one the two test suites pin down (`tests/test_bib_validator.py` and `tests/test_dedupe_bib.py`). The implementation modules they import are not part of this model.

**How the model is written:**
- Texts are `seq<char>`.
- A text is split into lines with Python's `str.split('\n')` semantics (`Text.SplitLines`).
- Diagnostics are structured values (key, field, line numbers, replacement letter), not message strings.
- Each imperative part is a `method` with a loop, proved equal to a prefix-recursive specification function:
  - the duplicate-key check;
  - the duplicate-field scan;
  - the escape detector;
  - the orchestrator;
  - the two merge passes of the deduplication.
- The properties are lemmas about those functions.

**Modules:**
- `Text`: character classes, `Lower`, `Trim`, `SplitLines`/`JoinLines`.
- `BibLine`: header lines, citation keys, field declarations and brace balance of one line.
- `Occurrences`: the first-seen map and repeat reports shared by the key and field checks.
- `DuplicateKeys`: the duplicate-key check.
- `FieldScanner`: the duplicate-field scan.
- `FieldChecks`: soundness of the duplicate-field scan over classified lines.
- `FieldComplete`: completeness of the duplicate-field scan: the entries it builds, and every repeated declaration reported.
- `FieldCases`: classification of header, field and closing lines, and worked texts.
- `LatexEscapes`: the escape tables, the detector and its context.
- `EntryChecks`: the required-field and legacy-field tables and checks.
- `Validator`: the orchestrator.
- `EntryFields`: the first line declaring a field.
- `Importance`: `parse_importance` and `upgrade_importance`.
- `Doi`: `extract_doi`.
- `Chunking`: chunks and records.
- `KeyMerge`: the key pass.
- `DoiMerge`: the DOI pass.
- `Dedupe`: the whole run, with its methods.
- `DedupeFacts`: what a run guarantees.

Modelling decisions:
- **Entry headers and keys.** A header is `@`, a word, optional whitespace and `{` at column 0. The key is the text between `{` and the first `,`, trimmed. Keys keep their letter case. A `@comment` header has no key.
- **Field declarations.** A field declaration is `name =` at the start of a line, or right after the key on a header line. Field names are compared in lower case.
- **The field scanner.** It records a declaration only when the brace depth at the start of its line is 1. A header line always starts a new entry. A block opened by a header without a key (`@comment`) is skipped.
- **The importance tag.** It is the first whole word `Low`, `Medium` or `High` after the `=` of the first `keywords` declaration, on that line. Without one the entry is `Low`. An upgrade rewrites that word only; an entry without a tag is left as it is.
- **The DOI.** It is the braced value of the first `doi` declaration (any letter case), normalised. Only one resolver prefix is stripped. A value whose normal form is empty counts as no DOI.
- **The key pass.** The first entry under a key keeps its place and its text. A later copy is reported as removed. If the copy ranks strictly higher, the kept text's tag is rewritten to the copy's level.
- **The DOI pass.** It reads the kept entries in insertion order:
  - a strictly higher-ranked entry takes a DOI from its owner;
  - on a tie, the earlier entry keeps the DOI;
  - the key of the entry that loses is reported.
- **Output.** Every written text is trimmed and followed by a blank line. The comments come first, then the entries.
- **Stray chunks.** A chunk that is neither a comment nor a keyed entry is dropped.

## Model

| member | source | states |
|---|---|---|
| BibLine.KeyOf | tests/test_bib_validator.py:334-338 | a key comes only from an entry header that is not `@comment` and is never empty; any other line has none |
| BibLine.CitationKey | tests/test_bib_validator.py:122-139 | a citation key is non-empty and holds no comma |
| BibLine.EntryType | tests/test_bib_validator.py:586-595 | the entry type of a header is a non-empty run of word characters |
| BibLine.DeclaredField | tests/test_bib_validator.py:457-469 | a declaration's value starts right after an `=` of the line |
| BibLine.HeaderLine | tests/test_bib_validator.py:334-346 | every header `@t{k,...` has entry type t in lower case; its key is k, letter case kept, unless t is `comment` in any letter case, and then it has none |
| BibLine.DeclaredFieldText | tests/test_bib_validator.py:457-469 | a line of any indentation, none included, then `name = ...` declares `name` in lower case, its value right after the `=` |
| BibLine.HeaderFieldText | tests/test_bib_validator.py:321-324 | a header `@t{k, name = ...` declares `name` in lower case after its key |
| BibLine.HeaderWithoutField | tests/test_bib_validator.py:361-369 | a header ending right after its key's comma declares no field |
| Occurrences.FirstLinesAreFirst | tests/test_bib_validator.py:413-425 | the first-seen map holds, for every name, the line of its first occurrence |
| Occurrences.RepeatsCount | tests/test_bib_validator.py:322-332 | n occurrences over d distinct names give exactly n - d repeat reports |
| Occurrences.RepeatsPerName | tests/test_bib_validator.py:315-332 | a name occurring n ≥ 1 times is reported exactly n - 1 times |
| Occurrences.RepeatsEmptyIffDistinct | tests/test_bib_validator.py:309-313 | no report exactly when no name occurs twice |
| Occurrences.RepeatsSound | tests/test_bib_validator.py:413-425 | every report names a first occurrence at its `first` line and a later one at its `line` |
| Occurrences.RepeatsOrdered | tests/test_bib_validator.py:413-425 | in a stream read in line order, a report's first line precedes its repeated line |
| Occurrences.RepeatAfterDistinct | tests/test_bib_validator.py:361-375 | after distinct names, a second occurrence of one of them is the only report, pointing at both lines |
| Occurrences.FirstIndex | tests/test_bib_validator.py:315-320 | every name that occurs has a first occurrence |
| DuplicateKeys.CheckDuplicateKeys | tests/test_bib_validator.py:306-346 | the line loop with its key-to-first-line map returns exactly the specified duplicate-key report |
| DuplicateKeys.NoDuplicateKeysIff | tests/test_bib_validator.py:309-313 | no diagnostic exactly when no citation key is recorded twice |
| DuplicateKeys.DuplicateKeyCounts | tests/test_bib_validator.py:315-332 | a key on n headers is reported n - 1 times, and the report holds one diagnostic per header beyond the first of each key |
| DuplicateKeys.DuplicateKeySound | tests/test_bib_validator.py:315-320 | each diagnostic names a key and two header lines carrying it, the first one earlier |
| DuplicateKeys.TextKeysComplete | tests/test_bib_validator.py:315-332 | every header with a key is recorded at its own line |
| DuplicateKeys.TextKeysSound | tests/test_bib_validator.py:334-338 | everything recorded is the key of a non-`@comment` header at that header's line |
| DuplicateKeys.CommentHeaderNoKey | tests/test_bib_validator.py:334-338 | a `@comment` header never takes part in the check |
| DuplicateKeys.DistinctKeysPass | tests/test_bib_validator.py:340-346 | any two-line text of headers `@t1{k1,...` and `@t2{k2,...` with k1 ≠ k2, even when they differ only in letter case, gives no diagnostic |
| DuplicateKeys.TwoLineKeys | tests/test_bib_validator.py:340-346 | the report over a two-line text is the repeat report over the two lines' keys |
| DuplicateKeys.TwoKeysReport | tests/test_bib_validator.py:334-346 | two lines repeat no key when their keys differ or at most one has a key |
| DuplicateKeys.CaseSensitiveKeys | tests/test_bib_validator.py:340-346 | `@article{Test2020, title = {A}}` over `@article{test2020, title = {B}}` gives no diagnostic |
| DuplicateKeys.KeyEventsAscending | tests/test_bib_validator.py:413-425 | keys are recorded in strictly increasing line order |
| FieldScanner.CheckDuplicateFields | tests/test_bib_validator.py:353-469 | the check over a text (split, classify, scan) returns exactly the specified duplicate-field report |
| FieldScanner.ClassifyLines | tests/test_bib_validator.py:443-469 | the classifying loop yields each line's header flag, key, declared field and brace balance |
| FieldScanner.ScanForDuplicateFields | tests/test_bib_validator.py:377-395 | the line loop with brace depth, open-entry flag and per-entry field map returns exactly the specified report |
| FieldScanner.Advance | tests/test_bib_validator.py:443-455 | one loop step follows the scanner's step function on one line |
| FieldScanner.FieldLineStep | tests/test_bib_validator.py:413-425 | a field at depth 1 is checked against the entry's earlier fields and recorded with its line |
| FieldChecks.ScanKeeps | tests/test_bib_validator.py:443-469 | after any text, every recorded field lies at brace depth 1 of an entry still open, below its header |
| FieldChecks.FieldReportSound | tests/test_bib_validator.py:413-425 | every diagnostic points at two declarations of the named field, the first earlier, both at depth 1 of one entry whose header carries the named key |
| FieldChecks.EntryReportSound | tests/test_bib_validator.py:377-395 | a diagnostic of one entry names that entry's key and two of its own declarations |
| FieldChecks.CommentLineOwnerless | tests/test_bib_validator.py:397-411 | a declaration after a `@comment` header, before the next header, belongs to no entry |
| FieldChecks.CommentBlockSilent | tests/test_bib_validator.py:397-411 | lines inside a `@comment` block never appear in a diagnostic |
| FieldChecks.ReportEmptyIff | tests/test_bib_validator.py:356-359 | no diagnostic exactly when no entry records a field twice |
| FieldChecks.FieldReportEmptyIff | tests/test_bib_validator.py:356-359 | the report over a text is empty exactly when no scanned entry records a field twice |
| FieldChecks.ScanFlatEntry | tests/test_bib_validator.py:361-375 | a one-field-per-line entry records every field at its own line |
| FieldChecks.FlatEntryReport | tests/test_bib_validator.py:377-395 | a one-field-per-line entry's diagnostics come from its repeated names alone, tagged with its key |
| FieldChecks.RepeatLastReported | tests/test_bib_validator.py:457-469 | distinct fields one per line, then one of them again on the last field line, give exactly one diagnostic: the key, that field, its first line and the last field line |
| FieldChecks.RepeatedFieldReported | tests/test_bib_validator.py:413-425 | fields a, b, c, f, f on lines 2-6 give exactly one diagnostic: the key, f, lines 5 and 6 |
| Occurrences.RepeatsComplete | tests/test_bib_validator.py:413-425 | every later occurrence of a name is reported with the line of its first occurrence |
| FieldComplete.ScannedEntriesExact | tests/test_bib_validator.py:377-411 | the scanner's entries are exactly the keyed headers in order, each with every declaration at depth 1 before the next header, in line order |
| FieldComplete.FieldReportComplete | tests/test_bib_validator.py:413-425 | a field declared twice in one keyed entry is reported with its key, its first line and the later line |
| FieldComplete.FieldRepeatReported | tests/test_bib_validator.py:361-375 | every repeated declaration of a field in a keyed entry is reported at its own line, against a first line no later than any earlier declaration |
| FieldComplete.FieldDiagnosticsCount | tests/test_bib_validator.py:361-375 | a field declared n ≥ 1 times in a keyed entry gets exactly n - 1 diagnostics, and one never declared gets none |
| FieldComplete.FieldReportEmptyIffSingle | tests/test_bib_validator.py:356-359 | no diagnostic exactly when no keyed entry declares a field twice |
| FieldCases.ClassifyHeader | tests/test_bib_validator.py:457-469 | a header `@t{k,` that is not `@comment` is classified as a header with key k, no field and balance +1 |
| FieldCases.ClassifyField | tests/test_bib_validator.py:457-469 | a line `name = {value}...` of any indentation is classified as declaring `name` in lower case, balance 0 |
| FieldCases.FlatText | tests/test_bib_validator.py:457-469 | a header line, unindented `name = {value}` lines and `}` classify as the one-field-per-line entry with those names |
| FieldCases.UnindentedFieldsDetected | tests/test_bib_validator.py:457-469 | the unindented entry with `note` declared twice, read as text, gives exactly one diagnostic: `test2023`, `note`, lines 6 and 7 |
| LatexEscapes.FindEscapes | tests/test_bib_validator.py:231-299 | the scan of one line, resuming after each occurrence, returns exactly the specified occurrences |
| LatexEscapes.CheckLatexEscapes | tests/test_bib_validator.py:231-299 | the line loop, updating key and field context before each line, returns exactly the specified report |
| LatexEscapes.EscapeSound | tests/test_bib_validator.py:242-299 | every occurrence is the line's own text where an escape is recognised, starts with `\` or `{\`, and carries that escape's replacement |
| LatexEscapes.EscapesDisjoint | tests/test_bib_validator.py:292-299 | the occurrences of a line do not overlap |
| LatexEscapes.EscapeCovered | tests/test_bib_validator.py:242-299 | every escape in a line lies within a reported occurrence, its own or the group around it |
| LatexEscapes.NoBackslashNoEscape | tests/test_bib_validator.py:234-240 | a line without a backslash has no occurrence |
| LatexEscapes.CleanTextSilent | tests/test_bib_validator.py:234-240 | a text without a backslash gives no diagnostic |
| LatexEscapes.AccentReported | tests/test_bib_validator.py:242-280 | an unbraced accent on a letter, alone in its line, is the one occurrence, with the composed letter (or `?`) |
| LatexEscapes.GroupedAccentReported | tests/test_bib_validator.py:262-271 | a grouped accent `{\"u}` is one occurrence, not two |
| LatexEscapes.GroupedLigatureReported | tests/test_bib_validator.py:282-290 | a grouped ligature `{\ss}` is one occurrence, with the ligature's letter |
| LatexEscapes.OnlyEscape | tests/test_bib_validator.py:242-299 | an escape between stretches without backslashes is the line's one occurrence |
| LatexEscapes.UmlautExample | tests/test_bib_validator.py:242-250 | `M\"uller` gives one occurrence, replaced by ü |
| LatexEscapes.AcuteExample | tests/test_bib_validator.py:252-260 | `Garc\'ia` gives one occurrence, replaced by í |
| LatexEscapes.GraveExample | tests/test_bib_validator.py:262-271 | `caf{\`e}` gives one occurrence, replaced by è |
| LatexEscapes.TildeExample | tests/test_bib_validator.py:273-280 | `Espa\~na` gives one occurrence, replaced by ñ |
| LatexEscapes.EszettExample | tests/test_bib_validator.py:282-290 | `Stra{\ss}e` gives one occurrence, replaced by ß |
| LatexEscapes.BracedUmlautExample | tests/test_bib_validator.py:292-299 | `{\"a}rger` gives one occurrence, replaced by ä |
| LatexEscapes.EscapeReportSound | tests/test_bib_validator.py:231-299 | every diagnostic is an occurrence found on its line, attributed to the key and field in force there |
| LatexEscapes.EscapeReportComplete | tests/test_bib_validator.py:231-299 | every occurrence on every line is reported with that line's number and context |
| LatexEscapes.EscapeReportCount | tests/test_bib_validator.py:111-120 | one diagnostic per occurrence: several escapes in a text are reported separately |
| LatexEscapes.PlainLinesSilent | tests/test_bib_validator.py:234-240 | lines without a backslash give no diagnostic |
| LatexEscapes.ContextKey | tests/test_bib_validator.py:242-250 | the key in force on a line is that of the last header at or before it, none after `@comment` |
| LatexEscapes.ContextKeyBeforeHeaders | tests/test_bib_validator.py:234-240 | before the first header no key is in force |
| LatexEscapes.ContextField | tests/test_bib_validator.py:242-250 | the field in force is the one last declared in the entry |
| EntryChecks.UnmetMember | tests/test_bib_validator.py:561-575 | an entry's diagnostics are exactly its unmet requirements' diagnostics |
| EntryChecks.UnmetEmpty | tests/test_bib_validator.py:521-559 | an entry gets no diagnostic exactly when it meets every requirement of its type |
| EntryChecks.RequiredFieldMember | tests/test_bib_validator.py:518-595 | a diagnostic is in the report exactly when some entry misses a requirement of its type |
| EntryChecks.RequiredFieldsPass | tests/test_bib_validator.py:521-559 | the check passes exactly when every entry meets every requirement of its type |
| EntryChecks.UnknownTypePasses | tests/test_bib_validator.py:586-595 | an entry of a type outside the table has no required fields |
| EntryChecks.BookAuthorOrEditor | tests/test_bib_validator.py:529-544 | a book passes with an author or an editor; with neither it gets the one author-or-editor diagnostic |
| EntryChecks.ArticleMissingJournalAndYear | tests/test_bib_validator.py:561-575 | an article with author and title only is reported for journal and for year |
| EntryChecks.CompleteEntriesPass | tests/test_bib_validator.py:521-559 | complete articles, books, inproceedings and incollections pass |
| EntryChecks.LegacyUsesMember | tests/test_bib_validator.py:613-657 | an entry's legacy diagnostics are exactly the legacy names it uses, each with its standard name |
| EntryChecks.LegacyFieldMember | tests/test_bib_validator.py:602-657 | a diagnostic is in the report exactly when some entry uses a legacy name; it names the key, the name and the standard name |
| EntryChecks.LegacyFieldsPass | tests/test_bib_validator.py:605-611 | the check passes exactly when no entry uses a legacy name |
| EntryChecks.LegacyNamesReported | tests/test_bib_validator.py:613-657 | `journaltitle`, `date` and `location` are reported with `journal`, `year` and `address` |
| Validator.Validate | tests/test_bib_validator.py:664-726 | the orchestrator running the stages returns exactly the specified report |
| Validator.ValidIff | tests/test_bib_validator.py:667-674 | valid exactly when the error list is empty, exactly when the file exists, decodes, parses and every check is empty |
| Validator.NotFoundOnly | tests/test_bib_validator.py:676-683 | a missing file gives one error, and it is "not found" |
| Validator.EncodingStopsEarly | tests/test_bib_validator.py:708-716 | text that does not decode gives the encoding error alone, whatever the parser would say |
| Validator.SyntaxSkipsEntryChecks | tests/test_bib_validator.py:718-726 | a parser failure gives a syntax error, makes the file invalid, and no entry check runs |
| Validator.ErrorsAccumulate | tests/test_bib_validator.py:685-706 | every diagnostic of every check is in the report, which holds exactly as many as the checks produce together |
| Validator.TextErrorsNotSemantic | tests/test_bib_validator.py:718-726 | the text checks never produce an entry defect |
| EntryFields.FieldLine | tests/test_dedupe_bib.py:427-430 | the first line declaring a field (name compared in lower case), or none when no line declares it |
| EntryFields.FieldLineReplace | tests/test_dedupe_bib.py:113-129 | rewriting a line without changing its declaration keeps every field's first line |
| Importance.Max | tests/test_dedupe_bib.py:181-223 | the higher of two levels is one of them and ranks at least as high as both |
| Importance.LevelNamed | tests/test_dedupe_bib.py:83-93 | a word names a level exactly when it is that level's name, case-sensitively |
| Importance.TagFacts | tests/test_dedupe_bib.py:83-93 | the tag is a level word on the first `keywords` line, after its `=` |
| Importance.TagFirst | tests/test_dedupe_bib.py:83-93 | the tag is the first level word after that `=` |
| Importance.TagAt | tests/test_dedupe_bib.py:83-93 | conversely, the first level word after the `=` of the first `keywords` declaration is the tag |
| Importance.NoTagIff | tests/test_dedupe_bib.py:95-103 | no tag exactly when there is no `keywords` declaration or no level word after its `=` |
| Importance.UpgradeLines | tests/test_dedupe_bib.py:113-129 | an upgrade changes only the tag's word, replaced by the new level's name |
| Importance.UpgradeThenParse | tests/test_dedupe_bib.py:113-129 | an upgraded entry parses back as the new level, with its tag at the same place |
| Importance.NoTagUnchanged | tests/test_dedupe_bib.py:95-135 | an entry without a tag parses as Low and an upgrade returns it unchanged |
| Importance.UpgradeToOwnLevel | tests/test_dedupe_bib.py:203-223 | rewriting an entry to its own level changes nothing |
| Importance.UpgradeTwice | tests/test_dedupe_bib.py:181-201 | upgrading twice is upgrading once to the second level |
| Importance.RetagOwnTag | tests/test_dedupe_bib.py:203-223 | writing the tag's own level over it gives the line back |
| Importance.RetagTwice | tests/test_dedupe_bib.py:181-201 | the second rewrite of a tag replaces the first |
| Importance.RetagFacts | tests/test_dedupe_bib.py:113-129 | a level name put in place of a whole word is a level word |
| Importance.TagAfterRewrite | tests/test_dedupe_bib.py:113-129 | rewriting the tag's line after the `=` keeps the tag at the rewritten word |
| Doi.StripResolver | tests/test_dedupe_bib.py:402-410 | stripping removes a leading part only, and nothing from a value without a resolver prefix |
| Doi.BracedValue | tests/test_dedupe_bib.py:397-400 | a braced value is non-empty and holds no closing brace |
| Doi.NormalizedIsLower | tests/test_dedupe_bib.py:412-415 | a normal form has no upper-case letter |
| Doi.NormalizeIgnoresCase | tests/test_dedupe_bib.py:412-415 | values equal up to letter case have the same normal form |
| Doi.ResolverForms | tests/test_dedupe_bib.py:397-410 | a DOI behind `https://doi.org/`, behind `https://dx.doi.org/` and bare has one normal form, its lower-case spelling |
| Doi.SpacesAround | tests/test_dedupe_bib.py:422-425 | whitespace around a DOI does not enter its normal form |
| Doi.NormalizeAgain | tests/test_dedupe_bib.py:488-508 | normalising a normal form again changes nothing (unless a second prefix surfaces) |
| Doi.NormalFormFixed | tests/test_dedupe_bib.py:397-400 | a trimmed, lower-case value without prefix is its own normal form |
| Doi.NoDoiField | tests/test_dedupe_bib.py:417-420 | an entry without a `doi` declaration has no DOI |
| Doi.DoiSound | tests/test_dedupe_bib.py:394-430 | a DOI is the non-empty normal form of the braced value of the first `doi` declaration |
| Doi.DeclarationLine | tests/test_dedupe_bib.py:427-430 | `  DOI = {v}` in any letter case declares field `doi` with braced value `v` |
| Doi.DoiOfDeclaration | tests/test_dedupe_bib.py:397-430 | an entry whose first `doi` line is `  DOI = {v}` has the normal form of `v` as its DOI, none if that is empty |
| Doi.DoiAt | tests/test_dedupe_bib.py:394-430 | the DOI comes from the first declaring line's braced value |
| Chunking.Chunks | tests/test_dedupe_bib.py:158-179 | chunks are non-empty, no more than the lines, and a non-empty text has one |
| Chunking.ChunksCover | tests/test_dedupe_bib.py:253-263 | chunking loses, adds and reorders no line |
| Chunking.ChunksStart | tests/test_dedupe_bib.py:266-299 | every chunk but the first opens with an `@` line and holds no other |
| Chunking.RecordOf | tests/test_dedupe_bib.py:225-251 | a chunk is a comment exactly when its first line is `@comment`, an entry exactly when that line carries a key, with the importance its text parses as |
| Chunking.Records | tests/test_dedupe_bib.py:145-156 | one record per chunk, in order, each the record of its chunk |
| Chunking.ChunkKeys | tests/test_dedupe_bib.py:145-179 | the entry records of the chunks carry exactly the keys of the keyed header lines, in order |
| Chunking.FileEntryKeys | tests/test_dedupe_bib.py:145-179 | the entry records of an input text carry exactly the keys of its keyed header lines, in order |
| Chunking.EmptyFileRecords | tests/test_dedupe_bib.py:301-317 | an empty text holds stray text only |
| KeyMerge.FirstsSound | tests/test_dedupe_bib.py:158-179 | the first entry under each key is the earliest entry with that key |
| KeyMerge.BestIsMax | tests/test_dedupe_bib.py:181-223 | the best level under a key is the highest among its entries and one of them |
| KeyMerge.KeyPassAccounts | tests/test_dedupe_bib.py:266-299 | the key order lists each kept key once, and order plus removed keys are exactly the keys read |
| KeyMerge.KeyPassKeeps | tests/test_dedupe_bib.py:158-223 | the kept entry under each key is the first entry's text, retagged to the highest level seen only when that is higher |
| KeyMerge.KeptTagReadsBack | tests/test_dedupe_bib.py:181-223 | importance is never lowered, and a tagged kept text parses as the level it is kept under |
| KeyMerge.DistinctKeysKeepAll | tests/test_dedupe_bib.py:145-156 | without repeated keys nothing is removed and every entry is kept, in order, with its own text |
| DoiMerge.DoiPassInvariant | tests/test_dedupe_bib.py:437-558 | owners carry their DOI and survive, every DOI entry is owner or removed, no entry outranks its owner, ties go to the earlier entry |
| DoiMerge.SurvivorDoisDistinct | tests/test_dedupe_bib.py:440-463 | no two survivors share a DOI |
| DoiMerge.NoDoiSurvives | tests/test_dedupe_bib.py:510-529 | an entry without a DOI survives |
| DoiMerge.RemovedHasWinner | tests/test_dedupe_bib.py:465-486 | a removed entry has a surviving entry with its DOI and at least its level, the earlier one on a tie |
| DoiMerge.DoiPassRemoved | tests/test_dedupe_bib.py:440-463 | removed keys are keys read, each once |
| DoiMerge.DistinctDoisKeepAll | tests/test_dedupe_bib.py:510-529 | without shared DOIs nothing is removed |
| Dedupe.MergeEntry | tests/test_dedupe_bib.py:158-223 | one entry merged into the key map as the key pass specifies |
| Dedupe.ClaimDoi | tests/test_dedupe_bib.py:465-486 | one entry offered to the DOI index as the DOI pass specifies, returning the key that lost |
| Dedupe.MergeRecord | tests/test_dedupe_bib.py:225-251 | a comment is gathered, an entry merged, stray text skipped |
| Dedupe.MergeFile | tests/test_dedupe_bib.py:266-299 | one text read record after record, as specified |
| Dedupe.ReadAll | tests/test_dedupe_bib.py:602-617 | the first pass over all texts gives the comments, the key state and the duplicate-field warnings |
| Dedupe.ResolveDois | tests/test_dedupe_bib.py:437-558 | the second pass removes exactly the DOI pass's losers from the map |
| Dedupe.RenderTexts | tests/test_dedupe_bib.py:145-156 | texts are written trimmed, each followed by a blank line |
| Dedupe.WriteEntries | tests/test_dedupe_bib.py:145-156 | the entries still in the map are written in insertion order |
| Dedupe.Deduplicate | tests/test_dedupe_bib.py:142-317 | the whole run returns exactly the specified output, removed keys and warnings |
| DedupeFacts.EveryKeyAccounted | tests/test_dedupe_bib.py:266-299 | every entry read is written or reported, as many times as its key occurs |
| DedupeFacts.WrittenOnce | tests/test_dedupe_bib.py:158-179 | no key is written twice |
| DedupeFacts.WrittenEntry | tests/test_dedupe_bib.py:158-223 | a written entry is the first entry read under its key, retagged to the highest level seen when that is higher |
| DedupeFacts.WrittenDoisDistinct | tests/test_dedupe_bib.py:440-463 | no two written entries share a DOI |
| DedupeFacts.NoDoiWritten | tests/test_dedupe_bib.py:510-558 | an entry surviving the key pass without a DOI is written |
| DedupeFacts.DoiLoserHasWinner | tests/test_dedupe_bib.py:465-486 | an entry lost to the DOI pass is reported and has a written winner with its DOI, at least its level, inserted earlier on a tie |
| DedupeFacts.NoDuplicatesKeepAll | tests/test_dedupe_bib.py:145-156 | inputs without repeated keys or shared DOIs come out whole: nothing reported, every entry written in order with its own text |
| DedupeFacts.EmptyFileIgnored | tests/test_dedupe_bib.py:301-317 | an empty input, wherever it stands, changes nothing in the result |
| DedupeFacts.CommentsKept | tests/test_dedupe_bib.py:225-251 | every comment block of every input is gathered |
| DedupeFacts.CommentsFirst | tests/test_dedupe_bib.py:225-251 | the gathered comments open the output, ahead of all entries |

## Left out

- UTF-8 decoding (`check_utf8_encoding`) is not modelled: the orchestrator receives the decoded text or `None`. The BibTeX parser (`check_bibtex_syntax`) is not modelled either: it receives the parsed entries or `None`. Both are library code outside this model.
- The author and editor person lists are booleans on a parsed entry, because the parser that builds them is not part of this model.
- File reading and writing, path existence checks, the command-line interfaces, exit codes, JSON output and the printing of warnings are left out. Inputs are texts; results are returned values.
- Message wording is left out. Diagnostics carry the key, field, line numbers and replacement letter that the messages contain.
- Non-ASCII case folding is left out: `Lower` folds ASCII letters only, as the tests need.
- The content of the escape tables covers the accents and ligatures the tests use (tests/test_bib_validator.py). A letter the table does not know is reported with `?`.
- Doi.NormalizeAgain: holds only when no second resolver prefix surfaces after the first is stripped, because only one prefix is stripped; and only when the normal form has no whitespace at either end, because trimming happens before the prefix is stripped: `https://doi.org/ 10.1/x` normalises to ` 10.1/x`, which normalises again to `10.1/x`.
- DoiMerge.DoiStep and Dedupe.Deduplicate: when a later entry outranks the current owner of a DOI, the key reported as removed is the displaced owner's, the loser's. The tests check only the written text in that case, so this is a chosen rule.
- EntryChecks.Requirements: the required-field rows for `book` (beyond author or editor), `inproceedings` and `incollection`, and the set of known entry types, are chosen rules consistent with the fixtures that pass. The tests pin only the `article` journal and year case and the `book` author-or-editor case.
- Dedupe.Deduplicate: the map is a value (`map`) reassigned by the loops, not an object updated in place.

# games-automation in Dafny

A model of the bookkeeping at the heart of the Spotlight PA games pipeline, which runs the Riddler and Scrambler puzzles. The model covers these steps:

- **Ingestion.** Player answers arrive in Gmail labels. They are cleaned, de-duplicated and appended to the Submissions worksheet.
- **Grading.** Each submission is matched to the game window it falls in, and an LLM grades it. Grades and confidences are written back in blocks.
- **Winners.** The correct players of each case are collected into the Winners tab.
- **Throttling and retries.** Two layers keep the Sheets and Gmail traffic under quota:
  - a process-wide call throttle with a retry-forever wrapper;
  - an HTTP-level bounded backoff.
- **Clean-ups.** Name and timestamp normalisers run over columns of the sheet.
- **The Riddles pass.** It writes AI grading prompts and rich-text riddle cells.

Worksheets are modelled as in-memory grids: `Sheet.Worksheet` holds the grid and logs every write call. Clocks are `Remote.Clock` objects that sleeping advances. Each Python object whose state changes in place becomes a class with that state as fields:

- the rate-limit globals become `RateLimit.Limiter`;
- `_last_request_ts` becomes `SheetBackoff.Throttle`;
- the patch flags become `SheetBackoff.Installer`;
- the spreadsheet receiving rich-text requests becomes `Auto.Spreadsheet`.

Loops that change state in the source are methods with loop invariants. Each is proved against a specification function, and the source's promises are proved about that function as lemmas. Pure helpers become functions and lemmas.

| file | module | models |
|---|---|---|
| `text.dfy` | `Text` | Python `str` operations: strip, ASCII case mapping, `in`, join, split, `splitlines` |
| `collections.dfy` | `Collections` | comprehension filters and insertion-ordered dicts |
| `remote.dfy` | `Remote` | exceptions raised by the client, and the clock |
| `worksheet.dfy` | `Sheet` | the worksheet and its `update`, `update_cell`, `batch_update` and `append_rows` calls |
| `utils.dfy` | `Utils` | `src/helpers/utils.py` |
| `first_names.dfy` | `FirstNames` | `src/modules/first_names.py` |
| `last_names.dfy` | `LastNames` | `src/modules/last_names.py` |
| `scrambler.dfy` | `Scrambler` | the Scrambler answer list of `src/modules/grading.py` |
| `grading.dfy` | `Grading` | the pure parts of `src/modules/grading.py` |
| `grading_sheet.dfy` | `GradingSheet` | the worksheet passes of `src/modules/grading.py` |
| `winners.dfy` | `Winners` | `src/modules/winners.py` |
| `mail.dfy` | `Mail` | the helpers of `src/modules/mail.py` |
| `ingest.dfy` | `MailIngest` | `fetch_emails_for_label` in `src/modules/mail.py` |
| `ratelimit.dfy` | `RateLimit` | `src/helpers/improved_rate_limiting.py` |
| `sheetratelimit.dfy` | `SheetBackoff` | `src/helpers/sheet_ratelimit.py` |
| `formatting.dfy` | `Formatting` | `src/modules/formatting.py` |
| `auto.dfy` | `Auto` | the riddle text and offsets and the prompt pass of `auto.py` |

## Model

| member | source | states |
|---|---|---|
| Utils.ZipDictSpec | src/helpers/utils.py:4 | the keys of `dict(zip(header, row))` are exactly the headers paired with a cell (up to the shorter length), and each maps to the cell under its last occurrence |
| Utils.TruePositionsSpec | src/helpers/utils.py:4 | the listed positions are in range, strictly increasing, hold `true`, and every `true` position is listed |
| Utils.NonBlankPositionsSpec | src/helpers/utils.py:4 | the kept positions are increasing and are exactly those of the rows where some cell is non-blank after `strip()` |
| Utils.NonBlankPositionsSnoc | src/helpers/utils.py:4 | one more row adds its own position exactly when it is non-blank |
| Utils.MapNonBlankSpec | src/helpers/utils.py:3-5 | the comprehension yields one result per non-blank row, in order, and the result for it is `f` of that row |
| Utils.RowsToDictsSpec | src/helpers/utils.py:2-5 | `rows_to_dicts` drops exactly the blank rows, keeps the rest in order and turns each into `dict(zip(header, row))` |
| FirstNames.DropNonAscii | src/modules/first_names.py:9 | the result has only ASCII characters, and an all-ASCII input is returned unchanged |
| FirstNames.BeforeAt | src/modules/first_names.py:12-13 | `split("@")[0]` is a prefix of the input with no '@', and the whole input when it has none |
| FirstNames.Capitalize | src/modules/first_names.py:16-17 | `capitalize()` keeps the length, keeps ASCII characters ASCII, and introduces no '@' |
| FirstNames.Cleaned | src/modules/first_names.py:6-13 | after strip, the removal of non-ASCII runs and the cut at '@', the name is ASCII and has no '@' |
| FirstNames.NormalizeFirstName | src/modules/first_names.py:4-20 | the normalised name is ASCII, has no '@', and has the length of the cleaned name |
| FirstNames.UniformCaseCapitalized | src/modules/first_names.py:15-17 | an all-upper or all-lower name comes out non-empty, first letter not lower case, the rest not upper case |
| FirstNames.MixedCaseKept | src/modules/first_names.py:15-20 | a mixed-case name (neither `isupper` nor `islower`) is returned as cleaned |
| FirstNames.CleanedOfPlain | src/modules/first_names.py:6-13 | a trimmed ASCII name without '@' passes the clean-up unchanged |
| FirstNames.ExampleUpper | src/modules/first_names.py:15-17 | "JOHN" becomes "John" |
| FirstNames.ExampleMixed | src/modules/first_names.py:19 | "MaryAnne" is kept |
| FirstNames.MixedCase | src/modules/first_names.py:15 | one upper-case and one lower-case letter make the name neither `isupper` nor `islower` |
| FirstNames.EmailLocalPartKept | src/modules/first_names.py:11-13 | an address typed as a name keeps only its local part |
| FirstNames.CapitalizeIdempotent | src/modules/first_names.py:16-17 | `capitalize()` applied twice equals once |
| FirstNames.NormalizeFirstNameIdempotent | src/modules/first_names.py:4-20 | normalising a normalised name (one with no surrounding whitespace) changes nothing |
| LastNames.NormalizeLastInitial | src/modules/last_names.py:1-14 | the result is "" or one upper-case ASCII letter |
| LastNames.LastInitialOfFirstNonSpace | src/modules/last_names.py:2-14 | the result is the upper-cased first non-space character when it is a letter, and "" when it is a digit or symbol |
| LastNames.BlankLastInitial | src/modules/last_names.py:2-4 | blank input gives "" |
| LastNames.FirstNonSpaceIsStripHead | src/modules/last_names.py:2-7 | after `strip()`, the first character is the first non-space character of the input |
| LastNames.OnlyFirstCharacterMatters | src/modules/last_names.py:7 | two values with the same first non-space character get the same initial |
| Scrambler.NormalizeLettersLower | src/modules/grading.py:39-41 | the letters-only form is no longer than the input and holds only lower-case ASCII letters |
| Scrambler.NormalizeLettersEmpty | src/modules/grading.py:39-41 | the letters-only form is empty exactly when the input has no ASCII letter |
| Scrambler.NormalizeLettersConcat | src/modules/grading.py:39-41 | the form of a concatenation is the concatenation of the forms |
| Scrambler.NormalizeLettersIdempotent | src/modules/grading.py:39-41 | normalising a letters-only form again changes nothing |
| Scrambler.ConjunctionAt | src/modules/grading.py:61 | a `\b(?:or\|and)\b` match at a position is absent or two or three characters long, within the string |
| Scrambler.BulletsToCommas | src/modules/grading.py:62 | the replacement keeps the length and leaves no '•', '·' or '\|' |
| Scrambler.SkipSeparators | src/modules/grading.py:63 | the end of the run of ';', '/' and newlines starting at a position: every character skipped is one, the next is not |
| Scrambler.SkipSpaces | src/modules/grading.py:66 | the end of the whitespace run starting at a position |
| Scrambler.SkipCommas | src/modules/grading.py:67 | the end of the comma run starting at a position |
| Scrambler.SeparatorRunsToCommas | src/modules/grading.py:63 | after `re.sub(r"[;/\n]+", ",", s)` no ';', '/' or newline is left |
| Scrambler.StripSpaceComma | src/modules/grading.py:67 | after `strip(" ,")` the text neither starts nor ends with a space or a comma |
| Scrambler.StrippedNonBlank | src/modules/grading.py:69 | `[p.strip() for p in ... if p.strip()]` holds no empty part |
| Scrambler.NonBlank | src/modules/grading.py:73 | `[p for p in ... if p.strip()]` holds no blank part |
| Scrambler.FirstWideGap | src/modules/grading.py:73 | the first run of two or more whitespace characters at or after a position, or the end |
| Scrambler.SplitWideGaps | src/modules/grading.py:73 | `re.split(r"\s{2,}", s)` yields at least one piece |
| Scrambler.Trimmed | src/modules/grading.py:79 | each display candidate is its part stripped, one per part |
| Scrambler.FirstWithForm | src/modules/grading.py:77-85 | the first candidate whose letters-only form is the given one, or the end when none has it |
| Scrambler.FirstWithFormPrefix | src/modules/grading.py:77-85 | one more candidate changes the first position with a form only when no earlier candidate has that form |
| Scrambler.DedupeKeepStep | src/modules/grading.py:81-83 | a candidate whose form is empty or already seen is skipped and the de-duplication properties still hold |
| Scrambler.DedupeAddFirst | src/modules/grading.py:83-85 | a candidate added to the list is the first with its form |
| Scrambler.DedupeAddOld | src/modules/grading.py:83-85 | the entries already in the list keep their first positions, all before the new one |
| Scrambler.TargetsSnoc | src/modules/grading.py:84-85 | appending an entry adds exactly its form to `seen_norm` |
| Scrambler.AddKeepsDistinct | src/modules/grading.py:83-85 | adding an entry with a new non-empty form keeps the forms distinct |
| Scrambler.AddKeepsOrder | src/modules/grading.py:83-85 | adding an entry keeps every entry the first candidate with its form, in the candidates' order |
| Scrambler.AddKeepsCover | src/modules/grading.py:83-85 | every candidate with a non-empty form stays represented in `seen_norm` |
| Scrambler.DedupeAddStep | src/modules/grading.py:83-85 | a candidate with a new non-empty form is appended to `display` and its form added to `seen_norm`, and the de-duplication properties hold |
| Scrambler.DedupeSpec | src/modules/grading.py:75-87 | the loop's result has distinct non-empty forms, `seen_norm` equal to the entries' forms, each entry the first candidate with its form, in order, and every candidate with a form represented |
| Scrambler.ParseAnswerListSpec | src/modules/grading.py:44-87 | a blank cell gives an empty list and set; otherwise the result is de-duplicated from the stripped candidates, and every target is lower-case ASCII letters |
| Scrambler.ParseScramblerAnswerList | src/modules/grading.py:44-87 | the loop growing `display` and `seen_norm` part by part returns the list and set the specification gives |
| Grading.CollapseSpacesSpec | src/modules/grading.py:28 | after `re.sub(r"\s+", " ", s)` the only whitespace is single spaces, never two in a row, and the text starts with a space exactly when the input starts with whitespace |
| Grading.LastHeaderIndex | src/modules/grading.py:29 | `hm.get(key)`: the last header whose loose form is the key, and `None` exactly when no header has it |
| Grading.LastHeaderBelow | src/modules/grading.py:29 | the last of the first `n` headers whose loose form is the key, and `None` exactly when none of them has it |
| Grading.IdxOf | src/modules/grading.py:30-35 | `idx_of(*candidates)`: the column of the first candidate present, every earlier candidate absent; `None` exactly when all are absent |
| Grading.IdxFrom | src/modules/grading.py:31-35 | the same search from the `i`th candidate on |
| Grading.GamesColumns | src/modules/grading.py:101-111 | when all six columns are found, each is a column of the header row |
| Grading.EntryOf | src/modules/grading.py:115-138 | an indexed row has a game, its own 1-based row number and the 1-based grading column |
| Grading.RowEntries | src/modules/grading.py:114-138 | one entry or `None` per sheet row, each computed from its own row and row number |
| Grading.SomesSpec | src/modules/grading.py:126-129 | the kept entries are exactly the present ones |
| Grading.SomesSnoc | src/modules/grading.py:126-129 | one more row adds its entry exactly when it has one |
| Grading.PlayableSpec | src/modules/grading.py:113-138 | the unsorted index holds exactly the rows from 3 on with a game and a parseable window, each with its own row number |
| Grading.KeyLeTotal | src/modules/grading.py:140 | the sort key `(game.lower(), start_dt)` orders any two entries |
| Grading.KeyLeTrans | src/modules/grading.py:140 | the sort key order is transitive |
| Grading.InsertByKey | src/modules/grading.py:140 | inserting an entry adds exactly that entry |
| Grading.SortByKey | src/modules/grading.py:140 | the sort is a permutation of its input |
| Grading.ConsSorted | src/modules/grading.py:140 | an entry at most every entry of a sorted list can go in front of it |
| Grading.InsertByKeyBounded | src/modules/grading.py:140 | a lower bound of the entry and of the list bounds the insertion |
| Grading.InsertByKeySorted | src/modules/grading.py:140 | inserting into a sorted list keeps it sorted |
| Grading.SortByKeySorted | src/modules/grading.py:140 | the sorted index is sorted by the key |
| Grading.CollectPlayable | src/modules/grading.py:113-138 | the row loop appends the entries of rows 3 on in sheet order |
| Grading.SortByKeyMember | src/modules/grading.py:140 | sorting introduces no entry |
| Grading.GamesIndexEntries | src/modules/grading.py:90-141 | every indexed entry comes from a row from 3 on, has a game and a real grading column |
| Grading.BuildGamesIndex | src/modules/grading.py:90-141 | an empty sheet or a missing column gives `[]`; otherwise the index is sorted by key and is a permutation of the playable rows |
| Grading.FirstWindow | src/modules/grading.py:150-155 | the first entry of the index that is a window of the game containing the time, and `None` exactly when there is none |
| Grading.FindGameForSubmission | src/modules/grading.py:144-155 | `None` for a missing game type or time; otherwise some window of that game (trimmed and lower-cased) contains the time exactly when one is returned, and it is the first such |
| Grading.GamesNamed | src/modules/grading.py:415-417 | `by_game[key]` holds only entries of the index whose trimmed, lower-cased game is the key |
| Grading.FirstContaining | src/modules/grading.py:441 | the window found is one of the candidates |
| Grading.GroupedLookupAgrees | src/modules/grading.py:415-441 | looking up through `by_game` finds the same window as scanning the index |
| Grading.GroupedLookupIsFind | src/modules/grading.py:440-441 | for a trimmed, non-empty game type the grouped lookup equals `find_game_for_submission` |
| Grading.ScramblerLogicNamesAnswers | src/modules/grading.py:197-203 | the Scrambler logic names every accepted answer, and with none falls back to the all-the-letters rule ending with the question |
| Grading.ScramblerIgnoresModel | src/modules/grading.py:197-203 | the Scrambler branch never consults the model |
| Grading.RStripKeepsThrough | src/modules/grading.py:328-329 | `rstrip` keeps every character up to a non-space one |
| Grading.StripKeepsThrough | src/modules/grading.py:328-329 | stripping a text that starts with a non-space character keeps it up to any later non-space character |
| Grading.WriteOnceMarker | src/modules/grading.py:309-329 | once the prompt is written, a later run skips the row exactly when the guidance it started from was empty |
| Grading.GradeAt | src/modules/grading.py:227-228 | a `Correctness:` match captures "Correct" or "Incorrect", capitalised |
| Grading.GradeSearch | src/modules/grading.py:227 | `re.search` from a position: the leftmost match, and `None` exactly when no position matches |
| Grading.ParseGrade | src/modules/grading.py:227-228 | the grade is "Correct" or "Incorrect" from the leftmost match, and "Uncertain" exactly when nothing matches |
| Grading.SkipDigits | src/modules/grading.py:230 | the end of the run of ASCII digits starting at a position |
| Grading.ConfidenceAt | src/modules/grading.py:230 | a `Confidence:` match captures a well-formed numeral |
| Grading.ConfidenceSearch | src/modules/grading.py:230 | the leftmost `Confidence:` match from a position, and `None` exactly when no position matches |
| Grading.ParseConfidence | src/modules/grading.py:230-237 | the numeral of the leftmost match is well formed, and `NotGiven` (reported "N/A") exactly when nothing matches |
| Grading.ReplyGradeAtStart | src/modules/grading.py:257-259 | a reply in the requested format matches `Correctness:` at its start with its grade |
| Grading.ConfidenceAtShape | src/modules/grading.py:230 | a `confidence:` match needs a 'c' at its start and a colon ten characters on |
| Grading.ReplyColons | src/modules/grading.py:257-259 | the only colon before the confidence line of a reply ends "Correctness:" |
| Grading.NoConfidenceBefore | src/modules/grading.py:230 | no position before the confidence line of a reply begins a confidence match |
| Grading.ConfidenceLineAt | src/modules/grading.py:230 | the confidence line of a reply matches with its whole number |
| Grading.ConfidenceLineOf | src/modules/grading.py:230 | a line `Confidence: <digits>` running to the end reads as that whole number |
| Grading.SkipDigitsToEnd | src/modules/grading.py:230 | a digit run to the end of the text is skipped entirely |
| Grading.ReplyRoundTrip | src/modules/grading.py:226-238 | a reply in the requested format parses back to its grade and to its confidence numeral |
| Grading.ReplyConfidenceRoundTrip | src/modules/grading.py:226-238 | a reply's confidence parses back to its numeral |
| Grading.FirstConfidence | src/modules/grading.py:230 | the confidence read is the one at the first position where a match parses |
| Grading.ConfidenceOneIsHundred | src/modules/grading.py:232-235 | a confidence of "1" is read as a fraction and reported "100%" |
| Grading.OverrideTakesPrecedence | src/modules/grading.py:363-371 | a non-blank override alone decides, whatever the AI grade |
| Grading.BlankOverrideDefersToGrade | src/modules/grading.py:363-371 | with no override or a blank one, the AI grade decides |
| GradingSheet.Expand | src/modules/grading.py:352-356 | a block yields one write per value |
| GradingSheet.FlattenSnoc | src/modules/grading.py:345-348 | closing one more block adds its writes after the earlier ones |
| GradingSheet.ExpandSnoc | src/modules/grading.py:341-343 | extending the open run appends the write for the next row |
| GradingSheet.ExtendRun | src/modules/grading.py:341-343 | a write to the row after the open run extends it, and the loop state still holds |
| GradingSheet.CloseRun | src/modules/grading.py:344-347 | a write after a gap closes the open run as a block and opens a new one, and the loop state still holds |
| GradingSheet.CoalesceBlocks | src/modules/grading.py:336-348 | the coalescing loop yields at least one block, each covering as many rows as it has values, no two mergeable, together holding exactly the pending writes in order |
| GradingSheet.CloseAll | src/modules/grading.py:348 | closing the last run leaves contiguous, separated blocks holding exactly the pending writes |
| GradingSheet.Column | src/modules/grading.py:355 | `[[v] for v in values]` has one one-cell row per value |
| GradingSheet.ColumnOps | src/modules/grading.py:350-356 | one range write per block |
| GradingSheet.FlattenRows | src/modules/grading.py:336-348 | the writes of separated contiguous blocks are in increasing row order |
| GradingSheet.ColumnBlockCell | src/modules/grading.py:352-358 | after writing one column block, a cell of the block's rows in the column holds its value and every other cell is as before |
| GradingSheet.PriorRowsBelow | src/modules/grading.py:336-348 | the writes of the earlier blocks all lie above the next block |
| GradingSheet.ColumnOpsSnoc | src/modules/grading.py:358 | applying the ranges of one more block is applying the earlier ranges and then that block |
| GradingSheet.ColumnOpIsBlock | src/modules/grading.py:354-355 | a block's range write puts its values from its first row down the column |
| GradingSheet.ColumnOpsAppend | src/modules/grading.py:352-356 | the ranges of one more block are the earlier ranges followed by that block's |
| GradingSheet.ColumnBlocksWrite | src/modules/grading.py:350-358 | writing the coalesced blocks puts every pending value in its row of the grading column and leaves every other cell as it was |
| GradingSheet.StepWritten | src/modules/grading.py:358 | after one more block every value written so far is in its cell |
| GradingSheet.ExpandedCellWritten | src/modules/grading.py:355 | a block's `j`th value lands in its row of the column |
| GradingSheet.StepKept | src/modules/grading.py:358 | after one more block every cell outside the written rows of the column is as it was |
| GradingSheet.ColumnBlocksStep | src/modules/grading.py:352-358 | one more block on a column already written keeps the column written with the combined writes |
| GradingSheet.PromptColumnsOf | src/modules/grading.py:292-299 | the prompt pass has its columns exactly when the grading column is found |
| GradingSheet.PromptFor | src/modules/grading.py:303-329 | a row's write, when there is one, is for that row |
| GradingSheet.PromptEntries | src/modules/grading.py:303-329 | one entry or none per Games row, each from its own row and row number |
| GradingSheet.SomesRows | src/modules/grading.py:301-329 | writes collected in row order are strictly increasing and within the rows looked at |
| GradingSheet.PendingPromptsSpec | src/modules/grading.py:301-329 | `pending` is in strictly increasing row order within rows 3 to the last, and holds a write exactly for each row whose own cells call for one |
| GradingSheet.PendingMember | src/modules/grading.py:303-329 | a write is pending exactly when its row from 3 on calls for it |
| GradingSheet.SomesAt | src/modules/grading.py:303-329 | with entries at known rows, a write is kept exactly when its row's entry is it |
| GradingSheet.CollectPendingPrompts | src/modules/grading.py:301-329 | the loop over Games rows 3 to the last collects exactly `pending` |
| GradingSheet.PopulateAiGradingPrompts | src/modules/grading.py:279-359 | an empty sheet or a sheet without a grading column is left alone; otherwise every pending prompt lands in the grading column of its row and every other cell keeps its value |
| GradingSheet.FlattenHas | src/modules/grading.py:338-348 | the first write of each block is among the pending writes |
| GradingSheet.MissingFrom | src/modules/grading.py:388-393 | the listed columns are exactly those of the three that no trimmed header equals |
| GradingSheet.RepairHeaders | src/modules/grading.py:388-393 | the loop appends the missing columns in order, and `changed` holds exactly when one was missing |
| GradingSheet.HasHeaderExtend | src/modules/grading.py:388-393 | appending headers keeps the columns already present, and adds a trimmed appended one |
| GradingSheet.RepairComplete | src/modules/grading.py:388-397 | after the repair all three columns are present, so a second repair appends nothing |
| GradingSheet.MissingFromNone | src/modules/grading.py:390-391 | when every column is present, none is missing |
| GradingSheet.GamesNamedSnoc | src/modules/grading.py:416-417 | one more index entry is appended to its own key's list only |
| GradingSheet.GroupByGame | src/modules/grading.py:415-417 | after the loop each key lists exactly its entries, in index order |
| GradingSheet.GroupStep | src/modules/grading.py:416-417 | appending entry `k` under its key keeps every key's list equal to its entries among the first `k + 1` |
| GradingSheet.SubColumnsOf | src/modules/grading.py:399-408 | when all five columns are found, the grade and confidence columns are columns of the header row |
| GradingSheet.WindowFor | src/modules/grading.py:425-455 | the window a row is graded against comes from the index |
| GradingSheet.WindowForIsFind | src/modules/grading.py:428-441 | for a row that reaches the lookup, the window found through `by_game` is the one `find_game_for_submission` picks, and there is none exactly when it finds none |
| GradingSheet.GradeFor | src/modules/grading.py:466-470 | the grade is "Correct", "Incorrect" or "Uncertain", also when the call fails |
| GradingSheet.OutcomeFor | src/modules/grading.py:422-472 | a row's grade is for that row, and a Games prompt write only happens for a graded row |
| GradingSheet.OutcomeForSpec | src/modules/grading.py:422-472 | a row is graded exactly when it falls in a window, with its own row number and one of the three grades |
| GradingSheet.GradedUpToSpec | src/modules/grading.py:422-472 | up to row `n` the grades are in strictly increasing row order within rows 3 to `n`, valid, and a row is graded exactly when it falls in a window |
| GradingSheet.AppendUpdate | src/modules/grading.py:472 | appending the next row's grade keeps the grades ordered, valid, and listing exactly the rows with a window |
| GradingSheet.GradeUpdatesOrdered | src/modules/grading.py:420-472 | `out_updates` is in strictly increasing row order within rows 3 to the last, each grade valid |
| GradingSheet.GradeUpdatesRows | src/modules/grading.py:422-472 | a row from 3 on is graded exactly when it has no AI grade yet and falls in a window |
| GradingSheet.GradedRowsAreSkippedLater | src/modules/grading.py:425-426 | a row holding a written grade is skipped by a later run |
| GradingSheet.MinRow | src/modules/grading.py:476 | the lowest graded row, itself graded |
| GradingSheet.MaxRow | src/modules/grading.py:477 | the highest graded row, itself graded |
| GradingSheet.UpdateListedSnoc | src/modules/grading.py:476-477 | a row is graded among the first `k + 1` grades exactly when it is among the first `k` or is the `k`th |
| GradingSheet.FillGradeBlock | src/modules/grading.py:480-482 | the loop puts each grade and confidence into its row of the block and leaves the other rows as they were |
| GradingSheet.BuildGradeBlock | src/modules/grading.py:476-482 | the block has one row per sheet row from the lowest to the highest graded row, the grade and confidence in graded rows and two empty cells elsewhere |
| GradingSheet.BlankFillClearsGradedRow | src/modules/grading.py:479-487 | writing that block empties the AI grade of an already graded row inside its span |
| GradingSheet.BuildGradeBlockKeeping | src/modules/grading.py:476-482 | the corrected block holds each ungraded row's current AI grade and confidence |
| GradingSheet.KeepingBlockWrite | src/modules/grading.py:483-487 | writing the corrected block changes exactly the graded rows' two cells |
| GradingSheet.GradedRowCells | src/modules/grading.py:480-487 | a graded row's two cells take its grade and confidence |
| GradingSheet.KeepingBlockCell | src/modules/grading.py:483-487 | every cell outside the graded rows' two cells is as it was after the corrected write |
| GradingSheet.WithHeaders | src/modules/grading.py:388-397 | the header repair keeps the number of rows |
| GradingSheet.WithHeadersSpec | src/modules/grading.py:388-397 | the repair appends the missing columns to the header row, leaves every other row alone, and all three columns are then present |
| GradingSheet.FindWindow | src/modules/grading.py:425-455 | the checks at the head of the loop body find exactly the window the specification gives |
| GradingSheet.OutcomeForNoWindow | src/modules/grading.py:425-455 | a row without a window is neither graded nor causes a Games write |
| GradingSheet.OutcomeForWindow | src/modules/grading.py:457-472 | a row with a window writes the regenerated prompt back to its Games cell when that has no "AI:" prompt, and is graded from the stripped prompt |
| GradingSheet.GradeRow | src/modules/grading.py:457-472 | one pass returns the row's grade and issues its Games prompt write, as the specification gives |
| GradingSheet.WriteRepair | src/modules/grading.py:463 | `update_cell` writes the repaired prompt when there is one and nothing otherwise |
| GradingSheet.RepairSubmissionHeaders | src/modules/grading.py:388-397 | the submissions grid afterwards is the repaired one |
| GradingSheet.GradeRows | src/modules/grading.py:419-472 | the loop returns exactly `out_updates` and applies and logs exactly the Games prompt writes, in order |
| GradingSheet.RepairsUpToSnoc | src/modules/grading.py:457-464 | one more row adds its Games write, if any, after the earlier ones |
| GradingSheet.GradedUpToSnoc | src/modules/grading.py:472 | one more row adds its grade, if any, after the earlier ones |
| GradingSheet.OpsStep | src/modules/grading.py:463 | a turn of the loop extends the Games grid and write log by the row's write, if any |
| GradingSheet.OpsStepWrite | src/modules/grading.py:463 | one write extends the applied writes and the log by that write |
| GradingSheet.WriteGrades | src/modules/grading.py:474-487 | the block write puts each new grade and confidence in its row, writes "" to both cells of every other row between the lowest and highest graded row, and leaves every cell outside that span and those two columns as it was; no grades means no change |
| GradingSheet.BlankBlockWrite | src/modules/grading.py:474-487 | writing a block of graded pairs and blank pairs over a span gives the graded rows their grade and confidence, empties the other rows of the span in both columns, and changes nothing else |
| GradingSheet.BlankSpanWrite | src/modules/grading.py:476-487 | every row of the span that is not graded holds "" in both columns after the write |
| GradingSheet.BlankOutsideWrite | src/modules/grading.py:476-487 | every cell outside the two grade columns of the span is unchanged by the write |
| GradingSheet.BlankBlockPairs | src/modules/grading.py:476-482 | every row of the block is a pair of cells |
| GradingSheet.PairBlockCell | src/modules/grading.py:483-487 | a block of pairs written at a column changes only that column and the next one |
| GradingSheet.MinRowPositive | src/modules/grading.py:474-476 | the lowest graded row is a sheet row (at least 1) |
| GradingSheet.GradeSubmissionsForSheet | src/modules/grading.py:374-490 | after the header repair, the Games sheet receives every regenerated prompt in row order; with no new grades the submissions sheet is unchanged, otherwise it holds each new grade and confidence in its row, "" in both cells of every other row between the lowest and highest graded row, and every other cell as it was |
| Winners.RiddlesByCaseSpec | src/modules/winners.py:19-21 | the case map has one entry per case string of a row that has one; a later row with the same case replaces an earlier one, and the cases keep the order of their first row |
| Winners.CorrectEntriesSpec | src/modules/winners.py:55-58 | the correct entries are exactly the submissions for the case that `is_marked_correct` accepts |
| Winners.InsertItem | src/modules/winners.py:61-67 | inserting a pair adds exactly that pair |
| Winners.SortItems | src/modules/winners.py:61-67 | `sorted(d.items())` is a permutation of the items |
| Winners.InsertItemSorted | src/modules/winners.py:61-67 | inserting a pair with a new name into a strictly sorted list keeps it strictly sorted |
| Winners.InsertAfterHead | src/modules/winners.py:61-67 | a pair sorting after the head is inserted behind it and the list stays sorted |
| Winners.ConsSorted | src/modules/winners.py:61-67 | a head sorting before a sorted list keeps it sorted |
| Winners.InsertAtHead | src/modules/winners.py:61-67 | a pair sorting before the head goes in front and the list stays sorted |
| Winners.SortItemsSorted | src/modules/winners.py:61-67 | the sorted items of a dict are strictly ascending by name |
| Winners.SameItems | src/modules/winners.py:61-67 | sorting the items does not change what any name maps to |
| Winners.SameItemsOneWay | src/modules/winners.py:61-67 | a name present before sorting is present after, with the same e-mail |
| Winners.WinnerItemsSpec | src/modules/winners.py:61-67 | the winner names are strictly ascending; a name is listed exactly when an entry with a first name and a last initial carries it, and it keeps the e-mail of the last such entry |
| Winners.FullText | src/modules/winners.py:74-79 | the newsletter text is blank exactly when there are no winners, and otherwise is the fixed sentence followed by the joined names |
| Winners.JoinBlank | src/modules/winners.py:70 | joining names that are never blank is blank only for no names |
| Winners.WinnerRow | src/modules/winners.py:82-92 | the row has nine cells, the two swag cells empty, and the newsletter text empty exactly when the winner names are |
| Winners.WinnerRowsSpec | src/modules/winners.py:38-94 | one row per case that is a digit string, in the order of the cases, built from that case |
| Winners.CollectWinnerRows | src/modules/winners.py:38-94 | the loop over the cases builds exactly `all_rows` |
| Winners.PrevFieldSpec | src/modules/winners.py:47-52 | the previous case's clue and answer come from the last Games row numbered one less, and are "" when there is none |
| Winners.ClearedCell | src/modules/winners.py:29-36 | after the blanking, rows 3 to the last row are empty up to the header's width, and every other cell is kept |
| Winners.WinnersGridSpec | src/modules/winners.py:28-102 | the Winners tab afterwards holds the new rows from row 3, blanks down to the old last row within the header's width, and the old cells elsewhere |
| Winners.PutCell | src/modules/winners.py:97-102 | after writing the new rows, rows 3 on hold them in columns A to I and every other cell is kept |
| Winners.PopulateWinnersTab | src/modules/winners.py:7-104 | an empty Games or Submissions tab raises before any write; otherwise the tab is cleared from row 3 down and the new rows are written from row 3 |
| Mail.FirstPartText | src/modules/mail.py:44-47 | the parts loop returns the text of the first part with non-empty text, and "" exactly when every part's text is empty |
| Mail.ExtractOrder | src/modules/mail.py:20-52 | a text/plain node gives its decoded body, a text/html node the conversion of its decoded body, any other node the first part with non-empty text and, failing that, its own decoded body |
| Mail.FirstPartAt | src/modules/mail.py:44-47 | the parts loop returns the text of the first part whose text is non-empty |
| Mail.DropQuotes | src/modules/mail.py:65 | `re.sub(r"[\"']", "", s)` leaves no quote, is no longer, and leaves a text without quotes unchanged |
| Mail.WordLength | src/modules/mail.py:66 | the leading run of non-whitespace ends at whitespace or at the end |
| Mail.Words | src/modules/mail.py:66 | the words are non-empty and hold no whitespace |
| Mail.NonSpaceAppend | src/modules/mail.py:66 | the non-space characters of a concatenation are those of its parts |
| Mail.NonSpaceOfWord | src/modules/mail.py:66 | a word is its own non-space characters |
| Mail.WordsCoverText | src/modules/mail.py:66 | splitting on whitespace loses only the whitespace |
| Mail.ParseSender | src/modules/mail.py:60-71 | the e-mail is the address `parseaddr` finds, or else the stripped header, and is empty only when both are; the first name is the normalised first word of the unquoted display name (or "" with no words) and contains no '@'; the last initial is the normalised second word's initial, at most one character, and "" with fewer than two words |
| Mail.KeptLines | src/modules/mail.py:93-98 | the lines kept are the prefix before the first cut line |
| Mail.KeptLinesAt | src/modules/mail.py:95-98 | the kept lines are the prefix up to any position with no cut line before it and a cut line or the end at it |
| Mail.Truncated | src/modules/mail.py:101-103 | the result has at most 3001 characters, and an answer of at most 3000 is kept as is |
| Mail.TruncatedSpec | src/modules/mail.py:102-103 | an over-long answer becomes a prefix of its first 3000 characters without the trailing whitespace, then an ellipsis |
| Mail.CleanedAnswer | src/modules/mail.py:74-104 | the answer as written (the separator pattern tried against the stripped line): an empty body gives "", and the answer has at most 3001 characters |
| Mail.CleanAnswer | src/modules/mail.py:93-104 | the line loop, with the cut test as written, computes `CleanedAnswer`: the lines before the first cut line, joined, stripped and truncated |
| Mail.IntendedCleanAnswer | src/modules/mail.py:74-104 | the answer with the separator "-- " recognised after stripping: an empty body gives "", and the answer has at most 3001 characters |
| Mail.KeptLinesSame | src/modules/mail.py:93-98 | two cut tests that agree on every line of the body keep the same lines |
| Mail.CutLinesDiffer | src/modules/mail.py:83-96 | the intended cut test cuts exactly where the as-written one does or where the line strips to "--" |
| Mail.SeparatorOnlyDifference | src/modules/mail.py:74-104 | a body with no line that strips to "--" gets the same answer as written and as intended |
| Mail.SignatureNeverCutAsWritten | src/modules/mail.py:90-96 | a stripped line is never "-- ", so as written the separator pattern never cuts and only the other patterns do |
| Mail.ShortLineNoFooter | src/modules/mail.py:83-92 | a short line that is not a dash rule matches no footer |
| Mail.SplitFirstLine | src/modules/mail.py:93 | a line followed by "\n" and more text splits off as the first line |
| Mail.SplitSingle | src/modules/mail.py:93 | a non-empty text without breaks is one line |
| Mail.SplitThree | src/modules/mail.py:93 | three lines joined by "\n" split back into those lines |
| Mail.ExampleLines | src/modules/mail.py:83-96 | the separator line "-- " does not cut as written and does cut once recognised |
| Mail.KeptThree | src/modules/mail.py:95-98 | three lines with no cut line are all kept |
| Mail.KeptFirst | src/modules/mail.py:95-98 | a cut line second keeps only the first line |
| Mail.AsWrittenKeepsSignature | src/modules/mail.py:90-96 | as written, "ans\n-- \nsig" is kept whole, signature included |
| Mail.CorrectedDropsSignature | src/modules/mail.py:90-96 | with the separator recognised, only "ans" is kept |
| Mail.MissingMembers | src/modules/mail.py:126-129 | a column is added exactly when it is needed and not a header |
| Mail.NeededDistinct | src/modules/mail.py:121-124 | the nine needed columns are distinct |
| Mail.MissingStep | src/modules/mail.py:126-129 | one more needed column is appended exactly when it is not a header, and was not appended before |
| Mail.AppendMissing | src/modules/mail.py:125-129 | the loop appends the missing columns in order, and `changed` holds exactly when one was missing |
| Mail.RepairSpec | src/modules/mail.py:119-132 | the repair keeps the old headers as a prefix, leaves every needed column present, and a second repair adds nothing |
| Mail.MissingNone | src/modules/mail.py:126-129 | with every needed column present, nothing is appended |
| Mail.EnsureSubmissionHeaders | src/modules/mail.py:119-132 | the repaired headers are returned, and row 1 is rewritten only when a column was added |
| Mail.LastIndexOf | src/modules/mail.py:136 | `{h: i ...}[h]` is the last column named `h` |
| Mail.RowKey | src/modules/mail.py:139-147 | a stored row contributes a key only when its game, e-mail, timestamp and answer are all non-empty |
| Mail.ExistingKeysSpec | src/modules/mail.py:135-148 | a key is present exactly when some row below the headers carries it |
| Mail.LoadExistingKeys | src/modules/mail.py:135-148 | the loop over the rows from row 3 collects exactly that set |
| Mail.MaxStampNone | src/modules/mail.py:169-188 | the maximum is `None` exactly when no row has a stamp |
| Mail.MaxStampBound | src/modules/mail.py:185-187 | no row has a later time than the maximum |
| Mail.MaxStampFirst | src/modules/mail.py:185-187 | the maximum is the stamp of the first row reaching the latest time |
| Mail.LatestStampSpec | src/modules/mail.py:160-188 | `_max_timestamp_for_game` is `None` exactly when no row below the headers has a parsable timestamp for the game, and otherwise the first latest such one |
| Mail.MaxTimestampForGame | src/modules/mail.py:160-188 | the scan computes the timestamp the specification gives |
| Mail.HardcodedCutoff | src/modules/mail.py:151-157 | a fixed cutoff exists exactly for "riddler" and "scrambler", trimmed and in any case |
| Mail.Boundary | src/modules/mail.py:260-267 | the boundary is absent exactly when both times are, and otherwise is the later of those present |
| Mail.BackoffAttempts | src/modules/mail.py:195-208 | at most `retries` attempts; giving up takes them all with a sleep after each, otherwise one sleep per attempt but the last |
| Mail.BackoffQuotaStep | src/modules/mail.py:199-205 | a quota error sleeps the current delay and goes on with the delay doubled |
| Mail.Doubling | src/modules/mail.py:203-204 | the doubling sleeps number as many as asked |
| Mail.DoublingAt | src/modules/mail.py:203-204 | sleep `k` of the doubling is `delay * 2 ** k` |
| Mail.BackoffSleeps | src/modules/mail.py:195-205 | the sleeps double from the initial delay, each after a quota error |
| Mail.BackoffGivesUp | src/modules/mail.py:195-208 | the loop gives up exactly when every remaining attempt hits the quota |
| Mail.BackoffStops | src/modules/mail.py:196-206 | it stops at the first success, or at the first error that is not a quota error, which it raises |
| Mail.AppendRowsWithBackoff | src/modules/mail.py:191-208 | no rows: `True` with no call and no sleep; otherwise the result and the sleeps of the retry loop, the rows appended at the end of the sheet exactly when it succeeds |
| Mail.BackoffStep | src/modules/mail.py:199-205 | a quota error adds one sleep of the current delay, then the loop from the next attempt with the delay doubled |
| Mail.DigestIgnoresCase | src/modules/mail.py:107-116 | the filter ignores case: lower-casing the subject, the sender and the body changes no verdict |
| MailIngest.HeaderValueSpec | src/modules/mail.py:308-309 | `hget` gives the value of the first header whose name matches ignoring case, and "" when none matches |
| MailIngest.MessageDate | src/modules/mail.py:315-320 | an empty Date header gives an empty Timestamp and no time; a parsed time always comes from a non-empty Timestamp text |
| MailIngest.DecideSpec | src/modules/mail.py:296-343 | a message stops the page exactly when it has an id and a usable date at or before the boundary in only-new mode; it is a candidate exactly when it has an id, a usable date past the boundary, is no digest and has a non-empty answer, and then its key and row are the game, lower-cased address, Timestamp and answer and the `row_map` row |
| MailIngest.AppendedRowKey | src/modules/mail.py:337-356 | an appended row read back by `_load_existing_keys` gives exactly the key it was appended under, or none when a field is empty |
| MailIngest.RunPageFresh | src/modules/mail.py:337-358 | the keys a page keeps are new and distinct, and exactly they are added to the key set |
| MailIngest.RunPageRows | src/modules/mail.py:345-358 | each row of a page is the candidate row of one of its messages, under the key it was kept for |
| MailIngest.StoppedStays | src/modules/mail.py:296-325 | once the page has stopped, later messages change nothing |
| MailIngest.RunPageStop | src/modules/mail.py:322-325 | the page is stopped exactly when one of its messages is a stop message, and nothing after the first one changes the state |
| MailIngest.RunPageComplete | src/modules/mail.py:342-358 | on a page that did not stop, the key of every candidate message ends up in the key set |
| MailIngest.ProcessPage | src/modules/mail.py:294-358 | the message loop with its `break` computes the page state the specification gives |
| MailIngest.ThenAssoc | src/modules/mail.py:277-372 | composing the outcomes of successive pages is associative |
| MailIngest.IngestStep | src/modules/mail.py:360-372 | a non-empty page ends the loop when its append raised, it stopped, or it has no next page; otherwise the pause follows and the loop goes on with the next page from the grown key set |
| MailIngest.IngestPage | src/modules/mail.py:294-364 | one page: the rows are appended at the end of the sheet with the backoff, and the clock advances by its sleeps |
| MailIngest.Advance | src/modules/mail.py:287-372 | one turn of the page loop keeps the sheet, the writes and the clock in step with the outcome so far |
| MailIngest.IngestPages | src/modules/mail.py:277-372 | the page loop computes the outcome the specification gives; the sheet grows by its rows, the writes by its calls, the clock by its sleeps and pauses |
| MailIngest.IngestPulled | src/modules/mail.py:360-364 | `pulled_total` counts exactly the rows appended |
| MailIngest.IngestListsStep | src/modules/mail.py:360-372 | the keys and rows of the loop from a page are the page's own, then those of the pages after it if it goes on |
| MailIngest.IngestKeys | src/modules/mail.py:342-358 | the keys the loop adds are distinct and none was in the set it started from |
| MailIngest.PageRowsKept | src/modules/mail.py:345-358 | every row of a page is the candidate row of a message of the label whose key was not in the starting set |
| MailIngest.IngestRows | src/modules/mail.py:277-372 | a property every page's rows keep for the set that page starts from holds of every row the loop appends |
| MailIngest.StopEndsPaging | src/modules/mail.py:322-367 | a page holding a stop message is the last page read, and in historical mode no message stops |
| MailIngest.IngestPromises | src/modules/mail.py:277-372 | the loop reports as pulled exactly the rows it appended, adds distinct new keys, and appends only candidate rows of the label under keys not already present |
| MailIngest.PrepareRun | src/modules/mail.py:254-267 | the headers are repaired in row 1 only when needed, the key set and boundary are read from the sheet as it then is |
| MailIngest.FetchEmailsForLabel | src/modules/mail.py:230-377 | without a label id nothing is touched; otherwise the headers are repaired and the page loop appends its rows below the sheet as it then is |
| RateLimit.Limiter.constructor | src/helpers/improved_rate_limiting.py:10-12 | the throttle globals start at zero |
| RateLimit.Limiter.Gate | src/helpers/improved_rate_limiting.py:20-44 | the wrapper updates the globals and the clock as the throttle function gives |
| RateLimit.GateSpacing | src/helpers/improved_rate_limiting.py:37-43 | the clock never goes back, the call is stamped with the time it leaves the throttle, and at least `min_interval` after the previous call |
| RateLimit.GateFullWindowWaits | src/helpers/improved_rate_limiting.py:29-35 | a call into an open window that already holds `calls_per_minute` calls leaves no earlier than five seconds after the window closes, and opens a new window |
| RateLimit.GateCount | src/helpers/improved_rate_limiting.py:23-44 | the count stays between 1 and the limit; a call stays in the window, counting one more, exactly when the window is open and not full, and otherwise opens a new one with a count of 1 |
| RateLimit.WaitForQuotaReset | src/helpers/improved_rate_limiting.py:171-177 | 120 one-second sleeps advance the clock by two minutes |
| RateLimit.WaitBounds | src/helpers/improved_rate_limiting.py:63-104 | every wait after a failed attempt lasts at least five seconds and at most thirty minutes; at most a minute for server and non-API errors, two for unknown API errors |
| RateLimit.WaitMonotone | src/helpers/improved_rate_limiting.py:66-101 | for one error, a later attempt never waits less |
| RateLimit.QuotaWaitSaturates | src/helpers/improved_rate_limiting.py:66-71 | from attempt 9 on, a quota error that is not per minute waits the full thirty minutes |
| RateLimit.ChunksSpec | src/helpers/improved_rate_limiting.py:76-80 | the chunks add up to the wait, each lasts between one and thirty seconds, and all but the last are full |
| RateLimit.ChunkedWait | src/helpers/improved_rate_limiting.py:76-80 | the chunk loop sleeps exactly those chunks |
| RateLimit.WaitsAtLeast | src/helpers/improved_rate_limiting.py:55-104 | `n` failed attempts wait at least five seconds each |
| RateLimit.WaitsStep | src/helpers/improved_rate_limiting.py:55-104 | each further failed attempt adds its own wait to the total |
| RateLimit.WaitAfter | src/helpers/improved_rate_limiting.py:63-104 | the wait after a failed attempt advances the clock by the wait its kind of error gets |
| RateLimit.NeverFail | src/helpers/improved_rate_limiting.py:50-104 | the result is that of the first attempt that returns, every earlier attempt raised, and the clock advanced by their waits |
| RateLimit.LimitsOf | src/helpers/improved_rate_limiting.py:107-161 | every helper spaces calls at least five seconds apart and allows 8 to 15 per minute, so at its own interval none reaches its per-minute limit within one window |
| RateLimit.SafeCall | src/helpers/improved_rate_limiting.py:106-161 | a `safe_*` helper passes through the shared throttle with its own settings, then retries until an attempt returns |
| SheetBackoff.ThrottledSpacing | src/helpers/sheet_ratelimit.py:17-24 | a request starts at least `SHEETS_MIN_INTERVAL` after the previous one and never before the clock; it starts at the later of the two |
| SheetBackoff.Throttle.constructor | src/helpers/sheet_ratelimit.py:11 | `_last_request_ts` starts at zero |
| SheetBackoff.Throttle.PreRequest | src/helpers/sheet_ratelimit.py:17-24 | the throttle sleeps until that start and stamps it |
| SheetBackoff.ShouldRetryAgrees | src/helpers/sheet_ratelimit.py:34-46 | only API errors are retried; every error the retry-forever wrapper treats as quota or server error is retried here, and conversely except one recognised only by " 429" in its message |
| SheetBackoff.RetryAfterSource | src/helpers/sheet_ratelimit.py:26-57 | a non-zero wait only comes from a non-empty `Retry-After` header that parses to it; no API error, no response, or no or an empty header gives 0 |
| SheetBackoff.Capped | src/helpers/sheet_ratelimit.py:75 | `min(cap, base * 2 ** attempt)` never exceeds the cap |
| SheetBackoff.JitteredWithin | src/helpers/sheet_ratelimit.py:76 | the jittered backoff is never negative and stays within half the jitter of the capped value |
| SheetBackoff.PauseBounds | src/helpers/sheet_ratelimit.py:74-77 | the sleep is never negative, never shorter than `Retry-After` nor than the backoff, and with noise in the jitter range exceeds the cap by at most half the jitter |
| SheetBackoff.RetryingOutcome | src/helpers/sheet_ratelimit.py:66-78 | at most `max_retries + 1` requests; the outcome is the last one's, every earlier one raised a retryable error, and a retryable error is passed on only when the retries are used up |
| SheetBackoff.RetryingSpacing | src/helpers/sheet_ratelimit.py:66-78 | the requests start in order, each at least the minimum interval after the previous one and the first after the last request before the loop |
| SheetBackoff.RetryingStep | src/helpers/sheet_ratelimit.py:67-78 | one turn: the attempt's outcome ends the loop, or it sleeps the pause and retries |
| SheetBackoff.PausesNonNegative | src/helpers/sheet_ratelimit.py:74-77 | the sleeps are never negative |
| SheetBackoff.Attempt | src/helpers/sheet_ratelimit.py:68-78 | one attempt throttles, sends, and sleeps the pause unless the outcome is final |
| SheetBackoff.Retry | src/helpers/sheet_ratelimit.py:66-78 | the retry loop gives the outcome, the clock and the last stamp of the retry trace |
| SheetBackoff.Request | src/helpers/sheet_ratelimit.py:59-78 | `request` of both backoff clients runs that loop from attempt 0 with the backoff sleeps |
| SheetBackoff.InstallIdempotent | src/helpers/sheet_ratelimit.py:80-112 | installing is idempotent; after it the flag is set and the HTTP client is the backoff client, and from an unpatched state the batch client, when it exists, gets exactly one backoff layer |
| SheetBackoff.Installer.constructor | src/helpers/sheet_ratelimit.py:9 | gspread starts unpatched |
| SheetBackoff.Installer.Install | src/helpers/sheet_ratelimit.py:80-112 | `install_gspread_backoff` moves the module state as the install step gives |
| Formatting.FixesSnoc | src/modules/formatting.py:18-29 | one more turn of the row loop appends that row's write, if any |
| Formatting.FixesRows | src/modules/formatting.py:18-29 | every write is one cell of the column, at a data row from sheet row 3 up to the loop's end that has a fix, holding the fix |
| Formatting.FixesBounds | src/modules/formatting.py:18-27 | every write goes into the column, at sheet row 3 or below |
| Formatting.FixesOrdered | src/modules/formatting.py:18-27 | the writes go in row order, so no row is written twice |
| Formatting.FixesAt | src/modules/formatting.py:18-29 | a data row is written exactly when the loop reaches it and it has a fix, and every write to it holds the fixed value |
| Formatting.FixesCells | src/modules/formatting.py:18-27 | after the writes, a data row with a fix holds the fixed value in the column and every other cell is as before |
| Formatting.FixesKeepShape | src/modules/formatting.py:18-27 | writes into cells that exist keep the sheet's shape |
| Formatting.FixedGridStep | src/modules/formatting.py:18-27 | one more turn writes that row's fix, if any, into the sheet |
| Formatting.FixedGridApplies | src/modules/formatting.py:18-27 | the turn-by-turn sheet is the sheet the loop's writes leave |
| Formatting.FixedGridCells | src/modules/formatting.py:18-27 | its cells are the fixed value in the column at a data row with a fix, the old cell elsewhere |
| Formatting.ReadFix | src/modules/formatting.py:19-24 | a row too short to reach the column has no fix; otherwise the fix of its stripped cell |
| Formatting.FixRow | src/modules/formatting.py:19-29 | one turn writes the row back fixed exactly when it has a fix, and counts the write |
| Formatting.RewriteRows | src/modules/formatting.py:18-29 | the loop over the data rows makes exactly the writes of the specification, counts them, and leaves the fixed sheet |
| Formatting.RewriteColumn | src/modules/formatting.py:8-29 | the loop over a snapshot makes one `update_cell` per fixed cell and returns their number |
| Formatting.Reformat | src/modules/formatting.py:7-31 | a clean-up ends as the specification gives: an empty sheet or a missing header writes nothing |
| Formatting.CleanupTargets | src/modules/formatting.py:9-27 | a missing header or an empty sheet means no writes and nothing counted; otherwise every write goes below the template row into the column of the first header cell equal to the name, and the count is the number of writes |
| Formatting.ColumnFixWrites | src/modules/formatting.py:23-27 | a row long enough is written exactly when the normalised stripped cell differs from it, and then with the normalised value; otherwise it gets no write |
| Formatting.ReformatColumnWithFunction | src/modules/formatting.py:7-31 | `reformat_column_with_function` makes the writes and count of the clean-up with the normaliser |
| Formatting.ReformatFirstNames | src/modules/formatting.py:34-60 | `reformat_first_names` is the same clean-up of "First Name" with `normalize_first_name` |
| Formatting.ReformatLastInitials | src/modules/formatting.py:63-66 | `reformat_last_initials` is the clean-up of "Last Name Initial" with `normalize_last_initial` |
| Formatting.FixesNone | src/modules/formatting.py:18-27 | a loop none of whose rows has a fix writes nothing |
| Formatting.SecondPassRowSettled | src/modules/formatting.py:18-27 | after a first pass of a settling fix, no data row has a fix left |
| Formatting.SecondPassWritesNothing | src/modules/formatting.py:18-27 | a second pass of a settling fix writes nothing |
| Formatting.LastInitialsSettle | src/modules/formatting.py:63-66 | the last-initial clean-up settles, so running it twice writes nothing the second time |
| Formatting.TimestampFixWrites | src/modules/formatting.py:89-106 | a row long enough is written exactly when its stripped cell is non-empty, no template text, parses, and formats to a different text, and then with that text |
| Formatting.ReformatSubmissionTimestamps | src/modules/formatting.py:69-112 | `reformat_submission_timestamps` is the clean-up of "Timestamp" with that test |
| Auto.RiddleOf | auto.py:74-79 | the case label starts after the teaser and a space and ends before the last space, inside the text |
| Auto.RiddleSpans | auto.py:74-79 | the text is the upper-cased stripped teaser, a space, `(Case No. <n>):`, a space and the question; the label occupies exactly `[start_case, end_case)` and the case number reads back from inside it |
| Auto.CaseLabelEmphasised | auto.py:92-95 | exactly the characters of the case label are bold and italic; the teaser and the question stay plain |
| Auto.RiddleRequest | auto.py:70-100 | a request is sent exactly when the first four cells are all given, and it targets the row's cell in column E |
| Auto.RowValuesComplete | auto.py:70-71 | since `row_values` drops only trailing empty cells, a row is complete exactly when its first four cells on the sheet are non-empty, and those are the cells read |
| Auto.RequestByCells | auto.py:70-79 | a row's request depends only on its first four cells |
| Auto.SentFromRow | auto.py:149-150 | each request the loop sends belongs to a row from 3 up to the loop's end, and is that row's request |
| Auto.SentEveryRow | auto.py:149-150 | every covered row with a request gets it sent |
| Auto.SentInRowOrder | auto.py:149-150 | the requests go in increasing row order, so no row gets two |
| Auto.RiddleRequestsFromRows | auto.py:69-150 | each request of the riddle loop is the riddle of a complete row it covers |
| Auto.RiddleRequestsCoverRows | auto.py:69-150 | every complete row the loop covers gets a request |
| Auto.RiddleRequestsInOrder | auto.py:149-150 | the riddle loop sends its requests in increasing row order |
| Auto.SentSame | auto.py:149-150 | loops whose rows send the same requests send the same list |
| Auto.RequestsByCells | auto.py:70-79 | sheets that agree on columns A to D get the same requests |
| Auto.RiddleCells | auto.py:77-150 | after the riddle loop a complete data row holds its riddle text in column E and every other cell is as before |
| Auto.RiddleOfRow | auto.py:70-77 | the riddle text of a row in terms of its cells, none for an incomplete row |
| Auto.PromptWrites | auto.py:125-142 | every prompt write is one cell of column F, in a data row whose question and answer are given and whose prompt is blank, holding "AI: " and the logic generated for that row |
| Auto.PromptCells | auto.py:125-142 | after the pass such a row holds "AI: " and the generated logic in column F; every other cell is as before |
| Auto.PromptsFilled | auto.py:131-142 | after the pass every data row with a question and an answer has a non-blank prompt |
| Auto.NoFixesNoWrites | auto.py:125-142 | a loop none of whose rows needs a prompt writes nothing |
| Auto.PromptsIdempotent | auto.py:121-142 | running the pass again on its result writes nothing, whatever the generator answers |
| Auto.PromptsKeepRiddles | auto.py:142-150 | writing the prompts leaves every row's riddle request as it was |
| Auto.FixedGridLength | auto.py:142-150 | writes into existing rows keep the number of rows |
| Auto.RowUntouched | auto.py:149-150 | the loop's earlier writes leave the first four cells of the current row alone |
| Auto.Spreadsheet.constructor | auto.py:101 | no rich-text request sent yet |
| Auto.Spreadsheet.UpdateRichCell | auto.py:80-101 | `sheet.batch_update` with one `updateCells` request puts its text into the cell, and logs the request |
| Auto.WriteRiddleWithFormatting | auto.py:69-102 | the row's cells are read live; the request is sent and the cell written exactly when the row is complete |
| Auto.RiddleTurn | auto.py:149-150 | a turn of the riddle loop reads its row as it was before the loop, since earlier turns only wrote column E |
| Auto.FormatRow | auto.py:150 | one turn carries the sheet and the requests from row `i` to row `i + 1` |
| Auto.FormatRows | auto.py:148-150 | the riddle loop leaves every complete data row with its riddle in column E and sends their requests in row order |
| Auto.PromptRow | auto.py:126-142 | one turn writes the prompt of its row exactly when the row needs one |
| Auto.PopulateAiGradingPrompts | auto.py:121-142 | `populate_ai_grading_prompts` makes one `update_cell` per data row of the snapshot that needs a prompt |
| Auto.PromptRows | auto.py:125-142 | the loop over rows 3 onward of the snapshot makes exactly those writes |
| Auto.PromptStep | auto.py:125-142 | one turn carries the writes and the sheet from row `i` to row `i + 1` |
| Auto.FormatAndPopulateAll | auto.py:146-150 | the prompts are written first, then the riddles of the sheet as the prompts left it; the riddle requests are those of the sheet before the pass |

## Left out

- Network and file I/O are not modelled. This covers:
  - OAuth, credentials and YAML/env configuration loading;
  - client construction and `sheetId` lookup;
  - Slack logging and every `log`/`print` line.
- The Gmail, Sheets and OpenAI calls become parameters. Examples:
  - the message pages and their attempts in `MailIngest.Services`;
  - the outcome of each attempt of a remote call (`call`, `send`);
  - the rubric generator, the grading call (`GradingSheet.Grader`) and `generate_grading_logic` of `auto.py` (`Grading.Rubric`, `Auto.Logic`).
- The rubric generators (`Grading.Rubric`, `Auto.Logic`) are total functions, so every run gets a rubric back. In the source, `_openai_chat_safe` raises when both endpoints fail (src/modules/grading.py:189), and the OpenAI call in `auto.py`'s `generate_grading_logic` (auto.py:105-118) is not guarded. Neither raise is caught by its callers, and the aborts this causes are not modelled:
- GradingSheet.PopulateAiGradingPrompts: does not model a raise from `generate_grading_logic` (src/modules/grading.py:318), which ends the pass before its batch write, so nothing is written.
- GradingSheet.GradeSubmissionsForSheet: does not model a raise from `generate_grading_logic` (src/modules/grading.py:461), which ends the pass before the grade block is written, while the prompt write-backs already made stay.
- Auto.PopulateAiGradingPrompts: does not model a raise from `generate_grading_logic` (auto.py:140), which ends the loop with the earlier rows' `update_cell` writes in place.
- Auto.FormatAndPopulateAll: does not model that same raise, which ends the run before any `write_riddle_with_formatting` call.
- The prompt texts sent to the LLM are not modelled, since they are only passed through to the model.
- Library parsers become function parameters: `dateutil` parsing, `strftime`, `parseaddr`, base64 decoding and the regex `html_to_text`. A date parse that raises is modelled as `None`.
- Base64 decoding of a message part (src/modules/mail.py:36-51) is taken to succeed on every payload. In the source a malformed payload raises `binascii.Error`, which escapes `fetch_emails_for_label` and ends the run; the model has no such error path.
- Column letters: the source names columns with `chr(65 + idx)` (src/modules/grading.py:350 and :475) and the Winners range with `chr(64 + num_columns)` (src/modules/winners.py:34), which are only right up to column Z and, for the Winners range, need at least one column. The model writes to any column index.
- The grade block range runs from the AI Grade column to the AI Confidence column (src/modules/grading.py:483-487). The model writes the confidence at the grade column plus one, so it matches the source only when AI Confidence directly follows AI Grade, as the header repair arranges on a fresh sheet.
- Grading.ConfidenceText reads an integer numeral exactly. The source converts through `float` (src/modules/grading.py:232-235), so a numeral above 2^53 may round differently and one beyond the float range raises.
- Timestamps are plain integers; time zones are not modelled.
- Floating point is only partly modelled:
  - Clock times and sleeps are exact `real` seconds.
  - Confidence percentages (`int(round(val))`) go through a `fractional` parameter.
  - The random jitter of the HTTP backoff is a `noise` parameter. Its bounds are stated as hypotheses in `SheetBackoff.PauseBounds`.
- Case mapping, `isalpha`, `isdigit`, `upper()`/`lower()` and the regex word boundary `\b` (with its word characters `\w`) cover ASCII only. Non-ASCII letters are treated as uncased non-word characters, and non-ASCII digits as non-digits.
- Grading.SortByKey: stability is not stated, though the insertion sort keeps entries with equal keys in their input order, as Python's `sort` does. `Grading.FirstWindow` picks among windows with equal keys by that order.
- Text-run offsets of the rich-text riddle cell count characters. Sheets counts UTF-16 code units, so the two differ only outside the Basic Multilingual Plane.
- Concurrency is not modelled: the `threading.Lock`s of both rate-limit files are dropped and calls are sequential.
- Monkey-patching of gspread's classes is reduced to the state it changes: the flag, the client in place, and the number of backoff layers on the batch client.
- The environment variables of the HTTP backoff are the fields of `SheetBackoff.Config`. Their defaults are `SheetBackoff.Defaults`.
- `log_api_stats`, `list_labels` and the `main.py`/`auto.py` entry points are not modelled. They only log or sequence the modelled operations.
- RateLimit.NeverFail: requires a `bound` at which the call returns. The source loops forever when no attempt ever returns, and a terminating method cannot express that.
- RateLimit.SafeCall: needs the same `bound` as `RateLimit.NeverFail`.
- MailIngest.FetchEmailsForLabel: the `since_now` flag is not modelled, because the source accepts it and never reads it.
- Auto.WriteRiddleWithFormatting: the cell's text formatting is kept in the logged request rather than in the grid, since the grid holds only text.

## Findings

The ingestion and grading paths of the model follow the code as written (`Mail.CleanedAnswer`, `GradingSheet.WriteGrades`). The intended behaviour is defined beside them (`Mail.IntendedCleanAnswer`, `GradingSheet.BuildGradeBlockKeeping`) with its property proved, and `Mail.SeparatorOnlyDifference` bounds how far the two cleaners can differ.

| source | as written | input that shows it | evidently intended | confidence | as-written member | corrected member |
|---|---|---|---|---|---|---|
| src/modules/mail.py:90-96 | `_clean_answer` matches the pattern `^-- $` against `ln.strip()`. A stripped line never ends in a space, so the standard "-- " signature separator never cuts the answer. | the body "ans\n-- \nsig" is kept whole, signature included | the separator line ends the answer, leaving "ans" | high (not executed) | Mail.AsWrittenKeepsSignature | Mail.CorrectedDropsSignature |
| src/modules/grading.py:479-487 | `grade_submissions_for_sheet` fills every row of the block between the lowest and highest newly graded rows with `["", ""]` before writing it. An already-graded row inside that span is skipped for grading, but its AI grade and confidence are still overwritten with empty cells. | rows 3 and 5 newly graded, row 4 already graded "Correct": after the write, row 4's AI grade is "" | rows not graded on this run keep their AI grade and confidence | high (not executed) | GradingSheet.BlankFillClearsGradedRow | GradingSheet.KeepingBlockWrite |

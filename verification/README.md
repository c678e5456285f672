# Pcode assistant panel: flake8 alerts, highlight spans and pep8 rows

The assistant panel of the Pcode editor (`Extensions/BottomWidgets/Assistant.py`)
runs flake8 and pep8 over the file being edited and lists what they report.
Most of that module is Qt glue. This project models the three pieces of its
own logic and proves what they do:

1. **The flake8 line parser** (`flake8.dfy`, module `Flake8`). Each output line
   is matched against `FLAKE8_RE`, `^[^:]+:(?P<lineno>\d+):(?:(?P<col>\d+):)?\s*(?P<msg>.*?)\s*$`.
   A matching line becomes a `LinterError` when the message matches `ERROR_RE`,
   `^E\d+\s`, and a `LinterWarning` otherwise. The two regular expressions are
   written out by hand as a parser over the line (`ParseLine`), with Python's
   greedy matching and backtracking resolved into explicit cases. The loop of
   `run_flake8` becomes the method `ParseFlake8Output`, proved against the
   specification function `ParseAll`.
2. **The underline span** (`highlight.dfy`, module `Highlight`). For each alert,
   `updateAlertsView` underlines a range of the alert's line:
   - with no column, the whole line;
   - with a column, the token that `\w+|\s+|[<=>]=|\*\*|\W` matches at that column;
   - when nothing matches there, up to the end of the line.

   An empty range is moved to the front of the line. `HighlightSpan` models
   this with ASCII `\w` (see "Left out"), including Python's negative slicing
   for column 0, the whole line for a column one past the end, and the
   inverted range left for a column more than one past the end. `MarkAlerts` models the
   loop over the alerts.
3. **The pep8 rows** (`pep8.dfy`, module `Pep8`):
   - `CollectChecks` is the filter in `Pep8CheckerThread.run`. It drops the
     report entries whose code is `None`.
   - `BuildSupportDict` fills `autopep8SupportDict` from autopep8's supported
     fixes.
   - `Pep8Items` is the loop of `updatePep8View`. It marks each row fixable
     exactly when its code is a key of that table.

`text.dfy` (module `Text`) holds the character classes these patterns use:
- `\d`, `\w`, `\s` and `[^:]`;
- the greedy run of one class;
- whitespace trimming, which is what `\s*(.*?)\s*$` leaves as the message;
- decimal numerals read by `int()`.

`\s` is the exact set of characters for which Python's `str.isspace` holds.
`wrappers.dfy` holds the `Option` type, which stands for Python's `None`.

Python's `.` does not match a line break, so a trimmed message that still
contains `'\n'` makes `FLAKE8_RE` fail. The model keeps that case rather than
assuming that lines never contain a break.

## Model

| member | source | states |
|---|---|---|
| Text.RunEnd | Extensions/BottomWidgets/Assistant.py:14 | The end of a greedy run lies between its start and the end of the text. No contract beyond that bound: `RunEndSpec` and `RunEndUnique` characterise the run. |
| Text.RunEndSpec | Extensions/BottomWidgets/Assistant.py:14 | Every character from the start up to the computed end belongs to the class, and the character at the end does not. This is how the greedy `[^:]+` and `\d+` consume. |
| Text.RunEndUnique | Extensions/BottomWidgets/Assistant.py:14 | A position reached over characters of the class and followed by one outside it is the end of the greedy run, so the match cannot stop earlier or run further. |
| Text.Strip | Extensions/BottomWidgets/Assistant.py:14 | The message `\s*(?P<msg>.*?)\s*$` leaves is never longer than the rest of the line. `StripSpec`, `StripSurrounded` and `StripIdempotent` characterise it. |
| Text.StripSpec | Extensions/BottomWidgets/Assistant.py:14 | What `\s*(?P<msg>.*?)\s*$` leaves is trimmed. It is a contiguous part of the rest, and only whitespace lies before and after it. |
| Text.StripSurrounded | Extensions/BottomWidgets/Assistant.py:14 | A trimmed text with whitespace on both sides comes back unchanged. |
| Text.StripIdempotent | Extensions/BottomWidgets/Assistant.py:14 | Trimming a trimmed message changes nothing. |
| Text.WordAndSpaceDisjoint | Extensions/BottomWidgets/Assistant.py:358 | No character is both a word character and whitespace. Every digit is a word character. |
| Text.DecimalDigits | Extensions/BottomWidgets/Assistant.py:39 | Every natural number has a non-empty digit string that `int()` reads back as that number. The string starts with `0` only for zero, which is `0` alone, as `str(n)` writes it. |
| Flake8.IsErrorMessage | Extensions/BottomWidgets/Assistant.py:16 | `ERROR_RE.match(msg)`, read with the greedy digit run. No contract of its own: `ErrorMessageShape` proves it equal to the pattern's reading, in both directions. |
| Flake8.ErrorMessageShape | Extensions/BottomWidgets/Assistant.py:16 | `ERROR_RE` matches a message exactly when it starts with `E`, then one or more digits, then a whitespace character. Both directions are proved. |
| Flake8.BareCodeIsWarning | Extensions/BottomWidgets/Assistant.py:16 | A bare `E501` does not match `ERROR_RE`, and neither does a `W` code. |
| Flake8.CodeWithTextIsError | Extensions/BottomWidgets/Assistant.py:16 | `E501 line too long` matches `ERROR_RE`. |
| Flake8.Classify | Extensions/BottomWidgets/Assistant.py:45-47 | The record carries the given line number, offset and message. It is a `LinterError` exactly when `ERROR_RE` matches the message. |
| Flake8.ParsePrefix | Extensions/BottomWidgets/Assistant.py:14 | The groups before the message: the index where the message part begins is within the line. `ParsePrefixIff`, `PrefixWithColumn` and `PrefixWithoutColumn` characterise what it reads. |
| Flake8.Message | Extensions/BottomWidgets/Assistant.py:14 | The message group and the record built from it. No contract of its own: `MessageSpec` characterises it. |
| Flake8.ParseLine | Extensions/BottomWidgets/Assistant.py:37-47 | `FLAKE8_RE.match(l)` and the record built from its groups. No contract of its own: `ParsePrefixIff`, `ParseLineNeedsPrefix`, `ParseLineAcceptsPrefix`, `MessageSpec`, `ParsedMessage`, `ParseWithColumn` and `ParseWithoutColumn` characterise it. |
| Flake8.MessageSpec | Extensions/BottomWidgets/Assistant.py:14 | The tail of a line gives a record exactly when its trimmed form has no line break. The record then has the given fields, the trimmed tail as its message, and is well-formed. |
| Flake8.MessageBetweenBlanks | Extensions/BottomWidgets/Assistant.py:44-47 | A message between whitespace and without line breaks is taken as it stands and classified. |
| Flake8.ParsedMessage | Extensions/BottomWidgets/Assistant.py:44-47 | Every record parsed from a line has a message that does not start or end with whitespace. The message holds no line break, and the record is an error exactly when the message matches `ERROR_RE`. |
| Flake8.ParseLineNeedsPrefix | Extensions/BottomWidgets/Assistant.py:13-15 | A line gives a record only if it opens with a non-empty colon-free path, a colon, one or more digits and a colon. |
| Flake8.ParseLineAcceptsPrefix | Extensions/BottomWidgets/Assistant.py:13-15 | Every line without a line break that opens with that prefix gives a record. |
| Flake8.ParsePrefixIff | Extensions/BottomWidgets/Assistant.py:13-15 | The front of `FLAKE8_RE` is read exactly when the line opens with a non-empty colon-free path, a colon, one or more digits and a colon. Both directions are proved. |
| Flake8.PrefixWithColumn | Extensions/BottomWidgets/Assistant.py:39-41 | For `path:line:col:...`, the path ends at the first colon. The line number and the column are the decimal values of the two digit runs, and the message part starts after the third colon. |
| Flake8.PrefixWithoutColumn | Extensions/BottomWidgets/Assistant.py:39-43 | When no digits-and-colon group follows the line number, the column is `None`. The message part then starts right after the line number's colon. |
| Flake8.ParseWithColumn | Extensions/BottomWidgets/Assistant.py:39-44 | For `path:line:col:rest`, the line number and the offset are the decimal values of the two digit runs. The message comes from the trimmed rest. |
| Flake8.ParseWithoutColumn | Extensions/BottomWidgets/Assistant.py:39-44 | When no digits-and-colon group follows the line number, the offset is `None`. The message comes from the whole tail after the line number. |
| Flake8.ExampleWithoutColumn | Extensions/BottomWidgets/Assistant.py:37-47 | `a.py:3: W6 x` gives a warning with line 3, offset `None` and message `W6 x`. |
| Flake8.ExampleBareCode | Extensions/BottomWidgets/Assistant.py:37-47 | `a.py:3:5: E501` gives a warning, not an error, with line 3 and offset 5. |
| Flake8.ExampleError | Extensions/BottomWidgets/Assistant.py:37-47 | `a.py:3:5: E501 line too long ` gives an error whose message has lost its trailing blank. |
| Flake8.ExampleEmptyPath | Extensions/BottomWidgets/Assistant.py:13-15 | `:3: W6 x`, whose path is empty, gives no record. |
| Flake8.ExampleNoLineNumber | Extensions/BottomWidgets/Assistant.py:13-15 | `a.py:x: W6 x`, whose line number is not made of digits, gives no record. |
| Flake8.ParseAll | Extensions/BottomWidgets/Assistant.py:36-48 | The output has at most one record per line. |
| Flake8.ParseAllAppend | Extensions/BottomWidgets/Assistant.py:36-48 | The records of consecutive lines are the records of the first part followed by those of the second, so input order is kept. |
| Flake8.ParseAllSource | Extensions/BottomWidgets/Assistant.py:36-48 | Every record in the output is the parse of some input line. |
| Flake8.ParseAllContains | Extensions/BottomWidgets/Assistant.py:36-48 | Every line that parses contributes its record after the records of all earlier lines and before those of later ones. |
| Flake8.ParseFlake8Output | Extensions/BottomWidgets/Assistant.py:36-48 | The loop appends exactly the records `ParseAll` describes, in line order. |
| Highlight.SliceFromSuffix | Extensions/BottomWidgets/Assistant.py:358 | Python's `line[start:]` is always a suffix of the line. From a start within the line it holds the characters from there on, a start past the end gives nothing, and a negative start keeps that many characters from the end, or the whole line when there are fewer. |
| Highlight.MatchToken | Extensions/BottomWidgets/Assistant.py:358 | The token pattern fails exactly on the empty string. Otherwise it matches at least one character and no more than the string holds. |
| Highlight.MatchWord | Extensions/BottomWidgets/Assistant.py:358 | At a word character the token is the whole run of word characters. |
| Highlight.MatchSpace | Extensions/BottomWidgets/Assistant.py:358 | At whitespace the token is the whole run of whitespace. |
| Highlight.MatchOperator | Extensions/BottomWidgets/Assistant.py:358 | `<=`, `==`, `>=` and `**` are two-character tokens. |
| Highlight.MatchOther | Extensions/BottomWidgets/Assistant.py:358 | Any other character is a token of its own. |
| Highlight.HighlightSpan | Extensions/BottomWidgets/Assistant.py:353-364 | Without a column, the span is the whole line. With column c in 1..len, it starts at c-1 and is non-empty within the line. Column 0 gives (-1, 0); column len+1 gives the whole line; a larger column c gives the inverted (c-1, len). |
| Highlight.SpanIsToken | Extensions/BottomWidgets/Assistant.py:356-360 | Inside the line, the span is exactly the token matched at the column. |
| Highlight.HighlightWord | Extensions/BottomWidgets/Assistant.py:356-360 | A column on a word underlines only word characters, up to the end of the word. |
| Highlight.IndicatorFor | Extensions/BottomWidgets/Assistant.py:349-364 | An alert is underlined on its line counted from zero, and on the whole line when it has no column. |
| Highlight.MarkAlerts | Extensions/BottomWidgets/Assistant.py:346-364 | The loop draws one underline per alert, in alert order, each the one `IndicatorFor` gives. |
| Pep8.Coded | Extensions/BottomWidgets/Assistant.py:78-88 | The kept entries all have a code, and there are no more of them than report entries. |
| Pep8.CodedAppend | Extensions/BottomWidgets/Assistant.py:78-88 | Filtering keeps report order. The kept entries of consecutive parts are the first part's followed by the second's. |
| Pep8.CodedMembers | Extensions/BottomWidgets/Assistant.py:78-88 | An entry is kept exactly when it is in the report and its code is not `None`. |
| Pep8.CodedKeepsAll | Extensions/BottomWidgets/Assistant.py:85-88 | A report in which every entry has a code is kept whole and unchanged. |
| Pep8.CodedDropsAll | Extensions/BottomWidgets/Assistant.py:85-87 | A report in which no entry has a code gives nothing. |
| Pep8.CodedIdempotent | Extensions/BottomWidgets/Assistant.py:78-88 | Filtering the kept entries again changes nothing. |
| Pep8.CollectChecks | Extensions/BottomWidgets/Assistant.py:78-88 | The loop's list is exactly the coded entries, unchanged and in report order. |
| Pep8.SupportDict | Extensions/BottomWidgets/Assistant.py:240-243 | The table's keys are exactly the first elements of the supported fixes. |
| Pep8.SupportDictLastWins | Extensions/BottomWidgets/Assistant.py:242-243 | Each code maps to the description of the last supported fix with that code. |
| Pep8.BuildSupportDict | Extensions/BottomWidgets/Assistant.py:240-243 | The loop builds exactly the table `SupportDict` describes. |
| Pep8.Fixable | Extensions/BottomWidgets/Assistant.py:405 | `i[3] in self.autopep8SupportDict`. No contract of its own: `FixableIff` ties it to the list of supported fixes. |
| Pep8.FixableIff | Extensions/BottomWidgets/Assistant.py:405-412 | An entry is fixable exactly when it has a code that the first element of some supported fix equals. |
| Pep8.ItemFor | Extensions/BottomWidgets/Assistant.py:403-417 | A row carries the entry's line, text, column and code. It is marked fixable exactly when the code is a key of the support table. |
| Pep8.Pep8Items | Extensions/BottomWidgets/Assistant.py:403-418 | The loop gives one row per entry, in order, each the one `ItemFor` gives. |
| Pep8.RowsOfReport | Extensions/BottomWidgets/Assistant.py:78-88 | Every row shown comes from a report entry with a code. It is fixable exactly when some supported fix has that code. |

## Left out

- Running flake8 is outside the model: the temporary file, the subprocess and its failure path, UTF-8 decoding and `splitlines` (lines 29-36). The input is the sequence of lines. Lines may hold any characters, including line breaks.
- Running pep8 and autopep8 is outside the model. The report entries and the list of supported fixes are inputs. `StyleGuide.check_files`, `BaseReport.error` (which decides the code, `None` for an ignored check) and `supported_fixes` are not part of this model.
- The bare `except: pass` around the pep8 run is not modelled. Only the library calls can raise there, and those calls are outside the model.
- All Qt code is not modelled. This covers the threads and their signals, the debounce timer, tree items, icons, counts, the "No code problems detected." and "<No Issues>" placeholder rows, and the editor calls (`fillIndicatorRange`, `clearErrorMarkerAndIndicator`).
- The editor's text of a line is an input: `lines`, read through `LineText`. Each text includes the line's end-of-line characters, as the editor returns them, so the whole-line span also covers the line ending. An editor gives an empty text for a line it does not have.
- The `critical` branch of `updateAlertsView` (lines 324-343) is not modelled. `ErrorCheckerThread` always passes `False` for it. The branch also calls `createItem` with five arguments, while its definition takes one.
- `\w` and `\d` are ASCII here: letters, digits and `_`, and `0`-`9`. Python 3 also counts other Unicode letters and digits, and `int()` reads Unicode digits. Non-ASCII letters and digits are therefore outside this model: `MatchToken` takes a non-ASCII letter as a token of one character where Python's `\w+` takes the whole word. `\s` is exact.
- `alertPressed`, the autopep8 fixer thread and the context menus are not modelled. They are outside the three pieces of logic above.

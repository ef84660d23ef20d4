# Contact-list cleaner and LinkedIn deduplicator, modelled in Dafny

This project models the decision logic of two small contact-list tools:

- `clay.py` cleans a contact CSV. It has four parts.
  - `validate_email` asks an email-validation service about each address. It retries on HTTP 429.
  - `is_initials` and `clean_first_name` normalise the "First Name" column.
  - `process_csv` rewrites every first name and records the names it could not clean confidently. It validates every email in row order, keeps the rows whose email passed, and writes a report.
- `dedupe.py` drops input rows whose stripped "LinkedIn Profile" already appears among a master file's stripped "LinkedIn URL" values. It also drops rows whose profile is empty.

Modules:

- `Common`: `Option`, `Result`, and a CSV cell (`None` is pandas' NaN).
- `Text`: the ASCII string operations the code relies on. These are `str.strip`, `split()[0]`, `capitalize` and `str(n)`, along with a read-back of decimal text.
- `EmailValidation`: the rule that decides one address, and the 429 retry. The HTTP request is not modelled. Instead, a call receives the replies the service would send to its successive identical requests.
- `Names`: both regular expressions, written as scanners. Each scanner sits beside a declarative description of what it matches. The module also holds `clean_first_name`.
- `Masks`: pandas boolean-mask row selection, used by both tools.
- `Cleaner`: the row logic of `process_csv`. `CleanNames`, `ValidateAll`, `KeepValid` and `WriteReport` are methods with loops. Each is proved against a specification function. `ProcessCsv` composes them.
- `Dedupe`: `dedupe_csv` after both files are loaded. The key column is rewritten in place by a loop, and the rows are then filtered by the mask.

The model follows what the code does, including where its comments (clay.py:54, 60 and 78) suggest a narrower or broader behaviour:

- The initials pattern also accepts ordinary short names such as "Al" and "Bob" (`Names.InitialsExamples`).
- The quote pattern knows only straight quotes. Its first alternative accepts mismatched pairs such as `'David"` (`Names.CleanMismatchedQuotesExample`).
- Initials come back stripped, not byte-for-byte unchanged.
- A first name that is blank after stripping makes `split()[0]` raise inside the row loop. That aborts the whole file rather than one row, so the model returns `Err(BlankName)` from `ProcessCsv`.

## Model

| member | source | states |
|---|---|---|
| EmailValidation.Decide | clay.py:28-32 | An address passes exactly when all three hold: deliverability is "DELIVERABLE", the score is a number above 0.7, and the format flag is true. A missing score or flag fails, and so does a score that `float` rejects. |
| EmailValidation.Verdict | clay.py:24-50 | A reply that is not a 429 keeps the address exactly when it is a 200 with a decodable body that passes the rule. A 422, any other status, an undecodable body and a transport exception all answer false. |
| EmailValidation.RequestsIssued | clay.py:36-39 | One call issues one request per leading 429 plus one. Every earlier reply was a 429 and the last one was not. |
| EmailValidation.Validate | clay.py:14-50 | The answer is the verdict on the first reply that is not a 429. |
| EmailValidation.ValidateIgnoresLaterReplies | clay.py:36-39 | Replies after the deciding one are never requested, so they change neither the answer nor the number of requests. |
| EmailValidation.QuotaReachedIsFinal | clay.py:41-43 | A 422 answers false after one request, whatever would have followed. |
| EmailValidation.RateLimitedRetries | clay.py:36-39 | A leading 429 costs one more request and otherwise leaves the answer to the remaining replies. |
| EmailValidation.ValidateKeepsIff | clay.py:24-39 | An address is kept exactly when there is a first non-429 reply and it is a 200 whose body passes every part of the rule. |
| Text.Strip | clay.py:72 | The result has no whitespace at either end and is no longer than the input. |
| Text.TrimStartSplits | clay.py:72 | Stripping the front removes exactly a leading run of whitespace. |
| Text.TrimEndSplits | clay.py:72 | Stripping the back removes exactly a trailing run of whitespace. |
| Text.StripPadded | clay.py:72 | Whitespace-padded trimmed text strips to that text. |
| Text.StripTrimmed | clay.py:59 | Text already stripped is left as it is. |
| Text.StripIdempotent | clay.py:59 | Stripping twice is stripping once. This is why the second strip in `is_initials` changes nothing. |
| Text.Word | clay.py:88 | The result is the longest whitespace-free prefix of the input. |
| Text.FirstWord | clay.py:88 | `split()[0]` fails exactly on all-whitespace text. Otherwise it is the first whitespace-free word after the leading whitespace, which is non-empty. |
| Text.WordOf | clay.py:88 | A word followed by whitespace or by nothing is what `split()[0]` returns. |
| Text.Capitalize | clay.py:91 | The result has the same length and the same letters up to case. Its first character is not lower-case and no later character is upper-case. |
| Text.Decimal | clay.py:161-163 | `str(n)` is non-empty, all decimal digits, and has no leading zero unless it is "0". |
| Text.DecimalRoundTrip | clay.py:161-163 | Reading the decimal text of a count back gives the count. |
| Names.InitialsTailIff | clay.py:61 | The scanner for the pattern after the first letter accepts exactly letters and separators of the following shape: at most one `.` or space between letters, an optional trailing `.`, and at most the allowed number of further letters. |
| Names.InitialsPattern | clay.py:61 | Its body is the scanner for the anchored pattern: one letter, then at most two further letters, each optionally preceded by `.` or a space, then an optional `.`. `Names.InitialsPatternIff` states the strings it accepts. |
| Names.IsInitials | clay.py:52-61 | Its body is the definition: a missing name is not initials, and otherwise the stripped text must match the pattern. `Names.IsInitialsStripped` and `Names.CleanFirstNameContract` state its properties. |
| Names.InitialsPatternIff | clay.py:61 | The anchored initials pattern accepts exactly one to three ASCII letters. Neighbouring letters are separated by at most one `.` or space, and at most one `.` may trail. |
| Names.InitialsExamples | clay.py:61 | "A.B.", "A B", "J", "Al" and "Bob" match. "A. B", "Anna" and "" do not. |
| Names.ThreeLettersMoreNotInitials | clay.py:61 | Three letters followed by anything but a single `.` do not match. |
| Names.IsInitialsStripped | clay.py:59-61 | `is_initials` gives the same answer on stripped text as on the original. |
| Names.FindFrom | clay.py:80 | Returns the first position at or after `i` that holds a stop character, or the end of the text. |
| Names.AltAt | clay.py:80 | Its body is the definition of one alternative of the quote pattern tried at one position: an opening quote, then the text up to the next stop character, which must exist and not be adjacent. `Names.AltAtIff` states its contract. |
| Names.AltAtIff | clay.py:80 | One alternative of the quote pattern captures `q` at `p` exactly when four things hold: an opening quote at `p`, then `q` (non-empty, with no stop character), then a stop character. |
| Names.QuoteAt | clay.py:80 | Any capture of the quote pattern is non-empty. |
| Names.QuoteAtShape | clay.py:80 | A match is of one of two kinds. A first-alternative match has text free of quote characters, between two quote characters that may differ. A later-alternative match sits between two identical quotes and starts with the other kind of quote. |
| Names.SearchQuote | clay.py:80 | Its body is the definition of `re.search`: it tries the pattern at each position from left to right and stops at the first match. `Names.SearchQuoteLeftmost` states its contract. |
| Names.SearchQuoteLeftmost | clay.py:80 | `re.search` finds the leftmost position where the pattern matches, with that position's text. It finds nothing exactly when the pattern matches nowhere. |
| Names.QuotedNameMatch | clay.py:80 | In `Wen Jing "David"` the leftmost match starts at 9 and captures "David". |
| Names.NoQuoteNoMatch | clay.py:80 | Text without quote characters has no match. |
| Names.NoQuoteStripped | clay.py:72-80 | Text without quote characters has no match after stripping either. |
| Names.StripBlank | clay.py:72-88 | A name is blank exactly when it strips to empty text, which is when `split()[0]` raises. |
| Names.CleanFirstName | clay.py:63-91 | Its body is the definition. A missing name or initials comes back stripped and unconfident. Otherwise the result is the leftmost quoted text, stripped, or else the capitalised first word. A blank name raises. `Names.CleanFirstNameContract`, `Names.CleanTakesLeftmostQuote` and `Names.CleanCapitalizesFirstWord` state its contract. |
| Names.CleanFirstNameContract | clay.py:63-91 | The normaliser raises exactly on blank names. It is unconfident exactly on missing names and on names that `is_initials` accepts (equivalently, names with the initials shape). An unconfident result is the stripped input. A confident result is always a name. |
| Names.CleanKeepsInitials | clay.py:75-76 | Initials come back stripped and unconfident. |
| Names.CleanTakesLeftmostQuote | clay.py:80-85 | Take a name that is not initials. Its result is the leftmost quote match's text, stripped, and confident. |
| Names.CleanTakesFirstWord | clay.py:87-91 | A name with neither initials nor a quote match gives its first word capitalised, and confident. |
| Names.CleanCapitalizesFirstWord | clay.py:87-91 | Without initials or quotes, the result is confident and is the stripped name's leading word up to case. It ends at whitespace or at the end, with the first letter not lower-case and the rest not upper-case. |
| Names.CleanPlainNameExample | clay.py:63-91 | "maria garcia" cleans to "Maria", confidently. |
| Names.CleanQuotedExample | clay.py:78-85 | `Wen Jing "David"` cleans to "David", confidently. |
| Names.CleanMismatchedQuotesExample | clay.py:80-85 | `'David"` cleans to "David": the first alternative accepts mismatched quotes. |
| Names.CleanInitialsExample | clay.py:68-91 | " A.B. " gives "A.B." unconfidently. A missing name stays missing and unconfident. "  " raises. |
| Masks.Select | clay.py:144 | `frame[mask]` keeps no more rows than it was given. Its body is the definition. `Masks.SelectAtTrueIndices` and `Masks.SelectMembership` state which rows it keeps and in what order. |
| Masks.CountTrue | clay.py:141 | `mask.sum()` is at most the mask's length. `Masks.SelectAtTrueIndices` states that it equals the number of selected rows. |
| Masks.TrueIndices | clay.py:144 | Returns the positions of the true mask entries, ascending, every one of them. |
| Masks.SelectAtTrueIndices | clay.py:144 | The selected rows are exactly the rows at the true positions, in order, and there are as many as there are true entries. |
| Masks.SelectMembership | dedupe.py:56 | An item is selected exactly when it stands at some position whose mask entry is true. |
| Cleaner.CleanedNames | clay.py:122 | The series `df.apply(clean_and_track, axis=1)` has one name per row. `Cleaner.CleanedNamesAt` states that each entry is the normaliser's output for its row. |
| Cleaner.RenamedRows | clay.py:122 | Its body is the definition of `df` after the first-name column is assigned: the input rows with the cleaned names. `Cleaner.RenamedRowsAt` states its contract. |
| Cleaner.Unconfident | clay.py:114-115 | Its body is the definition of the per-row flag `not is_valid`: the name is missing or is initials. `Cleaner.FlaggedIffUnconfident` states that it agrees with the normaliser. |
| Cleaner.InvalidNames | clay.py:109-120 | Its body is the definition of the `invalid_names` list: each flagged row's name and email, selected in table order. `Cleaner.InvalidNamesIff` and `Cleaner.InvalidNamesInOrder` state its contract. |
| Cleaner.Verdicts | clay.py:138 | Its body is the definition of the `is_valid_email` column: one validation per row over that row's replies. `Cleaner.ValidateAll` and `Cleaner.KeptRowsAreValidatedRows` state its contract. |
| Cleaner.CleanNames | clay.py:113-122 | The method aborts exactly when some name is blank. Otherwise it returns the renamed table and the invalid-name list, both in table order. |
| Cleaner.ValidateAll | clay.py:128-138 | Returns one validation per row, in row order, over that row's replies. |
| Cleaner.KeepValid | clay.py:141-144 | Returns the rows whose email passed, in order, and a `valid_count` equal to their number. |
| Cleaner.ReportLines | clay.py:160-171 | Its body is the definition of the report body: the summary lines, then the heading, a rule and each entry's lines when some name was flagged. `Cleaner.ReportShape` and `Cleaner.SummaryCountsReadBack` state its contract. |
| Cleaner.WriteReport | clay.py:160-171 | Writes the report body: the summary, then the section for the invalid names. |
| Cleaner.ProcessCsv | clay.py:93-174 | A blank name aborts the file. Otherwise the output is the renamed rows that passed validation, the invalid-name list, the count and the report. |
| Cleaner.CleanedNamesAt | clay.py:113-122 | Each row's new first name is the normaliser's output for that row. |
| Cleaner.RenamedRowsAt | clay.py:122 | A cleaned row is its input row with the new first name. Its email and other columns are untouched. |
| Cleaner.KeptRowsAreValidatedRows | clay.py:138-144 | The output rows are the renamed rows whose email passed, in input order, and `valid_count` counts them. Every passing row is among them. |
| Cleaner.InvalidNamesIff | clay.py:113-120 | The invalid-name list has as many entries as there are flagged rows. An entry is listed exactly when some row with a missing name or initials has that name and email. |
| Cleaner.InvalidNamesInOrder | clay.py:113-120 | The list is in table order: its k-th entry is the name and email of the k-th flagged row, the flagged rows ascend, and every flagged row has its entry. |
| Cleaner.FlaggedIffUnconfident | clay.py:114-115 | A row is flagged exactly when the normaliser reports that it was not cleaned confidently. |
| Cleaner.MissingNameListed | clay.py:113-119 | A row with no first name is always listed, with its email. |
| Cleaner.Dashes | clay.py:167 | `"-" * n` is n dashes. |
| Cleaner.AllEntryLinesCounts | clay.py:168-171 | Each entry writes three lines, one of them the rule, and never the section heading. |
| Cleaner.ReportShape | clay.py:160-171 | The body is five summary lines. When some name was flagged, it also has the heading, one rule, and three lines per entry, for `n + 1` rules in all. With no flagged name there is no heading and no rule. |
| Cleaner.SummaryCountsReadBack | clay.py:160-163 | The three summary lines carry their labels. Their numbers read back as the total, the valid count and the invalid-name count. |
| Cleaner.TwoRowShape | clay.py:113-144 | Take an initials row and a plain row, both passing. Both rows are kept, only the plain name is rewritten, and only the initials row is listed. |
| Cleaner.TwoRowExample | clay.py:113-144 | The rows ("A.B.", a) and ("maria garcia", m) give the names "A.B." and "Maria", and list only "A.B." with a. |
| Dedupe.IndexOf | dedupe.py:30-38 | Finds a column exactly when it exists, at its first occurrence. |
| Dedupe.MasterKeys | dedupe.py:41 | Every master key is stripped text. |
| Dedupe.MasterKeysSubset | dedupe.py:41 | The master set depends only on the column's values: fewer values give no more keys. |
| Dedupe.MasterKeysOfSameValues | dedupe.py:41 | Master columns with the same set of values give the same key set, whatever their order and repeats. |
| Dedupe.NormalizedKey | dedupe.py:52 | A rewritten key cell is stripped text. A missing cell becomes "". |
| Dedupe.Normalized | dedupe.py:52 | Rewriting the key column keeps one row per input row, and each row still has the column. `Dedupe.NormalizedAt` states what each row becomes. |
| Dedupe.NormalizedAt | dedupe.py:52 | A rewritten row differs from its input row only in the stripped key cell. |
| Dedupe.KeepMask | dedupe.py:53 | `unique_mask` has one entry per row. Its body is the definition. `Dedupe.KeepIff` and `Dedupe.UniqueRowsAre` state which rows it keeps. |
| Dedupe.UniqueRows | dedupe.py:53-56 | Its body is the definition of `unique_df`: the rewritten rows selected by the mask. `Dedupe.UniqueRowsAre` states which rows those are and in what order. |
| Dedupe.KeepIff | dedupe.py:53 | A row is kept exactly when its stripped profile is non-empty and not a master key. |
| Dedupe.UniqueRowsAre | dedupe.py:53-56 | The unique rows are the rewritten rows with a fresh profile, each once, in input order. Every such row is among them. |
| Dedupe.InputDuplicatesKept | dedupe.py:53 | Duplicates inside the input are not removed: two rows with the same fresh profile both appear, in order. |
| Dedupe.DedupeIdempotent | dedupe.py:52-56 | Deduplicating the output against the same master set changes nothing. |
| Dedupe.FilterRows | dedupe.py:56 | Returns the rows the mask keeps, in order, as many as the mask has true entries. |
| Dedupe.DedupeCsv | dedupe.py:29-60 | A missing "LinkedIn URL" column is reported first, then a missing "LinkedIn Profile" column. Otherwise the result is the input's header over the unique rows. The total is the input's length, and duplicates are the total minus the unique count. |
| Dedupe.OnlyNewProfileKept | dedupe.py:41-56 | Take two profiles already in the master (one padded), a new one, and a missing one. Only the new profile's row survives. |
| Dedupe.WorkedExample | dedupe.py:41-56 | Take the master keys {u1, u2} and the input profiles u1, " u2 ", u3 and a missing one. Only the u3 row is kept. |

## Left out

- The HTTP request, `time.sleep(1)`, JSON decoding and every `print` are left out. A validation is given the service's replies as data.
- EmailValidation.Validate: the model assumes no recursion limit. It requires that some reply is not a 429 (`Settles`) and then answers with the verdict on the first such reply, however many 429s come before it. The source retries by recursion (clay.py:39). A run of roughly a thousand 429s, or fewer given the stack `requests.get` uses, exceeds Python's recursion limit. The resulting `RecursionError` is caught at clay.py:48-50, so the source answers False there, whatever reply would have followed.
- EmailValidation.Decide: `float(...)` is modelled by its outcome (absent, a real number, or rejected). String parsing of the score is not modelled, and the score is a mathematical real rather than a double.
- EmailValidation.Decide: an `is_valid_format` field that is not a dictionary, or a value that is truthy but not a boolean, is not modelled. The flag is either a boolean or missing.
- Cleaner.ProcessCsv: the table's `First Name` and `Email` columns are assumed present. A missing column raises `KeyError` in pandas and is not modelled.
- Cleaner.ProcessCsv: CSV reading and writing, the file names with their timestamps, and the report's header lines (clay.py:157-158) are left out. The report is modelled as its list of lines, each of which the source writes followed by a newline.
- Cleaner.ProcessCsv: on a table with no rows the model answers `Ok` with no rows, no invalid names and a summary of 0, 0 and 0. What the source does on a table with no rows depends on pandas and is not modelled.
- Names.CleanFirstName: cells are strings or missing. `str(name)` on numbers read by pandas is not modelled, and whitespace and case are ASCII only.
- Dedupe.DedupeCsv: the two file reads and their `return None` on failure are left out, along with the output file and its name.
- Dedupe.DedupeCsv: a master key column that pandas reads as all-missing has a float dtype, and `.str` then raises `AttributeError`. That path is not modelled; such a column gives the empty key set.
- The `main()` functions of both scripts (prompts, folder scanning, environment variables) are left out.

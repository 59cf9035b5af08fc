# Medical report summarizer, modelled in Dafny

This project models the text-processing core of `Medical_reports.py`, a
script that turns a scanned medical report (a PDF) into two files:

- a markdown summary;
- a structured patient record.

The script works in these steps:

1. The PDF is sent to an OCR service.
2. The non-blank text of its pages is kept, each page stripped, in page order.
3. The kept pages are written to a markdown file, separated by a `---` divider.
   When no page is kept, the file holds a fixed marker sentence instead.
4. The pages, joined by newlines, are placed after a fixed instruction in a prompt for a chat model.
5. The reply is cut into name, sex, age and summary lines.
6. The fields are validated into a `PatientInfo` record. The age is read from the first run of digits in the age line. It is refused when the line has no digit, or when that run is longer than `int()` accepts.
7. The record is written as JSON only when validation succeeds.

The modules are:

- `Wrappers`: `Option` and `Result`.
- `Text`: Python's `str.strip()`, `str.split(c)` with a one-character separator, and `sep.join(parts)`. It also proves the split/join round trips and that stripping leaves stripped text unchanged.
- `Assembly`:
  - the page loop, as a method with a loop invariant;
  - the saved markdown file;
  - the prompt.
- `Extraction`: `extract_patient_info`.
- `Validation`: the `PatientInfo` record and its `validate_age` validator.
- `Pipeline`: one whole run. The OCR reply is an input, the chat model is a function parameter, and the two files are returned as values.

## Model

| member | source | states |
|---|---|---|
| Text.Strip | Medical_reports.py:56-57 | `str.strip()` yields text with no whitespace at either end |
| Text.StripRemovesSpace | Medical_reports.py:56-57 | the stripped text is a contiguous slice of the input, and everything cut off on either side is whitespace |
| Text.StripEmpty | Medical_reports.py:56 | a string strips to "" exactly when it is all whitespace (the page test of line 56) |
| Text.StripStripped | Medical_reports.py:93 | stripping text that has no whitespace at either end leaves it unchanged |
| Text.Split | Medical_reports.py:93 | `split("\n")` yields one more piece than there are separators, so the list is never empty |
| Text.SplitPieces | Medical_reports.py:93 | no piece of a split holds the separator |
| Text.SplitFirst | Medical_reports.py:93-95 | the first piece is the text before the first separator |
| Text.SplitRest | Medical_reports.py:93 | the pieces after the first are the split of the text after the first separator, which holds one separator fewer |
| Text.SplitAt | Medical_reports.py:93-97 | piece `k` is the first line of the text left after dropping `k` lines |
| Text.JoinSplit | Medical_reports.py:93-98 | joining a split with its separator gives back the original string |
| Text.JoinSplitFrom | Medical_reports.py:98 | joining pieces `k..` with the separator gives the text after the first `k` lines |
| Text.SplitJoin | Medical_reports.py:93-98 | splitting a non-empty list of separator-free pieces joined by the separator gives back the pieces (an empty list joins to "", which splits into `[""]`) |
| Text.SplitJoinFront | Medical_reports.py:93-98 | when every piece but the last is separator-free, splitting the join gives those pieces followed by the split of the last |
| Text.SplitAfterPiece | Medical_reports.py:93 | a separator-free piece followed by the separator splits off as one piece |
| Text.SplitNoSeparator | Medical_reports.py:93 | a string without the separator splits into itself alone |
| Text.Join | Medical_reports.py:63 | `sep.join(parts)` holds every part once and one separator between each two neighbours: its length is the parts' total length plus one separator per gap |
| Text.JoinEnds | Medical_reports.py:63 | a join starts with the first part and ends with the last part |
| Text.LineEnd | Medical_reports.py:93 | the index found is either the end of the string or a separator |
| Text.LineEndFirst | Medical_reports.py:93 | no separator comes before that index, and it is the end exactly when the string has no separator |
| Assembly.Contribution | Medical_reports.py:56-57 | a page adds at most one block, and it adds one exactly when its markdown key exists and does not strip to ""; that block is non-empty and stripped |
| Assembly.Kept | Medical_reports.py:55-57 | the filter of the loop, page by page from the first; it never yields more blocks than there are pages |
| Assembly.KeptBlocks | Medical_reports.py:54-57 | with no `pages` key nothing is kept; otherwise at most one block per page |
| Assembly.AssembleBlocks | Medical_reports.py:53-57 | the loop's result is `KeptBlocks`, the page-by-page filter of the pages; with no `pages` key it is empty |
| Assembly.KeptClean | Medical_reports.py:56-57 | every kept block is non-empty and stripped |
| Assembly.KeptAppend | Medical_reports.py:55-57 | the blocks of two runs of pages are the blocks of the first followed by those of the second, so input order is kept |
| Assembly.KeptSingle | Medical_reports.py:56-57 | one page yields its stripped text when usable, and nothing otherwise |
| Assembly.KeptSound | Medical_reports.py:56-57 | every kept block is the stripped text of some usable page |
| Assembly.KeptComplete | Medical_reports.py:56-57 | the stripped text of every usable page is among the kept blocks, right after the blocks of the pages before it |
| Assembly.KeptAround | Medical_reports.py:55-57 | the blocks are those of the pages before page `i`, then page `i`'s contribution, then those of the pages after it |
| Assembly.ContributionEmpty | Medical_reports.py:56 | a page adds nothing exactly when its markdown is absent or all whitespace |
| Assembly.KeptEmpty | Medical_reports.py:54-57 | no block is kept exactly when every page lacks markdown or holds only whitespace |
| Assembly.Header | Medical_reports.py:61 | the header is `# Summary of `, the document name, and a blank line; the name can be read back from it |
| Assembly.MarkdownArtifact | Medical_reports.py:60-65 | the file starts with the header; after it comes the no-content marker when no block was kept, and otherwise the blocks joined by the `---` divider |
| Assembly.ArtifactLayout | Medical_reports.py:61-63 | the saved file is the header `# Summary of <name>` and a blank line, then the first block right away, and it ends with the last block (no divider before the first or after the last) |
| Assembly.ArtifactWhenEmpty | Medical_reports.py:61-65 | when every page is absent or blank, the file is the header followed by the no-content marker |
| Assembly.MarkerIsAmbiguous | Medical_reports.py:62-65 | one kept block whose text is the marker sentence gives the same file as no block at all, so the file alone cannot tell the two apart |
| Assembly.PromptText | Medical_reports.py:68 | the prompt text is "" for no blocks, and otherwise the blocks with one newline between each two |
| Assembly.RenderingsDifferBySeparators | Medical_reports.py:63-68 | the file body and the prompt text join the same blocks in the same order; the body is six characters longer per divider |
| Assembly.Prompt | Medical_reports.py:89-90 | the prompt is the fixed instruction, a blank line, then the text, and the text can be read back from its end |
| Assembly.PromptInjective | Medical_reports.py:89-90 | different texts give different prompts |
| Assembly.PromptNeverShowsMarker | Medical_reports.py:62-69 | with no blocks the prompt is the instruction and a blank line only, while the file carries the marker after its header |
| Extraction.Extract | Medical_reports.py:92-100 | every field comes out stripped; with fewer than 2 lines the sex is "Unknown", with fewer than 3 the age is "0", with fewer than 4 the summary is "" |
| Extraction.ExtractByLines | Medical_reports.py:93-98 | the name is the first line of the stripped reply, stripped, whatever the reply; sex and age are the second and third lines when present; the summary is everything after the third line, stripped |
| Extraction.DropLinesPastEnd | Medical_reports.py:98 | dropping more lines than there are leaves "" |
| Extraction.ExtractReply | Medical_reports.py:92-100 | a reply laid out as name, sex, age and summary lines is read back field for field, when the name and the summary are non-empty, the name, sex and age are one line each, and no field has whitespace at its ends |
| Extraction.ReplySplits | Medical_reports.py:93 | such a reply is already stripped, and its lines are the name, the sex, the age, then the summary's own lines |
| Validation.DecimalValue | Medical_reports.py:28 | `int()` of a digit string; `n` digits give a value below `10^n` |
| Validation.DecimalValueLeadingZero | Medical_reports.py:28 | a leading zero does not change the value read by `int()` |
| Validation.DecimalString | Medical_reports.py:28 | `str(n)` is a non-empty string of digits without a leading zero |
| Validation.DecimalRoundTrip | Medical_reports.py:28 | `int()` of `str(n)` is `n` |
| Validation.DigitRunLength | Medical_reports.py:26 | the digit run at the front is all digits and cannot be extended |
| Validation.DigitSearch | Medical_reports.py:26-27 | `re.search(r'\d+')` finds no match exactly when there is no digit; otherwise it finds a non-empty, maximal run with no digit before it |
| Validation.LeftmostRunUnique | Medical_reports.py:26 | the search finds exactly the one span that is the leftmost maximal digit run |
| Validation.CoerceAge | Medical_reports.py:23-29 | the age is refused exactly when it has no digit (the string reaches the int coercion unchanged) or its leftmost digit run is longer than the 4300 digits `int()` accepts; otherwise it is the non-negative value of a leftmost maximal digit run of at most 4300 digits |
| Validation.CoerceRun | Medical_reports.py:26-28 | whatever surrounds it, the leftmost maximal digit run gives the age, read with its leading zeros, unless it has more than 4300 digits, in which case the age is refused |
| Validation.CoerceOverLimit | Medical_reports.py:28 | a string of more than 4300 digits is refused as an age, because `int()` rejects it |
| Validation.CoerceEmbeddedNumber | Medical_reports.py:26-28 | a number written in decimal, with no digit before it and none right after it, is read back as that number when it has at most 4300 digits, and refused otherwise |
| Validation.CoerceDecimal | Medical_reports.py:26-28 | the age written by `str(n)` is read back as `n` when it has at most 4300 digits, and refused otherwise |
| Validation.CoerceAgeWithUnit | Medical_reports.py:26-28 | "52 years" is read as 52 |
| Validation.CoerceAgeFraction | Medical_reports.py:26-28 | "12.5" is read as 12 |
| Validation.CoerceAgeSign | Medical_reports.py:26-28 | "-5" is read as 5 |
| Validation.CoerceAgeLeadingZeros | Medical_reports.py:26-28 | "007" is read as 7 |
| Validation.CoerceAgeNoDigit | Medical_reports.py:29 | "unknown" is refused |
| Validation.BuildRecord | Medical_reports.py:17-29 | `PatientInfo(**fields)`, the record of four fields with an integer age, fails exactly when the age has no digit or its leftmost digit run has more than 4300 digits; otherwise name, sex and summary are kept unchanged and the age is the non-negative coerced value |
| Pipeline.ProcessReport | Medical_reports.py:53-86 | a run writes the markdown file of the kept blocks, prompts with those blocks joined by newlines, and writes a record exactly when the extracted age holds a digit run of at most 4300 digits; that record carries the extracted name, sex and summary unchanged |
| Pipeline.ShortReplyGivesAgeZero | Medical_reports.py:96-98 | a reply of fewer than three lines always validates, with age 0 and an empty summary |
| Pipeline.RecordFromReply | Medical_reports.py:77-79 | a reply laid out as name, sex, `str(n)` and summary lines yields the record of those fields with age `n`, when the name and summary are non-empty, the name, sex and summary have no whitespace at either end, the name and sex hold no newline, and `str(n)` has at most 4300 digits (more digits are refused) |
| Pipeline.DecimalStringIsOneWord | Medical_reports.py:97 | `str(n)` has no whitespace and no newline |
| Pipeline.TwoPageMarkdown | Medical_reports.py:53-63 | a scan whose first page is empty gives a file holding only the second page, right after the header |
| Pipeline.TwoPageBlocks | Medical_reports.py:53-57 | an empty page followed by a page of non-empty stripped text keeps that text alone |
| Pipeline.TwoPageRecord | Medical_reports.py:77-79 | the reply "John\nMale\n45\nHeadache" gives the record {John, Male, 45, Headache} |

## Left out

- The OCR service and the chat model are not modelled (Medical_reports.py:15, 35-51, 71-75):
  - the OCR reply is an input, `OcrResponse`, holding the parsed JSON's `pages` and each page's `markdown`;
  - the chat model is a function parameter of `ProcessReport`;
  - the model names and `max_tokens` are not modelled.
- Loading the API key and its missing-key error (Medical_reports.py:10-13) are configuration, not logic.
- File I/O is not modelled (Medical_reports.py:33, 59-60, 84-86):
  - the `is_file` check;
  - output paths;
  - the file writes themselves;
  - `json.dump`'s layout.

  The model returns the contents of the markdown file and the record that would be written, or None when nothing is written.
- The `print` diagnostics and the `__main__` entry point (Medical_reports.py:66, 81, 87, 102-103) are left out.
- Text.IsSpace: only the ASCII whitespace of `str.isspace()` is modelled. Non-ASCII whitespace, such as U+00A0 or U+2028, is not.
- Validation.IsDigit: only '0'..'9' are digits. Python's `\d` also matches other Unicode decimal digits, and `int()` accepts them.
- Assembly.Page: a `markdown` key holding JSON null, or a non-string value, is not modelled. The key is either absent or a string.
- Assembly.OcrResponse: a `pages` key holding JSON null or a non-list, on which the loop at Medical_reports.py:55 raises `TypeError`, is not modelled. The key is either absent or a list of pages.
- Validation.CoerceAge: pydantic's coercion of non-string age values is not modelled, because extraction only ever produces strings. Neither is the text of the `ValidationError` message.
- Validation.IntMaxStrDigits: the 4300-digit limit is CPython's default for `int()` on strings, from 3.11 and from the 3.7-3.10 security releases. A different `sys.get_int_max_str_digits()` setting, or an older Python without the limit, is not modelled. With `max_tokens=150` (Medical_reports.py:74), a real reply never reaches the limit.
- Pipeline.ProcessReport: the model gives each run its result as a value. Running the pipeline twice on the same inputs therefore gives the same files by construction, so no separate idempotence lemma is stated.
- Assembly.PromptNeverShowsMarker states structurally that the marker never reaches the prompt: with no blocks, the prompt is exactly the instruction and a blank line. It does not state it as "the marker's characters do not occur in the prompt".

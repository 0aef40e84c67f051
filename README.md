# SLA generator: a Dafny model of its text builders and prompts

The repository produces a Service Level Agreement for B.K.R Support Services
as a PDF. It has two entry points:

- `App.py`, a Streamlit web form. Its services field is split on commas. Its
  `format_services_list` strips every entry and drops the blank ones.
- `test.py`, an interactive prompt program. Its `get_user_input` asks the
  questions in a fixed order. Its `format_services_list` writes every entry
  as typed.

Both entry points build a reference number of the form
`BKR/VAT/<year>/<mm>/<sequence zero-filled to 3>` and a three-line payment
terms block. `test.py` also writes the PDF to a file named
`SLA_<client name, spaces turned into '_'>_<YYYYMMDD>.pdf`.

This model covers the text work of both programs and the dialogue of
`get_user_input`. The PDF layout is not modelled.

- Modules:
  - `PyText` holds the Python string operations used: `strip`, `join`,
    `split`, `replace`, `zfill`, `lower`.
  - `ListComp` holds the generator-expression shape `[f(x) for x in xs]`,
    with a filter, as a flat map.
  - `Numerals` holds `str(n)` and the padded numeric fields of `strftime`.
  - `Dates` holds the date passed in for `datetime.now()`, with its
    `%Y%m%d` and `%d/%m/%Y` forms.
  - `Reference` holds the reference number.
  - `WebForm` holds the `App.py` builders.
  - `CliPrompts` holds the `test.py` prompts, record, builders and file
    name.
  - `Variants` relates the two services-list builders.
- The web form strips each comma-separated entry, so newlines typed around a comma disappear. A newline inside an entry (as in "A\nB") stays, and its second part becomes a line with no "- " in front. `WebForm.FormatServicesListLines` covers exactly the entries without such an inner newline.
- Standard input is the sequence of answers not yet read. Running out of
  answers is the `EndOfInput` outcome, where `input()` raises `EOFError`.
- The current date is a parameter. It is a valid `Date`, as a `datetime`
  always is.

## Model

| member | source | states |
|---|---|---|
| PyText.Strip | App.py:55 | the result is empty exactly when the entry is all whitespace; otherwise it starts and ends with a character that is not whitespace |
| PyText.StripByInfix | App.py:55 | the stripped text is the infix of the entry that starts where leading stripping stops; everything before and after it is a stripped character (whitespace, for `Strip`) |
| PyText.StripIdempotent | App.py:55 | stripping twice is stripping once |
| PyText.Join | App.py:55 | `sep.join(parts)` starts with the first part |
| PyText.Split | App.py:244 | `split(sep)` always gives at least one piece |
| PyText.Count | App.py:244 | `count(c)` is at most the length and zero exactly when `c` does not occur |
| PyText.Replace | test.py:250 | `replace(' ', '_')` keeps the length and changes exactly the matching characters |
| PyText.Lower | test.py:76 | `lower()` keeps the length and maps exactly the ASCII capitals to small letters |
| PyText.JoinSplit | App.py:244 | joining the pieces of `split(sep)` with `sep` gives the text back |
| PyText.SplitCount | App.py:244 | `split(sep)` gives one piece more than there are separators |
| PyText.SplitJoin | App.py:55 | joining pieces that hold no separator and splitting again gives the pieces back |
| PyText.ZFill | test.py:70 | `zfill(width)` pads with '0' on the left to `width`, after a leading sign if there is one, and never shortens |
| PyText.IsYesExactly | test.py:76 | `reply.lower() == 'y'` holds exactly for "y" and "Y" |
| Numerals.Decimal | App.py:255 | `str(n)` is the shortest digit string denoting `n` |
| Numerals.ZFillDigits | test.py:70 | zero-filling a digit string puts only '0's in front, reaches the width and keeps the value |
| Numerals.Padded | test.py:69 | the `%m`-style field denotes the number and is exactly `width` digits when the number fits |
| Dates.Stamp | test.py:250 | `%Y%m%d` is eight digits that denote year, month and day in that order |
| Dates.Text | test.py:98 | `%d/%m/%Y` is two-digit day, '/', two-digit month, '/', four-digit year, each denoting its field |
| Reference.RefNumber | App.py:255 | the reference number starts with "BKR/VAT/", ends with the zero-filled sequence, and is 12 characters longer than the year and the sequence together |
| Reference.RefNumberFields | App.py:255 | when the sequence holds no '/', the reference number splits on '/' into "BKR", "VAT", `str(year)`, the two-digit month and the zero-filled sequence |
| Reference.RefSequencePadding | test.py:70-71 | for a digit sequence, the last field is the sequence behind '0's only, at least three digits long, with the same value |
| Reference.RefNumberExample | test.py:68-71 | July 2024 with sequence "5" gives "BKR/VAT/2024/07/005" |
| WebForm.EntryLine | App.py:55 | a blank entry gives no line; any other entry gives "- " and the entry stripped |
| WebForm.ServiceLines | App.py:55 | at most one line per entry |
| WebForm.ServiceLinesBulleted | App.py:55 | every line starts with "- " |
| WebForm.FormatServicesList | App.py:53-55 | the list is empty exactly when there is no line |
| WebForm.ServiceLinesAppend | App.py:55 | the lines keep the order of the entries |
| WebForm.ServiceLineSource | App.py:55 | every line is "- " and the stripped text of an entry that is not blank |
| WebForm.ServiceLinesKeep | App.py:55 | every entry that is not blank gives a line |
| WebForm.FormatServicesListEmpty | App.py:53-55 | the list is empty exactly when every entry is blank |
| WebForm.FormatServicesListEnd | App.py:53-55 | the list never ends in whitespace, so it has no trailing newline |
| WebForm.FormatServicesListLines | App.py:53-55 | when no entry holds a newline once stripped, the list splits back into exactly its bullet lines; this covers the newlines around commas in a multi-line services field |
| WebForm.ServicesBlockHasNoComma | App.py:244 | after `split(",")`, no comma reaches the services block |
| WebForm.FormatPaymentTerms | App.py:57-63 | the block is 131 characters longer than the two shares together and starts with "- " and the advance share |
| WebForm.PaymentTermsLines | App.py:57-63 | when the shares hold no newline, the block splits into the advance line, the remaining line and the fixed clause |
| WebForm.PaymentTermsAdvance | App.py:60 | the block contains "<advance>% advance" |
| WebForm.PaymentTermsRemaining | App.py:61 | the block contains "Remaining <remaining>%" |
| CliPrompts.Pick | test.py:75-85 | the five questions add at most one service each |
| CliPrompts.PickMember | test.py:76-85 | an offered service is appended exactly when its answer is "y" or "Y" |
| CliPrompts.PickFrom | test.py:76-85 | only offered services are appended by the five questions |
| CliPrompts.PickAppend | test.py:76-85 | the offered services are appended in the order they are asked about |
| CliPrompts.OfferedServices | test.py:75-85 | the five `if` questions leave exactly the picks of the offered services |
| CliPrompts.CustomServices | test.py:88-90 | a loop that stops reads two answers per service plus the stop answer, and leaves the rest unread |
| CliPrompts.CustomServicesEnter | test.py:88-90 | "y", a description, repeated, then any other answer collects exactly the descriptions and leaves later answers unread |
| CliPrompts.CustomServicesRead | test.py:88-90 | whatever the loop collects was typed that way: affirmative answers, each followed by its description, then a stop |
| CliPrompts.CustomServicesEnd | test.py:88-90 | the loop runs out of input exactly when every "add another?" answer is affirmative |
| CliPrompts.ServicesFromAnswers | test.py:75-90 | collecting reads at least six answers, the five questions and a stop answer, and collects fewer services than answers read |
| CliPrompts.ServicesChosen | test.py:75-90 | the offered picks come first, before the custom services |
| CliPrompts.CollectServices | test.py:75-90 | the question-by-question loop gives the offered picks followed by the custom services, or end of input |
| CliPrompts.WithDefault | test.py:94-95 | an empty answer becomes "50"; any other answer is kept as typed; the share is never empty |
| CliPrompts.GetUserInput | test.py:51-112 | each record field comes from its answer in prompt order; the contact person is also the authorized person; the reference number and date are built from the date passed in; running out of answers is end of input |
| CliPrompts.Bullets | test.py:116 | every entry, blank or not, gives "- " and the entry, in order |
| CliPrompts.FormatServicesList | test.py:114-116 | the list is empty exactly when there are no services |
| CliPrompts.FormatServicesListLines | test.py:114-116 | when no entry holds a newline, the list splits back into one bullet line per entry |
| CliPrompts.FormatPaymentTerms | test.py:118-124 | the block is the web form's block for the same two shares |
| CliPrompts.OutputFilename | test.py:250 | the file name is 17 characters longer than the client name, and starts with "SLA_" and ends with ".pdf" |
| CliPrompts.OutputFilenameShape | test.py:250 | the file name is "SLA_", the name with spaces as '_', '_', the eight-digit date and ".pdf"; it holds no space |
| CliPrompts.OutputFilenameName | test.py:250 | a client name without '_' can be read back from the file name |
| Variants.FormatServicesListsAgree | App.py:53-55 | the web list is the prompt program's list of the entries stripped with blank ones dropped |
| Variants.CleanedKeeps | test.py:114-116 | on entries that are neither blank nor padded, the two lists agree |
| Variants.BlankEntryWeb | App.py:55 | a blank entry adds no line to the web list |
| Variants.BlankEntryCli | test.py:116 | a blank entry adds a bare "- " line to the prompt program's list |

## Left out

- PDF generation is not modelled: the `SLATemplate` header, footer, fonts and layout, and `DocumentGenerator.create_pdf`. It is layout work on an external library (fpdf).
- Writing the file (`pdf.output`), the logo and font files, and the Streamlit widgets and download button are external I/O.
- `print` and the prompt texts of `input` are output only, so they are not modelled. Input is the sequence of answers.
- CliPrompts.GetUserInput: the two fees are kept as the text typed. `float()` parsing, the `ValueError` on text that is not a number, and the `:.3f` rendering in the PDF are floating point, so they are left out.
- `datetime.datetime.now()` is not modelled. One date is passed in and every field uses it. The source reads the clock separately for each field: three times in App.py (lines 253 and 255, twice on 255), four times in test.py (lines 68, 69, 98 and 250). A run across midnight on 31 December can therefore mix the old year with the new month, as in "BKR/VAT/2024/01/…". It can also give a file-name date (test.py:250) that differs from the record's `current_date` (test.py:98). The model cannot show either mismatch.
- `create_pdf` rewraps errors as "Error creating PDF: …"; that is about the PDF code, which is not modelled.
- CliPrompts.GetUserInput: `main` (test.py:244-255) catches every exception from `get_user_input`, such as `EOFError` at the end of input or `ValueError` from a fee, and prints "An error occurred: …". The model stops at `EndOfInput` and does not model that message or the `ValueError` path.
- The fields only the web form collects, such as ownership shares, ISIC activities, signatory and passport, are not modelled. They are copied into the PDF unchanged.
- The web form's sliders give whole numbers from 0 to 100. Here the shares are any text, as in the prompt program.
- PyText.IsYesExactly: `lower()` is modelled for ASCII letters only. A non-ASCII letter never lowers to 'y', so the outcome of the yes/no questions is the same.
- Variants: there is no concrete example of the web list with padded entries. It is covered by the general lemmas about `EntryLine` and `ServiceLines`.

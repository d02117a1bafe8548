# HR resume analysis: a Dafny model of the text-analysis core

This project models the part of the HR resume application that turns a
candidate's resume text into structured fields and stores them:

- `resume_parser.py`: the field extractors (email, phone, name, skills,
  education, experience) and `parse_resume`, which picks a text extractor
  by file extension and builds the six-key result dict;
- `PDFParser` and `DocxParser`: `extract_info` (name, email, phone) and
  `extract_sections`, a state machine over the stripped, non-blank lines
  that splits a resume into education, experience and skills;
- the API layer: `allowed_file`, how the skills list is stored in and read
  back from the candidate's text column, the column and status updates of
  the upload route and of `process_resume_async`, the evaluation gate and
  the CV excerpt quoted to the chat;
- `Config`: the `postgres://` URI rewrite, the `ALLOWED_EXTENSIONS` parse
  and `MAX_CONTENT_LENGTH` with Python's `int()` parse.

The regular expressions are modelled as hand-written scanners (module
`Patterns`). Each scanner is specified by a predicate stating what a match
is (`EmailAt`, `PhoneCoreShape`, `VnPhoneAt`, `StandaloneAt`), and its
contract says that it returns the leftmost match and the one `re`'s
backtracking picks. Python's `str` operations live in `Strings`:
`strip`, `split`, `join`, `lower`, `rsplit`, `in` and `replace(.., 1)`.
`json.dumps` of a list of strings lives in `Json`, together with its
decoder for the plain strings the skill names are.

The two `extract_sections` methods share module `SectionMachine`. It
specifies the loop twice:

- by the state the machine holds after the first k lines (`IsStateAt`);
- by a whole-document reference (`SectionsRef`): a field is the block
  after the last header of that section, unless that header is the
  document's last line.

Both methods are proved to return `SectionsRef` of their lines.
`process_resume_async` is a method of `Api.CandidateStore`, a class whose
`rows` map stands for the candidates table.

Modules and files: `wrappers.dfy` (Wrappers), `strings.dfy` (Strings),
`patterns.dfy` (Patterns), `json.dfy` (Json), `resume_parser.dfy`
(ResumeParser), `section_machine.dfy` (SectionMachine), `pdf_parser.dfy`
(PdfParser), `docx_parser.dfy` (DocxParser), `api.dfy` (Api),
`config.dfy` (Config).

## Model

| member | source | states |
|---|---|---|
| Strings.Strip | app/services/resume_parser.py:46 | the result is the text between the leading and trailing whitespace runs; it is empty exactly when the text is all whitespace, and otherwise starts and ends with a non-space |
| Strings.StripIdempotent | app/services/parser/pdf_parser.py:47 | stripping twice gives what stripping once gives |
| Strings.Split | app/services/parser/pdf_parser.py:42 | `split` on one character returns at least one piece, and no piece contains the separator |
| Strings.JoinSplit | app/services/parser/pdf_parser.py:42 | joining the pieces of `split` with the same separator gives back the text |
| Strings.SplitJoin | app/routes/api.py:339 | splitting the join of separator-free pieces (at least one) gives back the pieces |
| Strings.LastIndexOf | app/routes/api.py:26 | absent exactly when the character does not occur; otherwise the position holds the character and none follows it |
| Strings.ReplaceFirst | app/config.py:25 | `replace(p, r, 1)`: unchanged when `p` does not occur; otherwise the first occurrence is replaced, and the text around it is kept |
| Patterns.EmailSearch | app/services/resume_parser.py:33 | `re.search` for the email pattern from a position: the match found is at the first position where any match starts, and none means no position has one |
| Patterns.FirstEmail | app/services/resume_parser.py:32-33 | there is no match exactly when no email shape occurs in the text; a match is leftmost and takes the '@' and the greedy domain and TLD run that backtracking takes |
| Patterns.PhoneCoreAt | app/services/resume_parser.py:38 | the `\b\d{3}[-.]?\d{3}[-.]?\d{4}\b` core at a position; when a core shape exists there, it is exactly the one returned |
| Patterns.PhoneSearch | app/services/resume_parser.py:38-39 | the match found is at the first position where the phone pattern matches; none means no phone core occurs anywhere from there |
| Patterns.VnPhoneMatchAt | app/services/parser/pdf_parser.py:21 | "+84" or "0" followed by 9 or 10 digits at a position: it matches exactly when some group and length do, with the group backtracking picks and the greedy length |
| Patterns.VnPhoneSearch | app/services/parser/pdf_parser.py:21-22 | the first match `findall` returns: the leftmost position with a match, and the longest match there |
| Patterns.MentionedAsWrittenFrom | app/services/resume_parser.py:70 | `re.search(r'\b' + re.escape(skill) + r'\b', text, re.IGNORECASE)` as written: true exactly when the skill occurs case-insensitively with a `\b` boundary right before and right after it |
| Patterns.MentionedFrom | app/services/resume_parser.py:70 | a skill is mentioned exactly when it occurs case-insensitively with no word character on either side (the corrected matcher) |
| Patterns.StandaloneAgreesAsWritten | app/services/resume_parser.py:70 | for a skill that starts and ends with a letter or digit, `\b...\b` as written and the corrected matcher agree at every position |
| Patterns.NameLabelValue | app/services/resume_parser.py:49-51 | absent exactly when the lowercased line has no `name:`; otherwise the value after the first label, spaces skipped, to the end of the line |
| ResumeParser.ExtractEmail | app/services/resume_parser.py:30-34 | "" exactly when the text holds no email match; otherwise a piece of the text with exactly one '@'; no '@' in the text gives "" |
| ResumeParser.EmailMatchHasOneAtSign | app/services/resume_parser.py:32 | every email match is a piece of the text holding exactly one '@' |
| ResumeParser.ExtractPhone | app/services/resume_parser.py:36-40 | "" exactly when no phone core occurs; otherwise a piece of the text with at least ten digits; a text with fewer than ten digits gives "" |
| ResumeParser.NameOf | app/services/resume_parser.py:42-54 | "" when every line is blank; otherwise a suffix of the first non-blank stripped line, the whole line when it has no `name:` label; never holds a newline |
| ResumeParser.ExtractName | app/services/resume_parser.py:42-54 | the loop over the lines returns NameOf of the text |
| ResumeParser.SkillsInMembers | app/services/resume_parser.py:68-73 | a skill is in the result exactly when it is a candidate and the matcher finds it in the text (with `AsWritten`, the `\b` search of line 70); the result is no longer than the candidates |
| ResumeParser.SkillsInOrder | app/services/resume_parser.py:68-73 | the result keeps the candidates' order and has no duplicates when the candidates have none |
| ResumeParser.ScanSkills | app/services/resume_parser.py:68-73 | the loop appends exactly the candidates the given matcher finds, in order: it returns SkillsIn for that matcher |
| ResumeParser.ExtractSkills | app/services/resume_parser.py:56-73 | extract_skills as written returns the common skills that the `\b` search of line 70 finds, in list order |
| ResumeParser.ExtractSkillsFixed | app/services/resume_parser.py:56-73 | the corrected extract_skills returns the common skills that occur as standalone terms, in list order |
| ResumeParser.CommonSkillsDistinct | app/services/resume_parser.py:59-66 | the list has 34 names and no duplicates |
| ResumeParser.CommonSkillsPlain | app/services/resume_parser.py:59-66 | every skill name is non-empty and needs no JSON escape |
| ResumeParser.ExtractedSkillsShape | app/services/resume_parser.py:56-73 | with either matcher: at most 34 skills, no duplicates, in list order; none for an empty text |
| ResumeParser.CppMissedAsWritten | app/services/resume_parser.py:70 | `\bC\+\+\b` as written does not match the text "C++", which the corrected matcher finds |
| ResumeParser.CppFoundInVersionAsWritten | app/services/resume_parser.py:70 | `\bC\+\+\b` as written matches the text "C++11", where "C++" is not a standalone term |
| ResumeParser.SkillsAgreeAsWritten | app/services/resume_parser.py:59-70 | for every skill but C++ and C#, the corrected matcher and the pattern as written agree |
| ResumeParser.SkillListsAgreeAsWritten | app/services/resume_parser.py:59-73 | the skill lists of extract_skills as written and corrected hold the same skills apart from C++ and C# |
| ResumeParser.CaptureSection | app/services/resume_parser.py:75-92 | the capture loop returns the stripped reference capture: the block from the last keyword line before the first stop line that follows a header |
| ResumeParser.CaptureEmptyIff | app/services/resume_parser.py:84-92 | the capture is empty exactly when no line mentions a keyword |
| ResumeParser.CaptureIgnoresRest | app/services/resume_parser.py:87-89 | once a header and a later stop line occur, the lines after them do not change the capture |
| ResumeParser.ExtractEducation | app/services/resume_parser.py:75-92 | the capture with the education keywords and stops; empty exactly when no line names one of the four keywords |
| ResumeParser.ExtractExperience | app/services/resume_parser.py:94-111 | the capture with the experience keywords and stops; empty exactly when no line names one of the three keywords |
| ResumeParser.Extension | app/services/resume_parser.py:116 | `os.path.splitext`: non-empty exactly when the last path component has a dot after a non-dot character, and then it is the text from that dot |
| ResumeParser.SplitsAtLastDot | app/services/resume_parser.py:116 | the split point is unique and is the last dot when it lies in the last component after a non-dot |
| ResumeParser.KindOf | app/services/resume_parser.py:116-125 | a supported kind needs an extension; an unsupported one reports the lowercased extension |
| ResumeParser.UpperCasePdf | app/services/resume_parser.py:117-121 | "cv.PDF" is read as a PDF |
| ResumeParser.DoubleExtension | app/services/resume_parser.py:116-125 | a name ending ".pdf.exe" is refused with ".exe" |
| ResumeParser.DotFileHasNoExtension | app/services/resume_parser.py:116-125 | "uploads/.pdf" has no extension and is refused with "" |
| ResumeParser.ParseResume | app/services/resume_parser.py:113-140 | unsupported extension gives UnsupportedFileType with the lowercased extension; an empty extracted text gives NoText; otherwise the six fields are computed from the text of the matching extractor, the skills with the `\b` search as written |
| ResumeParser.SkillsFieldRoundTrip | app/services/resume_parser.py:135 | decoding the JSON `skills` field gives back the skills list extract_skills finds as written |
| Json.EscapeChar | app/services/resume_parser.py:135 | a character is copied as itself exactly when it needs no escape; otherwise it becomes a backslash escape |
| Json.EncodeString | app/services/resume_parser.py:135 | a string that needs no escape is encoded as itself between quotes |
| Json.EncodeStringList | app/services/resume_parser.py:135 | the encoding is bracketed, and is "[]" exactly for the empty list |
| Json.DecodeEncodeItems | app/services/resume_parser.py:135 | decoding `"a", "b"` items gives back a non-empty list of plain strings |
| Json.DecodeEncodeList | app/services/resume_parser.py:135 | decoding `json.dumps` of a list of plain strings gives the list back |
| SectionMachine.HeaderOf | app/services/parser/pdf_parser.py:52-67 | the section a line opens: education when its lowercase names education, else experience, else skills; none exactly when it names none of the six words |
| SectionMachine.Prepared | app/services/parser/pdf_parser.py:46-49 | the lines the loop reads: each non-empty and already stripped, no more than the input |
| SectionMachine.Kinds | app/services/parser/pdf_parser.py:53-67 | one header kind per line, HeaderOf of that line |
| SectionMachine.Feed | app/services/parser/pdf_parser.py:53-69 | one loop step keeps the state equal to the state after k+1 lines: a header flushes the buffer into the current section and switches; other lines are buffered once a section is current |
| SectionMachine.FinalText | app/services/parser/pdf_parser.py:71-76 | after the final flush, education and experience equal the reference text of the section |
| SectionMachine.FinalSkills | app/services/parser/pdf_parser.py:71-80 | after the final flush and the comma split, skills equal the reference skills |
| SectionMachine.Finish | app/services/parser/pdf_parser.py:71-82 | the end of extract_sections returns SectionsRef of the lines read |
| SectionMachine.VietnameseHeader | app/services/parser/pdf_parser.py:53 | "HỌC VẤN" opens the education section |
| SectionMachine.BlockHasNoHeader | app/services/parser/pdf_parser.py:53-69 | a section's block holds no header line |
| SectionMachine.NoHeaderNoSections | app/services/parser/pdf_parser.py:36-40 | with no header line the result is the initial dict: two empty strings and an empty list |
| SectionMachine.LaterHeaderWins | app/services/parser/pdf_parser.py:54-57 | when a section header occurs twice, the later header decides the field |
| SectionMachine.PreambleIgnored | app/services/parser/pdf_parser.py:68 | lines before the first header do not change the result |
| SectionMachine.TrailingHeader | app/services/parser/pdf_parser.py:54-57 | a header on the last line empties an education or experience section whose header was the line before it; otherwise that section is unchanged |
| SectionMachine.TrailingHeaderSkills | app/services/parser/pdf_parser.py:54-80 | a header on the last line makes the skills `[""]` when the skills section was opened just before it, and otherwise leaves the skills as the block after the last skills header gives them |
| PdfParser.FirstLine | app/services/parser/pdf_parser.py:25 | stripped and newline-free; a one-line text gives its strip |
| PdfParser.NameIsFirstLine | app/services/parser/pdf_parser.py:25 | the name is the stripped text before the first newline |
| PdfParser.FirstEmailOf | app/services/parser/pdf_parser.py:17-18 | `email[0] if email else None`: absent exactly when no email match occurs; otherwise the same match extract_email returns |
| PdfParser.PhoneGroup | app/services/parser/pdf_parser.py:21-22 | findall with one group, as written: absent exactly when no match occurs; otherwise only "+84" or "0" |
| PdfParser.PhoneNumber | app/services/parser/pdf_parser.py:21-22 | the corrected first match: absent exactly when none occurs; otherwise a piece of the text of 10 to 13 characters starting with "+84" or "0" |
| PdfParser.ExtractInfo | app/services/parser/pdf_parser.py:12-31 | as written: a newline-free name, the email of extract_email, a phone field that is only "+84" or "0" and is absent exactly when no number occurs |
| PdfParser.ExtractInfoFixed | app/services/parser/pdf_parser.py:12-31 | corrected: the first line, the first email, and the whole first phone number (10 to 13 characters) |
| PdfParser.PhoneGroupTruncates | app/services/parser/pdf_parser.py:21-22 | the group as written is present exactly when the number is, and is a strictly shorter prefix of it |
| PdfParser.MobileNumberGivesZero | app/services/parser/pdf_parser.py:21-30 | for the text "0912345678" the field as written is "0" where the number is "0912345678" |
| PdfParser.PreparedPrefix | app/services/parser/pdf_parser.py:46-49 | the lines kept from a prefix of the input are a prefix of the lines kept from all of it |
| PdfParser.FeedLine | app/services/parser/pdf_parser.py:46-69 | one iteration: a blank line is skipped; any other is fed stripped, and the state follows the kept lines |
| PdfParser.ScanLines | app/services/parser/pdf_parser.py:42-69 | after the loop, the state is the state after all kept lines |
| PdfParser.ExtractSections | app/services/parser/pdf_parser.py:33-82 | extract_sections returns SectionsRef of the stripped, non-blank lines of the text |
| DocxParser.ExtractText | app/services/parser/docx_parser.py:9-11 | the paragraphs joined with newlines; splitting it again gives back newline-free paragraphs |
| DocxParser.ExtractInfo | app/services/parser/docx_parser.py:13-32 | the PDF extract_info run on the joined text; the phone is "+84" or "0"; the name is the first paragraph stripped |
| DocxParser.ScanParagraphs | app/services/parser/docx_parser.py:43-66 | after the loop over the kept paragraphs, the state is the state after all of them |
| DocxParser.ExtractSections | app/services/parser/docx_parser.py:34-79 | extract_sections returns SectionsRef of the stripped, non-blank paragraphs |
| DocxParser.SectionsAgreeWithJoinedText | app/services/parser/docx_parser.py:43 | for newline-free paragraphs, reading paragraphs and reading the lines of the joined text give the same sections |
| Api.AllowedFile | app/routes/api.py:24-26 | allowed exactly when the name has a last dot and the text after it, lowercased, is an allowed extension; no dot means refused |
| Api.UpperCaseExtensionAllowed | app/routes/api.py:26 | "cv.PDF" is allowed with the default extensions |
| Api.DoubleExtensionRefused | app/routes/api.py:26 | "cv.pdf.exe" is refused with the default extensions |
| Api.StoreSkills | app/routes/api.py:66-67 | the column is "" exactly when the list is empty or holds one empty name |
| Api.LoadSkills | app/routes/api.py:339 | `skills.split(',') if skills else []`: empty exactly for NULL or ""; no item holds a comma |
| Api.LoadStoredSkills | app/routes/api.py:339 | a list of comma-free names other than `[""]` is read back unchanged |
| Api.StoreLoadedSkills | app/routes/api.py:339 | storing what was read back gives the stored column again |
| Api.CommaSplitsName | app/routes/api.py:339 | a skill name holding a comma comes back as two names |
| Api.NewCandidate | app/routes/api.py:140-143 | a new row has its resume path, status 'processing' and no error message |
| Api.Get | app/routes/api.py:59-69 | `dict.get(key, default)`: the entry when present, the default otherwise |
| Api.EarlyFailure | app/routes/api.py:33-46 | a missing file fails with the not-found message; a parser exception fails with its message; the update runs exactly when the file exists and the parser returned a non-empty dict |
| Api.ProcessingEndsSettled | app/routes/api.py:28-101 | the candidate ends 'processed' with no message exactly when every step succeeds, and 'error' with a message otherwise |
| Api.EarlyFailureKeepsColumns | app/routes/api.py:88-101 | a failure before the update changes only the status and the error message |
| Api.MissingEntriesDefault | app/routes/api.py:59-69 | missing entries give "Unknown" for the name and "" for every other column |
| Api.FailedUpdateKeepsEarlierColumns | app/routes/api.py:57-84 | an exception while updating keeps the columns assigned before it, leaves skills and resume text as they were, and stores "Error updating data: " with the message |
| Api.EvaluateAfterProcessing | app/routes/api.py:259-260 | after processing, a candidate can be evaluated exactly when processing succeeded |
| Api.CandidateStore.constructor | app/models/candidate.py:4-20 | the table starts empty |
| Api.CandidateStore.Create | app/routes/api.py:140-145 | adds one new row under a fresh id, leaving the other rows alone |
| Api.CandidateStore.MarkStartFailed | app/routes/api.py:160-164 | only that row changes: status 'error' and the start-failure message; the table stays valid and the next id is kept |
| Api.CandidateStore.ProcessResume | app/routes/api.py:28-104 | a missing candidate leaves the table unchanged; otherwise only that row changes, to AfterProcessing of it; the table stays valid and the next id is kept |
| Api.CandidateStore.Upload | app/routes/api.py:140-165 | one new row under a fresh id: the new candidate, or, when the thread does not start, that candidate with status 'error' and the start-failure message |
| Api.CvExcerpt | app/routes/api.py:203-204 | absent exactly when the column is NULL or empty; otherwise the first min(500, length) characters |
| Config.RewriteDatabaseUri | app/config.py:24-25 | a `postgres://` URI gets the `postgresql://` scheme and keeps the rest; any other URI is unchanged |
| Config.RewriteIdempotent | app/config.py:24-25 | rewriting twice gives what rewriting once gives |
| Config.DefaultDatabaseUri | app/config.py:23 | the default URI is a sqlite URI, which the rewrite leaves alone |
| Config.DatabaseUri | app/config.py:23-25 | without DATABASE_URL the sqlite default; with it, the rewritten URL |
| Config.AllowedExtensions | app/config.py:20 | no extension holds a comma; a comma-free value is a single extension |
| Config.DefaultExtensions | app/config.py:20 | without the variable the set is {"pdf", "docx"} |
| Config.AllowedExtensionsListed | app/config.py:20 | a comma-joined list of names gives exactly the set of those names |
| Config.ParseInt | app/config.py:19 | `int()` of a string fails exactly when the stripped text is not an integer literal; the sign decides the sign of the value |
| Config.DecimalValue | app/config.py:19 | the decimal digits of n have value n |
| Config.ParseIntDecimal | app/config.py:19 | `int()` reads back any number written in decimal |
| Config.MaxContentLength | app/config.py:19 | 16 MiB (16777216) without the variable; otherwise `int()` of its value, which may fail |

## Left out

- Reading files: pdfminer, PyPDF2, docx2txt and python-docx are outside the model. The text or the paragraphs they would produce are parameters, and a failed extraction is the empty text.
- The Flask routes, request parsing, JSON responses, logging and timing are left out. Only the rules the routes apply are modelled: allowed_file, the skills column, the candidate updates, the evaluation gate and the CV excerpt.
- The worker thread: process_resume_async is a method called directly. Whether the thread starts is the `threadStarts` input of Upload, and MarkStartFailed models the route's handling of that failure.
- The database is the `rows` map of CandidateStore. A failing `db.session.commit()` is not modelled. An exception while updating is the `updateError` input, raised before the skills column is assigned.
- Exception texts from the parser are the `message` of ParseOutcome.Raised. The `updated_at` and `created_at` timestamps are left out.
- Api.CandidateStore.ProcessResume: the inner `except` that itself fails (the error-status commit) and the outer `except` that fails are not modelled.
- The `ResumeParser` class that api.py imports is not part of this model. The API takes the parsed dict as an input and is not connected to ParseResume.
- gpt_evaluator, the chat prompt text beyond the CV excerpt, and OpenAI calls are left out.
- Strings.LowerChar lowers ASCII, Latin-1 and the precomposed Vietnamese letters. Other scripts are left unchanged, which differs from Python's full Unicode `str.lower`.
- Patterns: `\w` covers ASCII letters, digits and `_`, Latin-1 letters and the Latin Extended and Vietnamese ranges. `\d` is ASCII digits only, whereas Python's `\d` matches every Unicode decimal digit.
- Config.ParseInt: Python's `int()` also accepts non-ASCII Unicode digits; only ASCII digits (with `_` separators and an optional sign) are modelled.
- Config.DatabaseUri: the base directory is a string. `Path.resolve()` and the `/` join are modelled as a string join.
- SECRET_KEY, DEBUG, UPLOAD_FOLDER, logging settings and `init_app` are left out because they are not part of the parsing core.
- ParsedData holds text entries and an optional skills list. Values of other Python types (for example a JSON string given to `','.join`) are not modelled.
- PdfParser.ExtractInfo: the contract states the name only as newline-free. DocxParser.ExtractInfo and ExtractInfoFixed state it as the stripped first line.
- PdfParser.ExtractInfo and DocxParser.ExtractInfo state the email as equal to extract_email's match when present. The absence case is stated on FirstEmailOf.

## Findings

| source | as written | input that shows it | evidently intended | confidence | as-written member | corrected member |
|---|---|---|---|---|---|---|
| app/services/resume_parser.py:70 | `\b` + `re.escape(skill)` + `\b` needs a word character after the skill's last character, so "C++" and "C#" are never found when followed by a space, punctuation or the end of the text | the text "C++" gives no skills; the text "C++11" gives ["C++"] | find "C++" and "C#" as standalone words, like the other skills | high, not executed | ResumeParser.CppMissedAsWritten | ResumeParser.ExtractSkillsFixed |
| app/services/parser/pdf_parser.py:21-22 | `re.findall` with one capture group returns the group, so the phone field is only "+84" or "0" | the text "0912345678" gives "0" | the whole first phone number | high, not executed | PdfParser.MobileNumberGivesZero | PdfParser.ExtractInfoFixed |

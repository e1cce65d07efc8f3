# Resume ranking core, modelled in Dafny

This project models the document-ranking part of the CV analyser. That logic appears twice, almost line for line, in `ttranscribe.py` and `final_1.py`.

For every document in a folder, the analyser does four things:

- It extracts a name, e-mail addresses, phone numbers and skills.
- It scores the document against a set of required skills:
  - 10 points per matched skill;
  - 5 points for a non-empty name that is not the "not found" sentinel, and 5 each for a first e-mail and a first phone that are not their sentinels.
- It ranks the documents by score, highest first.
- For each PDF, it writes the extracted text next to the PDF as a `.txt` file.

The two files differ in one place only: how `calculate_score` decides that a required skill was found.

- `ttranscribe.py` checks containment in a lowercased found skill (`MatchMode.Substring`).
- `final_1.py` checks literal, case-sensitive membership (`MatchMode.Exact`).

The shared logic is modelled once and takes the mode as a parameter. Module `Variants` fixes each file's mode.

Modules, in dependency order:

- `Wrappers`: `Option` and `Result`.
- `Text`: the Python string operations the core relies on:
  - `str.isspace`, `str.lower`, `str.strip`, `str.split`;
  - `splitlines()[0]`, `str.endswith`, `str.split(",")`;
  - `os.path.splitext(...)[0]`;
  - the `in` test on strings.
- `Fields`: `extract_email` and `extract_phone`. The regular expressions are written as scanners that make the same choice as Python's backtracking matcher. They are proved sound, in order, and complete: the result is the sentinel exactly when no match exists.
- `Names`: `extract_name`:
  - the `Name[:\-]?\s*(.+)` label search, including which match `re.search` reports;
  - then the first-line rule;
  - then the PERSON-entity loop.
- `Skills`: `extract_skills`, `find_matching_skills`, the exact-membership rule of `final_1.py`, and the parsing of the comma-separated skill prompt.
- `Analysis`: `analyze_cv`.
- `Scoring`: `calculate_score`.
- `Dicts`: a Python dict as a sequence of (key, value) pairs in insertion order. Assigning an existing key overwrites it in place; a new key is appended.
- `Ranking`: `rank_resumes`. `sorted(..., reverse=True)` is specified by what it guarantees: a permutation, non-increasing scores, and entries of equal score kept in input order.
- `Corpus`: `extract_text_from_pdfs`.
- `Folder`: `process_folder`:
  - the first loop over the listing, with its `processed_files` set;
  - the second loop over the extracted PDF texts;
  - exactly when the pass raises.
- `Variants`: the per-file matching modes, and concrete cases where the two files differ or behave unexpectedly.

Inputs and side effects:

- The language pipeline `nlp` is a function parameter that yields token texts and entities.
- The directory listing is a sequence of names.
- Readable `.txt` contents are a map. A listed `.txt` name absent from it is one whose `open`/`read` raises.
- PDF pages are a map from name to a sequence of optional page texts. A name absent from it is a PDF that pdfplumber could not open or read; the code catches that error and skips the file.
- The sibling `.txt` writes are returned as a log of (file name, content) pairs.

Behaviour of the code worth knowing:

- A page without text is skipped, with a warning (`ttranscribe.py:132-135`).
- Base-name deduplication applies only to the `.txt` loop. When `X.txt` is listed before `X.pdf`, both end up in the results (`Variants.TxtAndPdfOfOneStemBothKept`). When `X.pdf`, or any other `X.*`, comes first, `X.txt` is never read (`Variants.OtherExtensionFirstHidesTxt`).
- An unreadable `.txt` aborts the whole pass. So does a document with empty text, because `extract_name` raises IndexError on `"".splitlines()[0]` and `process_folder` does not catch it (`Folder.ProcessFolder`).
- The exact matching of `final_1.py` is case-sensitive (`Variants.FinalModeIsCaseSensitive`).
- `extract_skills` uses substring containment in both files. Only `calculate_score` differs.

## Model

| member | source | states |
|---|---|---|
| Text.Lower | ttranscribe.py:103 | `str.lower` on ASCII letters: same length, each character lowered, nothing else changed |
| Text.LowerIdempotent | final_1.py:219 | lowering twice is lowering once, so every parsed skill is already lowercase |
| Text.Strip | ttranscribe.py:77 | `str.strip`: the result is the slice `s[a..b]` where everything before `a` and from `b` on is whitespace, with no whitespace at either end of it; it is empty exactly when the input is all whitespace |
| Text.EndsWithIffStem | ttranscribe.py:150 | `str.endswith`: holds exactly when the string is some stem followed by the suffix |
| Text.IsSubstringIffOccurs | ttranscribe.py:103 | Python's `in` on strings: holds exactly when the needle occurs at some index of the haystack |
| Text.Words | ttranscribe.py:79 | `str.split()`: the texts of the word spans, each non-empty and free of whitespace, and no words exactly when the string is all whitespace |
| Text.WordSpansAreWholeWords | ttranscribe.py:79 | every word span is a whole word: non-whitespace, with whitespace or an end of the string on each side |
| Text.WordSpansLeftToRight | ttranscribe.py:79 | the words come left to right, each starting past the end of the one before |
| Text.WordSpansCover | ttranscribe.py:79 | every non-whitespace character of the string lies in some word |
| Text.WordsAreWholeWords | ttranscribe.py:79 | `Words(s)` are the texts of spans that are whole words, left to right, covering every non-whitespace character |
| Text.FirstLine | ttranscribe.py:78 | `splitlines()[0]`: a prefix of the text free of line boundaries, ending at the first boundary |
| Text.BaseName | ttranscribe.py:146 | `os.path.splitext(name)[0]`: a prefix of the name, cut at the last dot when some non-dot character precedes it |
| Text.BaseNameOfStemAndExtension | ttranscribe.py:146 | the base name of `stem + ".ext"` is `stem` |
| Text.SplitOn | final_1.py:219 | `str.split(",")`: at least one piece, and no piece contains the separator |
| Text.SplitOnJoin | final_1.py:219 | joining the pieces with the separator gives the input back |
| Text.SplitOnTrailingSeparator | final_1.py:219 | a trailing comma yields an empty last piece |
| Fields.EmailMatchAt | ttranscribe.py:89 | a match found at a position is an address of the required shape: local run, `@`, domain, dot, two or more letters |
| Fields.EmailShapeMatches | ttranscribe.py:89 | whenever an address of that shape starts at a position, the matcher finds a match there |
| Fields.ScanEmails | ttranscribe.py:90 | `re.findall`: matches lie inside the text, do not overlap, come in increasing order, and each has the address shape |
| Fields.ScanEmailsComplete | ttranscribe.py:90 | when the scan finds nothing, no substring of the text has the address shape |
| Fields.EmailSentinelIsNotEmail | ttranscribe.py:91 | the e-mail sentinel does not itself have the address shape |
| Fields.ExtractEmail | ttranscribe.py:88-91 | never empty; exactly `["Email not found"]` when the text contains no address; otherwise the texts of the scan's matches in order, each an address occurring in the text |
| Fields.PhoneMatchAt | ttranscribe.py:95 | `\b\d{10,13}\b` at a position: a 10 to 13 digit run with no word character on either side, and none when no such run starts there |
| Fields.ScanPhones | ttranscribe.py:96 | matches lie inside the text, do not overlap, come in increasing order, and each is such a run |
| Fields.ScanPhonesComplete | ttranscribe.py:96 | when the scan finds nothing, no position holds a match |
| Fields.LongDigitRunHasNoPhone | ttranscribe.py:95 | no match lies inside a run of 14 or more digits |
| Fields.ExtractPhone | ttranscribe.py:94-97 | never empty; exactly `["Phone number not found"]` when the text has no match; otherwise the texts of the scan's matches in order, each a 10 to 13 digit run occurring in the text |
| Names.LabelValue | ttranscribe.py:77 | `group(1).strip()`: the stripped text from the given position up to the first newline or the end; a single-line substring of the text |
| Names.GroupAt | ttranscribe.py:75 | a label match at a position is the one the backtracking matcher prefers: separator taken when possible, then the longest whitespace run |
| Names.SearchLabel | ttranscribe.py:75 | `re.search`: the first position with a label match, with no match at any earlier position |
| Names.SearchLabelIsMatch | ttranscribe.py:75-77 | the search finds nothing exactly when no label exists; otherwise it returns the unique leftmost preferred match |
| Names.PersonNameIsFirst | ttranscribe.py:81-85 | the entity loop returns the first multi-word, all-alphabetic PERSON entity, and the sentinel exactly when there is none |
| Names.ExtractName | ttranscribe.py:74-85 | IndexError exactly on empty text; a label beats the first line, which beats the entity loop; each branch returns the value its rule prescribes |
| Skills.SkillsFound | ttranscribe.py:100-105 | never empty: the qualifying tokens, or the sentinel alone |
| Skills.ExtractSkills | ttranscribe.py:100-105 | the loop collects exactly the tokens, in their own casing, in which some skill occurs once lowercased; the sentinel alone when none qualifies |
| Skills.MatchingSkills | ttranscribe.py:65-71 | the matched skills are a subset of the required skills. In exact mode they are also found skills. In substring mode each occurs in some lowercased found skill |
| Skills.ExactWithinSubstring | final_1.py:127 | with lowercase required skills, every exact match is also a substring match |
| Skills.ParseSkillSet | final_1.py:219 | the parsed skill set is non-empty and every element is lowercase |
| Skills.BlankPieceMatchesEveryToken | final_1.py:219 | a blank piece in the prompt puts `""` in the skill set, and then every token qualifies |
| Skills.TrailingCommaMatchesEveryToken | final_1.py:219 | in particular a trailing comma makes every token qualify |
| Analysis.AnalyzeCv | ttranscribe.py:108-119 | IndexError exactly on empty text; otherwise the e-mail and phone lists are non-empty and the skill set is non-empty |
| Analysis.AnalyzeCvSentinels | final_1.py:68-79 | the e-mail field is the sentinel exactly when the text has no address, the phone field exactly when it has no phone, and the skill field is the sentinel when no token qualifies |
| Scoring.PresentFieldCount | ttranscribe.py:169-174 | at most three fields earn a bonus |
| Scoring.Score | ttranscribe.py:164-175 | the score is a multiple of 5 and at most 10 times the number of required skills, plus 15 |
| Scoring.CalculateScore | ttranscribe.py:164-175 | adding the terms one at a time yields 10 per matched skill plus 5 per present field; the result is non-negative, a multiple of 5, and bounded as above |
| Scoring.ScoreDependsOnlyOnMatchesAndPresence | ttranscribe.py:164-175 | two records with the same matched skills and the same field presence score the same |
| Scoring.ExactScoreAtMostSubstringScore | final_1.py:124-135 | with lowercase required skills, the exact rule never scores above the substring rule |
| Dicts.Keys | ttranscribe.py:183 | one key per entry |
| Dicts.KeysMembers | ttranscribe.py:183 | a key is present exactly when some entry has it |
| Dicts.PutProperties | ttranscribe.py:160 | `d[k] = v`: a new key is appended; an existing key keeps its place and takes the new value; distinct keys stay distinct; other entries are unchanged |
| Dicts.PermutationKeepsKeysDistinct | ttranscribe.py:183 | reordering the entries keeps the keys distinct |
| Ranking.Insert | ttranscribe.py:183 | inserting into a sorted list adds exactly that entry |
| Ranking.InsertSorted | ttranscribe.py:183 | inserting into a non-increasing list keeps it non-increasing |
| Ranking.InsertKeepsTies | ttranscribe.py:183 | among the entries of any one score, the inserted entry goes ahead of the others, which keep their order |
| Ranking.SortByScoreDesc | ttranscribe.py:183 | `sorted(..., key=score, reverse=True)`: a permutation, with non-increasing scores, and entries of equal score keep their input order |
| Ranking.ScoreTableIndex | ttranscribe.py:179-182 | the score table pairs each document's key with that document's score, in dict order |
| Ranking.RankResumes | ttranscribe.py:178-184 | every document once, with its score, and no other entry; scores non-increasing; equal scores in the order the documents were analysed |
| Corpus.TxtIsNotPdf | ttranscribe.py:150 | no name ends in both `.txt` and `.pdf` |
| Corpus.JoinPagesAppend | ttranscribe.py:130-133 | the text of two runs of pages is the concatenation of their texts |
| Corpus.JoinPagesEmpty | ttranscribe.py:130-135 | a PDF's text is empty exactly when no page yields text |
| Corpus.ConcatPageTexts | ttranscribe.py:129-135 | the page loop concatenates, in page order, the pages that yield text |
| Corpus.PdfKeys | ttranscribe.py:124-138 | the kept names are exactly the listed names ending in `.pdf` that opened, each once |
| Corpus.PdfKeysInListingOrder | ttranscribe.py:124 | the kept names sit at increasing positions of the listing |
| Corpus.ExtractedTexts | ttranscribe.py:122-139 | the dictionary has exactly those keys, each mapped to its PDF's concatenated page text |
| Corpus.ExtractTextFromPdfs | final_1.py:82-99 | the loop builds that dictionary, with distinct keys |
| Corpus.ExtractedTextsNonEmpty | ttranscribe.py:155-160 | no extracted text is empty exactly when every kept PDF yields some text |
| Folder.CvAnalyserFailsOnlyOnEmpty | ttranscribe.py:153 | `analyze_cv` raises exactly on empty text |
| Folder.BasesMembers | ttranscribe.py:149 | `processed_files` holds exactly the base names of the entries seen so far |
| Folder.FirstOfBaseIffUnclaimed | ttranscribe.py:147 | an entry passes the `processed_files` check exactly when no earlier entry has its base name |
| Folder.TxtKeysMembers | ttranscribe.py:145-153 | a name is analysed by the first loop exactly when it ends in `.txt` and no earlier entry has its base name |
| Folder.TxtKeysInListingOrder | ttranscribe.py:145 | the names the first loop analyses sit at increasing positions of the listing |
| Folder.FirstOfBaseIsNewKey | ttranscribe.py:153 | the first loop never assigns a key twice |
| Folder.EarlierSameBaseBlocksTxt | final_1.py:104-108 | an entry listed after another of the same base name is never analysed as text, whatever the earlier entry's extension |
| Folder.WriteLogIndex | ttranscribe.py:157-159 | the i-th write goes to the i-th PDF's base name plus `.txt`, with that PDF's text |
| Folder.TxtPassStopsAtFailure | ttranscribe.py:151-153 | once the first loop raises, the rest of the listing changes nothing |
| Folder.TxtPassClaimsBases | ttranscribe.py:144-149 | after the first loop, `processed_files` is the set of base names of the whole listing |
| Folder.TxtPassSucceeds | ttranscribe.py:150-153 | the first loop raises exactly when some admitted `.txt` file is unreadable or empty |
| Folder.TxtPassFailure | ttranscribe.py:150-153 | when the first loop raises, it names an admitted `.txt` file: one that would not open, or one whose text is empty |
| Folder.TxtPassEntries | ttranscribe.py:145-153 | the first loop's keys are exactly the admitted `.txt` names, in listing order and distinct, and each maps to `analyze_cv` of its contents |
| Folder.AnalyseTxtFiles | ttranscribe.py:143-153 | the imperative first loop returns exactly what the first-loop specification gives, error included |
| Folder.PdfPassStopsAtFailure | ttranscribe.py:155-160 | once the second loop raises, the remaining PDFs change nothing |
| Folder.PdfPassSucceeds | ttranscribe.py:160 | the second loop raises exactly when some extracted text is empty |
| Folder.PdfPassEntries | final_1.py:114-118 | the second loop appends each PDF under its own name after the text keys, never overwriting one, each mapped to `analyze_cv` of its text |
| Folder.AnalysePdfTexts | ttranscribe.py:155-160 | the imperative second loop returns what the second-loop specification gives; the files written so far are the log of the PDFs visited, and all of them on success; on failure the last PDF written is the first one with empty text, and the error names it |
| Folder.PdfFailureNamesEmptyPdf | ttranscribe.py:155-160 | a second loop that stops names a kept PDF with no text; its sibling `.txt` was the last write, and every earlier write had text |
| Folder.SecondLoopOverTxtResults | ttranscribe.py:154-161 | started from the first loop's results, the second loop gets through exactly when every kept PDF has text, and then appends each PDF's analysis after the `.txt` entries |
| Folder.ProcessFolder | ttranscribe.py:142-161 | returns exactly when every admitted `.txt` file is readable and non-empty and every kept PDF has text. Then: the keys are the admitted `.txt` names followed by the kept PDF names, all distinct; each maps to `analyze_cv` of its document; one sibling `.txt` is written per PDF, in order. The writes are always a prefix of that log. When it raises, the error names the file: an admitted `.txt` file that would not open or is empty, with nothing written; or a kept PDF without text, whose sibling was the last write |
| Variants.SentinelCountsAsSkillInTranscribeMode | ttranscribe.py:166-168 | under the substring rule a required `skill` is matched by the "No skills found" sentinel; under the exact rule it is not |
| Variants.FinalModeIsCaseSensitive | final_1.py:127 | a found `Python` does not satisfy a required `python` under the exact rule but does under the substring rule |
| Variants.SentinelRecordScoresZeroInFinalMode | final_1.py:124-135 | an all-sentinel record scores 0 under the exact rule for any lowercase required skills |
| Variants.BlankFirstLineEarnsNoNameBonus | final_1.py:38-40 | a label-free document whose first line is empty or whitespace only gets the name `""`, which earns no name bonus |
| Variants.OtherExtensionFirstHidesTxt | final_1.py:104-108 | `X.docx` listed before `X.txt` keeps `X.txt` from being read |
| Variants.TxtAndPdfOfOneStemBothKept | ttranscribe.py:145-160 | `X.txt` followed by `X.pdf` gives both a `.txt` key and a `.pdf` key |

## Left out

- Video transcription (`video_to_text`), emotion recognition (`recognize_emotions`, `extract_features`) and sentiment (`analyze_text`): foreign libraries, audio and video I/O, and floating point. The per-frame `frame_count % frame_skip` test in `recognize_emotions` (final_1.py:151,160) divides by zero when the frame rate is below 2. This is noted only; the video loop is not modelled.
- spaCy tokenisation and named-entity recognition: the pipeline's token texts and entities are an input (`nlp` returns a `Doc`).
- pdfplumber: each PDF's pages are given as optional texts. A file that cannot be opened or read is absent from the map.
- File I/O:
  - `os.listdir` is a sequence of names. The two calls, in `process_folder` and in `extract_text_from_pdfs`, are taken to return the same listing.
  - Reads are a map.
  - Writes are a returned log. A write that fails, and overwriting an existing file, are not modelled.
  - `os.path.join` is not modelled.
  - A `.txt` file that fails to decode is treated like one that cannot be opened.
- Printed warnings and error messages (`print`), the interactive prompts and the display functions: output only.
- Character classes are ASCII for letters, digits, `\w`, `isalpha` and `lower`. Python's Unicode letters and digits are not modelled. Whitespace follows `str.isspace` and line boundaries follow `str.splitlines`.
- Skills.SkillsFound: the skills are a set, not the list `list(found_skills)` returns. That list's order is hash order, and `calculate_score` turns it back into a set.
- Text.BaseName: `splitext` is modelled for plain listing entries only, with no path separators.
- Ranking.RankResumes: the ranked list is a permutation of the score table, not a record of `sorted`'s comparisons. Stability is stated as "entries of each score keep their input order".
- Folder.ProcessFolder: on failure it states which file raised and what was written, but not the half-built `results`, which the exception discards.

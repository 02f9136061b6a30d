# ESG document question answering: a verified model of its deterministic core

The system answers questions about companies' sustainability (ESG) reports. PDF reports are
read, cut into overlapping character chunks, embedded and stored in a vector index under a
company name. A question is embedded and matched against the index, optionally filtered to one
company. The best chunks become a numbered, company-labelled context block inside a fixed prompt
for a language model.

This project models the deterministic logic around those service calls and proves what it does.
The PDF extractor, the sentence encoder, the index's `upsert` and `query`, and the language model
are function-valued parameters. The steps they take are recorded: an event trace for ingestion,
and the list of prompts sent for answering.

Modules, in dependency order:

- `Wrappers`: `Option` (Python's `None`) and `Result` (a call that succeeded or raised).
- `Settings`: chunk size 800, overlap 100, three search results (`src/config/settings.py:25-31`).
- `Text`: the Python string operations the core relies on. These are `isspace`/`strip`, `lower` on
  ASCII letters, `endswith`, `replace(p, "")`, `split()`, `sep.join` and the prefix slice `s[:k]`.
- `Numerals`: `str()` of an integer and `int()` of a digit string.
- `Ordering`: Python's ordering of `str` and `sorted()`.
- `PdfNames`: the two filename rules. A file is a PDF when its lower-cased name ends in `.pdf`.
  Its company is the name with every `.pdf` removed, case-sensitively.
- `Chunker`: `chunk_text`. It is a `while` loop proved against a recursive specification, with
  closed forms for the count and the windows.
- `Helpers`: `get_available_companies` (loop, then sort), `validate_pdf_file`,
  `format_file_size` and `truncate_text`.
- `SearchService`: the query request with its company-filter rule, and the loop that reshapes
  matches into results. It covers both the service method and the legacy free function.
- `QaService`: `generate_answer` (the sentinel shortcut, the context block, the prompt, one model
  call, the stripped reply), `ask_question` and the legacy `generate_answer_with_gemini`.
- `DocumentProcessor`: `process_and_store_pdf` and `process_folder`. This covers company
  derivation, record ids, the vector-list loop, the blank-text rejection, temporary-file
  handling and the folder tally loop, which reads the chunk count back out of the success message.

Where the source works step by step, a method takes those steps and a function states what
they compute; each method is proved equal to its function (`StoreChunksSteps` and
`StoreChunks`, `RunPipelineSteps` and `RunPipeline`, `ProcessAndStorePdf` and `Ingest`), and the
lemmas are stated about the functions. `ProcessAndStorePdf` takes the corrected steps of
`process_and_store_pdf`, removing the temporary file on every path; the code as written, which
removes it only after a successful upsert, is the function `IngestAsWritten` (see "## Findings").

Code and natural readings that disagree (the model follows the code):

- A text no longer than `chunk_size` is a single chunk only when it is no longer than
  `chunk_size - overlap`. With 800/100, a text of exactly 800 characters gives two chunks,
  `[text, text[700:]]` (`Chunker.FullWindowGivesTwoChunks`, `Chunker.ShortText`).
- The chunk count is `ceil(n / (chunk_size - overlap))`. It is not
  `ceil((n - chunk_size) / (chunk_size - overlap)) + 1`: at 1450 characters the loop emits 3
  chunks where that formula gives 2 (`Chunker.ThreeChunksOn1450`).

## Model

| member | source | states |
|---|---|---|
| Chunker.ChunkText | src/services/document_processor.py:60-69 | The loop returns exactly the specification's chunks. It returns none iff the text is empty. The count m satisfies (m-1)·step < n ≤ m·step. Chunk k is the window at k·step, clipped to the text's end |
| Chunker.ChunkStartIsProduct | src/services/document_processor.py:64-67 | The start reached after k steps of `start = end - overlap` is k·(chunk_size − overlap) |
| Chunker.ChunkCount | src/services/document_processor.py:63-67 | No chunks iff the text is empty. Otherwise the count is the least m with m·step ≥ n, which is ceil(n / step) |
| Chunker.ChunkAt | src/services/document_processor.py:61-67 | Chunk k starts inside the text and equals `text[start_k : start_k + chunk_size]` clipped to the end |
| Chunker.ChunkWindows | src/services/document_processor.py:61-67 | As ChunkAt, for every chunk at once |
| Chunker.EmptyTextNoChunks | src/services/document_processor.py:60-69 | The empty text gives `[]` |
| Chunker.ShortText | src/services/document_processor.py:63-69 | For 0 < n ≤ chunk_size: the first chunk is the whole text and every later chunk is a suffix of it. The result is `[text]` iff n ≤ chunk_size − overlap |
| Chunker.FullWindowGivesTwoChunks | src/services/document_processor.py:63-67 | 800 characters at 800/100 give `[text, text[700:]]` |
| Chunker.DefaultConfigOn2000 | tests/test_services.py:95-99 | 2000 characters at 800/100 give 3 chunks, the first of length 800 |
| Chunker.OverlapShared | src/services/document_processor.py:64-67 | When chunk i is full and chunk i+1 exists, the last `overlap` characters of chunk i are the first `overlap` characters of chunk i+1 |
| Chunker.TrailingChunksNested | src/services/document_processor.py:63-67 | Once a chunk reaches the end of the text, the next chunk is its suffix from one step on |
| Chunker.ReassembleFrom | src/services/document_processor.py:61-67 | Gluing the first step characters of each chunk from a given start, then the last chunk, gives the text from that start |
| Chunker.ReassembleStep | src/services/document_processor.py:64-67 | One loop step contributes exactly the characters between two consecutive starts |
| Chunker.LastWindow | src/services/document_processor.py:63-67 | A window that reaches the end of the text is the last chunk, and it holds the rest of the text |
| Chunker.ReassembleChunks | src/services/document_processor.py:61-67 | With a non-negative overlap, chunking loses nothing: the chunks reassemble to the text |
| Chunker.ThreeChunksOn1450 | src/services/document_processor.py:63-67 | 1450 characters give 3 chunks; the third is the second's suffix from 700 |
| PdfNames.IsPdfNameIff | src/utils/helpers.py:22 | `IsPdfName` (`name.lower().endswith(".pdf")`, used again by the folder loop) holds iff the name's last four characters are `.`, `p/P`, `d/D`, `f/F` |
| PdfNames.CompanyFromFilename | src/services/document_processor.py:161 | `name.replace(".pdf", "")` is no longer than the name, and equals it exactly when the name holds no `.pdf` |
| PdfNames.CompanyOfBaseWithExtension | src/utils/helpers.py:24 | For a base with no `.pdf` inside, removing `.pdf` from `base + ".pdf"` gives back the base |
| PdfNames.UpperCaseExtensionKept | src/utils/helpers.py:22-24 | `Report.PDF` is a PDF name, and removing `.pdf` leaves it as it is |
| PdfNames.NoPdfInReport | src/utils/helpers.py:24 | `.pdf` does not occur in `Report.PDF` |
| PdfNames.EveryOccurrenceRemoved | src/utils/helpers.py:24 | Every occurrence is removed: `a.pdf.pdf` gives `a` |
| Text.RemoveAllIdentityIff | src/utils/helpers.py:24 | `replace(p, "")` leaves s unchanged iff p does not occur in s. Otherwise it removes at least one whole copy |
| Text.StripEmptyIffBlank | src/services/document_processor.py:102 | `not text.strip()` holds exactly for all-whitespace text, the empty text included |
| Text.StripShape | src/services/qa_service.py:73 | `strip()` returns a slice of its input with no whitespace at either end, and is idempotent |
| Text.StripKeepsTrimmed | src/services/qa_service.py:73 | Text with no whitespace at either end is unchanged by `strip()` |
| Text.SplitWord | src/services/document_processor.py:168 | `split()` of a word, a space and the rest is the word followed by the split of the rest |
| Text.JoinPartAt | src/services/qa_service.py:33-36 | In `sep.join(parts)`, part i stands at its offset, and a separator follows it unless it is the last |
| Numerals.NatToStringCanonical | src/utils/helpers.py:65 | The decimal rendering has digits only and no leading zero, and it is `"0"` only for 0 |
| Numerals.ParseNatToString | src/services/document_processor.py:168 | `int(str(n)) == n` for a natural number |
| Numerals.IntToStringRoundTrip | src/utils/helpers.py:65 | `str(n)` of any integer is a canonical signed numeral that reads back to n |
| Numerals.NatToStringInjective | src/services/document_processor.py:115 | Two numbers have the same rendering iff they are equal |
| Ordering.LexTotal | src/utils/helpers.py:27 | Any two strings are ordered one way or the other |
| Ordering.LexTransitive | src/utils/helpers.py:27 | The string order is transitive |
| Ordering.Insert | src/utils/helpers.py:27 | Inserting into a sorted list keeps it sorted and adds exactly that element |
| Ordering.Sort | src/utils/helpers.py:27 | `sorted()` returns a sorted permutation of its input |
| Helpers.CompanyEntriesMembership | src/utils/helpers.py:21-25 | c is an entry iff some PDF name in the listing yields c when `.pdf` is removed |
| Helpers.EntryHasFile | src/utils/helpers.py:21-25 | Every entry comes from a PDF name in the listing |
| Helpers.FileHasEntry | src/utils/helpers.py:21-25 | Every PDF name in the listing contributes its entry |
| Helpers.CompanyEntriesCount | src/utils/helpers.py:21-25 | There are exactly as many entries as PDF names |
| Helpers.GetAvailableCompanies | src/utils/helpers.py:18-27 | The result is sorted and always holds "General". A missing folder gives `["General"]`. Otherwise the result is a permutation of "General" plus the entries |
| Helpers.ValidatePdfFile | src/utils/helpers.py:40-51 | Valid iff a file is given, its name is a PDF name and its size is at most 50 MiB |
| Helpers.ValidateCascade | src/utils/helpers.py:40-51 | Each check's fixed message, in order: no file, then the extension whatever the size, then the size. A valid result carries "Valid PDF file" |
| Helpers.SizeLimitBoundary | src/utils/helpers.py:47-51 | 52428800 bytes are accepted; 52428801 get the too-large message |
| Helpers.TruncateText | src/utils/helpers.py:83-85 | Text within the limit is returned as it is. Longer text becomes the Python prefix slice followed by "..." |
| Helpers.TruncateLong | src/utils/helpers.py:83-85 | For 0 ≤ max < len, the result has length max + 3, begins with the first max characters and ends in "..." |
| Helpers.TruncateIdempotent | src/utils/helpers.py:83-85 | Truncating again with the same non-negative limit changes nothing |
| Helpers.TruncateDefault | src/utils/helpers.py:72-85 | With the default limit of 300, a preview has at most 303 characters, short text is kept, and longer text keeps its first 300 characters |
| Helpers.RoundHalfEvenNearest | src/utils/helpers.py:67 | The rounding used by `:.2f` gives a nearest integer, and an even one on an exact tie |
| Helpers.DigitPair | src/utils/helpers.py:67 | Two decimal digits read back as tens and units |
| Helpers.HundredthsRoundTrip | src/utils/helpers.py:67 | The rendering `<whole>.<d><d>` has a canonical whole part and reads back to the count of hundredths |
| Helpers.TwoDecimalsValue | src/utils/helpers.py:66-69 | The two-decimal rendering of a/b reads back to the nearest hundredth of a/b |
| Helpers.FormatFileSize | src/utils/helpers.py:54-69 | The result ends in "B", with " B" below 1024, "KB" below 1048576 and "MB" from there on: the unit names the size's range |
| Helpers.FormatBytes | src/utils/helpers.py:64-65 | Below 1024, the result is the integer's decimal rendering followed by " B" and reads back to the integer |
| Helpers.FormatLarger | src/utils/helpers.py:66-69 | From 1024 on, the text before " KB" (below 1048576) or " MB" is `<whole>.<d><d>` with a canonical whole part, and it reads back to q hundredths with q the integer nearest to 100·n/1024 or 100·n/1048576, ties to even |
| Helpers.FormatByteExamples | tests/test_services.py:14-17 | 500 gives "500 B" and 1023 gives "1023 B" |
| Helpers.FormatKilobyteExamples | tests/test_services.py:19-22 | 1024, 1536 and 2048 give "1.00 KB", "1.50 KB" and "2.00 KB" |
| Helpers.FormatMegabyteExamples | tests/test_services.py:24-27 | 1048576 and 2097152 give "1.00 MB" and "2.00 MB" |
| SearchService.BuildQueryParams | src/services/search_service.py:43-51 | The request has the vector and top_k as given and include_metadata true. It has a company-equality filter iff the name is given, non-empty and not "General" |
| SearchService.RequestDetermined | src/services/search_service.py:43-51 | The inputs determine the request |
| SearchService.FilterSemantics | src/services/search_service.py:50-51 | It fixes what the `$eq` filter means in the model: without a filter everything is admitted, with one exactly the metadata whose company equals the name. The index is a parameter, and nothing requires its answers to follow that reading |
| SearchService.Lookup | src/services/search_service.py:61-62 | `dict.get`: a value iff the key is present, and then the stored value |
| SearchService.ReshapeMatches | src/services/search_service.py:57-65 | One result per match, in order, each built from its match; no matches give `[]` |
| SearchService.ResultFields | src/services/search_service.py:59-63 | A result carries its match's score, and the company and text exactly when the metadata has them |
| SearchService.SemanticSearch | src/services/search_service.py:40-65 | The request is the one for the encoded query, and the results are the reshaped matches of that request |
| SearchService.LegacySemanticSearch | src/services/search_service.py:84-105 | The same request and results as the service method |
| SearchService.SearchesAgree | src/services/search_service.py:84-105 | Two searches with the same inputs send the same request and return the same results |
| QaService.Entries | src/services/qa_service.py:33-36 | One entry per chunk, in order. Entry i is "Source {i+1} (Company: {company}):\n{text}" |
| QaService.Context | src/services/qa_service.py:33-36 | The context block is empty iff no chunks were retrieved, and a single chunk gives its entry alone |
| QaService.GenerateAnswer | src/services/qa_service.py:29-73 | Empty chunks give the sentinel and no model call. Otherwise there is exactly one call, with the prompt of the context and the question. The answer succeeds iff the call did, and it is the stripped reply or the call's error |
| QaService.AnswerTrimmed | src/services/qa_service.py:73 | A generated answer has no whitespace at either end |
| QaService.TrimmedReplyReturned | src/services/qa_service.py:68-73 | A reply with no surrounding whitespace is returned unchanged after the single call |
| QaService.PromptSections | src/services/qa_service.py:39-65 | `Prompt` is the fixed head, then the context, "USER QUESTION:", the question and the closing line, with each part at its offset |
| QaService.PromptNamesSentinel | src/services/qa_service.py:49-58 | The fallback instruction quotes the sentinel word for word, and the head ends with "SOURCES:\n" |
| QaService.ContextEntryAt | src/services/qa_service.py:33-36 | Entry i stands at its offset in the context, followed by a blank line unless it is the last |
| QaService.ContextOfTwoSources | src/services/qa_service.py:33-36 | Two chunks give "Source 1 (Company: A):\nT1\n\nSource 2 (Company: B):\nT2" |
| QaService.EntryNumbersDistinct | src/services/qa_service.py:34 | Labels with the same text carry the same index, so the numbering is distinct |
| QaService.NumberEndsAtSpace | src/services/qa_service.py:34 | In a label, the number is followed by a space |
| QaService.GenerateAnswerWithGemini | src/services/qa_service.py:96-148 | No chunks give the sentinel and no call; otherwise exactly one call, and the answer succeeds iff the call did and is then the stripped reply |
| QaService.LegacyAnswerAgrees | src/services/qa_service.py:108-148 | The legacy function gives the same sentinel, the same prompt and the same answer |
| QaService.AskQuestion | src/services/qa_service.py:87-92 | Searches with top_k 3 and no filter, returns the results unchanged, and answers from them |
| DocumentProcessor.Basename | src/services/document_processor.py:97 | `basename` is the suffix after the last '/' and contains no '/' |
| DocumentProcessor.BasenameAfterSlash | src/services/document_processor.py:97 | The basename of `dir + "/" + name` is name when name has no '/' |
| DocumentProcessor.DeriveCompany | src/services/document_processor.py:91-97 | A given name is used as it is. Without one, the company is no longer than the file name (an upload's name, a path's basename) and equals it exactly when that holds no `.pdf` |
| DocumentProcessor.DefaultCompany | src/services/document_processor.py:91-97 | A given name is used as it is. Otherwise a path ".../base.pdf" is stored under base |
| DocumentProcessor.SeparatorIsLast | src/services/document_processor.py:115 | In an id, the '_' after the company is the last '_' |
| DocumentProcessor.RecordIdInjective | src/services/document_processor.py:115 | Equal ids `"{company}_{i}"` have the same company and index |
| DocumentProcessor.Records | src/services/document_processor.py:112-121 | One record per embedding |
| DocumentProcessor.RecordsShape | src/services/document_processor.py:112-121 | Record i has id company_i, embedding i, the company and chunk i as metadata. The ids are pairwise distinct |
| DocumentProcessor.BuildVectors | src/services/document_processor.py:112-121 | The loop builds exactly those records. It fails with IndexError's message iff there are more embeddings than chunks |
| DocumentProcessor.StoreChunks | src/services/document_processor.py:109-130 | Encoding comes first; at most an upsert follows; no temporary-file step |
| DocumentProcessor.RunPipeline | src/services/document_processor.py:100-130 | Extraction comes first; at most encode and upsert follow; no temporary-file step |
| DocumentProcessor.StoreChunksSteps | src/services/document_processor.py:109-130 | The steps as the method takes them equal StoreChunks |
| DocumentProcessor.RunPipelineSteps | src/services/document_processor.py:100-130 | The steps, with the chunking loop, equal RunPipeline |
| DocumentProcessor.IngestAsWritten | src/services/document_processor.py:82-133 | The code as written: an upload is first copied to the temporary file, and that copy is removed iff the ingestion succeeds. A path never has a temporary-file step |
| DocumentProcessor.Ingest | src/services/document_processor.py:82-133 | The corrected ingestion: the document is read from the upload's temporary copy or from the given path, and the success flag and message are the pipeline's for that path and the derived company |
| DocumentProcessor.ProcessAndStorePdf | src/services/document_processor.py:82-133 | The method models the corrected ingestion: its outcome and steps equal `Ingest`, which removes the temporary file on every path |
| DocumentProcessor.BlankTextRejected | src/services/document_processor.py:102-103 | Blank text gives (False, "No text found in PDF"). Nothing is encoded or upserted |
| DocumentProcessor.IngestSuccess | src/services/document_processor.py:100-130 | Success iff the text is there and not blank, encoding succeeds with no embedding beyond the chunks, and the upsert raises nothing. On success the chunks' records were upserted and the message names the chunk count and the company |
| DocumentProcessor.SucceededMessage | src/services/document_processor.py:130 | A success message names the chunk count and the company |
| DocumentProcessor.TempFileLeaks | src/services/document_processor.py:126-128 | As written, an upload with blank text writes the temporary file and never removes it |
| DocumentProcessor.TempFileAlwaysRemoved | src/services/document_processor.py:84-128 | Corrected: an upload's temporary file is written first and removed last on every path. A path is never written or removed |
| DocumentProcessor.CleanupOnlyChange | src/services/document_processor.py:126-128 | The correction keeps every success flag and message. It adds the removal only to failed uploads |
| DocumentProcessor.ThirdField | src/services/document_processor.py:168 | `split()[2]` of "a b c rest" is c for words a, b, c |
| DocumentProcessor.SuccessMessageCount | src/services/document_processor.py:165-169 | `int(message.split()[2])` of a success message is its chunk count |
| DocumentProcessor.TallyBalanced | src/services/document_processor.py:155-171 | Every PDF name is counted once, as a success or as a failure |
| DocumentProcessor.NonPdfIgnored | src/services/document_processor.py:156-157 | A non-PDF name changes no counter |
| DocumentProcessor.ListedOutcome | src/services/document_processor.py:163-171 | For a listed PDF, the flag is its outcome, and on success `int(message.split()[2])` is its chunk count; a failure adds no chunks |
| DocumentProcessor.JoinPath | src/services/document_processor.py:160 | `os.path.join(folder, file)` ends with the file name |
| DocumentProcessor.JoinPathBasename | src/services/document_processor.py:160-163 | For a listed name without '/', the basename of the joined path is that name, so the file ingested is the file listed |
| DocumentProcessor.ProcessListedFile | src/services/document_processor.py:156-171 | One loop pass: a PDF name is counted and ingested under its own company, as a success (adding its chunk count) or a failure. Any other name changes nothing |
| DocumentProcessor.ProcessFolder | src/services/document_processor.py:145-173 | A missing folder gives zeros. Otherwise the counters are the PDF count, successes, failures and summed chunk counts of the listing, and total_files = successful + failed |

## Left out

- The PDF extractor (pdfplumber, with page-by-page concatenation), the sentence encoder, the index and the language model: they are parameters, and the model assumes nothing about their results.
- Temporary-file creation, `os.path.exists`, `os.listdir` and `os.remove`. A folder is an optional listing (absent when the folder does not exist), given in listing order. The temporary path is a parameter, and its write and removal are trace events. A failing write of the temporary file is not modelled.
- Exception messages: a collaborator error is a string carried into "Error processing PDF: ...".
- An error raised by the language model is modelled as a `Failure` answer of `GenerateAnswer` (and `AskQuestion` returns it beside the search results). That the error propagates as an exception, so that `generate_answer` and `ask_question` return nothing, is not captured.
- Errors raised by the query encoder or by the index query are not modelled: `encode` and `query` are total parameters. A reply with no text (`response.text` being `None`) is not modelled either.
- Floating point: `format_file_size` divides exactly and rounds half to even. This matches Python's `:.2f` for every size whose quotient a double holds exactly (sizes below 2^53).
- Similarity scores are an opaque type; their rendering as percentages is in the user interface.
- `Text.Lower` lower-cases ASCII letters only. Python's `lower()` also folds other scripts; this can matter only for the last four characters of a name against ".pdf", which are ASCII whenever they match.
- `DocumentProcessor.Basename` and `DocumentProcessor.JoinPath` follow POSIX `os.path`. Windows separators are not modelled.
- Chunker.ChunkText: requires 0 ≤ chunk_size and overlap < chunk_size. With overlap ≥ chunk_size the loop does not terminate on a non-empty text. On the empty text the loop is never entered and Python returns `[]` under any configuration; the model excludes that input under an invalid configuration, which no caller passes (every call uses 800/100). A negative chunk_size would use Python's end-relative negative slices.
- QaService.AnswerTrimmed: states the trimmed-ends property for generated answers only. The sentinel returned for no chunks is a fixed string and is not covered.
- The Streamlit user interface, session caching, the command-line scripts, environment loading and the test-report styling.
- Concurrent ingestion and last-writer-wins upserts on the remote index.

## Findings

| source | as written | input that shows it | evidently intended | confidence | as-written member | corrected member |
|---|---|---|---|---|---|---|
| src/services/document_processor.py:126-128 | The temporary file of an upload is removed only on the success path. The early return for blank text and every exception leave it on disk | an uploaded file whose extracted text is " " | remove the temporary file whatever the outcome, for example in a `finally` block | not executed | DocumentProcessor.TempFileLeaks | DocumentProcessor.TempFileAlwaysRemoved |

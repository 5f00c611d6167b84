# AnkiDex flashcard pipeline — a Dafny model

AnkiDex turns study material into an Anki deck. A browser posts a PDF and/or
pasted text to `/generate`. The server extracts the PDF's text page by page and
appends the pasted text. It asks Gemini for question/answer flashcards and
coerces the completion into validated records. It then writes an `.apkg`
deck, which `/download` serves under a sanitised file name.

This project models the sequential string and list logic of that pipeline and
proves what it promises:

- `flashcard_generator.py` (module `FlashcardGenerator`):
  - API-key resolution, the prompt, and stripping a Markdown code fence.
  - The validation loop that keeps dicts with both `question` and `answer`
    and coerces the two values with `str`.
  - The failure tiers: a missing key or a failing client setup raised
    before the `try` block, unwrapped; inside it, a `JSONDecodeError`
    versus any other raised exception.
- `pdf_extractor.py` (module `PdfExtractor`): the page loop shared by both
  extractors. It skips whitespace-only pages, keeps the rest unmodified and
  in order, and joins them with a blank line.
- `app.py` (module `App`):
  - `allowed_file` and the download-name sanitisation.
  - Combining the PDF text with the pasted text.
  - The branches of the `/generate` handler: 400 on empty content, 500 on an
    empty card list or on any raised exception, 200 with the deck otherwise.

Supporting modules:

- `Wrappers`: `Option`/`Result`.
- `Seqs`: order-preserving filter and subsequence facts.
- `PyStrings`: the Python `str` operations used — `strip`, `split`/`join`,
  `rsplit(sep, 1)`, `lower`, `isalnum`, `str(int)`.
- `Json`: the Python objects `json.loads` yields, iteration over them, and
  `str` of them.

Everything the code reaches outside these files is a parameter of the model:
- the Gemini client (`Client`): its setup and the `generate_content` call;
- `json.loads` and `repr` (`Json.Runtime`);
- PyMuPDF (`PdfExtractor.Document`);
- `int()` on a form value;
- `export_to_apkg`;
- `os.path.exists`;
- the temporary file name.

The effects the `/generate` handler has on the outside world are returned as
a trace: the model call, then the deck write.

Where the documented design of the system and the code disagree, the model follows the code:

- The prompt is built for any `num_cards`. Zero or negative counts are not
  rejected.
- A record's `question` or `answer` may be empty text. The code only checks
  that the keys are present.
- A top-level JSON `null`, boolean or number is not iterable. Python raises
  `TypeError`, which surfaces as "Failed to generate flashcards: ...". A
  top-level object or string yields no records and no error.
- Stripping the fence makes a fenced completion decode like the bare one only
  when the fence has its own opening and closing lines (`FencedLikeBare`). A
  fenced completion of fewer than three lines is cut to the empty text and
  fails to parse.
- `/download` defaults the deck name to "AnkiDex_Deck", with an underscore.
  `/generate` defaults it to "AnkiDex Deck", with a space.
- Only the model call and the decoding are inside the `try` block. An
  exception from `genai.configure` or `genai.GenerativeModel` reaches the
  handler without the "Failed to generate flashcards: " prefix.

## Model

| member | source | states |
|---|---|---|
| `FlashcardGenerator.ResolveKey` | flashcard_generator.py:18-20 | a non-empty explicit key wins; an empty or absent one falls back to `GEMINI_API_KEY`; it fails with the configuration error exactly when both are empty or absent; a resolved key is never empty |
| `FlashcardGenerator.Message` | flashcard_generator.py:84-87 | inside the `try` block the raised message starts with "Failed to parse AI response as JSON" exactly for decode failures and with "Failed to generate flashcards" exactly for other failures, and ends with the underlying diagnostic; the missing-key error is the configuration message and a setup failure is its own text, unwrapped |
| `FlashcardGenerator.BuildPrompt` | flashcard_generator.py:40-60 | the f-string prompt: the fixed text, `str(num_cards)`, the rules and format example, the source text, the closing instruction (properties in the two rows below) |
| `FlashcardGenerator.PromptEmbedsInputs` | flashcard_generator.py:40-60 | the prompt opens with the fixed educator text, embeds `str(num_cards)` right after it, embeds the source text verbatim, and ends with "Return ONLY the JSON array, no other text." |
| `FlashcardGenerator.PromptDeterminesInputs` | flashcard_generator.py:40-60 | two requests with the same prompt have the same source text and the same card count |
| `FlashcardGenerator.Interior` | flashcard_generator.py:69 | `lines[1:-1]`: every line but the first and the last, none for fewer than three |
| `FlashcardGenerator.StripFence` | flashcard_generator.py:67-69 | text starting with three backticks is split on "\n", cut to its interior lines and rejoined; other text is unchanged |
| `FlashcardGenerator.CleanResponse` | flashcard_generator.py:64-69 | the completion trimmed, then unfenced: the text `json.loads` receives |
| `FlashcardGenerator.UnfencedReachesDecoder` | flashcard_generator.py:64-67 | a trimmed completion that does not start with three backticks reaches `json.loads` unchanged |
| `FlashcardGenerator.FencedReachesDecoderAsInteriorLines` | flashcard_generator.py:67-69 | a fenced completion reaches `json.loads` as exactly the lines strictly between its first and last line, rejoined with "\n" |
| `FlashcardGenerator.ShortFenceLeavesNothing` | flashcard_generator.py:67-69 | a fenced completion of fewer than three lines becomes the empty text |
| `FlashcardGenerator.StripFenceUndoesFence` | flashcard_generator.py:67-69 | removing the fence from "```tag\nbody\n```" gives back `body` |
| `FlashcardGenerator.FencedCleansToBody` | flashcard_generator.py:64-69 | cleaning a fenced trimmed body gives back the body, and cleaning the bare body leaves it unchanged |
| `FlashcardGenerator.FencedLikeBare` | flashcard_generator.py:64-82 | a trimmed body wrapped in a code fence is coerced to the same records, or the same error, as the bare body |
| `FlashcardGenerator.IsCardShaped` | flashcard_generator.py:76 | an item is kept when it is a dict with both a `question` and an `answer` key |
| `FlashcardGenerator.ToCard` | flashcard_generator.py:77-80 | the record holds `str` of the two values and nothing else |
| `FlashcardGenerator.KeepCards` | flashcard_generator.py:74-80 | validation never yields more records than the items it visits |
| `FlashcardGenerator.ValidateCards` | flashcard_generator.py:74-82 | the loop returns the records of the card-shaped items in order, or the `TypeError` of a non-iterable value |
| `FlashcardGenerator.KeepCardsIsFilter` | flashcard_generator.py:74-80 | the records are exactly the card-shaped items, in order, each coerced with `str` |
| `FlashcardGenerator.KeepCardsSelectsShapedElements` | flashcard_generator.py:74-80 | the j-th record comes from the j-th card-shaped item, source positions increase, and every card-shaped item is kept |
| `FlashcardGenerator.KeepCardsDropsOnlyMalformed` | flashcard_generator.py:74-80 | records kept plus malformed items dropped equals the number of items |
| `FlashcardGenerator.KeepCardsKeepsWellFormed` | flashcard_generator.py:74-80 | an array of well-formed cards gives one record per element, in order |
| `FlashcardGenerator.KeepCardsOfStrings` | flashcard_generator.py:75-76 | items that are all strings (a dict's keys, a string's characters) give no records |
| `FlashcardGenerator.ExtraKeysDropped` | flashcard_generator.py:76-80 | members before the card's own members, and members after them with keys other than `question` and `answer`, do not affect the record |
| `FlashcardGenerator.GetIgnoresEarlierMembers` | flashcard_generator.py:78-79 | members written before the last one with the key never change `d[key]` |
| `FlashcardGenerator.FieldCoercion` | flashcard_generator.py:78-79 | string values pass unchanged, `null` becomes "None", booleans "True"/"False", integers their decimal digits |
| `FlashcardGenerator.DecodeCards` | flashcard_generator.py:71-87 | decode the cleaned text, iterate the value, keep the card-shaped items; each failure lands in its tier (lemma rows below) |
| `FlashcardGenerator.Coerce` | flashcard_generator.py:64-87 | the completion text is cleaned and then decoded; it depends on the completion only through the cleaned text |
| `FlashcardGenerator.CoerceErrorTiers` | flashcard_generator.py:71-87 | a `JSONDecodeError` is exactly the parse-failure tier, with the parse prefix and no records; any other exception from `json.loads` is the generic tier; otherwise the records are at most the items iterated |
| `FlashcardGenerator.CoerceNonArrayTopLevel` | flashcard_generator.py:74-82 | an empty array, a top-level object or a top-level string gives an empty list and no error; `null`, booleans and numbers raise "'<type>' object is not iterable" |
| `FlashcardGenerator.ShortFenceFailsToParse` | flashcard_generator.py:67-71 | a fenced completion of fewer than three lines fails with the parse-failure message, given that `json.loads("")` raises `JSONDecodeError` |
| `FlashcardGenerator.Generation` | flashcard_generator.py:24-87 | resolve the key, set up the client, call the model with the prompt, coerce the completion; each step's failure in its tier |
| `FlashcardGenerator.PromptSent` | flashcard_generator.py:36-63 | the model receives the prompt exactly when a key resolves and the client setup succeeds |
| `FlashcardGenerator.GenerateFlashcards` | flashcard_generator.py:24-87 | resolves the key and sets up the client before any model call, sends the prompt only then, and returns exactly the coerced records or the tiered error |
| `FlashcardGenerator.GenerationErrors` | flashcard_generator.py:36-63 | without a key the result is the configuration error; a failing client setup escapes with its own text; in both cases no prompt is sent; a failing model call is a generation failure carrying its diagnostic |
| `Json.Get` | flashcard_generator.py:78-79 | `d[key]` is the value of the last member named `key`, as a decoded dict keeps the last of repeated keys |
| `Json.DictKeys` | flashcard_generator.py:75 | iterating a dict visits each of its keys exactly once |
| `Json.Iterate` | flashcard_generator.py:75 | a list yields its elements, a string its one-character strings, a dict its keys; `None`, booleans and numbers raise `TypeError` |
| `Json.HasKey` | flashcard_generator.py:76 | `key in d` for a decoded dict: some member has that key |
| `Json.TypeName` | flashcard_generator.py:75 | the Python type name a `TypeError` reports for each kind of value |
| `Json.Str` | flashcard_generator.py:78-79 | `str(v)`: a string is itself, `None`, `True`, `False` their names, an int its digits, other values their `repr` |
| `PyStrings.Strip` | flashcard_generator.py:64 | `strip()` removes leading and trailing whitespace only, and yields the empty text exactly for blank input |
| `PyStrings.IsSpace` | pdf_extractor.py:27 | `str.isspace` for one character: exactly Python's whitespace set (ASCII tab to carriage return, the file, group, record and unit separators, space, and the Unicode spaces and line separators) |
| `PyStrings.LStrip` | flashcard_generator.py:64 | removes exactly the leading whitespace: the rest is a suffix of the input, and it does not start with whitespace |
| `PyStrings.RStrip` | app.py:95 | removes exactly the trailing whitespace: the rest is a prefix of the input, and it does not end with whitespace |
| `PyStrings.StripIdempotent` | app.py:51 | stripping twice is stripping once |
| `PyStrings.Join` | flashcard_generator.py:69 | `sep.join(parts)`: the parts with the separator between consecutive ones |
| `PyStrings.Split` | flashcard_generator.py:68 | `split("\n")`: at least one piece, none containing the separator (round trips in the rows below) |
| `PyStrings.StartsWith` | flashcard_generator.py:67 | `startswith`: the prefix is a prefix of the text |
| `PyStrings.JoinSplit` | flashcard_generator.py:68-69 | joining the pieces of `split("\n")` with "\n" gives back the text |
| `PyStrings.SplitJoin` | flashcard_generator.py:68-69 | splitting a "\n"-join of newline-free lines gives back the lines |
| `PyStrings.RSplitOnce` | app.py:23 | `rsplit('.', 1)` is the whole name without a dot, else the text before and after the last dot |
| `PyStrings.Lower` | app.py:23 | `lower()`: same length, each character lower-cased |
| `PyStrings.IsAlnum` | app.py:95 | `isalnum()` for ASCII letters and digits |
| `PyStrings.IntTextInjective` | flashcard_generator.py:42 | distinct card counts render as distinct text |
| `PyStrings.IntText` | flashcard_generator.py:42 | `str(i)`: a minus sign for negatives, then the decimal digits |
| `PdfExtractor.ReadPages` | pdf_extractor.py:24-28 | the page loop appends the text of every non-blank page in order, stopping at the first unreadable page |
| `PdfExtractor.IsContentPage` | pdf_extractor.py:27 | `text.strip()` is truthy |
| `PdfExtractor.KeptPages` | pdf_extractor.py:24-28 | the list the loop builds: the content pages' texts in order, or the failure of the first unreadable page |
| `PdfExtractor.Extraction` | pdf_extractor.py:19-35 | an opened document gives its kept pages joined with "\n\n"; an opening or page failure is re-raised with the extraction prefix |
| `PdfExtractor.ExtractTextFromPdf` | pdf_extractor.py:9-35 | returns `Extraction` of the document opened from the path |
| `PdfExtractor.ExtractTextFromBytes` | pdf_extractor.py:38-64 | returns the same `Extraction` of the document opened from the bytes, so both extractors compute one function of the pages |
| `PdfExtractor.ContentPageIffNotBlank` | pdf_extractor.py:27 | a page is kept exactly when its text is not whitespace-only |
| `PdfExtractor.ReadableKeepsContentPages` | pdf_extractor.py:24-28 | with every page readable, the kept texts are the non-blank page texts filtered in order |
| `PdfExtractor.KeptPagesInOrder` | pdf_extractor.py:24-28 | kept pages appear in document order and unmodified, and every non-blank page is kept |
| `PdfExtractor.KeptPagesNeverBlank` | pdf_extractor.py:27-28 | no whitespace-only page is ever kept |
| `PdfExtractor.ExtractionJoinsKeptPages` | pdf_extractor.py:35 | the result is the kept pages joined with "\n\n": "" for none, the page itself for one |
| `PdfExtractor.BlankDocumentIsEmpty` | pdf_extractor.py:24-35 | a document of whitespace-only pages extracts to "" |
| `PdfExtractor.FirstFailureReported` | pdf_extractor.py:24-33 | the first unreadable page decides the failure, with the extraction prefix |
| `PdfExtractor.ExtractionErrorsArePrefixed` | pdf_extractor.py:32-33 | every failure, opening or reading, starts with "Failed to extract text from PDF: " |
| `App.AllowedFile` | app.py:22-23 | a dot is present and the text after the last dot, lower-cased, is an allowed extension |
| `App.AllowedFileIffPdfSuffix` | app.py:22-23 | a name is accepted iff it ends in "." followed by "pdf" in any letter case |
| `App.AllowedFileAcceptsExamples` | app.py:22-23 | "a.PDF", "notes.pdf" and ".pdf" are accepted, whatever the letter case of the extension |
| `App.AllowedFileRejectsExamples` | app.py:22-23 | "pdf" (no dot), "a.pdf.txt" (another last extension) and "notes.pd" are rejected |
| `App.Sanitize` | app.py:95 | the sanitised name has only alphanumerics, spaces, hyphens and underscores, and never ends in a space |
| `App.SanitizeIsSubsequence` | app.py:95 | the sanitised name is a subsequence of the input: its safe characters in order, less trailing whitespace |
| `App.SanitizeKeepsSafeName` | app.py:95 | a name of safe characters not ending in a space is unchanged |
| `App.SanitizeIdempotent` | app.py:95 | sanitising twice is sanitising once |
| `App.IsSafeChar` | app.py:95 | the comprehension test `c.isalnum() or c in (' ', '-', '_')` |
| `App.DownloadFilename` | app.py:96 | the file name is the sanitised name followed by ".apkg" |
| `App.DefaultDownloadFilename` | app.py:89-96 | without a deck name the attachment is "AnkiDex_Deck.apkg" |
| `App.Download` | app.py:88-103 | a missing, empty or non-existent path is a 404 with "File not found"; otherwise the file under the sanitised deck name |
| `App.DownloadOutcome` | app.py:88-103 | a file is sent, with status 200, exactly for a non-empty existing path, as that file, under a safe name ending in ".apkg"; otherwise a 404 with "File not found" |
| `App.CombineText` | app.py:41-56 | the PDF text, then the stripped paste after a blank line, or whichever of the two is non-empty |
| `App.CombinedContent` | app.py:41-56 | the pasted text is stripped; both present gives pdf + "\n\n" + pasted; otherwise the non-empty one alone; empty iff no PDF text and blank paste |
| `App.Generate` | app.py:33-82 | the handler answers and acts exactly as `Respond` describes |
| `App.AnswerGeneration` | app.py:62-79 | after generation the handler answers and acts exactly as `AfterGeneration` describes |
| `App.Respond` | app.py:33-82 | what `/generate` answers and does: a count or PDF failure is a 500, empty content a 400, else what generation leads to |
| `App.AfterGeneration` | app.py:62-82 | a generation error or an empty card list is a 500; otherwise the deck is written and the cards returned, or the writer's exception is a 500 |
| `App.FormDefaults` | app.py:37-39 | the deck name defaults to "AnkiDex Deck", the card count to 10, the key to "" |
| `App.DeckName` | app.py:37 | `request.form.get('deck_name', 'AnkiDex Deck')` |
| `App.CardCount` | app.py:38 | the default 10 without a `num_cards` field, otherwise `int()` of the field, which may raise |
| `App.ApiKey` | app.py:39 | `request.form.get('api_key', '')`, handed on as given |
| `App.ExtractsUpload` | app.py:44-46 | a PDF is read only when a file part is present, has a non-empty name, and that name passes `allowed_file` |
| `App.UploadText` | app.py:44-48 | the text of an accepted upload is `extract_text_from_bytes` of its bytes, failure included; otherwise the text is "" |
| `App.EarlyExits` | app.py:35-59 | a bad count or unreadable PDF is a 500 and empty content a 400, each before any model call and with no effect |
| `App.EmptyContentIsBadRequest` | app.py:58-59 | a 400 happens exactly when count and PDF were read, there is no PDF text and the paste is blank |
| `App.GenerationOutcomeStatus` | app.py:62-82 | once generation ran the answer is 200 or 500, and 200 exactly when it carries cards |
| `App.NoCardsNoDeck` | app.py:64-65 | an empty card list is a 500 with its own message and no deck write; a deck is only written with the generated, non-empty cards |
| `App.ModelCallComesFirst` | app.py:62-71 | the model call, if any, is the single first effect, with the prompt generation sent |
| `App.SuccessShape` | app.py:67-79 | a 200 carries the generated non-empty cards, the temporary path and the deck name, after the deck write succeeded as the last effect |
| `App.GenerationErrorsAre500` | app.py:62-82 | a generation error is a 500 with the exception's message, and no deck is written |
| `App.ModelCalledWithContent` | app.py:58-62 | the model is called at most once, and only with the prompt for the non-empty combined content and requested count, once a key resolves and the client is set up |
| `App.MissingKeyCallsNothing` | app.py:62-82 | with content but no key the answer is a 500 with the configuration message and nothing is called or written |
| `App.SetupFailureCallsNothing` | app.py:62-82 | with content and a key, a failing client setup is a 500 carrying exactly the exception's text, and nothing is called or written |
| `App.SuccessCallsModelThenWritesDeck` | app.py:62-79 | a success called the model, then wrote the deck, and did nothing else |
| `App.UploadFailures` | app.py:44-48 | an unreadable PDF is a 500 with the extraction prefix and no effects; a missing or non-PDF upload contributes no text |

## Left out

- The Gemini client is a foreign library. It is the `Client` parameter. Its `setup(key)` stands for `genai.configure` and `genai.GenerativeModel('gemini-pro')`, and any exception they raise is its `Some` value. Its `complete(key, prompt)` stands for `generate_content` and `response.text`, and any exception they raise is its `Err` value.
- `json.loads` is a library parser. It is `Runtime.loads`. It returns a decoded value, a `JSONDecodeError`, or another exception such as `RecursionError` on deep nesting or `ValueError` on an over-long integer. Which inputs raise which exception is not modelled. A JSON float is kept as its literal.
- `str` of a float, list or dict is `Runtime.repr`. `str` of `None`, booleans, integers and strings is written out.
- Json.Str: does not model the limit on converting very long integers to text that recent Python versions enforce, because that is interpreter configuration, not this code.
- PyMuPDF (`fitz.open`, `page.get_text`, `doc.close`) is a foreign library. A document is the outcome of opening it and of reading each page.
- `anki_builder.py` is not part of this model. `export_to_apkg` is the `exportDeck` parameter, whose `Some(e)` is the exception it raised.
- Flask is not modelled: routing, `render_template`, `jsonify`, `send_file`, request parsing, the 16 MB request limit and the `/` page. Form fields and the upload are inputs; answers are a status with a body.
- `tempfile` is not modelled: the temporary deck path is an input.
- `os.path.exists` is the `fileExists` parameter.
- `int()` on the `num_cards` form value is the `parseInt` parameter.
- PyStrings.IsAlnum: an ASCII approximation of `str.isalnum`. Non-ASCII letters and digits, which Python keeps in a download name, are dropped by the model.
- PyStrings.Lower: an ASCII approximation of `str.lower`. It lower-cases only A-Z. That is enough for the ".pdf" test, since no other character lower-cases to "p", "d" or "f".
- Whitespace for `strip` is Python's full `isspace` set, so it is exact.
- The API key is modelled as handed to the model call. In the code, `genai.configure` installs it process-wide, and Flask serves requests on several threads. Two concurrent `/generate` requests with different keys can race, so one request's `generate_content` can run under the other's key. The model does not capture this race.

/** `app.py`: the request-level rules of the two routes. `/generate` reads
    the form, extracts the text of an uploaded PDF, appends the pasted text,
    refuses empty content (400), asks the model for cards, refuses an empty
    result (500) and otherwise writes the deck and returns the cards.
    `/download` checks the file and names the attachment after the sanitised
    deck name. Everything the handlers reach outside this file (the PDF
    library, the model, `int()`, the deck writer, the file system) is a
    parameter; the effects of the handler on the outside world (the model
    call and the deck write) are returned as a trace. */
module App {
  import opened Wrappers
  import opened Seqs
  import opened PyStrings
  import opened Json
  import FG = FlashcardGenerator
  import PE = PdfExtractor

  // ------------------------------------------------------------- constants

  const DefaultDeckName := "AnkiDex Deck"
  const DefaultNumCards := 10
  const DownloadDefaultDeckName := "AnkiDex_Deck"
  const AllowedExtensions: set<string> := {"pdf"}
  const ContentSeparator := "\n\n"
  const DeckSuffix := ".apkg"

  const NoContentMessage := "Please provide a PDF file or text input"
  const NoCardsMessage := "Failed to generate flashcards from the content"
  const FileNotFoundMessage := "File not found"

  const StatusOk := 200
  const StatusBadRequest := 400
  const StatusNotFound := 404
  const StatusServerError := 500

  // ------------------------------------------------------------ allowed_file

  /** `'.' in filename and filename.rsplit('.', 1)[1].lower() in ALLOWED_EXTENSIONS`. */
  predicate AllowedFile(filename: string) {
    '.' in filename && Lower(RSplitOnce(filename, '.')[1]) in AllowedExtensions
  }

  /** A file is accepted exactly when its name ends in a dot followed by
      "pdf" in any letter case. */
  lemma AllowedFileIffPdfSuffix(f: string)
    ensures AllowedFile(f) <==> |f| >= 4 && f[|f| - 4] == '.' && Lower(f[|f| - 3..]) == "pdf"
  {
    var n := |f|;
    if n >= 4 && f[n - 4] == '.' && Lower(f[n - 3..]) == "pdf" {
      var t := f[n - 3..];
      forall k | n - 3 <= k < n ensures f[k] != '.' {
        assert Lower(t)[k - (n - 3)] == LowerChar(f[k]);
      }
      assert LastIndexOf(f, '.') == n - 4;
      assert RSplitOnce(f, '.')[1] == t;
    }
    if AllowedFile(f) {
      var r := RSplitOnce(f, '.');
      assert |r[1]| == 3;
      assert f == r[0] + ['.'] + r[1];
      assert f[n - 3..] == r[1];
    }
  }

  /** Names the extension check accepts, whatever the letter case. */
  lemma AllowedFileAcceptsExamples()
    ensures AllowedFile("a.PDF") && AllowedFile("notes.pdf") && AllowedFile(".pdf")
  {
    assert Lower("PDF") == "pdf" && Lower("pdf") == "pdf";
    assert "a.PDF"[2..] == "PDF" && "a.PDF"[1] == '.';
    AllowedFileIffPdfSuffix("a.PDF");
    assert "notes.pdf"[6..] == "pdf" && "notes.pdf"[5] == '.';
    AllowedFileIffPdfSuffix("notes.pdf");
    assert ".pdf"[1..] == "pdf" && ".pdf"[0] == '.';
    AllowedFileIffPdfSuffix(".pdf");
  }

  /** Names the extension check rejects: no dot, another last extension,
      or a shorter one. */
  lemma AllowedFileRejectsExamples()
    ensures !AllowedFile("pdf") && !AllowedFile("a.pdf.txt") && !AllowedFile("notes.pd")
  {
    assert "a.pdf.txt"[5] == '.';
    assert RSplitOnce("a.pdf.txt", '.')[1] == "txt";
    assert Lower("txt")[0] == 't';
    assert "notes.pd"[5] == '.';
    assert RSplitOnce("notes.pd", '.')[1] == "pd";
  }

  // ----------------------------------------------------- download filename

  /** `c.isalnum() or c in (' ', '-', '_')`. */
  predicate IsSafeChar(c: char) {
    IsAlnum(c) || c == ' ' || c == '-' || c == '_'
  }

  /** `"".join(c for c in deck_name if ...).rstrip()`: only safe characters,
      never a trailing space. */
  function Sanitize(deckName: string): (r: string)
    ensures forall i :: 0 <= i < |r| ==> IsSafeChar(r[i])
    ensures r == [] || r[|r| - 1] != ' '
  {
    RStrip(Filter(IsSafeChar, deckName))
  }

  /** Sanitising keeps the safe characters in their order, only dropping
      the trailing whitespace: the result is a subsequence of the input. */
  lemma SanitizeIsSubsequence(deckName: string)
    ensures IsSubsequence(Sanitize(deckName), deckName)
    ensures var safe := Filter(IsSafeChar, deckName);
              Sanitize(deckName) <= safe && IsBlank(safe[|Sanitize(deckName)|..])
  {
    var safe := Filter(IsSafeChar, deckName);
    FilterIsSubsequence(IsSafeChar, deckName);
    SubsequencePrefix(safe, deckName, |Sanitize(deckName)|);
  }

  /** A name of safe characters that does not end in a space is left alone. */
  lemma SanitizeKeepsSafeName(deckName: string)
    requires forall i :: 0 <= i < |deckName| ==> IsSafeChar(deckName[i])
    requires deckName == [] || deckName[|deckName| - 1] != ' '
    ensures Sanitize(deckName) == deckName
  {
    FilterKeepsAll(IsSafeChar, deckName);
  }

  /** Sanitising twice is sanitising once. */
  lemma SanitizeIdempotent(deckName: string)
    ensures Sanitize(Sanitize(deckName)) == Sanitize(deckName)
  {
    SanitizeKeepsSafeName(Sanitize(deckName));
  }

  /** `f"{safe_name}.apkg"`: the sanitised name, which has only safe
      characters, then the deck suffix. */
  function DownloadFilename(deckName: string): (r: string)
    ensures |r| >= |DeckSuffix| && r[|r| - |DeckSuffix|..] == DeckSuffix
    ensures r[..|r| - |DeckSuffix|] == Sanitize(deckName)
    ensures forall i :: 0 <= i < |r| - |DeckSuffix| ==> IsSafeChar(r[i])
  {
    var safe := Sanitize(deckName);
    assert forall i :: 0 <= i < |safe| ==> (safe + DeckSuffix)[i] == safe[i];
    safe + DeckSuffix
  }

  /** Without a deck name the attachment is "AnkiDex_Deck.apkg". */
  lemma DefaultDownloadFilename()
    ensures DownloadFilename(DownloadDefaultDeckName) == "AnkiDex_Deck.apkg"
  {
    SanitizeKeepsSafeName(DownloadDefaultDeckName);
  }

  /** What `/download` answers. */
  datatype DownloadReply = FileNotFound(error: string) | Attachment(filePath: string, downloadName: string)

  /** Lines 88-103: a missing, empty or non-existent path is a 404 with the
      "File not found" error; otherwise
      the file is sent under the sanitised deck name. `fileExists` is
      `os.path.exists`. */
  function Download(filePath: Option<string>, deckName: Option<string>, fileExists: string -> bool): DownloadReply
  {
    if filePath.None? || filePath.value == "" || !fileExists(filePath.value) then FileNotFound(FileNotFoundMessage)
    else Attachment(filePath.value, DownloadFilename(deckName.GetOr(DownloadDefaultDeckName)))
  }

  function DownloadStatus(reply: DownloadReply): int {
    if reply.FileNotFound? then StatusNotFound else StatusOk
  }

  /** A file is sent exactly when a non-empty existing path is given; it is
      the given file, named with only safe characters and the deck suffix,
      and by default "AnkiDex_Deck.apkg". */
  lemma DownloadOutcome(filePath: Option<string>, deckName: Option<string>, fileExists: string -> bool)
    ensures var reply := Download(filePath, deckName, fileExists);
              && (reply.Attachment? <==> filePath.Some? && filePath.value != "" && fileExists(filePath.value))
              && DownloadStatus(reply) ==
                   (if filePath.Some? && filePath.value != "" && fileExists(filePath.value) then StatusOk else StatusNotFound)
              && (reply.FileNotFound? ==> reply.error == "File not found")
              && (reply.Attachment? ==> reply.filePath == filePath.value)
              && (reply.Attachment? ==>
                    && |reply.downloadName| >= |DeckSuffix|
                    && reply.downloadName[|reply.downloadName| - |DeckSuffix|..] == DeckSuffix
                    && forall i :: 0 <= i < |reply.downloadName| - |DeckSuffix| ==> IsSafeChar(reply.downloadName[i]))
              && (reply.Attachment? && deckName.None? ==> reply.downloadName == "AnkiDex_Deck.apkg")
  {
    if deckName.None? {
      DefaultDownloadFilename();
    }
  }

  // ------------------------------------------------------------ /generate

  /** The form fields of a `/generate` request, each possibly absent. */
  datatype Form = Form(deckName: Option<string>, numCards: Option<string>, apiKey: Option<string>,
                       textInput: Option<string>)

  /** The uploaded `pdf_file` part: its client file name and its bytes. */
  datatype Upload = Upload(filename: string, bytes: seq<bv8>)

  /** What the handler calls outside this file: the environment, PyMuPDF
      (opening a byte stream), the Gemini client, the JSON runtime, `int()` on a form
      value, and the deck writer (`export_to_apkg`, `Some(error)` if it raised). */
  datatype Services = Services(env: map<string, string>, openStream: seq<bv8> -> PE.Document,
                               client: FG.Client, rt: Runtime,
                               parseInt: string -> Result<int, string>,
                               exportDeck: (seq<FG.Card>, string, string) -> Option<string>)

  datatype Body =
    | ErrorBody(error: string)
    | CardsBody(flashcards: seq<FG.Card>, filePath: string, deckName: string)

  datatype Reply = Reply(status: int, body: Body)

  /** The effects of handling a request on the outside world, in order. */
  datatype Effect =
    | CallModel(prompt: string)
    | WriteDeck(cards: seq<FG.Card>, path: string, deckName: string)

  datatype Outcome = Outcome(reply: Reply, effects: seq<Effect>)

  function ServerError(message: string): Reply {
    Reply(StatusServerError, ErrorBody(message))
  }

  /** `request.form.get('deck_name', 'AnkiDex Deck')`. */
  function DeckName(form: Form): string {
    form.deckName.GetOr(DefaultDeckName)
  }

  /** `int(request.form.get('num_cards', 10))`: the default needs no parsing. */
  function CardCount(form: Form, parseInt: string -> Result<int, string>): Result<int, string> {
    if form.numCards.None? then Ok(DefaultNumCards) else parseInt(form.numCards.value)
  }

  /** `request.form.get('api_key', '')`, handed on as given. */
  function ApiKey(form: Form): Option<string> {
    Some(form.apiKey.GetOr(""))
  }

  /** Does the upload name an acceptable file? (`file and file.filename and
      allowed_file(file.filename)`; a file part is truthy when it has a name.) */
  predicate ExtractsUpload(upload: Option<Upload>) {
    upload.Some? && upload.value.filename != "" && AllowedFile(upload.value.filename)
  }

  /** The text taken from the upload: empty without an acceptable file. */
  function UploadText(upload: Option<Upload>, openStream: seq<bv8> -> PE.Document): Result<string, string> {
    if ExtractsUpload(upload) then PE.Extraction(openStream(upload.value.bytes)) else Ok("")
  }

  /** Lines 41-56: the PDF text, then the stripped pasted text after a blank
      line, or whichever of the two is non-empty. */
  function CombineText(pdfText: string, textInput: string): string {
    var pasted := Strip(textInput);
    if pasted != "" then (if pdfText != "" then pdfText + ContentSeparator + pasted else pasted)
    else pdfText
  }

  /** The combined content starts with the PDF text and ends with the
      stripped pasted text, separated by a blank line when both are present;
      it is empty exactly when there is no PDF text and the paste is blank. */
  lemma CombinedContent(pdfText: string, textInput: string)
    ensures var content, pasted := CombineText(pdfText, textInput), Strip(textInput);
              && (content == "" <==> pdfText == "" && IsBlank(textInput))
              && StartsWith(content, pdfText)
              && |pasted| <= |content| && content[|content| - |pasted|..] == pasted
              && (pdfText != "" && pasted != "" ==>
                    |content| == |pdfText| + 2 + |pasted| && content[|pdfText|..|pdfText| + 2] == ContentSeparator)
              && (pasted == "" ==> content == pdfText)
              && (pdfText == "" ==> content == pasted)
  {
    var content, pasted := CombineText(pdfText, textInput), Strip(textInput);
    if pasted == "" {
      assert content == pdfText;
    } else if pdfText == "" {
      assert content == pasted;
    } else {
      PrefixSuffixOfJoin(pdfText, ContentSeparator, pasted);
    }
  }

  /** Where the three parts of `a + sep + b` sit. */
  lemma PrefixSuffixOfJoin(a: string, sep: string, b: string)
    ensures var s := a + sep + b;
              && s[..|a|] == a
              && s[|a|..|a| + |sep|] == sep
              && s[|a| + |sep|..] == b
  {
  }

  /** What `/generate` answers and does, branch by branch (lines 35-82): a
      failure to read `num_cards` or the PDF, empty content, or else what
      the content leads to. Every raised exception becomes a 500 with its
      message. */
  function Respond(form: Form, upload: Option<Upload>, svc: Services, tmpPath: string): Outcome
  {
    match CardCount(form, svc.parseInt)
    case Err(e) => Outcome(ServerError(e), [])
    case Ok(numCards) =>
      match UploadText(upload, svc.openStream)
      case Err(e) => Outcome(ServerError(e), [])
      case Ok(pdfText) =>
        var content := CombineText(pdfText, form.textInput.GetOr(""));
        if content == "" then Outcome(Reply(StatusBadRequest, ErrorBody(NoContentMessage)), [])
        else AfterGeneration(FG.Generation(content, numCards, ApiKey(form), svc.env, svc.client, svc.rt),
                             FG.PromptSent(content, numCards, ApiKey(form), svc.env, svc.client),
                             DeckName(form), svc.exportDeck, tmpPath)
  }

  /** Lines 62-79, given what `generate_flashcards` returned or raised and
      the prompt it sent the model, if any: a generation error, an empty
      card list, or the deck written and the cards returned. */
  function AfterGeneration(generated: Result<seq<FG.Card>, FG.GenError>, prompted: Option<string>,
                           deckName: string, exportDeck: (seq<FG.Card>, string, string) -> Option<string>,
                           tmpPath: string): Outcome
  {
    var calls := if prompted.Some? then [CallModel(prompted.value)] else [];
    match generated
    case Err(e) => Outcome(ServerError(FG.Message(e)), calls)
    case Ok(cards) =>
      if cards == [] then Outcome(ServerError(NoCardsMessage), calls)
      else
        var effects := calls + [WriteDeck(cards, tmpPath, deckName)];
        match exportDeck(cards, tmpPath, deckName)
        case Some(e) => Outcome(ServerError(e), effects)
        case None => Outcome(Reply(StatusOk, CardsBody(cards, tmpPath, deckName)), effects)
  }

  /** The `/generate` handler: reads the form, builds `text_content` step
      by step, and leaves through the first branch that applies. `tmpPath`
      is the name of the temporary file the handler creates for the deck. */
  method Generate(form: Form, upload: Option<Upload>, svc: Services, tmpPath: string)
    returns (reply: Reply, effects: seq<Effect>)
    ensures Outcome(reply, effects) == Respond(form, upload, svc, tmpPath)
  {
    effects := [];
    var deckName := form.deckName.GetOr(DefaultDeckName);
    var numCards := DefaultNumCards;
    if form.numCards.Some? {
      var parsed := svc.parseInt(form.numCards.value);
      if parsed.Err? {
        return ServerError(parsed.error), effects;
      }
      numCards := parsed.value;
    }
    var apiKey := form.apiKey.GetOr("");
    assert CardCount(form, svc.parseInt) == Ok(numCards);

    var textContent := "";
    if upload.Some? {
      var file := upload.value;
      if file.filename != "" && AllowedFile(file.filename) {
        var extracted := PE.ExtractTextFromBytes(file.bytes, svc.openStream);
        if extracted.Err? {
          return ServerError(extracted.error), effects;
        }
        textContent := extracted.value;
      }
    }
    assert UploadText(upload, svc.openStream) == Ok(textContent);

    var textInput := Strip(form.textInput.GetOr(""));
    if textInput != "" {
      if textContent != "" {
        textContent := textContent + ContentSeparator + textInput;
      } else {
        textContent := textInput;
      }
    }
    assert textContent == CombineText(UploadText(upload, svc.openStream).value, form.textInput.GetOr(""));

    if textContent == "" {
      return Reply(StatusBadRequest, ErrorBody(NoContentMessage)), effects;
    }

    var flashcards, prompted := FG.GenerateFlashcards(textContent, numCards, Some(apiKey), svc.env, svc.client, svc.rt);
    EarlyExits(form, upload, svc, tmpPath);
    reply, effects := AnswerGeneration(flashcards, prompted, deckName, svc.exportDeck, tmpPath);
  }

  /** Lines 62-79 of the handler, once `generate_flashcards` has returned or
      raised: record the model call, refuse an error or an empty list, write
      the deck and answer with the cards. */
  method AnswerGeneration(flashcards: Result<seq<FG.Card>, FG.GenError>, prompted: Option<string>,
                          deckName: string, exportDeck: (seq<FG.Card>, string, string) -> Option<string>,
                          tmpPath: string)
    returns (reply: Reply, effects: seq<Effect>)
    ensures Outcome(reply, effects) == AfterGeneration(flashcards, prompted, deckName, exportDeck, tmpPath)
  {
    effects := [];
    if prompted.Some? {
      effects := effects + [CallModel(prompted.value)];
    }
    if flashcards.Err? {
      return ServerError(FG.Message(flashcards.error)), effects;
    }
    if flashcards.value == [] {
      return ServerError(NoCardsMessage), effects;
    }

    effects := effects + [WriteDeck(flashcards.value, tmpPath, deckName)];
    var exported := exportDeck(flashcards.value, tmpPath, deckName);
    if exported.Some? {
      return ServerError(exported.value), effects;
    }
    return Reply(StatusOk, CardsBody(flashcards.value, tmpPath, deckName)), effects;
  }

  // ------------------------------------------------------------ properties

  /** The form defaults: deck "AnkiDex Deck", ten cards, an empty key. */
  lemma FormDefaults(form: Form, parseInt: string -> Result<int, string>)
    ensures form.deckName.None? ==> DeckName(form) == "AnkiDex Deck"
    ensures form.deckName.Some? ==> DeckName(form) == form.deckName.value
    ensures form.numCards.None? ==> CardCount(form, parseInt) == Ok(10)
    ensures form.numCards.Some? ==> CardCount(form, parseInt) == parseInt(form.numCards.value)
    ensures form.apiKey.None? ==> ApiKey(form) == Some("")
  {
  }

  /** The early exits of `/generate`: a count or a PDF that cannot be read
      is a 500 and empty content a 400, all before any model call and with
      nothing else happening; otherwise the answer is what generation leads to. */
  lemma EarlyExits(form: Form, upload: Option<Upload>, svc: Services, tmpPath: string)
    ensures var out, n, pdf := Respond(form, upload, svc, tmpPath), CardCount(form, svc.parseInt),
                               UploadText(upload, svc.openStream);
              && (n.Err? ==> out == Outcome(ServerError(n.error), []))
              && (n.Ok? && pdf.Err? ==> out == Outcome(ServerError(pdf.error), []))
              && (n.Ok? && pdf.Ok? ==>
                    var content := CombineText(pdf.value, form.textInput.GetOr(""));
                    && (content == "" ==> out == Outcome(Reply(StatusBadRequest, ErrorBody(NoContentMessage)), []))
                    && (content != "" ==>
                          out == AfterGeneration(FG.Generation(content, n.value, ApiKey(form), svc.env, svc.client, svc.rt),
                                                 FG.PromptSent(content, n.value, ApiKey(form), svc.env, svc.client),
                                                 DeckName(form), svc.exportDeck, tmpPath)))
  {
  }

  /** A 400 happens exactly when the count and the PDF were read and the
      combined content is empty, that is when there is no PDF text and the
      pasted text is blank. */
  lemma EmptyContentIsBadRequest(form: Form, upload: Option<Upload>, svc: Services, tmpPath: string)
    ensures var out, n, pdf := Respond(form, upload, svc, tmpPath), CardCount(form, svc.parseInt),
                               UploadText(upload, svc.openStream);
              out.reply.status == StatusBadRequest <==>
                n.Ok? && pdf.Ok? && pdf.value == "" && IsBlank(form.textInput.GetOr(""))
  {
    var n, pdf := CardCount(form, svc.parseInt), UploadText(upload, svc.openStream);
    EarlyExits(form, upload, svc, tmpPath);
    if n.Ok? && pdf.Ok? {
      var content := CombineText(pdf.value, form.textInput.GetOr(""));
      CombinedContent(pdf.value, form.textInput.GetOr(""));
      if content != "" {
        GenerationOutcomeStatus(FG.Generation(content, n.value, ApiKey(form), svc.env, svc.client, svc.rt),
                                FG.PromptSent(content, n.value, ApiKey(form), svc.env, svc.client),
                                DeckName(form), svc.exportDeck, tmpPath);
      }
    }
  }

  /** After generation the answer is a 200 or a 500, and it is a 200
      exactly when it carries cards. */
  lemma GenerationOutcomeStatus(generated: Result<seq<FG.Card>, FG.GenError>, prompted: Option<string>,
                                deckName: string, exportDeck: (seq<FG.Card>, string, string) -> Option<string>,
                                tmpPath: string)
    ensures var out := AfterGeneration(generated, prompted, deckName, exportDeck, tmpPath);
              && (out.reply.status == StatusOk || out.reply.status == StatusServerError)
              && (out.reply.status == StatusOk <==> out.reply.body.CardsBody?)
  {
  }

  /** An empty card list is a 500 with its own message, and no deck is
      written; in fact a deck is only ever written with at least one card,
      to the temporary file and under the requested deck name. */
  lemma NoCardsNoDeck(generated: Result<seq<FG.Card>, FG.GenError>, prompted: Option<string>,
                      deckName: string, exportDeck: (seq<FG.Card>, string, string) -> Option<string>,
                      tmpPath: string)
    ensures var out := AfterGeneration(generated, prompted, deckName, exportDeck, tmpPath);
              forall i :: 0 <= i < |out.effects| && out.effects[i].WriteDeck? ==>
                && generated == Ok(out.effects[i].cards) && out.effects[i].cards != []
                && out.effects[i].path == tmpPath && out.effects[i].deckName == deckName
    ensures var out := AfterGeneration(generated, prompted, deckName, exportDeck, tmpPath);
              generated == Ok([]) ==>
                && out.reply == ServerError(NoCardsMessage)
                && forall i :: 0 <= i < |out.effects| ==> !out.effects[i].WriteDeck?
  {
  }

  /** The model call, if there was one, is the first effect and there is
      at most one; at most one deck write follows. */
  lemma ModelCallComesFirst(generated: Result<seq<FG.Card>, FG.GenError>, prompted: Option<string>,
                            deckName: string, exportDeck: (seq<FG.Card>, string, string) -> Option<string>,
                            tmpPath: string)
    ensures var out := AfterGeneration(generated, prompted, deckName, exportDeck, tmpPath);
              && |out.effects| <= 2
              && (prompted.Some? <==> |out.effects| >= 1 && out.effects[0].CallModel?)
              && forall i :: 0 <= i < |out.effects| && out.effects[i].CallModel? ==>
                   i == 0 && prompted == Some(out.effects[i].prompt)
  {
  }

  /** Success is a 200 carrying the non-empty cards generation produced,
      the deck file and the deck name, after the deck was written as the
      last effect and the writer raised nothing. */
  lemma SuccessShape(generated: Result<seq<FG.Card>, FG.GenError>, prompted: Option<string>,
                     deckName: string, exportDeck: (seq<FG.Card>, string, string) -> Option<string>,
                     tmpPath: string)
    ensures var out := AfterGeneration(generated, prompted, deckName, exportDeck, tmpPath);
              out.reply.status == StatusOk ==>
                && generated == Ok(out.reply.body.flashcards)
                && out.reply.body.flashcards != []
                && out.reply.body.filePath == tmpPath
                && out.reply.body.deckName == deckName
                && |out.effects| >= 1
                && out.effects[|out.effects| - 1] == WriteDeck(out.reply.body.flashcards, tmpPath, deckName)
                && exportDeck(out.reply.body.flashcards, tmpPath, deckName).None?
  {
  }

  /** Generation errors reach the client as a 500 with the exception's
      text, and no deck is written. */
  lemma GenerationErrorsAre500(generated: Result<seq<FG.Card>, FG.GenError>, prompted: Option<string>,
                               deckName: string, exportDeck: (seq<FG.Card>, string, string) -> Option<string>,
                               tmpPath: string)
    ensures var out := AfterGeneration(generated, prompted, deckName, exportDeck, tmpPath);
              generated.Err? ==>
                && out.reply == ServerError(FG.Message(generated.error))
                && forall i :: 0 <= i < |out.effects| ==> !out.effects[i].WriteDeck?
  {
  }

  /** End to end: the model is called at most once, first, and only with
      the prompt for non-empty combined content and the requested count,
      once a key resolves. */
  lemma ModelCalledWithContent(form: Form, upload: Option<Upload>, svc: Services, tmpPath: string)
    ensures var out := Respond(form, upload, svc, tmpPath);
              forall i :: 0 <= i < |out.effects| && out.effects[i].CallModel? ==>
                && i == 0
                && CardCount(form, svc.parseInt).Ok?
                && UploadText(upload, svc.openStream).Ok?
                && var content := CombineText(UploadText(upload, svc.openStream).value, form.textInput.GetOr(""));
                   && content != ""
                   && FG.ResolveKey(ApiKey(form), svc.env).Ok?
                   && svc.client.setup(FG.ResolveKey(ApiKey(form), svc.env).value).None?
                   && out.effects[i].prompt == FG.BuildPrompt(content, CardCount(form, svc.parseInt).value)
  {
    var out, n, pdf := Respond(form, upload, svc, tmpPath), CardCount(form, svc.parseInt),
                       UploadText(upload, svc.openStream);
    EarlyExits(form, upload, svc, tmpPath);
    if n.Ok? && pdf.Ok? {
      var content := CombineText(pdf.value, form.textInput.GetOr(""));
      if content != "" {
        var g := FG.Generation(content, n.value, ApiKey(form), svc.env, svc.client, svc.rt);
        var p := FG.PromptSent(content, n.value, ApiKey(form), svc.env, svc.client);
        ModelCallComesFirst(g, p, DeckName(form), svc.exportDeck, tmpPath);
      }
    }
  }

  /** End to end: with content but no key, the answer is a 500 with the
      configuration message and nothing is called or written. */
  lemma MissingKeyCallsNothing(form: Form, upload: Option<Upload>, svc: Services, tmpPath: string)
    ensures CardCount(form, svc.parseInt).Ok? && UploadText(upload, svc.openStream).Ok? &&
            CombineText(UploadText(upload, svc.openStream).value, form.textInput.GetOr("")) != "" &&
            FG.ResolveKey(ApiKey(form), svc.env).Err? ==>
              Respond(form, upload, svc, tmpPath) == Outcome(ServerError(FG.MissingKeyMessage), [])
  {
    var n, pdf := CardCount(form, svc.parseInt), UploadText(upload, svc.openStream);
    if n.Ok? && pdf.Ok? {
      var content := CombineText(pdf.value, form.textInput.GetOr(""));
      EarlyExits(form, upload, svc, tmpPath);
      FG.GenerationErrors(content, n.value, ApiKey(form), svc.env, svc.client, svc.rt);
    }
  }

  /** End to end: with content and a key, a client setup that raises is a
      500 carrying exactly the exception's text, and nothing is called or
      written. */
  lemma SetupFailureCallsNothing(form: Form, upload: Option<Upload>, svc: Services, tmpPath: string)
    ensures CardCount(form, svc.parseInt).Ok? && UploadText(upload, svc.openStream).Ok? &&
            CombineText(UploadText(upload, svc.openStream).value, form.textInput.GetOr("")) != "" &&
            FG.ResolveKey(ApiKey(form), svc.env).Ok? &&
            svc.client.setup(FG.ResolveKey(ApiKey(form), svc.env).value).Some? ==>
              Respond(form, upload, svc, tmpPath) ==
                Outcome(ServerError(svc.client.setup(FG.ResolveKey(ApiKey(form), svc.env).value).value), [])
  {
    var n, pdf := CardCount(form, svc.parseInt), UploadText(upload, svc.openStream);
    if n.Ok? && pdf.Ok? {
      var content := CombineText(pdf.value, form.textInput.GetOr(""));
      EarlyExits(form, upload, svc, tmpPath);
      FG.GenerationErrors(content, n.value, ApiKey(form), svc.env, svc.client, svc.rt);
    }
  }

  /** End to end: a success has called the model and then written the deck,
      and nothing else. */
  lemma SuccessCallsModelThenWritesDeck(form: Form, upload: Option<Upload>, svc: Services, tmpPath: string)
    ensures var out := Respond(form, upload, svc, tmpPath);
              out.reply.status == StatusOk ==> |out.effects| == 2 && out.effects[0].CallModel? && out.effects[1].WriteDeck?
  {
    var out, n, pdf := Respond(form, upload, svc, tmpPath), CardCount(form, svc.parseInt),
                       UploadText(upload, svc.openStream);
    EarlyExits(form, upload, svc, tmpPath);
    if n.Ok? && pdf.Ok? {
      var content := CombineText(pdf.value, form.textInput.GetOr(""));
      if content != "" {
        var g := FG.Generation(content, n.value, ApiKey(form), svc.env, svc.client, svc.rt);
        var p := FG.PromptSent(content, n.value, ApiKey(form), svc.env, svc.client);
        FG.GenerationErrors(content, n.value, ApiKey(form), svc.env, svc.client, svc.rt);
        SuccessShape(g, p, DeckName(form), svc.exportDeck, tmpPath);
        ModelCallComesFirst(g, p, DeckName(form), svc.exportDeck, tmpPath);
      }
    }
  }

  /** A PDF that cannot be read is a 500 whose message carries the
      extraction prefix, and nothing else happens; a file that is not a PDF
      is ignored. */
  lemma UploadFailures(form: Form, upload: Option<Upload>, svc: Services, tmpPath: string)
    requires CardCount(form, svc.parseInt).Ok?
    ensures var out := Respond(form, upload, svc, tmpPath);
              UploadText(upload, svc.openStream).Err? ==>
                && out.effects == []
                && out.reply.status == StatusServerError
                && StartsWith(out.reply.body.error, PE.ExtractErrorPrefix)
    ensures !ExtractsUpload(upload) ==> UploadText(upload, svc.openStream) == Ok("")
  {
    if ExtractsUpload(upload) {
      PE.ExtractionErrorsArePrefixed(svc.openStream(upload.value.bytes));
    }
  }
}

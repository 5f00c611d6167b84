/** `flashcard_generator.py`: resolving the Gemini API key, building the
    prompt, and coercing the model's completion text into flashcard records
    (trim, strip a Markdown code fence, decode JSON, keep the elements that
    are dicts with both a `question` and an `answer`). The Gemini client is a
    parameter: its setup step may raise, and `complete(key, prompt)` returns
    the completion text or the failure it raised. */
module FlashcardGenerator {
  import opened Wrappers
  import opened Seqs
  import opened PyStrings
  import opened Json

  /** A validated flashcard: exactly the two text fields the code builds. */
  datatype Card = Card(question: string, answer: string)

  /** The four ways `generate_flashcards` can raise. */
  datatype GenError =
    | MissingApiKey                     // ValueError from configure_gemini, before the try block
    | SetupFailure(detail: string)      // raised by the client setup, before the try block, unwrapped
    | ParseFailure(detail: string)      // json.JSONDecodeError, re-raised with its own prefix
    | GenerationFailure(detail: string) // any other exception inside the try block

  /** The completion of one generation request, or the failure it raised. */
  type Completion = Result<string, string>

  /** The Gemini client. `setup(key)` is `genai.configure(api_key=key)`
      followed by `genai.GenerativeModel('gemini-pro')` (lines 21 and 38,
      both before the try block): `Some(e)` is the text of the exception
      either of them raised. `complete(key, prompt)` is
      `model.generate_content(prompt).text` under that key. */
  datatype Client = Client(setup: string -> Option<string>, complete: (string, string) -> Completion)

  const ApiKeyVariable := "GEMINI_API_KEY"
  const Fence := "```"

  const MissingKeyMessage :=
    "Gemini API key is required. " + "Set GEMINI_API_KEY environment variable or pass api_key parameter."
  const ParseFailurePrefix := "Failed to parse AI response as JSON"
  const GenerationFailurePrefix := "Failed to generate flashcards"

  /** The text of the exception each error raises. The two tiers raised
      inside the try block are told apart by their prefixes; a setup
      failure reaches the caller with its own text. */
  function Message(e: GenError): (m: string)
    ensures e.MissingApiKey? ==> m == MissingKeyMessage
    ensures e.SetupFailure? ==> m == e.detail
    ensures !e.SetupFailure? ==> (e.ParseFailure? <==> StartsWith(m, ParseFailurePrefix))
    ensures !e.SetupFailure? ==> (e.GenerationFailure? <==> StartsWith(m, GenerationFailurePrefix))
    ensures !e.MissingApiKey? ==> |e.detail| <= |m| && m[|m| - |e.detail|..] == e.detail
  {
    assert MissingKeyMessage[0] == 'G' && ParseFailurePrefix[0] == 'F' && GenerationFailurePrefix[0] == 'F';
    assert ParseFailurePrefix[10] == 'p' && GenerationFailurePrefix[10] == 'g';
    match e
    case MissingApiKey => MissingKeyMessage
    case SetupFailure(d) => d
    case ParseFailure(d) => ParseFailurePrefix + ": " + d
    case GenerationFailure(d) => GenerationFailurePrefix + ": " + d
  }

  // ------------------------------------------------------------ the API key

  /** `key = api_key or os.getenv("GEMINI_API_KEY")`, then raise if `key` is
      falsy. An explicit non-empty key wins; an empty or absent one falls
      back to the environment; with neither, resolution fails. */
  function ResolveKey(apiKey: Option<string>, env: map<string, string>): (r: Result<string, GenError>)
    ensures apiKey.Some? && apiKey.value != "" ==> r == Ok(apiKey.value)
    ensures (apiKey.None? || apiKey.value == "") && ApiKeyVariable in env && env[ApiKeyVariable] != "" ==>
              r == Ok(env[ApiKeyVariable])
    ensures r.Err? <==> (apiKey.None? || apiKey.value == "") && (ApiKeyVariable !in env || env[ApiKeyVariable] == "")
    ensures r.Err? ==> r.error == MissingApiKey
    ensures r.Ok? ==> r.value != ""
  {
    var key := if apiKey.Some? && apiKey.value != "" then apiKey
               else if ApiKeyVariable in env then Some(env[ApiKeyVariable])
               else None;
    if key.None? || key.value == "" then Err(MissingApiKey) else Ok(key.value)
  }

  // ------------------------------------------------------------ the prompt

  const PromptHead :=
    "You are an expert educator creating flashcards for students.\n\nAnalyze the following text and create "
  const PromptRules := " high-quality flashcards for studying.\n\n" + PromptInstructions
  const PromptInstructions :=
    "Rules:\n"
    + "1. Each flashcard should have a clear, specific question\n"
    + "2. Answers should be concise but complete\n"
    + "3. Focus on key concepts, definitions, and important facts\n"
    + "4. Questions should test understanding, not just recall\n"
    + "5. Avoid yes/no questions\n\n"
    + "Return your response as a valid JSON array with this exact format:\n"
    + "[\n"
    + "  {\"question\": \"What is...?\", \"answer\": \"The answer is...\"},\n"
    + "  {\"question\": \"How does...?\", \"answer\": \"It works by...\"}\n"
    + "]\n\n"
    + "Text to analyze:\n"
  const PromptTail := "\n\nReturn ONLY the JSON array, no other text."

  /** The f-string prompt: the card count rendered with `str`, then the rules
      and format example, the source text verbatim, and the closing instruction. */
  function BuildPrompt(text: string, numCards: int): string
  {
    PromptHead + IntText(numCards) + PromptRules + text + PromptTail
  }

  /** Where the inputs sit in the prompt: the count right after the opening
      sentence, the text verbatim before the closing instruction, which ends it. */
  lemma PromptEmbedsInputs(text: string, numCards: int)
    ensures var p, n := BuildPrompt(text, numCards), IntText(numCards);
            var at := |PromptHead| + |n| + |PromptRules|;
              && StartsWith(p, PromptHead)
              && p[|PromptHead|..|PromptHead| + |n|] == n
              && p[at..at + |text|] == text
              && |p| == at + |text| + |PromptTail|
              && p[|p| - |PromptTail|..] == PromptTail
  {
    PartsOfConcatenation(PromptHead, IntText(numCards), PromptRules, text, PromptTail);
  }

  /** Where each of five concatenated pieces sits in the whole. */
  lemma PartsOfConcatenation(a: string, b: string, c: string, d: string, e: string)
    ensures var p := a + b + c + d + e;
              && p[..|a|] == a
              && p[|a|..|a| + |b|] == b
              && p[|a| + |b|..|a| + |b| + |c|] == c
              && p[|a| + |b| + |c|..|a| + |b| + |c| + |d|] == d
              && p[|a| + |b| + |c| + |d|..] == e
  {
  }

  /** No character of a rendered integer is a space. */
  lemma IntTextHasNoSpace(n: int)
    ensures forall k :: 0 <= k < |IntText(n)| ==> IntText(n)[k] != ' '
  {
    if n < 0 {
      forall k | 0 < k < |IntText(n)| ensures IntText(n)[k] != ' ' {
        assert IntText(n)[k] == NatText(-n)[k - 1];
      }
    }
  }

  /** In `h + a + c + t + e`, a middle piece `a` that cannot contain the first
      character of `c` is determined by the whole, and then so is `t`. */
  lemma ConcatenationDeterminesParts(h: string, a: string, b: string, c: string, t1: string, t2: string, e: string)
    requires h + a + c + t1 + e == h + b + c + t2 + e
    requires |c| > 0
    requires forall k :: 0 <= k < |a| ==> a[k] != c[0]
    requires forall k :: 0 <= k < |b| ==> b[k] != c[0]
    ensures a == b && t1 == t2
  {
    var p := h + a + c + t1 + e;
    var q := h + b + c + t2 + e;
    if |a| < |b| {
      CharAfterSecondPiece(h, a, c, t1, e);
      CharInSecondPiece(h, b, c, t2, e, |a|);
      assert false;
    } else if |b| < |a| {
      CharAfterSecondPiece(h, b, c, t2, e);
      CharInSecondPiece(h, a, c, t1, e, |b|);
      assert false;
    }
    assert a == p[|h|..|h| + |a|];
    assert b == q[|h|..|h| + |b|];
    var at := |h| + |a| + |c|;
    assert t1 == p[at..|p| - |e|];
    assert t2 == q[at..|q| - |e|];
  }

  /** The character right after the second of five concatenated pieces. */
  lemma CharAfterSecondPiece(h: string, a: string, c: string, t: string, e: string)
    ensures |c| > 0 ==> (h + a + c + t + e)[|h| + |a|] == c[0]
  {
  }

  /** A character inside the second of five concatenated pieces. */
  lemma CharInSecondPiece(h: string, a: string, c: string, t: string, e: string, k: int)
    ensures 0 <= k < |a| ==> (h + a + c + t + e)[|h| + k] == a[k]
  {
  }

  /** Different requests give different prompts: the prompt determines both
      the source text and the card count. */
  lemma PromptDeterminesInputs(text1: string, n1: int, text2: string, n2: int)
    requires BuildPrompt(text1, n1) == BuildPrompt(text2, n2)
    ensures text1 == text2 && n1 == n2
  {
    assert PromptRules[0] == ' ';
    IntTextHasNoSpace(n1);
    IntTextHasNoSpace(n2);
    ConcatenationDeterminesParts(PromptHead, IntText(n1), IntText(n2), PromptRules, text1, text2, PromptTail);
    IntTextInjective(n1, n2);
  }

  // ------------------------------------------------------ the code fence

  /** `lines[1:-1]`: every line but the first and the last. */
  function Interior(lines: seq<string>): seq<string>
  {
    if |lines| < 3 then [] else lines[1..|lines| - 1]
  }

  /** When the (trimmed) text starts with three backticks, drop its first and
      last line; otherwise leave it alone. */
  function StripFence(text: string): string
  {
    if StartsWith(text, Fence) then Join("\n", Interior(Split(text, '\n'))) else text
  }

  /** The text handed to `json.loads`: the completion trimmed and unfenced. */
  function CleanResponse(raw: string): string
  {
    StripFence(Strip(raw))
  }

  /** A trimmed completion that does not start with a fence reaches the
      decoder unchanged. */
  lemma UnfencedReachesDecoder(raw: string)
    requires !StartsWith(Strip(raw), Fence)
    ensures CleanResponse(raw) == Strip(raw)
  {
  }

  /** A fenced completion reaches the decoder as exactly the lines strictly
      between its first and its last line, rejoined with newlines. */
  lemma FencedReachesDecoderAsInteriorLines(raw: string)
    requires StartsWith(Strip(raw), Fence)
    requires |Split(Strip(raw), '\n')| >= 3
    ensures var lines := Split(Strip(raw), '\n');
              && CleanResponse(raw) == Join("\n", lines[1..|lines| - 1])
              && Split(CleanResponse(raw), '\n') == lines[1..|lines| - 1]
  {
    var lines := Split(Strip(raw), '\n');
    SplitJoin(lines[1..|lines| - 1], '\n');
  }

  /** A fenced completion of fewer than three lines leaves nothing to decode. */
  lemma ShortFenceLeavesNothing(raw: string)
    requires StartsWith(Strip(raw), Fence)
    requires |Split(Strip(raw), '\n')| < 3
    ensures CleanResponse(raw) == ""
  {
  }

  /** The fence a model wraps around its answer: an opening line of three
      backticks and an optional language tag, the body, a closing line. */
  function Fenced(tag: string, body: string): string
  {
    Fence + tag + "\n" + body + "\n" + Fence
  }

  /** A fenced text starts and ends with a backtick. */
  lemma FencedEdges(tag: string, body: string)
    ensures var f := Fenced(tag, body); |f| >= 3 && f[0] == '`' && f[|f| - 1] == '`'
  {
    var rest := tag + "\n" + body + "\n";
    assert Fenced(tag, body) == Fence + rest + Fence;
  }

  /** Unfencing a fenced body gives back the body. */
  lemma {:induction false} StripFenceUndoesFence(tag: string, body: string)
    requires '\n' !in tag
    ensures StripFence(Fenced(tag, body)) == body
  {
    var opening := Fence + tag;
    assert '\n' !in opening;
    var rest := body + "\n" + Fence;
    assert Fenced(tag, body) == opening + ['\n'] + rest;
    SplitAtFirstSeparator(opening, '\n', rest);
    assert rest == body + ['\n'] + Fence;
    SplitAtLastSeparator(body, '\n', Fence);
    var lines := [opening] + (Split(body, '\n') + [Fence]);
    assert Split(Fenced(tag, body), '\n') == lines;
    assert lines[1..|lines| - 1] == Split(body, '\n');
    assert StartsWith(Fenced(tag, body), Fence);
    JoinSplit(body, '\n');
  }

  // ------------------------------------------------------- validation

  /** `isinstance(card, dict) and "question" in card and "answer" in card`. */
  predicate IsCardShaped(v: Json) {
    v.JObject? && HasKey(v.members, "question") && HasKey(v.members, "answer")
  }

  /** The record built from a card-shaped element: both values through `str`. */
  function ToCard(v: Json, rt: Runtime): Card
    requires IsCardShaped(v)
  {
    Card(Str(Get(v.members, "question"), rt), Str(Get(v.members, "answer"), rt))
  }

  /** The records the validation loop appends, for the items it visits. */
  function KeepCards(items: seq<Json>, rt: Runtime): (cards: seq<Card>)
    ensures |cards| <= |items|
  {
    if items == [] then []
    else
      var last := items[|items| - 1];
      KeepCards(items[..|items| - 1], rt) + (if IsCardShaped(last) then [ToCard(last, rt)] else [])
  }

  /** The validation loop of lines 74-80: iterate, keep card-shaped elements,
      coerce both fields to text; iteration itself may raise. */
  method ValidateCards(flashcards: Json, rt: Runtime) returns (r: Result<seq<Card>, string>)
    ensures Iterate(flashcards).Err? ==> r == Err(Iterate(flashcards).error)
    ensures Iterate(flashcards).Ok? ==> r == Ok(KeepCards(Iterate(flashcards).value, rt))
  {
    var iteration := Iterate(flashcards);
    if iteration.Err? {
      return Err(iteration.error);
    }
    var items := iteration.value;
    var validated: seq<Card> := [];
    for i := 0 to |items|
      invariant validated == KeepCards(items[..i], rt)
    {
      var card := items[i];
      if IsCardShaped(card) {
        validated := validated + [ToCard(card, rt)];
      }
      assert items[..i + 1][..i] == items[..i];
    }
    assert items[..|items|] == items;
    return Ok(validated);
  }

  /** The kept records are the records of the card-shaped elements, in order. */
  lemma {:induction false} KeepCardsIsFilter(items: seq<Json>, rt: Runtime)
    ensures |KeepCards(items, rt)| == |Filter(IsCardShaped, items)|
    ensures forall j :: 0 <= j < |KeepCards(items, rt)| ==>
              KeepCards(items, rt)[j] == ToCard(Filter(IsCardShaped, items)[j], rt)
  {
    if items != [] {
      KeepCardsIsFilter(items[..|items| - 1], rt);
    }
  }

  /** Validation is order-preserving and keeps exactly the card-shaped
      elements: the j-th record comes from the j-th card-shaped element, the
      source positions increase, and every card-shaped position is used. */
  lemma KeepCardsSelectsShapedElements(items: seq<Json>, rt: Runtime)
    ensures var cards, idx := KeepCards(items, rt), FilterIndices(IsCardShaped, items);
              && |cards| == |idx|
              && (forall j :: 0 <= j < |idx| ==>
                    idx[j] < |items| && IsCardShaped(items[idx[j]]) && cards[j] == ToCard(items[idx[j]], rt))
              && (forall j, k :: 0 <= j < k < |idx| ==> idx[j] < idx[k])
              && (forall i :: 0 <= i < |items| ==> (IsCardShaped(items[i]) <==> i in idx))
  {
    KeepCardsIsFilter(items, rt);
    FilterSelects(IsCardShaped, items);
  }

  /** Each dropped element is a malformed one: kept plus malformed is all. */
  lemma KeepCardsDropsOnlyMalformed(items: seq<Json>, rt: Runtime)
    ensures |KeepCards(items, rt)| + |Filter(v => !IsCardShaped(v), items)| == |items|
  {
    KeepCardsIsFilter(items, rt);
    FilterPartition(IsCardShaped, items);
  }

  /** An array of well-formed cards gives one record per element. */
  lemma KeepCardsKeepsWellFormed(items: seq<Json>, rt: Runtime)
    requires forall i :: 0 <= i < |items| ==> IsCardShaped(items[i])
    ensures |KeepCards(items, rt)| == |items|
    ensures forall i :: 0 <= i < |items| ==> KeepCards(items, rt)[i] == ToCard(items[i], rt)
  {
    KeepCardsIsFilter(items, rt);
    FilterKeepsAll(IsCardShaped, items);
  }

  /** Items that are all strings yield no records. */
  lemma {:induction false} KeepCardsOfStrings(items: seq<Json>, rt: Runtime)
    requires forall i :: 0 <= i < |items| ==> items[i].JString?
    ensures KeepCards(items, rt) == []
  {
    if items != [] {
      KeepCardsOfStrings(items[..|items| - 1], rt);
    }
  }

  /** Appending members with other keys does not change a lookup. */
  lemma {:induction false} GetIgnoresOtherMembers(ms: seq<(string, Json)>, extra: seq<(string, Json)>, key: string)
    requires HasKey(ms, key) && !HasKey(extra, key)
    ensures HasKey(ms + extra, key) && Get(ms + extra, key) == Get(ms, key)
  {
    if extra != [] {
      var e' := extra[..|extra| - 1];
      assert (ms + extra)[..|ms + extra| - 1] == ms + e';
      GetIgnoresOtherMembers(ms, e', key);
    } else {
      assert ms + extra == ms;
    }
  }

  /** Members written before the last member with the key do not change a
      lookup, whatever their keys. */
  lemma {:induction false} GetIgnoresEarlierMembers(before: seq<(string, Json)>, ms: seq<(string, Json)>, key: string)
    requires HasKey(ms, key)
    ensures HasKey(before + ms, key) && Get(before + ms, key) == Get(ms, key)
  {
    var n := |ms|;
    assert (before + ms)[|before + ms| - 1] == ms[n - 1];
    if ms[n - 1].0 != key {
      var init := ms[..n - 1];
      assert (before + ms)[..|before + ms| - 1] == before + init;
      GetIgnoresEarlierMembers(before, init, key);
    }
  }

  /** Members around the card's own ones have no effect on the record, as
      long as the ones after it use keys other than `question` and `answer`
      (members before it are overridden anyway). */
  lemma ExtraKeysDropped(before: seq<(string, Json)>, ms: seq<(string, Json)>, after: seq<(string, Json)>,
                         rt: Runtime)
    requires IsCardShaped(JObject(ms))
    requires !HasKey(after, "question") && !HasKey(after, "answer")
    ensures IsCardShaped(JObject(before + ms + after))
    ensures ToCard(JObject(before + ms + after), rt) == ToCard(JObject(ms), rt)
  {
    GetIgnoresEarlierMembers(before, ms, "question");
    GetIgnoresEarlierMembers(before, ms, "answer");
    GetIgnoresOtherMembers(before + ms, after, "question");
    GetIgnoresOtherMembers(before + ms, after, "answer");
  }

  /** How field values become text: strings unchanged, `null` as "None",
      booleans as "True"/"False", integers as their digits. */
  lemma FieldCoercion(v: Json, rt: Runtime)
    requires IsCardShaped(v)
    ensures var q := Get(v.members, "question");
              && (q.JString? ==> ToCard(v, rt).question == q.s)
              && (q.JNull? ==> ToCard(v, rt).question == "None")
              && (q.JBool? ==> ToCard(v, rt).question == if q.b then "True" else "False")
              && (q.JInt? ==> ToCard(v, rt).question == IntText(q.i))
    ensures var a := Get(v.members, "answer");
              && (a.JString? ==> ToCard(v, rt).answer == a.s)
              && (a.JNull? ==> ToCard(v, rt).answer == "None")
              && (a.JBool? ==> ToCard(v, rt).answer == if a.b then "True" else "False")
              && (a.JInt? ==> ToCard(v, rt).answer == IntText(a.i))
  {
  }

  // --------------------------------------------------- the whole coercion

  /** From completion text to records: decode failures are the hard tier,
      a non-iterable top level raises, malformed elements are dropped. */
  function Coerce(raw: string, rt: Runtime): Result<seq<Card>, GenError>
  {
    DecodeCards(CleanResponse(raw), rt)
  }

  /** Lines 71-82 and 84-87: decode the cleaned text, iterate the value and
      keep the card-shaped items. */
  function DecodeCards(text: string, rt: Runtime): Result<seq<Card>, GenError>
  {
    match rt.loads(text)
    case Err(DecodeError(d)) => Err(ParseFailure(d))
    case Err(OtherLoadError(d)) => Err(GenerationFailure(d))
    case Ok(v) =>
      match Iterate(v)
      case Err(d) => Err(GenerationFailure(d))
      case Ok(items) => Ok(KeepCards(items, rt))
  }

  /** A `JSONDecodeError` is exactly the parse tier, and no records are
      returned; any other exception from the decoder falls into the generic
      tier; otherwise the outcome depends only on the decoded value. */
  lemma CoerceErrorTiers(raw: string, rt: Runtime)
    ensures var decoded := rt.loads(CleanResponse(raw));
              decoded.Err? && decoded.error.DecodeError? <==> Coerce(raw, rt).Err? && Coerce(raw, rt).error.ParseFailure?
    ensures var decoded := rt.loads(CleanResponse(raw));
              decoded.Err? && decoded.error.OtherLoadError? ==> Coerce(raw, rt) == Err(GenerationFailure(decoded.error.msg))
    ensures Coerce(raw, rt).Err? && Coerce(raw, rt).error.ParseFailure? ==>
              StartsWith(Message(Coerce(raw, rt).error), ParseFailurePrefix)
    ensures Coerce(raw, rt).Ok? ==> |Coerce(raw, rt).value| <= |Iterate(rt.loads(CleanResponse(raw)).value).value|
    ensures Coerce(raw, rt).Err? ==> !Coerce(raw, rt).error.MissingApiKey? && !Coerce(raw, rt).error.SetupFailure?
  {
    var decoded := rt.loads(CleanResponse(raw));
    if decoded.Err? {
      if decoded.error.DecodeError? {
        assert Coerce(raw, rt) == Err(ParseFailure(decoded.error.msg));
      } else {
        assert Coerce(raw, rt) == Err(GenerationFailure(decoded.error.msg));
      }
    } else {
      var items := Iterate(decoded.value);
      if items.Err? {
        assert Coerce(raw, rt) == Err(GenerationFailure(items.error));
      } else {
        assert Coerce(raw, rt) == Ok(KeepCards(items.value, rt));
      }
    }
  }

  /** A top-level dict or string is iterable but yields no card-shaped items,
      so the result is empty; `null`, booleans and numbers raise. */
  lemma CoerceNonArrayTopLevel(raw: string, rt: Runtime)
    requires rt.loads(CleanResponse(raw)).Ok?
    ensures var v := rt.loads(CleanResponse(raw)).value;
              && ((v.JObject? || v.JString? || v == JArray([])) ==> Coerce(raw, rt) == Ok([]))
              && (!IsIterable(v) ==>
                    Coerce(raw, rt) == Err(GenerationFailure("'" + TypeName(v) + "' object is not iterable")))
  {
    var v := rt.loads(CleanResponse(raw)).value;
    if v.JObject? || v.JString? {
      KeepCardsOfStrings(Iterate(v).value, rt);
    }
  }

  /** A fenced completion of fewer than three lines fails as unparseable
      (`json.loads("")` raises). */
  lemma ShortFenceFailsToParse(raw: string, rt: Runtime)
    requires StartsWith(Strip(raw), Fence)
    requires |Split(Strip(raw), '\n')| < 3
    requires rt.loads("").Err? && rt.loads("").error.DecodeError?
    ensures Coerce(raw, rt) == Err(ParseFailure(rt.loads("").error.msg))
    ensures StartsWith(Message(Coerce(raw, rt).error), ParseFailurePrefix)
  {
    ShortFenceLeavesNothing(raw);
  }

  /** A trimmed body wrapped in a code fence is coerced exactly like the bare
      body. */
  lemma FencedLikeBare(tag: string, body: string, rt: Runtime)
    requires '\n' !in tag
    requires Strip(body) == body && !StartsWith(body, Fence)
    ensures Coerce(Fenced(tag, body), rt) == Coerce(body, rt)
  {
    FencedCleansToBody(tag, body);
  }

  /** Cleaning a fenced trimmed body gives the body, as does cleaning the
      body itself. */
  lemma FencedCleansToBody(tag: string, body: string)
    requires '\n' !in tag
    requires Strip(body) == body && !StartsWith(body, Fence)
    ensures CleanResponse(Fenced(tag, body)) == body
    ensures CleanResponse(body) == body
  {
    var f := Fenced(tag, body);
    FencedEdges(tag, body);
    StripUntrimmed(f);
    StripFenceUndoesFence(tag, body);
  }

  // --------------------------------------------------- generate_flashcards

  /** What `generate_flashcards(text, num_cards, api_key)` returns or raises. */
  function Generation(text: string, numCards: int, apiKey: Option<string>, env: map<string, string>,
                      client: Client, rt: Runtime): Result<seq<Card>, GenError>
  {
    match ResolveKey(apiKey, env)
    case Err(e) => Err(e)
    case Ok(key) =>
      match client.setup(key)
      case Some(d) => Err(SetupFailure(d))
      case None =>
        match client.complete(key, BuildPrompt(text, numCards))
        case Err(d) => Err(GenerationFailure(d))
        case Ok(response) => Coerce(response, rt)
  }

  /** The prompt the model receives, if it is called at all: only once a
      key resolves and the client is set up, and then the prompt for the
      text and the count. */
  function PromptSent(text: string, numCards: int, apiKey: Option<string>, env: map<string, string>,
                      client: Client): Option<string>
  {
    match ResolveKey(apiKey, env)
    case Err(_) => None
    case Ok(key) => if client.setup(key).None? then Some(BuildPrompt(text, numCards)) else None
  }

  /** Lines 24-87: resolve the key and set up the client (either may raise
      before any model call), send the prompt, then clean, decode and
      validate the completion. `prompted` is the prompt sent to the model,
      if it was called. */
  method GenerateFlashcards(text: string, numCards: int, apiKey: Option<string>, env: map<string, string>,
                            client: Client, rt: Runtime)
    returns (r: Result<seq<Card>, GenError>, prompted: Option<string>)
    ensures r == Generation(text, numCards, apiKey, env, client, rt)
    ensures prompted == PromptSent(text, numCards, apiKey, env, client)
  {
    var key := ResolveKey(apiKey, env);
    if key.Err? {
      return Err(key.error), None;
    }
    var setupFailure := client.setup(key.value);
    if setupFailure.Some? {
      return Err(SetupFailure(setupFailure.value)), None;
    }
    var prompt := BuildPrompt(text, numCards);
    prompted := Some(prompt);
    var response := client.complete(key.value, prompt);
    if response.Err? {
      return Err(GenerationFailure(response.error)), prompted;
    }
    var responseText := CleanResponse(response.value);
    var flashcards := rt.loads(responseText);
    if flashcards.Err? && flashcards.error.DecodeError? {
      return Err(ParseFailure(flashcards.error.msg)), prompted;
    } else if flashcards.Err? {
      return Err(GenerationFailure(flashcards.error.msg)), prompted;
    }
    var validated := ValidateCards(flashcards.value, rt);
    if validated.Err? {
      return Err(GenerationFailure(validated.error)), prompted;
    }
    return Ok(validated.value), prompted;
  }

  /** Without a key the call fails with the configuration error, and when
      the client setup raises, that exception escapes unwrapped; in both
      cases the model is never called. Once the model is called, a failing
      call is a generation failure. */
  lemma GenerationErrors(text: string, numCards: int, apiKey: Option<string>, env: map<string, string>,
                         client: Client, rt: Runtime)
    ensures ResolveKey(apiKey, env).Err? ==>
              && Generation(text, numCards, apiKey, env, client, rt) == Err(MissingApiKey)
              && PromptSent(text, numCards, apiKey, env, client) == None
    ensures ResolveKey(apiKey, env).Ok? && client.setup(ResolveKey(apiKey, env).value).Some? ==>
              && Generation(text, numCards, apiKey, env, client, rt)
                   == Err(SetupFailure(client.setup(ResolveKey(apiKey, env).value).value))
              && Message(Generation(text, numCards, apiKey, env, client, rt).error)
                   == client.setup(ResolveKey(apiKey, env).value).value
              && PromptSent(text, numCards, apiKey, env, client) == None
    ensures PromptSent(text, numCards, apiKey, env, client).Some? &&
            client.complete(ResolveKey(apiKey, env).value, BuildPrompt(text, numCards)).Err? ==>
              Generation(text, numCards, apiKey, env, client, rt)
                == Err(GenerationFailure(client.complete(ResolveKey(apiKey, env).value, BuildPrompt(text, numCards)).error))
  {
  }
}

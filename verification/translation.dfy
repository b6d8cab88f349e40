/**
 The server's `translate` orchestrator (src/services/translation.ts): a
 credential check on the model id, chunking with the catalog chunk size, one
 provider call per chunk in order, and the per-chunk texts joined by a blank
 line. The provider SDK calls are parameters: for each chunk a provider
 either throws (a `Failure`) or answers with a text that may be missing
 (`None`).
 */
module Translation {
  import opened Base
  import opened Text
  import opened Catalog
  import opened Credentials
  import opened Splitting
  import opened Chunker

  /** `settings.googleCredentials`: a parsed key object, or the key text still to be parsed. */
  datatype GoogleCredentials = Raw(text: string) | Object(account: ServiceAccount)

  /** The settings argument of `translate`. */
  datatype CallSettings = CallSettings(
    openaiKey: string,
    anthropicKey: string,
    googleProjectId: string,
    googleCredentials: GoogleCredentials)

  datatype Provider = OpenAI | Anthropic | GoogleTranslate

  /** What one SDK call gives back: a thrown fault, or a response whose text may be missing. */
  type Reply = Result<Option<string>>

  /** The three SDK calls, each from a chunk to its reply (target language and keys are bound in). */
  datatype Adapters = Adapters(openai: string -> Reply, anthropic: string -> Reply, google: string -> Reply)

  /** The Google credentials are unset: an empty project id or an empty key text. */
  predicate GoogleConfigMissing(s: CallSettings)
  {
    s.googleProjectId == "" || s.googleCredentials == Raw("")
  }

  /**
   The credential switch on the model id, run before anything else: the
   provider to call, or the error key for a missing credential or an id the
   switch does not know.
   */
  function SelectProvider(id: string, s: CallSettings): (r: Result<Provider>)
    ensures r.Success? <==> (id == "gpt4" && s.openaiKey != "")
                            || (id == "claude" && s.anthropicKey != "")
                            || (id == "google" && !GoogleConfigMissing(s))
    ensures r == Success(OpenAI) <==> id == "gpt4" && s.openaiKey != ""
    ensures r == Success(Anthropic) <==> id == "claude" && s.anthropicKey != ""
    ensures r == Success(GoogleTranslate) <==> id == "google" && !GoogleConfigMissing(s)
    ensures id == "gpt4" && s.openaiKey == "" ==> r == Failure(Error("settings.errors.openaiKeyNotSet"))
    ensures id == "claude" && s.anthropicKey == "" ==> r == Failure(Error("settings.errors.anthropicKeyNotSet"))
    ensures id == "google" && GoogleConfigMissing(s) ==> r == Failure(Error("settings.errors.googleConfigNotSet"))
    ensures id !in {"gpt4", "claude", "google"} ==> r == Failure(Error("settings.errors.unsupportedModel"))
  {
    if id == "gpt4" then
      if s.openaiKey == "" then Failure(Error("settings.errors.openaiKeyNotSet")) else Success(OpenAI)
    else if id == "claude" then
      if s.anthropicKey == "" then Failure(Error("settings.errors.anthropicKeyNotSet")) else Success(Anthropic)
    else if id == "google" then
      if GoogleConfigMissing(s) then Failure(Error("settings.errors.googleConfigNotSet")) else Success(GoogleTranslate)
    else Failure(Error("settings.errors.unsupportedModel"))
  }

  /**
   The Google client is built per chunk; a key still given as text is
   parsed first, and a key that does not parse fails before any call. No
   field of the parsed value is read here, so a key text that parses to
   `null` or to any other value gets through.
   */
  function GoogleClientFault(p: Provider, s: CallSettings, parse: string -> Json): (r: Option<Fault>)
    ensures r.Some? <==> p == GoogleTranslate && s.googleCredentials.Raw? && parse(s.googleCredentials.text).Unparsable?
    ensures r.Some? ==> r.value == Error("settings.errors.invalidGoogleKey")
  {
    if p == GoogleTranslate && s.googleCredentials.Raw? && parse(s.googleCredentials.text).Unparsable? then
      Some(Error("settings.errors.invalidGoogleKey"))
    else None
  }

  function Call(p: Provider, adapters: Adapters, chunk: string): Reply
  {
    match p
    case OpenAI => adapters.openai(chunk)
    case Anthropic => adapters.anthropic(chunk)
    case GoogleTranslate => adapters.google(chunk)
  }

  /**
   The text kept from one reply. A thrown fault passes through unchanged;
   OpenAI's missing content reads as the empty text, while Claude's missing
   content and Google's missing or empty text are errors.
   */
  function ReadReply(p: Provider, reply: Reply): (r: Result<string>)
    ensures reply.Failure? ==> r == Failure(reply.fault)
    ensures r.Success? ==> reply.Success? && (reply.value.Some? ==> r.value == reply.value.value)
    ensures r.Success? && reply.value.None? ==> p == OpenAI && r.value == ""
    ensures p == OpenAI ==> (r.Success? <==> reply.Success?)
    ensures p == GoogleTranslate && r.Success? ==> r.value != ""
  {
    match reply
    case Failure(f) => Failure(f)
    case Success(content) =>
      match p
      case OpenAI => Success(if content.Some? then content.value else "")
      case Anthropic =>
        if content.None? then Failure(Error("Unexpected response format from Claude API"))
        else Success(content.value)
      case GoogleTranslate =>
        if content.None? || content.value == "" then Failure(Error("No translation received from Google Translate"))
        else Success(content.value)
  }

  /** The outcome of the loop body for one chunk. */
  function ChunkResult(p: Provider, s: CallSettings, parse: string -> Json, adapters: Adapters, chunk: string): Result<string>
  {
    match GoogleClientFault(p, s, parse)
    case Some(f) => Failure(f)
    case None => ReadReply(p, Call(p, adapters, chunk))
  }

  /** Whether the loop body reaches the provider (it does unless the Google key text fails to parse). */
  predicate Reaches(p: Provider, s: CallSettings, parse: string -> Json)
  {
    GoogleClientFault(p, s, parse).None?
  }

  /** The chunk loop: translated texts so far and the chunks sent to the provider, in order. */
  datatype Progress = Progress(result: Result<seq<string>>, calls: seq<string>)

  /**
   `for (const chunk of chunks)`: chunks are handled strictly in order and the
   first failing chunk ends the loop with its fault. On success every chunk
   was sent exactly once and the texts line up with the chunks; on failure the
   chunks sent are those before the first failing chunk, plus that chunk
   itself when the provider was reached.
   */
  function TranslateChunks(p: Provider, s: CallSettings, parse: string -> Json, adapters: Adapters, chunks: seq<string>): (r: Progress)
    ensures |r.calls| <= |chunks| && r.calls == chunks[..|r.calls|]
    ensures r.result.Success? ==>
      && r.calls == chunks
      && |r.result.value| == |chunks|
      && forall i :: 0 <= i < |chunks| ==> ChunkResult(p, s, parse, adapters, chunks[i]) == Success(r.result.value[i])
    ensures r.result.Failure? ==>
      var k := if Reaches(p, s, parse) then |r.calls| - 1 else |r.calls|;
      && 0 <= k < |chunks|
      && (forall j :: 0 <= j < k ==> ChunkResult(p, s, parse, adapters, chunks[j]).Success?)
      && ChunkResult(p, s, parse, adapters, chunks[k]) == Failure(r.result.fault)
    decreases |chunks|
  {
    if |chunks| == 0 then Progress(Success([]), [])
    else
      match ChunkResult(p, s, parse, adapters, chunks[0])
      case Failure(f) => Progress(Failure(f), if Reaches(p, s, parse) then [chunks[0]] else [])
      case Success(t) =>
        var rest := TranslateChunks(p, s, parse, adapters, chunks[1..]);
        PrependChunk(chunks, rest.calls);
        Progress(if rest.result.Failure? then Failure(rest.result.fault) else Success([t] + rest.result.value),
                 [chunks[0]] + rest.calls)
  }

  /** The first chunk followed by a prefix of the others is a prefix of the chunks. */
  lemma PrependChunk(chunks: seq<string>, calls: seq<string>)
    requires |chunks| > 0 && |calls| <= |chunks| - 1 && calls == chunks[1..][..|calls|]
    ensures [chunks[0]] + calls == chunks[..|calls| + 1]
  {
  }

  /** The outcome of `translate`: the joined text or the fault it throws, and the chunks sent to the provider. */
  datatype Outcome = Outcome(result: Result<string>, calls: seq<string>)

  /**
   `translate(text, targetLang, model, settings)`. Only `model.id` is read:
   the chunk size comes from the catalog entry for that id, never from the
   caller's `chunkSize`, and the credentials are checked before the text is
   chunked or any provider call is made.
   */
  function Translate(text: string, model: TranslationModel, s: CallSettings, parse: string -> Json, adapters: Adapters): (r: Outcome)
    ensures SelectProvider(model.id, s).Failure? ==> r == Outcome(Failure(SelectProvider(model.id, s).fault), [])
    ensures r.result.Success? ==> SelectProvider(model.id, s).Success?
    ensures SelectProvider(model.id, s).Success? ==>
      && GetChunkSize(model.id).Success?
      && var chunks := SplitTextIntoChunks(text, GetChunkSize(model.id).value);
         && |r.calls| <= |chunks| && r.calls == chunks[..|r.calls|]
         && (r.result.Success? ==> r.calls == chunks)
    ensures SelectProvider(model.id, s).Success? && r.result.Failure? ==>
      var run := TranslateChunks(SelectProvider(model.id, s).value, s, parse, adapters,
                                 SplitTextIntoChunks(text, GetChunkSize(model.id).value));
      run.result.Failure? && r == Outcome(Failure(run.result.fault), run.calls)
  {
    match SelectProvider(model.id, s)
    case Failure(f) => Outcome(Failure(f), [])
    case Success(p) =>
      KnownProviderHasChunkSize(model.id, s);
      match GetChunkSize(model.id)
      case Failure(f) => Outcome(Failure(f), [])
      case Success(size) =>
        var chunks := SplitTextIntoChunks(text, size);
        var run := TranslateChunks(p, s, parse, adapters, chunks);
        match run.result
        case Failure(f) => Outcome(Failure(f), run.calls)
        case Success(texts) => Outcome(Success(Join(texts, "\n\n")), run.calls)
  }

  /** Every id the credential switch accepts is in the catalog, so the `Unknown model` error cannot occur. */
  lemma KnownProviderHasChunkSize(id: string, s: CallSettings)
    requires SelectProvider(id, s).Success?
    ensures GetChunkSize(id).Success? && GetChunkSize(id).value > 0
  {
    ModelCatalog();
  }

  /**
   On success the result is the per-chunk texts, each exactly what that
   chunk's reply yields, joined by a blank line in chunk order.
   */
  lemma TranslateJoinsChunkTexts(text: string, model: TranslationModel, s: CallSettings, parse: string -> Json, adapters: Adapters)
    requires Translate(text, model, s, parse, adapters).result.Success?
    ensures var r := Translate(text, model, s, parse, adapters);
      exists p, texts :: SelectProvider(model.id, s) == Success(p)
        && |texts| == |r.calls|
        && (forall i :: 0 <= i < |texts| ==> ChunkResult(p, s, parse, adapters, r.calls[i]) == Success(texts[i]))
        && r.result.value == Join(texts, "\n\n")
  {
    var p := SelectProvider(model.id, s).value;
    KnownProviderHasChunkSize(model.id, s);
    var chunks := SplitTextIntoChunks(text, GetChunkSize(model.id).value);
    var run := TranslateChunks(p, s, parse, adapters, chunks);
    assert run.result.Success?;
  }

  /** Two models with the same id translate identically: name and chunk size sent by the caller are ignored. */
  lemma OnlyModelIdMatters(text: string, m1: TranslationModel, m2: TranslationModel, s: CallSettings, parse: string -> Json, adapters: Adapters)
    requires m1.id == m2.id
    ensures Translate(text, m1, s, parse, adapters) == Translate(text, m2, s, parse, adapters)
  {
  }

  /** A text that yields no chunks translates to the empty text once the credentials pass, without any call. */
  lemma NoChunksNoCalls(text: string, model: TranslationModel, s: CallSettings, parse: string -> Json, adapters: Adapters)
    requires SelectProvider(model.id, s).Success?
    requires forall i :: 0 <= i < |Paragraphs(text)| ==> Paragraphs(text)[i] == ""
    ensures Translate(text, model, s, parse, adapters) == Outcome(Success(""), [])
  {
    KnownProviderHasChunkSize(model.id, s);
    NoChunksIffNoParagraphText(text, GetChunkSize(model.id).value);
  }

  /**
   A blank text is not refused here: a non-empty whitespace paragraph
   becomes one empty chunk, which is sent to the provider.
   */
  lemma BlankTextIsSent(text: string, model: TranslationModel, s: CallSettings, parse: string -> Json, adapters: Adapters)
    requires text != "" && AllWhitespace(text) && HasNoBreak(text)
    requires SelectProvider(model.id, s).Success? && Reaches(SelectProvider(model.id, s).value, s, parse)
    ensures Translate(text, model, s, parse, adapters).calls == [""]
  {
    KnownProviderHasChunkSize(model.id, s);
    WhitespaceParagraphOneEmptyChunk(text, GetChunkSize(model.id).value);
  }
}

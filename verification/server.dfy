/**
 The two handlers of server/index.ts that hold logic: `POST /api/translate`,
 which checks the request and the stored Google key before calling
 `translate`, and `POST /api/settings`, which merges a partial update into
 the stored settings, validating a new Google key. Reading and writing
 settings.json are parameters; a thrown error becomes status 500 with the
 error's message.
 */
module Server {
  import opened Base
  import opened Text
  import opened Catalog
  import opened Credentials
  import opened Translation

  /** The server's in-memory `settings`, mirrored in settings.json. */
  datatype StoredSettings = StoredSettings(openaiApiKey: string, anthropicApiKey: string, googleServiceAccount: string)

  /** A handler's answer: the JSON body, or status 500 with `{error: message}`. */
  datatype Response<T> = Ok(body: T) | Fail(status: int, error: string)

  /** `error instanceof Error ? error.message : fallback`. */
  function ErrorText(f: Fault, fallback: string): (r: string)
    ensures f.Error? ==> r == f.message
    ensures f.NonError? ==> r == fallback
  {
    match f
    case Error(m) => m
    case NonError => fallback
  }

  function Failed<T>(f: Fault, fallback: string): (r: Response<T>)
    ensures r.Fail? && r.status == 500
  {
    Fail(500, ErrorText(f, fallback))
  }

  /** The body of `POST /api/translate`. */
  datatype TranslateRequest = TranslateRequest(text: string, target: Language, model: TranslationModel)

  /**
   The Google arguments the handler passes to `translate`: for the Google
   model, the project id and key object from the stored key, which must be
   set, parse, and carry the three required fields (a missing field, and
   the TypeError a `null` key throws on its first field read, are both
   reported as an invalid key, since the inner error is caught and
   replaced); for any other model, empty values.
   */
  function GoogleArguments(id: string, stored: StoredSettings, parse: string -> Json): (r: Result<(string, GoogleCredentials)>)
    ensures id != "google" ==> r == Success(("", Raw("")))
    ensures id == "google" && stored.googleServiceAccount == "" ==>
      r == Failure(Error("settings.errors.googleServiceAccountNotSet"))
    ensures id == "google" && stored.googleServiceAccount != "" ==>
      (r.Success? <==> parse(stored.googleServiceAccount).Parsed? && HasRequiredFields(parse(stored.googleServiceAccount).account))
    ensures id == "google" && stored.googleServiceAccount != "" && r.Failure? ==>
      r.fault == Error("settings.errors.invalidGoogleKey")
    ensures id == "google" && r.Success? ==>
      r.value == (parse(stored.googleServiceAccount).account.projectId, Object(parse(stored.googleServiceAccount).account))
  {
    if id != "google" then Success(("", Raw("")))
    else if stored.googleServiceAccount == "" then Failure(Error("settings.errors.googleServiceAccountNotSet"))
    else
      match parse(stored.googleServiceAccount)
      case Unparsable(_) => Failure(Error("settings.errors.invalidGoogleKey"))
      case Null => Failure(Error("settings.errors.invalidGoogleKey"))
      case Parsed(a) =>
        if !HasRequiredFields(a) then Failure(Error("settings.errors.invalidGoogleKey"))
        else Success((a.projectId, Object(a)))
  }

  /** The response of a handler and the chunks sent to the provider while computing it. */
  datatype Handled = Handled(response: Response<string>, calls: seq<string>)

  function CallSettingsFor(stored: StoredSettings, google: (string, GoogleCredentials)): CallSettings
  {
    CallSettings(stored.openaiApiKey, stored.anthropicApiKey, google.0, google.1)
  }

  /**
   `POST /api/translate`. An empty text is refused before anything else; the
   stored Google key is checked only for the Google model; then the text is
   translated with the stored keys and the provider calls bound to the
   requested target language.
   */
  function HandleTranslate(req: TranslateRequest, stored: StoredSettings, parse: string -> Json,
                           adapters: Language -> Adapters): (r: Handled)
    ensures req.text == "" ==> r == Handled(Fail(500, "translation.errors.emptyText"), [])
    ensures req.text != "" && GoogleArguments(req.model.id, stored, parse).Failure? ==>
      r == Handled(Fail(500, GoogleArguments(req.model.id, stored, parse).fault.message), [])
    ensures req.text != "" && GoogleArguments(req.model.id, stored, parse).Success? ==>
      var out := Translate(req.text, req.model, CallSettingsFor(stored, GoogleArguments(req.model.id, stored, parse).value),
                           parse, adapters(req.target));
      && r.calls == out.calls
      && (out.result.Success? ==> r.response == Ok(out.result.value))
      && (out.result.Failure? ==> r.response == Fail(500, ErrorText(out.result.fault, "translation.errors.unknown")))
  {
    if req.text == "" then Handled(Fail(500, "translation.errors.emptyText"), [])
    else
      match GoogleArguments(req.model.id, stored, parse)
      case Failure(f) => Handled(Failed(f, "translation.errors.unknown"), [])
      case Success(google) =>
        var out := Translate(req.text, req.model, CallSettingsFor(stored, google), parse, adapters(req.target));
        match out.result
        case Success(t) => Handled(Ok(t), out.calls)
        case Failure(f) => Handled(Failed(f, "translation.errors.unknown"), out.calls)
  }

  /**
   A Google key the handler lets through always passes the checks inside
   `translate`: the configuration is present and the key is already an
   object, so it is never parsed again there.
   */
  lemma ServerGoogleKeyPassesTranslateChecks(stored: StoredSettings, parse: string -> Json)
    requires GoogleArguments("google", stored, parse).Success?
    ensures var s := CallSettingsFor(stored, GoogleArguments("google", stored, parse).value);
      SelectProvider("google", s) == Success(GoogleTranslate) && Reaches(GoogleTranslate, s, parse)
  {
  }

  /** For any other model the stored Google key is never read. */
  lemma GoogleKeyIgnoredForOtherModels(req: TranslateRequest, stored: StoredSettings, key: string,
                                       parse: string -> Json, adapters: Language -> Adapters)
    requires req.model.id != "google"
    ensures HandleTranslate(req, stored, parse, adapters)
            == HandleTranslate(req, stored.(googleServiceAccount := key), parse, adapters)
  {
  }

  /** The body of `POST /api/settings`: each field may be absent. */
  datatype SettingsUpdate = SettingsUpdate(openaiKey: Option<string>, anthropicKey: Option<string>, googleKey: Option<string>)

  /**
   The stored form of a new Google key: a blank key clears the account
   without being parsed; any other key is stored as given once it parses and
   has the three required fields. Only the missing-fields error survives the
   catch; a syntax error and the TypeError of a `null` key become the
   invalid-key error.
   */
  function GoogleKeyUpdate(key: string, parse: string -> Json): (r: Result<string>)
    ensures Trim(key) == "" ==> r == Success("")
    ensures Trim(key) != "" && (parse(key).Unparsable? || parse(key).Null?) ==>
      r == Failure(Error("settings.errors.invalidGoogleKey"))
    ensures Trim(key) != "" && parse(key).Parsed? && !HasRequiredFields(parse(key).account) ==>
      r == Failure(Error("settings.errors.missingGoogleFields"))
    ensures Trim(key) != "" && r.Success? ==> r.value == key && parse(key).Parsed? && HasRequiredFields(parse(key).account)
  {
    if Trim(key) == "" then Success("")
    else
      match parse(key)
      case Unparsable(_) => Failure(Error("settings.errors.invalidGoogleKey"))
      case Null => Failure(Error("settings.errors.invalidGoogleKey"))
      case Parsed(a) =>
        if !HasRequiredFields(a) then Failure(Error("settings.errors.missingGoogleFields"))
        else Success(key)
  }

  function Override(field: Option<string>, current: string): string
  {
    if field.Some? then field.value else current
  }

  /** The settings after the update: present fields replace stored ones, absent ones are kept. */
  function Merged(body: SettingsUpdate, stored: StoredSettings, parse: string -> Json): (r: Result<StoredSettings>)
    ensures r.Success? ==> r.value.openaiApiKey == Override(body.openaiKey, stored.openaiApiKey)
    ensures r.Success? ==> r.value.anthropicApiKey == Override(body.anthropicKey, stored.anthropicApiKey)
    ensures body.googleKey.None? ==> r.Success? && r.value.googleServiceAccount == stored.googleServiceAccount
    ensures body.googleKey.Some? ==>
      match GoogleKeyUpdate(body.googleKey.value, parse)
      case Failure(f) => r == Failure(f)
      case Success(k) => r.Success? && r.value.googleServiceAccount == k
  {
    var next := StoredSettings(Override(body.openaiKey, stored.openaiApiKey),
                               Override(body.anthropicKey, stored.anthropicApiKey),
                               stored.googleServiceAccount);
    if body.googleKey.None? then Success(next)
    else
      match GoogleKeyUpdate(body.googleKey.value, parse)
      case Failure(f) => Failure(f)
      case Success(k) => Success(next.(googleServiceAccount := k))
  }

  /** The response and the in-memory settings afterwards. */
  datatype SettingsOutcome = SettingsOutcome(response: Response<StoredSettings>, settings: StoredSettings)

  /**
   `POST /api/settings`. The merged settings are written first and replace
   the in-memory ones only when the write succeeds; on any error the
   in-memory settings are unchanged.
   */
  function UpdateSettings(body: SettingsUpdate, stored: StoredSettings, parse: string -> Json, writeOk: bool): (r: SettingsOutcome)
    ensures r.response.Fail? ==> r.settings == stored && r.response.status == 500
    ensures r.response.Ok? <==> writeOk && Merged(body, stored, parse).Success?
    ensures r.response.Ok? ==> r.settings == r.response.body == Merged(body, stored, parse).value
    ensures Merged(body, stored, parse).Failure? ==>
      r.response == Fail(500, ErrorText(Merged(body, stored, parse).fault, "settings.errors.failedToUpdateSettings"))
    ensures Merged(body, stored, parse).Success? && !writeOk ==> r.response == Fail(500, "settings.errors.saveFailed")
  {
    match Merged(body, stored, parse)
    case Failure(f) => SettingsOutcome(Failed(f, "settings.errors.failedToUpdateSettings"), stored)
    case Success(next) =>
      if !writeOk then SettingsOutcome(Fail(500, "settings.errors.saveFailed"), stored)
      else SettingsOutcome(Ok(next), next)
  }

  /** Which error key an invalid Google key produces: unparsable text and missing fields are told apart. */
  lemma SettingsGoogleKeyErrors(body: SettingsUpdate, stored: StoredSettings, parse: string -> Json, writeOk: bool)
    requires body.googleKey.Some? && Trim(body.googleKey.value) != ""
    ensures var r := UpdateSettings(body, stored, parse, writeOk);
            var j := parse(body.googleKey.value);
      && (j.Unparsable? || j.Null? ==> r == SettingsOutcome(Fail(500, "settings.errors.invalidGoogleKey"), stored))
      && (j.Parsed? && !HasRequiredFields(j.account) ==>
            r == SettingsOutcome(Fail(500, "settings.errors.missingGoogleFields"), stored))
  {
  }

  /** Repeating a successful update changes nothing more. */
  lemma UpdateIdempotent(body: SettingsUpdate, stored: StoredSettings, parse: string -> Json)
    requires UpdateSettings(body, stored, parse, true).response.Ok?
    ensures var once := UpdateSettings(body, stored, parse, true).settings;
      UpdateSettings(body, once, parse, true) == SettingsOutcome(Ok(once), once)
  {
  }

  /** The stored Google key is unset, or parses with the three required fields. */
  predicate StoredKeyValid(stored: StoredSettings, parse: string -> Json)
  {
    stored.googleServiceAccount == ""
    || (parse(stored.googleServiceAccount).Parsed? && HasRequiredFields(parse(stored.googleServiceAccount).account))
  }

  /** The settings handler only ever stores a valid Google key, whatever the request and the write. */
  lemma UpdateKeepsKeyValid(body: SettingsUpdate, stored: StoredSettings, parse: string -> Json, writeOk: bool)
    requires StoredKeyValid(stored, parse)
    ensures StoredKeyValid(UpdateSettings(body, stored, parse, writeOk).settings, parse)
  {
  }

  /**
   A Google key stored by the settings handler is accepted by the translate
   handler: the Google model gets past its key checks exactly when a key is
   set.
   */
  lemma StoredKeyReachesTranslate(stored: StoredSettings, parse: string -> Json)
    requires StoredKeyValid(stored, parse)
    ensures GoogleArguments("google", stored, parse).Success? <==> stored.googleServiceAccount != ""
  {
  }

  /** An absent or blank Google key is never parsed: the outcome does not depend on the parser. */
  lemma BlankGoogleKeyNotParsed(body: SettingsUpdate, stored: StoredSettings, parse1: string -> Json,
                                parse2: string -> Json, writeOk: bool)
    requires body.googleKey.None? || Trim(body.googleKey.value) == ""
    ensures UpdateSettings(body, stored, parse1, writeOk) == UpdateSettings(body, stored, parse2, writeOk)
  {
  }
}

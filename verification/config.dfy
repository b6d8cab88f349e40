/**
 The settings store of server/services/config.ts (`ConfigurationService`):
 `saveSettings` validates a non-blank Google key, derives the project id from
 it, replaces the stored record and writes it to settings.json;
 `getSettings` returns the stored record. The file write is a parameter: the
 fault it throws, if any.
 */
module Config {
  import opened Base
  import opened Text
  import opened Credentials

  datatype TranslationSettings = TranslationSettings(
    openaiKey: string,
    anthropicKey: string,
    googleProjectId: string,
    googleCredentials: string)

  /** The record a fresh service holds before anything is loaded or saved. */
  const EmptySettings := TranslationSettings("", "", "", "")

  const InvalidKeyPrefix := "Invalid Google service account key format: "

  const MissingFieldsMessage := "Missing required fields in Google service account key"

  /** The message of the TypeError V8 throws when `project_id` is read from `null`. */
  const NullFieldMessage := "Cannot read properties of null (reading 'project_id')"

  /** The Google key is present and not blank, so it must be validated. */
  predicate KeyGiven(s: TranslationSettings)
  {
    s.googleCredentials != "" && Trim(s.googleCredentials) != ""
  }

  /**
   The validation step of `saveSettings`: a record without a key passes
   untouched; a key must parse and carry the three required fields, and then
   its project id replaces the record's; any failure is reported with the
   invalid-key prefix followed by the cause. A key that parses to `null`
   fails on the first field read, with the engine's TypeError message.
   */
  function Validate(s: TranslationSettings, parse: string -> Json): (r: Result<TranslationSettings>)
    ensures !KeyGiven(s) ==> r == Success(s)
    ensures KeyGiven(s) ==>
      (r.Success? <==> parse(s.googleCredentials).Parsed? && HasRequiredFields(parse(s.googleCredentials).account))
    ensures KeyGiven(s) && r.Success? ==> r.value == s.(googleProjectId := parse(s.googleCredentials).account.projectId)
    ensures r.Failure? ==> r.fault.Error? && InvalidKeyPrefix <= r.fault.message
    ensures KeyGiven(s) && parse(s.googleCredentials).Unparsable? ==>
      r == Failure(Error(InvalidKeyPrefix + parse(s.googleCredentials).message))
    ensures KeyGiven(s) && parse(s.googleCredentials).Null? ==>
      r == Failure(Error(InvalidKeyPrefix + NullFieldMessage))
    ensures KeyGiven(s) && parse(s.googleCredentials).Parsed? && !HasRequiredFields(parse(s.googleCredentials).account) ==>
      r == Failure(Error(InvalidKeyPrefix + MissingFieldsMessage))
  {
    if !KeyGiven(s) then Success(s)
    else
      match parse(s.googleCredentials)
      case Unparsable(m) => Failure(Error(InvalidKeyPrefix + m))
      case Null => Failure(Error(InvalidKeyPrefix + NullFieldMessage))
      case Parsed(a) =>
        if !HasRequiredFields(a) then Failure(Error(InvalidKeyPrefix + MissingFieldsMessage))
        else Success(s.(googleProjectId := a.projectId))
  }

  /**
   What `saveSettings` leaves behind: the fault it rejects with, if any, the
   stored record, and the caller's settings object as it now reads (the code
   writes the project id into that object and stores the object itself).
   */
  datatype Saved = Saved(fault: Option<Fault>, store: TranslationSettings, argument: TranslationSettings)

  /**
   `saveSettings(settings)`. A record that fails validation leaves the store
   and the caller's object as they were. A valid one is the caller's object
   with the key's project id written into it; that object replaces the store
   before the file is written, so the store is replaced even when the write
   then fails.
   */
  function SaveSettings(store: TranslationSettings, incoming: TranslationSettings, parse: string -> Json,
                        writeFault: Option<Fault>): (r: Saved)
    ensures Validate(incoming, parse).Failure? ==> r == Saved(Some(Validate(incoming, parse).fault), store, incoming)
    ensures Validate(incoming, parse).Success? ==>
      r == Saved(writeFault, Validate(incoming, parse).value, Validate(incoming, parse).value)
    ensures r.fault.None? ==> writeFault.None? && r.argument == r.store
  {
    match Validate(incoming, parse)
    case Failure(f) => Saved(Some(f), store, incoming)
    case Success(s) => Saved(writeFault, s, s)
  }

  /** `getSettings()`. */
  function GetSettings(store: TranslationSettings): TranslationSettings
  {
    store
  }

  /**
   The stored record is consistent: either it holds no Google key, or its key
   parses with all required fields and the project id is the key's.
   */
  predicate Consistent(s: TranslationSettings, parse: string -> Json)
  {
    KeyGiven(s) ==>
      && parse(s.googleCredentials).Parsed?
      && HasRequiredFields(parse(s.googleCredentials).account)
      && s.googleProjectId == parse(s.googleCredentials).account.projectId
  }

  /** Saving keeps the store consistent, whatever the outcome. */
  lemma SavePreservesConsistency(store: TranslationSettings, incoming: TranslationSettings, parse: string -> Json,
                                 writeFault: Option<Fault>)
    requires Consistent(store, parse)
    ensures Consistent(SaveSettings(store, incoming, parse, writeFault).store, parse)
  {
  }

  /**
   After a save that resolves, `getSettings` returns the saved record, with
   the project id taken from the key when one was given, and the other
   fields exactly as saved.
   */
  lemma SaveThenGet(store: TranslationSettings, incoming: TranslationSettings, parse: string -> Json)
    requires SaveSettings(store, incoming, parse, None).fault.None?
    ensures var got := GetSettings(SaveSettings(store, incoming, parse, None).store);
      && got.openaiKey == incoming.openaiKey
      && got.anthropicKey == incoming.anthropicKey
      && got.googleCredentials == incoming.googleCredentials
      && got.googleProjectId == (if KeyGiven(incoming) then parse(incoming.googleCredentials).account.projectId
                                 else incoming.googleProjectId)
  {
  }

  /** Saving the record just stored again changes nothing. */
  lemma SaveIdempotent(store: TranslationSettings, incoming: TranslationSettings, parse: string -> Json)
    requires SaveSettings(store, incoming, parse, None).fault.None?
    ensures var once := SaveSettings(store, incoming, parse, None).store;
      SaveSettings(once, once, parse, None) == Saved(None, once, once)
  {
  }

  /** A blank key is never parsed: the outcome does not depend on the parser. */
  lemma BlankKeySkipsValidation(store: TranslationSettings, incoming: TranslationSettings, parse1: string -> Json,
                                parse2: string -> Json, writeFault: Option<Fault>)
    requires Trim(incoming.googleCredentials) == ""
    ensures SaveSettings(store, incoming, parse1, writeFault) == Saved(writeFault, incoming, incoming)
    ensures SaveSettings(store, incoming, parse1, writeFault) == SaveSettings(store, incoming, parse2, writeFault)
  {
  }
}

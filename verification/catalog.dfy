/**
 The static catalog shared by client and server: the translation models with
 their chunk sizes and the languages offered (src/types.ts).
 */
module Catalog {
  import opened Base

  datatype Language = Language(code: string, name: string)

  /** A model as the client sends it; only `id` is trusted by the server. */
  datatype TranslationModel = TranslationModel(id: string, name: string, chunkSize: int)

  const Languages: seq<Language> := [
    Language("en", "English"),
    Language("es", "Spanish"),
    Language("fr", "French"),
    Language("de", "German"),
    Language("it", "Italian"),
    Language("pt-PT", "Portuguese (European)")
  ]

  /** The interface is offered in exactly the translation target languages. */
  const InterfaceLanguages: seq<Language> := Languages

  const Models: seq<TranslationModel> := [
    TranslationModel("gpt4", "GPT-4o", 1000),
    TranslationModel("claude", "Claude", 1000),
    TranslationModel("google", "Google Translate", 20000)
  ]

  predicate DistinctIds(models: seq<TranslationModel>)
  {
    forall i, j :: 0 <= i < j < |models| ==> models[i].id != models[j].id
  }

  predicate DistinctCodes(langs: seq<Language>)
  {
    forall i, j :: 0 <= i < j < |langs| ==> langs[i].code != langs[j].code
  }

  /** `models.find(m => m.id === id)`: the first entry carrying the id, if any. */
  function FindModel(models: seq<TranslationModel>, id: string): (r: Option<TranslationModel>)
    ensures r.None? <==> forall i :: 0 <= i < |models| ==> models[i].id != id
    ensures r.Some? ==> exists k :: 0 <= k < |models| && models[k] == r.value && r.value.id == id
                                    && forall j :: 0 <= j < k ==> models[j].id != id
    decreases |models|
  {
    if |models| == 0 then None
    else if models[0].id == id then Some(models[0])
    else
      var r := FindModel(models[1..], id);
      if r.Some? then
        var k :| 0 <= k < |models[1..]| && models[1..][k] == r.value && r.value.id == id
                 && forall j :: 0 <= j < k ==> models[1..][j].id != id;
        assert models[k + 1] == r.value;
        r
      else r
  }

  /** With distinct ids the lookup returns the one entry that carries the id. */
  lemma {:induction false} FindModelOfEntry(models: seq<TranslationModel>, k: nat)
    requires DistinctIds(models) && k < |models|
    ensures FindModel(models, models[k].id) == Some(models[k])
  {
    var r := FindModel(models, models[k].id);
    var k' :| 0 <= k' < |models| && models[k'] == r.value && r.value.id == models[k].id
              && forall j :: 0 <= j < k' ==> models[j].id != models[k].id;
    if k' < k {
      assert models[k'].id == models[k].id;
    }
  }

  /**
   `getChunkSize(modelId)`: the catalog chunk size of the model, or an
   `Unknown model` error for an id the catalog does not list.
   */
  function GetChunkSize(id: string): (r: Result<int>)
    ensures r.Success? <==> exists k :: 0 <= k < |Models| && Models[k].id == id
    ensures r.Success? ==> exists k :: 0 <= k < |Models| && Models[k].id == id && r.value == Models[k].chunkSize
    ensures r.Failure? ==> r.fault == Error("Unknown model: " + id)
  {
    match FindModel(Models, id)
    case None => Failure(Error("Unknown model: " + id))
    case Some(m) => Success(m.chunkSize)
  }

  /** The catalog lists exactly three models, with distinct ids and positive chunk sizes. */
  lemma ModelCatalog()
    ensures |Models| == 3 && DistinctIds(Models)
    ensures forall i :: 0 <= i < |Models| ==> Models[i].chunkSize > 0
    ensures GetChunkSize("gpt4") == Success(1000)
    ensures GetChunkSize("claude") == Success(1000)
    ensures GetChunkSize("google") == Success(20000)
  {
    FindModelOfEntry(Models, 0);
    FindModelOfEntry(Models, 1);
    FindModelOfEntry(Models, 2);
  }

  /** Each catalog entry's id looks up that entry's own chunk size. */
  lemma ChunkSizeOfEntry(k: nat)
    requires k < |Models|
    ensures GetChunkSize(Models[k].id) == Success(Models[k].chunkSize)
  {
    ModelCatalog();
    FindModelOfEntry(Models, k);
  }

  /** Six target languages with distinct codes, and the interface offers the same list. */
  lemma LanguageCatalog()
    ensures |Languages| == 6 && DistinctCodes(Languages)
    ensures InterfaceLanguages == Languages
  {
  }
}

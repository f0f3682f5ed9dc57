/** The model picker (`ModelSelectionView`): fetching the server's model
    list into the sheet's loading / error / list state, and choosing a
    model for the chat. */
module ModelSelection {
  import opened Wrappers
  import opened Seqs
  import opened Models
  import opened Network
  import opened ChatDetail

  const ModelChangedPrefix: string := "Model changed to: "
  const ErrorPrefix: string := "Error: "

  /** The sheet's state: the fetched list, the spinner flag, and the last
      error text. */
  datatype Picker = Picker(models: seq<ModelInfo>, loading: bool, errorMessage: Option<string>)

  /** A freshly presented sheet. */
  const InitialPicker: Picker := Picker([], false, None)

  /** What the sheet shows. */
  datatype Screen = Spinner | ErrorText(message: string) | ModelList(models: seq<ModelInfo>)

  function Display(p: Picker): (s: Screen)
    ensures s.Spinner? <==> p.loading
    ensures s.ErrorText? <==> !p.loading && p.errorMessage.Some?
    ensures s.ErrorText? ==> s.message == ErrorPrefix + p.errorMessage.value
    ensures s.ModelList? ==> s.models == p.models
  {
    if p.loading then Spinner
    else if p.errorMessage.Some? then ErrorText(ErrorPrefix + p.errorMessage.value)
    else ModelList(p.models)
  }

  /** `loadModels`: the spinner goes on, then the fetch outcome is applied.
      `describe` stands for `error.localizedDescription`. */
  function LoadModels(
    p: Picker, baseURL: string,
    get: string -> Option<string>, decode: string -> Option<ModelsResponse>,
    describe: NetError -> string): (r: Picker)
    ensures !r.loading
    ensures var fetched := FetchModels(baseURL, get, decode);
      && (fetched.Success? ==> r.models == fetched.value && r.errorMessage == p.errorMessage)
      && (fetched.Failure? ==> r.models == p.models && r.errorMessage == Some(describe(fetched.error)))
  {
    var started := p.(loading := true);
    match FetchModels(baseURL, get, decode)
    case Success(models) => started.(models := models, loading := false)
    case Failure(e) => started.(errorMessage := Some(describe(e)), loading := false)
  }

  /** A model row's action: the chat's model is set and a note records it. */
  function ChooseModel(st: Store, chatID: Uuid, modelId: string, noteId: Uuid, now: Time): (r: Store)
    ensures r.messages == st.messages + [ChangeNote(noteId, chatID, ModelChangedPrefix + modelId, now)]
    ensures r.prompts == st.prompts && r.settings == st.settings
    ensures OtherChatsKept(st, r, chatID)
  {
    OtherChatsAfterUpdate(st, chatID, WithModel(Some(modelId)));
    InsertMessage(UpdateChat(st, chatID, WithModel(Some(modelId))), ChangeNote(noteId, chatID, ModelChangedPrefix + modelId, now))
  }

  // ---------------------------------------------------------------------

  /** A freshly presented sheet shows the fetched list when the fetch
      succeeds and the error otherwise. */
  lemma FirstLoad(
    baseURL: string, get: string -> Option<string>, decode: string -> Option<ModelsResponse>,
    describe: NetError -> string)
    ensures var fetched := FetchModels(baseURL, get, decode);
      var screen := Display(LoadModels(InitialPicker, baseURL, get, decode, describe));
      && (fetched.Success? <==> screen.ModelList?)
      && (fetched.Success? ==> screen == ModelList(fetched.value))
      && (fetched.Failure? ==> screen == ErrorText(ErrorPrefix + describe(fetched.error)))
  {
  }

  /** The error text is never cleared: once a load has failed, a later
      successful load still shows the error instead of the list. */
  lemma StaleErrorPersists(
    p: Picker, baseURL: string, get: string -> Option<string>, decode: string -> Option<ModelsResponse>,
    describe: NetError -> string)
    requires p.errorMessage.Some?
    ensures var screen := Display(LoadModels(p, baseURL, get, decode, describe));
      && screen.ErrorText?
      && (FetchModels(baseURL, get, decode).Success? ==> screen == ErrorText(ErrorPrefix + p.errorMessage.value))
  {
  }

  /** Choosing a model sets only the chat's model, appends one note that is
      never sent, keeps the store well-formed, and leaves the prompt and the
      active message as they were; the chat can then send exactly when its
      prompt resolves and the id is not empty. */
  lemma ChooseModelSpec(st: Store, chatID: Uuid, modelId: string, noteId: Uuid, now: Time)
    requires Valid(st) && HasChat(st, chatID) && FreshMessageId(st, noteId)
    ensures var r := ChooseModel(st, chatID, modelId, noteId, now);
      && Valid(r)
      && HasChat(r, chatID)
      && ChatOf(r, chatID) == ChatOf(st, chatID).(modelID := Some(modelId))
      && OtherChatsKept(st, r, chatID)
      && SelectedSystemPrompt(r, chatID) == SelectedSystemPrompt(st, chatID)
      && SystemPromptMessage(r, chatID) == SystemPromptMessage(st, chatID)
      && (CanSend(r, chatID) <==> SelectedSystemPrompt(st, chatID).Some? && modelId != "")
  {
    var withModel := UpdateChat(st, chatID, WithModel(Some(modelId)));
    var note := ChangeNote(noteId, chatID, ModelChangedPrefix + modelId, now);
    var r := ChooseModel(st, chatID, modelId, noteId, now);
    ValidAfterUpdateChat(st, chatID, WithModel(Some(modelId)));
    ChatOfUpdate(st, chatID, WithModel(Some(modelId)), chatID);
    ValidAfterInsert(withModel, note);
    AppendNoteKeepsActive(withModel, chatID, note);
    SelectionUnchanged(withModel, r, chatID);
    ModelDoesNotSelect(st, withModel, chatID);
  }

  /** The selected prompt depends on the chat's prompt id and the catalog,
      not on its model. */
  lemma ModelDoesNotSelect(st: Store, r: Store, chatID: Uuid)
    requires HasChat(st, chatID) && HasChat(r, chatID) && r.prompts == st.prompts
    requires ChatOf(r, chatID).systemPromptID == ChatOf(st, chatID).systemPromptID
    ensures SelectedSystemPrompt(r, chatID) == SelectedSystemPrompt(st, chatID)
  {
  }
}

/** The prompt picker (`SystemPromptSelectionView`): the visible prompts,
    newest first, a "Clear System Prompt" row, and a Close button. Clearing
    or choosing writes the chat's prompt id and then runs the chat's
    `applySystemPromptChange`; Close does neither. */
module PromptSelection {
  import opened Wrappers
  import opened Seqs
  import opened Models
  import opened ChatDetail

  /** The three ways the sheet is left. */
  datatype PromptChoice = ClearPrompt | Pick(prompt: SystemPrompt) | Dismiss

  /** The store after the sheet closes. `activeId` and `noteId` are the
      identities `applySystemPromptChange` gives the messages it creates. */
  function ChoosePrompt(st: Store, chatID: Uuid, choice: PromptChoice, activeId: Uuid, noteId: Uuid, now: Time): (r: Store)
    requires HasChat(st, chatID)
    ensures r.prompts == st.prompts && r.settings == st.settings
    ensures OtherChatsKept(st, r, chatID)
  {
    match choice
    case Dismiss => st
    case ClearPrompt =>
      ChatOfUpdate(st, chatID, WithPromptID(None), chatID);
      OtherChatsAfterUpdate(st, chatID, WithPromptID(None));
      ApplySystemPromptChange(SetPromptID(st, chatID, None), chatID, activeId, noteId, now)
    case Pick(p) =>
      ChatOfUpdate(st, chatID, WithPromptID(Some(p.id)), chatID);
      OtherChatsAfterUpdate(st, chatID, WithPromptID(Some(p.id)));
      ApplySystemPromptChange(SetPromptID(st, chatID, Some(p.id)), chatID, activeId, noteId, now)
  }

  // ---------------------------------------------------------------------

  /** Close leaves everything as it was. */
  lemma DismissKeepsStore(st: Store, chatID: Uuid, activeId: Uuid, noteId: Uuid, now: Time)
    requires HasChat(st, chatID)
    ensures ChoosePrompt(st, chatID, Dismiss, activeId, noteId, now) == st
  {
  }

  /** Clearing the prompt and deleting the active message commute: the
      deletion only looks at the messages. */
  lemma ClearActiveUnassigned(st: Store, chatID: Uuid)
    ensures ClearActive(SetPromptID(st, chatID, None), chatID) == SetPromptID(ClearActive(st, chatID), chatID, None)
  {
    SameMessagesSameActive(st, SetPromptID(st, chatID, None), chatID);
  }

  /** "Clear System Prompt" unassigns the prompt, deletes the active message
      and nothing else, appends a "System prompt cleared." note, and
      disables sending. The store stays well-formed and other chats are
      untouched. */
  lemma ClearPromptSpec(st: Store, chatID: Uuid, activeId: Uuid, noteId: Uuid, now: Time)
    requires Valid(st) && HasChat(st, chatID)
    requires FreshMessageId(st, activeId) && FreshMessageId(st, noteId) && activeId != noteId
    ensures var r := ChoosePrompt(st, chatID, ClearPrompt, activeId, noteId, now);
      && NoteAppended(st, r, chatID, ChangeNote(noteId, chatID, PromptClearedNote, now))
      && HasChat(r, chatID)
      && ChatOf(r, chatID) == ChatOf(st, chatID).(systemPromptID := None)
      && |ActiveIn(r.messages, chatID)| == 0
      && SystemPromptMessage(r, chatID).None?
      && !CanSend(r, chatID)
      && KeepsInactive(st, r, chatID)
      && OtherChatsKept(st, r, chatID)
      && |r.messages| == |st.messages| + 1 - (if SystemPromptMessage(st, chatID).Some? then 1 else 0)
  {
    var unassigned := SetPromptID(st, chatID, None);
    var note := ChangeNote(noteId, chatID, PromptClearedNote, now);
    ChatOfUpdate(st, chatID, WithPromptID(None), chatID);
    assert SelectedSystemPrompt(unassigned, chatID).None?;
    var cleared := ClearActive(st, chatID);
    ClearActiveSpec(st, chatID, noteId);
    ClearActiveUnassigned(st, chatID);
    var both := SetPromptID(cleared, chatID, None);
    assert ChoosePrompt(st, chatID, ClearPrompt, activeId, noteId, now) == InsertMessage(both, note);
    ValidAfterSetPromptID(cleared, chatID, None);
    AppendNote(st, both, chatID, note);
    AppendNoteKeepsActive(both, chatID, note);
  }

  /** Pointing a chat at a stored prompt keeps the store well-formed and
      makes that prompt the selected one. */
  lemma PointAt(st: Store, chatID: Uuid, p: SystemPrompt)
    requires Valid(st) && HasChat(st, chatID) && p in st.prompts
    ensures var r := SetPromptID(st, chatID, Some(p.id));
      && Valid(r)
      && HasChat(r, chatID)
      && ChatOf(r, chatID) == ChatOf(st, chatID).(systemPromptID := Some(p.id))
      && SelectedSystemPrompt(r, chatID) == Some(p)
  {
    var r := SetPromptID(st, chatID, Some(p.id));
    ChatOfUpdate(st, chatID, WithPromptID(Some(p.id)), chatID);
    ValidAfterSetPromptID(st, chatID, Some(p.id));
    PromptByIdUnique(r, p);
  }

  /** Choosing a prompt is pointing the chat at it and then running
      `applySystemPromptChange`. */
  lemma PickIsApply(st: Store, chatID: Uuid, p: SystemPrompt, activeId: Uuid, noteId: Uuid, now: Time)
    requires HasChat(st, chatID)
    ensures HasChat(SetPromptID(st, chatID, Some(p.id)), chatID)
    ensures ChoosePrompt(st, chatID, Pick(p), activeId, noteId, now)
         == ApplySystemPromptChange(SetPromptID(st, chatID, Some(p.id)), chatID, activeId, noteId, now)
  {
    ChatOfUpdate(st, chatID, WithPromptID(Some(p.id)), chatID);
  }

  /** Choosing a prompt points the chat at it and appends exactly one
      "System prompt changed to" note naming it, plus the active message
      when the chat had none. Every other message of the chat is kept, the
      store stays well-formed and other chats are untouched. */
  lemma PickPromptNotes(st: Store, chatID: Uuid, p: SystemPrompt, activeId: Uuid, noteId: Uuid, now: Time)
    requires Valid(st) && HasChat(st, chatID) && p in st.prompts
    requires FreshMessageId(st, activeId) && FreshMessageId(st, noteId) && activeId != noteId
    ensures var r := ChoosePrompt(st, chatID, Pick(p), activeId, noteId, now);
      && NoteAppended(st, r, chatID, ChangeNote(noteId, chatID, PromptChangedPrefix + p.title, now))
      && HasChat(r, chatID)
      && ChatOf(r, chatID) == ChatOf(st, chatID).(systemPromptID := Some(p.id))
      && KeepsInactive(st, r, chatID)
      && OtherChatsKept(st, r, chatID)
      && |r.messages| == |st.messages| + 1 + (if SystemPromptMessage(st, chatID).None? then 1 else 0)
  {
    var pointed := SetPromptID(st, chatID, Some(p.id));
    var r := ApplySystemPromptChange(pointed, chatID, activeId, noteId, now);
    PointAt(st, chatID, p);
    PickIsApply(st, chatID, p, activeId, noteId, now);
    SameMessagesSameActive(st, pointed, chatID);
    ApplySystemPromptChangeNotes(pointed, chatID, activeId, noteId, now);
    NoteAppendedSameMessages(st, pointed, r, chatID, ChangeNote(noteId, chatID, PromptChangedPrefix + p.title, now));
    SelectionUnchanged(pointed, r, chatID);
  }

  /** The active message is found among the messages alone. */
  lemma SameMessagesSameActive(st: Store, st2: Store, chatID: Uuid)
    requires st.messages == st2.messages
    ensures SystemPromptMessage(st2, chatID) == SystemPromptMessage(st, chatID)
  {
    assert ChatMessages(st2, chatID) == ChatMessages(st, chatID);
  }

  /** Only the messages of the earlier store matter to `NoteAppended`. */
  lemma NoteAppendedSameMessages(st: Store, st2: Store, r: Store, chatID: Uuid, note: ChatMessage)
    requires st.messages == st2.messages && NoteAppended(st2, r, chatID, note)
    ensures NoteAppended(st, r, chatID, note)
  {
  }

  /** After choosing a prompt the chat's one active message carries its
      text, and the chat can send exactly when it has a model. An existing
      active message is rewritten in place; otherwise one is created under
      `activeId`. */
  lemma PickPromptSyncs(st: Store, chatID: Uuid, p: SystemPrompt, activeId: Uuid, noteId: Uuid, now: Time)
    requires Valid(st) && HasChat(st, chatID) && p in st.prompts
    requires FreshMessageId(st, activeId) && FreshMessageId(st, noteId) && activeId != noteId
    ensures var r := ChoosePrompt(st, chatID, Pick(p), activeId, noteId, now);
      && HasChat(r, chatID)
      && SelectedSystemPrompt(r, chatID) == Some(p)
      && InSync(r, chatID)
      && SystemPromptMessage(r, chatID).Some?
      && SystemPromptMessage(r, chatID).value.content == p.content
      && (CanSend(r, chatID) <==> ChatOf(st, chatID).modelID.Some? && ChatOf(st, chatID).modelID.value != "")
      && (SystemPromptMessage(st, chatID).Some? ==>
            SystemPromptMessage(r, chatID) == Some(SystemPromptMessage(st, chatID).value.(content := p.content)))
      && (SystemPromptMessage(st, chatID).None? ==>
            SystemPromptMessage(r, chatID) == Some(PromptMessage(activeId, chatID, p.content)))
  {
    var pointed := SetPromptID(st, chatID, Some(p.id));
    var r := ApplySystemPromptChange(pointed, chatID, activeId, noteId, now);
    PointAt(st, chatID, p);
    PickIsApply(st, chatID, p, activeId, noteId, now);
    SameMessagesSameActive(st, pointed, chatID);
    ApplySystemPromptChangeSyncs(pointed, chatID, activeId, noteId, now);
    SelectionUnchanged(pointed, r, chatID);
  }
}

/** The app shell (`ContentView`): the first-launch bootstrap that makes
    sure a settings record and at least one prompt exist, and the "+" button
    that opens a new chat on the newest prompt. */
module ContentView {
  import opened Wrappers
  import opened Seqs
  import opened Models
  import opened ChatDetail

  const FallbackTitle: string := "Default Prompt"
  const FallbackContent: string := "You're LocalAI, a helpful assistant"
  const NewChatPrefix: string := "New Chat "
  const PromptSelectedPrefix: string := "System prompt selected: "

  /** The hidden prompt the bootstrap installs into an empty catalog. */
  function FallbackPrompt(id: Uuid, now: Time): (p: SystemPrompt)
    ensures p.isHidden && p.id == id && p.timestamp == now
    ensures p.title == FallbackTitle && p.content == FallbackContent
  {
    SystemPrompt(id, FallbackTitle, FallbackContent, now, true)
  }

  /** The `onAppear` bootstrap: one default settings record when there is
      none, one hidden fallback prompt when the catalog is empty. */
  function Bootstrap(st: Store, settingsId: Uuid, promptId: Uuid, now: Time): (r: Store)
    ensures |r.settings| > 0 && |r.prompts| > 0
    ensures |st.settings| == 0 ==> r.settings == [DefaultSettings(settingsId)]
    ensures |st.prompts| == 0 ==> r.prompts == [FallbackPrompt(promptId, now)]
    ensures |st.settings| > 0 ==> r.settings == st.settings
    ensures |st.prompts| > 0 ==> r.prompts == st.prompts
    ensures r.chats == st.chats && r.messages == st.messages
  {
    var withSettings := if |st.settings| == 0 then st.(settings := [DefaultSettings(settingsId)]) else st;
    if |withSettings.prompts| == 0 then withSettings.(prompts := [FallbackPrompt(promptId, now)]) else withSettings
  }

  /** `addChat`. The chat is stamped `now` and titled with `dateText`, the
      formatted date. With a non-empty catalog it gets the newest prompt and
      a "System prompt selected" note, which is created with the default
      `sendToLLM` and is therefore an active system message. */
  function AddChat(st: Store, chatId: Uuid, dateText: string, now: Time, msgId: Uuid, msgTime: Time): (r: Store)
    ensures r.prompts == st.prompts && r.settings == st.settings
  {
    var chat := NewChat(chatId, NewChatPrefix + dateText, now);
    match NewestPrompt(st)
    case None => st.(chats := st.chats + [chat])
    case Some(p) =>
      var withChat := st.(chats := st.chats + [chat.(systemPromptID := Some(p.id))]);
      match PromptById(withChat, p.id)
      case None => withChat
      case Some(sp) => InsertMessage(withChat, NewMessage(msgId, chatId, System, PromptSelectedPrefix + sp.title, msgTime))
  }

  // ---------------------------------------------------------------------

  /** Running the bootstrap twice is running it once. */
  lemma BootstrapIdempotent(st: Store, settingsId: Uuid, promptId: Uuid, now: Time, settingsId2: Uuid, promptId2: Uuid, now2: Time)
    ensures var r := Bootstrap(st, settingsId, promptId, now);
      Bootstrap(r, settingsId2, promptId2, now2) == r
  {
  }

  /** The bootstrap keeps the store well-formed, and afterwards opening any
      chat leaves it with a prompt assigned. */
  lemma BootstrapThenOpen(st: Store, settingsId: Uuid, promptId: Uuid, now: Time, chatID: Uuid, id: Uuid)
    requires Valid(st) && HasChat(st, chatID) && FreshMessageId(st, id)
    ensures var r := Bootstrap(st, settingsId, promptId, now);
      && Valid(r)
      && HasChat(r, chatID)
      && HasChat(EnsureDefaultPrompt(r, chatID, id), chatID)
      && ChatOf(EnsureDefaultPrompt(r, chatID, id), chatID).systemPromptID.Some?
  {
    var r := Bootstrap(st, settingsId, promptId, now);
    assert Distinct(r.prompts, PromptKey);
    assert Valid(r);
    EnsureDefaultPromptSyncs(r, chatID, id);
  }

  /** The facts about the new chat itself that hold whether or not the
      catalog is empty. */
  ghost predicate ChatAdded(st: Store, r: Store, chatId: Uuid, title: string, now: Time)
  {
    && Valid(r)
    && HasChat(r, chatId)
    && r.chats == st.chats + [ChatOf(r, chatId)]
    && ChatOf(r, chatId).title == title
    && ChatOf(r, chatId).timestamp == now
    && ChatOf(r, chatId).modelID.None?
    && !CanSend(r, chatId)
    && OthersUnchanged(st, r, chatId)
  }

  lemma AddChatToEmptyCatalog(st: Store, chatId: Uuid, dateText: string, now: Time, msgId: Uuid, msgTime: Time)
    requires Valid(st) && FreshChatId(st, chatId) && |st.prompts| == 0
    ensures var r := AddChat(st, chatId, dateText, now, msgId, msgTime);
      && ChatAdded(st, r, chatId, NewChatPrefix + dateText, now)
      && ChatOf(r, chatId).systemPromptID.None?
      && r.messages == st.messages
  {
    var chat := NewChat(chatId, NewChatPrefix + dateText, now);
    assert AddChat(st, chatId, dateText, now, msgId, msgTime) == st.(chats := st.chats + [chat]);
    AddedChat(st, chat);
  }

  /** The new chat pointed at the newest prompt, before the note is added:
      the store is well-formed, the chat has no active message yet, and its
      selected prompt is the newest one. */
  lemma ChatOnNewest(st: Store, chatId: Uuid, dateText: string, now: Time)
    requires Valid(st) && FreshChatId(st, chatId) && |st.prompts| > 0
    ensures var p := NewestPrompt(st).value;
      var added := NewChat(chatId, NewChatPrefix + dateText, now).(systemPromptID := Some(p.id));
      var withChat := st.(chats := st.chats + [added]);
      && Valid(withChat)
      && HasChat(withChat, chatId)
      && ChatOf(withChat, chatId) == added
      && PromptById(withChat, p.id) == Some(p)
      && SelectedSystemPrompt(withChat, chatId) == Some(p)
      && |ActiveIn(withChat.messages, chatId)| == 0
  {
    var p := NewestPrompt(st).value;
    var added := NewChat(chatId, NewChatPrefix + dateText, now).(systemPromptID := Some(p.id));
    var withChat := st.(chats := st.chats + [added]);
    AddedChat(st, added);
    PromptByIdUnique(withChat, p);
    NoActiveForFreshChat(st, chatId);
  }

  /** With a non-empty catalog, `addChat` stores the chat pointed at the
      newest prompt and then the note. */
  lemma AddChatWithCatalogSteps(st: Store, chatId: Uuid, dateText: string, now: Time, msgId: Uuid, msgTime: Time)
    requires Valid(st) && FreshChatId(st, chatId) && FreshMessageId(st, msgId) && |st.prompts| > 0
    ensures var p := NewestPrompt(st).value;
      var added := NewChat(chatId, NewChatPrefix + dateText, now).(systemPromptID := Some(p.id));
      var withChat := st.(chats := st.chats + [added]);
      var note := NewMessage(msgId, chatId, System, PromptSelectedPrefix + p.title, msgTime);
      && ChatAdded(st, withChat, chatId, NewChatPrefix + dateText, now)
      && ChatOf(withChat, chatId) == added
      && SelectedSystemPrompt(withChat, chatId) == Some(p)
      && |ActiveIn(withChat.messages, chatId)| == 0
      && FreshMessageId(withChat, msgId)
      && AddChat(st, chatId, dateText, now, msgId, msgTime) == InsertMessage(withChat, note)
  {
    ChatOnNewest(st, chatId, dateText, now);
  }

  /** The new chat's facts survive storing a message of that chat that
      leaves its selection alone. */
  lemma ChatAddedAfterInsert(st: Store, w: Store, chatId: Uuid, title: string, now: Time, m: ChatMessage)
    requires ChatAdded(st, w, chatId, title, now)
    requires m.chatID == chatId
    requires Valid(InsertMessage(w, m))
    ensures ChatAdded(st, InsertMessage(w, m), chatId, title, now)
  {
    var r := InsertMessage(w, m);
    SelectionUnchanged(w, r, chatId);
    forall n: ChatMessage | n.chatID != chatId
      ensures n in r.messages <==> n in st.messages
    {
      assert n in r.messages <==> n in w.messages;
    }
  }

  lemma AddChatWithCatalog(st: Store, chatId: Uuid, dateText: string, now: Time, msgId: Uuid, msgTime: Time)
    requires Valid(st) && FreshChatId(st, chatId) && FreshMessageId(st, msgId) && |st.prompts| > 0
    ensures var r := AddChat(st, chatId, dateText, now, msgId, msgTime);
      && ChatAdded(st, r, chatId, NewChatPrefix + dateText, now)
      && SelectedSystemPrompt(r, chatId) == NewestPrompt(st)
      && |ActiveIn(r.messages, chatId)| == 1
      && SystemPromptMessage(r, chatId).Some?
      && SystemPromptMessage(r, chatId).value.content == PromptSelectedPrefix + NewestPrompt(st).value.title
      && SystemPromptMessage(r, chatId).value.id == msgId
  {
    var p := NewestPrompt(st).value;
    var added := NewChat(chatId, NewChatPrefix + dateText, now).(systemPromptID := Some(p.id));
    var withChat := st.(chats := st.chats + [added]);
    var note := NewMessage(msgId, chatId, System, PromptSelectedPrefix + p.title, msgTime);
    AddChatWithCatalogSteps(st, chatId, dateText, now, msgId, msgTime);
    NoteOnNewChat(withChat, chatId, note);
    ChatAddedAfterInsert(st, withChat, chatId, NewChatPrefix + dateText, now, note);
  }

  /** Adding the active note to a chat that has none keeps the store valid,
      keeps the selection, and makes the note the prompt message. */
  lemma NoteOnNewChat(st: Store, chatId: Uuid, note: ChatMessage)
    requires Valid(st) && HasChat(st, chatId) && FreshMessageId(st, note.id)
    requires note.chatID == chatId && IsActive(note)
    requires |ActiveIn(st.messages, chatId)| == 0 && SelectedSystemPrompt(st, chatId).Some?
    ensures var r := InsertMessage(st, note);
      && Valid(r)
      && HasChat(r, chatId)
      && SelectedSystemPrompt(r, chatId) == SelectedSystemPrompt(st, chatId)
      && CanSend(r, chatId) == CanSend(st, chatId)
      && OthersUnchanged(st, r, chatId)
      && |ActiveIn(r.messages, chatId)| == 1
      && SystemPromptMessage(r, chatId) == Some(note)
  {
    var r := InsertMessage(st, note);
    OnlyChat(st, chatId);
    ValidAfterInsert(st, note);
    SelectionUnchanged(st, r, chatId);
    ActiveAfterInsert(st.messages, note, chatId);
    ActiveIsPromptMessage(r, chatId, note);
  }

  /** `addChat` appends one chat with the requested title and no model; it
      takes the newest prompt when there is one, together with exactly one
      active message (the note); otherwise the chat has no prompt and no
      message. The store stays well-formed and other chats are untouched. */
  lemma AddChatSpec(st: Store, chatId: Uuid, dateText: string, now: Time, msgId: Uuid, msgTime: Time)
    requires Valid(st) && FreshChatId(st, chatId) && FreshMessageId(st, msgId)
    ensures var r := AddChat(st, chatId, dateText, now, msgId, msgTime);
      && ChatAdded(st, r, chatId, NewChatPrefix + dateText, now)
      && (|st.prompts| == 0 ==> ChatOf(r, chatId).systemPromptID.None? && r.messages == st.messages)
      && (|st.prompts| > 0 ==>
            && SelectedSystemPrompt(r, chatId) == NewestPrompt(st)
            && |ActiveIn(r.messages, chatId)| == 1
            && SystemPromptMessage(r, chatId).Some?
            && SystemPromptMessage(r, chatId).value.content == PromptSelectedPrefix + NewestPrompt(st).value.title
            && SystemPromptMessage(r, chatId).value.id == msgId)
  {
    if |st.prompts| == 0 {
      AddChatToEmptyCatalog(st, chatId, dateText, now, msgId, msgTime);
    } else {
      AddChatWithCatalog(st, chatId, dateText, now, msgId, msgTime);
    }
  }

  /** Appending a chat with a fresh identity and no messages keeps the store
      valid, and `ChatOf` finds it. */
  lemma AddedChat(st: Store, c: Chat)
    requires Valid(st) && FreshChatId(st, c.id)
    ensures var r := st.(chats := st.chats + [c]);
      Valid(r) && HasChat(r, c.id) && ChatOf(r, c.id) == c
  {
    var r := st.(chats := st.chats + [c]);
    assert r.chats[|st.chats|] == c;
    assert Distinct(r.chats, ChatKey) by {
      forall i, j | 0 <= i < j < |r.chats|
        ensures ChatKey(r.chats[i]) != ChatKey(r.chats[j])
      {
        if j == |st.chats| {
          assert r.chats[i] == st.chats[i] && st.chats[i] in st.chats;
        }
      }
    }
    NoActiveForFreshChat(st, c.id);
    ChatOfUnique(r, c);
  }

  /** Opening a freshly added chat turns its "System prompt selected" note
      into the prompt message: the note's text is overwritten in place by
      the prompt's, and no second active message is created. */
  lemma AddChatThenOpen(st: Store, chatId: Uuid, dateText: string, now: Time, msgId: Uuid, msgTime: Time, id: Uuid)
    requires Valid(st) && FreshChatId(st, chatId) && FreshMessageId(st, msgId)
    requires FreshMessageId(st, id) && id != msgId && |st.prompts| > 0
    ensures HasChat(AddChat(st, chatId, dateText, now, msgId, msgTime), chatId)
    ensures var r := AddChat(st, chatId, dateText, now, msgId, msgTime);
      var shown := EnsureDefaultPrompt(r, chatId, id);
      && |shown.messages| == |r.messages|
      && HasChat(shown, chatId)
      && InSync(shown, chatId)
      && SystemPromptMessage(shown, chatId).Some?
      && SystemPromptMessage(shown, chatId).value.id == msgId
      && SystemPromptMessage(shown, chatId).value.content == NewestPrompt(st).value.content
  {
    var r := AddChat(st, chatId, dateText, now, msgId, msgTime);
    AddChatWithCatalog(st, chatId, dateText, now, msgId, msgTime);
    AddChatKeepsFresh(st, chatId, dateText, now, msgId, msgTime, id);
    OpenRewritesActive(r, chatId, id);
  }

  /** An identity that is neither in use nor the note's stays unused. */
  lemma AddChatKeepsFresh(st: Store, chatId: Uuid, dateText: string, now: Time, msgId: Uuid, msgTime: Time, id: Uuid)
    requires FreshMessageId(st, id) && id != msgId
    ensures FreshMessageId(AddChat(st, chatId, dateText, now, msgId, msgTime), id)
  {
  }
}

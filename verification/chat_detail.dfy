/** One conversation (`ChatDetailView`): which prompt and which active
    system message the chat has, when it may send, how the active message
    is kept in step with the chosen prompt, deleting a message, and one
    send: the outbound history, the request, and what the streamed reply
    leaves in the store and on screen. */
module ChatDetail {
  import opened Wrappers
  import opened Seqs
  import opened Text
  import opened Models
  import opened Network

  const MaxTokens: int := 256
  const Temperature: real := 0.7
  const PromptChangedPrefix: string := "System prompt changed to: "
  const PromptClearedNote: string := "System prompt cleared."

  /** `selectedSystemPrompt`: the newest stored prompt whose id is the
      chat's prompt id, if the chat has one and it still resolves. */
  function SelectedSystemPrompt(st: Store, chatID: Uuid): (r: Option<SystemPrompt>)
    requires HasChat(st, chatID)
    ensures r.Some? <==>
              ChatOf(st, chatID).systemPromptID.Some? &&
              exists p :: p in st.prompts && p.id == ChatOf(st, chatID).systemPromptID.value
    ensures r.Some? ==> r.value in st.prompts && ChatOf(st, chatID).systemPromptID == Some(r.value.id)
  {
    match ChatOf(st, chatID).systemPromptID
    case None => None
    case Some(id) => PromptById(st, id)
  }

  /** `systemPromptMessage`: the oldest active system message of the chat. */
  function SystemPromptMessage(st: Store, chatID: Uuid): (r: Option<ChatMessage>)
    ensures r.None? <==> |ActiveIn(st.messages, chatID)| == 0
    ensures r.Some? ==> r.value in st.messages && r.value.chatID == chatID && IsActive(r.value)
  {
    var msgs := ChatMessages(st, chatID);
    var r := First(msgs, IsActive);
    assert |ActiveIn(st.messages, chatID)| > 0 ==> ActiveIn(st.messages, chatID)[0] in msgs;
    r
  }

  /** `canSend`: the chat's prompt resolves and a non-empty model is chosen. */
  function CanSend(st: Store, chatID: Uuid): (r: bool)
    requires HasChat(st, chatID)
    ensures r <==>
              (exists p :: p in st.prompts && ChatOf(st, chatID).systemPromptID == Some(p.id)) &&
              (exists name :: ChatOf(st, chatID).modelID == Some(name) && name != "")
  {
    var model := ChatOf(st, chatID).modelID;
    var r := SelectedSystemPrompt(st, chatID).Some? && model.Some? && model.value != "";
    assert model.Some? ==> model == Some(model.value);
    r
  }

  /** The message `setSystemPromptMessage` creates: active, dated at the
      epoch so that it sorts before everything else in the chat. */
  function PromptMessage(id: Uuid, chatID: Uuid, content: string): (m: ChatMessage)
    ensures IsActive(m) && m.id == id && m.chatID == chatID && m.content == content
    ensures m.timestamp == 0
  {
    ChatMessage(id, chatID, System, content, 0, true)
  }

  /** The note `insertSystemChangeMessage` creates: shown, never sent. */
  function ChangeNote(id: Uuid, chatID: Uuid, text: string, now: Time): (m: ChatMessage)
    ensures !IsActive(m) && m.role == System && !m.sendToLLM
    ensures m.id == id && m.chatID == chatID && m.content == text && m.timestamp == now
  {
    ChatMessage(id, chatID, System, text, now, false)
  }

  /** `ensureDefaultPrompt`, run when the chat appears. `id` is the identity
      the new active message gets if one is created. */
  function EnsureDefaultPrompt(st: Store, chatID: Uuid, id: Uuid): (r: Store)
    requires HasChat(st, chatID)
    ensures r.prompts == st.prompts && r.settings == st.settings
  {
    if ChatOf(st, chatID).systemPromptID.None? then
      match NewestPrompt(st)
      case None => st
      case Some(p) => InsertMessage(SetPromptID(st, chatID, Some(p.id)), PromptMessage(id, chatID, p.content))
    else
      match SelectedSystemPrompt(st, chatID)
      case None => st
      case Some(sp) =>
        match SystemPromptMessage(st, chatID)
        case None => InsertMessage(st, PromptMessage(id, chatID, sp.content))
        case Some(sm) => if sm.content != sp.content then SetMessageContent(st, sm.id, sp.content) else st
  }

  /** `applySystemPromptChange`, run when the prompt picker closes after a
      change: the active message follows the chosen prompt (or goes away
      with it) and a note records the change. */
  function ApplySystemPromptChange(st: Store, chatID: Uuid, activeId: Uuid, noteId: Uuid, now: Time): (r: Store)
    requires HasChat(st, chatID)
    ensures r.chats == st.chats && r.prompts == st.prompts && r.settings == st.settings
  {
    match SelectedSystemPrompt(st, chatID)
    case Some(sp) =>
      InsertMessage(SyncActive(st, chatID, activeId, sp.content), ChangeNote(noteId, chatID, PromptChangedPrefix + sp.title, now))
    case None =>
      InsertMessage(ClearActive(st, chatID), ChangeNote(noteId, chatID, PromptClearedNote, now))
  }

  /** The chat's active message is made to carry `content`: rewritten when
      there is one, created under `activeId` otherwise. */
  function SyncActive(st: Store, chatID: Uuid, activeId: Uuid, content: string): (r: Store)
    ensures r.chats == st.chats && r.prompts == st.prompts && r.settings == st.settings
  {
    match SystemPromptMessage(st, chatID)
    case Some(sm) => SetMessageContent(st, sm.id, content)
    case None => InsertMessage(st, PromptMessage(activeId, chatID, content))
  }

  /** The chat's active message, if any, is deleted. */
  function ClearActive(st: Store, chatID: Uuid): (r: Store)
    ensures r.chats == st.chats && r.prompts == st.prompts && r.settings == st.settings
  {
    match SystemPromptMessage(st, chatID)
    case Some(sm) => RemoveMessage(st, sm.id)
    case None => st
  }

  /** `deleteMessage`: deleting the active system message also unassigns the
      chat's prompt. */
  function DeleteMessage(st: Store, chatID: Uuid, msg: ChatMessage): (r: Store)
    ensures forall m :: m in r.messages <==> m in st.messages && m.id != msg.id
    ensures OtherChatsKept(st, r, chatID) && r.prompts == st.prompts && r.settings == st.settings
  {
    OtherChatsAfterUpdate(st, chatID, WithPromptID(None));
    var unassigned := if IsActive(msg) then SetPromptID(st, chatID, None) else st;
    RemoveMessage(unassigned, msg.id)
  }

  /** The rename alert's OK button. */
  function RenameChat(st: Store, chatID: Uuid, title: string): (r: Store)
    ensures r.messages == st.messages && r.prompts == st.prompts && r.settings == st.settings
    ensures OtherChatsKept(st, r, chatID)
  {
    OtherChatsAfterUpdate(st, chatID, Retitled(title));
    UpdateChat(st, chatID, Retitled(title))
  }

  // ---------------------------------------------------------------------
  // Sending

  /** The outbound filter: every message except the system ones that are
      not meant for the model. */
  predicate IsSendable(m: ChatMessage) {
    m.role != System || m.sendToLLM
  }

  function ToWire(m: ChatMessage): WireMessage {
    WireMessage(RoleName(m.role), m.content)
  }

  predicate IsSystemWire(w: WireMessage) {
    w.role == "system"
  }

  /** The history `sendMessage` sends, oldest first. */
  function Outbound(st: Store, chatID: Uuid): seq<WireMessage> {
    Map(Filter(ChatMessages(st, chatID), IsSendable), ToWire)
  }

  /** The request for one send; `userInput` is already trimmed. */
  function BuildRequest(st: Store, chatID: Uuid, userInput: string): (r: ChatRequest)
    requires HasChat(st, chatID)
    ensures r.model == ChatOf(st, chatID).modelID.GetOr("")
    ensures r.maxTokens == MaxTokens && r.temperature == Temperature && r.stream
    ensures userInput == "" ==> r.messages == Outbound(st, chatID)
    ensures userInput != "" ==> r.messages == Outbound(st, chatID) + [WireMessage("user", userInput)]
  {
    var history := Outbound(st, chatID);
    var messages := if userInput == "" then history else history + [WireMessage(RoleName(User), userInput)];
    ChatRequest(ChatOf(st, chatID).modelID.GetOr(""), messages, MaxTokens, Temperature, true)
  }

  /** What one press of Send leaves behind: the store, the input field, the
      streaming bubble, and the request and stream outcome if one was sent. */
  datatype SendOutcome = SendOutcome(
    store: Store,
    inputText: string,
    streamingContent: string,
    request: Option<ChatRequest>,
    result: Option<StreamResult>)

  /** `sendMessage`. The server, the decoder, the two fresh identities and
      the two clock readings are parameters. */
  function SendMessage(
    st: Store, chatID: Uuid, inputText: string, streamingContent: string,
    userId: Uuid, userTime: Time, replyId: Uuid, replyTime: Time,
    server: (string, ChatRequest) -> HttpResponse, decode: string -> Option<Chunk>): (r: SendOutcome)
    requires HasChat(st, chatID)
    ensures !CanSend(st, chatID) ==> r == SendOutcome(st, inputText, streamingContent, None, None)
    ensures CanSend(st, chatID) ==>
              && r.inputText == ""
              && r.request == Some(BuildRequest(st, chatID, Trim(inputText, IsWhitespaceOrNewline)))
              && r.result == Some(StreamChatCompletion(ServerURL(st), r.request.value, server, decode))
    // the trimmed input (if any) and then the reply (if the stream finished
    // normally with some text) are appended; a failed stream keeps the
    // user's message and leaves the partial reply on screen
    ensures CanSend(st, chatID) ==>
              var userInput := Trim(inputText, IsWhitespaceOrNewline);
              var text := Concat(r.result.value.fragments);
              && r.store.messages ==
                   st.messages
                   + (if userInput == "" then [] else [ChatMessage(userId, chatID, User, userInput, userTime, true)])
                   + (if r.result.value.Succeeded() && text != "" then [ChatMessage(replyId, chatID, Assistant, text, replyTime, true)] else [])
              && r.streamingContent == (if r.result.value.Succeeded() then "" else text)
    ensures r.store.chats == st.chats && r.store.prompts == st.prompts && r.store.settings == st.settings
  {
    if !CanSend(st, chatID) then SendOutcome(st, inputText, streamingContent, None, None)
    else
      var userInput := Trim(inputText, IsWhitespaceOrNewline);
      var request := BuildRequest(st, chatID, userInput);
      var withUser := StoreUserInput(st, chatID, userInput, userId, userTime);
      var result := StreamChatCompletion(ServerURL(st), request, server, decode);
      var text := Concat(result.fragments);
      SendOutcome(StoreReply(withUser, chatID, result, replyId, replyTime), "",
                  if result.Succeeded() then "" else text, Some(request), Some(result))
  }

  /** The user's message is stored before the request goes out, unless the
      trimmed input is empty. */
  function StoreUserInput(st: Store, chatID: Uuid, userInput: string, userId: Uuid, userTime: Time): (r: Store)
    ensures r.messages == st.messages + (if userInput == "" then [] else [ChatMessage(userId, chatID, User, userInput, userTime, true)])
    ensures r.chats == st.chats && r.prompts == st.prompts && r.settings == st.settings
  {
    if userInput == "" then st
    else InsertMessage(st, ChatMessage(userId, chatID, User, userInput, userTime, true))
  }

  /** The streamed reply is stored once the stream has finished normally,
      unless it is empty. */
  function StoreReply(st: Store, chatID: Uuid, result: StreamResult, replyId: Uuid, replyTime: Time): (r: Store)
    ensures var text := Concat(result.fragments);
      r.messages == st.messages + (if result.Succeeded() && text != "" then [ChatMessage(replyId, chatID, Assistant, text, replyTime, true)] else [])
    ensures r.chats == st.chats && r.prompts == st.prompts && r.settings == st.settings
  {
    var text := Concat(result.fragments);
    if !result.Succeeded() || text == "" then st
    else InsertMessage(st, ChatMessage(replyId, chatID, Assistant, text, replyTime, true))
  }

  // ---------------------------------------------------------------------
  // The active system message

  /** Selection depends on the chats and the prompts only. */
  lemma SelectionUnchanged(st: Store, r: Store, chatID: Uuid)
    requires HasChat(st, chatID) && r.chats == st.chats && r.prompts == st.prompts
    ensures HasChat(r, chatID) && ChatOf(r, chatID) == ChatOf(st, chatID)
    ensures SelectedSystemPrompt(r, chatID) == SelectedSystemPrompt(st, chatID)
    ensures CanSend(r, chatID) == CanSend(st, chatID)
  {
  }

  /** With at most one active message, an active message of the chat is the
      one `systemPromptMessage` finds. */
  lemma ActiveIsPromptMessage(st: Store, chatID: Uuid, m: ChatMessage)
    requires |ActiveIn(st.messages, chatID)| <= 1
    requires m in st.messages && m.chatID == chatID && IsActive(m)
    ensures |ActiveIn(st.messages, chatID)| == 1
    ensures SystemPromptMessage(st, chatID) == Some(m)
  {
    assert m in ActiveIn(st.messages, chatID);
    var sm := SystemPromptMessage(st, chatID).value;
    AtMostOnePasses(st.messages, ActiveFor(chatID), m, sm);
  }

  /** Every stored chat with the identity `chatID` is the one `ChatOf` finds. */
  lemma OnlyChat(st: Store, chatID: Uuid)
    requires Distinct(st.chats, ChatKey) && HasChat(st, chatID)
    ensures forall c :: c in st.chats && c.id == chatID ==> c == ChatOf(st, chatID)
  {
    forall c | c in st.chats && c.id == chatID
      ensures c == ChatOf(st, chatID)
    {
      ChatOfUnique(st, c);
    }
  }

  /** The selected prompt resolves and the chat holds exactly one active
      system message, whose text is the prompt's. */
  ghost predicate InSync(st: Store, chatID: Uuid)
    requires HasChat(st, chatID)
  {
    && SelectedSystemPrompt(st, chatID).Some?
    && |ActiveIn(st.messages, chatID)| == 1
    && SystemPromptMessage(st, chatID).Some?
    && SystemPromptMessage(st, chatID).value.content == SelectedSystemPrompt(st, chatID).value.content
  }

  /** Every message of `st` other than the chat's active system message is
      still stored in `r`, unchanged. */
  ghost predicate KeepsInactive(st: Store, r: Store, chatID: Uuid) {
    forall m :: m in st.messages && !(m.chatID == chatID && IsActive(m)) ==> m in r.messages
  }

  /** A chat without a prompt is given the newest prompt and its message. */
  lemma EnsureAssignsNewest(st: Store, chatID: Uuid, id: Uuid)
    requires Valid(st) && HasChat(st, chatID) && FreshMessageId(st, id)
    requires ChatOf(st, chatID).systemPromptID.None? && |st.prompts| > 0
    ensures var r := EnsureDefaultPrompt(st, chatID, id);
      && Valid(r) && HasChat(r, chatID) && OthersUnchanged(st, r, chatID)
      && ChatOf(r, chatID) == ChatOf(st, chatID).(systemPromptID := Some(NewestPrompt(st).value.id))
      && OtherChatsKept(st, r, chatID)
      && r.messages == st.messages + [PromptMessage(id, chatID, NewestPrompt(st).value.content)]
      && SelectedSystemPrompt(r, chatID) == NewestPrompt(st)
      && InSync(r, chatID)
  {
    var p := NewestPrompt(st).value;
    var st1 := SetPromptID(st, chatID, Some(p.id));
    var m := PromptMessage(id, chatID, p.content);
    var r := InsertMessage(st1, m);
    assert r == EnsureDefaultPrompt(st, chatID, id);
    assert |ActiveIn(st.messages, chatID)| == 0;
    ValidAfterSetPromptID(st, chatID, Some(p.id));
    ChatOfUpdate(st, chatID, WithPromptID(Some(p.id)), chatID);
    OtherChatsAfterUpdate(st, chatID, WithPromptID(Some(p.id)));
    OnlyChat(st1, chatID);
    ValidAfterInsert(st1, m);
    SelectionUnchanged(st1, r, chatID);
    PromptByIdUnique(r, p);
    ActiveAfterInsert(st1.messages, m, chatID);
    ActiveIsPromptMessage(r, chatID, m);
  }

  /** A resolvable prompt without an active message gets one. */
  lemma EnsureMaterialises(st: Store, chatID: Uuid, id: Uuid)
    requires Valid(st) && HasChat(st, chatID) && FreshMessageId(st, id)
    requires SelectedSystemPrompt(st, chatID).Some? && SystemPromptMessage(st, chatID).None?
    ensures var r := EnsureDefaultPrompt(st, chatID, id);
      && Valid(r) && HasChat(r, chatID) && OthersUnchanged(st, r, chatID)
      && r.chats == st.chats
      && r.messages == st.messages + [PromptMessage(id, chatID, SelectedSystemPrompt(st, chatID).value.content)]
      && InSync(r, chatID)
  {
    var sp := SelectedSystemPrompt(st, chatID).value;
    var m := PromptMessage(id, chatID, sp.content);
    var r := InsertMessage(st, m);
    assert r == EnsureDefaultPrompt(st, chatID, id);
    OnlyChat(st, chatID);
    ValidAfterInsert(st, m);
    SelectionUnchanged(st, r, chatID);
    ActiveAfterInsert(st.messages, m, chatID);
    ActiveIsPromptMessage(r, chatID, m);
  }

  /** Overwriting the active message with the prompt's text brings the chat
      in sync. */
  lemma RefreshActive(st: Store, chatID: Uuid, sm: ChatMessage, content: string)
    requires Valid(st) && HasChat(st, chatID)
    requires SystemPromptMessage(st, chatID) == Some(sm)
    ensures var r := SetMessageContent(st, sm.id, content);
      && Valid(r) && HasChat(r, chatID) && OthersUnchanged(st, r, chatID)
      && |ActiveIn(r.messages, chatID)| == 1
      && SystemPromptMessage(r, chatID).Some?
      && SystemPromptMessage(r, chatID).value.content == content
      && SystemPromptMessage(r, chatID).value.id == sm.id
      && SystemPromptMessage(r, chatID) == Some(sm.(content := content))
      && KeepsInactive(st, r, chatID)
  {
    var r := SetMessageContent(st, sm.id, content);
    ActiveIsPromptMessage(st, chatID, sm);
    ValidAfterSetContent(st, sm.id, content);
    OthersAfterSetContent(st, sm, content);
    KeptAfterSetContent(st, sm, content);
    var i :| 0 <= i < |st.messages| && st.messages[i] == sm;
    var m := r.messages[i];
    assert m == sm.(content := content);
    ActiveIsPromptMessage(r, chatID, m);
  }

  /** After `ensureDefaultPrompt` a chat whose prompt resolves has exactly
      one active system message, carrying that prompt's text; a chat without
      a prompt is given the newest one when there is any; otherwise nothing
      changes. The store stays well-formed and other chats are untouched. */
  lemma EnsureDefaultPromptSyncs(st: Store, chatID: Uuid, id: Uuid)
    requires Valid(st) && HasChat(st, chatID) && FreshMessageId(st, id)
    ensures var r := EnsureDefaultPrompt(st, chatID, id);
      && Valid(r)
      && HasChat(r, chatID)
      && OthersUnchanged(st, r, chatID)
      && ChatOf(r, chatID) == ChatOf(st, chatID).(systemPromptID := ChatOf(r, chatID).systemPromptID)
      && (ChatOf(r, chatID).systemPromptID.None? <==> ChatOf(st, chatID).systemPromptID.None? && |st.prompts| == 0)
      && (ChatOf(st, chatID).systemPromptID.None? ==> SelectedSystemPrompt(r, chatID) == NewestPrompt(st))
      && (ChatOf(st, chatID).systemPromptID.Some? ==> SelectedSystemPrompt(r, chatID) == SelectedSystemPrompt(st, chatID))
      && (SelectedSystemPrompt(r, chatID).None? ==> r == st)
      && (SelectedSystemPrompt(r, chatID).Some? ==> InSync(r, chatID))
      && (InSync(st, chatID) ==> r == st)
      && OtherChatsKept(st, r, chatID)
      && KeepsInactive(st, r, chatID)
      && |r.messages| == |st.messages| + (if SelectedSystemPrompt(r, chatID).Some? && SystemPromptMessage(st, chatID).None? then 1 else 0)
      && (SystemPromptMessage(st, chatID).Some? ==> SystemPromptMessage(r, chatID).Some? && SystemPromptMessage(r, chatID).value.id == SystemPromptMessage(st, chatID).value.id)
  {
    var r := EnsureDefaultPrompt(st, chatID, id);
    if ChatOf(st, chatID).systemPromptID.None? {
      if |st.prompts| > 0 {
        EnsureAssignsNewest(st, chatID, id);
      }
    } else if SelectedSystemPrompt(st, chatID).Some? {
      var sp := SelectedSystemPrompt(st, chatID).value;
      if SystemPromptMessage(st, chatID).None? {
        EnsureMaterialises(st, chatID, id);
      } else {
        var sm := SystemPromptMessage(st, chatID).value;
        ActiveIsPromptMessage(st, chatID, sm);
        if sm.content != sp.content {
          assert r == SetMessageContent(st, sm.id, sp.content);
          RefreshActive(st, chatID, sm, sp.content);
          SelectionUnchanged(st, r, chatID);
        }
      }
    }
  }

  /** When the chat already has an active message, `ensureDefaultPrompt`
      reuses it: no message is added and the active one keeps its identity. */
  lemma EnsureKeepsExisting(st: Store, chatID: Uuid, id: Uuid)
    requires Valid(st) && HasChat(st, chatID)
    requires SelectedSystemPrompt(st, chatID).Some? && SystemPromptMessage(st, chatID).Some?
    ensures var r := EnsureDefaultPrompt(st, chatID, id);
      && |r.messages| == |st.messages|
      && SystemPromptMessage(r, chatID).Some?
      && SystemPromptMessage(r, chatID).value.id == SystemPromptMessage(st, chatID).value.id
  {
    var sp := SelectedSystemPrompt(st, chatID).value;
    var sm := SystemPromptMessage(st, chatID).value;
    if sm.content != sp.content {
      RefreshActive(st, chatID, sm, sp.content);
    }
  }

  /** Opening a chat that already has a resolvable prompt and an active
      message rewrites that message in place to carry the prompt's text. */
  lemma OpenRewritesActive(st: Store, chatID: Uuid, id: Uuid)
    requires Valid(st) && HasChat(st, chatID) && FreshMessageId(st, id)
    requires SelectedSystemPrompt(st, chatID).Some? && SystemPromptMessage(st, chatID).Some?
    ensures var r := EnsureDefaultPrompt(st, chatID, id);
      && HasChat(r, chatID)
      && |r.messages| == |st.messages|
      && InSync(r, chatID)
      && SystemPromptMessage(r, chatID).value.id == SystemPromptMessage(st, chatID).value.id
      && SystemPromptMessage(r, chatID).value.content == SelectedSystemPrompt(st, chatID).value.content
  {
    EnsureDefaultPromptSyncs(st, chatID, id);
    EnsureKeepsExisting(st, chatID, id);
  }

  /** Running `ensureDefaultPrompt` again changes nothing. */
  lemma EnsureDefaultPromptIdempotent(st: Store, chatID: Uuid, id: Uuid, id2: Uuid)
    requires Valid(st) && HasChat(st, chatID) && FreshMessageId(st, id)
    ensures var r := EnsureDefaultPrompt(st, chatID, id);
      HasChat(r, chatID) && EnsureDefaultPrompt(r, chatID, id2) == r
  {
    EnsureDefaultPromptSyncs(st, chatID, id);
  }

  /** The prompt-change note is newest, and the rest of the outcome is
      well-formed and leaves other chats alone. */
  ghost predicate NoteAppended(st: Store, r: Store, chatID: Uuid, note: ChatMessage)
  {
    && Valid(r)
    && OthersUnchanged(st, r, chatID)
    && |r.messages| > 0
    && r.messages[|r.messages| - 1] == note
  }

  lemma SyncActiveSpec(st: Store, chatID: Uuid, activeId: Uuid, content: string, noteId: Uuid)
    requires Valid(st) && HasChat(st, chatID)
    requires FreshMessageId(st, activeId) && FreshMessageId(st, noteId) && activeId != noteId
    requires ChatOf(st, chatID).systemPromptID.Some?
    ensures var r := SyncActive(st, chatID, activeId, content);
      && Valid(r) && OthersUnchanged(st, r, chatID) && FreshMessageId(r, noteId)
      && |ActiveIn(r.messages, chatID)| == 1
      && SystemPromptMessage(r, chatID).Some?
      && SystemPromptMessage(r, chatID).value.content == content
      && KeepsInactive(st, r, chatID)
      && (SystemPromptMessage(st, chatID).Some? ==>
            && |r.messages| == |st.messages|
            && SystemPromptMessage(r, chatID) == Some(SystemPromptMessage(st, chatID).value.(content := content)))
      && (SystemPromptMessage(st, chatID).None? ==>
            && r.messages == st.messages + [PromptMessage(activeId, chatID, content)]
            && SystemPromptMessage(r, chatID) == Some(PromptMessage(activeId, chatID, content)))
  {
    if SystemPromptMessage(st, chatID).Some? {
      var sm := SystemPromptMessage(st, chatID).value;
      RefreshActive(st, chatID, sm, content);
      FreshAfterSetContent(st, sm.id, content, noteId);
    } else {
      var m := PromptMessage(activeId, chatID, content);
      var r := InsertMessage(st, m);
      OnlyChat(st, chatID);
      ValidAfterInsert(st, m);
      ActiveAfterInsert(st.messages, m, chatID);
      ActiveIsPromptMessage(r, chatID, m);
    }
  }

  lemma ClearActiveSpec(st: Store, chatID: Uuid, noteId: Uuid)
    requires Valid(st) && FreshMessageId(st, noteId)
    ensures var r := ClearActive(st, chatID);
      && Valid(r) && OthersUnchanged(st, r, chatID) && FreshMessageId(r, noteId)
      && |ActiveIn(r.messages, chatID)| == 0
      && KeepsInactive(st, r, chatID)
      && |r.messages| == |st.messages| - (if SystemPromptMessage(st, chatID).Some? then 1 else 0)
  {
    if SystemPromptMessage(st, chatID).Some? {
      var sm := SystemPromptMessage(st, chatID).value;
      KeptAfterRemove(st, sm);
      ValidAfterRemove(st, sm.id);
      OthersAfterRemove(st, sm);
      ActiveAfterRemove(st, sm.id, chatID);
    }
  }

  /** Appending a note to a valid store that differs from `orig` only in
      the chat's own messages gives one that still does. */
  lemma AppendNote(orig: Store, st: Store, chatID: Uuid, note: ChatMessage)
    requires Valid(st) && FreshMessageId(st, note.id) && note.chatID == chatID
    requires note.role == System && !note.sendToLLM
    requires OthersUnchanged(orig, st, chatID)
    ensures NoteAppended(orig, InsertMessage(st, note), chatID, note)
  {
    ValidAfterInsert(st, note);
  }

  /** A note is never the active message, so appending one keeps the active
      message. */
  lemma AppendNoteKeepsActive(st: Store, chatID: Uuid, note: ChatMessage)
    requires |ActiveIn(st.messages, chatID)| <= 1 && !IsActive(note)
    ensures var r := InsertMessage(st, note);
      && |ActiveIn(r.messages, chatID)| == |ActiveIn(st.messages, chatID)|
      && SystemPromptMessage(r, chatID) == SystemPromptMessage(st, chatID)
  {
    var r := InsertMessage(st, note);
    ActiveAfterInsert(st.messages, note, chatID);
    if SystemPromptMessage(st, chatID).Some? {
      ActiveIsPromptMessage(r, chatID, SystemPromptMessage(st, chatID).value);
    }
  }

  /** `applySystemPromptChange` keeps the store well-formed, leaves the
      chats and the other chats' messages alone, keeps every message of the
      chat but the active one, and appends exactly one note naming the
      change: one message more, plus the active message when it is created,
      less the active message when it is deleted. */
  lemma ApplySystemPromptChangeNotes(st: Store, chatID: Uuid, activeId: Uuid, noteId: Uuid, now: Time)
    requires Valid(st) && HasChat(st, chatID)
    requires FreshMessageId(st, activeId) && FreshMessageId(st, noteId) && activeId != noteId
    ensures var r := ApplySystemPromptChange(st, chatID, activeId, noteId, now);
      var sp := SelectedSystemPrompt(st, chatID);
      && NoteAppended(st, r, chatID,
           ChangeNote(noteId, chatID, if sp.Some? then PromptChangedPrefix + sp.value.title else PromptClearedNote, now))
      && KeepsInactive(st, r, chatID)
      && |r.messages| == |st.messages| + 1
                         + (if sp.Some? && SystemPromptMessage(st, chatID).None? then 1 else 0)
                         - (if sp.None? && SystemPromptMessage(st, chatID).Some? then 1 else 0)
  {
    if SelectedSystemPrompt(st, chatID).Some? {
      var sp := SelectedSystemPrompt(st, chatID).value;
      var note := ChangeNote(noteId, chatID, PromptChangedPrefix + sp.title, now);
      var synced := SyncActive(st, chatID, activeId, sp.content);
      assert ApplySystemPromptChange(st, chatID, activeId, noteId, now) == InsertMessage(synced, note);
      SyncActiveSpec(st, chatID, activeId, sp.content, noteId);
      AppendNote(st, synced, chatID, note);
    } else {
      var note := ChangeNote(noteId, chatID, PromptClearedNote, now);
      var cleared := ClearActive(st, chatID);
      assert ApplySystemPromptChange(st, chatID, activeId, noteId, now) == InsertMessage(cleared, note);
      ClearActiveSpec(st, chatID, noteId);
      AppendNote(st, cleared, chatID, note);
    }
  }

  /** After `applySystemPromptChange` the chat has exactly one active system
      message carrying the selected prompt's text, or none when no prompt
      resolves. An existing active message is rewritten in place, keeping
      its identity and every other field; otherwise one is created under
      `activeId`. */
  lemma ApplySystemPromptChangeSyncs(st: Store, chatID: Uuid, activeId: Uuid, noteId: Uuid, now: Time)
    requires Valid(st) && HasChat(st, chatID)
    requires FreshMessageId(st, activeId) && FreshMessageId(st, noteId) && activeId != noteId
    ensures var r := ApplySystemPromptChange(st, chatID, activeId, noteId, now);
      && HasChat(r, chatID)
      && SelectedSystemPrompt(r, chatID) == SelectedSystemPrompt(st, chatID)
      && (SelectedSystemPrompt(st, chatID).Some? ==> InSync(r, chatID))
      && (SelectedSystemPrompt(st, chatID).None? ==> |ActiveIn(r.messages, chatID)| == 0)
      && (SelectedSystemPrompt(st, chatID).Some? && SystemPromptMessage(st, chatID).Some? ==>
            SystemPromptMessage(r, chatID) ==
              Some(SystemPromptMessage(st, chatID).value.(content := SelectedSystemPrompt(st, chatID).value.content)))
      && (SelectedSystemPrompt(st, chatID).Some? && SystemPromptMessage(st, chatID).None? ==>
            SystemPromptMessage(r, chatID) ==
              Some(PromptMessage(activeId, chatID, SelectedSystemPrompt(st, chatID).value.content)))
  {
    var r := ApplySystemPromptChange(st, chatID, activeId, noteId, now);
    SelectionUnchanged(st, r, chatID);
    if SelectedSystemPrompt(st, chatID).Some? {
      var sp := SelectedSystemPrompt(st, chatID).value;
      var synced := SyncActive(st, chatID, activeId, sp.content);
      SyncActiveSpec(st, chatID, activeId, sp.content, noteId);
      AppendNoteKeepsActive(synced, chatID, ChangeNote(noteId, chatID, PromptChangedPrefix + sp.title, now));
    } else {
      ClearActiveSpec(st, chatID, noteId);
      AppendNoteKeepsActive(ClearActive(st, chatID), chatID, ChangeNote(noteId, chatID, PromptClearedNote, now));
    }
  }

  /** `deleteMessage` removes exactly the given message; deleting the active
      system message also unassigns the prompt, which disables sending
      until a prompt is chosen again. */
  lemma DeleteMessageSpec(st: Store, chatID: Uuid, msg: ChatMessage)
    requires Valid(st) && HasChat(st, chatID)
    requires msg in st.messages && msg.chatID == chatID
    ensures var r := DeleteMessage(st, chatID, msg);
      && Valid(r)
      && HasChat(r, chatID)
      && (forall m :: m in r.messages <==> m in st.messages && m != msg)
      && OthersUnchanged(st, r, chatID)
      && (IsActive(msg) ==>
            && ChatOf(r, chatID) == ChatOf(st, chatID).(systemPromptID := None)
            && |ActiveIn(r.messages, chatID)| == 0
            && !CanSend(r, chatID))
      && (!IsActive(msg) ==>
            && ChatOf(r, chatID) == ChatOf(st, chatID)
            && |ActiveIn(r.messages, chatID)| == |ActiveIn(st.messages, chatID)|)
  {
    var r := DeleteMessage(st, chatID, msg);
    forall m | m in st.messages && m.id == msg.id
      ensures m == msg
    {
      MessageUnique(st, m, msg);
    }
    var removed := RemoveMessage(st, msg.id);
    ValidAfterRemove(st, msg.id);
    OthersAfterRemove(st, msg);
    ActiveAfterRemove(st, msg.id, chatID);
    if IsActive(msg) {
      ValidAfterSetPromptID(removed, chatID, None);
      var unassigned := SetPromptID(st, chatID, None);
      assert r.chats == SetPromptID(removed, chatID, None).chats;
      assert r == SetPromptID(removed, chatID, None);
      ChatOfUpdate(st, chatID, WithPromptID(None), chatID);
    } else {
      assert r == removed;
      assert |ActiveIn(r.messages, chatID)| == |ActiveIn(st.messages, chatID)| by {
        FilterFilterLength(st.messages, MessageIdIsNot(msg.id), ActiveFor(chatID));
        forall k | 0 <= k < |st.messages| && ActiveFor(chatID)(st.messages[k])
          ensures MessageIdIsNot(msg.id)(st.messages[k])
        {
          assert st.messages[k] in st.messages;
        }
        FilterNothingDropped(st.messages, MessageIdIsNot(msg.id), ActiveFor(chatID));
      }
    }
  }

  lemma RenameChatSpec(st: Store, chatID: Uuid, title: string, other: Uuid)
    requires Valid(st) && HasChat(st, other)
    ensures var r := RenameChat(st, chatID, title);
      && Valid(r)
      && HasChat(r, other)
      && ChatOf(r, other) == (if other == chatID then ChatOf(st, other).(title := title) else ChatOf(st, other))
      && r.messages == st.messages && r.prompts == st.prompts && r.settings == st.settings
      && OtherChatsKept(st, r, chatID)
  {
    ValidAfterUpdateChat(st, chatID, Retitled(title));
    ChatOfUpdate(st, chatID, Retitled(title), other);
  }

  // ---------------------------------------------------------------------
  // What is sent

  predicate IsSystemRole(m: ChatMessage) {
    m.role == System
  }

  /** The outbound history carries as many system entries as the chat has
      active system messages. */
  lemma OutboundSystemCount(st: Store, chatID: Uuid)
    ensures |Filter(Outbound(st, chatID), IsSystemWire)| == |ActiveIn(st.messages, chatID)|
  {
    var msgs := ChatMessages(st, chatID);
    var own := Filter(st.messages, BelongsTo(chatID));
    FilterMapLength(Filter(msgs, IsSendable), ToWire, IsSystemWire, IsSystemRole);
    FilterFilter(msgs, IsSendable, IsSystemRole, IsActive);
    FilterPermutationLength(msgs, own, IsActive);
    FilterFilter(st.messages, BelongsTo(chatID), IsActive, ActiveFor(chatID));
  }

  predicate SentToModel(m: ChatMessage) {
    m.sendToLLM
  }

  /** In a well-formed store the outbound history is exactly the chat's
      messages that are meant for the model, oldest first, each once. */
  lemma OutboundContents(st: Store, chatID: Uuid)
    requires Valid(st)
    ensures Outbound(st, chatID) == Map(Filter(ChatMessages(st, chatID), SentToModel), ToWire)
    ensures forall w :: w in Outbound(st, chatID) <==>
              exists m :: m in st.messages && m.chatID == chatID && m.sendToLLM && w == ToWire(m)
  {
    var msgs := ChatMessages(st, chatID);
    forall i | 0 <= i < |msgs|
      ensures IsSendable(msgs[i]) == SentToModel(msgs[i])
    {
      assert msgs[i] in msgs;
    }
    FilterAgree(msgs, IsSendable, SentToModel);
    OutboundMembers(st, chatID);
  }

  /** Which wire messages the history holds, regardless of order. */
  lemma OutboundMembers(st: Store, chatID: Uuid)
    requires Valid(st)
    ensures forall w :: w in Outbound(st, chatID) <==>
              exists m :: m in st.messages && m.chatID == chatID && m.sendToLLM && w == ToWire(m)
  {
    var msgs := ChatMessages(st, chatID);
    var sendable := Filter(msgs, IsSendable);
    var out := Outbound(st, chatID);
    forall w | w in out
      ensures exists m :: m in st.messages && m.chatID == chatID && m.sendToLLM && w == ToWire(m)
    {
      var i :| 0 <= i < |out| && out[i] == w;
      assert sendable[i] in sendable;
    }
    forall m | m in st.messages && m.chatID == chatID && m.sendToLLM
      ensures ToWire(m) in out
    {
      assert m in sendable;
      var i :| 0 <= i < |sendable| && sendable[i] == m;
      assert out[i] == ToWire(m);
    }
  }

  /** The history of a chat whose prompt and active message agree holds
      one system entry: the selected prompt's text. */
  lemma SyncedHistory(st: Store, chatID: Uuid)
    requires Valid(st) && HasChat(st, chatID) && InSync(st, chatID)
    ensures |Filter(Outbound(st, chatID), IsSystemWire)| == 1
    ensures WireMessage("system", SelectedSystemPrompt(st, chatID).value.content) in Outbound(st, chatID)
  {
    OutboundSystemCount(st, chatID);
    OutboundMembers(st, chatID);
    var sm := SystemPromptMessage(st, chatID).value;
    assert ToWire(sm) == WireMessage("system", SelectedSystemPrompt(st, chatID).value.content);
  }

  /** A request built for a chat whose prompt and active message agree
      carries exactly one system entry, and it is the selected prompt's
      text. */
  lemma SyncedRequest(st: Store, chatID: Uuid, userInput: string)
    requires Valid(st) && HasChat(st, chatID) && InSync(st, chatID)
    ensures var request := BuildRequest(st, chatID, userInput);
      && |Filter(request.messages, IsSystemWire)| == 1
      && WireMessage("system", SelectedSystemPrompt(st, chatID).value.content) in request.messages
  {
    var history := Outbound(st, chatID);
    SyncedHistory(st, chatID);
    if userInput != "" {
      FilterAppend(history, [WireMessage("user", userInput)], IsSystemWire);
    }
  }

  /** Once `ensureDefaultPrompt` has run on a well-formed store, any request
      the chat may send carries exactly one system entry, and it is the
      selected prompt's text. */
  lemma PreparedRequest(st: Store, chatID: Uuid, id: Uuid, userInput: string)
    requires Valid(st) && HasChat(st, chatID) && FreshMessageId(st, id)
    ensures var r := EnsureDefaultPrompt(st, chatID, id);
      HasChat(r, chatID) &&
      (CanSend(r, chatID) ==>
        var request := BuildRequest(r, chatID, userInput);
        && |Filter(request.messages, IsSystemWire)| == 1
        && WireMessage("system", SelectedSystemPrompt(r, chatID).value.content) in request.messages)
  {
    var r := EnsureDefaultPrompt(st, chatID, id);
    EnsureDefaultPromptSyncs(st, chatID, id);
    if CanSend(r, chatID) {
      SyncedRequest(r, chatID, userInput);
    }
  }

  /** An input made only of whitespace and newlines sends no user message;
      any other input is sent without its surrounding blanks. */
  lemma UserInputTrimmed(inputText: string)
    ensures var userInput := Trim(inputText, IsWhitespaceOrNewline);
      && (userInput == "" <==> forall k :: 0 <= k < |inputText| ==> IsWhitespaceOrNewline(inputText[k]))
      && (userInput != "" ==> !IsWhitespaceOrNewline(userInput[0]) && !IsWhitespaceOrNewline(userInput[|userInput| - 1]))
  {
    var userInput := Trim(inputText, IsWhitespaceOrNewline);
    var lead := Leading(inputText, IsWhitespaceOrNewline);
    TrimSpec(inputText, IsWhitespaceOrNewline);
    if userInput != "" {
      assert inputText[lead] == userInput[0];
    }
  }

  /** Appending a user or assistant message keeps the store valid and
      the chat's active messages as they were. */
  lemma AppendPlain(st: Store, chatID: Uuid, m: ChatMessage)
    requires Valid(st) && FreshMessageId(st, m.id)
    requires m.chatID == chatID && m.role != System && m.sendToLLM
    ensures var r := InsertMessage(st, m);
      && Valid(r)
      && OthersUnchanged(st, r, chatID)
      && |ActiveIn(r.messages, chatID)| == |ActiveIn(st.messages, chatID)|
  {
    ValidAfterInsert(st, m);
    ActiveAfterInsert(st.messages, m, chatID);
  }

  /** Storing the user's input keeps the store well-formed, adds nothing
      active, and leaves `replyId` free. */
  lemma StoreUserInputValid(st: Store, chatID: Uuid, userInput: string, userId: Uuid, userTime: Time, replyId: Uuid)
    requires Valid(st) && FreshMessageId(st, userId) && FreshMessageId(st, replyId) && userId != replyId
    ensures var r := StoreUserInput(st, chatID, userInput, userId, userTime);
      && Valid(r)
      && OthersUnchanged(st, r, chatID)
      && |ActiveIn(r.messages, chatID)| == |ActiveIn(st.messages, chatID)|
      && FreshMessageId(r, replyId)
  {
    if userInput != "" {
      AppendPlain(st, chatID, ChatMessage(userId, chatID, User, userInput, userTime, true));
    }
  }

  /** Storing the reply keeps the store well-formed and adds nothing
      active. */
  lemma StoreReplyValid(st: Store, chatID: Uuid, result: StreamResult, replyId: Uuid, replyTime: Time)
    requires Valid(st) && FreshMessageId(st, replyId)
    ensures var r := StoreReply(st, chatID, result, replyId, replyTime);
      && Valid(r)
      && OthersUnchanged(st, r, chatID)
      && |ActiveIn(r.messages, chatID)| == |ActiveIn(st.messages, chatID)|
  {
    var text := Concat(result.fragments);
    if result.Succeeded() && text != "" {
      AppendPlain(st, chatID, ChatMessage(replyId, chatID, Assistant, text, replyTime, true));
    }
  }

  /** A send keeps the store well-formed, adds nothing active, and touches
      no other chat. */
  lemma SendMessageValid(
    st: Store, chatID: Uuid, inputText: string, streamingContent: string,
    userId: Uuid, userTime: Time, replyId: Uuid, replyTime: Time,
    server: (string, ChatRequest) -> HttpResponse, decode: string -> Option<Chunk>)
    requires Valid(st) && HasChat(st, chatID)
    requires FreshMessageId(st, userId) && FreshMessageId(st, replyId) && userId != replyId
    ensures var o := SendMessage(st, chatID, inputText, streamingContent, userId, userTime, replyId, replyTime, server, decode);
      && Valid(o.store)
      && OthersUnchanged(st, o.store, chatID)
      && |ActiveIn(o.store.messages, chatID)| == |ActiveIn(st.messages, chatID)|
  {
    if CanSend(st, chatID) {
      var userInput := Trim(inputText, IsWhitespaceOrNewline);
      var request := BuildRequest(st, chatID, userInput);
      var result := StreamChatCompletion(ServerURL(st), request, server, decode);
      var withUser := StoreUserInput(st, chatID, userInput, userId, userTime);
      StoreUserInputValid(st, chatID, userInput, userId, userTime, replyId);
      StoreReplyValid(withUser, chatID, result, replyId, replyTime);
    }
  }
}

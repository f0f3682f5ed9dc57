/** The persisted records (`Settings`, `Chat`, `ChatMessage`,
    `SystemPrompt`), their defaults, the store that holds them, the sorted
    queries the views run against it, and the store's well-formedness. */
module Models {
  import opened Wrappers
  import opened Seqs

  /** A record identity (a UUID in the app). */
  type Uuid = nat

  /** A point in time, in whole seconds since 1970-01-01 (a `Date`). */
  type Time = int

  /** The three roles a message can have. The app stores the role as a free
      string; the model closes it and maps it to the wire at the boundary. */
  datatype Role = User | Assistant | System

  /** The wire spelling of a role. */
  function RoleName(role: Role): string {
    match role
    case User => "user"
    case Assistant => "assistant"
    case System => "system"
  }

  /** Reads a wire role back; the only strings accepted are the three
      spellings `RoleName` produces. */
  function ParseRole(name: string): (r: Option<Role>)
    ensures r.Some? <==> name in {"user", "assistant", "system"}
    ensures r.Some? ==> RoleName(r.value) == name
    ensures forall role :: name == RoleName(role) ==> r == Some(role)
  {
    if name == "user" then Some(User)
    else if name == "assistant" then Some(Assistant)
    else if name == "system" then Some(System)
    else None
  }

  datatype Settings = Settings(id: Uuid, serverURL: string, fontSize: real)

  const DefaultServerURL: string := "http://10.0.0.2:1234"
  const DefaultFontSize: real := 16.0

  /** `Settings()` with every default. */
  function DefaultSettings(id: Uuid): (s: Settings)
    ensures s.id == id && s.serverURL == DefaultServerURL && s.fontSize == DefaultFontSize
  {
    Settings(id, DefaultServerURL, DefaultFontSize)
  }

  datatype Chat = Chat(
    id: Uuid,
    title: string,
    timestamp: Time,
    systemPromptID: Option<Uuid>,
    modelID: Option<string>)

  /** `Chat(title:)`: a new chat has neither a prompt nor a model. */
  function NewChat(id: Uuid, title: string, timestamp: Time): (c: Chat)
    ensures c.id == id && c.title == title && c.timestamp == timestamp
    ensures c.systemPromptID == None && c.modelID == None
  {
    Chat(id, title, timestamp, None, None)
  }

  datatype ChatMessage = ChatMessage(
    id: Uuid,
    chatID: Uuid,
    role: Role,
    content: string,
    timestamp: Time,
    sendToLLM: bool)

  /** `ChatMessage(chatID:role:content:timestamp:)` without an explicit
      `sendToLLM`: the flag defaults to true. */
  function NewMessage(id: Uuid, chatID: Uuid, role: Role, content: string, timestamp: Time): (m: ChatMessage)
    ensures m.sendToLLM
    ensures m.id == id && m.chatID == chatID && m.role == role && m.content == content && m.timestamp == timestamp
  {
    ChatMessage(id, chatID, role, content, timestamp, true)
  }

  /** The chat's active system message: role system and sent to the model. */
  predicate IsActive(m: ChatMessage) {
    m.role == System && m.sendToLLM
  }

  datatype SystemPrompt = SystemPrompt(
    id: Uuid,
    title: string,
    content: string,
    timestamp: Time,
    isHidden: bool)

  /** `SystemPrompt(title:content:)`: a new prompt is visible. */
  function NewPrompt(id: Uuid, title: string, content: string, timestamp: Time): (p: SystemPrompt)
    ensures !p.isHidden
    ensures p.id == id && p.title == title && p.content == content && p.timestamp == timestamp
  {
    SystemPrompt(id, title, content, timestamp, false)
  }

  /** The persistent store: every record of each type, in store order. */
  datatype Store = Store(
    settings: seq<Settings>,
    chats: seq<Chat>,
    messages: seq<ChatMessage>,
    prompts: seq<SystemPrompt>)

  // ---------------------------------------------------------------------
  // Keys and predicates, named so that every use is the same term

  function ChatKey(c: Chat): int { c.id }
  function MessageKey(m: ChatMessage): int { m.id }
  function PromptKey(p: SystemPrompt): int { p.id }

  /** Sort key for newest-first order. */
  function ChatRecency(c: Chat): int { -c.timestamp }

  /** Sort key for newest-first order. */
  function PromptRecency(p: SystemPrompt): int { -p.timestamp }

  /** Sort key for oldest-first order. */
  function MessageTime(m: ChatMessage): int { m.timestamp }

  function ChatIdIs(id: Uuid): Chat -> bool { (c: Chat) => c.id == id }
  function PromptIdIs(id: Uuid): SystemPrompt -> bool { (p: SystemPrompt) => p.id == id }
  function BelongsTo(chatID: Uuid): ChatMessage -> bool { (m: ChatMessage) => m.chatID == chatID }
  function ActiveFor(chatID: Uuid): ChatMessage -> bool { (m: ChatMessage) => m.chatID == chatID && IsActive(m) }
  function IsVisible(p: SystemPrompt): bool { !p.isHidden }

  /** The active system messages of one chat, wherever they sit in `msgs`. */
  function ActiveIn(msgs: seq<ChatMessage>, chatID: Uuid): (r: seq<ChatMessage>)
    ensures forall m :: m in r <==> m in msgs && m.chatID == chatID && IsActive(m)
  {
    Filter(msgs, ActiveFor(chatID))
  }

  // ---------------------------------------------------------------------
  // Queries

  predicate HasChat(st: Store, id: Uuid) {
    exists i :: 0 <= i < |st.chats| && st.chats[i].id == id
  }

  /** The chat record with identity `id`. */
  function ChatOf(st: Store, id: Uuid): (c: Chat)
    requires HasChat(st, id)
    ensures c in st.chats && c.id == id
  {
    First(st.chats, ChatIdIs(id)).value
  }

  /** `@Query(sort: \Chat.timestamp, order: .reverse)`: newest first. */
  function ChatsByRecency(st: Store): (r: seq<Chat>)
    ensures forall i, j :: 0 <= i < j < |r| ==> r[i].timestamp >= r[j].timestamp
    ensures multiset(r) == multiset(st.chats)
  {
    var r := SortBy(st.chats, ChatRecency);
    assert forall i, j :: 0 <= i < j < |r| ==> ChatRecency(r[i]) <= ChatRecency(r[j]);
    r
  }

  /** `@Query(sort: \SystemPrompt.timestamp, order: .reverse)`: newest first. */
  function PromptsByRecency(st: Store): (r: seq<SystemPrompt>)
    ensures forall i, j :: 0 <= i < j < |r| ==> r[i].timestamp >= r[j].timestamp
    ensures multiset(r) == multiset(st.prompts)
    ensures forall p :: p in r <==> p in st.prompts
  {
    var r := SortBy(st.prompts, PromptRecency);
    assert forall i, j :: 0 <= i < j < |r| ==> PromptRecency(r[i]) <= PromptRecency(r[j]);
    r
  }

  /** `allPrompts.first`: a newest prompt, hidden or not. */
  function NewestPrompt(st: Store): (r: Option<SystemPrompt>)
    ensures r.Some? <==> |st.prompts| > 0
    ensures r.Some? ==> r.value in st.prompts
    ensures r.Some? ==> forall p :: p in st.prompts ==> p.timestamp <= r.value.timestamp
  {
    var sorted := PromptsByRecency(st);
    if |sorted| > 0 then
      assert sorted[0] in sorted;
      assert forall p :: p in st.prompts ==> p in sorted;
      Some(sorted[0])
    else None
  }

  /** `allPrompts.first(where: { $0.id == id })`. */
  function PromptById(st: Store, id: Uuid): (r: Option<SystemPrompt>)
    ensures r.Some? <==> exists p :: p in st.prompts && p.id == id
    ensures r.Some? ==> r.value in st.prompts && r.value.id == id
  {
    var sorted := PromptsByRecency(st);
    var r := First(sorted, PromptIdIs(id));
    assert r.None? ==> forall p :: p in st.prompts ==> p !in sorted || p.id != id;
    r
  }

  /** `allPrompts.filter { !$0.isHidden }`: the prompts offered to the user,
      newest first. */
  function VisiblePrompts(st: Store): (r: seq<SystemPrompt>)
    ensures forall p :: p in r <==> p in st.prompts && !p.isHidden
    ensures forall i, j :: 0 <= i < j < |r| ==> r[i].timestamp >= r[j].timestamp
    ensures multiset(r) == multiset(Filter(st.prompts, IsVisible))
  {
    FilterSorted(PromptsByRecency(st), IsVisible, PromptRecency);
    FilterMultiset(PromptsByRecency(st), IsVisible);
    FilterMultiset(st.prompts, IsVisible);
    Filter(PromptsByRecency(st), IsVisible)
  }

  /** The `ChatDetailView` message query: the chat's messages, oldest first. */
  function ChatMessages(st: Store, chatID: Uuid): (r: seq<ChatMessage>)
    ensures forall i, j :: 0 <= i < j < |r| ==> r[i].timestamp <= r[j].timestamp
    ensures forall m :: m in r <==> m in st.messages && m.chatID == chatID
    ensures multiset(r) == multiset(Filter(st.messages, BelongsTo(chatID)))
  {
    var r := SortBy(Filter(st.messages, BelongsTo(chatID)), MessageTime);
    assert forall i, j :: 0 <= i < j < |r| ==> MessageTime(r[i]) <= MessageTime(r[j]);
    r
  }

  // ---------------------------------------------------------------------
  // Store mutations (the effect of `context.insert` / `delete` / a field
  // write followed by `save()`, whose failure the app ignores)

  /** Applies `f` to the chat with identity `id`. */
  function UpdateChat(st: Store, id: Uuid, f: Chat -> Chat): (r: Store)
    requires forall c :: f(c).id == c.id
    ensures |r.chats| == |st.chats|
    ensures forall i :: 0 <= i < |st.chats| ==>
              r.chats[i] == if st.chats[i].id == id then f(st.chats[i]) else st.chats[i]
    ensures r.messages == st.messages && r.prompts == st.prompts && r.settings == st.settings
  {
    st.(chats := Map(st.chats, (c: Chat) => if c.id == id then f(c) else c))
  }

  function SetPromptID(st: Store, chatID: Uuid, promptID: Option<Uuid>): (r: Store)
    ensures |r.chats| == |st.chats|
    ensures forall i :: 0 <= i < |st.chats| ==>
              r.chats[i] == if st.chats[i].id == chatID then st.chats[i].(systemPromptID := promptID) else st.chats[i]
    ensures r.messages == st.messages && r.prompts == st.prompts && r.settings == st.settings
  {
    UpdateChat(st, chatID, WithPromptID(promptID))
  }

  function WithPromptID(promptID: Option<Uuid>): Chat -> Chat { (c: Chat) => c.(systemPromptID := promptID) }
  function Retitled(title: string): Chat -> Chat { (c: Chat) => c.(title := title) }
  function WithModel(modelID: Option<string>): Chat -> Chat { (c: Chat) => c.(modelID := modelID) }

  function InsertMessage(st: Store, m: ChatMessage): (r: Store)
    ensures r.messages == st.messages + [m]
    ensures r.chats == st.chats && r.prompts == st.prompts && r.settings == st.settings
  {
    st.(messages := st.messages + [m])
  }

  /** Overwrites the content of the message with identity `id`. */
  function SetMessageContent(st: Store, id: Uuid, content: string): (r: Store)
    ensures |r.messages| == |st.messages|
    ensures forall i :: 0 <= i < |st.messages| ==>
              r.messages[i] == if st.messages[i].id == id then st.messages[i].(content := content) else st.messages[i]
    ensures r.chats == st.chats && r.prompts == st.prompts && r.settings == st.settings
  {
    st.(messages := Map(st.messages, WithContent(id, content)))
  }

  function WithContent(id: Uuid, content: string): ChatMessage -> ChatMessage {
    (m: ChatMessage) => if m.id == id then m.(content := content) else m
  }

  function MessageIdIsNot(id: Uuid): ChatMessage -> bool { (m: ChatMessage) => m.id != id }

  /** Deletes the message with identity `id`. */
  function RemoveMessage(st: Store, id: Uuid): (r: Store)
    ensures forall m :: m in r.messages <==> m in st.messages && m.id != id
    ensures r.chats == st.chats && r.prompts == st.prompts && r.settings == st.settings
  {
    st.(messages := Filter(st.messages, MessageIdIsNot(id)))
  }

  /** `settingsList.first ?? Settings()`: the server base URL in effect. */
  function ServerURL(st: Store): (url: string)
    ensures |st.settings| == 0 ==> url == DefaultServerURL
    ensures |st.settings| > 0 ==> url == st.settings[0].serverURL
  {
    if |st.settings| > 0 then st.settings[0].serverURL else DefaultServerURL
  }

  /** Updating one chat by identity changes what `ChatOf` finds for it by
      `f` and nothing else. */
  lemma ChatOfUpdate(st: Store, id: Uuid, f: Chat -> Chat, other: Uuid)
    requires forall c :: f(c).id == c.id
    requires HasChat(st, other)
    ensures HasChat(UpdateChat(st, id, f), other)
    ensures ChatOf(UpdateChat(st, id, f), other) == if other == id then f(ChatOf(st, other)) else ChatOf(st, other)
  {
    var r := UpdateChat(st, id, f);
    var k :| 0 <= k < |st.chats| && st.chats[k].id == other;
    assert r.chats[k].id == other;
    IndexOfPointwise(st.chats, r.chats, ChatIdIs(other));
  }

  // ---------------------------------------------------------------------
  // Well-formedness

  /** Ids are unique per record type (UUIDs); a chat has at most one active
      system message; a chat without a prompt has none; and only
      system-role messages are ever withheld from the model. */
  ghost predicate Valid(st: Store) {
    && Distinct(st.chats, ChatKey)
    && Distinct(st.messages, MessageKey)
    && Distinct(st.prompts, PromptKey)
    && (forall chatID :: |ActiveIn(st.messages, chatID)| <= 1)
    && (forall c :: c in st.chats && c.systemPromptID.None? ==> |ActiveIn(st.messages, c.id)| == 0)
    && (forall m :: m in st.messages && m.role != System ==> m.sendToLLM)
  }

  /** `id` names no message yet. */
  predicate FreshMessageId(st: Store, id: Uuid) {
    forall m :: m in st.messages ==> m.id != id
  }

  /** `id` names no prompt yet. */
  predicate FreshPromptId(st: Store, id: Uuid) {
    forall p :: p in st.prompts ==> p.id != id
  }

  /** `id` names no chat yet, and no stored message points at it. */
  predicate FreshChatId(st: Store, id: Uuid) {
    && (forall c :: c in st.chats ==> c.id != id)
    && (forall m :: m in st.messages ==> m.chatID != id)
  }

  /** A chat identity no message points at has no active message. */
  lemma NoActiveForFreshChat(st: Store, id: Uuid)
    requires FreshChatId(st, id)
    ensures ActiveIn(st.messages, id) == []
  {
    forall i | 0 <= i < |st.messages|
      ensures !ActiveFor(id)(st.messages[i])
    {
      assert st.messages[i] in st.messages;
    }
    FilterNone(st.messages, ActiveFor(id));
  }

  /** With distinct ids, `ChatOf` finds every stored chat by its id. */
  lemma ChatOfUnique(st: Store, c: Chat)
    requires Distinct(st.chats, ChatKey) && c in st.chats
    ensures HasChat(st, c.id) && ChatOf(st, c.id) == c
  {
    var j :| 0 <= j < |st.chats| && st.chats[j] == c;
    assert st.chats[j].id == c.id;
    var d := ChatOf(st, c.id);
    var i :| 0 <= i < |st.chats| && st.chats[i] == d;
    assert ChatKey(st.chats[i]) == d.id == c.id == ChatKey(st.chats[j]);
  }

  /** With distinct ids, `PromptById` finds every stored prompt by its id. */
  lemma PromptByIdUnique(st: Store, p: SystemPrompt)
    requires Distinct(st.prompts, PromptKey) && p in st.prompts
    ensures PromptById(st, p.id) == Some(p)
  {
    var q := PromptById(st, p.id).value;
    var j :| 0 <= j < |st.prompts| && st.prompts[j] == p;
    var i :| 0 <= i < |st.prompts| && st.prompts[i] == q;
    assert PromptKey(st.prompts[i]) == PromptKey(st.prompts[j]);
  }

  /** With distinct ids, the message with a given id is the only one. */
  lemma MessageUnique(st: Store, m: ChatMessage, n: ChatMessage)
    requires Distinct(st.messages, MessageKey)
    requires m in st.messages && n in st.messages && m.id == n.id
    ensures m == n
  {
    var j :| 0 <= j < |st.messages| && st.messages[j] == m;
    var i :| 0 <= i < |st.messages| && st.messages[i] == n;
    assert MessageKey(st.messages[i]) == MessageKey(st.messages[j]);
  }

  lemma FreshAfterSetContent(st: Store, id: Uuid, content: string, x: Uuid)
    requires FreshMessageId(st, x)
    ensures FreshMessageId(SetMessageContent(st, id, content), x)
  {
    var r := SetMessageContent(st, id, content);
    forall m | m in r.messages
      ensures m.id != x
    {
      var i :| 0 <= i < |r.messages| && r.messages[i] == m;
      assert st.messages[i] in st.messages;
    }
  }

  /** The messages of every chat other than `chatID` are the same in both
      stores. */
  ghost predicate OthersUnchanged(st: Store, r: Store, chatID: Uuid) {
    forall m: ChatMessage :: m.chatID != chatID ==> (m in r.messages <==> m in st.messages)
  }

  lemma OthersAfterSetContent(st: Store, sm: ChatMessage, content: string)
    requires Distinct(st.messages, MessageKey) && sm in st.messages
    ensures OthersUnchanged(st, SetMessageContent(st, sm.id, content), sm.chatID)
  {
    var r := SetMessageContent(st, sm.id, content);
    forall m: ChatMessage | m.chatID != sm.chatID
      ensures m in r.messages <==> m in st.messages
    {
      if m in st.messages {
        var i :| 0 <= i < |st.messages| && st.messages[i] == m;
        if m.id == sm.id {
          MessageUnique(st, m, sm);
        }
        assert r.messages[i] == m;
      }
      if m in r.messages {
        var i :| 0 <= i < |r.messages| && r.messages[i] == m;
        if st.messages[i].id == sm.id {
          assert st.messages[i] in st.messages;
          MessageUnique(st, st.messages[i], sm);
        }
      }
    }
  }

  lemma OthersAfterRemove(st: Store, sm: ChatMessage)
    requires Distinct(st.messages, MessageKey) && sm in st.messages
    ensures OthersUnchanged(st, RemoveMessage(st, sm.id), sm.chatID)
  {
    forall m: ChatMessage | m.chatID != sm.chatID && m in st.messages
      ensures m.id != sm.id
    {
      if m.id == sm.id {
        MessageUnique(st, m, sm);
      }
    }
  }

  /** No chat is added or removed, and every chat other than `chatID` is
      stored in `r` as it was. */
  ghost predicate OtherChatsKept(st: Store, r: Store, chatID: Uuid) {
    && |r.chats| == |st.chats|
    && forall c :: c in st.chats && c.id != chatID ==> c in r.chats
  }

  /** Updating one chat by identity leaves every other chat record alone. */
  lemma OtherChatsAfterUpdate(st: Store, id: Uuid, f: Chat -> Chat)
    requires forall c :: f(c).id == c.id
    ensures OtherChatsKept(st, UpdateChat(st, id, f), id)
  {
    var r := UpdateChat(st, id, f);
    forall c | c in st.chats && c.id != id
      ensures c in r.chats
    {
      var i :| 0 <= i < |st.chats| && st.chats[i] == c;
      assert r.chats[i] == c;
    }
  }

  /** Rewriting one message's text keeps every other message where it was
      and puts the rewritten one in its place. */
  lemma KeptAfterSetContent(st: Store, sm: ChatMessage, content: string)
    requires Distinct(st.messages, MessageKey) && sm in st.messages
    ensures var r := SetMessageContent(st, sm.id, content);
      && (forall m :: m in st.messages && m != sm ==> m in r.messages)
      && sm.(content := content) in r.messages
  {
    var r := SetMessageContent(st, sm.id, content);
    forall m | m in st.messages && m != sm
      ensures m in r.messages
    {
      var i :| 0 <= i < |st.messages| && st.messages[i] == m;
      if m.id == sm.id {
        MessageUnique(st, m, sm);
      }
      assert r.messages[i] == m;
    }
    var j :| 0 <= j < |st.messages| && st.messages[j] == sm;
    assert r.messages[j] == sm.(content := content);
  }

  /** Deleting a stored message by its identity cuts exactly its position
      out of the store. */
  lemma KeptAfterRemove(st: Store, sm: ChatMessage)
    requires Distinct(st.messages, MessageKey) && sm in st.messages
    ensures exists i :: 0 <= i < |st.messages| && st.messages[i] == sm &&
              RemoveMessage(st, sm.id).messages == st.messages[..i] + st.messages[i + 1..]
    ensures |RemoveMessage(st, sm.id).messages| == |st.messages| - 1
    ensures forall m :: m in st.messages && m != sm ==> m in RemoveMessage(st, sm.id).messages
  {
    var i :| 0 <= i < |st.messages| && st.messages[i] == sm;
    forall j | 0 <= j < |st.messages| && j != i
      ensures MessageIdIsNot(sm.id)(st.messages[j])
    {
      assert MessageKey(st.messages[j]) != MessageKey(st.messages[i]);
    }
    FilterDropsOne(st.messages, MessageIdIsNot(sm.id), i);
    forall m | m in st.messages && m != sm
      ensures m.id != sm.id
    {
      if m.id == sm.id {
        MessageUnique(st, m, sm);
      }
    }
  }

  // ---------------------------------------------------------------------
  // How the mutations move the count of active messages

  lemma ActiveAfterInsert(msgs: seq<ChatMessage>, m: ChatMessage, chatID: Uuid)
    ensures |ActiveIn(msgs + [m], chatID)| ==
              |ActiveIn(msgs, chatID)| + if m.chatID == chatID && IsActive(m) then 1 else 0
  {
    FilterAppend(msgs, [m], ActiveFor(chatID));
  }

  lemma ActiveAfterSetContent(st: Store, id: Uuid, content: string, chatID: Uuid)
    ensures |ActiveIn(SetMessageContent(st, id, content).messages, chatID)| == |ActiveIn(st.messages, chatID)|
  {
    FilterMapLength(st.messages, WithContent(id, content), ActiveFor(chatID), ActiveFor(chatID));
  }

  lemma ActiveAfterRemove(st: Store, id: Uuid, chatID: Uuid)
    ensures |ActiveIn(RemoveMessage(st, id).messages, chatID)| <= |ActiveIn(st.messages, chatID)|
    ensures (exists m :: m in st.messages && m.id == id && m.chatID == chatID && IsActive(m)) ==>
              |ActiveIn(RemoveMessage(st, id).messages, chatID)| < |ActiveIn(st.messages, chatID)|
  {
    FilterFilterLength(st.messages, MessageIdIsNot(id), ActiveFor(chatID));
  }

  // ---------------------------------------------------------------------
  // The mutations keep the store well-formed

  /** Inserting a fresh message keeps the store valid, provided a system
      message is only made active for a chat that has none and is not
      without a prompt, and non-system messages are sent to the model. */
  lemma ValidAfterInsert(st: Store, m: ChatMessage)
    requires Valid(st) && FreshMessageId(st, m.id)
    requires m.role != System ==> m.sendToLLM
    requires IsActive(m) ==> |ActiveIn(st.messages, m.chatID)| == 0
    requires IsActive(m) ==> forall c :: c in st.chats && c.id == m.chatID ==> c.systemPromptID.Some?
    ensures Valid(InsertMessage(st, m))
  {
    var r := InsertMessage(st, m);
    forall chatID
      ensures |ActiveIn(r.messages, chatID)| <= 1
    {
      ActiveAfterInsert(st.messages, m, chatID);
    }
    forall c | c in r.chats && c.systemPromptID.None?
      ensures |ActiveIn(r.messages, c.id)| == 0
    {
      ActiveAfterInsert(st.messages, m, c.id);
    }
    assert Distinct(r.messages, MessageKey) by {
      forall i, j | 0 <= i < j < |r.messages|
        ensures MessageKey(r.messages[i]) != MessageKey(r.messages[j])
      {
        if j == |st.messages| {
          assert r.messages[i] == st.messages[i];
          assert st.messages[i] in st.messages;
        }
      }
    }
  }

  lemma ValidAfterSetContent(st: Store, id: Uuid, content: string)
    requires Valid(st)
    ensures Valid(SetMessageContent(st, id, content))
  {
    var r := SetMessageContent(st, id, content);
    forall chatID
      ensures |ActiveIn(r.messages, chatID)| == |ActiveIn(st.messages, chatID)|
    {
      ActiveAfterSetContent(st, id, content, chatID);
    }
    forall m | m in r.messages && m.role != System
      ensures m.sendToLLM
    {
      var i :| 0 <= i < |r.messages| && r.messages[i] == m;
      assert st.messages[i] in st.messages;
    }
    assert Distinct(r.messages, MessageKey) by {
      forall i, j | 0 <= i < j < |r.messages|
        ensures MessageKey(r.messages[i]) != MessageKey(r.messages[j])
      {
        assert MessageKey(r.messages[i]) == MessageKey(st.messages[i]);
        assert MessageKey(r.messages[j]) == MessageKey(st.messages[j]);
      }
    }
  }

  lemma ValidAfterRemove(st: Store, id: Uuid)
    requires Valid(st)
    ensures Valid(RemoveMessage(st, id))
  {
    var r := RemoveMessage(st, id);
    forall chatID
      ensures |ActiveIn(r.messages, chatID)| <= |ActiveIn(st.messages, chatID)|
    {
      ActiveAfterRemove(st, id, chatID);
    }
    FilterDistinct(st.messages, MessageIdIsNot(id), MessageKey);
  }

  /** Pointing a chat at a prompt keeps the store valid; clearing its prompt
      does too once the chat has no active message. */
  lemma ValidAfterSetPromptID(st: Store, chatID: Uuid, promptID: Option<Uuid>)
    requires Valid(st)
    requires promptID.None? ==> |ActiveIn(st.messages, chatID)| == 0
    ensures Valid(SetPromptID(st, chatID, promptID))
  {
    var r := SetPromptID(st, chatID, promptID);
    forall c | c in r.chats && c.systemPromptID.None?
      ensures |ActiveIn(r.messages, c.id)| == 0
    {
      var i :| 0 <= i < |r.chats| && r.chats[i] == c;
      assert st.chats[i] in st.chats;
    }
    assert Distinct(r.chats, ChatKey) by {
      forall i, j | 0 <= i < j < |r.chats|
        ensures ChatKey(r.chats[i]) != ChatKey(r.chats[j])
      {
        assert ChatKey(r.chats[i]) == ChatKey(st.chats[i]);
        assert ChatKey(r.chats[j]) == ChatKey(st.chats[j]);
      }
    }
  }

  /** Rewriting fields of a chat other than its identity and its prompt
      keeps the store valid. */
  lemma ValidAfterUpdateChat(st: Store, id: Uuid, f: Chat -> Chat)
    requires Valid(st)
    requires forall c :: f(c).id == c.id && f(c).systemPromptID == c.systemPromptID
    ensures Valid(UpdateChat(st, id, f))
  {
    var r := UpdateChat(st, id, f);
    forall c | c in r.chats && c.systemPromptID.None?
      ensures |ActiveIn(r.messages, c.id)| == 0
    {
      var i :| 0 <= i < |r.chats| && r.chats[i] == c;
      assert st.chats[i] in st.chats;
    }
    assert Distinct(r.chats, ChatKey) by {
      forall i, j | 0 <= i < j < |r.chats|
        ensures ChatKey(r.chats[i]) != ChatKey(r.chats[j])
      {
        assert ChatKey(r.chats[i]) == ChatKey(st.chats[i]);
        assert ChatKey(r.chats[j]) == ChatKey(st.chats[j]);
      }
    }
  }
}

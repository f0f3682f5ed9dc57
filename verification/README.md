# LocalAI chat client — Dafny model

This project models the core of LocalAI, a SwiftUI chat client for an
OpenAI-compatible completion server (LM Studio and similar). It covers two
parts.

- **The streaming protocol client.** `NetworkManager` lists the server's
  models and streams a chat completion. The stream arrives as `data:`
  lines, ends at a `[DONE]` frame, and yields one text fragment per chunk
  choice that has delta content.
- **The conversation state machine.** It is spread over the views.
  - Every chat may hold one *active system message* (role `system`,
    `sendToLLM` true). This message carries the text of the chat's selected
    system prompt to the model.
  - Only two operations bring that message back in step with the prompt:
    opening a chat (`ensureDefaultPrompt`) and changing the prompt
    (`applySystemPromptChange`). Both keep every other message of the chat.
  - The other operations preserve `Models.Valid` but do not re-sync. Editing
    the active message or the prompt's text leaves the two apart until the
    chat is next opened. Deleting the prompt leaves the chat stranded.
  - *Notes* are system messages with `sendToLLM` false ("System prompt
    changed to: …", "Model changed to: …"). They are shown but never sent.

The persistent store (SwiftData) is an immutable `Store` of four sequences:
settings, chats, messages and prompts.
- Each view action is a pure function from store to store.
- Fresh identities and clock readings are parameters.
- Sorted queries are a stable insertion sort on the timestamp. Ties keep
  store order.
- The well-formedness predicate `Models.Valid` holds:
  - identities are distinct;
  - each chat has at most one active system message;
  - a chat without a prompt has none;
  - every non-system message is sent.

Every operation is proved to preserve `Valid`.

Modules, one per source file:

| module | source file |
|---|---|
| `Wrappers` | Option and Result |
| `Seqs` | filter, map, first-where, stable sort |
| `Text` | character trimming and concatenation |
| `Models` | `Models.swift` and the shared queries |
| `Network` | `NetworkManager.swift` |
| `ChatDetail` | `ChatDetailView.swift` |
| `ContentView` | `ContentView.swift` |
| `ModelSelection` | `ModelSelectionView.swift` |
| `PromptSelection` | `SystemPromptSelectionView.swift` |
| `SystemPrompts` | `SystemPromptsView.swift` |
| `MessageEditor` | `ChatMessageEditorView.swift` |
| `ChatsList` | `ChatsListView.swift` |

Where the code and the documented design of the app disagree, the model
follows the code.
- **A failed stream leaves the partial reply on screen.** The design says
  the transient buffer is discarded on failure. The code only logs the
  error, so `streamingContent` keeps what arrived (`ChatDetail.SendMessage`).
- **The outbound filter is `role != "system" || sendToLLM`.** The design
  says no `sendToLLM = false` message is ever sent. Under the code's filter,
  a user or assistant message with the flag off would be sent. No operation
  creates such a message, and `Models.Valid` rules it out.
  `ChatDetail.OutboundContents` proves that, in a well-formed store, only
  flagged messages go out.
- **`addChat` creates an active message, not a note.** Its "System prompt
  selected: …" message gets the default `sendToLLM = true`. It therefore
  becomes the chat's active system message. Opening the chat then
  overwrites its text with the prompt's (`ContentView.AddChatThenOpen`).

Behaviour of the code worth knowing, proved here:
- **A deleted prompt strands its chats.** Such a chat can no longer send,
  and opening it repairs nothing (`SystemPrompts.DeletedPromptStrandsChat`).
- **`loadModels` never clears the error text.** Called on a sheet state
  that already holds an error, even a successful load still shows the
  error (`ModelSelection.StaleErrorPersists`). This is a property of
  `loadModels` itself. The sheet calls it only when it appears, and each
  presentation starts from fresh state (`ModelSelection.InitialPicker`),
  so a user does not normally see it.
- **Deleting a chat leaves its messages in the store**
  (`ChatsList.DeleteChatsValid`).

## Model

| member | source | states |
|---|---|---|
| Models.ParseRole | LocalAI/Models.swift:38 | the three role strings are exactly the ones accepted, and reading back a role's wire spelling gives that role |
| Models.DefaultSettings | LocalAI/Models.swift:10-14 | a default settings record points at http://10.0.0.2:1234 with font size 16 |
| Models.NewChat | LocalAI/Models.swift:25-31 | a new chat has no prompt and no model |
| Models.NewMessage | LocalAI/Models.swift:43-50 | a message created without the flag is sent to the model |
| Models.NewPrompt | LocalAI/Models.swift:61-67 | a new prompt is visible |
| Models.ChatsByRecency | LocalAI/ContentView.swift:6 | the chat list is a permutation of the stored chats, newest first |
| Models.NewestPrompt | LocalAI/ContentView.swift:97 | `prompts.first` exists exactly when the catalog is non-empty and is no older than any stored prompt |
| Models.PromptById | LocalAI/ChatDetailView.swift:37 | a prompt is found exactly when one with that id is stored, and the one found has that id |
| Models.VisiblePrompts | LocalAI/SystemPromptsView.swift:14-16 | the listed prompts are exactly the stored non-hidden ones, each as often as it is stored, newest first |
| Models.ChatMessages | LocalAI/ChatDetailView.swift:21-29 | the chat's messages are exactly the stored ones with its id, oldest first |
| Models.ServerURL | LocalAI/ChatDetailView.swift:31-33 | the base URL is the first settings record's, or the default one when there is none |
| Network.ChatCompletionsURL | LocalAI/NetworkManager.swift:104 | the streaming endpoint is the base URL followed by `/v1/chat/completions` |
| Network.StreamChatCompletion | LocalAI/NetworkManager.swift:100-150 | a completion is the parse of what the server answers to the request posted to `/v1/chat/completions` under the base URL |
| Network.FetchModels | LocalAI/NetworkManager.swift:64-71 | listing succeeds exactly when the GET of `/v1/models` answers and decodes, returns the envelope's `data`, and a failed transfer is a transport error |
| Network.ParseResponse | LocalAI/NetworkManager.swift:112-115 | no response is a transport error, a status other than 200 is a server error with no fragment, and any fragment implies status 200 |
| Network.StreamFragments | LocalAI/NetworkManager.swift:100-150 | the line loop with `continue`, `break` and per-choice yields computes exactly the functional parse |
| Network.YieldContents | LocalAI/NetworkManager.swift:136-140 | the choice loop yields each present delta content once, in choice order |
| Network.ParseLinesOutcome | LocalAI/NetworkManager.swift:118-146 | the body runs out normally exactly when every frame decodes and is not `[DONE]` and reading did not throw; a `[DONE]` stop or a decode failure implies such a line exists; no server error arises inside the loop |
| Network.ParseAppend | LocalAI/NetworkManager.swift:118-142 | lines after a prefix matter only if the prefix neither hit `[DONE]` nor failed, and then their fragments follow the prefix's |
| Network.SkipNonDataLine | LocalAI/NetworkManager.swift:121-124 | a line that does not start with `data:` once trimmed yields nothing and ends nothing |
| Network.DoneEndsStream | LocalAI/NetworkManager.swift:127-130 | after `[DONE]` no line, and no later transfer error, changes the fragments or the outcome |
| Network.DecodeFailureStops | LocalAI/NetworkManager.swift:133-146 | an undecodable frame fails the stream there, keeping the fragments yielded before it |
| Network.FrameOrder | LocalAI/NetworkManager.swift:133-140 | a decoded frame's contents come right after all earlier fragments, never reordered |
| Network.SkipStep | LocalAI/NetworkManager.swift:121-124 | a line that is not a `data:` line contributes nothing to the parse of the lines from it on |
| Network.StopStep | LocalAI/NetworkManager.swift:126-135 | at a `[DONE]` frame or an undecodable one the stream ends with the fragments yielded so far, `Done` or a decode failure respectively |
| Network.FrameStep | LocalAI/NetworkManager.swift:133-140 | a decoded frame moves its contents to the end of the fragments yielded so far and the parse continues after it |
| Network.PlainFrame | LocalAI/NetworkManager.swift:121-140 | a `data: <json>` line whose json decodes yields the chunk's contents before whatever the following lines yield |
| Network.OneContent | LocalAI/NetworkManager.swift:137-141 | a choice whose delta carries a text yields exactly that text |
| Network.DoneLine | LocalAI/NetworkManager.swift:126-130 | a lone `data: [DONE]` line ends the stream normally with nothing yielded |
| Network.PayloadOfDataLine | LocalAI/NetworkManager.swift:121-126 | `data: <json>` carries exactly `<json>` |
| Network.HelloStream | LocalAI/NetworkManager.swift:117-144 | two content frames and `[DONE]` yield `["Hel", "lo"]` and finish normally |
| Text.TrimSpec | LocalAI/ChatDetailView.swift:221 | trimming removes exactly the leading and trailing run of the given characters |
| Text.Concat | LocalAI/ChatDetailView.swift:238 | the accumulated reply is empty exactly when every fragment is |
| ChatDetail.SelectedSystemPrompt | LocalAI/ChatDetailView.swift:35-38 | a prompt is selected exactly when the chat has a prompt id that some stored prompt has, and it is that prompt |
| ChatDetail.SystemPromptMessage | LocalAI/ChatDetailView.swift:40-42 | an active system message of the chat is found exactly when the chat has one |
| ChatDetail.CanSend | LocalAI/ChatDetailView.swift:44-49 | sending is allowed exactly when the prompt id resolves and the model id is set and non-empty |
| ChatDetail.PromptMessage | LocalAI/ChatDetailView.swift:186-191 | the created prompt message is active and dated at the epoch |
| ChatDetail.ChangeNote | LocalAI/ChatDetailView.swift:193-198 | a note is a system message that is never sent |
| ChatDetail.EnsureDefaultPromptSyncs | LocalAI/ChatDetailView.swift:146-163 | opening a chat gives a chat without a prompt the newest prompt when there is one; a resolving prompt ends with exactly one active message carrying its text; a chat already in step, or whose prompt does not resolve, is left as it was; at most the one active message is added, an existing one keeps its identity, every other message stays, validity is kept and other chats' records and messages are untouched |
| ChatDetail.EnsureAssignsNewest | LocalAI/ChatDetailView.swift:147-153 | a chat without a prompt gets the newest prompt, and exactly one message is appended: the active message, dated at the epoch, with that prompt's text; no other chat changes |
| ChatDetail.EnsureMaterialises | LocalAI/ChatDetailView.swift:154-157 | a resolving prompt without an active message gets one: exactly that message is appended and nothing else changes |
| ChatDetail.RefreshActive | LocalAI/ChatDetailView.swift:158-161 | overwriting the active message keeps it the single active message, the same record but for its new text, and keeps every other message |
| ChatDetail.EnsureKeepsExisting | LocalAI/ChatDetailView.swift:154-162 | an existing active message is reused: no message is added and the active one keeps its identity |
| ChatDetail.OpenRewritesActive | LocalAI/ChatDetailView.swift:154-162 | opening such a chat rewrites its active message in place to the prompt's text |
| ChatDetail.EnsureDefaultPromptIdempotent | LocalAI/ChatDetailView.swift:146-163 | opening a chat a second time changes nothing |
| ChatDetail.SyncActiveSpec | LocalAI/ChatDetailView.swift:167-173 | update-or-create leaves exactly one active message carrying the given text: an existing one is rewritten in place, otherwise exactly one is appended; every other message stays |
| ChatDetail.ClearActiveSpec | LocalAI/ChatDetailView.swift:176-181 | the active message, if any, is the only message removed; the chat is left with none and the store valid |
| ChatDetail.AppendNoteKeepsActive | LocalAI/ChatDetailView.swift:193-198 | appending a note does not change which message is active |
| ChatDetail.ApplySystemPromptChangeNotes | LocalAI/ChatDetailView.swift:165-184 | a prompt change keeps every message of the chat but the active one and appends exactly one note, "changed to: title" or "cleared.", as the newest message; the count rises by one, plus one when the active message is created, less one when it is deleted; validity is kept and other chats are left alone |
| ChatDetail.ApplySystemPromptChangeSyncs | LocalAI/ChatDetailView.swift:165-184 | after a prompt change a resolving prompt has exactly one active message with its text, the existing one rewritten in place (same identity and fields) or a new one under the given identity; an unresolved prompt leaves none |
| ChatDetail.DeleteMessage | LocalAI/ChatDetailView.swift:200-207 | exactly the messages with the given id are removed; the prompts, the settings and every other chat record stay as they were |
| ChatDetail.DeleteMessageSpec | LocalAI/ChatDetailView.swift:200-207 | deleting the active message also unassigns the prompt and disables sending; deleting any other message leaves the chat and its active message as they were |
| ChatDetail.RenameChatSpec | LocalAI/ChatDetailView.swift:133-138 | renaming changes only the renamed chat's title: no chat is added or removed, every other chat record, the messages, the prompts and the settings stay as they were, and the store stays well-formed |
| ChatDetail.BuildRequest | LocalAI/ChatDetailView.swift:217-233 | the request carries the model id or "", 256 tokens, temperature 0.7, streaming, and the outbound history followed by the trimmed input if any |
| ChatDetail.OutboundSystemCount | LocalAI/ChatDetailView.swift:217-219 | the history sends as many system entries as the chat has active messages |
| ChatDetail.OutboundContents | LocalAI/ChatDetailView.swift:217-219 | in a valid store the history is the chat's messages flagged for the model, oldest first, each once, in wire form |
| ChatDetail.SyncedHistory | LocalAI/ChatDetailView.swift:217-219 | when the prompt and the active message agree, the history carries exactly one system entry, the selected prompt's text |
| ChatDetail.SyncedRequest | LocalAI/ChatDetailView.swift:217-233 | when the prompt and the active message agree, the request, with or without user input, carries exactly one system entry, the selected prompt's text |
| ChatDetail.PreparedRequest | LocalAI/ChatDetailView.swift:209-233 | after opening, any request the chat may send has exactly one system entry, the selected prompt's text |
| ChatDetail.UserInputTrimmed | LocalAI/ChatDetailView.swift:221-222 | blank input sends no user message, and other input is sent without surrounding blanks |
| ChatDetail.SendMessage | LocalAI/ChatDetailView.swift:209-251 | without `canSend` nothing happens; otherwise the input is cleared, the trimmed input and then a non-empty reply of a finished stream are appended, a failed stream keeps the user message and leaves the partial text on screen |
| ChatDetail.StoreUserInput | LocalAI/ChatDetailView.swift:221-226 | the trimmed input is stored as a sent user message of the chat exactly when it is non-empty, after all stored messages |
| ChatDetail.StoreReply | LocalAI/ChatDetailView.swift:242-247 | the accumulated reply is stored as a sent assistant message exactly when the stream finished without error and the text is non-empty |
| ChatDetail.StoreUserInputValid | LocalAI/ChatDetailView.swift:221-226 | storing the user message keeps validity and the active count, and leaves the reply's identity unused |
| ChatDetail.StoreReplyValid | LocalAI/ChatDetailView.swift:242-247 | storing the reply keeps validity and the active count and touches no other chat |
| ChatDetail.AppendPlain | LocalAI/ChatDetailView.swift:223-224 | appending a user or assistant message keeps validity and the active message count |
| ChatDetail.SendMessageValid | LocalAI/ChatDetailView.swift:209-251 | a send keeps the store valid, adds nothing active and touches no other chat |
| ContentView.FallbackPrompt | LocalAI/ContentView.swift:53-59 | the fallback prompt is hidden and has the fixed title and text |
| ContentView.Bootstrap | LocalAI/ContentView.swift:44-60 | after the bootstrap there is a settings record and a prompt; an empty table gets the default, a non-empty one is kept |
| ContentView.BootstrapIdempotent | LocalAI/ContentView.swift:44-60 | running the bootstrap again changes nothing |
| ContentView.BootstrapThenOpen | LocalAI/ContentView.swift:44-60 | the bootstrap keeps validity, and opening any chat afterwards leaves it with a prompt id assigned |
| ContentView.AddChatSpec | LocalAI/ContentView.swift:93-112 | a new chat is appended with the requested title and no model; with prompts it takes the newest one and exactly one active message, the note; without prompts it has neither |
| ContentView.AddChatToEmptyCatalog | LocalAI/ContentView.swift:93-103 | with an empty catalog only the chat is added |
| ContentView.ChatOnNewest | LocalAI/ContentView.swift:94-102 | the new chat pointed at the newest prompt is stored with no active message, and that prompt is its selection |
| ContentView.AddChatWithCatalogSteps | LocalAI/ContentView.swift:93-112 | with prompts, `addChat` is storing the chat on the newest prompt and then the note titled with that prompt |
| ContentView.NoteOnNewChat | LocalAI/ContentView.swift:105-109 | the note stored for a chat with no active message becomes its one active message, keeping the selection and validity |
| ContentView.AddChatWithCatalog | LocalAI/ContentView.swift:93-112 | with prompts the chat's selection is the newest prompt and its note is its active message |
| ContentView.AddChatThenOpen | LocalAI/ContentView.swift:105-109 | opening a new chat overwrites the note's text with the prompt's and adds no message |
| ModelSelection.Display | LocalAI/ModelSelectionView.swift:18-36 | the sheet shows the spinner while loading, else the prefixed error if any, else the list |
| ModelSelection.LoadModels | LocalAI/ModelSelectionView.swift:52-68 | loading ends with the spinner off; success replaces the list and keeps the error text, failure keeps the list and sets the error text |
| ModelSelection.FirstLoad | LocalAI/ModelSelectionView.swift:46-68 | a fresh sheet shows the list exactly when the fetch succeeds, and the error otherwise |
| ModelSelection.StaleErrorPersists | LocalAI/ModelSelectionView.swift:52-66 | `loadModels` never clears an error already in the sheet's state, so a later successful fetch still shows it |
| ModelSelection.ChooseModel | LocalAI/ModelSelectionView.swift:25-33 | choosing a model appends exactly one "Model changed to" note, changes no prompt, and leaves every other chat record as it was |
| ModelSelection.ChooseModelSpec | LocalAI/ModelSelectionView.swift:25-33 | only the chat's model changes, and every other chat record stays; validity, selection and active message are kept; the chat can send exactly when its prompt resolves and the model id is non-empty |
| PromptSelection.DismissKeepsStore | LocalAI/SystemPromptSelectionView.swift:39-41 | Close changes nothing |
| PromptSelection.ClearPromptSpec | LocalAI/SystemPromptSelectionView.swift:20-25 | clearing unassigns the prompt, deletes the active message and no other, appends exactly one "System prompt cleared." note, and disables sending; every other chat record stays |
| PromptSelection.PointAt | LocalAI/SystemPromptSelectionView.swift:29 | pointing the chat at a stored prompt selects that prompt and keeps validity |
| PromptSelection.PickIsApply | LocalAI/SystemPromptSelectionView.swift:27-33 | choosing a prompt writes its id to the chat and then runs the chat's prompt-change handler |
| PromptSelection.PickPromptNotes | LocalAI/SystemPromptSelectionView.swift:27-33 | choosing a prompt points the chat at it, keeps every message but the active one, and appends exactly one note naming it, plus the active message when the chat had none; validity is kept and every other chat record stays |
| PromptSelection.PickPromptSyncs | LocalAI/SystemPromptSelectionView.swift:27-33 | after choosing, the chat's one active message carries the prompt's text, rewritten in place when one existed and created under the given identity otherwise; the chat can send exactly when it has a model |
| SystemPrompts.BeginEdit | LocalAI/SystemPromptsView.swift:26-31 | the edit form holds the prompt's own title and text, in those fields, and names the prompt being edited |
| SystemPrompts.RemovePrompts | LocalAI/SystemPromptsView.swift:114-124 | exactly the prompts with the given ids go, and nothing else changes |
| SystemPrompts.AddPromptSpec | LocalAI/SystemPromptsView.swift:97-103 | with both fields filled one visible prompt is added and found by id and the form is cleared; otherwise store and form stay |
| SystemPrompts.UpdatePromptSpec | LocalAI/SystemPromptsView.swift:105-112 | only the edited prompt's title and text change, with ids, dates and visibility kept; with no prompt edited or an empty field nothing changes |
| SystemPrompts.EditRoundTrip | LocalAI/SystemPromptsView.swift:26-31 | opening a prompt for editing and saving it untouched gives back the same store |
| SystemPrompts.EditThenOpen | LocalAI/SystemPromptsView.swift:105-112 | editing a prompt leaves messages alone, and opening a chat using it rewrites its active message to the new text |
| SystemPrompts.DeletePromptSpec | LocalAI/SystemPromptsView.swift:114-117 | the context-menu delete removes exactly that prompt; the chats, the messages and the settings stay as they were |
| SystemPrompts.DeletedPromptStrandsChat | LocalAI/SystemPromptsView.swift:114-117 | a chat whose prompt is deleted cannot send, keeps its active message, and opening it changes nothing |
| SystemPrompts.DeletePromptsSpec | LocalAI/SystemPromptsView.swift:119-124 | swipe-to-delete removes exactly the prompts at the swiped rows and never a hidden one; the chats, the messages and the settings stay as they were |
| SystemPrompts.SwipeOneIsDelete | LocalAI/SystemPromptsView.swift:119-124 | swiping one row deletes what the row's Delete item deletes |
| MessageEditor.OpenEditor | LocalAI/ChatMessageEditorView.swift:11-14 | the buffer starts as the message's text |
| MessageEditor.CloseEditorSpec | LocalAI/ChatMessageEditorView.swift:25-33 | Cancel changes nothing; Save replaces only the edited message's text and keeps validity and the active message counts |
| MessageEditor.SaveUntouched | LocalAI/ChatMessageEditorView.swift:30-33 | saving an untouched buffer gives back the same store |
| MessageEditor.EditedPromptRestoredOnOpen | LocalAI/ChatMessageEditorView.swift:30-33 | an edit to the active message is undone the next time the chat is opened, in the same message |
| ChatsList.DeleteChatsSpec | LocalAI/ChatsListView.swift:19-23 | swipe-to-delete removes exactly the chats at the swiped rows, and the rest keep their order |
| ChatsList.DeleteChatsValid | LocalAI/ChatsListView.swift:19-23 | deleting chats keeps validity; the deleted chats' messages stay in the store |

## Left out

- URLSession and HTTP are left out. A server is a function from (URL, request) to a status and the body's lines. Bytes and line splitting are not modelled.
- The JSON encoder and decoder are left out. Decoding is a partial-function parameter, and `.data(using: .utf8)` always succeeds on a Swift string.
- `URL(string:)` failing on a malformed base URL is left out. URL syntax is not modelled, so that `badURL` path is absent.
- `sendChatCompletionRequest` and `sendCompletionRequest` are left out. No view calls them.
- Concurrency is left out: the `Task`s, `MainActor.run`, and what a user could do while a stream is open. A send is modelled as one step.
- Persistence failures are left out. `try? context.save()` is modelled as always committing; the app ignores its errors anyway.
- Floating point is left out. `fontSize` and `temperature` are `real` constants.
- Date formatting is left out. `addChat`'s title takes the formatted date as a parameter.
- Grapheme clusters are left out. Strings are sequences of code points. Trimming uses the Unicode whitespace and newline sets, listed explicitly.
- SwiftData's order for equal timestamps is left out. It is unspecified there; the model keeps store order.
- The `selectedModel` write in the model picker is left out. It writes a `.constant` binding and has no effect.
- `SettingsView`, `MessageBubbleView`, `DataController` and `LocalAIApp` are left out. They hold no state logic beyond what is modelled.
- View layout is left out.
- Message roles are stored as free strings in the app. The model closes them to the three values the app ever writes.
- ModelSelection.LoadModels: the spinner being on while the request is in flight is not observable in a one-step model, so only the state after the load is stated.

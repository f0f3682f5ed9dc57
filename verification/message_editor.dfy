/** The message editor sheet (`ChatMessageEditorView`): a text buffer
    seeded from one message; Save writes it back into that message, Cancel
    discards it. */
module MessageEditor {
  import opened Wrappers
  import opened Seqs
  import opened Models
  import opened ChatDetail

  /** The sheet's state: the message being edited and the buffer. */
  datatype Editor = Editor(messageId: Uuid, editedContent: string)

  /** How the sheet is left. */
  datatype EditorExit = Save | Cancel

  /** The sheet's initialiser: the buffer starts as the message's text. */
  function OpenEditor(m: ChatMessage): (e: Editor)
    ensures e.messageId == m.id && e.editedContent == m.content
  {
    Editor(m.id, m.content)
  }

  /** Typing into the text editor replaces the buffer. */
  function Type(e: Editor, text: string): (r: Editor)
    ensures r.messageId == e.messageId && r.editedContent == text
  {
    e.(editedContent := text)
  }

  /** The store when the sheet closes. */
  function CloseEditor(st: Store, e: Editor, exit: EditorExit): (r: Store)
    ensures r.chats == st.chats && r.prompts == st.prompts && r.settings == st.settings
    ensures |r.messages| == |st.messages|
  {
    match exit
    case Cancel => st
    case Save => SetMessageContent(st, e.messageId, e.editedContent)
  }

  // ---------------------------------------------------------------------

  /** Saving replaces the edited message's text and nothing else: every
      other message, and every field of the edited one other than its text,
      stay as they were, as does the number of active messages of every
      chat. Cancelling changes nothing, whatever was typed. */
  lemma CloseEditorSpec(st: Store, m: ChatMessage, text: string, chatID: Uuid)
    requires Valid(st) && m in st.messages
    ensures var e := Type(OpenEditor(m), text);
      && CloseEditor(st, e, Cancel) == st
      && var r := CloseEditor(st, e, Save);
      && Valid(r)
      && (forall n :: n in r.messages <==> (n in st.messages && n != m) || n == m.(content := text))
      && |ActiveIn(r.messages, chatID)| == |ActiveIn(st.messages, chatID)|
  {
    var r := SetMessageContent(st, m.id, text);
    ValidAfterSetContent(st, m.id, text);
    ActiveAfterSetContent(st, m.id, text, chatID);
    forall n | n in r.messages
      ensures (n in st.messages && n != m) || n == m.(content := text)
    {
      var i :| 0 <= i < |r.messages| && r.messages[i] == n;
      assert st.messages[i] in st.messages;
      if st.messages[i].id == m.id {
        MessageUnique(st, st.messages[i], m);
      }
    }
    forall n | (n in st.messages && n != m) || n == m.(content := text)
      ensures n in r.messages
    {
      if n == m.(content := text) {
        var i :| 0 <= i < |st.messages| && st.messages[i] == m;
        assert r.messages[i] == n;
      } else {
        var i :| 0 <= i < |st.messages| && st.messages[i] == n;
        if n.id == m.id {
          MessageUnique(st, n, m);
        }
        assert r.messages[i] == n;
      }
    }
  }

  /** Opening the editor and saving untouched gives back the same store. */
  lemma SaveUntouched(st: Store, m: ChatMessage)
    requires Distinct(st.messages, MessageKey) && m in st.messages
    ensures CloseEditor(st, OpenEditor(m), Save) == st
  {
    var r := CloseEditor(st, OpenEditor(m), Save);
    forall i | 0 <= i < |st.messages|
      ensures r.messages[i] == st.messages[i]
    {
      if st.messages[i].id == m.id {
        MessageUnique(st, st.messages[i], m);
      }
    }
  }

  /** Editing the active system message is undone the next time the chat
      is opened: `ensureDefaultPrompt` rewrites that same message back to
      the selected prompt's text. */
  lemma EditedPromptRestoredOnOpen(st: Store, chatID: Uuid, text: string, id: Uuid)
    requires Valid(st) && HasChat(st, chatID) && FreshMessageId(st, id)
    requires SelectedSystemPrompt(st, chatID).Some? && SystemPromptMessage(st, chatID).Some?
    ensures var sm := SystemPromptMessage(st, chatID).value;
      var edited := CloseEditor(st, Type(OpenEditor(sm), text), Save);
      var shown := EnsureDefaultPrompt(edited, chatID, id);
      && HasChat(shown, chatID)
      && InSync(shown, chatID)
      && SystemPromptMessage(shown, chatID).value.id == sm.id
      && SystemPromptMessage(shown, chatID).value.content == SelectedSystemPrompt(st, chatID).value.content
      && |shown.messages| == |st.messages|
  {
    var sm := SystemPromptMessage(st, chatID).value;
    var edited := SetMessageContent(st, sm.id, text);
    RefreshActive(st, chatID, sm, text);
    FreshAfterSetContent(st, sm.id, text, id);
    SelectionUnchanged(st, edited, chatID);
    OpenRewritesActive(edited, chatID, id);
  }
}

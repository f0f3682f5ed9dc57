/** The prompt catalog screen (`SystemPromptsView`): the visible prompts,
    newest first, with an add sheet, an edit sheet sharing one form, a
    context-menu delete and swipe-to-delete. */
module SystemPrompts {
  import opened Wrappers
  import opened Seqs
  import opened Models
  import opened ChatDetail

  /** The sheets' shared form: the two text fields and the prompt being
      edited, if any. */
  datatype PromptForm = PromptForm(newTitle: string, newContent: string, editing: Option<Uuid>)

  /** `clearForm`: what Cancel, a successful save and dismissing the edit
      sheet leave behind. */
  const EmptyForm: PromptForm := PromptForm("", "", None)

  /** The store and the form after a button. */
  datatype CatalogStep = CatalogStep(store: Store, form: PromptForm)

  /** Both fields must be non-empty before anything is saved. */
  predicate Filled(form: PromptForm) {
    form.newTitle != "" && form.newContent != ""
  }

  function PromptIdNotIn(ids: set<int>): SystemPrompt -> bool { (p: SystemPrompt) => p.id !in ids }

  function Rewritten(id: Uuid, title: string, content: string): SystemPrompt -> SystemPrompt {
    (p: SystemPrompt) => if p.id == id then p.(title := title, content := content) else p
  }

  /** Deletes every prompt whose identity is in `ids`. */
  function RemovePrompts(st: Store, ids: set<int>): (r: Store)
    ensures forall p :: p in r.prompts <==> p in st.prompts && p.id !in ids
    ensures r.chats == st.chats && r.messages == st.messages && r.settings == st.settings
  {
    st.(prompts := Filter(st.prompts, PromptIdNotIn(ids)))
  }

  /** The "Edit" context-menu item: the form is filled from the prompt. */
  function BeginEdit(p: SystemPrompt): (form: PromptForm)
    ensures Filled(form) <==> p.title != "" && p.content != ""
    ensures form.editing == Some(p.id)
    ensures form.newTitle == p.title && form.newContent == p.content
  {
    PromptForm(p.title, p.content, Some(p.id))
  }

  /** `addPrompt`: a visible prompt stamped `now` is added and the form
      cleared; with an empty field nothing happens, and the form keeps its
      text. */
  function AddPrompt(st: Store, form: PromptForm, id: Uuid, now: Time): (r: CatalogStep)
    ensures r.store.chats == st.chats && r.store.messages == st.messages && r.store.settings == st.settings
  {
    if !Filled(form) then CatalogStep(st, form)
    else CatalogStep(st.(prompts := st.prompts + [NewPrompt(id, form.newTitle, form.newContent, now)]), EmptyForm)
  }

  /** `updatePrompt`: the edited prompt takes the form's title and text and
      the form is cleared; without a prompt being edited, or with an empty
      field, nothing happens. */
  function UpdatePrompt(st: Store, form: PromptForm): (r: CatalogStep)
    ensures r.store.chats == st.chats && r.store.messages == st.messages && r.store.settings == st.settings
    ensures |r.store.prompts| == |st.prompts|
  {
    if form.editing.None? || !Filled(form) then CatalogStep(st, form)
    else CatalogStep(st.(prompts := Map(st.prompts, Rewritten(form.editing.value, form.newTitle, form.newContent))), EmptyForm)
  }

  /** `deletePrompt`, from the context menu. */
  function DeletePrompt(st: Store, id: Uuid): (r: Store)
    ensures forall p :: p in r.prompts <==> p in st.prompts && p.id != id
    ensures r.chats == st.chats && r.messages == st.messages && r.settings == st.settings
  {
    RemovePrompts(st, {id})
  }

  /** `deletePrompts(at:)`: swipe-to-delete; the offsets index the visible
      list as displayed. */
  function DeletePrompts(st: Store, offsets: set<nat>): (r: Store)
    requires forall i :: i in offsets ==> i < |VisiblePrompts(st)|
    ensures r.chats == st.chats && r.messages == st.messages && r.settings == st.settings
  {
    RemovePrompts(st, KeysAt(VisiblePrompts(st), offsets, PromptKey))
  }

  // ---------------------------------------------------------------------

  /** With distinct ids, two stored prompts with one id are the same. */
  lemma SamePrompt(st: Store, p: SystemPrompt, q: SystemPrompt)
    requires Distinct(st.prompts, PromptKey) && p in st.prompts && q in st.prompts && p.id == q.id
    ensures p == q
  {
    PromptByIdUnique(st, p);
    PromptByIdUnique(st, q);
  }

  /** Deleting prompts keeps the store well-formed. */
  lemma ValidAfterRemovePrompts(st: Store, ids: set<int>)
    requires Valid(st)
    ensures Valid(RemovePrompts(st, ids))
  {
    FilterDistinct(st.prompts, PromptIdNotIn(ids), PromptKey);
  }

  /** Saving the add sheet with both fields filled adds exactly one prompt,
      offered from then on and found by its id, and clears the form; with an
      empty field the store and the form stay as they were. */
  lemma AddPromptSpec(st: Store, form: PromptForm, id: Uuid, now: Time)
    requires Valid(st) && FreshPromptId(st, id)
    ensures var r := AddPrompt(st, form, id, now);
      var added := NewPrompt(id, form.newTitle, form.newContent, now);
      && Valid(r.store)
      && (!Filled(form) ==> r == CatalogStep(st, form))
      && (Filled(form) ==>
            && r.form == EmptyForm
            && (forall p :: p in r.store.prompts <==> p in st.prompts || p == added)
            && added in VisiblePrompts(r.store)
            && PromptById(r.store, id) == Some(added))
  {
    var added := NewPrompt(id, form.newTitle, form.newContent, now);
    if Filled(form) {
      var prompts := st.prompts + [added];
      assert prompts[|st.prompts|] == added;
      assert Distinct(prompts, PromptKey) by {
        forall i, j | 0 <= i < j < |prompts|
          ensures PromptKey(prompts[i]) != PromptKey(prompts[j])
        {
          if j == |st.prompts| {
            assert prompts[i] == st.prompts[i] && st.prompts[i] in st.prompts;
          }
        }
      }
      PromptByIdUnique(st.(prompts := prompts), added);
    }
  }

  /** Only the edited prompt's title and text change: every prompt keeps
      its identity, date and visibility, so the catalog order is unchanged.
      The store stays well-formed; with no prompt being edited, or an empty
      field, the store and the form stay as they were. */
  lemma UpdatePromptSpec(st: Store, form: PromptForm)
    requires Valid(st)
    ensures var r := UpdatePrompt(st, form);
      && Valid(r.store)
      && (forall i :: 0 <= i < |st.prompts| ==>
            && r.store.prompts[i].id == st.prompts[i].id
            && r.store.prompts[i].timestamp == st.prompts[i].timestamp
            && r.store.prompts[i].isHidden == st.prompts[i].isHidden)
      && (form.editing.None? || !Filled(form) ==> r == CatalogStep(st, form))
      && (form.editing.Some? && Filled(form) ==>
            && r.form == EmptyForm
            && forall i :: 0 <= i < |st.prompts| ==>
                 if st.prompts[i].id == form.editing.value
                 then r.store.prompts[i].title == form.newTitle && r.store.prompts[i].content == form.newContent
                 else r.store.prompts[i] == st.prompts[i])
  {
    var r := UpdatePrompt(st, form);
    assert Distinct(r.store.prompts, PromptKey) by {
      forall i, j | 0 <= i < j < |r.store.prompts|
        ensures PromptKey(r.store.prompts[i]) != PromptKey(r.store.prompts[j])
      {
        assert PromptKey(r.store.prompts[i]) == PromptKey(st.prompts[i]);
        assert PromptKey(r.store.prompts[j]) == PromptKey(st.prompts[j]);
      }
    }
  }

  /** Opening a stored prompt for editing and saving without touching the
      fields gives back the same store. */
  lemma EditRoundTrip(st: Store, p: SystemPrompt)
    requires Distinct(st.prompts, PromptKey) && p in st.prompts
    ensures UpdatePrompt(st, BeginEdit(p)).store == st
  {
    var r := UpdatePrompt(st, BeginEdit(p));
    if Filled(BeginEdit(p)) {
      forall i | 0 <= i < |st.prompts|
        ensures r.store.prompts[i] == st.prompts[i]
      {
        if st.prompts[i].id == p.id {
          SamePrompt(st, st.prompts[i], p);
        }
      }
    }
  }

  /** Editing a prompt does not touch the chats using it; the next time
      such a chat is opened, its active message is rewritten to the new
      text. */
  lemma EditThenOpen(st: Store, form: PromptForm, chatID: Uuid, id: Uuid)
    requires Valid(st) && HasChat(st, chatID) && FreshMessageId(st, id)
    requires form.editing.Some? && Filled(form)
    requires ChatOf(st, chatID).systemPromptID == form.editing
    requires SelectedSystemPrompt(st, chatID).Some?
    ensures var edited := UpdatePrompt(st, form).store;
      var shown := EnsureDefaultPrompt(edited, chatID, id);
      && edited.messages == st.messages
      && HasChat(shown, chatID)
      && InSync(shown, chatID)
      && SystemPromptMessage(shown, chatID).Some?
      && SystemPromptMessage(shown, chatID).value.content == form.newContent
  {
    var edited := UpdatePrompt(st, form).store;
    UpdatePromptSpec(st, form);
    var sp := SelectedSystemPrompt(st, chatID).value;
    var k :| 0 <= k < |st.prompts| && st.prompts[k] == sp;
    var q := edited.prompts[k];
    assert q in edited.prompts && q.id == sp.id && q.content == form.newContent;
    PromptByIdUnique(edited, q);
    SelectionUnchanged(st, edited.(prompts := st.prompts), chatID);
    assert SelectedSystemPrompt(edited, chatID) == Some(q);
    EnsureDefaultPromptSyncs(edited, chatID, id);
  }

  /** The context-menu delete removes exactly the prompts with that id and
      keeps the store well-formed. */
  lemma DeletePromptSpec(st: Store, p: SystemPrompt)
    requires Valid(st) && p in st.prompts
    ensures var r := DeletePrompt(st, p.id);
      && Valid(r)
      && (forall q :: q in r.prompts <==> q in st.prompts && q != p)
      && r.chats == st.chats && r.messages == st.messages && r.settings == st.settings
  {
    ValidAfterRemovePrompts(st, {p.id});
    forall q | q in st.prompts && q.id == p.id
      ensures q == p
    {
      SamePrompt(st, q, p);
    }
  }

  /** Deleting the prompt a chat uses strands the chat: it can no longer
      send, its active message stays, and opening it repairs nothing,
      because `ensureDefaultPrompt` only assigns a prompt to a chat that has
      none. */
  lemma DeletedPromptStrandsChat(st: Store, chatID: Uuid, id: Uuid)
    requires Valid(st) && HasChat(st, chatID)
    requires ChatOf(st, chatID).systemPromptID.Some?
    ensures var r := DeletePrompt(st, ChatOf(st, chatID).systemPromptID.value);
      && HasChat(r, chatID)
      && SelectedSystemPrompt(r, chatID).None?
      && !CanSend(r, chatID)
      && SystemPromptMessage(r, chatID) == SystemPromptMessage(st, chatID)
      && EnsureDefaultPrompt(r, chatID, id) == r
  {
    var r := DeletePrompt(st, ChatOf(st, chatID).systemPromptID.value);
    SelectionUnchanged(st, r.(prompts := st.prompts), chatID);
    assert SystemPromptMessage(r, chatID) == SystemPromptMessage(st, chatID) by {
      assert r.messages == st.messages;
    }
  }

  /** Swipe-to-delete removes exactly the prompts shown at the swiped rows,
      never a hidden prompt, and keeps the store well-formed. */
  lemma DeletePromptsSpec(st: Store, offsets: set<nat>)
    requires Valid(st)
    requires forall i :: i in offsets ==> i < |VisiblePrompts(st)|
    ensures var r := DeletePrompts(st, offsets);
      var shown := VisiblePrompts(st);
      && Valid(r)
      && (forall p :: p in r.prompts <==> p in st.prompts && forall i :: i in offsets ==> shown[i] != p)
      && (forall p :: p in st.prompts && p.isHidden ==> p in r.prompts)
      && r.chats == st.chats && r.messages == st.messages && r.settings == st.settings
  {
    var shown := VisiblePrompts(st);
    var ids := KeysAt(shown, offsets, PromptKey);
    ValidAfterRemovePrompts(st, ids);
    forall p, i | p in st.prompts && i in offsets && shown[i].id == p.id
      ensures shown[i] == p
    {
      assert shown[i] in shown;
      SamePrompt(st, shown[i], p);
    }
  }

  /** Swiping one row deletes what the context menu's Delete on that row
      deletes. */
  lemma SwipeOneIsDelete(st: Store, i: nat)
    requires i < |VisiblePrompts(st)|
    ensures DeletePrompts(st, {i}) == DeletePrompt(st, VisiblePrompts(st)[i].id)
  {
    var shown := VisiblePrompts(st);
    assert KeysAt(shown, {i}, PromptKey) == {shown[i].id};
  }
}

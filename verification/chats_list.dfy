/** The chat list (`ChatsListView`): the chats newest first, and
    swipe-to-delete. */
module ChatsList {
  import opened Wrappers
  import opened Seqs
  import opened Models

  function ChatIdNotIn(ids: set<int>): Chat -> bool { (c: Chat) => c.id !in ids }

  /** `deleteChats(at:)`: the offsets index the list as displayed, newest
      first. Only the chat records are deleted; their messages stay in the
      store. */
  function DeleteChats(st: Store, offsets: set<nat>): (r: Store)
    requires forall i :: i in offsets ==> i < |ChatsByRecency(st)|
    ensures r.messages == st.messages && r.prompts == st.prompts && r.settings == st.settings
  {
    st.(chats := Filter(st.chats, ChatIdNotIn(KeysAt(ChatsByRecency(st), offsets, ChatKey))))
  }

  // ---------------------------------------------------------------------

  /** Swipe-to-delete removes exactly the chats shown at the swiped rows;
      the remaining chats are listed in the order they were. */
  lemma DeleteChatsSpec(st: Store, offsets: set<nat>)
    requires Distinct(st.chats, ChatKey)
    requires forall i :: i in offsets ==> i < |ChatsByRecency(st)|
    ensures var r := DeleteChats(st, offsets);
      var shown := ChatsByRecency(st);
      && (forall c :: c in r.chats <==> c in st.chats && forall i :: i in offsets ==> shown[i] != c)
      && ChatsByRecency(r) == Filter(shown, ChatIdNotIn(KeysAt(shown, offsets, ChatKey)))
  {
    var shown := ChatsByRecency(st);
    var ids := KeysAt(shown, offsets, ChatKey);
    SortFilterCommute(st.chats, ChatIdNotIn(ids), ChatRecency);
    forall c, i | c in st.chats && i in offsets && shown[i].id == c.id
      ensures shown[i] == c
    {
      assert shown[i] in multiset(st.chats);
      ChatOfUnique(st, shown[i]);
      ChatOfUnique(st, c);
    }
  }

  /** Deleting chats keeps the store well-formed. The deleted chats'
      messages, active ones included, are left behind with no chat. */
  lemma DeleteChatsValid(st: Store, offsets: set<nat>)
    requires Valid(st)
    requires forall i :: i in offsets ==> i < |ChatsByRecency(st)|
    ensures var r := DeleteChats(st, offsets);
      && Valid(r)
      && forall i :: i in offsets ==>
           !HasChat(r, ChatsByRecency(st)[i].id) &&
           ActiveIn(r.messages, ChatsByRecency(st)[i].id) == ActiveIn(st.messages, ChatsByRecency(st)[i].id)
  {
    var r := DeleteChats(st, offsets);
    var shown := ChatsByRecency(st);
    var ids := KeysAt(shown, offsets, ChatKey);
    FilterDistinct(st.chats, ChatIdNotIn(ids), ChatKey);
    forall i | i in offsets
      ensures !HasChat(r, shown[i].id)
    {
      assert shown[i].id in ids;
      forall k | 0 <= k < |r.chats|
        ensures r.chats[k].id != shown[i].id
      {
        assert r.chats[k] in r.chats;
      }
    }
  }
}

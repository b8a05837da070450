/** The chat screen's state and its handlers: the bulk load, the poll of the
    latest messages, the two-step page-in of older messages, sending, and the
    compose box's mention picker. Each asynchronous handler takes the
    outcome of its request as a parameter; the `setTimeout` of the page-in
    is the `timer` field, armed by LoadMoreMessages and run by
    LoadMoreFires. */
module ChatScreen {
  import opened ChatTypes
  import opened MessageOrder
  import opened Paging
  import opened Mentions

  /** The callback the page-in leaves with `setTimeout`: the slice it will
      put in front of the window, its `endIndex`, and the length of the full
      list it compares that index with. */
  datatype PageTimer = PageTimer(slice: seq<Message>, endIndex: nat, total: nat)

  /** The characters `trim` removes, restricted to ASCII: space, tab, line
      feed, vertical tab, form feed, carriage return. */
  predicate IsWhitespace(c: char)
  {
    c == ' ' || '\t' <= c <= '\r'
  }

  /** `text.trim() === ""`. */
  predicate Blank(text: string)
  {
    forall i :: 0 <= i < |text| ==> IsWhitespace(text[i])
  }

  class ChatState {
    /** Every loaded message, newest first after a load or a poll. */
    var allMessages: seq<Message>
    /** The list the view shows. */
    var messages: seq<Message>
    /** Pages shown so far; the next page-in starts at `page * PageSize`. */
    var page: nat
    var loadingMore: bool
    var hasMore: bool
    var inputText: string
    var showMentions: bool
    var mentionQuery: string
    /** The pending page-in callback, if one is armed. */
    var timer: Option<PageTimer>

    ghost predicate Valid()
      reads this
    {
      && page >= 1
      && (loadingMore <==> timer.Some?)
      && (timer.Some? ==> 0 < |timer.value.slice| <= PageSize)
    }

    /** The window holds exactly the first `page` pages of the full list,
        though not necessarily in the full list's order. */
    ghost predicate WindowCoversPages()
      reads this
    {
      multiset(messages) == multiset(Slice(allMessages, 0, PageStart(page)))
    }

    /** The armed callback was set up from the current full list and page. */
    ghost predicate TimerCurrent()
      reads this
    {
      timer.Some? ==>
        timer.value == PageTimer(Slice(allMessages, PageStart(page), PageStart(page + 1)),
                                 PageStart(page + 1), |allMessages|)
    }

    /** The state of a freshly mounted screen. */
    constructor ()
      ensures Valid()
      ensures allMessages == [] && messages == [] && page == 1
      ensures !loadingMore && hasMore && timer == None
      ensures inputText == [] && !showMentions && mentionQuery == []
    {
      allMessages, messages, page := [], [], 1;
      loadingMore, hasMore := false, true;
      inputText, showMentions, mentionQuery := [], false, [];
      timer := None;
    }

    /** `getAllMessages`: a successful load stores the response newest first,
        shows its first page, and clears `hasMore` when everything fits on
        that page; a failed load changes nothing. */
    method GetAllMessages(response: Fetch<seq<Message>>)
      requires Valid()
      modifies this`allMessages, this`messages, this`hasMore
      ensures Valid()
      ensures response.Failed? ==>
        allMessages == old(allMessages) && messages == old(messages) && hasMore == old(hasMore)
      ensures response.Loaded? ==>
        && allMessages == SortDesc(response.data)
        && messages == Slice(allMessages, 0, PageSize)
        && hasMore == (old(hasMore) && |response.data| > PageSize)
      ensures response.Loaded? && page == 1 ==> WindowCoversPages()
    {
      if response.Failed? {
        return;
      }
      var sortedMessages := SortDesc(response.data);
      assert |sortedMessages| == |multiset(sortedMessages)| == |response.data|;
      allMessages := sortedMessages;
      messages := Slice(sortedMessages, 0, PageSize);
      if |sortedMessages| <= PageSize {
        hasMore := false;
      }
    }

    /** `fetchLatestMessages`: the feed entries whose uuid is not in the
        visible list survive. If none does, nothing changes; otherwise the
        full list becomes the survivors and the old full list sorted newest
        first, and the survivors, in feed order, go in front of the visible
        list. */
    method PollLatest(response: Fetch<seq<Message>>)
      requires Valid()
      modifies this`allMessages, this`messages
      ensures Valid()
      ensures response.Failed? ==> allMessages == old(allMessages) && messages == old(messages)
      ensures response.Loaded? ==>
        var survivors := Unseen(response.data, Uuids(old(messages)));
        && (survivors == [] ==> allMessages == old(allMessages) && messages == old(messages))
        && (survivors != [] ==>
              allMessages == MergedAll(survivors, old(allMessages))
              && messages == survivors + old(messages))
    {
      if response.Failed? {
        return;
      }
      var existingUuids := Uuids(messages);
      var newMessages := Unseen(response.data, existingUuids);
      if |newMessages| > 0 {
        allMessages := MergedAll(newMessages, allMessages);
        var prevUuids := Uuids(messages);
        var filteredNewMessages := Unseen(newMessages, prevUuids);
        UnseenTwice(response.data, existingUuids);
        messages := filteredNewMessages + messages;
      }
    }

    /** The synchronous part of `loadMoreMessages`. Nothing happens while a
        page-in is pending or when `hasMore` is false. Otherwise a non-empty
        next slice arms the callback, and an empty one clears `hasMore`. */
    method LoadMoreMessages()
      requires Valid()
      modifies this`loadingMore, this`hasMore, this`timer
      ensures Valid()
      ensures old(loadingMore) || !old(hasMore) ==>
        loadingMore == old(loadingMore) && hasMore == old(hasMore) && timer == old(timer)
      ensures !old(loadingMore) && old(hasMore) ==>
        var slice := Slice(allMessages, PageStart(page), PageStart(page + 1));
        if slice != [] then
          loadingMore && hasMore && timer == Some(PageTimer(slice, PageStart(page + 1), |allMessages|))
        else
          !loadingMore && !hasMore && timer == None
      ensures old(TimerCurrent()) ==> TimerCurrent()
    {
      if loadingMore || !hasMore {
        return;
      }
      loadingMore := true;
      var startIndex := page * PageSize;
      var endIndex := startIndex + PageSize;
      var newMessages := Slice(allMessages, startIndex, endIndex);
      if |newMessages| > 0 {
        timer := Some(PageTimer(newMessages, endIndex, |allMessages|));
      } else {
        hasMore := false;
        loadingMore := false;
      }
    }

    /** The `setTimeout` callback of `loadMoreMessages`: puts the slice in
        front of the window, moves to the next page, clears `hasMore` when
        the slice reached the end of the list, and ends the loading state.
        When the callback belongs to the current list and the window held the
        first pages, it then holds one more. */
    method LoadMoreFires()
      requires Valid() && timer.Some?
      modifies this`messages, this`page, this`hasMore, this`loadingMore, this`timer
      ensures Valid()
      ensures messages == old(timer.value.slice) + old(messages)
      ensures page == old(page) + 1
      ensures hasMore == (old(hasMore) && old(timer.value.endIndex) < old(timer.value.total))
      ensures !loadingMore && timer == None
      ensures old(TimerCurrent()) && old(hasMore) ==> hasMore == (PageStart(page) < |allMessages|)
      ensures old(TimerCurrent()) && old(WindowCoversPages()) ==> WindowCoversPages()
    {
      var t := timer.value;
      ghost var current, covering := TimerCurrent(), WindowCoversPages();
      if current && covering {
        PageInCovers(allMessages, messages, page);
        assert multiset(t.slice + messages) == multiset(Slice(allMessages, 0, PageStart(page + 1)));
      }
      messages := t.slice + messages;
      page := page + 1;
      if t.endIndex >= t.total {
        hasMore := false;
      }
      loadingMore := false;
      timer := None;
    }

    /** `handleSend`. Blank input, or a failed post, changes nothing (the
        input stays for a retry). A successful post puts the server's message
        at the head of the full list, shows the first page again, recomputes
        `hasMore`, and clears the input. */
    method HandleSend(response: Fetch<Message>)
      requires Valid()
      modifies this`messages, this`allMessages, this`page, this`hasMore, this`inputText
      ensures Valid()
      ensures Blank(old(inputText)) || response.Failed? ==>
        && messages == old(messages) && allMessages == old(allMessages)
        && page == old(page) && hasMore == old(hasMore) && inputText == old(inputText)
      ensures !Blank(old(inputText)) && response.Loaded? ==>
        && allMessages == [response.data] + old(allMessages)
        && messages == Slice(allMessages, 0, PageSize)
        && page == 1
        && hasMore == (|allMessages| > PageSize)
        && inputText == []
        && WindowCoversPages()
    {
      if Blank(inputText) {
        return;
      }
      if response.Failed? {
        return;
      }
      var newMessage := response.data;
      // The first write to the window is overwritten by the second one.
      messages := [newMessage] + messages;
      var updatedAllMessages := [newMessage] + allMessages;
      allMessages := updatedAllMessages;
      messages := Slice(updatedAllMessages, 0, PageSize);
      page := 1;
      if |updatedAllMessages| <= PageSize {
        hasMore := false;
      } else {
        hasMore := true;
      }
      inputText := [];
    }

    /** `onChangeText`: stores the text and sets the picker from its last
        word. */
    method OnChangeText(text: string)
      requires Valid()
      modifies this`inputText, this`showMentions, this`mentionQuery
      ensures Valid()
      ensures inputText == text
      ensures showMentions == MentionTrigger(text).show
      ensures mentionQuery == MentionTrigger(text).query
    {
      inputText := text;
      var m := MentionTrigger(text);
      showMentions, mentionQuery := m.show, m.query;
    }

    /** Picking `p` in the mention list: its name replaces the last word of
        the input and the picker closes. */
    method PickMention(p: Participant)
      requires Valid()
      modifies this`inputText, this`showMentions
      ensures Valid()
      ensures inputText == InsertMention(old(inputText), p.name)
      ensures !showMentions
    {
      inputText := InsertMention(inputText, p.name);
      showMentions := false;
    }
  }
}

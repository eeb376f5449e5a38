/** The AI assistant page: the topic category from the query string, the
    prefilled opening message, and the send cycle of the chat (guard,
    optimistic display of the user's message, one reply appended with it).
    The reply of the hosted model is an input: its text, or a failure of
    the call. Message ids are inputs too. */
module Chat {
  import opened Wrappers
  import opened Catalog

  datatype Role = User | Assistant | System

  datatype Message = Message(id: string, role: Role, content: string)

  /** How the call to the server action ended. */
  datatype Reply = Replied(text: string) | Failed

  /** The page state: the confirmed messages, the text box, the loading
      flag, and the user message of the send in progress, if any. */
  datatype ChatState = ChatState(messages: seq<Message>, input: string, isLoading: bool, inFlight: Option<Message>)

  const GeneralGreeting: string := "Hello! I'd like some advice on mental wellness."

  const Apology: string := "Sorry, I couldn't get a response. Please try again."

  const InitialChat: ChatState := ChatState([], "", false, None)

  // ---------------------------------------------------------------------
  // Trimming, as `String.prototype.trim`

  /** ECMAScript's WhiteSpace and LineTerminator characters. */
  predicate IsWhitespace(c: char) {
    || c == '\t' || c == '\n' || c == '\U{000B}' || c == '\U{000C}' || c == '\r' || c == ' '
    || c == '\U{00A0}' || c == '\U{1680}' || ('\U{2000}' <= c <= '\U{200A}')
    || c == '\U{2028}' || c == '\U{2029}' || c == '\U{202F}' || c == '\U{205F}'
    || c == '\U{3000}' || c == '\U{FEFF}'
  }

  /** Drops the leading whitespace. */
  function TrimStart(s: string): (r: string)
    ensures |r| <= |s| && r == s[|s| - |r|..]
    ensures forall i :: 0 <= i < |s| - |r| ==> IsWhitespace(s[i])
    ensures |r| > 0 ==> !IsWhitespace(r[0])
  {
    if |s| > 0 && IsWhitespace(s[0]) then TrimStart(s[1..]) else s
  }

  /** Drops the trailing whitespace. */
  function TrimEnd(s: string): (r: string)
    ensures |r| <= |s| && r == s[..|r|]
    ensures forall i :: |r| <= i < |s| ==> IsWhitespace(s[i])
    ensures |r| > 0 ==> !IsWhitespace(r[|r| - 1])
  {
    if |s| > 0 && IsWhitespace(s[|s| - 1]) then TrimEnd(s[..|s| - 1]) else s
  }

  /** `String.prototype.trim`. */
  function Trim(s: string): (t: string) {
    TrimEnd(TrimStart(s))
  }

  /** The trimmed text is the slice `s[start..end]` of the text, with only
      whitespace before and after it and none at either of its ends. */
  lemma TrimIsSlice(s: string) returns (start: nat, end: nat)
    ensures start <= end <= |s| && Trim(s) == s[start..end]
    ensures forall k :: 0 <= k < start ==> IsWhitespace(s[k])
    ensures forall k :: end <= k < |s| ==> IsWhitespace(s[k])
    ensures start < end ==> !IsWhitespace(s[start]) && !IsWhitespace(s[end - 1])
  {
    var u := TrimStart(s);
    start, end := PrefixOfSuffix(s, u, TrimEnd(u), IsWhitespace);
  }

  /** A prefix `t` of a suffix `u` of `s`, where `u` starts where the run of
      `p` at the start of `s` ends and `t` ends where the run of `p` at the
      end of `u` begins. */
  lemma PrefixOfSuffix<T>(s: seq<T>, u: seq<T>, t: seq<T>, p: T -> bool) returns (start: nat, end: nat)
    requires |u| <= |s| && u == s[|s| - |u|..]
    requires forall k :: 0 <= k < |s| - |u| ==> p(s[k])
    requires |u| > 0 ==> !p(u[0])
    requires |t| <= |u| && t == u[..|t|]
    requires forall k :: |t| <= k < |u| ==> p(u[k])
    requires |t| > 0 ==> !p(t[|t| - 1])
    ensures start <= end <= |s| && t == s[start..end]
    ensures forall k :: 0 <= k < start ==> p(s[k])
    ensures forall k :: end <= k < |s| ==> p(s[k])
    ensures start < end ==> !p(s[start]) && !p(s[end - 1])
  {
    start := |s| - |u|;
    end := start + |t|;
    forall k | end <= k < |s|
      ensures p(s[k])
    {
      assert s[k] == u[k - start];
    }
  }

  /** `!input.trim()`: the trimmed text is the empty string. */
  predicate IsBlank(s: string) {
    |Trim(s)| == 0
  }

  /** A text is blank exactly when it is all whitespace. */
  lemma BlankIffAllWhitespace(s: string)
    ensures IsBlank(s) <==> forall i :: 0 <= i < |s| ==> IsWhitespace(s[i])
  {
    var t := TrimStart(s);
    if IsBlank(s) {
      assert |t| == 0;
    } else {
      var r := Trim(s);
      assert r[0] == t[0];
      assert t[0] == s[|s| - |t|];
    }
  }

  // ---------------------------------------------------------------------
  // The topic category and the opening message

  /** `categories.find(c => c.slug === categorySlug)`; a missing query
      parameter is `null`, which no slug equals. */
  function FindCategory(cats: seq<Category>, slug: Option<string>): (r: Option<Category>)
    ensures r.Some? ==> slug.Some? && r.value in cats && r.value.slug == slug.value
    ensures r.Some? ==> exists i :: (0 <= i < |cats| && cats[i] == r.value
                                     && forall j :: 0 <= j < i ==> cats[j].slug != slug.value)
    ensures r.None? ==> slug.None? || forall i :: 0 <= i < |cats| ==> cats[i].slug != slug.value
  {
    if slug.None? || |cats| == 0 then None
    else if cats[0].slug == slug.value then Some(cats[0])
    else
      var r := FindCategory(cats[1..], slug);
      if r.Some? then
        var i :| 0 <= i < |cats[1..]| && cats[1..][i] == r.value
                 && forall j :: 0 <= j < i ==> cats[1..][j].slug != slug.value;
        assert cats[i + 1] == r.value;
        r
      else r
  }

  /** `initialMessage`. */
  function InitialMessage(category: Option<Category>): (message: string) {
    match category
    case Some(c) => "I'd like to talk about " + c.title + ". Can you give me some advice?"
    case None => GeneralGreeting
  }

  /** Every slug of the catalog finds its own category; any other slug,
      and no slug, finds none and opens with the general greeting. */
  lemma FindCategoryOfCatalog(slug: Option<string>)
    ensures forall i :: 0 <= i < |Categories| ==> FindCategory(Categories, Some(Categories[i].slug)) == Some(Categories[i])
    ensures (slug.None? || forall i :: 0 <= i < |Categories| ==> Categories[i].slug != slug.value)
            ==> InitialMessage(FindCategory(Categories, slug)) == GeneralGreeting
  {
    CatalogShape();
  }

  /** The opening message for the anxiety topic. */
  lemma AnxietyOpening()
    ensures InitialMessage(FindCategory(Categories, Some("anxiety")))
         == "I'd like to talk about " + "Anxiety" + ". Can you give me some advice?"
  {
    var c := Categories[1];
    FindCategoryOfCatalog(None);
    assert FindCategory(Categories, Some(c.slug)) == Some(c);
    assert c.slug == "anxiety" && c.title == "Anxiety";
  }

  // ---------------------------------------------------------------------
  // The chat state machine

  /** The reducer of `useOptimistic`: the pending message goes last. */
  function OptimisticAppend(state: seq<Message>, newMessage: Message): (r: seq<Message>)
    ensures |r| == |state| + 1 && r[..|state|] == state && r[|state|] == newMessage
  {
    state + [newMessage]
  }

  /** The list on screen: the confirmed messages, plus the user's message
      while its send is in progress. */
  function OptimisticMessages(st: ChatState): (shown: seq<Message>) {
    match st.inFlight
    case None => st.messages
    case Some(m) => OptimisticAppend(st.messages, m)
  }

  /** The text box's `onChange`. */
  function EditInput(st: ChatState, text: string): (next: ChatState) {
    st.(input := text)
  }

  /** The prefill effect: with a category and no messages yet, the text box
      receives the opening message. */
  function Prefill(st: ChatState, category: Option<Category>): (r: ChatState)
    ensures r.messages == st.messages && r.isLoading == st.isLoading && r.inFlight == st.inFlight
    ensures category.Some? && |st.messages| == 0 ==> r.input == InitialMessage(category)
    ensures !(category.Some? && |st.messages| == 0) ==> r == st
  {
    if category.Some? && |st.messages| == 0 then st.(input := InitialMessage(category)) else st
  }

  /** The guard of `handleSendMessage`. */
  predicate CanSend(st: ChatState) {
    !IsBlank(st.input) && !st.isLoading
  }

  /** The synchronous part of `handleSendMessage`: past the guard, the
      user's message is shown optimistically, the text box is cleared and
      the page starts loading. */
  function SendMessage(st: ChatState, userId: string): (next: ChatState) {
    if !CanSend(st) then st
    else st.(input := "", isLoading := true, inFlight := Some(Message(userId, User, st.input)))
  }

  /** The assistant's text: the reply, or the fixed apology if the call
      failed. */
  function ReplyText(reply: Reply): (text: string) {
    match reply
    case Replied(text) => text
    case Failed => Apology
  }

  /** The rest of `handleSendMessage`, when the call returns or fails: the
      user message and the assistant message are appended together, and
      loading ends either way. */
  function CompleteSend(st: ChatState, reply: Reply, assistantId: string): (next: ChatState) {
    match st.inFlight
    case None => st
    case Some(userMessage) =>
      st.(messages := st.messages + [userMessage, Message(assistantId, Assistant, ReplyText(reply))],
          isLoading := false, inFlight := None)
  }

  /** Confirmed messages come in user/assistant pairs. */
  predicate Alternating(ms: seq<Message>) {
    && |ms| % 2 == 0
    && forall i :: 0 <= i < |ms| ==> ms[i].role == (if i % 2 == 0 then User else Assistant)
  }

  /** What the page keeps true of its state. */
  predicate ChatInvariant(st: ChatState) {
    && (st.isLoading <==> st.inFlight.Some?)
    && (st.inFlight.Some? ==> st.inFlight.value.role == User)
    && Alternating(st.messages)
  }

  /** A blank text box, or a send in progress, makes sending a no-op. */
  lemma SendGuard(st: ChatState, userId: string)
    requires IsBlank(st.input) || st.isLoading
    ensures SendMessage(st, userId) == st
  {
  }

  /** A send past the guard clears the text box, starts loading, and shows
      exactly the user's message after the confirmed ones. */
  lemma SendStarts(st: ChatState, userId: string)
    requires ChatInvariant(st) && CanSend(st)
    ensures SendMessage(st, userId).input == ""
    ensures SendMessage(st, userId).isLoading
    ensures SendMessage(st, userId).messages == st.messages
    ensures OptimisticMessages(SendMessage(st, userId))
         == OptimisticMessages(st) + [Message(userId, User, st.input)]
  {
  }

  /** Completion appends two messages, the user's then the assistant's,
      the apology when the call failed, and ends loading either way. */
  lemma CompleteAppendsPair(st: ChatState, reply: Reply, assistantId: string)
    requires ChatInvariant(st) && st.isLoading
    ensures |CompleteSend(st, reply, assistantId).messages| == |st.messages| + 2
    ensures CompleteSend(st, reply, assistantId).messages[..|st.messages|] == st.messages
    ensures CompleteSend(st, reply, assistantId).messages[|st.messages|] == st.inFlight.value
    ensures CompleteSend(st, reply, assistantId).messages[|st.messages| + 1].role == Assistant
    ensures reply.Failed? ==> CompleteSend(st, reply, assistantId).messages[|st.messages| + 1].content == Apology
    ensures !CompleteSend(st, reply, assistantId).isLoading
    ensures OptimisticMessages(CompleteSend(st, reply, assistantId)) == CompleteSend(st, reply, assistantId).messages
  {
  }

  /** A whole send: the conversation grows by the submitted text and the
      reply, the text box stays empty, and loading is over. */
  lemma SendThenComplete(st: ChatState, userId: string, reply: Reply, assistantId: string)
    requires ChatInvariant(st) && CanSend(st)
    ensures CompleteSend(SendMessage(st, userId), reply, assistantId)
         == ChatState(st.messages + [Message(userId, User, st.input), Message(assistantId, Assistant, ReplyText(reply))],
                      "", false, None)
  {
  }

  /** Every transition of the page keeps the invariant. */
  lemma TransitionsKeepInvariant(st: ChatState, text: string, category: Option<Category>,
                                 userId: string, reply: Reply, assistantId: string)
    requires ChatInvariant(st)
    ensures ChatInvariant(EditInput(st, text))
    ensures ChatInvariant(Prefill(st, category))
    ensures ChatInvariant(SendMessage(st, userId))
    ensures ChatInvariant(CompleteSend(st, reply, assistantId))
  {
    var r := CompleteSend(st, reply, assistantId);
    if st.inFlight.Some? {
      var n := |st.messages|;
      forall i | 0 <= i < |r.messages|
        ensures r.messages[i].role == (if i % 2 == 0 then User else Assistant)
      {
        if i >= n {
          assert i == n || i == n + 1;
        }
      }
    }
  }

  lemma InitialChatInvariant()
    ensures ChatInvariant(InitialChat)
  {
  }
}

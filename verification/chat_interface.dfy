/** The chat collection of src/components/ChatInterface.tsx as pure transitions over an
    explicit state: the chats, the id of the active chat and the one global loading
    flag. Clock readings, the stored history and the assistant's answer are inputs. */
module ChatInterface {

  import opened Options
  import opened Strings
  import opened ChatMessage
  import ChatInput

  datatype Chat = Chat(id: string, title: string, lastMessage: string, timestamp: int, messages: seq<Message>)

  datatype State = State(chats: seq<Chat>, activeChat: string, isLoading: bool)

  /** How the wait for the assistant ended: with an answer, or with an exception. */
  datatype Outcome = Reply(text: string) | Failed

  /** A send between its first step and its completion: the state after the first step
      and the chat id the handler captured when it was called. */
  datatype Pending = Pending(state: State, target: string)

  const Greeting: string := "Olá! Como posso ajudar você hoje?"
  const SampleId: string := "1"
  const SampleTitle: string := "Conversa de exemplo"
  const SampleLastMessage: string := "Olá! Como posso ajudar?"
  const NewChatTitle: string := "Nova Conversa"
  const NewChatLastMessage: string := "Conversa iniciada"
  const LoadingPrefix: string := "loading-"

  /** The state the component starts in, before the history is loaded. */
  const Mounted: State := State([], "", false)

  // ---------------------------------------------------------------------------
  // Ids: `Date.now().toString()`

  predicate IsDigit(c: char)
  {
    '0' <= c <= '9'
  }

  predicate AllDigits(s: string)
  {
    forall k :: 0 <= k < |s| ==> IsDigit(s[k])
  }

  /** The character of a decimal digit. */
  function DigitChar(d: nat): (c: char)
    requires d < 10
    ensures IsDigit(c) && (c as int) - ('0' as int) == d
  {
    (('0' as int) + d) as char
  }

  /** The decimal text of a non-negative integer, as `Number.prototype.toString` gives
      it for the millisecond clock. */
  function Stamp(n: nat): (s: string)
    ensures |s| > 0 && AllDigits(s)
  {
    if n < 10 then [DigitChar(n)] else Stamp(n / 10) + [DigitChar(n % 10)]
  }

  /** The number a string of decimal digits denotes. */
  function DigitsValue(s: string): nat
    requires AllDigits(s)
  {
    if |s| == 0 then 0 else 10 * DigitsValue(s[..|s| - 1]) + ((s[|s| - 1] as int) - ('0' as int))
  }

  /** Reading a stamp back gives the clock value it was made from. */
  lemma {:induction false} StampValue(n: nat)
    ensures DigitsValue(Stamp(n)) == n
  {
    if n >= 10 {
      StampValue(n / 10);
      var s := Stamp(n);
      assert s[..|s| - 1] == Stamp(n / 10);
    }
  }

  /** Different clock readings give different ids. */
  lemma StampInjective(a: nat, b: nat)
    ensures Stamp(a) == Stamp(b) <==> a == b
  {
    StampValue(a);
    StampValue(b);
  }

  /** The id of the placeholder shown while the answer is awaited. */
  function LoadingId(n: nat): string
  {
    LoadingPrefix + Stamp(n)
  }

  /** A placeholder's id never collides with a message id made from the clock. */
  lemma LoadingIdIsNoStamp(n: nat, m: nat)
    ensures LoadingId(n) != Stamp(m)
  {
    assert LoadingId(n)[0] == 'l';
  }

  // ---------------------------------------------------------------------------
  // Messages

  /** The message the user sent. */
  function UserMessage(content: string, now: nat): (m: Message)
    ensures m.sender == User && m.content == content && !m.isLoading && AllDigits(m.id)
  {
    Message(Stamp(now), content, User, now, false)
  }

  /** The placeholder: empty, from the assistant, marked as loading. */
  function LoadingMessage(now: nat): (m: Message)
    ensures m.sender == Assistant && m.content == "" && m.isLoading && !AllDigits(m.id)
  {
    var m := Message(LoadingId(now), "", Assistant, now, true);
    assert m.id[0] == 'l';
    m
  }

  /** The assistant's answer. */
  function AssistantMessage(text: string, now: nat): (m: Message)
    ensures m.sender == Assistant && m.content == text && !m.isLoading && AllDigits(m.id)
  {
    Message(Stamp(now), text, Assistant, now, false)
  }

  /** No message of the list is a loading placeholder. */
  predicate NoPlaceholders(ms: seq<Message>)
  {
    forall k :: 0 <= k < |ms| ==> !ms[k].isLoading
  }

  /** `messages.filter(m => !m.isLoading)`. */
  function WithoutPlaceholders(ms: seq<Message>): (r: seq<Message>)
    ensures |r| <= |ms| && NoPlaceholders(r)
    ensures forall m :: m in r ==> m in ms
    ensures forall m :: m in ms && !m.isLoading ==> m in r
  {
    if |ms| == 0 then []
    else if ms[0].isLoading then WithoutPlaceholders(ms[1..])
    else [ms[0]] + WithoutPlaceholders(ms[1..])
  }

  /** Filtering a concatenation filters each side. */
  lemma {:induction false} WithoutPlaceholdersAppend(a: seq<Message>, b: seq<Message>)
    ensures WithoutPlaceholders(a + b) == WithoutPlaceholders(a) + WithoutPlaceholders(b)
  {
    if |a| > 0 {
      assert (a + b)[0] == a[0];
      assert (a + b)[1..] == a[1..] + b;
      WithoutPlaceholdersAppend(a[1..], b);
      if !a[0].isLoading {
        var x, y := WithoutPlaceholders(a[1..]), WithoutPlaceholders(b);
        assert [a[0]] + (x + y) == ([a[0]] + x) + y;
      }
    } else {
      assert a + b == b;
    }
  }

  /** A list without placeholders is left as it is. */
  lemma {:induction false} WithoutPlaceholdersKeeps(ms: seq<Message>)
    requires NoPlaceholders(ms)
    ensures WithoutPlaceholders(ms) == ms
  {
    if |ms| > 0 {
      WithoutPlaceholdersKeeps(ms[1..]);
      assert [ms[0]] + ms[1..] == ms;
    }
  }

  // ---------------------------------------------------------------------------
  // Finding chats: `chats.find(chat => chat.id === id)`

  function FindIndex(chats: seq<Chat>, id: string): (r: Option<nat>)
    ensures r.None? <==> forall k :: 0 <= k < |chats| ==> chats[k].id != id
    ensures r.Some? ==> r.value < |chats| && chats[r.value].id == id
    ensures r.Some? ==> forall k :: 0 <= k < r.value ==> chats[k].id != id
  {
    if |chats| == 0 then None
    else if chats[0].id == id then Some(0)
    else
      match FindIndex(chats[1..], id)
      case None => None
      case Some(k) => Some(k + 1)
  }

  /** The first chat with the given id, if any. */
  function FindChat(chats: seq<Chat>, id: string): (r: Option<Chat>)
    ensures r.None? <==> forall k :: 0 <= k < |chats| ==> chats[k].id != id
    ensures r.Some? ==> r.value.id == id
    ensures r.Some? ==> exists k :: 0 <= k < |chats| && chats[k] == r.value && forall j :: 0 <= j < k ==> chats[j].id != id
  {
    match FindIndex(chats, id)
    case None => None
    case Some(k) => Some(chats[k])
  }

  /** `getCurrentChat`. */
  function CurrentChat(st: State): (r: Option<Chat>)
    ensures r.None? <==> forall k :: 0 <= k < |st.chats| ==> st.chats[k].id != st.activeChat
    ensures r.Some? ==> r.value in st.chats && r.value.id == st.activeChat
    ensures r.Some? ==> exists k :: 0 <= k < |st.chats| && st.chats[k] == r.value
                                    && forall j :: 0 <= j < k ==> st.chats[j].id != st.activeChat
  {
    FindChat(st.chats, st.activeChat)
  }

  /** Two lists with the same ids position by position find the same index. */
  lemma FindIndexSameIds(a: seq<Chat>, b: seq<Chat>, id: string)
    requires |a| == |b| && forall k :: 0 <= k < |a| ==> a[k].id == b[k].id
    ensures FindIndex(a, id) == FindIndex(b, id)
  {
  }

  /** The invariant of the component: the active id names a chat, or there are no chats
      and nothing is active. */
  predicate ActiveResolves(st: State)
  {
    CurrentChat(st).Some? || (st.chats == [] && st.activeChat == "")
  }

  // ---------------------------------------------------------------------------
  // Editing chats: `chats.map(chat => chat.id === id ? {...chat, ...} : chat)`

  /** The three edits a send makes to its chat. */
  datatype Edit =
    | AppendExchange(content: string, now: nat)
    | AcceptReply(text: string, now: nat)
    | DropPlaceholders

  /** The chat after one edit: the append, the accepted answer, or the dropped placeholders. */
  function ApplyEdit(c: Chat, e: Edit): (r: Chat)
    ensures r.id == c.id && r.title == c.title
  {
    match e
    case AppendExchange(content, now) =>
      c.(messages := c.messages + [UserMessage(content, now), LoadingMessage(now)],
         lastMessage := content, timestamp := now)
    case AcceptReply(text, now) =>
      c.(messages := WithoutPlaceholders(c.messages) + [AssistantMessage(text, now)], lastMessage := text)
    case DropPlaceholders =>
      c.(messages := WithoutPlaceholders(c.messages))
  }

  /** Applies an edit to every chat with the given id and to no other. */
  function UpdateChat(chats: seq<Chat>, id: string, e: Edit): (r: seq<Chat>)
    ensures |r| == |chats|
    ensures forall k :: 0 <= k < |r| ==> r[k].id == chats[k].id
    ensures forall k :: 0 <= k < |r| && chats[k].id != id ==> r[k] == chats[k]
    ensures forall k :: 0 <= k < |r| && chats[k].id == id ==> r[k] == ApplyEdit(chats[k], e)
  {
    seq(|chats|, k requires 0 <= k < |chats| => if chats[k].id == id then ApplyEdit(chats[k], e) else chats[k])
  }

  /** After an edit, the chat found by the edited id is the edited chat, and the chat
      found by any other id is the one found before. */
  lemma FindAfterUpdate(chats: seq<Chat>, id: string, e: Edit, x: string)
    ensures var r := UpdateChat(chats, id, e);
      FindChat(r, x) == match FindChat(chats, x)
        case None => None
        case Some(c) => Some(if x == id then ApplyEdit(c, e) else c)
  {
    var r := UpdateChat(chats, id, e);
    FindIndexSameIds(r, chats, x);
  }

  // ---------------------------------------------------------------------------
  // Loading and saving the history

  /** The chat created when there is no usable history. */
  function SampleChat(now: int): (c: Chat)
    ensures c.id == SampleId && c.title == SampleTitle && |c.messages| == 1 && NoPlaceholders(c.messages)
    ensures c.messages[0].sender == Assistant && c.messages[0].content == Greeting
  {
    Chat(SampleId, SampleTitle, SampleLastMessage, now, [Message(SampleId, Greeting, Assistant, now, false)])
  }

  /** `loadChatHistory`. `saved` is what the storage read returned, `None` standing both
      for a missing key and for a read that threw; `parse` stands for `JSON.parse` and
      the date conversion, `None` when either threw. An empty stored text counts as
      missing. */
  function LoadChatHistory(saved: Option<string>, parse: string -> Option<seq<Chat>>, now: int): (st: State)
    ensures !st.isLoading && ActiveResolves(st)
    ensures saved.None? || saved.value == "" || parse(saved.value).None? ==>
      st.chats == [SampleChat(now)] && st.activeChat == SampleId && CurrentChat(st) == Some(SampleChat(now))
    ensures saved.Some? && saved.value != "" && parse(saved.value).Some? ==>
      st.chats == parse(saved.value).value
      && (st.chats != [] ==> CurrentChat(st) == Some(st.chats[0]))
  {
    if saved.Some? && saved.value != "" then
      match parse(saved.value)
      case Some(loaded) =>
        if |loaded| > 0 then State(loaded, loaded[0].id, false) else State(loaded, Mounted.activeChat, false)
      case None => State([SampleChat(now)], SampleId, false)
    else State([SampleChat(now)], SampleId, false)
  }

  /** The save effect: the text written under the storage key, or `None` when nothing
      is written. `store` stands for `JSON.stringify` followed by the write, `None` when
      either threw. */
  function SaveChatHistory(chats: seq<Chat>, store: seq<Chat> -> Option<string>): (written: Option<string>)
    ensures written.Some? ==> chats != [] && written == store(chats)
    ensures chats != [] && store(chats).Some? ==> written.Some?
  {
    if |chats| > 0 then store(chats) else None
  }

  /** Saving a non-empty list and loading it again restores the list with its first
      chat active; which chat was active before is not kept. */
  lemma SaveThenLoad(st: State, store: seq<Chat> -> Option<string>, parse: string -> Option<seq<Chat>>, now: int)
    requires st.chats != []
    requires store(st.chats).Some? && store(st.chats).value != ""
    requires parse(store(st.chats).value) == Some(st.chats)
    ensures LoadChatHistory(SaveChatHistory(st.chats, store), parse, now) == State(st.chats, st.chats[0].id, false)
  {
  }

  // ---------------------------------------------------------------------------
  // Sending: `handleSendMessage`

  /** The guard at the top of the handler. */
  predicate CanSend(st: State)
  {
    st.activeChat != "" && !st.isLoading
  }

  /** The handler up to its `await`: the guard, the loading flag and the append. `None`
      means the handler returned at once and the state is unchanged. */
  function BeginSend(st: State, content: string, now: nat): (r: Option<Pending>)
    ensures r.None? <==> !CanSend(st)
    ensures r.Some? ==> r.value.target == st.activeChat && r.value.state.activeChat == st.activeChat
    ensures r.Some? ==> r.value.state.isLoading
    ensures r.Some? && ActiveResolves(st) ==> ActiveResolves(r.value.state)
  {
    if !CanSend(st) then None
    else
      var chats := UpdateChat(st.chats, st.activeChat, AppendExchange(content, now));
      FindIndexSameIds(chats, st.chats, st.activeChat);
      Some(Pending(State(chats, st.activeChat, true), st.activeChat))
  }

  /** The edit the end of the wait makes to the captured chat. */
  function Settle(outcome: Outcome, now: nat): (e: Edit)
    ensures e.AcceptReply? <==> outcome.Reply?
  {
    match outcome
    case Reply(text) => AcceptReply(text, now)
    case Failed => DropPlaceholders
  }

  /** The handler after its `await`: the captured chat gets the answer or loses its
      placeholders, whichever chat is active by then, and the loading flag is cleared. */
  function FinishSend(st: State, target: string, outcome: Outcome, now: nat): (r: State)
    ensures !r.isLoading && r.activeChat == st.activeChat
    ensures |r.chats| == |st.chats|
    ensures forall k :: 0 <= k < |r.chats| ==> r.chats[k].id == st.chats[k].id
    ensures forall k :: 0 <= k < |r.chats| && st.chats[k].id != target ==> r.chats[k] == st.chats[k]
    ensures forall k :: 0 <= k < |r.chats| && st.chats[k].id == target ==> NoPlaceholders(r.chats[k].messages)
    ensures ActiveResolves(st) ==> ActiveResolves(r)
  {
    var e := Settle(outcome, now);
    var chats := UpdateChat(st.chats, target, e);
    FindIndexSameIds(chats, st.chats, st.activeChat);
    forall k | 0 <= k < |chats| && st.chats[k].id == target
      ensures NoPlaceholders(chats[k].messages)
    {
      var kept := WithoutPlaceholders(st.chats[k].messages);
      if outcome.Reply? {
        assert chats[k].messages == kept + [AssistantMessage(outcome.text, now)];
      }
    }
    State(chats, st.activeChat, false)
  }

  /** The whole handler when nothing else happens while it waits. */
  function SendMessage(st: State, content: string, outcome: Outcome, now: nat, later: nat): (r: State)
    ensures !CanSend(st) ==> r == st
    ensures CanSend(st) ==> !r.isLoading && r.activeChat == st.activeChat && |r.chats| == |st.chats|
    ensures ActiveResolves(st) ==> ActiveResolves(r)
  {
    match BeginSend(st, content, now)
    case None => st
    case Some(p) => FinishSend(p.state, p.target, outcome, later)
  }

  /** The first step edits the active chat and no other. */
  lemma BeginSendEdits(st: State, content: string, now: nat, c: Chat)
    requires CanSend(st) && CurrentChat(st) == Some(c)
    ensures var p := BeginSend(st, content, now).value;
      && CurrentChat(p.state) == Some(ApplyEdit(c, AppendExchange(content, now)))
      && (forall x :: x != st.activeChat ==> FindChat(p.state.chats, x) == FindChat(st.chats, x))
  {
    var p := BeginSend(st, content, now).value;
    FindAfterUpdate(st.chats, st.activeChat, AppendExchange(content, now), st.activeChat);
    forall x | x != st.activeChat
      ensures FindChat(p.state.chats, x) == FindChat(st.chats, x)
    {
      FindAfterUpdate(st.chats, st.activeChat, AppendExchange(content, now), x);
    }
  }

  /** The first step appends the user's message and a placeholder to the active chat,
      makes the content its last message, and leaves every other chat as it was. */
  lemma BeginSendAppends(st: State, content: string, now: nat, c: Chat)
    requires CanSend(st) && CurrentChat(st) == Some(c)
    ensures var p := BeginSend(st, content, now).value; var c' := CurrentChat(p.state).value;
      && CurrentChat(p.state).Some?
      && c'.messages == c.messages + [UserMessage(content, now), LoadingMessage(now)]
      && c'.lastMessage == content && c'.timestamp == now && c'.id == c.id && c'.title == c.title
      && (forall x :: x != st.activeChat ==> FindChat(p.state.chats, x) == FindChat(st.chats, x))
  {
    BeginSendEdits(st, content, now, c);
  }

  /** The two edits of a send, applied to one chat: its earlier messages without
      placeholders, the user's message, and the answer when there is one. */
  lemma ExchangeThenSettle(c: Chat, content: string, now: nat, outcome: Outcome, later: nat)
    ensures var c' := ApplyEdit(ApplyEdit(c, AppendExchange(content, now)), Settle(outcome, later));
      && c'.messages == WithoutPlaceholders(c.messages) + [UserMessage(content, now)]
           + (match outcome case Reply(text) => [AssistantMessage(text, later)] case Failed => [])
      && c'.lastMessage == (match outcome case Reply(text) => text case Failed => content)
      && c'.timestamp == now && c'.id == c.id && c'.title == c.title
  {
    ExchangeFiltered(c.messages, content, now);
  }

  /** An uninterrupted send leaves the active chat with its earlier non-placeholder
      messages, then the user's message, then the answer if there was one; the last
      message shown in the list is the answer, or the user's text when there was none. */
  lemma SendMessageResult(st: State, content: string, outcome: Outcome, now: nat, later: nat, c: Chat)
    requires CanSend(st) && CurrentChat(st) == Some(c)
    ensures var c' := CurrentChat(SendMessage(st, content, outcome, now, later));
      && c'.Some?
      && c'.value.messages == WithoutPlaceholders(c.messages) + [UserMessage(content, now)]
           + (match outcome case Reply(text) => [AssistantMessage(text, later)] case Failed => [])
      && c'.value.lastMessage == (match outcome case Reply(text) => text case Failed => content)
      && c'.value.timestamp == now
  {
    var p := BeginSend(st, content, now).value;
    BeginSendEdits(st, content, now, c);
    FinishSendOn(p.state, p.target, outcome, later, ApplyEdit(c, AppendExchange(content, now)));
    ExchangeThenSettle(c, content, now, outcome, later);
  }

  /** The second step edits the captured chat: the answer replaces its placeholders, or
      they are dropped. */
  lemma FinishSendOn(st: State, target: string, outcome: Outcome, now: nat, c: Chat)
    requires FindChat(st.chats, target) == Some(c)
    ensures FindChat(FinishSend(st, target, outcome, now).chats, target) == Some(ApplyEdit(c, Settle(outcome, now)))
  {
    FindAfterUpdate(st.chats, target, Settle(outcome, now), target);
  }

  /** The second step changes no chat but the captured one. */
  lemma FinishSendElsewhere(st: State, target: string, outcome: Outcome, now: nat, x: string)
    requires x != target
    ensures FindChat(FinishSend(st, target, outcome, now).chats, x) == FindChat(st.chats, x)
  {
    var e := Settle(outcome, now);
    FindAfterUpdate(st.chats, target, e, x);
  }

  /** Filtering the placeholders out after the first step leaves the user's message. */
  lemma ExchangeFiltered(ms: seq<Message>, content: string, now: nat)
    ensures WithoutPlaceholders(ms + [UserMessage(content, now), LoadingMessage(now)])
      == WithoutPlaceholders(ms) + [UserMessage(content, now)]
  {
    var two := [UserMessage(content, now), LoadingMessage(now)];
    WithoutPlaceholdersAppend(ms, two);
    assert two[1..][1..] == [];
  }

  /** From a chat of n messages none of which is a placeholder, a send ends with n + 2
      messages after an answer and n + 1 after a failure. */
  lemma SendMessageCount(st: State, content: string, outcome: Outcome, now: nat, later: nat, c: Chat)
    requires CanSend(st) && CurrentChat(st) == Some(c) && NoPlaceholders(c.messages)
    ensures |CurrentChat(SendMessage(st, content, outcome, now, later)).value.messages|
      == |c.messages| + (if outcome.Reply? then 2 else 1)
  {
    SendMessageResult(st, content, outcome, now, later, c);
    WithoutPlaceholdersKeeps(c.messages);
  }

  // ---------------------------------------------------------------------------
  // Other transitions

  /** The chat `handleNewChat` creates. The handler reads the clock separately for the
      chat (`created`) and for its greeting (`greeted`). */
  function FreshChat(created: nat, greeted: nat): (c: Chat)
    ensures c.id == Stamp(created) && c.title == NewChatTitle && |c.messages| == 1 && NoPlaceholders(c.messages)
    ensures c.messages[0].id == Stamp(greeted) && c.messages[0].sender == Assistant && c.messages[0].content == Greeting
  {
    Chat(Stamp(created), NewChatTitle, NewChatLastMessage, created, [Message(Stamp(greeted), Greeting, Assistant, greeted, false)])
  }

  /** `handleNewChat`: the new chat goes first and becomes the active one; the loading
      flag is untouched. */
  function NewChat(st: State, created: nat, greeted: nat): (r: State)
    ensures |r.chats| == |st.chats| + 1 && r.chats[1..] == st.chats
    ensures CurrentChat(r) == Some(FreshChat(created, greeted))
    ensures r.isLoading == st.isLoading && ActiveResolves(r)
  {
    var r := State([FreshChat(created, greeted)] + st.chats, Stamp(created), st.isLoading);
    assert r.chats[0] == FreshChat(created, greeted);
    r
  }

  /** Choosing a chat in the sidebar (`onSelectChat={setActiveChat}`). */
  function SelectChat(st: State, id: string): (r: State)
    ensures r.chats == st.chats && r.isLoading == st.isLoading
    ensures FindChat(st.chats, id).Some? ==> ActiveResolves(r) && CurrentChat(r) == FindChat(st.chats, id)
  {
    st.(activeChat := id)
  }

  /** A send during which the user creates a chat: the handler's first step, then
      `handleNewChat`, then the end of the wait. */
  function SendAroundNewChat(st: State, content: string, now: nat, created: nat, greeted: nat, outcome: Outcome, later: nat): (r: State)
    requires CanSend(st)
    ensures !r.isLoading && r.activeChat == Stamp(created) && |r.chats| == |st.chats| + 1
  {
    var p := BeginSend(st, content, now).value;
    FinishSend(NewChat(p.state, created, greeted), p.target, outcome, later)
  }

  /** The handler keeps the chat it captured: when a new chat is created while it waits,
      the answer still goes to the chat the message was sent from, and the new chat,
      now active, keeps only its greeting. */
  lemma AnswerFollowsCapturedChat(st: State, content: string, now: nat, created: nat, greeted: nat, text: string, later: nat, c: Chat)
    requires CanSend(st) && CurrentChat(st) == Some(c) && Stamp(created) != st.activeChat
    ensures var done := SendAroundNewChat(st, content, now, created, greeted, Reply(text), later);
      && CurrentChat(done) == Some(FreshChat(created, greeted))
      && FindChat(done.chats, c.id).Some?
      && FindChat(done.chats, c.id).value.messages
           == WithoutPlaceholders(c.messages) + [UserMessage(content, now), AssistantMessage(text, later)]
  {
    NewChatStaysActive(st, content, now, created, greeted, text, later, c);
    AnswerReachesCapturedChat(st, content, now, created, greeted, text, later, c);
  }

  /** The chat created while the answer is awaited is still the one shown afterwards. */
  lemma NewChatStaysActive(st: State, content: string, now: nat, created: nat, greeted: nat, text: string, later: nat, c: Chat)
    requires CanSend(st) && CurrentChat(st) == Some(c) && Stamp(created) != st.activeChat
    ensures CurrentChat(SendAroundNewChat(st, content, now, created, greeted, Reply(text), later)) == Some(FreshChat(created, greeted))
  {
    var p := BeginSend(st, content, now).value;
    assert p.target == c.id;
    var mid := NewChat(p.state, created, greeted);
    assert mid.activeChat == Stamp(created);
    FinishSendElsewhere(mid, p.target, Reply(text), later, mid.activeChat);
  }

  /** The answer lands in the chat the message was sent from. */
  lemma AnswerReachesCapturedChat(st: State, content: string, now: nat, created: nat, greeted: nat, text: string, later: nat, c: Chat)
    requires CanSend(st) && CurrentChat(st) == Some(c) && Stamp(created) != st.activeChat
    ensures var done := SendAroundNewChat(st, content, now, created, greeted, Reply(text), later);
      && FindChat(done.chats, c.id).Some?
      && FindChat(done.chats, c.id).value.messages
           == WithoutPlaceholders(c.messages) + [UserMessage(content, now), AssistantMessage(text, later)]
  {
    var p := BeginSend(st, content, now).value;
    BeginSendEdits(st, content, now, c);
    var c1 := ApplyEdit(c, AppendExchange(content, now));
    var mid := NewChat(p.state, created, greeted);
    NewChatKeepsOthers(p.state, created, greeted, c.id);
    FinishSendOn(mid, p.target, Reply(text), later, c1);
    ExchangeThenSettle(c, content, now, Reply(text), later);
    AppendTwo(WithoutPlaceholders(c.messages), UserMessage(content, now), AssistantMessage(text, later));
  }

  /** Appending two messages one at a time or together. */
  lemma AppendTwo(a: seq<Message>, x: Message, y: Message)
    ensures a + [x] + [y] == a + [x, y]
  {
  }

  /** The handler keeps the chat it captured when the user switches chats while it
      waits: the answer goes to the chat the message was sent from and the chat now
      shown is left as it was. */
  lemma AnswerIgnoresSwitch(st: State, content: string, now: nat, other: string, outcome: Outcome, later: nat, c: Chat, o: Chat)
    requires CanSend(st) && CurrentChat(st) == Some(c)
    requires other != st.activeChat && FindChat(st.chats, other) == Some(o)
    ensures var p := BeginSend(st, content, now).value;
      var done := FinishSend(SelectChat(p.state, other), p.target, outcome, later);
      && CurrentChat(done) == Some(o)
      && FindChat(done.chats, c.id) == Some(ApplyEdit(ApplyEdit(c, AppendExchange(content, now)), Settle(outcome, later)))
  {
    var p := BeginSend(st, content, now).value;
    BeginSendEdits(st, content, now, c);
    var mid := SelectChat(p.state, other);
    FinishSendOn(mid, p.target, outcome, later, ApplyEdit(c, AppendExchange(content, now)));
    FinishSendElsewhere(mid, p.target, outcome, later, other);
  }

  /** Creating a chat hides no other chat: every other id finds what it found before. */
  lemma NewChatKeepsOthers(st: State, created: nat, greeted: nat, x: string)
    requires x != Stamp(created)
    ensures FindChat(NewChat(st, created, greeted).chats, x) == FindChat(st.chats, x)
  {
    var r := NewChat(st, created, greeted);
    assert r.chats[1..] == st.chats;
    assert r.chats == [r.chats[0]] + st.chats;
  }

  /** The message box as the chat wires it up: disabled while the global loading flag
      is set, and sending into the handler. */
  datatype Typed = Typed(state: State, draft: string)

  /** One submit from the message box: the chat state after it and the draft left in
      the box. */
  function SubmitDraft(st: State, draft: string, outcome: Outcome, now: nat, later: nat): (r: Typed)
    ensures st.isLoading || AllSpace(draft) ==> r == Typed(st, draft)
    ensures !st.isLoading && !AllSpace(draft) ==> r.draft == "" && !r.state.isLoading
    ensures ActiveResolves(st) ==> ActiveResolves(r.state)
  {
    var sub := ChatInput.HandleSubmit(draft, st.isLoading);
    match sub.sent
    case None => Typed(st, sub.draft)
    case Some(text) => Typed(SendMessage(st, text, outcome, now, later), sub.draft)
  }

  /** What the box sends is the trimmed draft, and it lands in the active chat as the
      user's message. */
  lemma SubmitAppendsTrimmed(st: State, draft: string, outcome: Outcome, now: nat, later: nat, c: Chat)
    requires CanSend(st) && CurrentChat(st) == Some(c) && !AllSpace(draft)
    ensures var c' := CurrentChat(SubmitDraft(st, draft, outcome, now, later).state);
      && c'.Some?
      && c'.value.messages == WithoutPlaceholders(c.messages) + [UserMessage(Trim(draft), now)]
           + (match outcome case Reply(text) => [AssistantMessage(text, later)] case Failed => [])
  {
    ChatInput.SentIsTrim(draft, st.isLoading);
    SendMessageResult(st, Trim(draft), outcome, now, later, c);
  }
}

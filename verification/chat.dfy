/** The conversation state of `src/components/chatbot/ChatbotWidget.tsx`:
    the welcome seeding, opening and closing, and `handleSend`. */
module Chat {
  import opened Wrappers
  import Text
  import opened Auth
  import opened Responses

  datatype Speaker = UserSpeaker | Assistant

  /** A transcript entry; `id` and `timestamp` come from the clock. */
  datatype ChatMessage = ChatMessage(id: string, speaker: Speaker, content: string, timestamp: nat)

  datatype Widget = Widget(isOpen: bool, isMinimized: bool, messages: seq<ChatMessage>, input: string)

  /** The widget as it mounts: closed, empty transcript and input. */
  const Mounted: Widget := Widget(false, false, [], "")

  /** The role the reply cascade consults: `user?.role`. */
  function RoleOf(user: Option<User>): (r: Role)
    ensures user.None? ==> r == NoRole
    ensures user.Some? ==> r == user.value.role
  {
    match user
    case Some(u) => u.role
    case None => NoRole
  }

  /** `t('chat.welcome')`, whose localised text is not part of this model. */
  const GenericWelcome: string := "Hello! How can I help you today?"

  /** The staff welcome, naming the user. */
  function StaffWelcome(name: string): (t: string)
    ensures Text.Contains(t, name)
    ensures "Welcome back, " <= t
  {
    var t := "Welcome back, " + name + "! Ask about finances, programs, aid requests, compliance.";
    assert t[14..14 + |name|] == name;
    Text.ContainsSlice(t, 14, 14 + |name|);
    t
  }

  /** The donor welcome, naming the user. */
  function DonorWelcome(name: string): (t: string)
    ensures Text.Contains(t, name)
    ensures "Hello " <= t
  {
    var t := "Hello " + name + "! Thank you for being a valued donor.";
    assert t[6..6 + |name|] == name;
    Text.ContainsSlice(t, 6, 6 + |name|);
    t
  }

  /** `getWelcomeMessage()`: staff first, then donor, then the generic one. */
  function WelcomeText(user: Option<User>): (t: string)
    ensures RoleOf(user) == Staff ==> t == StaffWelcome(user.value.name)
    ensures RoleOf(user) == Donor ==> t == DonorWelcome(user.value.name)
    ensures RoleOf(user) == NoRole ==> t == GenericWelcome
  {
    match RoleOf(user)
    case Staff => StaffWelcome(user.value.name)
    case Donor => DonorWelcome(user.value.name)
    case NoRole => GenericWelcome
  }

  /** The effect run when `isOpen` changes: seeds the welcome only when the
      widget is open and the transcript is empty. */
  function SeedWelcome(w: Widget, user: Option<User>, now: nat): (w': Widget)
    ensures w.isOpen && w.messages == [] ==>
      && |w'.messages| == 1
      && w'.messages[0].speaker == Assistant
      && w'.messages[0].content == WelcomeText(user)
      && w'.messages[0].id == "1"
    ensures !(w.isOpen && w.messages == []) ==> w' == w
    ensures w'.isOpen == w.isOpen && w'.isMinimized == w.isMinimized && w'.input == w.input
  {
    if w.isOpen && |w.messages| == 0 then
      w.(messages := [ChatMessage("1", Assistant, WelcomeText(user), now)])
    else w
  }

  /** The floating button: opens the widget, then the effect runs. */
  function Open(w: Widget, user: Option<User>, now: nat): (w': Widget)
    ensures w'.isOpen
    ensures w.messages != [] ==> w'.messages == w.messages
    ensures w.messages == [] ==> |w'.messages| == 1 && w'.messages[0].content == WelcomeText(user)
    ensures w'.isMinimized == w.isMinimized && w'.input == w.input
  {
    SeedWelcome(w.(isOpen := true), user, now)
  }

  /** The close button; the transcript is kept, and the effect does nothing
      on a closed widget. */
  function Close(w: Widget, user: Option<User>, now: nat): (w': Widget)
    ensures !w'.isOpen && w'.messages == w.messages
    ensures w'.isMinimized == w.isMinimized && w'.input == w.input
  {
    SeedWelcome(w.(isOpen := false), user, now)
  }

  function ToggleMinimize(w: Widget): (w': Widget)
    ensures w'.isMinimized == !w.isMinimized && w'.messages == w.messages
    ensures w'.isOpen == w.isOpen && w'.input == w.input
  {
    w.(isMinimized := !w.isMinimized)
  }

  /** Typing into the input box. */
  function Type(w: Widget, input: string): (w': Widget)
    ensures w'.input == input && w'.messages == w.messages
    ensures w'.isOpen == w.isOpen && w'.isMinimized == w.isMinimized
  {
    w.(input := input)
  }

  /** `handleSend()`. `sentAt` and `repliedAt` stand for the two
      `Date.now()` readings, before and after the simulated delay. A blank
      input changes nothing; otherwise the untrimmed input and then the reply
      to it are appended and the input is cleared. */
  function Send(w: Widget, user: Option<User>, sentAt: nat, repliedAt: nat): (w': Widget)
    ensures Text.IsBlank(w.input) ==> w' == w
    ensures !Text.IsBlank(w.input) ==>
      && |w'.messages| == |w.messages| + 2
      && w'.messages[..|w.messages|] == w.messages
      && w'.messages[|w.messages|] == ChatMessage(Text.NatToString(sentAt), UserSpeaker, w.input, sentAt)
      && w'.messages[|w.messages| + 1].speaker == Assistant
      && w'.messages[|w.messages| + 1].content == RespondText(RoleOf(user), w.input)
      && w'.input == ""
    ensures w'.isOpen == w.isOpen && w'.isMinimized == w.isMinimized
  {
    if Text.IsBlank(w.input) then w
    else
      var question := ChatMessage(Text.NatToString(sentAt), UserSpeaker, w.input, sentAt);
      var answer := ChatMessage(Text.NatToString(repliedAt + 1), Assistant,
                                ReplyText(Respond(RoleOf(user), w.input)), repliedAt);
      w.(messages := w.messages + [question, answer], input := "")
  }

  // ---------------------------------------------------------------------------
  // The transcript over a whole session
  // ---------------------------------------------------------------------------

  /** What the user can do to the widget; each event carries the signed-in
      user and the clock readings it needs. */
  datatype Event =
    | OpenEvent(user: Option<User>, now: nat)
    | CloseEvent(user: Option<User>, now: nat)
    | MinimizeEvent
    | TypeEvent(text: string)
    | SendEvent(user: Option<User>, sentAt: nat, repliedAt: nat)

  function Step(w: Widget, e: Event): Widget {
    match e
    case OpenEvent(u, t) => Open(w, u, t)
    case CloseEvent(u, t) => Close(w, u, t)
    case MinimizeEvent => ToggleMinimize(w)
    case TypeEvent(s) => Type(w, s)
    case SendEvent(u, t1, t2) => Send(w, u, t1, t2)
  }

  function Run(w: Widget, events: seq<Event>): Widget
    decreases |events|
  {
    if events == [] then w else Run(Step(w, events[0]), events[1..])
  }

  /** Every user entry is immediately followed by an assistant entry, and
      the first entry, if any, is the assistant's welcome. */
  ghost predicate Paired(h: seq<ChatMessage>) {
    && (h != [] ==> h[0].speaker == Assistant)
    && forall k :: 0 <= k < |h| && h[k].speaker == UserSpeaker ==>
         k + 1 < |h| && h[k + 1].speaker == Assistant
  }

  /** Appending a question and its answer to a non-empty paired
      transcript keeps it paired. */
  lemma PairedAppend(h: seq<ChatMessage>, q: ChatMessage, a: ChatMessage)
    requires Paired(h) && h != []
    requires a.speaker == Assistant
    ensures Paired(h + [q, a])
  {
  }

  /** A send keeps a non-empty paired transcript paired. */
  lemma SendKeepsPaired(w: Widget, user: Option<User>, sentAt: nat, repliedAt: nat)
    requires Paired(w.messages) && w.messages != []
    ensures Paired(Send(w, user, sentAt, repliedAt).messages)
  {
    var w' := Send(w, user, sentAt, repliedAt);
    if !Text.IsBlank(w.input) {
      var n := |w.messages|;
      assert w'.messages == w.messages + [w'.messages[n], w'.messages[n + 1]];
      PairedAppend(w.messages, w'.messages[n], w'.messages[n + 1]);
    }
  }

  /** Each step only appends, and keeps a paired transcript paired as long
      as it is not empty when a send happens. */
  lemma StepAppends(w: Widget, e: Event)
    ensures w.messages <= Step(w, e).messages
    ensures Paired(w.messages) && (w.messages != [] || !e.SendEvent?) ==> Paired(Step(w, e).messages)
  {
    match e
    case SendEvent(u, t1, t2) =>
      if Paired(w.messages) && w.messages != [] {
        SendKeepsPaired(w, u, t1, t2);
      }
    case OpenEvent(u, t) =>
      if w.messages == [] {
        assert Paired(Open(w, u, t).messages);
      }
    case _ =>
  }

  /** The transcript is append-only over any run, and a run that opens the
      widget before the first send keeps every question answered. */
  lemma {:induction false} RunAppends(w: Widget, events: seq<Event>)
    ensures w.messages <= Run(w, events).messages
    ensures Paired(w.messages) && w.messages != [] ==> Paired(Run(w, events).messages)
    decreases |events|
  {
    if events != [] {
      var w1 := Step(w, events[0]);
      StepAppends(w, events[0]);
      RunAppends(w1, events[1..]);
    }
  }

  /** Opening a freshly mounted widget shows exactly the welcome for the
      current user, and the transcript starts with it for good. */
  lemma {:induction false} WelcomeStaysFirst(user: Option<User>, now: nat, events: seq<Event>)
    ensures var w := Open(Mounted, user, now);
      && |w.messages| == 1
      && w.messages[0] == ChatMessage("1", Assistant, WelcomeText(user), now)
      && |Run(w, events).messages| >= 1
      && Run(w, events).messages[0] == w.messages[0]
      && Paired(Run(w, events).messages)
  {
    var w := Open(Mounted, user, now);
    RunAppends(w, events);
  }
}

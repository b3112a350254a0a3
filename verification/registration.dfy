/** The `/start` registration conversation of handlers/student_handlers.py:
    the three handlers `start`, `get_contact` and `cancel`, and the
    `ConversationHandler` that routes one user's messages to them. */
module Registration {
  import opened Wrappers
  import opened Text
  import opened UserStore

  /** The sender of a message (`update.message.from_user`). */
  datatype User = User(id: UserId, username: Option<string>)

  /** A shared contact card (`update.message.contact`); Telegram always sends
      a first name, the last name may be missing. */
  datatype Contact = Contact(userId: UserId, firstName: string, lastName: Option<string>)

  /** An incoming message as the handlers' filters see it: who sent it, the
      bot command its text starts with (if any), and the contact it carries
      (if any). `command` holds the command as `CommandHandler` compares it:
      lower-cased, and present only when the command is addressed to this
      bot (so `/Start` reads as `Some("start")`, and `/start@otherbot` as
      `None`). */
  datatype Message = Message(sender: User, command: Option<string>, contact: Option<Contact>)

  /** Where the conversation stands: `Idle` when the `ConversationHandler`
      holds no state for the user (before `/start`, or after a handler
      returned `END`), `AwaitingContact` for the state `GET_CONTACT`. */
  datatype Phase = Idle | AwaitingContact

  /** The `'username'` entry of `context.user_data`: absent, or present with a
      value that is itself possibly `None`. */
  datatype UserData = Cleared | Stashed(username: Option<string>) {
    /** `user_data.get('username')`. */
    function Get(): Option<string> {
      if Stashed? then username else None
    }
  }

  /** The text replies, as tags. */
  datatype Reply =
    | WelcomeBack(name: string)   // already registered under `name`
    | AskContact                  // greeting with the share-contact button
    | Registered(name: string)    // registration stored under `name`
    | RegisterFailed              // generic registration error
    | Cancelled                   // registration cancelled

  /** Everything a step can change: the user's conversation state, the user's
      scratch data and the shared user table. */
  datatype Config = Config(phase: Phase, data: UserData, store: Store)

  /** What one handler call leaves behind, and its single reply. */
  datatype Outcome = Outcome(next: Config, reply: Reply)

  /** The bot commands the conversation listens to. */
  const StartCommand: string := "start"
  const CancelCommand: string := "cancel"

  /** The display name built from a contact: first and last name joined by
      one space, a missing last name read as empty, the whole stripped. */
  function FullName(first: string, last: Option<string>): (r: string)
    ensures Trimmed(r)
    ensures |r| <= |first| + 1 + |last.GetOr("")|
    ensures
      var joined := first + " " + last.GetOr("");
      && StrippedAt(joined, StripStart(joined), StripStart(joined) + |r|)
      && r == joined[StripStart(joined)..StripStart(joined) + |r|]
  {
    Strip(first + " " + last.GetOr(""))
  }

  /** `start`: stash the sender's handle, then greet a registered sender and
      end, or ask an unknown sender for their contact. */
  function Start(sender: User, store: Store): (o: Outcome)
    ensures o.next.data == Stashed(sender.username)
    ensures o.next.store == store
    ensures sender.id in store ==> o.next.phase == Idle && o.reply == WelcomeBack(store[sender.id].fullName)
    ensures sender.id !in store ==> o.next.phase == AwaitingContact && o.reply == AskContact
  {
    var data := Stashed(sender.username);
    match Find(store, sender.id)
    case Some(profile) => Outcome(Config(Idle, data, store), WelcomeBack(profile.fullName))
    case None => Outcome(Config(AwaitingContact, data, store), AskContact)
  }

  /** `get_contact`: insert a row keyed by the contact's own user id, holding
      the contact's full name and the stashed handle; whatever the insert
      does, clear the scratch data and end. */
  function GetContact(contact: Contact, data: UserData, store: Store, writable: bool): (o: Outcome)
    ensures o.next.phase == Idle && o.next.data == Cleared
    ensures Extends(store, o.next.store)
    ensures o.reply.Registered? <==> writable && contact.userId !in store
    ensures o.reply.Registered? ==>
      && o.reply.name == FullName(contact.firstName, contact.lastName)
      && o.next.store == store[contact.userId := Profile(o.reply.name, data.Get())]
      && |o.next.store| == |store| + 1
    ensures !o.reply.Registered? ==> o.reply == RegisterFailed && o.next.store == store
  {
    var name := FullName(contact.firstName, contact.lastName);
    var profile := Profile(name, data.Get());
    match Create(store, contact.userId, profile, writable)
    case Success(store') => Outcome(Config(Idle, Cleared, store'), Registered(name))
    case Failure(_) => Outcome(Config(Idle, Cleared, store), RegisterFailed)
  }

  /** `cancel`: clear the scratch data and end, leaving the table alone. */
  function Cancel(store: Store): (o: Outcome)
    ensures o.next == Config(Idle, Cleared, store)
    ensures o.reply == Cancelled
  {
    Outcome(Config(Idle, Cleared, store), Cancelled)
  }

  /** `Filters.contact & ~Filters.command`. */
  predicate IsContactMessage(m: Message) {
    m.contact.Some? && m.command.None?
  }

  /** `registration_handler`: `/start` is the entry point and is looked at
      only while no conversation is active; in `GET_CONTACT` a contact
      message goes to `get_contact`, failing that `/cancel` goes to the
      fallback; anything else is not handled (`None`). `writable` is the
      database's answer should `get_contact` insert a row. */
  function Dispatch(c: Config, m: Message, writable: bool): (r: Option<Outcome>)
    ensures c.phase == Idle ==> (r.Some? <==> m.command == Some(StartCommand))
    ensures c.phase == Idle && m.command == Some(StartCommand) ==> r == Some(Start(m.sender, c.store))
    ensures c.phase == AwaitingContact && IsContactMessage(m) ==>
      r == Some(GetContact(m.contact.value, c.data, c.store, writable))
    ensures c.phase == AwaitingContact && !IsContactMessage(m) && m.command == Some(CancelCommand) ==>
      r == Some(Cancel(c.store))
    ensures c.phase == AwaitingContact ==> (r.Some? <==> IsContactMessage(m) || m.command == Some(CancelCommand))
    ensures r.Some? ==> Extends(c.store, r.value.next.store)
    ensures r.Some? && r.value.next.store != c.store ==>
      c.phase == AwaitingContact && IsContactMessage(m) && r.value.reply.Registered?
    ensures r.Some? && r.value.next.phase == AwaitingContact <==>
      c.phase == Idle && m.command == Some(StartCommand) && m.sender.id !in c.store
  {
    match c.phase
    case Idle =>
      if m.command == Some(StartCommand) then Some(Start(m.sender, c.store)) else None
    case AwaitingContact =>
      if IsContactMessage(m) then Some(GetContact(m.contact.value, c.data, c.store, writable))
      else if m.command == Some(CancelCommand) then Some(Cancel(c.store))
      else None
  }

  /** One incoming message together with whether the database would accept a
      write while it is handled. */
  datatype Event = Event(msg: Message, writable: bool)

  /** The configuration after one event: unchanged when no handler ran. */
  function After(c: Config, e: Event): Config {
    match Dispatch(c, e.msg, e.writable)
    case Some(o) => o.next
    case None => c
  }

  /** The replies sent for one event: one per handled event, none otherwise. */
  function RepliesFor(c: Config, e: Event): (r: seq<Reply>)
    ensures |r| == if Dispatch(c, e.msg, e.writable).Some? then 1 else 0
    ensures r != [] ==> r[0] == Dispatch(c, e.msg, e.writable).value.reply
  {
    match Dispatch(c, e.msg, e.writable)
    case Some(o) => [o.reply]
    case None => []
  }

  /** The final configuration and every reply sent, for a run of events. */
  datatype Trace = Trace(last: Config, replies: seq<Reply>)

  /** Runs the events of one conversation key, that is, the messages one
      user sends in one chat, in order. The sender field of later messages
      is read only by `Start`. */
  function Run(c: Config, events: seq<Event>): Trace
    decreases |events|
  {
    if events == [] then Trace(c, [])
    else
      var t := Run(After(c, events[0]), events[1..]);
      Trace(t.last, RepliesFor(c, events[0]) + t.replies)
  }

  /** How many events of a run some handler took. */
  function HandledCount(c: Config, events: seq<Event>): nat
    decreases |events|
  {
    if events == [] then 0
    else
      (if Dispatch(c, events[0].msg, events[0].writable).Some? then 1 else 0)
      + HandledCount(After(c, events[0]), events[1..])
  }
}

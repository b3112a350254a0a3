/** Properties of the registration conversation that relate several calls or
    whole runs of messages. */
module RegistrationProperties {
  import opened Wrappers
  import opened Text
  import opened UserStore
  import opened Registration

  /** A missing last name (or an empty one, which `or ""` treats the same)
      leaves no trailing space: the name is just the stripped first name. */
  lemma FullNameWithoutLastName(first: string)
    ensures FullName(first, None) == Strip(first)
    ensures FullName(first, Some("")) == Strip(first)
  {
    assert first + " " + "" == first + " ";
    StripIgnoresTrailingSpace(first, " ");
  }

  /** A blank first name leaves no leading space: the name is the stripped
      last name. */
  lemma FullNameWithBlankFirstName(first: string, last: Option<string>)
    requires AllSpace(first)
    ensures FullName(first, last) == Strip(last.GetOr(""))
  {
    var w := first + " ";
    assert AllSpace(w) by {
      forall k | 0 <= k < |w| ensures IsSpace(w[k]) {
        if k < |first| { assert w[k] == first[k]; }
      }
    }
    StripIgnoresLeadingSpace(w, last.GetOr(""));
  }

  /** Names without surrounding whitespace are joined by exactly one space. */
  lemma FullNameOfTrimmedNames(first: string, last: string)
    requires first != [] && last != []
    requires Trimmed(first) && Trimmed(last)
    ensures FullName(first, Some(last)) == first + " " + last
  {
    StripOfTrimmedJoin(first, last);
  }

  /** In `GET_CONTACT` the handle stashed by `start` is always there. */
  predicate Consistent(c: Config) {
    c.phase == AwaitingContact ==> c.data.Stashed?
  }

  /** Every handled or ignored event keeps the conversation consistent, and
      changes the table by at most the one row it inserts. */
  lemma StepPreservesConsistency(c: Config, e: Event)
    requires Consistent(c)
    ensures Consistent(After(c, e))
    ensures Extends(c.store, After(c, e).store)
    ensures |After(c, e).store| <= |c.store| + 1
  {
  }

  /** Over any run of events the conversation stays consistent, no stored
      profile is ever changed or removed, and each event adds at most one. */
  lemma {:induction false} RunPreservesProfiles(c: Config, events: seq<Event>)
    requires Consistent(c)
    ensures Consistent(Run(c, events).last)
    ensures Extends(c.store, Run(c, events).last.store)
    ensures |Run(c, events).last.store| <= |c.store| + |events|
    decreases |events|
  {
    if events != [] {
      var c' := After(c, events[0]);
      StepPreservesConsistency(c, events[0]);
      RunPreservesProfiles(c', events[1..]);
      ExtendsTransitive(c.store, c'.store, Run(c', events[1..]).last.store);
    }
  }

  /** Every handled event gets exactly one reply and an ignored one none, so
      a run sends as many replies as handlers ran, never more than the
      messages it received. */
  lemma {:induction false} RunRepliesOncePerHandledEvent(c: Config, events: seq<Event>)
    ensures |Run(c, events).replies| == HandledCount(c, events)
    ensures HandledCount(c, events) <= |events|
    decreases |events|
  {
    if events != [] {
      RunRepliesOncePerHandledEvent(After(c, events[0]), events[1..]);
    }
  }

  /** `/start` from an unknown user followed by a contact card from the same
      user and a successful insert registers exactly one new profile, keyed
      by the contact's id, holding the handle the user had at `/start` (the
      user may have changed it since). */
  lemma RegisterAfterStart(d: UserData, store: Store, u: User, w: bool, v: User, contact: Contact)
    requires u.id !in store && contact.userId !in store
    requires v.id == u.id
    ensures
      var events := [Event(Message(u, Some(StartCommand), None), w),
                     Event(Message(v, None, Some(contact)), true)];
      var name := FullName(contact.firstName, contact.lastName);
      && Run(Config(Idle, d, store), events)
         == Trace(Config(Idle, Cleared, store[contact.userId := Profile(name, u.username)]),
                  [AskContact, Registered(name)])
      && |Run(Config(Idle, d, store), events).last.store| == |store| + 1
  {
    var events := [Event(Message(u, Some(StartCommand), None), w),
                   Event(Message(v, None, Some(contact)), true)];
    var name := FullName(contact.firstName, contact.lastName);
    var c0 := Config(Idle, d, store);
    var c1 := Config(AwaitingContact, Stashed(u.username), store);
    var c2 := Config(Idle, Cleared, store[contact.userId := Profile(name, u.username)]);
    assert After(c0, events[0]) == c1 && RepliesFor(c0, events[0]) == [AskContact];
    assert After(c1, events[1]) == c2 && RepliesFor(c1, events[1]) == [Registered(name)];
    assert events[1..] == [events[1]];
    assert events[1..][1..] == [];
    assert Run(c2, []) == Trace(c2, []);
    assert Run(c1, events[1..]) == Trace(c2, [Registered(name)]);
  }

  /** `/start` from an unknown user followed by a contact card whose insert
      fails (the database refuses the write, or the contact's id is already
      registered) ends the dialog with the generic error, clears the scratch
      data and leaves the table as it was. */
  lemma FailedRegistrationAfterStart(d: UserData, store: Store, u: User, w: bool, v: User, contact: Contact, w': bool)
    requires u.id !in store
    requires v.id == u.id
    requires !w' || contact.userId in store
    ensures
      var events := [Event(Message(u, Some(StartCommand), None), w),
                     Event(Message(v, None, Some(contact)), w')];
      Run(Config(Idle, d, store), events) == Trace(Config(Idle, Cleared, store), [AskContact, RegisterFailed])
  {
    var events := [Event(Message(u, Some(StartCommand), None), w),
                   Event(Message(v, None, Some(contact)), w')];
    var c0 := Config(Idle, d, store);
    var c1 := Config(AwaitingContact, Stashed(u.username), store);
    var c2 := Config(Idle, Cleared, store);
    assert After(c0, events[0]) == c1 && RepliesFor(c0, events[0]) == [AskContact];
    assert After(c1, events[1]) == c2 && RepliesFor(c1, events[1]) == [RegisterFailed];
    assert events[1..] == [events[1]];
    assert events[1..][1..] == [];
    assert Run(c2, []) == Trace(c2, []);
    assert Run(c1, events[1..]) == Trace(c2, [RegisterFailed]);
  }

  /** Once registered, the user's next `/start` is answered "welcome back"
      with the name just stored, and creates nothing. */
  lemma StartAfterRegistrationWelcomesBack(d: UserData, store: Store, u: User, contact: Contact, u': User)
    requires contact.userId == u.id && u.id !in store
    requires u'.id == u.id
    ensures
      var name := FullName(contact.firstName, contact.lastName);
      var registered := Config(Idle, Cleared, store[u.id := Profile(name, u.username)]);
      Run(registered, [Event(Message(u', Some(StartCommand), None), true)])
        == Trace(Config(Idle, Stashed(u'.username), registered.store), [WelcomeBack(name)])
  {
    var name := FullName(contact.firstName, contact.lastName);
    var registered := Config(Idle, Cleared, store[u.id := Profile(name, u.username)]);
    var e := Event(Message(u', Some(StartCommand), None), true);
    assert After(registered, e) == Config(Idle, Stashed(u'.username), registered.store);
    assert [e][1..] == [];
  }

  /** `/cancel` while waiting for the contact ends the dialog, clears the
      scratch data and creates no profile. */
  lemma CancelWhileAwaiting(c: Config, m: Message, w: bool)
    requires c.phase == AwaitingContact
    requires m.command == Some(CancelCommand) && m.contact.None?
    ensures Run(c, [Event(m, w)]) == Trace(Config(Idle, Cleared, c.store), [Cancelled])
  {
    assert [Event(m, w)][1..] == [];
  }

  /** The sender sends `/start` (and nothing else). */
  predicate IsStartFrom(e: Event, u: User) {
    e.msg == Message(u, Some(StartCommand), None)
  }

  /** `/start` from a registered user, however often repeated, never creates
      or changes a profile and always answers "welcome back" by the stored
      name; the handle stays stashed in the scratch data. */
  lemma {:induction false} RepeatedStartIsIdempotent(d: UserData, store: Store, u: User, events: seq<Event>)
    requires u.id in store
    requires forall k :: 0 <= k < |events| ==> IsStartFrom(events[k], u)
    ensures Run(Config(Idle, d, store), events).last.store == store
    ensures Run(Config(Idle, d, store), events).last.phase == Idle
    ensures events != [] ==> Run(Config(Idle, d, store), events).last.data == Stashed(u.username)
    ensures forall k :: 0 <= k < |Run(Config(Idle, d, store), events).replies| ==>
      Run(Config(Idle, d, store), events).replies[k] == WelcomeBack(store[u.id].fullName)
    ensures |Run(Config(Idle, d, store), events).replies| == |events|
    decreases |events|
  {
    if events != [] {
      assert IsStartFrom(events[0], u);
      var c1 := After(Config(Idle, d, store), events[0]);
      assert c1 == Config(Idle, Stashed(u.username), store);
      forall k | 0 <= k < |events[1..]| ensures IsStartFrom(events[1..][k], u) {
        assert events[1..][k] == events[k + 1];
      }
      RepeatedStartIsIdempotent(Stashed(u.username), store, u, events[1..]);
    }
  }

  /** A profile is created at most once per id: once registered, another
      contact card for the same id, with whatever handle is stashed, is
      refused by the primary key and answered with the generic error. */
  lemma SecondRegistrationFails(data: UserData, store: Store, contact: Contact, w: bool,
                                data': UserData, contact': Contact, w': bool)
    requires GetContact(contact, data, store, w).reply.Registered?
    requires contact'.userId == contact.userId
    ensures
      var s := GetContact(contact, data, store, w).next.store;
      GetContact(contact', data', s, w') == Outcome(Config(Idle, Cleared, s), RegisterFailed)
  {
  }

  /** The worked example: user 555 with handle "alice" registers with the
      contact (555, "Alice", ""). */
  lemma AliceRegisters(store: Store)
    requires 555 !in store
    ensures
      var alice := User(555, Some("alice"));
      var events := [Event(Message(alice, Some(StartCommand), None), true),
                     Event(Message(alice, None, Some(Contact(555, "Alice", Some("")))), true)];
      Run(Config(Idle, Cleared, store), events)
        == Trace(Config(Idle, Cleared, store[555 := Profile("Alice", Some("alice"))]),
                 [AskContact, Registered("Alice")])
  {
    FullNameWithoutLastName("Alice");
    assert Trimmed("Alice");
    assert StrippedAt("Alice", 0, 5) by {
      assert "Alice"[..0] == [] && "Alice"[5..] == [] && "Alice"[0..5] == "Alice";
    }
    StripUnique("Alice", 0, 5);
    assert FullName("Alice", Some("")) == "Alice";
    RegisterAfterStart(Cleared, store, User(555, Some("alice")), true,
                       User(555, Some("alice")), Contact(555, "Alice", Some("")));
  }
}

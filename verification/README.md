# Registration conversation of homework_bot, modelled in Dafny

homework_bot is a Telegram bot for handing in homework.
handlers/student_handlers.py defines a registration conversation, `registration_handler`:

- `/start` looks the sender up in the `users` table. A registered sender is
  welcomed back and the conversation ends. Anyone else gets a "share contact"
  button, and the conversation waits in the state `GET_CONTACT`.
- In `GET_CONTACT`, a contact card is turned into a row of `users`. The row is
  keyed by the contact's Telegram id. It holds the contact's full name and the
  @-handle the sender had at `/start`. The conversation then ends, whether or
  not the insert succeeded.
- `/cancel` ends a waiting conversation.

The bot as shipped does not use this conversation:

- main.py never adds `registration_handler` to the dispatcher.
- main.py binds `/start` to its own greeting.
- main.py's document upload does not check whether the sender is registered.

As written, handlers/student_handlers.py cannot even be imported:

- It imports `SessionPersistence`, which `telegram.ext` does not provide.
- It imports `get_user` and `create_user`, which database/crud.py does not define.

The model describes what the module's code does once those imports resolve.

This project models that conversation as pure functions over immutable values
and proves properties of it. The modules are:

- `Wrappers` (wrappers.dfy): `Option` stands for Python's `None`, and
  `Result` stands for an operation that may raise.
- `Text` (text.dfy): Python's `str.strip()` over exactly the characters that
  `str.isspace()` accepts. `Strip` is characterised by `StrippedAt`, and
  `StripUnique` proves that this characterisation has only one answer.
- `UserStore` (user_store.dfy): the `users` table as a map from user id to
  `Profile(fullName, username)`. `get_user` and `create_user` are imported by
  the handlers but are not defined anywhere in the repository. So `Find` is a
  map lookup, and `Create` is an insert that can fail in two ways: the
  database refuses the write (the `writable` argument is false), or the id is
  already a primary key.
- `Registration` (registration.dfy): the handlers `Start`, `GetContact` and
  `Cancel`. `Dispatch` is the `ConversationHandler` routing table. `Run`
  processes a sequence of events. Replies are tags, not the Russian texts.
- `RegistrationProperties` (registration_properties.dfy): lemmas about the
  full name, about whole runs and about the worked registration example.

Behaviour of the code that the model keeps:

- `start` stores the sender's handle in `user_data` before the lookup. So a
  sender who is already registered leaves the conversation with the handle
  still stashed.
- `/cancel` is a fallback, so it is handled only while a contact is awaited.
  With no conversation active, `/cancel` is not handled.
- With the default `allow_reentry=False`, the entry point `/start` is not
  consulted while a contact is awaited. So `/start` sent then is ignored.
- A second insert for an id is rejected, because `User.id` is the primary
  key of `users`.

## Model

| member | source | states |
|---|---|---|
| Registration.Start | handlers/student_handlers.py:28-58 | The handle is always stashed and the table is never changed. A known sender ends the conversation with a welcome-back reply carrying the stored name. An unknown sender moves to GET_CONTACT with the contact request. |
| Registration.GetContact | handlers/student_handlers.py:60-90 | The conversation always ends and `user_data` is always cleared. The insert succeeds exactly when the database accepts the write and the contact's id is new. On success, exactly one row is added, keyed by the contact's id, holding the full name and the stashed handle, and the table grows by one. On failure the table is unchanged and the reply is the generic error. Existing rows never change. |
| Registration.Cancel | handlers/student_handlers.py:92-101 | Ends the conversation, clears `user_data`, leaves the table untouched and replies "cancelled". |
| Registration.Dispatch | handlers/student_handlers.py:104-110 | With no conversation active, `/start` runs `start` and nothing else is handled. In GET_CONTACT, a contact that is not a command runs `get_contact`; failing that, `/cancel` runs `cancel`; anything else is not handled. Only a successful contact step in GET_CONTACT changes the table, and then only by adding rows. GET_CONTACT is reached exactly by `/start` from a sender who is not in the table. |
| Registration.FullName | handlers/student_handlers.py:64-66 | The full name is exactly what `strip()` keeps of first name, one space and last name (a missing last name read as empty): the whitespace-free-at-both-ends middle slice of that string, with only whitespace outside it. |
| Text.Strip | handlers/student_handlers.py:66 | `strip()` keeps the contiguous middle of the string. Everything removed before and after it is whitespace, and the kept part neither starts nor ends with whitespace. |
| Text.StripUnique | handlers/student_handlers.py:66 | Any split into a whitespace prefix, a trimmed middle and a whitespace suffix yields exactly `strip()`'s result, so the characterisation determines the function. |
| Text.StripIdempotent | handlers/student_handlers.py:66 | Stripping a stripped name changes nothing. |
| Text.StripIgnoresTrailingSpace | handlers/student_handlers.py:65-66 | Whitespace appended to a string disappears under `strip()`. |
| Text.StripIgnoresLeadingSpace | handlers/student_handlers.py:66 | Whitespace prepended to a string disappears under `strip()`. |
| Text.StripOfTrimmedJoin | handlers/student_handlers.py:66 | Two non-empty trimmed names joined by one space pass through `strip()` unchanged. |
| UserStore.Find | database/crud.py:7-9 | The lookup finds a profile exactly for ids that are in the table, and it returns the stored row. |
| UserStore.Create | handlers/student_handlers.py:75 | The insert succeeds exactly when the database accepts the write and the id is not yet a key (the primary key of `users`). Failure with a writable database means a duplicate key. Success adds exactly that one key with the given profile, keeps every other row and grows the table by one. |
| UserStore.CreateThenFind | database/crud.py:7-9 | A row that was inserted is found again by its id with the same profile, and lookups of every other id answer as before. |
| RegistrationProperties.FullNameWithoutLastName | handlers/student_handlers.py:65-66 | A missing or empty last name yields exactly the stripped first name, with no trailing space. |
| RegistrationProperties.FullNameWithBlankFirstName | handlers/student_handlers.py:64-66 | A blank first name yields exactly the stripped last name, with no leading space. |
| RegistrationProperties.FullNameOfTrimmedNames | handlers/student_handlers.py:66 | Names without surrounding whitespace come out as `first + " " + last`. |
| RegistrationProperties.StepPreservesConsistency | handlers/student_handlers.py:28-110 | Every event keeps the invariant "in GET_CONTACT the handle is stashed". No event changes or removes an existing row, and each event adds at most one row. |
| RegistrationProperties.RunPreservesProfiles | handlers/student_handlers.py:28-110 | Over any run of events the invariant holds. Stored profiles are never changed or deleted, and the table grows by at most one row per event. |
| RegistrationProperties.RunRepliesOncePerHandledEvent | handlers/student_handlers.py:104-110 | A run sends exactly one reply for each message some handler took and none for the others, so never more replies than messages. |
| RegistrationProperties.RegisterAfterStart | handlers/student_handlers.py:28-90 | `/start` from an unknown user, then that user's contact card with a successful insert, gives the replies AskContact then Registered. The table gains exactly one row: keyed by the contact's id, with the full name and the handle from `/start`. The conversation ends with `user_data` cleared. |
| RegistrationProperties.FailedRegistrationAfterStart | handlers/student_handlers.py:28-90 | `/start` from an unknown user, then that user's contact card whose insert fails (write refused, or id already registered), gives AskContact then the generic error, ends the conversation cleared and leaves the table unchanged. |
| RegistrationProperties.StartAfterRegistrationWelcomesBack | handlers/student_handlers.py:38-46 | After a registration, the same user's next `/start` is answered "welcome back" with the name just stored, creates nothing and ends the conversation. |
| RegistrationProperties.CancelWhileAwaiting | handlers/student_handlers.py:92-110 | `/cancel` in GET_CONTACT ends the conversation, clears `user_data`, replies "cancelled" and creates no profile. |
| RegistrationProperties.RepeatedStartIsIdempotent | handlers/student_handlers.py:28-46 | Any number of `/start` messages from a registered user leave the table unchanged and the conversation idle. Each one is answered with a welcome-back reply carrying the stored name, and the handle stays stashed. |
| RegistrationProperties.SecondRegistrationFails | database/models.py:16 | Once an id is registered, another contact card for the same id, whatever handle is stashed, is refused and answered with the generic error. The table stays as it was and the conversation ends cleared. |
| RegistrationProperties.AliceRegisters | handlers/student_handlers.py:28-90 | Worked example: user 555 with handle "alice" sends `/start`, then the contact (555, "Alice", ""). The result is the row (555, "Alice", "alice") and the reply Registered("Alice"). |

## Left out

- main.py: downloading documents from Telegram, Google Drive OAuth, uploading and the temporary directory are all I/O against libraries that are not part of this model.
- Submissions: the repository has no submission table, no submission record and no listing command, so none is modelled.
- database/models.py and database/db_init.py: only the primary key of `User.id` is used. The engine, the sessions, table creation and the `Subject` table are not modelled.
- `registered_at`: it is set from the clock when a row is created, so `Profile` does not hold it.
- User ids are unbounded integers. The 64-bit range of the `BigInteger` column is not modelled, because Telegram ids stay far inside it.
- A contact card without a Telegram user id: `Contact.userId` is always present in the model. What `create_user` would do with `None` is undefined, because the function does not exist.
- A failing lookup in `start`: `get_user` is treated as total. If it raised, the exception would escape the handler after the handle had been stashed.
- Sending replies is assumed to succeed. If `reply_text` raised after a successful insert in `get_contact`, the except branch would send the error reply as well. The model does not include that case.
- One conversation key: `ConversationHandler` keys conversations by chat and user, and `user_data` belongs to one user. A run is the messages of one such key. The model does not check that every message in a run has the same sender: that is left to the caller. The worked-scenario lemmas require it; the invariants over runs hold for any senders. Concurrent updates from several users, sharing the `users` table, are not modelled.
- Parsing the message text into a command: `Message.command` is already the command as `CommandHandler` compares it. It is lower-cased, and it is absent when the command is addressed to another bot (`/start@otherbot`). Case folding and the bot-name suffix are therefore not modelled.
- Edited messages and updates without a message, for which `update.message` would be `None`, are not modelled.
- Logging, keyboard markup, the reply wording and the Telegram polling loop are not modelled.

/** The user table behind `get_user` and `create_user`: a map from Telegram
    user id (the table's primary key) to the stored profile. */
module UserStore {
  import opened Wrappers

  /** A Telegram user id, the primary key of the `users` table. */
  type UserId = int

  /** One row of `users`: the display name and the optional @-handle. */
  datatype Profile = Profile(fullName: string, username: Option<string>)

  type Store = map<UserId, Profile>

  /** Why an insert raised. */
  datatype StoreError =
    | DuplicateKey    // a row with this primary key already exists
    | WriteFailed     // the database refused or lost the write

  /** `get_user(db, user_id)`: the row for `id`, if any. */
  function Find(store: Store, id: UserId): (r: Option<Profile>)
    ensures r.Some? <==> id in store
    ensures r.Some? ==> r.value == store[id]
  {
    if id in store then Some(store[id]) else None
  }

  /** `create_user(db, user_id, full_name, username)`: insert one row.
      `writable` says whether the database accepts the write at all; a row
      whose key is already present is refused as a primary-key violation. */
  function Create(store: Store, id: UserId, p: Profile, writable: bool): (r: Result<Store, StoreError>)
    ensures r.Success? <==> writable && id !in store
    ensures r.Failure? ==> (r.error == DuplicateKey <==> writable)
    ensures r.Success? ==> r.value.Keys == store.Keys + {id}
    ensures r.Success? ==> r.value[id] == p
    ensures r.Success? ==> forall k :: k in store ==> k in r.value && r.value[k] == store[k]
    ensures r.Success? ==> |r.value| == |store| + 1
  {
    if !writable then Failure(WriteFailed)
    else if id in store then Failure(DuplicateKey)
    else Success(store[id := p])
  }

  /** `b` keeps every row of `a` unchanged (and may hold more). */
  predicate Extends(a: Store, b: Store) {
    forall k :: k in a ==> k in b && b[k] == a[k]
  }

  /** Keeping rows unchanged is transitive. */
  lemma ExtendsTransitive(a: Store, b: Store, c: Store)
    requires Extends(a, b) && Extends(b, c)
    ensures Extends(a, c)
  {
  }

  /** A row that was inserted is found again by its id, and every other
      lookup answers as before. */
  lemma CreateThenFind(store: Store, id: UserId, p: Profile, writable: bool, other: UserId)
    requires Create(store, id, p, writable).Success?
    ensures Find(Create(store, id, p, writable).value, id) == Some(p)
    ensures other != id ==> Find(Create(store, id, p, writable).value, other) == Find(store, other)
  {
  }
}

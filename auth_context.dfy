/**
 * The session (contexts/auth-context.tsx): the signed-in user, a loading
 * flag, and the browser storage slot `"stackit-user"` holding the user as
 * JSON. Mounting restores the stored user; sign-up and sign-in store the
 * user they return; sign-out forgets it. Browser storage is a map from
 * keys to strings; JSON is a pair of functions that round-trips users.
 */
module AuthContext {
  import opened Common
  import opened Auth

  const Key: string := "stackit-user"

  /** `JSON.parse` either yields a value (`null` or a user) or throws. */
  datatype ParseOutcome = Parsed(value: Option<UserRow>) | Invalid

  /** `JSON.stringify` and `JSON.parse` on users. */
  datatype Json = Json(stringify: UserRow -> string, parse: string -> ParseOutcome)

  /**
   * What the JSON functions promise: a stored user parses back to itself,
   * and its text is never empty (an object is at least `{}`).
   */
  ghost predicate RoundTrips(json: Json) {
    forall u: UserRow :: json.parse(json.stringify(u)) == Parsed(Some(u)) && json.stringify(u) != []
  }

  /**
   * The provider's state. Its invariant: a signed-in user is the one the
   * storage slot holds, so a reload restores the same session.
   */
  class AuthProvider {
    const json: Json
    var user: Option<UserRow>
    var loading: bool
    var storage: map<string, string>

    ghost predicate Valid()
      reads this
    {
      RoundTrips(json)
      && (user.Some? ==> Key in storage && storage[Key] != [] && json.parse(storage[Key]) == Parsed(user))
    }

    /** Initially nobody is signed in and the session is loading. */
    constructor (json: Json, storage: map<string, string>)
      requires RoundTrips(json)
      ensures Valid() && this.json == json && this.storage == storage
      ensures user == None && loading
    {
      this.json := json;
      this.storage := storage;
      user := None;
      loading := true;
    }

    /**
     * The mount effect: a non-empty stored value that parses becomes the
     * user (a stored `null` clears it); one that does not parse is removed
     * and the user left as it was; loading ends in every case.
     */
    method Mount()
      requires Valid()
      modifies this
      ensures Valid() && !loading
      ensures old(user).Some? ==> user == old(user) && storage == old(storage)
      ensures Key !in old(storage) || old(storage)[Key] == [] ==>
        user == old(user) && storage == old(storage)
      ensures Key in old(storage) && old(storage)[Key] != [] && json.parse(old(storage)[Key]).Parsed? ==>
        user == json.parse(old(storage)[Key]).value && storage == old(storage)
      ensures Key in old(storage) && old(storage)[Key] != [] && json.parse(old(storage)[Key]).Invalid? ==>
        user == old(user) && storage == old(storage) - {Key}
    {
      if Key in storage && storage[Key] != [] {
        var stored := storage[Key];
        match json.parse(stored)
        case Parsed(u) =>
          user := u;
        case Invalid =>
          storage := storage - {Key};
      }
      loading := false;
    }

    /**
     * `signUp` from the context: on success the new user is signed in and
     * stored; on failure the error is returned and the session untouched.
     */
    method HandleSignUp(table: UserTable, hash: Hasher, username: string, password: string,
                        now: int, insertFails: bool) returns (error: Option<AuthError>)
      requires Valid() && table.Valid()
      modifies this, table
      ensures Valid() && table.Valid() && loading == old(loading)
      ensures error.Some? ==> user == old(user) && storage == old(storage) && table.rows == old(table.rows)
      ensures error == Some(UsernameExists) <==> exists row :: row in old(table.rows) && row.username == username
      ensures error.None? <==> (forall row :: row in old(table.rows) ==> row.username != username) && !insertFails
      ensures (forall row :: row in old(table.rows) ==> row.username != username) && insertFails ==>
        error == Some(StoreError)
      ensures error.None? ==>
        table.rows == old(table.rows) + [UserRow(old(table.nextId), username, HashPassword(hash, password), now)]
        && user == Some(table.rows[|table.rows| - 1])
        && storage == old(storage)[Key := json.stringify(user.value)]
    {
      var r := table.SignUp(hash, username, password, now, insertFails);
      if r.Err? {
        return Some(r.error);
      }
      user := Some(r.user);
      storage := storage[Key := json.stringify(r.user)];
      error := None;
    }

    /**
     * `signIn` from the context: on success the user is signed in and
     * stored; on failure the one error is returned and the session
     * untouched.
     */
    method HandleSignIn(table: UserTable, hash: Hasher, username: string, password: string,
                        queryFails: bool) returns (error: Option<AuthError>)
      requires Valid()
      modifies this
      ensures Valid() && loading == old(loading)
      ensures var r := SignIn(table.rows, hash, username, password, queryFails);
        (error.Some? <==> r.Err?)
        && (r.Err? ==> error == Some(InvalidCredentials) && user == old(user) && storage == old(storage))
        && (r.Ok? ==> user == Some(r.user) && storage == old(storage)[Key := json.stringify(r.user)])
    {
      var r := SignIn(table.rows, hash, username, password, queryFails);
      if r.Err? {
        return Some(r.error);
      }
      user := Some(r.user);
      storage := storage[Key := json.stringify(r.user)];
      error := None;
    }

    /** `signOut`: nobody is signed in and the slot is gone, however often it is called. */
    method HandleSignOut()
      requires Valid()
      modifies this
      ensures Valid() && loading == old(loading)
      ensures user == None && storage == old(storage) - {Key} && Key !in storage
    {
      user := None;
      storage := storage - {Key};
    }
  }

  /**
   * The session restored on a reload is the one left before it: a
   * signed-in provider's slot is non-empty and parses back to its user, so
   * `Mount` on that storage (its second case) sets exactly that user.
   */
  lemma RestoreAfterReload(p: AuthProvider)
    requires p.Valid() && p.user.Some?
    ensures Key in p.storage && p.storage[Key] != [] && p.json.parse(p.storage[Key]) == Parsed(p.user)
  {
  }

  /**
   * A reload: a fresh provider over the same JSON functions and the storage
   * the signed-in provider left, once mounted, has the same user and has
   * finished loading.
   */
  method Reload(p: AuthProvider) returns (q: AuthProvider)
    requires p.Valid() && p.user.Some?
    ensures q.Valid() && q.user == p.user && !q.loading && q.storage == p.storage
  {
    q := new AuthProvider(p.json, p.storage);
    q.Mount();
  }
}

/** The admin session (src/contexts/AuthContext.tsx): the signed-in user, the
    two keys it keeps in browser storage, and the admin-only gate. Browser
    storage is a map from key to string; `JSON.parse` and `JSON.stringify` are
    parameters. */
module AuthContext {
  import opened Types

  const TokenKey := "auth_token"
  const UserKey := "user"

  /** What `JSON.parse` makes of a stored string: it throws, or yields a user
      (`null` parses to no user). */
  datatype Parsed = Malformed | Value(user: Option<User>)

  /** What `loginUser` resolves to; a missing field is the empty string or
      `None`. */
  datatype LoginReply = LoginThrew | LoginAnswered(accessToken: string, user: Option<User>)

  /** The user and the storage, as one value. */
  datatype Session = Session(user: Option<User>, store: map<string, string>)

  /** `localStorage.getItem(key)` is truthy: present and not empty. */
  predicate Stored(store: map<string, string>, key: string) {
    key in store && store[key] != ""
  }

  /** `isAuthenticated`: a user is signed in and is an administrator. */
  predicate IsAuthenticated(user: Option<User>) {
    user.Some? && user.value.role == Admin
  }

  /** The effect that runs once at start-up: with both keys stored, the stored
      user is parsed and signed in, and a user that does not parse makes both
      keys go away. */
  function Restore(s: Session, parse: string -> Parsed): (r: Session)
    ensures !(Stored(s.store, UserKey) && Stored(s.store, TokenKey)) ==> r == s
    ensures Stored(s.store, UserKey) && Stored(s.store, TokenKey) ==>
              match parse(s.store[UserKey])
              case Value(u) => r == Session(u, s.store)
              case Malformed => r.user == s.user && r.store == s.store - {UserKey, TokenKey}
  {
    if Stored(s.store, UserKey) && Stored(s.store, TokenKey) then
      match parse(s.store[UserKey])
      case Value(u) => Session(u, s.store)
      case Malformed => Session(s.user, s.store - {UserKey} - {TokenKey})
    else s
  }

  /** A reply that signs in: both the token and the user are present. */
  predicate LoginAccepted(reply: LoginReply) {
    reply.LoginAnswered? && reply.accessToken != "" && reply.user.Some?
  }

  /** `login`'s effect on the session: an accepted reply stores exactly its
      token and its serialised user and signs that user in; anything else
      writes nothing. */
  function Login(s: Session, reply: LoginReply, stringify: User -> string): (r: Session)
    ensures LoginAccepted(reply) ==>
              && r.user == reply.user
              && r.store.Keys == s.store.Keys + {TokenKey, UserKey}
              && r.store[TokenKey] == reply.accessToken
              && r.store[UserKey] == stringify(reply.user.value)
              && forall k :: k in s.store && k != TokenKey && k != UserKey ==> r.store[k] == s.store[k]
    ensures !LoginAccepted(reply) ==> r == s
  {
    if LoginAccepted(reply) then
      Session(reply.user, s.store[TokenKey := reply.accessToken][UserKey := stringify(reply.user.value)])
    else s
  }

  /** `logout`'s effect: a successful call removes both keys and signs out;
      a failed call leaves the session as it was. */
  function Logout(s: Session, succeeded: bool): (r: Session)
    ensures succeeded ==> r.user.None? && r.store.Keys == s.store.Keys - {TokenKey, UserKey}
    ensures succeeded ==> forall k :: k in r.store ==> r.store[k] == s.store[k]
    ensures !succeeded ==> r == s
  {
    if succeeded then Session(None, s.store - {TokenKey} - {UserKey}) else s
  }

  /** Round trip: after signing in, a reload restores the same user, provided
      parsing reads back what serialising wrote (and, as `JSON.parse` does,
      rejects the empty string). */
  lemma LoginThenRestore(s: Session, reply: LoginReply, stringify: User -> string,
                         parse: string -> Parsed, priorUser: Option<User>)
    requires LoginAccepted(reply)
    requires parse(stringify(reply.user.value)) == Value(reply.user)
    requires parse("") == Malformed
    ensures Restore(Session(priorUser, Login(s, reply, stringify).store), parse).user == reply.user
  {
    var st := Login(s, reply, stringify).store;
    assert st[UserKey] != "" by {
      assert parse(st[UserKey]) != parse("");
    }
    assert Stored(st, UserKey) && Stored(st, TokenKey);
  }

  /** After a successful sign-out, a reload restores nobody, whatever `parse` does. */
  lemma LogoutThenRestore(s: Session, parse: string -> Parsed, priorUser: Option<User>)
    ensures Restore(Session(priorUser, Logout(s, true).store), parse).user == priorUser
    ensures !Stored(Restore(Session(priorUser, Logout(s, true).store), parse).store, UserKey)
  {
  }

  /** The admin gate: a session is authenticated only through an administrator,
      and signing in with an administrator opens it. */
  lemma LoginOpensGateOnlyForAdmin(s: Session, reply: LoginReply, stringify: User -> string)
    requires LoginAccepted(reply)
    ensures IsAuthenticated(Login(s, reply, stringify).user) <==> reply.user.value.role == Admin
  {
  }

  class AuthProvider {
    var user: Option<User>
    var isLoading: bool
    var store: map<string, string>

    /** Mounting the provider: nobody signed in, still loading, storage as the
        browser has it. */
    constructor (store: map<string, string>)
      ensures user.None? && isLoading && this.store == store
    {
      user := None;
      isLoading := true;
      this.store := store;
    }

    /** The start-up effect; loading is over afterwards. */
    method RestoreSession(parse: string -> Parsed)
      modifies this
      ensures Session(user, store) == Restore(old(Session(user, store)), parse)
      ensures !isLoading
    {
      var storedUser := if UserKey in store then store[UserKey] else "";
      var token := if TokenKey in store then store[TokenKey] else "";
      if storedUser != "" && token != "" {
        match parse(storedUser)
        case Value(u) =>
          user := u;
        case Malformed =>
          store := store - {UserKey};
          store := store - {TokenKey};
      }
      isLoading := false;
    }

    /** `login`: true exactly when the reply carries both a token and a user. */
    method SignIn(reply: LoginReply, stringify: User -> string) returns (ok: bool)
      modifies this
      ensures ok <==> LoginAccepted(reply)
      ensures Session(user, store) == Login(old(Session(user, store)), reply, stringify)
      ensures !isLoading
    {
      isLoading := true;
      if reply.LoginAnswered? && reply.accessToken != "" && reply.user.Some? {
        store := store[TokenKey := reply.accessToken];
        store := store[UserKey := stringify(reply.user.value)];
        user := reply.user;
        ok := true;
      } else {
        ok := false;
      }
      isLoading := false;
    }

    /** `logout`, given whether `logoutUser` resolved. */
    method SignOut(succeeded: bool)
      modifies this
      ensures Session(user, store) == Logout(old(Session(user, store)), succeeded)
      ensures !isLoading
    {
      isLoading := true;
      if succeeded {
        store := store - {TokenKey};
        store := store - {UserKey};
        user := None;
      }
      isLoading := false;
    }
  }
}

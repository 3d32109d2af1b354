/**
 The user table as the service holds it: a map that `register` updates in
 place and `login` only reads. Loading from and saving to the JSON file are
 the two assignments between the field and a local copy.
 */
module UserStore {
  import opened Text
  import opened PasswordPolicy
  import opened Handlers

  class Users {
    var users: map<string, Digest>
    const hash: string -> Digest
    /** For each stored username, the normalised password whose digest is stored. */
    ghost var passwords: map<string, string>

    /** Every entry was put there by a successful register. */
    ghost predicate Valid()
      reads this
    {
      Consistent(users, passwords, hash)
    }

    /** The table when the file does not exist yet: empty. */
    constructor (hash: string -> Digest)
      ensures Valid()
      ensures users == map[] && this.hash == hash
    {
      users := map[];
      this.hash := hash;
      passwords := map[];
    }

    /** `register`: load, decide, and save only when a user was created. */
    method Register(req: Request) returns (o: Outcome)
      modifies this
      ensures Step(o, users) == Handlers.Register(old(users), hash, UsernameOf(req), PasswordOf(req))
      ensures passwords == if o.Created? then old(passwords)[o.username := PasswordOf(req)] else old(passwords)
      ensures old(Valid()) ==> Valid()
    {
      var username := UsernameOf(req);
      var password := PasswordOf(req);
      ghost var step := Handlers.Register(users, hash, username, password);
      if Valid() {
        RegisterKeepsConsistent(users, passwords, hash, username, password);
      }
      var loaded := users;  // load_users()
      if username == [] || password == [] {
        assert step == Step(Missing, users);
        return Missing;
      }
      if username in loaded {
        assert step == Step(Duplicate, users);
        return Duplicate;
      }
      var verdict := ValidatePassword(password);
      if !verdict.valid {
        assert step == Step(Weak(verdict.message), users);
        return Weak(verdict.message);
      }
      assert step == Step(Created(username), loaded[username := hash(password)]);
      loaded := loaded[username := hash(password)];
      users := loaded;  // save_users(users)
      passwords := passwords[username := password];
      o := Created(username);
    }

    /** Under the invariant, every stored user logs in with the normalised
        password it registered, whatever registers built the table. */
    lemma StoredUsersLogIn(u: string)
      requires Valid() && u in users
      ensures Handlers.Login(users, hash, u, passwords[u]) == LoggedIn(u)
    {
      ConsistentLogsIn(users, passwords, hash, u);
    }

    /** `login`: a lookup and a digest comparison; the table is untouched. */
    method Login(req: Request) returns (o: Outcome)
      ensures o == Handlers.Login(users, hash, UsernameOf(req), PasswordOf(req))
    {
      var username := UsernameOf(req);
      var password := PasswordOf(req);
      var loaded := users;
      if username == [] || password == [] {
        return Missing;
      }
      if username !in loaded {
        return UnknownUser;
      }
      if loaded[username] == hash(password) {
        o := LoggedIn(username);
      } else {
        o := WrongPassword;
      }
    }
  }

  /** Two registers of the same request on a new table: the first creates
      the user exactly when the fields are filled and the password is
      strong, and then the second is a duplicate. */
  method RegisterTwice(hash: string -> Digest, req: Request) returns (first: Outcome, second: Outcome)
    ensures first.Created? <==> UsernameOf(req) != [] && PasswordOf(req) != [] && Strong(PasswordOf(req))
    ensures first.Created? ==> second == Duplicate
    ensures !first.Created? ==> second == first
  {
    var store := new Users(hash);
    first := store.Register(req);
    second := store.Register(req);
  }

  /** Register then login on a new table: a created user can log in with
      the same request, and a login before any register finds nobody. */
  method RegisterThenLogin(hash: string -> Digest, req: Request) returns (before: Outcome, registered: Outcome, after: Outcome)
    ensures before == Missing || before == UnknownUser
    ensures registered.Created? ==> after == LoggedIn(registered.username)
    ensures !registered.Created? ==> after == before
  {
    var store := new Users(hash);
    before := store.Login(req);
    registered := store.Register(req);
    after := store.Login(req);
  }
}

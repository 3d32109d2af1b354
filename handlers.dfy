/**
 The decision logic of the `/register` and `/login` handlers, over the user
 table held in memory: a map from username to the digest of its password.
 Hashing is a parameter `hash`; nothing is assumed about it.
 */
module Handlers {
  import opened Text
  import opened PasswordPolicy

  datatype Option<T> = None | Some(value: T)

  /** The hex digest `hash_password` stores for a password. */
  type Digest = string

  /** The two fields of the JSON body; an absent key is `None`. */
  datatype Request = Request(username: Option<string>, password: Option<string>)

  /** `data.get(key, '')`. */
  function FieldOrEmpty(f: Option<string>): string
  {
    match f
    case None => []
    case Some(v) => v
  }

  /** The username the handlers work with: the field, stripped. */
  function UsernameOf(req: Request): (u: string)
    ensures Trimmed(u)
    ensures req.username.None? ==> u == []
    ensures u == [] <==> AllSpace(FieldOrEmpty(req.username))
  {
    Strip(FieldOrEmpty(req.username))
  }

  /** The password the handlers work with: the field, stripped, with every
      blank removed. */
  function PasswordOf(req: Request): (p: string)
    ensures ' ' !in p
    ensures |p| <= |FieldOrEmpty(req.password)|
    ensures req.password.None? ==> p == []
    ensures p == [] <==> AllSpace(FieldOrEmpty(req.password))
  {
    var t := Strip(FieldOrEmpty(req.password));
    assert t != [] ==> t[0] in RemoveSpaces(t) by {
      if t != [] { RemoveSpacesKeeps(t, 0); }
    }
    RemoveSpaces(t)
  }

  /** What a handler decides, before it is turned into an HTTP reply. */
  datatype Outcome =
    | Missing                      // username or password empty after normalisation
    | Duplicate                    // register: username already taken
    | Weak(reason: string)         // register: the policy's rejection message
    | Created(username: string)    // register: user stored
    | UnknownUser                  // login: no such username
    | WrongPassword                // login: digest mismatch
    | LoggedIn(username: string)   // login: digest match

  /** The reply the handler sends: HTTP status, `success` and `message`. */
  datatype Reply = Reply(status: int, success: bool, message: string)

  function Respond(o: Outcome): (r: Reply)
    ensures r.success <==> r.status == 200 || r.status == 201
    ensures r.status == 400 <==> o.Missing? || o.Duplicate? || o.Weak?
    ensures r.status == 401 <==> o.UnknownUser? || o.WrongPassword?
    ensures r.status == 201 <==> o.Created?
    ensures r.status == 200 <==> o.LoggedIn?
    ensures o.Weak? ==> r.message == o.reason
  {
    match o
    case Missing => Reply(400, false, "Username e password sono obbligatori")
    case Duplicate => Reply(400, false, "Questo username è già registrato")
    case Weak(reason) => Reply(400, false, reason)
    case Created(u) => Reply(201, true, "Utente " + u + " registrato con successo")
    case UnknownUser => Reply(401, false, "Username non trovato")
    case WrongPassword => Reply(401, false, "Password sbagliata")
    case LoggedIn(u) => Reply(200, true, "Benvenuto " + u)
  }

  /** One register request: its outcome and the user table afterwards. */
  datatype Step = Step(outcome: Outcome, users: map<string, Digest>)

  /** `register` once the fields are normalised (`UsernameOf`, `PasswordOf`):
      empty fields, then a taken username, then the password policy; only
      when all pass is `username -> hash(password)` stored. */
  function Register(users: map<string, Digest>, hash: string -> Digest, username: string, password: string): (s: Step)
    ensures s.outcome == Missing <==> username == [] || password == []
    ensures s.outcome == Duplicate <==> username != [] && password != [] && username in users
    ensures s.outcome.Weak? <==> username != [] && password != [] && username !in users && !Strong(password)
    ensures s.outcome.Weak? ==> s.outcome.reason in FailureMessages && s.outcome.reason == ValidatePassword(password).message
    ensures s.outcome.Created? <==> username != [] && password != [] && username !in users && Strong(password)
    ensures s.outcome.Created? ==> s.outcome.username == username && s.users == users[username := hash(password)]
    ensures !s.outcome.Created? ==> s.users == users
    ensures !s.outcome.UnknownUser? && !s.outcome.WrongPassword? && !s.outcome.LoggedIn?
  {
    if username == [] || password == [] then Step(Missing, users)
    else if username in users then Step(Duplicate, users)
    else
      var v := ValidatePassword(password);
      if !v.valid then Step(Weak(v.message), users)
      else Step(Created(username), users[username := hash(password)])
  }

  /** `login` once the fields are normalised: empty fields, then an unknown
      username, then the digest comparison. It reads the table only. */
  function Login(users: map<string, Digest>, hash: string -> Digest, username: string, password: string): (o: Outcome)
    ensures o == Missing <==> username == [] || password == []
    ensures o == UnknownUser <==> username != [] && password != [] && username !in users
    ensures o.LoggedIn? <==> username != [] && password != [] && username in users && users[username] == hash(password)
    ensures o == WrongPassword <==> username != [] && password != [] && username in users && users[username] != hash(password)
    ensures o.LoggedIn? ==> o.username == username
    ensures o.Missing? || o.UnknownUser? || o.WrongPassword? || o.LoggedIn?
  {
    if username == [] || password == [] then Missing
    else if username !in users then UnknownUser
    else if users[username] == hash(password) then LoggedIn(username)
    else WrongPassword
  }

  /** A register that does not create answers 400 and leaves the table as it was. */
  lemma RegisterFailureKeepsTable(users: map<string, Digest>, hash: string -> Digest, u: string, p: string)
    requires !Register(users, hash, u, p).outcome.Created?
    ensures Register(users, hash, u, p).users == users
    ensures Respond(Register(users, hash, u, p).outcome).status == 400
  {
  }

  /** Once a register of (u, p) succeeds, a login with (u, p) is accepted. */
  lemma RegisterThenLogin(users: map<string, Digest>, hash: string -> Digest, u: string, p: string)
    ensures Register(users, hash, u, p).outcome.Created? ==>
      && Login(Register(users, hash, u, p).users, hash, u, p) == LoggedIn(u)
      && Respond(Login(Register(users, hash, u, p).users, hash, u, p)).status == 200
  {
  }

  /** After a successful register of (u, p), a login for u with a password
      of a different digest is refused as a wrong password. */
  lemma RegisterThenWrongPassword(users: map<string, Digest>, hash: string -> Digest, u: string, p: string, q: string)
    ensures Register(users, hash, u, p).outcome.Created? && q != [] && hash(q) != hash(p) ==>
      Login(Register(users, hash, u, p).users, hash, u, q) == WrongPassword
  {
  }

  /** Login looks at one entry of the table only: the one of its username. */
  lemma LoginReadsOneEntry(m: map<string, Digest>, m': map<string, Digest>, hash: string -> Digest, u: string, p: string)
    requires u in m <==> u in m'
    requires u in m ==> m[u] == m'[u]
    ensures Login(m, hash, u, p) == Login(m', hash, u, p)
  {
  }

  /** A register changes nothing for any other username: every login that
      names a different user gets the same outcome before and after. */
  lemma RegisterKeepsOtherLogins(users: map<string, Digest>, hash: string -> Digest, u: string, p: string, v: string, q: string)
    requires v != u
    ensures Login(Register(users, hash, u, p).users, hash, v, q) == Login(users, hash, v, q)
  {
  }

  /** Registering the same username twice: the second attempt is a
      duplicate whatever its password, and the table does not change. */
  lemma RegisterTwice(users: map<string, Digest>, hash: string -> Digest, u: string, p: string, q: string)
    ensures var after := Register(users, hash, u, p).users;
      Register(users, hash, u, p).outcome.Created? && q != [] ==> Register(after, hash, u, q) == Step(Duplicate, after)
  {
  }

  /** The table as registration builds it, with `passwords` naming, for
      each username, the normalised password whose digest is stored: every
      key is a non-empty trimmed username and every digest is the hash of a
      password without blanks that meets the policy. */
  ghost predicate Consistent(users: map<string, Digest>, passwords: map<string, string>, hash: string -> Digest)
  {
    && users.Keys == passwords.Keys
    && forall u :: u in users ==>
         && u != [] && Trimmed(u)
         && users[u] == hash(passwords[u])
         && ' ' !in passwords[u] && Strong(passwords[u])
  }

  /** Adding a non-empty trimmed username with the digest of a blank-free
      strong password keeps the table consistent. */
  lemma InsertKeepsConsistent(users: map<string, Digest>, passwords: map<string, string>, hash: string -> Digest, u: string, p: string)
    requires Consistent(users, passwords, hash)
    requires u != [] && Trimmed(u) && ' ' !in p && Strong(p)
    ensures Consistent(users[u := hash(p)], passwords[u := p], hash)
  {
    var us, ps := users[u := hash(p)], passwords[u := p];
    forall v | v in us
      ensures v != [] && Trimmed(v) && us[v] == hash(ps[v]) && ' ' !in ps[v] && Strong(ps[v])
    {
      if v != u { assert v in users; }
    }
  }

  /** Register, given a username and password as `UsernameOf` and
      `PasswordOf` produce them, keeps the table consistent. */
  lemma RegisterKeepsConsistent(users: map<string, Digest>, passwords: map<string, string>, hash: string -> Digest, u: string, p: string)
    requires Consistent(users, passwords, hash)
    requires Trimmed(u) && ' ' !in p
    ensures var s := Register(users, hash, u, p);
      Consistent(s.users, if s.outcome.Created? then passwords[u := p] else passwords, hash)
  {
    if Register(users, hash, u, p).outcome.Created? {
      InsertKeepsConsistent(users, passwords, hash, u, p);
    }
  }

  /** In a consistent table every stored user logs in with the password
      that was registered for it: the invariant guarantees login succeeds
      for every entry, whatever sequence of registers built the table. */
  lemma ConsistentLogsIn(users: map<string, Digest>, passwords: map<string, string>, hash: string -> Digest, u: string)
    requires Consistent(users, passwords, hash)
    requires u in users
    ensures Login(users, hash, u, passwords[u]) == LoggedIn(u)
  {
  }
}

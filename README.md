# Login system: registration and login decisions

This project models the account logic of a small HTTP service (`backend.py`).
Users register with a username and password and then log in. The service keeps
a table from username to the SHA-256 hex digest of the password. On every
request it loads the table, decides, and writes the table back only when a user
was created.

The model has four modules:

- `Text` (`text.dfy`): the input normalisation. Python's `str.strip()` is
  `Strip`, and `str.replace(" ", "")` is `RemoveSpaces`.
- `PasswordPolicy` (`password_policy.dfy`): `validate_password`. It checks five
  criteria in a fixed order: length at least 8, an uppercase letter, a lowercase
  letter, a digit, and a character from `!@#$%^&*()-_=+[]{}|;:,.<>?`. The first
  criterion that fails chooses the message. `Strong` is a reference definition
  of the policy, independent of the check order.
- `Handlers` (`handlers.dfy`): the decisions of the `register` and `login`
  handlers as pure functions over `map<string, Digest>`. They take the username
  and password after normalisation (`UsernameOf`, `PasswordOf`), as the source
  does once it has read the fields. Each handler yields an
  `Outcome`, and `Respond` turns an outcome into an HTTP status, a `success`
  flag and a message. The lemmas relate register and login to each other.
- `UserStore` (`user_store.dfy`): the table as mutable state. Class `Users`
  holds the map. Its `Register` method updates the map in place and `Login` only
  reads it. `Valid()` is the invariant that registration keeps: every stored
  digest is the hash of a normalised password that meets the policy, under a
  non-empty, trimmed username.

`hash_password` is the parameter `hash: string -> Digest`. Nothing is assumed of
it, not even injectivity. A request is the two optional JSON fields, and an
absent field reads as the empty string, as `data.get(key, '')` does.

## Model

| member | source | states |
|---|---|---|
| `Text.IsSpace` | backend.py:55 | the characters `strip()` cuts off: the 29 code points of Python's `str.isspace` (a predicate, stated by its definition) |
| `Text.StripStart` | backend.py:55 | the result is no longer than the input, every character cut from the front is whitespace, and the result does not start with whitespace |
| `Text.StripStartIsSuffix` | backend.py:55 | what is left after cutting the leading whitespace is the end of the input |
| `Text.StripEnd` | backend.py:55 | the result is no longer than the input, every character cut from the end is whitespace, and the result does not end with whitespace |
| `Text.StripEndIsPrefix` | backend.py:55 | what is left after cutting the trailing whitespace is the start of the input |
| `Text.Strip` | backend.py:55-56 | the result of `strip()` neither starts nor ends with whitespace, and it is empty exactly when the input is all whitespace |
| `Text.StripIsSlice` | backend.py:55-56 | `strip()` returns a contiguous slice of the input, and everything before and after that slice is whitespace |
| `Text.RemoveSpaces` | backend.py:56 | `replace(" ", "")` leaves no blank; every other character keeps its number of occurrences; a string with no blank is returned unchanged |
| `Text.RemoveSpacesAppend` | backend.py:56 | removing blanks from a concatenation gives the concatenation of the two results, so the kept characters stay in their order |
| `Text.RemoveSpacesChar` | backend.py:56 | on one character, a blank gives the empty string and any other character gives itself; with `RemoveSpacesAppend` this determines the result of every string |
| `Text.RemoveSpacesKeeps` | backend.py:56 | every character of the input other than a blank occurs in the result |
| `PasswordPolicy.InClass` | backend.py:37-46 | the four character tests of the policy: `isupper`, `islower` and `isdigit` (on ASCII) and membership of `!@#$%^&*()-_=+[]{}|;:,.<>?` (a predicate, stated by its definition) |
| `PasswordPolicy.AnyIn` | backend.py:37-46 | `any(test for c in s)` is true exactly when some position of `s` holds a character of the class |
| `PasswordPolicy.ValidatePassword` | backend.py:32-49 | valid exactly when the password meets all five criteria; valid exactly when the message is "Password valida"; otherwise the message is one of the five rejection messages; the first failing criterion in the order length, upper, lower, digit, special picks it, so a password shorter than 8 always gets the length message |
| `PasswordPolicy.StrongExtends` | backend.py:34-47 | the policy has only minimums: a password that passes still passes with characters added before or after it |
| `PasswordPolicy.Examples` | backend.py:32-49 | "abc" is rejected as too short; "abcdefgh" is rejected for lacking an uppercase letter; "Abcdefg1!" is accepted |
| `Handlers.UsernameOf` | backend.py:55 | the username used is trimmed; it is empty when the field is absent, and otherwise empty exactly when the field is all whitespace |
| `Handlers.PasswordOf` | backend.py:56 | the password used holds no blank and is no longer than the field; it is empty when the field is absent, and otherwise empty exactly when the field is all whitespace |
| `Handlers.Respond` | backend.py:60-93 | `success` holds exactly for status 200 or 201; missing fields, a duplicate and a weak password are 400; an unknown user and a wrong password are 401; a creation is 201 and a login is 200; a weak password's reply carries the validator's message |
| `Handlers.Register` | backend.py:60-73 | on the normalised username and password, the checks run in the order empty field, taken username, policy: Missing exactly when a field is empty; Duplicate exactly when the username is taken, whatever the password; Weak exactly when the username is free and the policy rejects, with the validator's message; Created exactly when all pass; the new table is the old one plus exactly `username -> hash(password)`; on every failure the table is unchanged |
| `Handlers.Login` | backend.py:84-93 | on the normalised username and password: Missing exactly when a field is empty; UnknownUser exactly when the username is absent; LoggedIn exactly when the stored digest equals `hash(password)`; WrongPassword exactly when it differs; no register outcome is ever returned |
| `Handlers.RegisterFailureKeepsTable` | backend.py:60-68 | a register that does not create answers 400 and leaves the table unchanged |
| `Handlers.RegisterThenLogin` | backend.py:70-91 | after a successful register of (u, p), a login with (u, p) is accepted with status 200 |
| `Handlers.RegisterThenWrongPassword` | backend.py:70-93 | after a successful register of (u, p), a login for u with a non-empty password whose digest differs from that of p is refused as a wrong password |
| `Handlers.LoginReadsOneEntry` | backend.py:87-93 | the login outcome depends on the table only through the entry of its own username |
| `Handlers.RegisterKeepsOtherLogins` | backend.py:70-71 | a register changes the login outcome of no other username |
| `Handlers.RegisterTwice` | backend.py:63-64 | once a username is registered, registering it again with any non-empty password is a duplicate and leaves the table unchanged |
| `Handlers.InsertKeepsConsistent` | backend.py:70 | storing a non-empty trimmed username with the digest of a strong password without blanks keeps the table consistent (every key is such a username, and every digest is the hash of such a password) |
| `Handlers.RegisterKeepsConsistent` | backend.py:55-73 | for a trimmed username and a password without blanks, as the normalisation produces them, register keeps the table consistent |
| `Handlers.ConsistentLogsIn` | backend.py:70-91 | in a consistent table, every stored username logs in with the password recorded for it |
| `UserStore.Users.constructor` | backend.py:16-21 | when there is no file yet, the table is empty, which satisfies the invariant |
| `UserStore.Users.Register` | backend.py:51-73 | the handler normalises the fields, then its outcome and the new table are those of `Handlers.Register` on the old table; the ghost password map gains the new password only on creation; the invariant is preserved |
| `UserStore.Users.StoredUsersLogIn` | backend.py:70-91 | under the invariant, every stored username logs in with the normalised password recorded for it, which is the outcome `Users.Login` returns for a request normalising to that pair |
| `UserStore.Users.Login` | backend.py:75-93 | the handler normalises the fields, then its outcome is that of `Handlers.Login` on the current table; the method has no `modifies` clause, so the table cannot change |
| `UserStore.RegisterTwice` | backend.py:63-73 | on a new table, the first register creates exactly when both fields are filled and the password is strong; the second is then a duplicate, and when the first fails the second fails the same way |
| `UserStore.RegisterThenLogin` | backend.py:70-93 | on a new table, a login before registering finds no user; after a successful register, the same request logs in |

## Left out

- File persistence (`load_users`/`save_users`, backend.py:16-26) and JSON encoding are left out. The table is a map in memory, and a "save" is the assignment of the updated map back to the field.
- SHA-256 (`hash_password`, backend.py:28-30) is not modelled. It is a library call, so it is the parameter `hash`.
- Flask routing, `jsonify`, CORS, the `/health` endpoint and the `PORT` setting are left out, because they are HTTP and environment plumbing.
- Malformed request bodies are left out; the model takes both fields as optional strings. A body with the wrong content type or malformed JSON is refused by `request.get_json()` with a 415 or 400 client error. A JSON body that is not an object (`null`, a list), or a field that is not a string, raises `AttributeError` at backend.py:55-56 and answers 500 before any decision.
- A password that meets the policy and also holds a lone surrogate (`"\ud800"` in the JSON) is accepted by `validate_password`. `password.encode()` (backend.py:30, reached from backend.py:70 in register and backend.py:90 in login) then raises, and the answer is 500 with nothing stored. Dafny's `char` holds only Unicode scalar values, and `hash` is total, so the model cannot express this case.
- `PasswordPolicy.InClass`: `isupper`, `islower` and `isdigit` are read on ASCII (`A`-`Z`, `a`-`z`, `0`-`9`). Python also accepts other Unicode letters and digits here. `Text.IsSpace` does list every code point `str.isspace` accepts.
- Concurrent requests are left out. Two registers that both load before either saves lose one update in the source; the model runs requests one after another.
- The questionnaire and supervisor endpoints are not part of this model, because no source for them is available.

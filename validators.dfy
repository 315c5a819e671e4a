/** The field checks and the row predicates the handlers search the tables
    with. */
module Validators {
  import opened Records
  import opened Lookup

  /** A username passes when it is present and has at least three
      characters (the empty string, which JavaScript treats as false, fails
      the length test as well). */
  predicate ValidUsername(username: Option<string>) {
    username.Some? && |username.value| >= 3
  }

  /** The e-mail check delegates to an external validator, which rejects an
      absent address. */
  predicate ValidEmail(email: Option<string>, isEmail: string -> bool) {
    email.Some? && isEmail(email.value)
  }

  /** A username given in a query string passes when it is present and not
      empty. */
  predicate PresentUsername(username: Option<string>) {
    username.Some? && username.value != ""
  }

  function UsernameIs(name: string): User -> bool {
    (u: User) => u.username == name
  }

  function EmailIs(email: string): User -> bool {
    (u: User) => u.email == email
  }

  function OwnedBy(name: string): ApiKeyRecord -> bool {
    (k: ApiKeyRecord) => k.username == name
  }

  function HoldsKey(key: string): ApiKeyRecord -> bool {
    (k: ApiKeyRecord) => k.apiKey == key
  }

  /** Some user already has this username. */
  predicate UsernameTaken(users: seq<User>, name: string) {
    Find(users, UsernameIs(name)).Some?
  }

  /** Some user already has this e-mail address. */
  predicate EmailTaken(users: seq<User>, email: string) {
    Find(users, EmailIs(email)).Some?
  }

  /** The username test is plain existence of a row with that username. */
  lemma UsernameTakenIff(users: seq<User>, name: string)
    ensures UsernameTaken(users, name) <==> exists i :: 0 <= i < |users| && users[i].username == name
  {
  }

  /** The e-mail test is plain existence of a row with that address. */
  lemma EmailTakenIff(users: seq<User>, email: string)
    ensures EmailTaken(users, email) <==> exists i :: 0 <= i < |users| && users[i].email == email
  {
  }

  /** A username that is taken stays taken when another user is appended. */
  lemma UsernameStaysTaken(users: seq<User>, u: User, name: string)
    requires UsernameTaken(users, name)
    ensures UsernameTaken(users + [u], name)
  {
    if u.username != name {
      FindAppendRejected(users, u, UsernameIs(name));
    }
  }
}

/** Clients of the handlers: the end-to-end exchanges of registering a user,
    issuing and rotating a key, posting and listing. */
module Scenario {
  import opened Records
  import opened Lookup
  import opened Validators
  import opened AuthGate
  import opened Server

  /** On an empty store: "ab" is refused as too short, alice registers, and
      a second registration as alice with another address is refused. */
  method RegistrationScenario(isEmail: string -> bool) returns (short: Response, created: nat, again: Response)
    requires isEmail("alice@example.com")
    ensures short == Response(BAD_REQUEST, Message(InvalidUsernameText))
    ensures created == CREATED
    ensures again == Response(BAD_REQUEST, Message(UsernameTakenText))
  {
    var store := new Store([], [], []);
    short := store.Register(Some("ab"), Some("x@y.com"), isEmail);
    var resp := store.Register(Some("alice"), Some("alice@example.com"), isEmail);
    created := resp.status;
    assert UsernameIs("alice")(store.users[0]);
    again := store.Register(Some("alice"), Some("other@example.com"), isEmail);
  }

  /** With alice registered and no keys yet: a key is issued to her, she
      posts "hi" with it, and the listing is the seed followed by her tweet.
      `key` stands for the generated key. */
  method PostScenario(seed: seq<Tweet>, key: string) returns (issued: Response, listed: seq<Tweet>)
    ensures issued == Response(OK, ApiKey(key))
    ensures listed == seed + [Tweet(Some("alice"), Some("hi"))]
  {
    var store := new Store([User("alice", "alice@example.com")], [], seed);
    assert UsernameIs("alice")(store.users[0]);
    issued := store.IssueApiKey(Some("alice"), key);
    assert store.apiKeys == [ApiKeyRecord("alice", key)];
    ResolveStandardHeader(store.apiKeys, key);
    assert HoldsKey(key)(store.apiKeys[0]);
    var posted := store.CreateTweet(Some(Scheme + key), Some("alice"), Some("hi"));
    var list := store.ListTweets();
    listed := list.body.tweets;
  }

  /** With alice holding the key `k1`: a second key `k2` is issued, a post
      with `k1` is refused and a post with `k2` is accepted. */
  method RotationScenario(seed: seq<Tweet>, k1: string, k2: string) returns (staleStatus: nat, freshStatus: nat)
    requires k1 != k2
    ensures staleStatus == UNAUTHORIZED
    ensures freshStatus == OK
  {
    var users := [User("alice", "alice@example.com")];
    var keys := [ApiKeyRecord("alice", k1)];
    assert UsernameIs("alice")(users[0]);
    assert OwnedBy("alice")(keys[0]) && !HoldsKey(k2)(keys[0]);
    assert Find(keys, OwnedBy("alice")) == Some(ApiKeyRecord("alice", k1));
    RotationRevokesOldKey(keys, "alice", k2);
    ghost var rotatedKeys := Upsert(keys, "alice", k2);
    assert Resolve(rotatedKeys, Some(Scheme + k1)).None?;
    assert Resolve(rotatedKeys, Some(Scheme + k2)).Some?;

    var store := new Store(users, keys, seed);
    var rotated := store.IssueApiKey(Some("alice"), k2);
    assert store.apiKeys == rotatedKeys;
    var stale := store.CreateTweet(Some(Scheme + k1), Some("alice"), Some("again"));
    staleStatus := stale.status;
    var accepted := store.CreateTweet(Some(Scheme + k2), Some("alice"), Some("again"));
    freshStatus := accepted.status;
  }
}

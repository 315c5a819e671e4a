/** The request handlers of the API, as operations on the document store's
    three tables. Each handler runs to completion before the next request is
    served, so the store is a plain object whose table fields the handlers
    reassign. */
module Server {
  import opened Records
  import opened Lookup
  import opened Validators
  import opened AuthGate

  /** No two users share a username. */
  ghost predicate DistinctUsernames(users: seq<User>) {
    forall i, j :: 0 <= i < j < |users| ==> users[i].username != users[j].username
  }

  /** No two users share an e-mail address. */
  ghost predicate DistinctEmails(users: seq<User>) {
    forall i, j :: 0 <= i < j < |users| ==> users[i].email != users[j].email
  }

  /** At most one `api_keys` row per username. */
  ghost predicate OneKeyPerUser(apiKeys: seq<ApiKeyRecord>) {
    forall i, j :: 0 <= i < j < |apiKeys| ==> apiKeys[i].username != apiKeys[j].username
  }

  /** No two `api_keys` rows hold the same key. */
  ghost predicate DistinctKeys(apiKeys: seq<ApiKeyRecord>) {
    forall i, j :: 0 <= i < j < |apiKeys| ==> apiKeys[i].apiKey != apiKeys[j].apiKey
  }

  /** Every `api_keys` row belongs to a registered user. */
  ghost predicate KeysOwnedByUsers(apiKeys: seq<ApiKeyRecord>, users: seq<User>) {
    forall i :: 0 <= i < |apiKeys| ==> UsernameTaken(users, apiKeys[i].username)
  }

  /** The upsert of a key for `name`: the first row owned by `name` gets the
      new key in its place; when there is none a row is appended. */
  function Upsert(apiKeys: seq<ApiKeyRecord>, name: string, key: string): (r: seq<ApiKeyRecord>)
    ensures Find(r, OwnedBy(name)) == Some(ApiKeyRecord(name, key))
    ensures |r| == if Find(apiKeys, OwnedBy(name)).Some? then |apiKeys| else |apiKeys| + 1
    ensures forall j :: 0 <= j < |apiKeys| ==> r[j].username == apiKeys[j].username
    ensures forall j :: 0 <= j < |apiKeys| && FindIndex(apiKeys, OwnedBy(name)) != Some(j) ==> r[j] == apiKeys[j]
  {
    match FindIndex(apiKeys, OwnedBy(name))
    case Some(i) =>
      var r := apiKeys[i := apiKeys[i].(apiKey := key)];
      assert FindIndex(r, OwnedBy(name)) == Some(i) by {
        assert forall j :: 0 <= j < i ==> r[j] == apiKeys[j];
        assert OwnedBy(name)(r[i]);
      }
      r
    case None =>
      var r := apiKeys + [ApiKeyRecord(name, key)];
      assert FindIndex(r, OwnedBy(name)) == Some(|apiKeys|) by {
        assert forall j :: 0 <= j < |apiKeys| ==> r[j] == apiKeys[j];
        assert OwnedBy(name)(r[|apiKeys|]);
      }
      r
  }

  class Store {
    var users: seq<User>
    var apiKeys: seq<ApiKeyRecord>
    var tweets: seq<Tweet>

    /** The invariants the handlers keep: unique usernames and e-mail
        addresses, at most one key row per user, and key rows only for
        registered users. */
    ghost predicate Consistent()
      reads this
    {
      DistinctUsernames(users) && DistinctEmails(users) &&
      OneKeyPerUser(apiKeys) && KeysOwnedByUsers(apiKeys, users)
    }

    /** The store as `db.read()` loads it from an existing document. */
    constructor (users: seq<User>, apiKeys: seq<ApiKeyRecord>, tweets: seq<Tweet>)
      ensures this.users == users && this.apiKeys == apiKeys && this.tweets == tweets
    {
      this.users := users;
      this.apiKeys := apiKeys;
      this.tweets := tweets;
    }

    /** `GET /tweets`: the table as stored, oldest first. */
    method ListTweets() returns (resp: Response)
      ensures resp == Response(OK, TweetList(tweets))
    {
      resp := Response(OK, TweetList(tweets));
    }

    /** `POST /users`: four checks in order, the first failing one answers
        400 and nothing changes; otherwise the user is appended. */
    method Register(username: Option<string>, email: Option<string>, isEmail: string -> bool)
      returns (resp: Response)
      modifies this`users
      ensures !ValidUsername(username) ==>
                resp == Response(BAD_REQUEST, Message(InvalidUsernameText))
      ensures ValidUsername(username) && UsernameTaken(old(users), username.value) ==>
                resp == Response(BAD_REQUEST, Message(UsernameTakenText))
      ensures ValidUsername(username) && !UsernameTaken(old(users), username.value) &&
              !ValidEmail(email, isEmail) ==>
                resp == Response(BAD_REQUEST, Message(InvalidEmailText))
      ensures ValidUsername(username) && !UsernameTaken(old(users), username.value) &&
              ValidEmail(email, isEmail) && EmailTaken(old(users), email.value) ==>
                resp == Response(BAD_REQUEST, Message(EmailRegisteredText))
      ensures resp.status == CREATED <==>
                ValidUsername(username) && !UsernameTaken(old(users), username.value) &&
                ValidEmail(email, isEmail) && !EmailTaken(old(users), email.value)
      ensures resp.status == CREATED ==>
                resp.body == Message(UserCreatedText(username.value)) &&
                users == old(users) + [User(username.value, email.value)]
      ensures resp.status != CREATED ==> users == old(users)
      ensures apiKeys == old(apiKeys) && tweets == old(tweets)
      ensures old(Consistent()) ==> Consistent()
    {
      if !ValidUsername(username) {
        return Response(BAD_REQUEST, Message(InvalidUsernameText));
      }
      var name := username.value;
      if UsernameTaken(users, name) {
        return Response(BAD_REQUEST, Message(UsernameTakenText));
      }
      if !ValidEmail(email, isEmail) {
        return Response(BAD_REQUEST, Message(InvalidEmailText));
      }
      var address := email.value;
      if EmailTaken(users, address) {
        return Response(BAD_REQUEST, Message(EmailRegisteredText));
      }
      ghost var before := users;
      users := users + [User(name, address)];
      RegisterKeepsConsistent(before, User(name, address), apiKeys);
      resp := Response(CREATED, Message(UserCreatedText(name)));
    }

    /** `POST /api-key?username=...`: 400 when the username is missing, 401
        when nobody has it; otherwise the freshly generated `key` is
        upserted and returned. */
    method IssueApiKey(username: Option<string>, key: string) returns (resp: Response)
      modifies this`apiKeys
      ensures !PresentUsername(username) ==>
                resp == Response(BAD_REQUEST, Message(MissingUsernameText)) && apiKeys == old(apiKeys)
      ensures PresentUsername(username) && !UsernameTaken(users, username.value) ==>
                resp == Response(UNAUTHORIZED, Message(UnknownUserText)) && apiKeys == old(apiKeys)
      ensures PresentUsername(username) && UsernameTaken(users, username.value) ==>
                resp == Response(OK, ApiKey(key)) && apiKeys == Upsert(old(apiKeys), username.value, key)
      ensures users == old(users) && tweets == old(tweets)
      ensures old(Consistent()) ==> Consistent()
      ensures old(DistinctKeys(apiKeys)) && KeyHolder(old(apiKeys), key).None? ==> DistinctKeys(apiKeys)
    {
      if !PresentUsername(username) {
        return Response(BAD_REQUEST, Message(MissingUsernameText));
      }
      var name := username.value;
      if !UsernameTaken(users, name) {
        return Response(UNAUTHORIZED, Message(UnknownUserText));
      }
      ghost var before := apiKeys;
      match FindIndex(apiKeys, OwnedBy(name)) {
        case Some(i) =>
          apiKeys := apiKeys[i := apiKeys[i].(apiKey := key)];
        case None =>
          apiKeys := apiKeys + [ApiKeyRecord(name, key)];
      }
      assert apiKeys == Upsert(before, name, key);
      UpsertKeepsInvariants(before, users, name, key);
      assert old(Consistent()) ==> OneKeyPerUser(apiKeys) && KeysOwnedByUsers(apiKeys, users);
      resp := Response(OK, ApiKey(key));
    }

    /** `POST /tweets`: 401 unless the header resolves to a key row;
        otherwise the body's fields are appended as they are, whoever owns
        the key. */
    method CreateTweet(header: Option<string>, username: Option<string>, message: Option<string>)
      returns (resp: Response)
      modifies this`tweets
      ensures Resolve(apiKeys, header).None? ==>
                resp == Response(UNAUTHORIZED, Message(InvalidApiKeyText)) && tweets == old(tweets)
      ensures Resolve(apiKeys, header).Some? ==>
                resp == Response(OK, Message(TweetCreatedText)) &&
                tweets == old(tweets) + [Tweet(username, message)]
      ensures users == old(users) && apiKeys == old(apiKeys)
      ensures Consistent() == old(Consistent())
    {
      var holder := Resolve(apiKeys, header);
      if holder.None? {
        return Response(UNAUTHORIZED, Message(InvalidApiKeyText));
      }
      tweets := tweets + [Tweet(username, message)];
      resp := Response(OK, Message(TweetCreatedText));
    }
  }

  /** Appending a user whose username and e-mail address were not found
      keeps both columns unique and every key row owned. */
  lemma RegisterKeepsConsistent(users: seq<User>, u: User, apiKeys: seq<ApiKeyRecord>)
    requires !UsernameTaken(users, u.username)
    requires !EmailTaken(users, u.email)
    ensures DistinctUsernames(users) ==> DistinctUsernames(users + [u])
    ensures DistinctEmails(users) ==> DistinctEmails(users + [u])
    ensures KeysOwnedByUsers(apiKeys, users) ==> KeysOwnedByUsers(apiKeys, users + [u])
  {
  }

  /** The upsert never creates a second row for a username. */
  lemma UpsertKeepsOneKeyPerUser(apiKeys: seq<ApiKeyRecord>, name: string, key: string)
    requires OneKeyPerUser(apiKeys)
    ensures OneKeyPerUser(Upsert(apiKeys, name, key))
  {
  }

  /** The upsert only writes rows for a registered user. */
  lemma UpsertKeepsKeysOwned(apiKeys: seq<ApiKeyRecord>, users: seq<User>, name: string, key: string)
    requires KeysOwnedByUsers(apiKeys, users)
    requires UsernameTaken(users, name)
    ensures KeysOwnedByUsers(Upsert(apiKeys, name, key), users)
  {
  }

  /** A key nobody holds keeps the key column unique after the upsert. */
  lemma UpsertFreshKeepsKeysDistinct(apiKeys: seq<ApiKeyRecord>, name: string, key: string)
    requires DistinctKeys(apiKeys)
    requires KeyHolder(apiKeys, key).None?
    ensures DistinctKeys(Upsert(apiKeys, name, key))
  {
  }

  /** The invariants `IssueApiKey` keeps, gathered for its proof. */
  lemma UpsertKeepsInvariants(apiKeys: seq<ApiKeyRecord>, users: seq<User>, name: string, key: string)
    requires UsernameTaken(users, name)
    ensures OneKeyPerUser(apiKeys) ==> OneKeyPerUser(Upsert(apiKeys, name, key))
    ensures KeysOwnedByUsers(apiKeys, users) ==> KeysOwnedByUsers(Upsert(apiKeys, name, key), users)
    ensures DistinctKeys(apiKeys) && KeyHolder(apiKeys, key).None? ==> DistinctKeys(Upsert(apiKeys, name, key))
  {
    if OneKeyPerUser(apiKeys) {
      UpsertKeepsOneKeyPerUser(apiKeys, name, key);
    }
    if KeysOwnedByUsers(apiKeys, users) {
      UpsertKeepsKeysOwned(apiKeys, users, name, key);
    }
    if DistinctKeys(apiKeys) && KeyHolder(apiKeys, key).None? {
      UpsertFreshKeepsKeysDistinct(apiKeys, name, key);
    }
  }

  /** Key rotation: once a user's key is replaced by one nobody held, a
      request with the old key is refused and one with the new key resolves
      to that user's row. */
  lemma RotationRevokesOldKey(apiKeys: seq<ApiKeyRecord>, name: string, newKey: string)
    requires Find(apiKeys, OwnedBy(name)).Some?
    requires DistinctKeys(apiKeys)
    requires KeyHolder(apiKeys, newKey).None?
    ensures KeyHolder(Upsert(apiKeys, name, newKey), Find(apiKeys, OwnedBy(name)).value.apiKey).None?
    ensures var oldKey := Find(apiKeys, OwnedBy(name)).value.apiKey;
            Resolve(Upsert(apiKeys, name, newKey), Some(Scheme + oldKey)).None?
    ensures Resolve(Upsert(apiKeys, name, newKey), Some(Scheme + newKey)) == Some(ApiKeyRecord(name, newKey))
  {
    var r := Upsert(apiKeys, name, newKey);
    var i := FindIndex(apiKeys, OwnedBy(name)).value;
    var oldKey := apiKeys[i].apiKey;
    assert oldKey != newKey by { assert apiKeys[i] in apiKeys; }
    forall j | 0 <= j < |r| ensures r[j].apiKey != oldKey {
      if j != i && j < |apiKeys| {
        assert r[j] == apiKeys[j];
      }
    }
    ResolveStandardHeader(r, oldKey);
    forall j | 0 <= j < i ensures !HoldsKey(newKey)(r[j]) {
      assert r[j] == apiKeys[j] && apiKeys[j] in apiKeys;
    }
    assert FindIndex(r, HoldsKey(newKey)) == Some(i);
    ResolveStandardHeader(r, newKey);
  }
}

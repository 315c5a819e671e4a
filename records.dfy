/** The records held in the three tables of the document store, and the
    responses the handlers send back. Request fields that a client may leave
    out are `Option<string>`: `None` is JavaScript's `undefined`. */
module Records {

  datatype Option<+T> = None | Some(value: T)

  /** A row of `users`. Both fields have passed validation when stored. */
  datatype User = User(username: string, email: string)

  /** A row of `api_keys`. */
  datatype ApiKeyRecord = ApiKeyRecord(username: string, apiKey: string)

  /** A row of `tweets`: copied from the request body unchecked, so either
      field may be absent. */
  datatype Tweet = Tweet(username: Option<string>, message: Option<string>)

  /** The JSON object a handler sends. */
  datatype Body =
    | Message(text: string)
    | ApiKey(apiKey: string)
    | TweetList(tweets: seq<Tweet>)

  datatype Response = Response(status: nat, body: Body)

  const OK: nat := 200
  const CREATED: nat := 201
  const BAD_REQUEST: nat := 400
  const UNAUTHORIZED: nat := 401

  const InvalidUsernameText := "Invalid Username. Username should have minimum 3 characters."
  const UsernameTakenText := "Username already taken."
  const InvalidEmailText := "Invalid Email Id."
  const EmailRegisteredText := "Email already registered."
  const MissingUsernameText := "Username is missing in the query."
  const UnknownUserText := "Username does not exists. Please register first."
  const InvalidApiKeyText := "Missing or Invalid api_key"
  const TweetCreatedText := "Your Tweet is Created."

  function UserCreatedText(username: string): string {
    "User " + username + " is created. Thank you for registering."
  }
}

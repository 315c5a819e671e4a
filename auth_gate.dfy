/** Credential resolution: the `Authorization` header is read loosely after
    the Bearer scheme of RFC 6750 section 2.1. The first occurrence of
    "Bearer " anywhere in the header is deleted (JavaScript's
    `String.prototype.replace` with a string pattern), and what remains is
    looked up as an API key. */
module AuthGate {
  import opened Records
  import opened Lookup
  import opened Validators

  const Scheme := "Bearer "

  /** `pat` occurs in `s` starting at position `i`. */
  predicate OccursAt(s: string, pat: string, i: nat) {
    i + |pat| <= |s| && s[i..i + |pat|] == pat
  }

  /** The first position at or after `from` where `pat` occurs in `s`. */
  function IndexOfFrom(s: string, pat: string, from: nat): (r: Option<nat>)
    decreases |s| - from
    ensures r.Some? ==> from <= r.value && OccursAt(s, pat, r.value)
    ensures r.Some? ==> forall j: nat :: from <= j < r.value ==> !OccursAt(s, pat, j)
    ensures r.None? ==> forall j: nat :: from <= j ==> !OccursAt(s, pat, j)
  {
    if from + |pat| > |s| then None
    else if OccursAt(s, pat, from) then Some(from)
    else IndexOfFrom(s, pat, from + 1)
  }

  /** The first position where `pat` occurs in `s` (`String.prototype.indexOf`). */
  function IndexOf(s: string, pat: string): (r: Option<nat>)
    ensures r.Some? ==> OccursAt(s, pat, r.value) && forall j: nat :: j < r.value ==> !OccursAt(s, pat, j)
    ensures r.None? <==> forall j: nat :: !OccursAt(s, pat, j)
  {
    IndexOfFrom(s, pat, 0)
  }

  /** `header.replace("Bearer ", "")`: the first occurrence of the scheme is
      cut out wherever it stands; a header without it is returned as it is. */
  function StripBearer(header: string): (r: string)
    ensures IndexOf(header, Scheme).None? ==> r == header
    ensures IndexOf(header, Scheme).Some? ==>
              var i := IndexOf(header, Scheme).value;
              i <= |r| && header == r[..i] + Scheme + r[i..]
  {
    match IndexOf(header, Scheme)
    case None => header
    case Some(i) => header[..i] + header[i + |Scheme|..]
  }

  /** The first `api_keys` row whose key equals `key` exactly. */
  function KeyHolder(apiKeys: seq<ApiKeyRecord>, key: string): (r: Option<ApiKeyRecord>)
    ensures r.Some? ==> r.value in apiKeys && r.value.apiKey == key
    ensures r.None? <==> forall k :: k in apiKeys ==> k.apiKey != key
    ensures r.Some? ==> exists i :: 0 <= i < |apiKeys| && apiKeys[i] == r.value &&
                                    forall j :: 0 <= j < i ==> apiKeys[j].apiKey != key
  {
    Find(apiKeys, HoldsKey(key))
  }

  /** `getUserByApiKey`: an absent or empty header resolves to nothing;
      otherwise the scheme is stripped and the rest is looked up. */
  function Resolve(apiKeys: seq<ApiKeyRecord>, header: Option<string>): (r: Option<ApiKeyRecord>)
    ensures header.None? || header == Some("") ==> r.None?
    ensures r.Some? ==> r.value in apiKeys && r.value.apiKey == StripBearer(header.value)
    ensures header.Some? && header != Some("") && r.None? ==>
              forall k :: k in apiKeys ==> k.apiKey != StripBearer(header.value)
    ensures r.Some? ==> exists i :: 0 <= i < |apiKeys| && apiKeys[i] == r.value &&
                                    forall j :: 0 <= j < i ==> apiKeys[j].apiKey != StripBearer(header.value)
  {
    if header.None? || header.value == "" then None
    else KeyHolder(apiKeys, StripBearer(header.value))
  }

  /** A header in the form RFC 6750 prescribes yields exactly the token. */
  lemma StripStandardHeader(token: string)
    ensures StripBearer(Scheme + token) == token
  {
  }

  /** Only the first occurrence is removed: a doubled scheme leaves one. */
  lemma StripRemovesOnlyFirst(token: string)
    ensures StripBearer(Scheme + Scheme + token) == Scheme + token
  {
    assert Scheme + Scheme + token == Scheme + (Scheme + token);
    StripStandardHeader(Scheme + token);
  }

  /** A header that never mentions the scheme is used unchanged as the key. */
  lemma StripWithoutScheme(header: string)
    requires forall j: nat :: !OccursAt(header, Scheme, j)
    ensures StripBearer(header) == header
  {
  }

  /** A request carrying "Bearer <key>" resolves to the first row holding that key. */
  lemma ResolveStandardHeader(apiKeys: seq<ApiKeyRecord>, token: string)
    ensures Resolve(apiKeys, Some(Scheme + token)) == KeyHolder(apiKeys, token)
  {
  }
}

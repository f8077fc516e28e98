/**
 * The two credential resolvers of `utils/auth.js`. Each is a read-only decision over a
 * request header and snapshots of the stores it queries: the users collection, and for
 * tokens the cache. Both yield a user document or nothing (`null`), and, being
 * functions, change neither store.
 *
 * `sha1` is a parameter: an arbitrary function from password to stored digest.
 * `lenient` is a parameter too: what Node's decoder yields for a payload that is not
 * well-formed Base64 (Node does not fail on such input, it skips or tolerates it).
 * So is `utf8`: what `Buffer#toString` yields for decoded bytes that are not all ASCII
 * (UTF-8 decoding, with U+FFFD for ill-formed sequences).
 */
module Auth {
  import opened Wrappers
  import opened JsString
  import Base64
  import opened UserStore

  /** The email and password carried by a Basic credential. */
  datatype Credentials = Credentials(email: string, password: string)

  /**
   * The payload of an `Authorization` header: absent or empty headers are refused, and
   * so is any header that does not split on single spaces into exactly `Basic` and one
   * more piece. The scheme name is compared case-sensitively.
   */
  function BasicPayload(authorization: Option<string>): (r: Option<string>)
    ensures authorization.None? || authorization == Some("") ==> r.None?
    ensures r.Some? ==> ' ' !in r.value && authorization == Some("Basic " + r.value)
  {
    if authorization.None? || authorization.value == "" then None
    else
      var parts := Split(authorization.value, ' ');
      if |parts| != 2 || parts[0] != "Basic" then None
      else
        assert authorization.value == Join(parts, ' ') == parts[0] + [' '] + parts[1];
        assert parts[0] + [' '] + parts[1] == "Basic " + parts[1];
        Some(parts[1])
  }

  /** Every header of the form `Basic <payload>` with a space-free payload is accepted, with that payload. */
  lemma BasicPayloadComplete(payload: string)
    requires ' ' !in payload
    ensures BasicPayload(Some("Basic " + payload)) == Some(payload)
  {
    var h := "Basic " + payload;
    assert Join(["Basic", payload], ' ') == h;
    SplitUnique(h, ' ', ["Basic", payload]);
  }

  /** The scheme name is case-sensitive: `basic x` is refused. */
  lemma BasicPayloadRejectsLowerCase()
    ensures BasicPayload(Some("basic x")).None?
  {
    assert Join(["basic", "x"], ' ') == "basic x";
    SplitUnique("basic x", ' ', ["basic", "x"]);
  }

  /** Two spaces make three pieces: `Basic  x` is refused. */
  lemma BasicPayloadRejectsDoubleSpace()
    ensures BasicPayload(Some("Basic  x")).None?
  {
    assert Join(["", "x"], ' ') == " x";
    assert Join(["Basic", "", "x"], ' ') == "Basic  x";
    SplitUnique("Basic  x", ' ', ["Basic", "", "x"]);
  }

  /** A payload with a space makes three pieces: `Basic x y` is refused. */
  lemma BasicPayloadRejectsThirdPiece()
    ensures BasicPayload(Some("Basic x y")).None?
  {
    assert Join(["x", "y"], ' ') == "x y";
    assert Join(["Basic", "x", "y"], ' ') == "Basic x y";
    SplitUnique("Basic x y", ' ', ["Basic", "x", "y"]);
  }

  /**
   * `Buffer.from(payload, 'base64').toString()`: well-formed Base64 that decodes to ASCII
   * gives one character per decoded byte; other decoded bytes go through `utf8`, and a
   * malformed payload through `lenient`.
   */
  function DecodePayload(payload: string, lenient: string -> string, utf8: seq<Base64.byte> -> string): (token: string)
    ensures Base64.Decode(payload).None? ==> token == lenient(payload)
    ensures Base64.Decode(payload).Some? && Base64.IsAscii(Base64.Decode(payload).value) ==>
      |token| == |Base64.Decode(payload).value| &&
      forall i | 0 <= i < |token| :: token[i] as int == Base64.Decode(payload).value[i]
    ensures Base64.Decode(payload).Some? && !Base64.IsAscii(Base64.Decode(payload).value) ==>
      token == utf8(Base64.Decode(payload).value)
  {
    match Base64.Decode(payload)
    case Some(bytes) => if Base64.IsAscii(bytes) then Base64.BytesToString(bytes) else utf8(bytes)
    case None => lenient(payload)
  }

  /** The payload a client encodes from ASCII bytes decodes back to those bytes as a string. */
  lemma DecodePayloadEncode(b: seq<Base64.byte>, lenient: string -> string, utf8: seq<Base64.byte> -> string)
    requires Base64.IsAscii(b)
    ensures DecodePayload(Base64.Encode(b), lenient, utf8) == Base64.BytesToString(b)
  {
    Base64.DecodeEncode(b);
  }

  /**
   * The split of a decoded credential at its first colon. Without a colon `indexOf`
   * gives -1, so the email is `substring(0, -1)`, which is empty, and the password is
   * `substring(0)`, the whole string.
   */
  function SplitCredentials(token: string): (c: Credentials)
    ensures ':' in token ==> ':' !in c.email && token == c.email + ":" + c.password
    ensures ':' !in token ==> c.email == "" && c.password == token
  {
    var sepPos := IndexOf(token, ':');
    Credentials(Substring(token, 0, sepPos), SubstringFrom(token, sepPos + 1))
  }

  /** An email without a colon and any password, joined by a colon, split back into the same pair. */
  lemma SplitCredentialsRoundTrip(email: string, password: string)
    requires ':' !in email
    ensures SplitCredentials(email + ":" + password) == Credentials(email, password)
  {
    var token := email + ":" + password;
    assert token[..|email|] == email;
    IndexOfFirst(token, ':', |email|);
    assert token[|email| + 1..] == password;
  }

  /** The credentials an `Authorization` header carries, before any store is consulted. */
  function HeaderCredentials(authorization: Option<string>, lenient: string -> string,
                             utf8: seq<Base64.byte> -> string): (r: Option<Credentials>)
    ensures authorization.None? || authorization == Some("") ==> r.None?
    ensures r.Some? ==> exists payload | ' ' !in payload :: authorization == Some("Basic " + payload)
  {
    match BasicPayload(authorization)
    case None => None
    case Some(payload) => Some(SplitCredentials(DecodePayload(payload, lenient, utf8)))
  }

  /**
   * Every header `Basic <payload>` with a space-free payload yields credentials: the
   * decoded payload split at its first colon.
   */
  lemma HeaderCredentialsComplete(payload: string, lenient: string -> string, utf8: seq<Base64.byte> -> string)
    requires ' ' !in payload
    ensures HeaderCredentials(Some("Basic " + payload), lenient, utf8)
         == Some(SplitCredentials(DecodePayload(payload, lenient, utf8)))
  {
    BasicPayloadComplete(payload);
  }

  /**
   * The first user with the given email, provided the digest of the password is the one
   * stored. Later users with the same email are never consulted.
   */
  function CheckCredentials(users: seq<User>, sha1: string -> string, c: Credentials): (r: Option<User>)
    ensures r.Some? ==> r.value in users && r.value.email == c.email && r.value.password == sha1(c.password)
    ensures (forall i | 0 <= i < |users| :: users[i].email != c.email) ==> r.None?
    ensures forall k | IsFirstMatch(users, ByEmail(c.email), k) ::
      r == (if users[k].password == sha1(c.password) then Some(users[k]) else None)
  {
    match FindOne(users, ByEmail(c.email))
    case None => None
    case Some(user) => if sha1(c.password) != user.password then None else Some(user)
  }

  /** `getUserFromAuthorization`: the user named by a Basic `Authorization` header, or nothing. */
  function GetUserFromAuthorization(authorization: Option<string>, users: seq<User>, sha1: string -> string,
                                    lenient: string -> string, utf8: seq<Base64.byte> -> string): (r: Option<User>)
    ensures authorization.None? || authorization == Some("") ==> r.None?
    ensures r.Some? ==> r.value in users && HeaderCredentials(authorization, lenient, utf8).Some?
    ensures r.Some? ==> var c := HeaderCredentials(authorization, lenient, utf8).value;
      r.value.email == c.email && r.value.password == sha1(c.password)
  {
    match HeaderCredentials(authorization, lenient, utf8)
    case None => None
    case Some(c) => CheckCredentials(users, sha1, c)
  }

  /**
   * With unique emails, any header that parses to credentials yields `u` exactly when `u` is
   * stored with the parsed email and the digest of the parsed password.
   */
  lemma GetUserFromAuthorizationParsedIff(authorization: Option<string>, users: seq<User>, sha1: string -> string,
                                          lenient: string -> string, utf8: seq<Base64.byte> -> string, u: User)
    requires HeaderCredentials(authorization, lenient, utf8).Some?
    requires AtMostOne(users, ByEmail(HeaderCredentials(authorization, lenient, utf8).value.email))
    ensures var c := HeaderCredentials(authorization, lenient, utf8).value;
      (GetUserFromAuthorization(authorization, users, sha1, lenient, utf8) == Some(u)
       <==> u in users && u.email == c.email && u.password == sha1(c.password))
  {
    var c := HeaderCredentials(authorization, lenient, utf8).value;
    FindOneUnique(users, ByEmail(c.email), u);
  }

  /** The header a client sends for Basic credentials: `Basic ` and the Base64 of `email:password`. */
  function BasicAuthorization(email: string, password: string): (h: string)
    requires Base64.IsAsciiString(email + ":" + password)
    ensures |h| > 6 && h[..6] == "Basic "
    ensures forall i | 6 <= i < |h| :: Base64.IsAlphabetChar(h[i]) || h[i] == '='
  {
    "Basic " + Base64.Encode(Base64.StringToBytes(email + ":" + password))
  }

  /** Round trip: parsing the header built from an email without a colon gives back the same email and password. */
  lemma HeaderCredentialsRoundTrip(email: string, password: string, lenient: string -> string,
                                   utf8: seq<Base64.byte> -> string)
    requires ':' !in email
    requires Base64.IsAsciiString(email + ":" + password)
    ensures HeaderCredentials(Some(BasicAuthorization(email, password)), lenient, utf8) == Some(Credentials(email, password))
  {
    var bytes := Base64.StringToBytes(email + ":" + password);
    var payload := Base64.Encode(bytes);
    assert forall i | 0 <= i < |payload| :: payload[i] != ' ';
    BasicPayloadComplete(payload);
    DecodePayloadEncode(bytes, lenient, utf8);
    SplitCredentialsRoundTrip(email, password);
  }

  /**
   * With unique emails, a well-formed Basic header yields a user exactly when a user with
   * that email exists and the digest of the password is the stored one; an unknown
   * email and a wrong password both yield nothing.
   */
  lemma GetUserFromAuthorizationIff(email: string, password: string, users: seq<User>,
                                    sha1: string -> string, lenient: string -> string,
                                    utf8: seq<Base64.byte> -> string, u: User)
    requires ':' !in email
    requires Base64.IsAsciiString(email + ":" + password)
    requires AtMostOne(users, ByEmail(email))
    ensures GetUserFromAuthorization(Some(BasicAuthorization(email, password)), users, sha1, lenient, utf8) == Some(u)
        <==> u in users && u.email == email && u.password == sha1(password)
  {
    HeaderCredentialsRoundTrip(email, password, lenient, utf8);
    FindOneUnique(users, ByEmail(email), u);
  }

  /** The cache key under which a session token is stored. */
  function TokenKey(token: string): (k: string)
    ensures |k| == |token| + 5 && k[..5] == "auth_" && k[5..] == token
  {
    "auth_" + token
  }

  /** Distinct tokens have distinct cache keys. */
  lemma TokenKeyInjective(t1: string, t2: string)
    ensures TokenKey(t1) == TokenKey(t2) ==> t1 == t2
  {
    if TokenKey(t1) == TokenKey(t2) {
      assert t1 == TokenKey(t1)[5..];
      assert t2 == TokenKey(t2)[5..];
    }
  }

  /**
   * `getUserFromXToken`: an absent or empty token, a token whose key the cache lacks,
   * and a cached id that is the empty string (falsy in JavaScript) all yield nothing;
   * otherwise the user whose `_id` is the cached id, if there is one.
   */
  function GetUserFromXToken(xToken: Option<string>, cache: map<string, string>, users: seq<User>): (r: Option<User>)
    ensures xToken.None? || xToken == Some("") ==> r.None?
    ensures xToken.Some? && TokenKey(xToken.value) !in cache ==> r.None?
    ensures r.Some? ==> xToken.Some? && TokenKey(xToken.value) in cache
    ensures r.Some? ==> r.value in users && r.value.id == cache[TokenKey(xToken.value)] != ""
  {
    if xToken.None? || xToken.value == "" then None
    else
      var userId := if TokenKey(xToken.value) in cache then cache[TokenKey(xToken.value)] else "";
      if userId == "" then None
      else FindOne(users, ById(userId))
  }

  /** Only the token's own cache entry matters: caches that agree on it give the same user. */
  lemma GetUserFromXTokenLocal(token: string, c1: map<string, string>, c2: map<string, string>, users: seq<User>)
    requires TokenKey(token) in c1 <==> TokenKey(token) in c2
    requires TokenKey(token) in c1 ==> c1[TokenKey(token)] == c2[TokenKey(token)]
    ensures GetUserFromXToken(Some(token), c1, users) == GetUserFromXToken(Some(token), c2, users)
  {
  }

  /** Storing an entry for another token leaves what a token resolves to unchanged. */
  lemma GetUserFromXTokenOtherEntry(token: string, other: string, id: string, cache: map<string, string>, users: seq<User>)
    requires token != other
    ensures GetUserFromXToken(Some(token), cache[TokenKey(other) := id], users) == GetUserFromXToken(Some(token), cache, users)
  {
    TokenKeyInjective(token, other);
    GetUserFromXTokenLocal(token, cache[TokenKey(other) := id], cache, users);
  }

  /**
   * With unique ids, a non-empty token resolves to `u` exactly when its cache entry
   * holds `u`'s non-empty id and `u` is in the store.
   */
  lemma GetUserFromXTokenIff(token: string, cache: map<string, string>, users: seq<User>, u: User)
    requires token != ""
    requires TokenKey(token) in cache ==> AtMostOne(users, ById(cache[TokenKey(token)]))
    ensures GetUserFromXToken(Some(token), cache, users) == Some(u)
        <==> TokenKey(token) in cache && cache[TokenKey(token)] == u.id != "" && u in users
  {
    if TokenKey(token) in cache {
      FindOneUnique(users, ById(cache[TokenKey(token)]), u);
    }
  }
}

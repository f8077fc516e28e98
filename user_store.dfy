/**
 * The users collection as the credential resolvers see it: a sequence of documents in
 * the store's natural order, queried with `findOne`, which yields the first document
 * matching the filter or nothing.
 */
module UserStore {
  import opened Wrappers

  /** A user document: its `_id`, its `email` and the SHA-1 hex digest stored under `password`. */
  datatype User = User(id: string, email: string, password: string)

  /** The two filters the resolvers pass to `findOne`: `{ email }` and `{ _id }`. */
  datatype Filter = ByEmail(email: string) | ById(id: string)

  predicate Matches(u: User, f: Filter) {
    match f
    case ByEmail(e) => u.email == e
    case ById(i) => u.id == i
  }

  /** Position `k` holds a document matching `f`, and no earlier document matches. */
  predicate IsFirstMatch(users: seq<User>, f: Filter, k: int) {
    0 <= k < |users| && Matches(users[k], f) && forall j | 0 <= j < k :: !Matches(users[j], f)
  }

  /** `findOne(filter)`: the first matching document in natural order, or nothing. */
  function FindOne(users: seq<User>, f: Filter): (r: Option<User>)
    ensures r.Some? ==> r.value in users && Matches(r.value, f)
    ensures r.Some? ==> exists k :: IsFirstMatch(users, f, k) && users[k] == r.value
    ensures r.None? <==> forall i | 0 <= i < |users| :: !Matches(users[i], f)
  {
    if |users| == 0 then None
    else if Matches(users[0], f) then
      assert IsFirstMatch(users, f, 0);
      Some(users[0])
    else
      var r := FindOne(users[1..], f);
      assert forall i | 1 <= i < |users| :: users[i] == users[1..][i - 1];
      if r.Some? then
        var k :| IsFirstMatch(users[1..], f, k) && users[1..][k] == r.value;
        assert IsFirstMatch(users, f, k + 1);
        r
      else r
  }

  /** There is only one first match. */
  lemma FirstMatchUnique(users: seq<User>, f: Filter, k1: int, k2: int)
    requires IsFirstMatch(users, f, k1) && IsFirstMatch(users, f, k2)
    ensures k1 == k2
  {
  }

  /** `findOne` yields the document at the first match, and nothing when there is none. */
  lemma FindOneFirst(users: seq<User>, f: Filter, k: int)
    requires IsFirstMatch(users, f, k)
    ensures FindOne(users, f) == Some(users[k])
  {
    var r := FindOne(users, f);
    var k' :| IsFirstMatch(users, f, k') && users[k'] == r.value;
    FirstMatchUnique(users, f, k, k');
  }

  /** At most one document matches `f`: what a unique index guarantees (emails are unique on sign-up, ids always). */
  predicate AtMostOne(users: seq<User>, f: Filter) {
    forall i, j | 0 <= i < |users| && 0 <= j < |users| :: Matches(users[i], f) && Matches(users[j], f) ==> i == j
  }

  /** Under uniqueness, `findOne` yields exactly the document matching the filter. */
  lemma {:induction false} FindOneUnique(users: seq<User>, f: Filter, u: User)
    requires AtMostOne(users, f)
    ensures FindOne(users, f) == Some(u) <==> u in users && Matches(u, f)
  {
    if u in users && Matches(u, f) {
      var r := FindOne(users, f);
      var k :| 0 <= k < |users| && users[k] == u;
      assert r.Some?;
      var j :| 0 <= j < |users| && users[j] == r.value;
      assert j == k;
    }
  }
}

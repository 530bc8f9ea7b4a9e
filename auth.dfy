/**
 * The account decision of start_rating_game (rating.py): register an unknown
 * nickname, welcome a known one whose stored hash matches, reject otherwise.
 * The password hash (SHA-256 hex digest in the source) is a parameter.
 */
module Auth {

  /** A stored password hash. */
  type Digest = string

  datatype Verdict = Registered | Welcomed | WrongPassword

  /** The verdict and the user map that results from it. */
  datatype Login = Login(verdict: Verdict, users: map<string, Digest>)

  function CheckLogin(users: map<string, Digest>, nickname: string, password: string, hash: string -> Digest): (r: Login)
    ensures r.verdict == Registered <==> nickname !in users
    ensures r.verdict == WrongPassword <==> nickname in users && users[nickname] != hash(password)
    ensures r.verdict == Registered ==> r.users == users[nickname := hash(password)]
    ensures r.verdict != Registered ==> r.users == users
  {
    var hashed := hash(password);
    if nickname in users then
      if users[nickname] != hashed then Login(WrongPassword, users)
      else Login(Welcomed, users)
    else
      Login(Registered, users[nickname := hashed])
  }

  /**
   * Accounts are never lost or altered: after any login attempt every known
   * nickname keeps its hash, and the only new key is the nickname tried.
   */
  lemma LoginKeepsAccounts(users: map<string, Digest>, nickname: string, password: string, hash: string -> Digest)
    ensures users.Keys <= CheckLogin(users, nickname, password, hash).users.Keys <= users.Keys + {nickname}
    ensures forall n | n in users :: CheckLogin(users, nickname, password, hash).users[n] == users[n]
  {
  }

  /**
   * After registering, the nickname logs in with the same password and is
   * rejected with any password whose hash differs.
   */
  lemma RegisteredThenLogin(users: map<string, Digest>, nickname: string, password: string, other: string, hash: string -> Digest)
    requires nickname !in users
    ensures var after := CheckLogin(users, nickname, password, hash).users;
      && CheckLogin(after, nickname, password, hash) == Login(Welcomed, after)
      && (hash(other) != hash(password) ==> CheckLogin(after, nickname, other, hash) == Login(WrongPassword, after))
  {
  }
}

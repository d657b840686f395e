/** Registration and login of base/views.py (`register_page`, `login_page`):
    how the submitted username and email are case-folded on the way into and
    out of the user table. */
module Accounts {
  import opened Text
  import opened Models
  import opened Http

  /** `e` with every character from index `n` on lower-cased. */
  function LowerFrom(e: string, n: nat): (r: string)
    requires n <= |e|
    ensures |r| == |e|
    ensures forall i :: 0 <= i < n ==> r[i] == e[i]
    ensures forall i :: n <= i < |e| ==> r[i] == LowerChar(e[i])
  {
    var tail := Lower(e[n..]);
    assert forall i :: n <= i < |e| ==> tail[i - n] == LowerChar(e[i]);
    e[..n] + tail
  }

  /** The framework's `normalize_email`, applied when the user form is
      cleaned: the domain after the last `@` is lower-cased, the local part
      is kept as typed. */
  function NormalizeEmail(e: string): (r: string)
    ensures |r| == |e|
    ensures '@' !in e ==> r == e
    ensures '@' in e ==> forall i :: 0 <= i < |e| - |AfterLast(e, '@')| ==> r[i] == e[i]
    ensures '@' in e ==> forall i :: |e| - |AfterLast(e, '@')| <= i < |e| ==> r[i] == LowerChar(e[i])
  {
    var domain := AfterLast(e, '@');
    if |domain| == |e| then e else LowerFrom(e, |e| - |domain|)
  }

  /** The fields of the registration form. */
  datatype SignUpForm = SignUpForm(name: string, username: string, email: string, password1: string, password2: string)

  /** Some account already holds this username or this email. */
  predicate Taken(users: map<Id, User>, username: string, email: string)
  {
    exists v :: v in users && (users[v].username == username || users[v].email == email)
  }

  /** `user.save()` after a valid form, with the username lower-cased and the
      email stored as `email`; `None` when a unique column rejects the row. */
  function SignUpWith(db: Db, f: SignUpForm, email: string): (r: Option<Db>)
    ensures r.None? <==> Taken(db.users, Lower(f.username), email)
    ensures r.Some? ==>
      && r.value.users.Keys == db.users.Keys + {db.nextId}
      && r.value.users[db.nextId].username == Lower(f.username)
      && r.value.users[db.nextId].email == email
      && r.value.users[db.nextId].password == f.password1
      && r.value.users[db.nextId].balance == DefaultBalance
      && r.value == db.(users := r.value.users, nextId := db.nextId + 1)
  {
    var username := Lower(f.username);
    if Taken(db.users, username, email) then None
    else Some(db.(users := db.users[db.nextId := NewUser(username, email, f.name, f.password1)],
                  nextId := db.nextId + 1))
  }

  /** A successful registration keeps the store valid: the new key is
      fresh, the other accounts are untouched and usernames and emails stay
      unique. */
  lemma SignUpWithKeepsValid(db: Db, f: SignUpForm, email: string)
    requires Valid(db) && SignUpWith(db, f, email).Some?
    ensures var r := SignUpWith(db, f, email).value;
      && db.nextId !in db.users
      && (forall v :: v in db.users ==> r.users[v] == db.users[v])
      && Valid(r)
  {
    var r := SignUpWith(db, f, email).value;
    assert db.nextId !in db.users;
    assert r.users == db.users[db.nextId := NewUser(Lower(f.username), email, f.name, f.password1)];
  }

  /** Registration as the code does it: only the framework's normalisation
      is applied to the email. */
  function SignUpAsWritten(db: Db, f: SignUpForm): (r: Option<Db>)
    ensures r.None? <==> Taken(db.users, Lower(f.username), NormalizeEmail(f.email))
    ensures r.Some? ==> db.nextId in r.value.users && r.value.users[db.nextId].email == NormalizeEmail(f.email)
  {
    SignUpWith(db, f, NormalizeEmail(f.email))
  }

  /** Registration storing the email case-folded, the way `login_page` looks
      it up. */
  function SignUp(db: Db, f: SignUpForm): (r: Option<Db>)
    ensures r.None? <==> Taken(db.users, Lower(f.username), Lower(f.email))
    ensures r.Some? ==>
      && db.nextId in r.value.users
      && r.value.users[db.nextId].email == Lower(f.email)
      && Lower(r.value.users[db.nextId].email) == r.value.users[db.nextId].email
  {
    LowerIdempotent(f.email);
    SignUpWith(db, f, Lower(f.email))
  }

  /** `authenticate(email=..., password=...)`: the account with exactly this
      email, if its stored credential matches. */
  function Authenticate(db: Db, email: string, password: string): (r: Option<Id>)
    requires Valid(db)
    ensures r.Some? <==>
      exists u :: u in db.users && db.users[u].email == email && db.users[u].password == password
    ensures r.Some? ==>
      r.value in db.users && db.users[r.value].email == email && db.users[r.value].password == password
  {
    var found := Filter(Rows(db.users, db.nextId),
                        u => u in db.users && db.users[u].email == email && db.users[u].password == password);
    if found == [] then None
    else
      assert found[0] in found;
      Some(found[0])
  }

  /** What `login_page` answers, and the user the session is logged in as
      afterwards. */
  datatype LoginResult = LoginResult(response: Response, session: Option<Id>)

  /** `login_page`: a logged-in user is sent home; a POST lower-cases the
      email before authenticating. */
  function Login(db: Db, current: Option<Id>, verb: HttpMethod, email: string, password: string): (r: LoginResult)
    requires Valid(db)
    ensures current.Some? ==> r == LoginResult(Redirect(Home), current)
    ensures current.None? && verb != Post ==> r == LoginResult(Render(LoginRegister), None)
    ensures current.None? && verb == Post ==>
      && (r.session.Some? <==>
            exists u :: u in db.users && db.users[u].email == Lower(email) && db.users[u].password == password)
      && (r.session.Some? ==>
            && r.response == Redirect(Home)
            && r.session.value in db.users
            && db.users[r.session.value].email == Lower(email))
      && (r.session.None? ==> r.response == Render(LoginRegister))
  {
    if current.Some? then LoginResult(Redirect(Home), current)
    else if verb != Post then LoginResult(Render(LoginRegister), None)
    else
      match Authenticate(db, Lower(email), password)
      case Some(u) => LoginResult(Redirect(Home), Some(u))
      case None => LoginResult(Render(LoginRegister), None)
  }

  /** With the email folded on registration, whoever registers can log in
      with the same email and password, as the account just created. */
  lemma SignUpThenLogIn(db: Db, f: SignUpForm)
    requires Valid(db) && SignUp(db, f).Some?
    ensures (SignUpWithKeepsValid(db, f, Lower(f.email));
             Login(SignUp(db, f).value, None, Post, f.email, f.password1) == LoginResult(Redirect(Home), Some(db.nextId)))
  {
    var db' := SignUp(db, f).value;
    SignUpWithKeepsValid(db, f, Lower(f.email));
    LowerIdempotent(f.email);
    assert db'.users[db.nextId].email == Lower(Lower(f.email));
    var r := Authenticate(db', Lower(f.email), f.password1);
    assert r.Some?;
    assert r.value == db.nextId;
  }

  /** The framework's normalisation keeps a capital first letter of the
      local part, which folding removes. */
  lemma NormalizeKeepsCapital(e: string)
    requires '@' in e && 'A' <= e[0] <= 'Z'
    ensures NormalizeEmail(e) != Lower(e)
  {
    AfterLastSplits(e, '@');
    assert NormalizeEmail(e)[0] == e[0] != Lower(e)[0];
  }

  /** As written, an account whose email starts with a capital letter can
      never be logged into with that email and its password: login folds
      the email, the stored one keeps its local part as typed, and the
      lookup is exact. */
  lemma SignUpAsWrittenLocksOut(db: Db, f: SignUpForm)
    requires Valid(db) && SignUpAsWritten(db, f).Some?
    requires '@' in f.email && 'A' <= f.email[0] <= 'Z'
    ensures (SignUpWithKeepsValid(db, f, NormalizeEmail(f.email));
             Login(SignUpAsWritten(db, f).value, None, Post, f.email, f.password1).session != Some(db.nextId))
  {
    var db' := SignUpAsWritten(db, f).value;
    SignUpWithKeepsValid(db, f, NormalizeEmail(f.email));
    NormalizeKeepsCapital(f.email);
    assert db'.users[db.nextId].email != Lower(f.email);
  }
}

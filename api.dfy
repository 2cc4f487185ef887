/** The REST endpoints of api/views.py: registration and login with their
    validation order, and the newest-first sermon lists `public` and
    `recent`. Tokens are the user ids holding one; passwords are stored as
    given (hashing is not modelled). */
module Api {
  import opened Common
  import opened Models
  import opened Sorting
  import opened Provisioning

  /** A response: its HTTP status and either the user it describes or an error. */
  datatype ApiReply = UserReply(status: nat, userId: nat, username: string, email: string)
                    | ErrorReply(status: nat, error: string)

  const CREATED: nat := 201
  const OK: nat := 200
  const BAD_REQUEST: nat := 400

  const FIELDS_REQUIRED: string := "Username, email and password are required"
  const USERNAME_TAKEN: string := "Username already exists"
  const EMAIL_TAKEN: string := "Email already exists"
  const CREDENTIALS_REQUIRED: string := "Username and password are required"
  const INVALID_CREDENTIALS: string := "Invalid credentials"

  /** `request.data.get(name)` is truthy: present and not empty. */
  predicate Given(field: Option<string>) {
    field.Some? && field.value != ""
  }

  predicate UsernameTaken(users: seq<User>, username: string) {
    exists i :: 0 <= i < |users| && users[i].username == username
  }

  predicate EmailTaken(users: seq<User>, email: string) {
    exists i :: 0 <= i < |users| && users[i].email == email
  }

  /** `register_user`'s checks, in their order; `None` lets the user be created. */
  function RegistrationError(users: seq<User>, username: Option<string>, email: Option<string>,
                             password: Option<string>): (r: Option<string>)
    ensures r.None? <==> Given(username) && Given(email) && Given(password)
                         && !UsernameTaken(users, username.value) && !EmailTaken(users, email.value)
    ensures !(Given(username) && Given(email) && Given(password)) ==> r == Some(FIELDS_REQUIRED)
    ensures Given(username) && Given(email) && Given(password) && UsernameTaken(users, username.value) ==>
              r == Some(USERNAME_TAKEN)
    ensures (Given(username) && Given(email) && Given(password) && !UsernameTaken(users, username.value)
             && EmailTaken(users, email.value)) ==> r == Some(EMAIL_TAKEN)
  {
    if !Given(username) || !Given(password) || !Given(email) then Some(FIELDS_REQUIRED)
    else if UsernameTaken(users, username.value) then Some(USERNAME_TAKEN)
    else if EmailTaken(users, email.value) then Some(EMAIL_TAKEN)
    else None
  }

  /** `register_user`: a refused request is 400 and stores nothing; otherwise
      one user is appended with its email normalised as `create_user` does,
      it gets a token, and the reply (201) describes the stored user. The
      duplicate-email check compares the address as given with the stored,
      normalised ones. */
  method Register(db: Database, username: Option<string>, email: Option<string>, password: Option<string>)
    returns (reply: ApiReply)
    requires db.Valid()
    modifies db
    ensures db.Valid()
    ensures RegistrationError(old(db.users), username, email, password).Some? ==>
              reply == ErrorReply(BAD_REQUEST, RegistrationError(old(db.users), username, email, password).value)
              && db.users == old(db.users) && db.tokens == old(db.tokens)
    ensures RegistrationError(old(db.users), username, email, password).None? ==>
              var id := |old(db.users)|;
              && db.users == old(db.users) + [User(id, username.value, NormalizeEmail(email.value), password.value, "", "")]
              && db.tokens == old(db.tokens) + {id}
              && reply == UserReply(CREATED, id, username.value, NormalizeEmail(email.value))
    ensures db.members == old(db.members) && db.admins == old(db.admins) && db.units == old(db.units)
    ensures db.cells == old(db.cells) && db.families == old(db.families)
  {
    var error := RegistrationError(db.users, username, email, password);
    if error.Some? {
      return ErrorReply(BAD_REQUEST, error.value);
    }
    var id := |db.users|;
    var user := User(id, username.value, NormalizeEmail(email.value), password.value, "", "");
    db.users := db.users + [user];
    db.tokens := db.tokens + {id};
    reply := UserReply(CREATED, id, user.username, user.email);
  }

  /** The user `User.objects.get_by_natural_key(username)` finds: the first
      with that name (the username column is unique, so it is the only one). */
  function UserNamed(users: seq<User>, username: string): (r: Option<nat>)
    ensures r.None? <==> !UsernameTaken(users, username)
    ensures r.Some? ==> r.value < |users| && users[r.value].username == username
                        && forall i :: 0 <= i < r.value ==> users[i].username != username
  {
    if users == [] then None
    else if users[|users| - 1].username == username && UserNamed(users[..|users| - 1], username).None? then
      Some(|users| - 1)
    else UserNamed(users[..|users| - 1], username)
  }

  /** `authenticate(username=..., password=...)`: the user of that name, when
      the password is its own. */
  function Authenticate(users: seq<User>, username: string, password: string): (r: Option<nat>)
    ensures r.Some? ==> r.value < |users| && users[r.value].username == username && users[r.value].password == password
    ensures r.None? <==> UserNamed(users, username).None? || users[UserNamed(users, username).value].password != password
  {
    var named := UserNamed(users, username);
    if named.Some? && users[named.value].password == password then named else None
  }

  /** `login_user`: both fields are required (400); matching credentials get
      the user's token (created if missing) and a 200 reply describing it;
      anything else is 400. Only the token table can change. */
  method Login(db: Database, username: Option<string>, password: Option<string>) returns (reply: ApiReply)
    requires db.Valid()
    modifies db
    ensures db.Valid()
    ensures !(Given(username) && Given(password)) ==>
              reply == ErrorReply(BAD_REQUEST, CREDENTIALS_REQUIRED) && db.tokens == old(db.tokens)
    ensures Given(username) && Given(password) && Authenticate(db.users, username.value, password.value).None? ==>
              reply == ErrorReply(BAD_REQUEST, INVALID_CREDENTIALS) && db.tokens == old(db.tokens)
    ensures Given(username) && Given(password) && Authenticate(db.users, username.value, password.value).Some? ==>
              var id := Authenticate(db.users, username.value, password.value).value;
              reply == UserReply(OK, id, db.users[id].username, db.users[id].email)
              && db.tokens == old(db.tokens) + {id}
    ensures db.users == old(db.users) && db.members == old(db.members) && db.admins == old(db.admins)
    ensures db.units == old(db.units) && db.cells == old(db.cells) && db.families == old(db.families)
  {
    if !Given(username) || !Given(password) {
      return ErrorReply(BAD_REQUEST, CREDENTIALS_REQUIRED);
    }
    var found := Authenticate(db.users, username.value, password.value);
    if found.None? {
      return ErrorReply(BAD_REQUEST, INVALID_CREDENTIALS);
    }
    var id := found.value;
    db.tokens := db.tokens + {id};
    reply := UserReply(OK, id, db.users[id].username, db.users[id].email);
  }

  /** A user is never added twice: registering the same username again is refused. */
  method RegisterTwiceRefused(db: Database, username: string, email: string, password: string)
    returns (first: ApiReply, second: ApiReply)
    requires db.Valid() && username != "" && email != "" && password != ""
    requires !UsernameTaken(db.users, username) && !EmailTaken(db.users, email)
    modifies db
    ensures first.UserReply? && first.status == CREATED
    ensures second == ErrorReply(BAD_REQUEST, USERNAME_TAKEN)
    ensures |db.users| == |old(db.users)| + 1
  {
    first := Register(db, Some(username), Some(email), Some(password));
    assert db.users[|db.users| - 1].username == username;
    second := Register(db, Some(username), Some(email), Some(password));
  }

  /** A fresh registration can log in at once and gets the new user back,
      with the normalised email both times. */
  method RegisterThenLogin(db: Database, username: string, email: string, password: string)
    returns (registered: ApiReply, loggedIn: ApiReply)
    requires db.Valid() && username != "" && email != "" && password != ""
    requires !UsernameTaken(db.users, username) && !EmailTaken(db.users, email)
    modifies db
    ensures registered.UserReply? && registered == UserReply(CREATED, registered.userId, username, NormalizeEmail(email))
    ensures loggedIn == UserReply(OK, registered.userId, username, NormalizeEmail(email))
  {
    registered := Register(db, Some(username), Some(email), Some(password));
    NewUserAuthenticates(old(db.users), db.users[registered.userId]);
    loggedIn := Login(db, Some(username), Some(password));
  }

  /** A user appended under a name nobody has is the one its own name and
      password authenticate. */
  lemma {:induction false} NewUserAuthenticates(users: seq<User>, u: User)
    requires !UsernameTaken(users, u.username)
    ensures Authenticate(users + [u], u.username, u.password) == Some(|users|)
  {
    assert (users + [u])[..|users|] == users;
  }

  // ---------------------------------------------------------------------------
  // SermonViewSet.public and .recent
  // ---------------------------------------------------------------------------

  /** The `Sermon` fields the lists depend on. */
  datatype Sermon = Sermon(id: nat, assembly: nat, title: string, preacher: string, sermonDate: Date)

  /** `order_by('-sermon_date')`: newer first. */
  predicate NewerOrSame(a: Sermon, b: Sermon) {
    AtMost(b.sermonDate, a.sermonDate)
  }

  lemma {:induction false} NewerOrSameIsTotalPreorder()
    ensures TotalPreorder(NewerOrSame)
  {
    forall a: Sermon, b: Sermon, c: Sermon
      ensures NewerOrSame(a, b) || NewerOrSame(b, a)
      ensures NewerOrSame(a, b) && NewerOrSame(b, c) ==> NewerOrSame(a, c)
    {
      BeforeIsStrictTotalOrder(a.sermonDate, b.sermonDate, c.sermonDate);
      BeforeIsStrictTotalOrder(c.sermonDate, b.sermonDate, a.sermonDate);
    }
  }

  const PUBLIC_LIMIT: nat := 5
  const RECENT_LIMIT: nat := 10

  function PublicSermons(sermons: seq<Sermon>): seq<Sermon> {
    TopK(sermons, PUBLIC_LIMIT, NewerOrSame)
  }

  function RecentSermons(sermons: seq<Sermon>): seq<Sermon> {
    TopK(sermons, RECENT_LIMIT, NewerOrSame)
  }

  /** The `k` newest sermons: newest first, at most `k` (exactly `k` when
      the table has that many), drawn from the table, and none left out is
      newer than one shown. */
  lemma {:induction false} NewestFirst(sermons: seq<Sermon>, k: nat)
    ensures var top := TopK(sermons, k, NewerOrSame);
            && |top| <= k && (|sermons| >= k ==> |top| == k)
            && SortedBy(top, NewerOrSame)
            && (forall s :: s in top ==> s in sermons)
            && (forall s, x :: s in top && x in sermons && x !in top ==> !Before(s.sermonDate, x.sermonDate))
  {
    NewerOrSameIsTotalPreorder();
    var top := TopK(sermons, k, NewerOrSame);
    TopKSelects(sermons, k, NewerOrSame);
    TopKIsLeast(sermons, k, NewerOrSame);
    forall s, x | s in top && x in sermons && x !in top
      ensures !Before(s.sermonDate, x.sermonDate)
    {
      assert NewerOrSame(s, x);
    }
  }

  /** `public`: the five newest sermons, newest first. */
  lemma {:induction false} PublicSermonsSelect(sermons: seq<Sermon>)
    ensures |PublicSermons(sermons)| <= PUBLIC_LIMIT
    ensures |sermons| >= PUBLIC_LIMIT ==> |PublicSermons(sermons)| == PUBLIC_LIMIT
    ensures SortedBy(PublicSermons(sermons), NewerOrSame)
    ensures forall s :: s in PublicSermons(sermons) ==> s in sermons
    ensures forall s, x :: s in PublicSermons(sermons) && x in sermons && x !in PublicSermons(sermons) ==>
              !Before(s.sermonDate, x.sermonDate)
  {
    NewestFirst(sermons, PUBLIC_LIMIT);
  }

  /** `recent`: the ten newest sermons, newest first. */
  lemma {:induction false} RecentSermonsSelect(sermons: seq<Sermon>)
    ensures |RecentSermons(sermons)| <= RECENT_LIMIT
    ensures |sermons| >= RECENT_LIMIT ==> |RecentSermons(sermons)| == RECENT_LIMIT
    ensures SortedBy(RecentSermons(sermons), NewerOrSame)
    ensures forall s :: s in RecentSermons(sermons) ==> s in sermons
    ensures forall s, x :: s in RecentSermons(sermons) && x in sermons && x !in RecentSermons(sermons) ==>
              !Before(s.sermonDate, x.sermonDate)
  {
    NewestFirst(sermons, RECENT_LIMIT);
  }

  /** The public list is the head of the recent one. */
  lemma {:induction false} PublicIsHeadOfRecent(sermons: seq<Sermon>)
    ensures PublicSermons(sermons) <= RecentSermons(sermons)
  {
  }
}

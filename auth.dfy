/** Account creation and login: the e-mail pattern, the checks in front of the insert into
    the users table, and the lookup by e-mail. The token the routes sign is left out. */
module Auth {
  import opened Wrappers
  import opened Text
  import opened Store

  // ---------------------------------------------------------------------------------------
  // The pattern /^[^\s@]+@[^\s@]+\.[^\s@]+$/

  /** A non-empty run of `[^\s@]`. */
  predicate Plain(t: string) {
    |t| > 0 && forall k :: 0 <= k < |t| ==> !IsSpace(t[k]) && t[k] != '@'
  }

  /** The language of the pattern: some split of `s` into three plain runs, the first two
      separated by `@` and the last two by a literal dot. */
  ghost predicate PatternMatches(s: string) {
    exists at, dot :: 0 <= at < dot < |s| && s[at] == '@' && s[dot] == '.'
      && Plain(s[..at]) && Plain(s[at + 1..dot]) && Plain(s[dot + 1..])
  }

  /** The check the routes perform, stated structurally: no white space, a non-empty local part
      ending at the only `@`, and a dot in the domain with a character on each side. */
  predicate IsValidEmail(s: string) {
    && (forall k :: 0 <= k < |s| ==> !IsSpace(s[k]))
    && exists at :: 0 < at < |s| && s[at] == '@'
         && (forall k :: 0 <= k < |s| && s[k] == '@' ==> k == at)
         && exists dot :: at + 1 < dot < |s| - 1 && s[dot] == '.'
  }

  /** The structural check accepts exactly the strings the pattern matches. */
  lemma EmailCheckIsPattern(s: string)
    ensures IsValidEmail(s) <==> PatternMatches(s)
  {
    if IsValidEmail(s) {
      var at :| 0 < at < |s| && s[at] == '@'
         && (forall k :: 0 <= k < |s| && s[k] == '@' ==> k == at)
         && exists dot :: at + 1 < dot < |s| - 1 && s[dot] == '.';
      var dot :| at + 1 < dot < |s| - 1 && s[dot] == '.';
      PlainRun(s, 0, at);
      PlainRun(s, at + 1, dot);
      PlainRun(s, dot + 1, |s|);
    }
    if PatternMatches(s) {
      var at, dot :| 0 <= at < dot < |s| && s[at] == '@' && s[dot] == '.'
        && Plain(s[..at]) && Plain(s[at + 1..dot]) && Plain(s[dot + 1..]);
      PatternParts(s, at, dot);
    }
  }

  /** A stretch of `s` free of white space and `@` is a plain run. */
  lemma PlainRun(s: string, lo: int, hi: int)
    requires 0 <= lo < hi <= |s|
    requires forall k :: lo <= k < hi ==> !IsSpace(s[k]) && s[k] != '@'
    ensures Plain(s[lo..hi])
  {
    var t := s[lo..hi];
    forall k | 0 <= k < |t| ensures !IsSpace(t[k]) && t[k] != '@' {
      assert t[k] == s[lo + k];
    }
  }

  lemma PatternParts(s: string, at: int, dot: int)
    requires 0 <= at < dot < |s| && s[at] == '@' && s[dot] == '.'
    requires Plain(s[..at]) && Plain(s[at + 1..dot]) && Plain(s[dot + 1..])
    ensures IsValidEmail(s)
  {
    forall k | 0 <= k < |s| ensures !IsSpace(s[k]) && (s[k] == '@' ==> k == at) {
      if k < at {
        assert s[k] == s[..at][k];
      } else if at < k < dot {
        assert s[k] == s[at + 1..dot][k - at - 1];
      } else if dot < k {
        assert s[k] == s[dot + 1..][k - dot - 1];
      }
    }
    assert 0 < at && at + 1 < dot < |s| - 1;
  }

  // ---------------------------------------------------------------------------------------
  // The users table

  datatype UserView = UserView(id: int, fullname: string, email: string, role: string)

  function View(u: User): UserView { UserView(u.id, u.fullname, u.email, u.role) }

  /** `SELECT * FROM users WHERE email = ?` read with `db.get`: the first row with that e-mail. */
  function FindByEmail(users: seq<User>, email: string): (r: Option<User>)
    ensures r.None? <==> forall k :: 0 <= k < |users| ==> users[k].email != email
    ensures r.Some? ==> exists k :: 0 <= k < |users| && users[k] == r.value && users[k].email == email
                          && forall j :: 0 <= j < k ==> users[j].email != email
  {
    if users == [] then None
    else if users[0].email == email then Some(users[0])
    else
      var r := FindByEmail(users[1..], email);
      assert forall k :: 0 < k < |users| ==> users[k] == users[1..][k - 1];
      if r.Some? then
        var k :| 0 <= k < |users[1..]| && users[1..][k] == r.value && users[1..][k].email == email
                 && forall j :: 0 <= j < k ==> users[1..][j].email != email;
        assert users[k + 1] == r.value;
        r
      else r
  }

  /** No two users share an e-mail: what the duplicate check keeps (the e-mail column is also
      declared UNIQUE). */
  predicate UniqueEmails(users: seq<User>) {
    forall a, b :: 0 <= a < b < |users| ==> users[a].email != users[b].email
  }

  /** The checks of `/signup` and `/create-admin`, in order; `None` lets the insert go ahead.
      A missing or empty body field is the empty string. */
  function RegistrationError(users: seq<User>, fullname: string, email: string): (e: Option<string>)
    ensures e.None? <==> fullname != "" && email != "" && PatternMatches(email)
                         && forall k :: 0 <= k < |users| ==> users[k].email != email
    ensures (fullname == "" || email == "") ==> e == Some("Full name and email are required")
    ensures fullname != "" && email != "" && !PatternMatches(email) ==> e == Some("Invalid email format")
    ensures (fullname != "" && email != "" && PatternMatches(email)
             && exists k :: 0 <= k < |users| && users[k].email == email) ==> e == Some("Email already registered")
  {
    EmailCheckIsPattern(email);
    if fullname == "" || email == "" then Some("Full name and email are required")
    else if !IsValidEmail(email) then Some("Invalid email format")
    else if FindByEmail(users, email).Some? then Some("Email already registered")
    else None
  }

  /** A user whose e-mail is new can be added without breaking uniqueness. */
  lemma AppendKeepsEmailsUnique(users: seq<User>, u: User)
    requires UniqueEmails(users)
    requires forall k :: 0 <= k < |users| ==> users[k].email != u.email
    ensures UniqueEmails(users + [u])
  {
    var us := users + [u];
    forall a, b | 0 <= a < b < |us| ensures us[a].email != us[b].email {
      if b < |users| {
        assert us[a] == users[a] && us[b] == users[b];
      } else {
        assert us[a] == users[a];
      }
    }
  }

  /** The shared body of `/signup` and `/create-admin`: the checks, then the insert of one user
      with the given role. A rejected request leaves the store as it was. */
  method Register(db: Database, fullname: string, email: string, role: string, now: int) returns (reply: Reply<UserView>)
    modifies db
    ensures RegistrationError(old(db.users), fullname, email).Some? ==>
      reply == Fail(400, RegistrationError(old(db.users), fullname, email).value) && unchanged(db)
    ensures RegistrationError(old(db.users), fullname, email).None? ==>
      var id := NextId(UserIds(old(db.users)));
      && db.users == old(db.users) + [User(id, fullname, email, role, now)]
      && db.questions == old(db.questions) && db.descriptions == old(db.descriptions)
      && db.responses == old(db.responses) && db.details == old(db.details)
      && reply == Ok(201, UserView(id, fullname, email, role))
    ensures UniqueEmails(old(db.users)) ==> UniqueEmails(db.users)
  {
    var error := RegistrationError(db.users, fullname, email);
    if error.Some? {
      return Fail(400, error.value);
    }
    var id := NextId(UserIds(db.users));
    if UniqueEmails(db.users) {
      AppendKeepsEmailsUnique(db.users, User(id, fullname, email, role, now));
    }
    db.users := db.users + [User(id, fullname, email, role, now)];
    reply := Ok(201, UserView(id, fullname, email, role));
  }

  /** `POST /signup`: as Register, the new user's role being `user`. */
  method Signup(db: Database, fullname: string, email: string, now: int) returns (reply: Reply<UserView>)
    modifies db
    ensures RegistrationError(old(db.users), fullname, email).Some? ==>
      reply == Fail(400, RegistrationError(old(db.users), fullname, email).value) && unchanged(db)
    ensures RegistrationError(old(db.users), fullname, email).None? ==>
      var id := NextId(UserIds(old(db.users)));
      && db.users == old(db.users) + [User(id, fullname, email, UserRole, now)]
      && db.questions == old(db.questions) && db.descriptions == old(db.descriptions)
      && db.responses == old(db.responses) && db.details == old(db.details)
      && reply == Ok(201, UserView(id, fullname, email, UserRole))
    ensures UniqueEmails(old(db.users)) ==> UniqueEmails(db.users)
  {
    reply := Register(db, fullname, email, UserRole, now);
  }

  /** `POST /login`: an empty e-mail is 400, an unknown one 404; otherwise the stored id, name,
      e-mail and role of the (first) user with that e-mail. */
  function Login(users: seq<User>, email: string): (r: Reply<UserView>)
    ensures email == "" ==> r == Fail(400, "Email is required")
    ensures email != "" && (forall k :: 0 <= k < |users| ==> users[k].email != email) ==>
              r == Fail(404, "No user found, please Sign up")
    ensures r.Ok? ==> r.status == 200 && exists k :: (0 <= k < |users| && users[k].email == email
                        && r.body == View(users[k]) && forall j :: 0 <= j < k ==> users[j].email != email)
    ensures email != "" && (exists k :: 0 <= k < |users| && users[k].email == email) ==> r.Ok?
  {
    if email == "" then Fail(400, "Email is required")
    else
      match FindByEmail(users, email)
      case None => Fail(404, "No user found, please Sign up")
      case Some(u) => Ok(200, View(u))
  }

  /** With unique e-mails, login returns the one user holding the e-mail. */
  lemma LoginFindsTheUser(users: seq<User>, k: int)
    requires UniqueEmails(users) && 0 <= k < |users| && users[k].email != ""
    ensures Login(users, users[k].email) == Ok(200, View(users[k]))
  {
  }

  /** Signing up and then logging in with the same e-mail returns the account just created. */
  lemma SignupThenLogin(users: seq<User>, fullname: string, email: string, role: string, now: int)
    requires RegistrationError(users, fullname, email).None?
    ensures var id := NextId(UserIds(users));
      Login(users + [User(id, fullname, email, role, now)], email) == Ok(200, UserView(id, fullname, email, role))
  {
    var u := User(NextId(UserIds(users)), fullname, email, role, now);
    var us := users + [u];
    assert us[|users|] == u;
    forall j | 0 <= j < |users| ensures us[j].email != email {
      assert us[j] == users[j];
    }
  }
}

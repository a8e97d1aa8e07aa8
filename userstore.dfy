/**
 * The user store `Database`: a connection state (client, database and
 * collection handles) and the `users` collection, with the queries and
 * single-field updates the web application makes. A MongoDB `find_one` is
 * the first record in collection order that matches the filter, and
 * `update_one` changes that record.
 */
module UserStore {
  import opened Common

  /** One document of the `users` collection. */
  datatype User = User(username: string, email: string, password: string, verificationStatus: string)

  /** A `[success, message]` reply. */
  datatype Reply = Reply(ok: bool, message: string)

  const Verified := "verified"
  const NotConnectedMessage := "Database not connected."
  const EmailTakenMessage := "Email is already registered."
  const RegisteredMessage := "User registered successfully."
  const LoginRejectedMessage := "User not found, password mismatch, or email is not verified."

  /** The position of the first record that matches, as `find_one` finds it. */
  function FirstMatch(users: seq<User>, matches: User -> bool): (r: Option<nat>)
    ensures r.Some? ==> r.value < |users| && matches(users[r.value])
    ensures r.Some? ==> forall j :: 0 <= j < r.value ==> !matches(users[j])
    ensures r.None? <==> forall j :: 0 <= j < |users| ==> !matches(users[j])
  {
    if users == [] then None
    else if matches(users[0]) then Some(0)
    else
      match FirstMatch(users[1..], matches)
      case None => None
      case Some(i) => Some(i + 1)
  }

  /** The filter `{"email": email}`. */
  function HasEmail(email: string): User -> bool {
    (u: User) => u.email == email
  }

  /** The filter `{"email": email, "verification_status": "verified"}`. */
  function IsVerifiedWith(email: string): User -> bool {
    (u: User) => u.email == email && u.verificationStatus == Verified
  }

  /** The filter `{"email": email, "password": password, "verification_status": "verified"}`. */
  function IsLoginFor(email: string, password: string): User -> bool {
    (u: User) => u.email == email && u.password == password && u.verificationStatus == Verified
  }

  predicate EmailTaken(users: seq<User>, email: string) {
    exists i :: 0 <= i < |users| && users[i].email == email
  }

  /** No two records share an email address. */
  ghost predicate UniqueEmails(users: seq<User>) {
    forall i, j :: 0 <= i < j < |users| ==> users[i].email != users[j].email
  }

  /** `check_verification_status` on a working connection: the status of the first record with that email. */
  function StatusOf(users: seq<User>, email: string): (r: Option<string>)
    ensures r.None? <==> !EmailTaken(users, email)
    ensures r.Some? ==>
      exists i :: 0 <= i < |users| && users[i].email == email &&
        users[i].verificationStatus == r.value && forall j :: 0 <= j < i ==> users[j].email != email
  {
    match FirstMatch(users, HasEmail(email))
    case None => None
    case Some(i) => Some(users[i].verificationStatus)
  }

  /** `get_user` on a working connection: the password of the first verified record with that email. */
  function VerifiedPassword(users: seq<User>, email: string): (r: Option<string>)
    ensures r.None? <==> forall i :: 0 <= i < |users| && users[i].email == email ==> users[i].verificationStatus != Verified
    ensures r.Some? ==>
      exists i :: 0 <= i < |users| && users[i].email == email &&
        users[i].verificationStatus == Verified && users[i].password == r.value &&
        forall j :: 0 <= j < i ==> !(users[j].email == email && users[j].verificationStatus == Verified)
  {
    match FirstMatch(users, IsVerifiedWith(email))
    case None => None
    case Some(i) => Some(users[i].password)
  }

  /** `get_user_login` on a working connection: some verified record has this email and password. */
  predicate CanLogIn(users: seq<User>, email: string, password: string): (r: bool)
    ensures r <==> exists i :: 0 <= i < |users| && users[i].email == email && users[i].password == password &&
                              users[i].verificationStatus == Verified
  {
    FirstMatch(users, IsLoginFor(email, password)).Some?
  }

  /** `update_one({"email": email}, {"$set": ...})`: apply `change` to the first record with that email. */
  function UpdateFirst(users: seq<User>, email: string, change: User -> User): (r: seq<User>)
    ensures |r| == |users|
    ensures !EmailTaken(users, email) ==> r == users
    ensures EmailTaken(users, email) ==>
      exists i :: 0 <= i < |users| && users[i].email == email &&
        (forall j :: 0 <= j < i ==> users[j].email != email) && r == users[i := change(users[i])]
  {
    match FirstMatch(users, HasEmail(email))
    case None => users
    case Some(i) => users[i := change(users[i])]
  }

  /** `update_verification_status` on a working connection. */
  function SetStatus(users: seq<User>, email: string, status: string): seq<User> {
    UpdateFirst(users, email, (u: User) => u.(verificationStatus := status))
  }

  /** `update_user_password` on a working connection. */
  function SetPassword(users: seq<User>, email: string, password: string): seq<User> {
    UpdateFirst(users, email, (u: User) => u.(password := password))
  }

  /** Two collections whose records match two filters alike have their first match at the same place. */
  lemma FirstMatchAgrees(s: seq<User>, t: seq<User>, p: User -> bool, q: User -> bool)
    requires |s| == |t|
    requires forall j :: 0 <= j < |s| ==> (p(s[j]) <==> q(t[j]))
    ensures FirstMatch(s, p) == FirstMatch(t, q)
  {

  }

  /** A status update changes the status of at most one record, the first with that email, and nothing else. */
  lemma SetStatusTouchesOneField(users: seq<User>, email: string, status: string)
    ensures var r := SetStatus(users, email, status);
      |r| == |users| &&
      (forall i :: 0 <= i < |users| ==>
        r[i].username == users[i].username && r[i].email == users[i].email && r[i].password == users[i].password) &&
      (forall i :: 0 <= i < |users| && r[i] != users[i] ==>
        FirstMatch(users, HasEmail(email)) == Some(i) && r[i].verificationStatus == status)
  {
  }

  /** A password update changes the password of at most one record, the first with that email, and nothing else. */
  lemma SetPasswordTouchesOneField(users: seq<User>, email: string, password: string)
    ensures var r := SetPassword(users, email, password);
      |r| == |users| &&
      (forall i :: 0 <= i < |users| ==>
        r[i].username == users[i].username && r[i].email == users[i].email &&
        r[i].verificationStatus == users[i].verificationStatus) &&
      (forall i :: 0 <= i < |users| && r[i] != users[i] ==>
        FirstMatch(users, HasEmail(email)) == Some(i) && r[i].password == password)
  {
  }

  /** Neither update touches an email address, so unique emails stay unique. */
  lemma UpdatesKeepEmailsUnique(users: seq<User>, email: string, status: string, password: string)
    requires UniqueEmails(users)
    ensures UniqueEmails(SetStatus(users, email, status))
    ensures UniqueEmails(SetPassword(users, email, password))
  {

  }

  /** After a status update, `check_verification_status` reads the new status for that email and the old one for any other. */
  lemma StatusAfterUpdate(users: seq<User>, email: string, status: string, other: string)
    ensures EmailTaken(users, email) ==> StatusOf(SetStatus(users, email, status), email) == Some(status)
    ensures other != email ==> StatusOf(SetStatus(users, email, status), other) == StatusOf(users, other)
  {
    SetStatusTouchesOneField(users, email, status);
    var r := SetStatus(users, email, status);
    var m := FirstMatch(users, HasEmail(email));
    if m.Some? {
      assert r[m.value].email == email;
    }
    if other != email {
      FirstMatchAgrees(users, r, HasEmail(other), HasEmail(other));
    }
  }

  /** Marking a registered email as verified makes `get_user` return that record's password. */
  lemma VerifyThenGetUser(users: seq<User>, email: string)
    requires EmailTaken(users, email)
    ensures VerifiedPassword(SetStatus(users, email, Verified), email)
      == Some(users[FirstMatch(users, HasEmail(email)).value].password)
  {
    var i := FirstMatch(users, HasEmail(email)).value;
    var r := SetStatus(users, email, Verified);
    assert r == users[i := users[i].(verificationStatus := Verified)];
    assert IsVerifiedWith(email)(r[i]);
    assert forall j :: 0 <= j < i ==> !IsVerifiedWith(email)(r[j]);
    var k := FirstMatch(r, IsVerifiedWith(email)).value;
    assert k == i;
  }

  /** Without a verified record for an email, neither `get_user` nor `get_user_login` succeeds for it. */
  lemma UnverifiedIsRejected(users: seq<User>, email: string, password: string)
    requires forall i :: 0 <= i < |users| && users[i].email == email ==> users[i].verificationStatus != Verified
    ensures VerifiedPassword(users, email) == None
    ensures !CanLogIn(users, email, password)
  {
  }

  /** A user created verified under a fresh email can log in with the password given, and `get_user` returns it. */
  lemma CreateThenLogIn(users: seq<User>, username: string, email: string, password: string)
    requires !EmailTaken(users, email)
    ensures var after := users + [User(username, email, password, Verified)];
      CanLogIn(after, email, password) && VerifiedPassword(after, email) == Some(password) &&
      StatusOf(after, email) == Some(Verified)
  {
    var after := users + [User(username, email, password, Verified)];
    assert after[|users|].email == email;
    assert forall i :: 0 <= i < |users| ==> after[i] == users[i];
  }

  /**
   * With unique emails, after `update_user_password` a verified user logs in
   * with the new password and no longer with a different old one.
   */
  lemma PasswordChangeTakesEffect(users: seq<User>, email: string, oldPassword: string, newPassword: string)
    requires UniqueEmails(users)
    requires CanLogIn(users, email, oldPassword)
    ensures CanLogIn(SetPassword(users, email, newPassword), email, newPassword)
    ensures oldPassword != newPassword ==> !CanLogIn(SetPassword(users, email, newPassword), email, oldPassword)
  {
    var r := SetPassword(users, email, newPassword);
    var k := FirstMatch(users, IsLoginFor(email, oldPassword)).value;
    var i := FirstMatch(users, HasEmail(email)).value;
    SetPasswordTouchesOneField(users, email, newPassword);
    assert i == k;
    assert IsLoginFor(email, newPassword)(r[i]);
  }

  class Database {
    var hasClient: bool
    var hasDb: bool
    var hasCollection: bool
    /** The contents of the `users` collection on the server. */
    var users: seq<User>

    /** The three handles are set together or cleared together. */
    ghost predicate Valid()
      reads this
    {
      hasClient == hasDb && hasDb == hasCollection
    }

    /** `_check_connection`'s test: all three handles are set. */
    predicate Connected()
      reads this
    {
      hasClient && hasDb && hasCollection
    }

    /**
     * `Database()`: clear the handles, then connect. `stored` is what the
     * collection already holds on the server.
     */
    constructor (stored: seq<User>, uriConfigured: bool, serverReachable: bool)
      ensures Valid() && users == stored
      ensures Connected() == (uriConfigured && serverReachable)
    {
      hasClient, hasDb, hasCollection := false, false, false;
      users := stored;
      new;
      Connect(uriConfigured, serverReachable);
    }

    /**
     * `_connect`: a missing `MONGO_URI` raises before any handle is set; a
     * server that does not answer the ping (or any other exception) clears the
     * handles that were set.
     */
    method Connect(uriConfigured: bool, serverReachable: bool)
      modifies this`hasClient, this`hasDb, this`hasCollection
      ensures Valid()
      ensures Connected() == (uriConfigured && serverReachable)
    {
      if !uriConfigured {
        hasClient, hasDb, hasCollection := false, false, false;
        return;
      }
      hasClient := true;
      hasDb := true;
      hasCollection := true;
      if !serverReachable {
        hasClient, hasDb, hasCollection := false, false, false;
      }
    }

    /** `close_connection`: when a client is open, clear all three handles. */
    method CloseConnection()
      modifies this`hasClient, this`hasDb, this`hasCollection
      ensures !Connected()
      ensures old(hasClient) ==> !hasClient && !hasDb && !hasCollection
      ensures !old(hasClient) ==> hasClient == old(hasClient) && hasDb == old(hasDb) && hasCollection == old(hasCollection)
      ensures old(Valid()) ==> Valid()
    {
      if hasClient {
        hasClient, hasDb, hasCollection := false, false, false;
      }
    }

    /** `_check_connection`. */
    method CheckConnection() returns (r: bool)
      ensures r <==> hasClient && hasDb && hasCollection
      ensures Valid() ==> (r <==> hasClient)
    {
      r := Connected();
    }

    /**
     * `create_user`. `fault` is the message of an exception raised by the
     * backend (`OperationFailure` or any other), if any.
     */
    method CreateUser(username: string, email: string, password: string, verificationStatus: string,
                      fault: Option<string>) returns (r: Reply)
      modifies this`users
      ensures !Connected() ==> r == Reply(false, NotConnectedMessage) && users == old(users)
      ensures Connected() && fault.Some? ==> r == Reply(false, fault.value) && users == old(users)
      ensures Connected() && fault.None? && EmailTaken(old(users), email) ==>
        r == Reply(false, EmailTakenMessage) && users == old(users)
      ensures Connected() && fault.None? && !EmailTaken(old(users), email) ==>
        r == Reply(true, RegisteredMessage) &&
        users == old(users) + [User(username, email, password, verificationStatus)]
      ensures UniqueEmails(old(users)) ==> UniqueEmails(users)
    {
      var connected := CheckConnection();
      if !connected {
        return Reply(false, NotConnectedMessage);
      }
      if fault.Some? {
        return Reply(false, fault.value);
      }
      var existing := FirstMatch(users, HasEmail(email));
      if existing.Some? {
        return Reply(false, EmailTakenMessage);
      }
      users := users + [User(username, email, password, verificationStatus)];
      r := Reply(true, RegisteredMessage);
    }

    /** `check_verification_status`; None stands for `False`. */
    method CheckVerificationStatus(email: string, fault: Option<string>) returns (r: Option<string>)
      ensures !Connected() || fault.Some? ==> r == None
      ensures Connected() && fault.None? ==> r == StatusOf(users, email)
    {
      var connected := CheckConnection();
      if !connected || fault.Some? {
        return None;
      }
      r := StatusOf(users, email);
    }

    /** `update_verification_status`: true iff a record matched. */
    method UpdateVerificationStatus(email: string, verificationStatus: string, fault: Option<string>)
      returns (updated: bool)
      modifies this`users
      ensures !Connected() || fault.Some? ==> !updated && users == old(users)
      ensures Connected() && fault.None? ==>
        updated == EmailTaken(old(users), email) && users == SetStatus(old(users), email, verificationStatus)
    {
      var connected := CheckConnection();
      if !connected || fault.Some? {
        return false;
      }
      updated := FirstMatch(users, HasEmail(email)).Some?;
      users := SetStatus(users, email, verificationStatus);
    }

    /** `get_user`; None stands for `False`. */
    method GetUser(email: string, fault: Option<string>) returns (r: Option<string>)
      ensures !Connected() || fault.Some? ==> r == None
      ensures Connected() && fault.None? ==> r == VerifiedPassword(users, email)
    {
      var connected := CheckConnection();
      if !connected || fault.Some? {
        return None;
      }
      r := VerifiedPassword(users, email);
    }

    /** `update_user_password`: true iff a record matched. */
    method UpdateUserPassword(email: string, newPassword: string, fault: Option<string>) returns (updated: bool)
      modifies this`users
      ensures !Connected() || fault.Some? ==> !updated && users == old(users)
      ensures Connected() && fault.None? ==>
        updated == EmailTaken(old(users), email) && users == SetPassword(old(users), email, newPassword)
    {
      var connected := CheckConnection();
      if !connected || fault.Some? {
        return false;
      }
      updated := FirstMatch(users, HasEmail(email)).Some?;
      users := SetPassword(users, email, newPassword);
    }

    /** `get_user_login`: `[True, email]` for a verified record with this email and password. */
    method GetUserLogin(email: string, password: string, fault: Option<string>) returns (r: Reply)
      ensures !Connected() ==> r == Reply(false, NotConnectedMessage)
      ensures Connected() && fault.Some? ==> r == Reply(false, fault.value)
      ensures Connected() && fault.None? ==>
        r == if CanLogIn(users, email, password) then Reply(true, email) else Reply(false, LoginRejectedMessage)
    {
      var connected := CheckConnection();
      if !connected {
        return Reply(false, NotConnectedMessage);
      }
      if fault.Some? {
        return Reply(false, fault.value);
      }
      var found := FirstMatch(users, IsLoginFor(email, password));
      if found.Some? {
        r := Reply(true, users[found.value].email);
      } else {
        r := Reply(false, LoginRejectedMessage);
      }
    }
  }
}

/** The login and logout transitions of the app's per-browser session: the
    `(logged_in, username)` pair of the session state together with the
    presence updates they make in the database. The username reaching these
    transitions is the one the form has already stripped of surrounding
    blanks. */
module Sessions {
  import opened Users
  import opened Store

  datatype Session = Session(loggedIn: bool, username: Option<string>)
  {
    /** A session names a user exactly when it is logged in. */
    predicate Valid()
    {
      loggedIn <==> username.Some?
    }
  }

  /** The state of a session that has not logged in yet. */
  const Initial: Session := Session(false, None)

  /** The Login button: on valid credentials the user's flag is forced off
      and then on (so a second login simply re-asserts presence) and the
      session records the user; on invalid ones nothing changes. */
  method Login(db: ChatDb, s: Session, username: string, password: string) returns (s': Session, ok: bool)
    requires db.Valid()
    modifies db
    ensures db.Valid()
    ensures ok == Authenticate(old(db.users), db.hashPw, username, password)
    ensures ok ==> s' == Session(true, Some(username)) && s'.Valid()
    ensures ok ==> db.users == UpdateOnline(old(db.users), username, true)
    ensures ok ==> forall viewer :: viewer != username ==> username in OnlineUsers(db.users, viewer)
    ensures !ok ==> s' == s && db.users == old(db.users)
    ensures db.messages == old(db.messages)
  {
    ok := Authenticate(db.users, db.hashPw, username, password);
    if ok {
      ghost var before := db.users;
      db.SetOnline(username, false);
      s' := Session(true, Some(username));
      db.SetOnline(username, true);
      UpdateOnlineLastWins(before, username, false, true);
      forall viewer | viewer != username ensures username in OnlineUsers(db.users, viewer) {
        OnlineAfterSetTrue(before, username, viewer);
      }
    } else {
      s' := s;
    }
  }

  /** The Logout button, shown only to a logged-in session: the user goes
      offline and the session is cleared. */
  method Logout(db: ChatDb, s: Session) returns (s': Session)
    requires db.Valid() && s.Valid() && s.loggedIn
    modifies db
    ensures db.Valid()
    ensures s' == Initial
    ensures db.users == UpdateOnline(old(db.users), s.username.value, false)
    ensures forall viewer :: s.username.value !in OnlineUsers(db.users, viewer)
    ensures db.messages == old(db.messages)
  {
    var me := s.username.value;
    db.SetOnline(me, false);
    forall viewer ensures me !in OnlineUsers(db.users, viewer) {
      OfflineAfterSetFalse(old(db.users), me, viewer);
    }
    s' := Session(false, None);
  }
}

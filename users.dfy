/** The `users` table and the read-only queries over it: `user_exists`,
    `authenticate` and `get_online_users`, plus the row update performed by
    `UPDATE users SET online = ? WHERE username = ?`.

    The table is the sequence of its rows in `id` (autoincrement) order.
    The UNIQUE constraint on `username` is the predicate UniqueNames, which
    every state-changing operation preserves. `hash_pw` (a SHA-256 hex
    digest) is kept abstract: the queries that need it take it as a
    parameter and assume nothing about it. */
module Users {
  import opened NoCaseSort

  datatype Option<T> = None | Some(value: T)

  /** One row of `users`; `online` is the 0/1 column, `createdAt` the ISO
      timestamp string written at insertion. */
  datatype UserRow = UserRow(username: string, passwordHash: string, online: bool, createdAt: string)

  /** `username TEXT UNIQUE NOT NULL` */
  predicate UniqueNames(rows: seq<UserRow>)
  {
    forall i, j :: 0 <= i < j < |rows| ==> rows[i].username != rows[j].username
  }

  /** `SELECT ... FROM users WHERE username = ?` followed by `fetchone()`:
      the row stored under that exact (case-sensitive) name, if any. */
  function Lookup(rows: seq<UserRow>, u: string): (r: Option<UserRow>)
    ensures r.None? <==> forall i :: 0 <= i < |rows| ==> rows[i].username != u
    ensures r.Some? ==> r.value in rows && r.value.username == u
    ensures UniqueNames(rows) ==> forall i :: 0 <= i < |rows| && rows[i].username == u ==> r == Some(rows[i])
  {
    if rows == [] then None
    else if rows[0].username == u then Some(rows[0])
    else
      assert forall i :: 0 < i < |rows| ==> rows[i] == rows[1..][i - 1];
      Lookup(rows[1..], u)
  }

  /** `user_exists`: some row carries the name `u`. */
  function UserExists(rows: seq<UserRow>, u: string): (b: bool)
    ensures b <==> exists i :: 0 <= i < |rows| && rows[i].username == u
  {
    Lookup(rows, u).Some?
  }

  /** `authenticate`: false when no row is named `u`, otherwise whether the
      stored hash equals the hash of `p`. Reads the table only. */
  function Authenticate(rows: seq<UserRow>, hashPw: string -> string, u: string, p: string): (ok: bool)
    ensures !UserExists(rows, u) ==> !ok
    ensures ok ==> exists i :: 0 <= i < |rows| && rows[i].username == u && rows[i].passwordHash == hashPw(p)
    ensures UniqueNames(rows) ==>
      (ok <==> exists i :: 0 <= i < |rows| && rows[i].username == u && rows[i].passwordHash == hashPw(p))
  {
    match Lookup(rows, u)
    case None => false
    case Some(row) => row.passwordHash == hashPw(p)
  }

  /** `UPDATE users SET online = ? WHERE username = ?`: every row named `u`
      (at most one, by UniqueNames) gets the flag `b`; all other rows, and
      every other column, are unchanged. */
  function UpdateOnline(rows: seq<UserRow>, u: string, b: bool): (r: seq<UserRow>)
    ensures |r| == |rows|
    ensures forall i :: 0 <= i < |rows| ==>
      r[i] == if rows[i].username == u then rows[i].(online := b) else rows[i]
  {
    if rows == [] then []
    else
      var head := if rows[0].username == u then rows[0].(online := b) else rows[0];
      [head] + UpdateOnline(rows[1..], u, b)
  }

  /** The name `n` is on a row whose online flag is set. */
  predicate IsOnline(rows: seq<UserRow>, n: string)
  {
    exists i :: 0 <= i < |rows| && rows[i].username == n && rows[i].online
  }

  /** `WHERE online = 1 AND username != ?`, in `id` order. */
  function OnlineNames(rows: seq<UserRow>, exclude: string): (r: seq<string>)
    ensures forall n :: n in r <==> IsOnline(rows, n) && n != exclude
    ensures UniqueNames(rows) ==> Distinct(r)
  {
    if rows == [] then []
    else
      var rest := OnlineNames(rows[1..], exclude);
      assert forall n :: IsOnline(rows, n) <==>
        (rows[0].username == n && rows[0].online) || IsOnline(rows[1..], n) by {
        forall n ensures IsOnline(rows, n) ==> (rows[0].username == n && rows[0].online) || IsOnline(rows[1..], n) {
          if IsOnline(rows, n) {
            var i :| 0 <= i < |rows| && rows[i].username == n && rows[i].online;
            if i > 0 { assert rows[1..][i - 1] == rows[i]; }
          }
        }
        forall n | IsOnline(rows[1..], n) ensures IsOnline(rows, n) {
          var i :| 0 <= i < |rows[1..]| && rows[1..][i].username == n && rows[1..][i].online;
          assert rows[i + 1] == rows[1..][i];
        }
      }
      if rows[0].online && rows[0].username != exclude then
        assert UniqueNames(rows) ==> rows[0].username !in rest;
        assert UniqueNames(rows) ==> Distinct([rows[0].username] + rest) by {
          if UniqueNames(rows) { ConsDistinct(rows[0].username, rest); }
        }
        [rows[0].username] + rest
      else
        rest
  }

  /** `get_online_users`: the names of the online users other than
      `exclude`, each once, ordered by `username COLLATE NOCASE`. */
  function OnlineUsers(rows: seq<UserRow>, exclude: string): (r: seq<string>)
    ensures Sorted(r)
    ensures forall n :: n in r <==> IsOnline(rows, n) && n != exclude
    ensures UniqueNames(rows) ==> Distinct(r)
  {
    var names := OnlineNames(rows, exclude);
    var r := Sort(names);
    assert forall n :: n in r <==> n in names by {
      forall n ensures n in r <==> n in names {
        assert n in r <==> n in multiset(r);
        assert n in names <==> n in multiset(names);
      }
    }
    r
  }

  // ---------------------------------------------------------------------
  // Lemmas about INSERT into the table
  // ---------------------------------------------------------------------

  /** Appending a row leaves every earlier lookup as it was and makes the
      new row visible under its name when that name was free. */
  lemma {:induction false} LookupAppend(rows: seq<UserRow>, row: UserRow, u: string)
    ensures Lookup(rows + [row], u) ==
      if Lookup(rows, u).Some? then Lookup(rows, u)
      else if row.username == u then Some(row)
      else None
  {
    if rows != [] {
      assert (rows + [row])[1..] == rows[1..] + [row];
      LookupAppend(rows[1..], row, u);
    }
  }

  /** A successful `create_user(u, p)` (the INSERT of a row with hash
      `hashPw(p)` and the default `online = 0` under a free name) keeps the
      names unique, makes `u` exist and authenticate with `p`, and leaves the
      row of every other name exactly as it was. */
  lemma InsertUserEffects(rows: seq<UserRow>, hashPw: string -> string, u: string, p: string, createdAt: string)
    requires UniqueNames(rows) && !UserExists(rows, u)
    ensures UniqueNames(rows + [UserRow(u, hashPw(p), false, createdAt)])
    ensures Lookup(rows + [UserRow(u, hashPw(p), false, createdAt)], u) == Some(UserRow(u, hashPw(p), false, createdAt))
    ensures UserExists(rows + [UserRow(u, hashPw(p), false, createdAt)], u)
    ensures Authenticate(rows + [UserRow(u, hashPw(p), false, createdAt)], hashPw, u, p)
    ensures !IsOnline(rows + [UserRow(u, hashPw(p), false, createdAt)], u)
    ensures forall v :: v != u ==> Lookup(rows + [UserRow(u, hashPw(p), false, createdAt)], v) == Lookup(rows, v)
  {
    var row := UserRow(u, hashPw(p), false, createdAt);
    LookupAppend(rows, row, u);
    forall v | v != u ensures Lookup(rows + [row], v) == Lookup(rows, v) {
      LookupAppend(rows, row, v);
    }
    assert forall i :: 0 <= i < |rows| ==> (rows + [row])[i] == rows[i];
  }

  // ---------------------------------------------------------------------
  // Lemmas about UPDATE of the online flag
  // ---------------------------------------------------------------------

  /** Setting a flag changes what a lookup of `u` returns only in its online
      flag, and a lookup of any other name not at all. */
  lemma {:induction false} LookupUpdateOnline(rows: seq<UserRow>, u: string, b: bool, v: string)
    ensures v != u ==> Lookup(UpdateOnline(rows, u, b), v) == Lookup(rows, v)
    ensures Lookup(UpdateOnline(rows, u, b), u) ==
      if Lookup(rows, u).Some? then Some(Lookup(rows, u).value.(online := b)) else None
  {
    if rows != [] {
      assert UpdateOnline(rows, u, b)[1..] == UpdateOnline(rows[1..], u, b);
      LookupUpdateOnline(rows[1..], u, b, v);
    }
  }

  /** The online flag is not part of the credentials: UPDATE keeps the names
      unique and `user_exists` and `authenticate` answer as before. */
  lemma UpdateOnlineKeepsAccounts(rows: seq<UserRow>, hashPw: string -> string, u: string, b: bool, v: string, p: string)
    ensures UniqueNames(rows) ==> UniqueNames(UpdateOnline(rows, u, b))
    ensures UserExists(UpdateOnline(rows, u, b), v) == UserExists(rows, v)
    ensures Authenticate(UpdateOnline(rows, u, b), hashPw, v, p) == Authenticate(rows, hashPw, v, p)
  {
    LookupUpdateOnline(rows, u, b, v);
  }

  /** Only the last flag written for a name matters; in particular the login
      sequence `set_online(u, False)`, `set_online(u, True)` gives the same
      table as `set_online(u, True)` alone, whatever `u`'s prior state. */
  lemma UpdateOnlineLastWins(rows: seq<UserRow>, u: string, b1: bool, b2: bool)
    ensures UpdateOnline(UpdateOnline(rows, u, b1), u, b2) == UpdateOnline(rows, u, b2)
  {
  }

  /** After `set_online(u, True)` for an existing `u`, every other user
      sees `u` in `get_online_users`. */
  lemma OnlineAfterSetTrue(rows: seq<UserRow>, u: string, viewer: string)
    requires UserExists(rows, u) && viewer != u
    ensures u in OnlineUsers(UpdateOnline(rows, u, true), viewer)
  {
  }

  /** After `set_online(u, False)` nobody sees `u` in `get_online_users`. */
  lemma OfflineAfterSetFalse(rows: seq<UserRow>, u: string, viewer: string)
    ensures u !in OnlineUsers(UpdateOnline(rows, u, false), viewer)
  {
  }

  /** Setting `u`'s flag does not change who else is online. */
  lemma UpdateOnlineOthers(rows: seq<UserRow>, u: string, b: bool, n: string)
    requires n != u
    ensures IsOnline(UpdateOnline(rows, u, b), n) == IsOnline(rows, n)
  {
  }
}

# Wizzy Chat persistence and presence model

A Dafny model of the data layer of Wizzy Chat, a small username-to-username chat
application (`chat.py`). The application keeps two SQLite tables. The model keeps
both, with the seven functions that read and write them and the login/logout steps
of the user interface:

- `users`: a username, a password hash, an `online` flag and a creation time. The
  username column is `UNIQUE`. Operations: `create_user`, `authenticate`,
  `user_exists`, `set_online`, `get_online_users`.
- `messages`: an append-only log of `(sender, receiver, msg, time)`. The
  autoincrement `id` gives the order. Operations: `send_message` and
  `get_conversation`.

Layout:

- `collation.dfy` (module `Collation`): SQLite's `NOCASE` collation. ASCII `A`-`Z`
  are folded to lower case. The folded names are then compared character by
  character, which for UTF-8 text is code point order. The comparison stops with
  a tie when one name runs out, or when both reach U+0000 at the same place.
  After a tie the name with fewer UTF-8 bytes sorts first. This module proves
  that the order is total and transitive. It also proves that names equal after
  folding tie, and that for names without U+0000 these are the only ties.
- `sorting.dfy` (module `NoCaseSort`): sorting names by that collation. The result
  is specified as sorted, a permutation of the input, and duplicate-free when the
  input is.
- `users.dfy` (module `Users`): the `users` table as its rows in `id` order, with
  the `UNIQUE` constraint as the predicate `UniqueNames`. It also holds the
  read-only queries and the row update made by `set_online`.
- `messages.dfy` (module `Messages`): the message log and `get_conversation`.
- `store.dfy` (module `Store`): the class `ChatDb`. It holds both tables as fields.
  Its methods `CreateUser`, `SetOnline` and `SendMessage` change them in place,
  and each one keeps the uniqueness invariant.
- `session.dfy` (module `Sessions`): the `(logged_in, username)` session record,
  with the Login and Logout button handlers as transitions over a `ChatDb` and a
  session.

`hash_pw` is SHA-256 rendered as hex. Here it is the `hashPw: string -> string`
constant of a `ChatDb`, and the queries that need it take it as a parameter.
Nothing is assumed about it. In particular it need not be injective, so
`authenticate` is stated as "the stored hash equals `hashPw(p)`", exactly as the
code compares. Timestamps (`created_at`, message `time`) come from the clock in
the source. Here they are opaque string parameters.

The `messages` table of `chat.py` (chat.py:45-53) has no group or direct/group
column, so every message is addressed to one username. `create_user` returns the
pair `(bool, message)` with the code's three message texts.

## Model

| member | source | states |
|---|---|---|
| Collation.NoCaseTotal | chat.py:95 | any two usernames are ordered one way or the other by `COLLATE NOCASE` |
| Collation.NoCaseTransitive | chat.py:95 | the `NOCASE` order is transitive |
| Collation.NoCaseTie | chat.py:95 | names equal after ASCII case folding tie under `NOCASE`, and for names without U+0000 no others do; this is why the order among such names is left open |
| Collation.NulEndsComparisonLaw | chat.py:95 | for any prefix without U+0000, once both names reach U+0000 right after it, the names compare exactly as the UTF-8 byte lengths of their remainders, whatever characters those hold |
| Collation.NulEndsComparison | chat.py:95 | one instance of that rule: "x\0z" sorts before "x\0ab" and not the other way round, although `z` sorts after `a` |
| NoCaseSort.Insert | chat.py:95 | inserting into a `NOCASE`-sorted list gives a sorted list with that one element added (as a multiset), and keeps it duplicate-free |
| NoCaseSort.Sort | chat.py:95 | the result is sorted by `NOCASE` and is a permutation of the input; distinct input gives distinct output |
| Users.Lookup | chat.py:79-84 | `fetchone()` of `WHERE username = ?` gives no row exactly when no row has that exact name; otherwise it gives a row of the table with that name, and under the UNIQUE constraint it is that name's only row |
| Users.UserExists | chat.py:122-125 | `user_exists(u)` holds exactly when some row has the username `u` |
| Users.Authenticate | chat.py:77-85 | false when `u` is absent; under the UNIQUE constraint, true exactly when `u`'s row stores `hashPw(p)`; it only reads the table |
| Users.UpdateOnline | chat.py:87-90 | the UPDATE sets the flag on the rows named `u` and leaves every other row, and every other column, unchanged; table length is unchanged |
| Users.OnlineNames | chat.py:94-96 | the filter `online = 1 AND username != ?` holds exactly the online names other than the excluded one, each once under the UNIQUE constraint |
| Users.OnlineUsers | chat.py:92-98 | `get_online_users(x)` is sorted by `NOCASE`, holds exactly the online users other than `x`, and holds each of them once |
| Users.LookupAppend | chat.py:68-71 | an INSERT leaves every earlier lookup unchanged and makes a new name resolve to the new row |
| Users.InsertUserEffects | chat.py:38-40 | inserting a free name keeps names unique and adds the user offline with hash `hashPw(p)`; afterwards `user_exists(u)` holds and `authenticate(u, p)` is true; every other name's row is untouched |
| Users.LookupUpdateOnline | chat.py:89 | after `set_online(u, b)` the lookup of `u` differs only in its online flag, and the lookup of any other name is unchanged |
| Users.UpdateOnlineKeepsAccounts | chat.py:87-90 | `set_online` keeps names unique and does not change `user_exists` or `authenticate` for any name |
| Users.UpdateOnlineLastWins | chat.py:202-206 | two flag writes for one name equal the last one alone; so offline-then-online at login equals setting online, whatever the prior state |
| Users.OnlineAfterSetTrue | chat.py:87-98 | after `set_online(u, True)` for an existing `u`, `u` appears in every other user's `get_online_users` |
| Users.OfflineAfterSetFalse | chat.py:87-98 | after `set_online(u, False)`, `u` appears in nobody's `get_online_users` |
| Users.UpdateOnlineOthers | chat.py:89 | setting `u`'s flag does not change whether any other name is online |
| Messages.Conversation | chat.py:108-120 | `get_conversation(a, b)` holds exactly the log's messages from `a` to `b` or from `b` to `a`, and is no longer than the log |
| Messages.ConversationConcat | chat.py:116 | the history of a log split in two is the history of the earlier part followed by that of the later part (`ORDER BY id ASC`) |
| Messages.ConversationAppend | chat.py:100-106 | sending a message adds it to the end of its pair's history and leaves every other pair's history unchanged |
| Messages.ConversationSymmetric | chat.py:114-118 | `get_conversation(a, b) == get_conversation(b, a)` |
| Messages.ConversationOfPair | chat.py:114-116 | a log of messages all between `a` and `b` is its own history, in the same order |
| Messages.SentInOrder | chat.py:100-120 | messages sent in sequence between a pair are read back after the existing history, in send order, whatever their timestamps |
| Store.ChatDb.constructor | chat.py:28-58 | `init_db` on a fresh file: both tables are empty and the UNIQUE invariant holds |
| Store.ChatDb.CreateUser | chat.py:63-75 | an empty name or password gives `(False, "Username and password are required.")` and no change; a taken name gives `(False, "Username already exists.")` and keeps the first registration; otherwise the user is appended offline with `hashPw(p)`, then exists and authenticates; other users and the message log are untouched |
| Store.ChatDb.SetOnline | chat.py:87-90 | only `u`'s flag changes (nothing when `u` is absent); credentials, other users' presence and the message log are unchanged; names stay unique |
| Store.ChatDb.SendMessage | chat.py:100-106 | appends exactly one message at the end without checking that sender or receiver exist; earlier messages and the users table are unchanged; the pair's history grows by that message and no other pair's history changes |
| Sessions.Login | chat.py:200-209 | on valid credentials, the session records the user and the user's flag is on (same as setting it once), so every other user sees them online; on invalid credentials the database and the session are unchanged |
| Sessions.Logout | chat.py:276-280 | the user goes offline, nobody sees them online, and the session is reset to not logged in |

The semantics the rows above rely on are defined once, as predicates without contracts of their own: the `NOCASE` order of chat.py:95 is `Collation.NoCaseLe` (ASCII folding by `Collation.Fold`, then `Collation.LexLe`, which holds the U+0000 stop and the byte-length tiebreak via `Collation.Utf8Length`); the `WHERE` clause of chat.py:114-115 is `Messages.Between`; the `UNIQUE` constraint of chat.py:38 is `Users.UniqueNames`; the filter `online = 1` of chat.py:95 is `Users.IsOnline`.

## Left out

- The Streamlit user interface (chat.py:130-281, apart from the login and logout handlers). Page setup, CSS, bubble HTML, sidebar widgets, the user selectbox, the auto-scroll script and `st_autorefresh` polling are presentation and I/O.
- SQLite plumbing: `get_conn`, the WAL and `synchronous` pragmas, and the three indexes in `init_db`. They concern connections and speed, not results. The constructor models `init_db` on an empty file only. On an existing file, `CREATE TABLE IF NOT EXISTS` keeps the old rows.
- The SHA-256 and hex encoding inside `hash_pw`. It is a library call, so it is kept as an arbitrary function.
- Clock reads (`utcnow().isoformat()`, `now().strftime("%H:%M")`). Timestamps are opaque inputs.
- UI-side input handling: the 15-character widget limit, the `.strip()` applied before `create_user`, `authenticate` and `send_message`, and the "send only non-blank text" check. The core functions do not enforce these. The model's operations take the already-prepared strings.
- The send form and the rendering loop of the chat page. They only call `send_message` and `get_conversation`, which are modelled.
- Storage I/O errors and concurrent writers from several browser sessions. Each operation is modelled as one atomic step.
- The order among names that tie under `NOCASE` (such as "Bob" and "bob"). The model's sort returns them in one fixed order, table order, but `OnlineUsers` promises only a sorted permutation, as SQLite does.

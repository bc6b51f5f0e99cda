/** The chat database: the `users` and `messages` tables and the three
    operations that write to them (`create_user`, `set_online`,
    `send_message`). The read-only queries are the functions of the Users
    and Messages modules applied to the fields of a ChatDb. */
module Store {
  import opened Users
  import opened Messages

  const RequiredMessage: string := "Username and password are required."
  const TakenMessage: string := "Username already exists."
  const CreatedMessage: string := "Account created! Please login."

  class ChatDb {
    /** `hash_pw`; which hash it is does not matter to this model. */
    const hashPw: string -> string
    var users: seq<UserRow>
    var messages: seq<Message>

    /** The UNIQUE constraint of the `users` table. */
    ghost predicate Valid()
      reads this
    {
      UniqueNames(users)
    }

    /** `init_db` on a fresh database file: both tables empty. */
    constructor (hashPw: string -> string)
      ensures Valid()
      ensures this.hashPw == hashPw && users == [] && messages == []
    {
      this.hashPw := hashPw;
      users := [];
      messages := [];
    }

    /** `create_user`: rejects an empty name or password, then a name that is
        taken (the first registration is kept); otherwise inserts the user
        offline with the hash of the password. */
    method CreateUser(username: string, password: string, createdAt: string) returns (ok: bool, message: string)
      requires Valid()
      modifies this
      ensures Valid()
      ensures messages == old(messages)
      ensures username == "" || password == "" ==>
        !ok && message == RequiredMessage && users == old(users)
      ensures username != "" && password != "" && UserExists(old(users), username) ==>
        !ok && message == TakenMessage && users == old(users)
      ensures username != "" && password != "" && !UserExists(old(users), username) ==>
        ok && message == CreatedMessage &&
        users == old(users) + [UserRow(username, hashPw(password), false, createdAt)]
      ensures ok ==> UserExists(users, username) && Authenticate(users, hashPw, username, password)
      ensures ok ==> !IsOnline(users, username)
      ensures forall v :: v != username ==> Lookup(users, v) == Lookup(old(users), v)
      ensures |users| == |old(users)| + (if ok then 1 else 0)
    {
      if username == "" || password == "" {
        return false, RequiredMessage;
      }
      if UserExists(users, username) {
        return false, TakenMessage;
      }
      InsertUserEffects(users, hashPw, username, password, createdAt);
      users := users + [UserRow(username, hashPw(password), false, createdAt)];
      return true, CreatedMessage;
    }

    /** `set_online`: sets the flag on `username`'s row; nothing happens when
        there is no such row. No other row or column changes. */
    method SetOnline(username: string, online: bool)
      requires Valid()
      modifies this
      ensures Valid()
      ensures users == UpdateOnline(old(users), username, online)
      ensures messages == old(messages)
      ensures !UserExists(old(users), username) ==> users == old(users)
      ensures forall v, p :: Authenticate(users, hashPw, v, p) == Authenticate(old(users), hashPw, v, p)
      ensures forall n :: n != username ==> IsOnline(users, n) == IsOnline(old(users), n)
    {
      ghost var before := users;
      users := UpdateOnline(users, username, online);
      forall v, p ensures Authenticate(users, hashPw, v, p) == Authenticate(before, hashPw, v, p) {
        UpdateOnlineKeepsAccounts(before, hashPw, username, online, v, p);
      }
      forall n | n != username ensures IsOnline(users, n) == IsOnline(before, n) {
        UpdateOnlineOthers(before, username, online, n);
      }
      UpdateOnlineKeepsAccounts(before, hashPw, username, online, username, "");
    }

    /** `send_message`: appends one message at the end of the log, whether or
        not the sender and receiver exist; earlier messages are unchanged. */
    method SendMessage(sender: string, receiver: string, msg: string, time: string)
      modifies this
      ensures messages == old(messages) + [Message(sender, receiver, msg, time)]
      ensures users == old(users)
      ensures Conversation(messages, sender, receiver) ==
        Conversation(old(messages), sender, receiver) + [Message(sender, receiver, msg, time)]
      ensures forall a, b :: !Between(Message(sender, receiver, msg, time), a, b) ==>
        Conversation(messages, a, b) == Conversation(old(messages), a, b)
    {
      var m := Message(sender, receiver, msg, time);
      ConversationAppend(messages, m, sender, receiver);
      forall a, b | !Between(m, a, b) ensures Conversation(messages + [m], a, b) == Conversation(messages, a, b) {
        ConversationAppend(messages, m, a, b);
      }
      messages := messages + [m];
    }
  }
}

/** The `messages` table: an append-only log whose position is the
    autoincrement `id`, and the `get_conversation` query over it. Neither
    sender nor receiver is checked against `users`. */
module Messages {

  /** One row of `messages`, as `get_conversation` returns it (`id` is the
      row's position in the log); `time` is the opaque "%H:%M" string. */
  datatype Message = Message(sender: string, receiver: string, msg: string, time: string)

  /** `(sender = a AND receiver = b) OR (sender = b AND receiver = a)` */
  predicate Between(m: Message, a: string, b: string)
  {
    (m.sender == a && m.receiver == b) || (m.sender == b && m.receiver == a)
  }

  /** `get_conversation(a, b)`: the messages exchanged between `a` and `b`
      in either direction, in `id` order. */
  function Conversation(log: seq<Message>, a: string, b: string): (r: seq<Message>)
    ensures |r| <= |log|
    ensures forall m :: m in r <==> m in log && Between(m, a, b)
  {
    if log == [] then []
    else
      var last := log[|log| - 1];
      assert log == log[..|log| - 1] + [last];
      Conversation(log[..|log| - 1], a, b) + (if Between(last, a, b) then [last] else [])
  }

  /** Reading the history of a log split in two: the part sent earlier
      comes first. This is the `ORDER BY id ASC` of the query. */
  lemma {:induction false} ConversationConcat(x: seq<Message>, y: seq<Message>, a: string, b: string)
    ensures Conversation(x + y, a, b) == Conversation(x, a, b) + Conversation(y, a, b)
    decreases |y|
  {
    if y == [] {
      assert x + y == x;
    } else {
      var y' := y[..|y| - 1];
      assert (x + y)[..|x + y| - 1] == x + y';
      ConversationConcat(x, y', a, b);
    }
  }

  /** `send_message` appends one row: the history of its pair grows by
      exactly that message at the end; any other pair's history is unchanged. */
  lemma ConversationAppend(log: seq<Message>, m: Message, a: string, b: string)
    ensures Conversation(log + [m], a, b) ==
      Conversation(log, a, b) + (if Between(m, a, b) then [m] else [])
  {
  }

  /** `get_conversation(a, b) == get_conversation(b, a)`. */
  lemma {:induction false} ConversationSymmetric(log: seq<Message>, a: string, b: string)
    ensures Conversation(log, a, b) == Conversation(log, b, a)
  {
    if log != [] {
      ConversationSymmetric(log[..|log| - 1], a, b);
    }
  }

  /** A log made only of messages between `a` and `b` is its own history. */
  lemma {:induction false} ConversationOfPair(ms: seq<Message>, a: string, b: string)
    requires forall i :: 0 <= i < |ms| ==> Between(ms[i], a, b)
    ensures Conversation(ms, a, b) == ms
  {
    if ms != [] {
      ConversationOfPair(ms[..|ms| - 1], a, b);
    }
  }

  /** Messages sent one after another between `a` and `b` are read back in
      the order they were sent, after everything already in their history,
      whether or not their timestamps coincide. */
  lemma SentInOrder(log: seq<Message>, ms: seq<Message>, a: string, b: string)
    requires forall i :: 0 <= i < |ms| ==> Between(ms[i], a, b)
    ensures Conversation(log + ms, a, b) == Conversation(log, a, b) + ms
  {
    ConversationConcat(log, ms, a, b);
    ConversationOfPair(ms, a, b);
  }
}

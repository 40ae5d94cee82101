/** The conversation models: an immutable `Message` and a `Session` whose history, activity
    flag and last-update time change in place. Instants are integers in microseconds and the
    current time `now` is passed in; message ids come from the caller (the source draws them
    from `uuid4`). */
module Sessions {
  import opened Wrappers
  import opened Records
  import PyText

  /** Microseconds in one hour, the unit of `timedelta(hours=...)`. */
  const MicrosPerHour: int := 3_600_000_000

  /** Inactivity after which a session counts as expired, in hours. */
  const DefaultExpiryHours: int := 24

  /** One message of the conversation history. */
  datatype Message = Message(
    id: string,
    role: string,
    content: string,
    timestamp: int,
    metadata: Metadata)

  /** `Message.validate_role`: only "user" and "assistant" are accepted. Nothing in the
      session code calls it, so stored messages may carry any role. */
  function ValidateRole(m: Message): (r: Outcome)
    ensures r.Pass? <==> m.role == "user" || m.role == "assistant"
  {
    if m.role != "user" && m.role != "assistant" then Fail("Role must be 'user' or 'assistant', got " + m.role)
    else Pass
  }

  function Min(a: int, b: int): int { if a <= b then a else b }

  /** A conversation session. */
  class Session {
    const id: string
    const userId: Option<string>
    const createdAt: int
    const metadata: Metadata
    var updatedAt: int
    var messages: seq<Message>
    var isActive: bool

    /** A new session: no messages, active, created and updated at `now`. */
    constructor (id: string, userId: Option<string>, metadata: Metadata, now: int)
      ensures this.id == id && this.userId == userId && this.metadata == metadata
      ensures createdAt == now && updatedAt == now
      ensures messages == [] && isActive
    {
      this.id := id;
      this.userId := userId;
      this.createdAt := now;
      this.metadata := metadata;
      this.updatedAt := now;
      this.messages := [];
      this.isActive := true;
    }

    /** `add_message`: appends one message with the given role, content and metadata (`{}`
        for none) and sets `updated_at`; the role is not validated. */
    method AddMessage(role: string, content: string, metadata: Option<Metadata>, messageId: string, now: int)
      returns (message: Message)
      modifies this
      ensures message == Message(messageId, role, content, now, metadata.GetOr(map[]))
      ensures messages == old(messages) + [message]
      ensures updatedAt == now && isActive == old(isActive)
    {
      message := Message(messageId, role, content, now, if metadata.Some? then metadata.value else map[]);
      messages := messages + [message];
      updatedAt := now;
    }

    /** `get_messages`: `messages[-limit:] if len(messages) >= limit else messages`, all of
        them for no limit. A limit from 1 to the length gives the last `limit` messages; a
        larger limit, and also 0 (through the slice `[-0:]`), gives the whole history. */
    function GetMessages(limit: Option<int>): (r: seq<Message>)
      reads this
      ensures |r| <= |messages| && r == messages[|messages| - |r|..]
      ensures limit.None? ==> r == messages
      ensures limit.Some? && 1 <= limit.value <= |messages| ==> r == messages[|messages| - limit.value..]
      ensures limit.Some? && limit.value > |messages| ==> r == messages
      ensures limit == Some(0) ==> r == messages
      ensures limit.Some? && limit.value < 0 ==> r == messages[Min(-limit.value, |messages|)..]
    {
      if limit.None? then messages
      else if |messages| >= limit.value then PyText.Suffix(messages, -limit.value)
      else messages
    }

    /** `get_last_message`: None for an empty history, else the last message. */
    function GetLastMessage(): (r: Option<Message>)
      reads this
      ensures r.None? <==> messages == []
      ensures r.Some? ==> r.value == messages[|messages| - 1]
    {
      if messages == [] then None else Some(messages[|messages| - 1])
    }

    /** `clear_messages`: the history becomes empty and `updated_at` is `now`. */
    method ClearMessages(now: int)
      modifies this
      ensures messages == [] && updatedAt == now && isActive == old(isActive)
    {
      messages := [];
      updatedAt := now;
    }

    /** `get_message_count` */
    function GetMessageCount(): (n: nat)
      reads this
      ensures n == |messages|
    {
      |messages|
    }

    /** `update_last_activity` */
    method UpdateLastActivity(now: int)
      modifies this
      ensures updatedAt == now && messages == old(messages) && isActive == old(isActive)
    {
      updatedAt := now;
    }

    /** `is_expired`: more than `hours` hours, strictly, since the last update. */
    predicate IsExpired(now: int, hours: int)
      reads this
    {
      now - updatedAt > hours * MicrosPerHour
    }
  }

  /** Expiry is permanent as time passes, and a session expired under some limit is expired
      under any shorter one. */
  lemma ExpiryMonotone(s: Session, now: int, later: int, hours: int, shorter: int)
    requires now <= later && shorter <= hours
    ensures s.IsExpired(now, hours) ==> s.IsExpired(later, hours)
    ensures s.IsExpired(now, hours) ==> s.IsExpired(now, shorter)
  {
  }
}

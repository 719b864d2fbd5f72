/** The three tables of the message board (messages, replies, admins), the insert shapes that
    leave `id` and `createdAt` to the store, the column defaults, and the key constraints. */
module Schema {
  import opened Wrappers

  /** A nullable column with a default, as an insert supplies it: left out (the default applies),
      explicitly null, or given. */
  datatype Provided<T> = Omitted | Null | Given(value: T)

  /** The stored value of such a column. */
  function WithDefault<T>(p: Provided<T>, default: T): Option<T>
  {
    match p
    case Omitted => Some(default)
    case Null => None
    case Given(v) => Some(v)
  }

  /** A row of `messages`. Nullable columns are `Option`s; `isPublic` is three-valued. */
  datatype Message = Message(
    id: int,
    content: string,
    category: string,
    spotifyLink: Option<string>,
    isPublic: Option<bool>,
    recipient: Option<string>,
    senderName: Option<string>,
    createdAt: nat)

  /** What an insert into `messages` may supply: everything but `id` and `createdAt`. */
  datatype InsertMessage = InsertMessage(
    content: string,
    category: string,
    spotifyLink: Option<string>,
    isPublic: Provided<bool>,
    recipient: Option<string>,
    senderName: Option<string>)

  /** A row of `replies`; `messageId` references `messages.id`. */
  datatype Reply = Reply(id: int, messageId: int, content: string, nickname: string, createdAt: nat)

  datatype InsertReply = InsertReply(messageId: int, content: string, nickname: string)

  /** A row of `admins`; `username` and `nickname` are unique, `isActive` is three-valued. */
  datatype Admin = Admin(
    id: int,
    username: string,
    password: string,
    nickname: string,
    role: string,
    createdAt: nat,
    isActive: Option<bool>)

  /** `role` is not null, so an insert either gives it or leaves it to the default. */
  datatype InsertAdmin = InsertAdmin(
    username: string,
    password: string,
    nickname: string,
    role: Option<string>,
    isActive: Provided<bool>)

  /** A message together with the replies that reference it. */
  datatype MessageWithReplies = MessageWithReplies(message: Message, replies: seq<Reply>)

  const DefaultRole: string := "admin"

  function MessageTime(m: Message): nat { m.createdAt }
  function ReplyTime(r: Reply): nat { r.createdAt }
  function AdminTime(a: Admin): nat { a.createdAt }

  /** The row an insert produces once the store has chosen its id and timestamp. */
  function NewMessage(input: InsertMessage, id: int, now: nat): (m: Message)
    ensures m.id == id && m.createdAt == now
    ensures m.content == input.content && m.category == input.category
    ensures m.spotifyLink == input.spotifyLink && m.recipient == input.recipient
    ensures m.senderName == input.senderName
    ensures input.isPublic.Omitted? ==> m.isPublic == Some(true)
    ensures input.isPublic.Null? ==> m.isPublic == None
    ensures input.isPublic.Given? ==> m.isPublic == Some(input.isPublic.value)
  {
    Message(id, input.content, input.category, input.spotifyLink,
            WithDefault(input.isPublic, true), input.recipient, input.senderName, now)
  }

  function NewReply(input: InsertReply, id: int, now: nat): (r: Reply)
    ensures r.id == id && r.createdAt == now
    ensures r.messageId == input.messageId && r.content == input.content && r.nickname == input.nickname
  {
    Reply(id, input.messageId, input.content, input.nickname, now)
  }

  function NewAdmin(input: InsertAdmin, id: int, now: nat): (a: Admin)
    ensures a.id == id && a.createdAt == now
    ensures a.username == input.username && a.password == input.password && a.nickname == input.nickname
    ensures input.role.None? ==> a.role == DefaultRole
    ensures input.role.Some? ==> a.role == input.role.value
    ensures input.isActive.Omitted? ==> a.isActive == Some(true)
    ensures input.isActive.Null? ==> a.isActive == None
    ensures input.isActive.Given? ==> a.isActive == Some(input.isActive.value)
  {
    Admin(id, input.username, input.password, input.nickname,
          match input.role case None => DefaultRole case Some(r) => r,
          now, WithDefault(input.isActive, true))
  }

  /** The messages of a list, in list order. */
  function Rows(ws: seq<MessageWithReplies>): (ms: seq<Message>)
    ensures |ms| == |ws|
    ensures forall i :: 0 <= i < |ws| ==> ms[i] == ws[i].message
  {
    seq(|ws|, i requires 0 <= i < |ws| => ws[i].message)
  }

  /** The ids present in `messages`. */
  function MessageIds(ms: seq<Message>): (ids: set<int>)
    ensures forall m :: m in ms ==> m.id in ids
    ensures forall id :: id in ids ==> exists m :: m in ms && m.id == id
  {
    set m | m in ms :: m.id
  }

  // ---- Constraints -------------------------------------------------------

  /** A `serial` primary key: every key was handed out before `next`, and no two rows share one. */
  ghost predicate SerialKey<T>(s: seq<T>, key: T -> int, next: int)
  {
    && 1 <= next
    && (forall i :: 0 <= i < |s| ==> 1 <= key(s[i]) < next)
    && UniqueKey(s, key)
  }

  /** A `unique` column. */
  ghost predicate UniqueKey<T, K>(s: seq<T>, key: T -> K)
  {
    forall i, j :: 0 <= i < j < |s| ==> key(s[i]) != key(s[j])
  }

  /** The foreign key `replies.messageId -> messages.id`. */
  ghost predicate RepliesReferToMessages(rs: seq<Reply>, ms: seq<Message>)
  {
    forall r :: r in rs ==> r.messageId in MessageIds(ms)
  }

  /** No row is stamped later than `clock`. */
  ghost predicate StampedBy<T>(s: seq<T>, at: T -> nat, clock: nat)
  {
    forall i :: 0 <= i < |s| ==> at(s[i]) <= clock
  }

  function MessageKey(m: Message): int { m.id }
  function ReplyKey(r: Reply): int { r.id }
  function AdminKey(a: Admin): int { a.id }
  function Username(a: Admin): string { a.username }
  function Nickname(a: Admin): string { a.nickname }

  // ---- How the constraints survive the store's writes ---------------------

  /** Appending a row keyed with the next serial value keeps the key a serial key. */
  lemma SerialKeyAppend<T>(s: seq<T>, key: T -> int, next: int, x: T)
    requires SerialKey(s, key, next) && key(x) == next
    ensures SerialKey(s + [x], key, next + 1)
    ensures forall y :: y in s ==> key(y) != key(x)
  {
    var t := s + [x];
    forall i | 0 <= i < |t| ensures 1 <= key(t[i]) < next + 1 {
      if i < |s| {
        assert t[i] == s[i];
      }
    }
    forall i, j | 0 <= i < j < |t| ensures key(t[i]) != key(t[j]) {
      if j == |s| {
        assert key(s[i]) < next;
      } else {
        assert t[i] == s[i] && t[j] == s[j];
      }
    }
    forall y | y in s ensures key(y) != key(x) {
      var i :| 0 <= i < |s| && s[i] == y;
      assert key(s[i]) < next;
    }
  }

  /** Appending a row whose key no row has keeps the key unique. */
  lemma UniqueKeyAppend<T, K>(s: seq<T>, key: T -> K, x: T)
    requires UniqueKey(s, key)
    requires forall y :: y in s ==> key(y) != key(x)
    ensures UniqueKey(s + [x], key)
  {
    var t := s + [x];
    forall i, j | 0 <= i < j < |t| ensures key(t[i]) != key(t[j]) {
      if j == |s| {
        assert t[i] in s;
      } else {
        assert t[i] == s[i] && t[j] == s[j];
      }
    }
  }

  /** Appending a row stamped `now` after a clock no later than `now`. */
  lemma StampedAppend<T>(s: seq<T>, at: T -> nat, clock: nat, x: T, now: nat)
    requires StampedBy(s, at, clock) && clock <= now && at(x) == now
    ensures StampedBy(s + [x], at, now)
    ensures forall y :: y in s ==> at(y) <= now
  {
    forall y | y in s ensures at(y) <= now {
      var i :| 0 <= i < |s| && s[i] == y;
    }
  }

  /** Two rows with the same unique key are the same row. */
  lemma UniqueKeyAt<T, K>(s: seq<T>, key: T -> K, i: int, j: int)
    requires UniqueKey(s, key)
    requires 0 <= i < |s| && 0 <= j < |s| && key(s[i]) == key(s[j])
    ensures i == j
  {
  }

  /** `t` is `s` with some non-key column changed in place. */
  ghost predicate SameKeys<T, K>(s: seq<T>, t: seq<T>, key: T -> K)
  {
    |s| == |t| && forall i :: 0 <= i < |s| ==> key(t[i]) == key(s[i])
  }

  lemma UniqueKeyKept<T, K>(s: seq<T>, t: seq<T>, key: T -> K)
    requires UniqueKey(s, key) && SameKeys(s, t, key)
    ensures UniqueKey(t, key)
  {
    forall i, j | 0 <= i < j < |t| ensures key(t[i]) != key(t[j]) {
      assert key(s[i]) != key(s[j]);
    }
  }

  lemma SerialKeyKept<T>(s: seq<T>, t: seq<T>, key: T -> int, next: int)
    requires SerialKey(s, key, next) && SameKeys(s, t, key)
    ensures SerialKey(t, key, next)
  {
    UniqueKeyKept(s, t, key);
  }

  lemma StampedKept<T>(s: seq<T>, t: seq<T>, at: T -> nat, clock: nat)
    requires StampedBy(s, at, clock) && SameKeys(s, t, at)
    ensures StampedBy(t, at, clock)
  {
  }

  /** Appending a message only adds its id. */
  lemma MessageIdsAppend(ms: seq<Message>, m: Message)
    ensures MessageIds(ms + [m]) == MessageIds(ms) + {m.id}
  {
    var t := ms + [m];
    forall x | x in MessageIds(t) ensures x in MessageIds(ms) + {m.id} {
      var o :| o in t && o.id == x;
      if o != m {
        var i :| 0 <= i < |t| && t[i] == o;
        assert i < |ms| && ms[i] == o;
      }
    }
  }
}
